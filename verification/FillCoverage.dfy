/**
 Which bytes of the window one thread's pass over the block numbers writes, and how
 often: the stride visits `n / Gcd(1 + skip, n)` places, and the header and the clipped
 last block fill the window only for certain seeks and header sizes.
 */
module FillCoverage {
  import opened NumberTheory
  import opened FillGeometry

  function Period(l: Layout, n: nat): nat
    requires n > 0 && l.skip >= 0
  {
    var g := Gcd(1 + l.skip, n);
    if g == 0 then n else n / g
  }

  // ---------------------------------------------------------------- the stride

  /** Two block numbers start at the same place exactly when the period divides their distance. */
  lemma SlotsRepeat(l: Layout, n: nat, i: nat, k: nat)
    requires n > 0 && l.size > 0 && l.skip >= 0
    ensures Gcd(1 + l.skip, n) > 0 && Period(l, n) > 0
    ensures Slot(l, n, i) == Slot(l, n, k) <==> Divides(Period(l, n), i - k)
  {
    ModEqual(Position(l, i), Position(l, k), n);
    assert Position(l, i) - Position(l, k) == (1 + l.skip) * (i - k);
    StepPeriod(1 + l.skip, n, i - k);
  }

  lemma PlaceDistance(p: int, stride: int, i: int, n: int, g: int)
    requires n > 0 && g > 0 && Divides(g, stride) && Divides(g, n)
    ensures Divides(g, (p + stride * i) % n - p)
  {
    var w := p + stride * i;
    DividesSum(g, i, stride, 0);
    DividesSum(g, -(w / n), n, stride * i);
    assert w == (w / n) * n + w % n;
    assert -(w / n) * n + stride * i == w % n - p;
  }

  /** The places visited are those at a multiple of the gcd from the first one. */
  lemma SlotResidue(l: Layout, n: nat, i: nat)
    requires n > 0 && l.size > 0 && l.skip >= 0
    ensures Gcd(1 + l.skip, n) > 0
    ensures Divides(Gcd(1 + l.skip, n), Slot(l, n, i) - Position(l, 0))
  {
    GcdDivides(1 + l.skip, n);
    hide Gcd, Divides;
    PlaceDistance(Position(l, 0), 1 + l.skip, i, n, Gcd(1 + l.skip, n));
  }

  /** The block number, if any, that starts at place `j`. */
  function Seeker(l: Layout, n: nat, j: nat): nat
    requires n > 0 && l.size > 0 && l.skip >= 0
  {
    var g := Gcd(1 + l.skip, n);
    if g == 0 then 0 else ((j - Position(l, 0)) / g * Bezout(1 + l.skip, n).0) % n
  }

  lemma SeekArith(stride: int, n: int, x: int, y: int, g: int, t: int)
    requires stride * x + n * y == g
    ensures stride * (t * x) == t * g + n * (-t * y)
  {
    assert stride * (t * x) == t * (stride * x);
    assert n * (-t * y) == -(t * (n * y));
    assert t * (stride * x) + t * (n * y) == t * (stride * x + n * y);
  }

  lemma ReducedStep(p: int, stride: int, z: int, n: int)
    requires n > 0
    ensures (p + stride * (z % n)) % n == (p + stride * z) % n
  {
    assert z == (z / n) * n + z % n;
    MulAssoc(stride, z / n, n);
    assert (p + stride * z) - (p + stride * (z % n)) == (stride * (z / n)) * n;
    Multiple(n, stride * (z / n));
    ModEqual(p + stride * z, p + stride * (z % n), n);
  }

  lemma SeekPlace(p: int, stride: nat, n: nat, j: nat)
    requires n > 0 && j < n && Gcd(stride, n) > 0 && Divides(Gcd(stride, n), j - p)
    ensures (p + stride * (((j - p) / Gcd(stride, n) * Bezout(stride, n).0) % n)) % n == j
  {
    var g := Gcd(stride, n);
    var (x, y) := Bezout(stride, n);
    var t := (j - p) / g;
    BezoutIdentity(stride, n);
    SeekArith(stride, n, x, y, g, t);
    ReducedStep(p, stride, t * x, n);
    assert t * g == j - p;
    assert p + stride * (t * x) == (-t * y) * n + j;
    DivModUnique(p + stride * (t * x), n, -t * y, j);
  }

  /** Every place at such a distance is visited. */
  lemma SlotReached(l: Layout, n: nat, j: nat)
    requires n > 0 && l.size > 0 && l.skip >= 0 && j < n && Gcd(1 + l.skip, n) > 0
    requires Divides(Gcd(1 + l.skip, n), j - Position(l, 0))
    ensures Seeker(l, n, j) < n && Slot(l, n, Seeker(l, n, j)) == j
  {
    SeekPlace(Position(l, 0), 1 + l.skip, n, j);
  }

  /** The places where the first `k` block numbers start. */
  ghost function Visited(l: Layout, n: nat, k: nat): set<nat>
    requires n > 0 && l.size > 0 && l.skip >= 0
  {
    set i: nat | i < k :: Slot(l, n, i)
  }

  lemma {:induction false} VisitedFresh(l: Layout, n: nat, k: nat)
    requires n > 0 && l.size > 0 && l.skip >= 0 && k <= Period(l, n)
    ensures |Visited(l, n, k)| == k
  {
    if k == 0 {
      assert Visited(l, n, 0) == {};
    } else {
      VisitedFresh(l, n, k - 1);
      forall i: nat | i < k - 1 ensures Slot(l, n, i) != Slot(l, n, k - 1) {
        SlotsRepeat(l, n, k - 1, i);
        DivModUnique(k - 1 - i, Period(l, n), 0, k - 1 - i);
      }
      assert Slot(l, n, k - 1) !in Visited(l, n, k - 1);
      assert Visited(l, n, k) == Visited(l, n, k - 1) + {Slot(l, n, k - 1)};
    }
  }

  lemma RemainderDistance(i: nat, v: nat)
    requires v > 0
    ensures i % v < v && Divides(v, i - i % v)
  {
    Multiple(v, i / v);
    assert i - i % v == (i / v) * v;
  }

  lemma SlotWraps(l: Layout, n: nat, i: nat)
    requires n > 0 && l.size > 0 && l.skip >= 0
    ensures Period(l, n) > 0 && i % Period(l, n) < Period(l, n)
    ensures Slot(l, n, i) == Slot(l, n, i % Period(l, n))
  {
    SlotsRepeat(l, n, 0, 0);
    hide Period, Slot, Divides;
    var v := Period(l, n);
    RemainderDistance(i, v);
    SlotsRepeat(l, n, i, i % v);
  }

  lemma PeriodFull(n: nat, g: nat)
    requires n > 0 && g > 0
    ensures n / g == n <==> g == 1
  {
    if n / g == n && g > 1 {
      MulMono(2, g, n);
    }
  }

  /** However many block numbers are handed out, only one period's worth of places is visited. */
  lemma StrideCoverage(l: Layout, n: nat, k: nat)
    requires n > 0 && l.size > 0 && l.skip >= 0 && k >= Period(l, n)
    ensures |Visited(l, n, k)| == Period(l, n)
    ensures Period(l, n) == n <==> Gcd(1 + l.skip, n) == 1
  {
    SlotsRepeat(l, n, 0, 0);
    PeriodFull(n, Gcd(1 + l.skip, n));
    hide Slot;
    VisitedFresh(l, n, Period(l, n));
    forall i: nat | i < k ensures Slot(l, n, i) in Visited(l, n, Period(l, n)) {
      SlotWraps(l, n, i);
    }
    assert Visited(l, n, k) == Visited(l, n, Period(l, n));
  }

  // ---------------------------------------------------------------- bytes of the window

  /** How many of the block numbers 0..k-1 start at place `j`. */
  function SlotHits(l: Layout, n: nat, k: nat, j: int): nat
    requires n > 0 && l.size > 0 && l.skip >= 0
  {
    if k == 0 then 0 else SlotHits(l, n, k - 1, j) + One(Slot(l, n, k - 1) == j)
  }

  lemma {:induction false} SlotHitsPositive(l: Layout, n: nat, k: nat, j: int, i: nat)
    requires n > 0 && l.size > 0 && l.skip >= 0 && i < k && Slot(l, n, i) == j
    ensures SlotHits(l, n, k, j) >= 1
    decreases k
  {
    if i == k - 1 {
    } else {
      SlotHitsPositive(l, n, k - 1, j, i);
    }
  }

  lemma {:induction false} SlotHitsTwice(l: Layout, n: nat, k: nat, j: int, i: nat, i': nat)
    requires n > 0 && l.size > 0 && l.skip >= 0 && i < i' < k
    requires Slot(l, n, i) == j == Slot(l, n, i')
    ensures SlotHits(l, n, k, j) >= 2
    decreases k
  {
    if i' < k - 1 { SlotHitsTwice(l, n, k - 1, j, i, i'); }
    else { SlotHitsPositive(l, n, k - 1, j, i); }
  }

  lemma {:induction false} SlotHitsNone(l: Layout, n: nat, k: nat, j: int)
    requires n > 0 && l.size > 0 && l.skip >= 0
    requires forall i: nat | i < k :: Slot(l, n, i) != j
    ensures SlotHits(l, n, k, j) == 0
  {
    if k == 0 {
    } else {
      SlotHitsNone(l, n, k - 1, j);
    }
  }

  lemma {:induction false} SlotHitsAtMostOnce(l: Layout, n: nat, k: nat, j: int)
    requires n > 0 && l.size > 0 && l.skip >= 0 && k <= Period(l, n)
    ensures SlotHits(l, n, k, j) <= 1
  {
    if k == 0 {
    } else {
      SlotHitsAtMostOnce(l, n, k - 1, j);
      if Slot(l, n, k - 1) == j {
        forall i: nat | i < k - 1 ensures Slot(l, n, i) != j {
          SlotsRepeat(l, n, k - 1, i);
          DivModUnique(k - 1 - i, Period(l, n), 0, k - 1 - i);
        }
        SlotHitsNone(l, n, k - 1, j);
      }
    }
  }

  /** A stride coprime to the block count starts exactly one of the first `n` blocks at each place. */
  lemma CoprimeHitsOnce(l: Layout, n: nat, j: nat)
    requires n > 0 && l.size > 0 && l.skip >= 0 && j < n && Gcd(1 + l.skip, n) == 1
    ensures SlotHits(l, n, n, j) == 1
  {
    SlotReached(l, n, j);
    SlotHitsPositive(l, n, n, j, Seeker(l, n, j));
    SlotHitsAtMostOnce(l, n, n, j);
  }

  /** The place of the byte at distance `x` from the window's start. */
  function ByteSlot(l: Layout, x: nat): int
    requires l.size > 0
  {
    (x - Lead(l)) / l.size
  }

  lemma InBlock(x: int, j: nat, n: nat, size: nat, c: nat)
    requires n > 0 && 0 <= x < n * size && j < n && c < size
    ensures j * size + c <= x < j * size + c + (if j == n - 1 then size - c else size)
       <==> x >= c && (x - c) / size == j
    ensures x >= c ==> 0 <= (x - c) / size < n
  {
    var t := (x - c) / size;
    assert x - c == t * size + (x - c) % size;
    if t < j { MulMono(t + 1, j, size); assert (t + 1) * size == t * size + size; }
    if t > j { MulMono(j + 1, t, size); assert (j + 1) * size == j * size + size; }
    if t >= n { MulMono(n, t, size); }
    if x >= c && t < 0 { MulMono(t, -1, size); }
    if j == n - 1 { assert j * size == n * size - size; }
  }

  /** Block `bno` reaches a byte of the window exactly when it starts at the byte's place. */
  lemma BodyCovers(l: Layout, n: nat, bno: nat, count: nat, x: nat)
    requires Plain(l, n, count) && bno <= count && x < l.rangeoff
    ensures Covers(BodyExtent(l, bno), l.minoff + x)
       <==> x >= Lead(l) && ByteSlot(l, x) == Slot(l, n, bno)
  {
    BodyAt(l, n, bno, count);
    InBlock(x, Slot(l, n, bno), n, l.size, Lead(l));
  }

  lemma OneGrant(l: Layout, k: nat, b: nat)
    requires l.rangeoff > 0 && 0 < k <= l.nio
    ensures Hits(SeqWrites(l, k), b)
         == Hits(SeqWrites(l, k - 1), b)
          + One(k == 1 && l.headersz != 0 && Covers(HeaderExtent(l), b))
          + One(Covers(BodyExtent(l, k - 1), b))
  {
    PassIndex(0, k - 1, l.nio);
    HitsGrant(l, k - 1, k - 1, b);
    HitsWritesOf(l, k - 1, b);
  }

  /** How often a byte of the window is written by one thread taking the grants 0..k-1. */
  lemma {:induction false} WindowHits(l: Layout, n: nat, k: nat, x: nat)
    requires Plain(l, n, l.nio) && k <= l.nio && 0 < l.nio && x < l.rangeoff
    ensures Hits(SeqWrites(l, k), l.minoff + x)
         == One(k > 0 && l.headersz != 0 && Covers(HeaderExtent(l), l.minoff + x))
          + (if x < Lead(l) then 0 else SlotHits(l, n, k, ByteSlot(l, x)))
    decreases k
  {
    hide WindowBytes, Reach, ByteSlot, Lead, Slot, SeqWrites, Hits, BodyExtent, HeaderExtent, Covers;
    var b := l.minoff + x;
    if k == 0 {
      HitsNone(l, b);
    } else {
      WindowHits(l, n, k - 1, x);
      OneGrant(l, k, b);
      BodyCovers(l, n, k - 1, l.nio, x);
    }
  }

  /** No body reaches past the window; the header does only if it starts too near the end. */
  lemma {:induction false} OutsideHits(l: Layout, n: nat, k: nat, b: nat)
    requires Plain(l, n, l.nio) && k <= l.nio && 0 < l.nio && l.rangeoff > 0
    requires b < l.minoff || b >= l.minoff + l.rangeoff
    ensures Hits(SeqWrites(l, k), b) == One(k > 0 && l.headersz != 0 && Covers(HeaderExtent(l), b))
    decreases k
  {
    hide WindowBytes, Reach, SeqWrites, Hits, BodyExtent, HeaderExtent;
    if k == 0 {
      HitsNone(l, b);
    } else {
      OutsideHits(l, n, k - 1, b);
      OneGrant(l, k, b);
      BodyInside(l, n, k - 1, l.nio);
    }
  }

  lemma BodyInside(l: Layout, n: nat, bno: nat, count: nat)
    requires Plain(l, n, count) && bno <= count
    ensures l.rangeoff > 0 && l.minoff <= BodyExtent(l, bno).off
    ensures BodyExtent(l, bno).off + BodyExtent(l, bno).len <= l.minoff + l.rangeoff
  {
    BodyAt(l, n, bno, count);
    PlaceAt(l, n, bno, count);
  }

  // ---------------------------------------------------------------- when the window is filled

  predicate InWindow(l: Layout, b: nat) {
    l.minoff <= b < l.minoff + l.rangeoff
  }

  /** Every byte of the window is written exactly `times` times, and no other byte is written. */
  ghost predicate FilledExactly(ws: seq<Extent>, l: Layout, times: nat) {
    forall b: nat :: Hits(ws, b) == if InWindow(l, b) then times else 0
  }

  /** Every byte of the window is written. */
  ghost predicate Filled(ws: seq<Extent>, l: Layout) {
    forall b: nat :: InWindow(l, b) ==> Hits(ws, b) >= 1
  }

  /** What a caller can check before an exact fill of `n` blocks. */
  predicate ExactFill(l: Layout, n: nat)
    requires n > 0 && l.size > 0 && l.skip >= 0 && l.rangeoff > 0
  {
    && Gcd(1 + l.skip, n) == 1
    && if l.headersz == 0 then l.seekoff % l.size == 0
       else l.headersz < l.size && l.seekoff % l.rangeoff == 0
  }

  /** What a caller can check before a fill that leaves no byte out. */
  predicate CoveringFill(l: Layout, n: nat)
    requires n > 0 && l.size > 0 && l.skip >= 0 && l.rangeoff > 0
  {
    || (&& Gcd(1 + l.skip, n) == 1
        && (Lead(l) == 0 || (l.headersz > 0 && l.seekoff % l.rangeoff == 0)))
    || (l.headersz == l.size && n == 2 && Gcd(1 + l.skip, n) == 2 && l.seekoff % l.size == 0)
  }

  lemma PassHits(l: Layout, n: nat, x: nat)
    requires Plain(l, n, l.nio) && 0 < l.nio && x < l.rangeoff
    ensures x >= Lead(l) ==> 0 <= ByteSlot(l, x) < n
    ensures Hits(SeqWrites(l, l.nio), l.minoff + x)
         == One(l.headersz != 0 && l.seekoff % l.rangeoff <= x < l.seekoff % l.rangeoff + l.headersz)
          + (if x < Lead(l) then 0 else SlotHits(l, n, l.nio, ByteSlot(l, x)))
  {
    HeaderAt(l, n, l.nio);
    WindowHits(l, n, l.nio, x);
    InBlock(x, 0, n, l.size, Lead(l));
  }

  /** A multiple of the window is a multiple of the block size. */
  lemma WindowMultiple(s: nat, n: nat, size: nat)
    requires n > 0 && size > 0
    ensures n * size > 0 && s % size == (s % (n * size)) % size
  {
    var q := s / (n * size);
    MulAssoc(q, n, size);
    assert s - s % (n * size) == (q * n) * size;
    Multiple(size, q * n);
    ModEqual(s, s % (n * size), size);
  }

  lemma LeadArith(s: nat, h: nat, size: nat)
    requires 0 < size && h <= size
    ensures h == 0 || h == size ==> (s + h) % size == s % size
    ensures s % size == 0 && h < size ==> (s + h) % size == h
  {
    if h == size {
      DivModUnique(s + h, size, s / size + 1, s % size);
    } else if s % size == 0 {
      DivModUnique(s + h, size, s / size, h);
    }
  }

  /** How far into a block the bodies start, from the seek's place in the window. */
  lemma LeadFrom(l: Layout, n: nat)
    requires Plain(l, n, l.nio)
    ensures l.seekoff % l.size == (l.seekoff % l.rangeoff) % l.size
    ensures l.headersz == 0 || l.headersz == l.size ==> Lead(l) == l.seekoff % l.size
    ensures l.seekoff % l.rangeoff == 0 && l.headersz < l.size ==> Lead(l) == l.headersz
  {
    WindowMultiple(l.seekoff, n, l.size);
    LeadArith(l.seekoff, l.headersz, l.size);
    ZeroMod(l.size);
  }

  lemma ZeroMod(m: nat)
    requires m > 0
    ensures 0 % m == 0
  {
  }

  lemma ExactPass(l: Layout, n: nat, b: nat)
    requires Plain(l, n, l.nio) && l.nio == n && ExactFill(l, n)
    ensures Hits(SeqWrites(l, n), b) == One(InWindow(l, b))
  {
    LeadFrom(l, n);
    HeaderAt(l, n, n);
    if InWindow(l, b) {
      var x := b - l.minoff;
      PassHits(l, n, x);
      if x >= Lead(l) { CoprimeHitsOnce(l, n, ByteSlot(l, x)); }
    } else {
      OutsideHits(l, n, n, b);
      HeaderInside(l, n);
    }
  }

  lemma HeaderInside(l: Layout, n: nat)
    requires Plain(l, n, l.nio)
    ensures l.seekoff % l.rangeoff == 0 ==> l.seekoff % l.rangeoff + l.headersz <= l.rangeoff
    ensures l.size <= l.rangeoff
  {
    MulMono(1, n, l.size);
  }

  /** The byte where block number `bno` starts. */
  function StartOf(l: Layout, n: nat, bno: nat): nat
    requires n > 0 && l.size > 0 && l.skip >= 0
  {
    Slot(l, n, bno) * l.size + Lead(l)
  }

  lemma StartSlot(l: Layout, n: nat, j: nat)
    requires Plain(l, n, l.nio) && j < n
    ensures 0 <= j * l.size + Lead(l) < l.rangeoff
    ensures ByteSlot(l, j * l.size + Lead(l)) == j
  {
    Multiple(l.size, j);
    MulMono(j + 1, n, l.size);
    assert (j + 1) * l.size == j * l.size + l.size;
  }

  /** With a common factor, the first place is written again one period later. */
  lemma SharedFactorTwice(l: Layout, n: nat)
    requires Plain(l, n, l.nio) && l.nio == n && Gcd(1 + l.skip, n) != 1
    ensures SlotHits(l, n, n, Slot(l, n, 0)) >= 2
  {
    SlotsRepeat(l, n, Period(l, n), 0);
    PeriodFull(n, Gcd(1 + l.skip, n));
    Multiple(Period(l, n), 1);
    assert Period(l, n) < n by { QuotientBelow(n, Gcd(1 + l.skip, n)); }
    SlotHitsTwice(l, n, n, Slot(l, n, 0), 0, Period(l, n));
  }

  lemma QuotientBelow(n: nat, g: nat)
    requires n > 0 && g > 1
    ensures n / g < n
  {
    if n / g >= n { MulMono(n, n / g, g); MulMono(2, g, n); }
  }

  /** The start of the window is missed when no header begins there and the bodies start later. */
  lemma StartMissed(l: Layout, n: nat)
    requires Plain(l, n, l.nio) && 0 < l.nio && Lead(l) > 0
    requires l.headersz == 0 || l.seekoff % l.rangeoff != 0
    ensures InWindow(l, l.minoff) && Hits(SeqWrites(l, l.nio), l.minoff) == 0
  {
    HeaderInside(l, n);
    PassHits(l, n, 0);
  }

  /** A header that starts at or after the first body's offset in its block overwrites a body. */
  lemma HeaderOverlaps(l: Layout, n: nat)
    requires Plain(l, n, l.nio) && l.nio == n && Gcd(1 + l.skip, n) == 1
    requires l.headersz > 0 && l.rangeoff > 0 && Lead(l) <= l.seekoff % l.rangeoff
    ensures InWindow(l, l.minoff + l.seekoff % l.rangeoff)
    ensures Hits(SeqWrites(l, n), l.minoff + l.seekoff % l.rangeoff) == 2
  {
    var place := l.seekoff % l.rangeoff;
    PassHits(l, n, place);
    CoprimeHitsOnce(l, n, ByteSlot(l, place));
  }

  lemma FirstPlaceTwice(l: Layout, n: nat)
    requires Plain(l, n, l.nio) && l.nio == n && Gcd(1 + l.skip, n) != 1
    ensures InWindow(l, l.minoff + StartOf(l, n, 0))
    ensures Hits(SeqWrites(l, n), l.minoff + StartOf(l, n, 0)) >= 2
  {
    SharedFactorTwice(l, n);
    StartSlot(l, n, Slot(l, n, 0));
    MulMono(0, Slot(l, n, 0), l.size);
    assert StartOf(l, n, 0) >= Lead(l) && ByteSlot(l, StartOf(l, n, 0)) == Slot(l, n, 0);
    hide ByteSlot, Slot, StartOf, Lead, WindowBytes, Reach, Hits, SeqWrites, Gcd;
    PassHits(l, n, StartOf(l, n, 0));
  }

  /** When the conditions of an exact fill fail, this byte is written a wrong number of times. */
  lemma ExactWitness(l: Layout, n: nat) returns (b: nat)
    requires Plain(l, n, l.nio) && l.nio == n && !ExactFill(l, n)
    ensures InWindow(l, b) && Hits(SeqWrites(l, n), b) != 1
  {
    LeadFrom(l, n);
    HeaderInside(l, n);
    RemainderBelow(l.seekoff % l.rangeoff, l.size);
    hide WindowBytes, Reach, InWindow, Hits, SeqWrites, StartOf;
    if Gcd(1 + l.skip, n) != 1 {
      FirstPlaceTwice(l, n);
      b := l.minoff + StartOf(l, n, 0);
    } else if l.headersz == 0 || (l.headersz < l.size && Lead(l) > 0) {
      StartMissed(l, n);
      b := l.minoff;
    } else {
      HeaderOverlaps(l, n);
      b := l.minoff + l.seekoff % l.rangeoff;
    }
  }

  lemma RemainderBelow(x: nat, m: nat)
    requires m > 0
    ensures x % m <= x
  {
    if x < m { DivModUnique(x, m, 0, x); }
  }

  /**
   One thread fills the window exactly, each byte once a repetition and nothing outside,
   if and only if the stride is coprime to the block count and the header and the seek fit.
   */
  lemma ExactFillIff(l: Layout, n: nat, r: nat)
    requires Plain(l, n, l.nio) && l.nio == n && r > 0
    ensures FilledExactly(SeqWrites(l, l.nio * r), l, r) <==> ExactFill(l, n)
  {
    HeaderInside(l, n);
    hide WindowBytes, Reach, SeqWrites, Hits, ExactFill, InWindow;
    var ws := SeqWrites(l, l.nio * r);
    if ExactFill(l, n) {
      forall b: nat ensures Hits(ws, b) == if InWindow(l, b) then r else 0 {
        HitsPasses(l, r, b);
        ExactPass(l, n, b);
        TimesOne(r, Hits(SeqWrites(l, n), b));
      }
    } else {
      var b := ExactWitness(l, n);
      HitsPasses(l, r, b);
      TimesOne(r, Hits(SeqWrites(l, n), b));
    }
    hide Plain, FilledExactly;
  }

  lemma TimesOne(r: nat, h: nat)
    requires r > 0
    ensures r * h == r <==> h == 1
    ensures r * h == 0 <==> h == 0
  {
    if h >= 2 { MulMono(2, h, r); }
  }

  // ---------------------------------------------------------------- when no byte is left out

  /** The place `d` beyond the first one. */
  function Beyond(l: Layout, n: nat, d: int): nat
    requires n > 0 && l.size > 0 && l.skip >= 0
  {
    (Position(l, 0) + d) % n
  }

  lemma BeyondResidue(p: int, d: int, n: int, g: int)
    requires n > 0 && g > 0 && Divides(g, n)
    ensures Divides(g, (p + d) % n - p) <==> Divides(g, d)
  {
    var w := p + d;
    assert w == (w / n) * n + w % n;
    Multiple(g, 0);
    DividesSum(g, -(w / n), n, 0);
    ModEqual(w % n - p, d, g);
    assert (w % n - p) - d == -(w / n) * n;
  }

  /** A place that is no multiple of the gcd away from the first one is never visited. */
  lemma Unvisited(l: Layout, n: nat, d: int, k: nat)
    requires n > 0 && l.size > 0 && l.skip >= 0
    requires Gcd(1 + l.skip, n) > 0 && !Divides(Gcd(1 + l.skip, n), d)
    ensures SlotHits(l, n, k, Beyond(l, n, d)) == 0
  {
    BeyondAway(l, n, d);
    hide Position, Slot, Divides, Gcd, Beyond;
    forall i: nat | i < k ensures Slot(l, n, i) != Beyond(l, n, d) {
      SlotResidue(l, n, i);
    }
    SlotHitsNone(l, n, k, Beyond(l, n, d));
  }

  lemma BeyondAway(l: Layout, n: nat, d: int)
    requires n > 0 && l.size > 0 && l.skip >= 0
    requires Gcd(1 + l.skip, n) > 0 && !Divides(Gcd(1 + l.skip, n), d)
    ensures !Divides(Gcd(1 + l.skip, n), Beyond(l, n, d) - Position(l, 0))
  {
    GcdDivides(1 + l.skip, n);
    hide Position, Divides, Gcd;
    BeyondResidue(Position(l, 0), d, n, Gcd(1 + l.skip, n));
  }

  lemma CoprimeCovers(l: Layout, n: nat, x: nat)
    requires Plain(l, n, l.nio) && l.nio >= n && Gcd(1 + l.skip, n) == 1 && Lead(l) <= x < l.rangeoff
    ensures Hits(SeqWrites(l, l.nio), l.minoff + x) >= 1
  {
    PassHits(l, n, x);
    hide WindowBytes, Reach, ByteSlot;
    var j: nat := ByteSlot(l, x);
    SlotReached(l, n, j);
    SlotHitsPositive(l, n, l.nio, j, Seeker(l, n, j));
  }

  lemma HeaderCovers(l: Layout, n: nat, x: nat)
    requires Plain(l, n, l.nio) && l.nio > 0 && x < l.rangeoff
    requires l.seekoff % l.rangeoff <= x < l.seekoff % l.rangeoff + l.headersz
    ensures Hits(SeqWrites(l, l.nio), l.minoff + x) >= 1
  {
    PassHits(l, n, x);
  }

  lemma BlockSeek(s: nat, size: nat, n: nat)
    requires size > 0 && n > 0 && s % size == 0
    ensures (s + size) % size == 0 && (s + size) / size == s / size + 1
    ensures n * size > 0 && s % (n * size) == ((s / size) % n) * size
  {
    DivModUnique(s + size, size, s / size + 1, 0);
    SlotArith(s / size, n, size, 0);
    assert s == (s / size) * size;
  }

  /** A block-sized header at a block boundary is one place of the window, just before the first body. */
  lemma BlockHeader(l: Layout, n: nat)
    requires Plain(l, n, l.nio) && l.headersz == l.size && l.seekoff % l.size == 0
    ensures Lead(l) == 0 && Position(l, 0) == l.seekoff / l.size + 1
    ensures l.seekoff % l.rangeoff == Beyond(l, n, -1) * l.size
  {
    BlockSeek(l.seekoff, l.size, n);
    hide Reach;
  }

  lemma OddPlaces(j: nat, p: nat)
    requires j < 2 && !Divides(2, j - p)
    ensures j == (p - 1) % 2
  {
  }

  /** Two places, a block-sized header and an odd skip: the header writes what the bodies miss. */
  lemma HeaderFillsGap(l: Layout, x: nat)
    requires Plain(l, 2, l.nio) && l.nio >= 2 && l.headersz == l.size && l.seekoff % l.size == 0
    requires Gcd(1 + l.skip, 2) == 2 && x < l.rangeoff
    ensures Hits(SeqWrites(l, l.nio), l.minoff + x) >= 1
  {
    BlockHeader(l, 2);
    PassHits(l, 2, x);
    InBlock(x, Beyond(l, 2, -1), 2, l.size, 0);
    var j: nat := ByteSlot(l, x);
    var p := Position(l, 0);
    hide WindowBytes, Reach, ByteSlot, Position, Hits, SeqWrites, Gcd;
    if Divides(2, j - p) {
      SlotReached(l, 2, j);
      SlotHitsPositive(l, 2, l.nio, j, Seeker(l, 2, j));
    } else {
      OddPlaces(j, p);
    }
  }

  lemma CoverPass(l: Layout, n: nat, x: nat)
    requires Plain(l, n, l.nio) && l.nio >= n && CoveringFill(l, n) && x < l.rangeoff
    ensures Hits(SeqWrites(l, l.nio), l.minoff + x) >= 1
  {
    LeadFrom(l, n);
    hide WindowBytes, Reach, Hits, SeqWrites;
    if Gcd(1 + l.skip, n) != 1 {
      HeaderFillsGap(l, x);
    } else if x >= Lead(l) {
      CoprimeCovers(l, n, x);
    } else {
      HeaderCovers(l, n, x);
    }
  }

  lemma NoHits(l: Layout, n: nat, d: int, x: nat)
    requires Plain(l, n, l.nio) && 0 < l.nio && Gcd(1 + l.skip, n) > 0
    requires !Divides(Gcd(1 + l.skip, n), d)
    requires Lead(l) <= x < l.rangeoff && ByteSlot(l, x) == Beyond(l, n, d)
    requires !(l.seekoff % l.rangeoff <= x < l.seekoff % l.rangeoff + l.headersz)
    ensures InWindow(l, l.minoff + x) && Hits(SeqWrites(l, l.nio), l.minoff + x) == 0
  {
    PassHits(l, n, x);
    Unvisited(l, n, d, l.nio);
  }

  lemma LastByte(l: Layout, n: nat, j: nat)
    requires Plain(l, n, l.nio) && j < n && Lead(l) == 0
    ensures 0 <= j * l.size + (l.size - 1) < l.rangeoff
    ensures ByteSlot(l, j * l.size + (l.size - 1)) == j
  {
    DivModUnique(j * l.size + (l.size - 1), l.size, j, l.size - 1);
    MulMono(j + 1, n, l.size);
    assert (j + 1) * l.size == j * l.size + l.size;
  }

  /** A header shorter than a block leaves a byte of the place it might cover. */
  lemma ShortHeaderMisses(l: Layout, n: nat, d: int) returns (b: nat)
    requires Plain(l, n, l.nio) && 0 < l.nio && Gcd(1 + l.skip, n) > 0
    requires !Divides(Gcd(1 + l.skip, n), d) && l.headersz < l.size
    requires Lead(l) == 0 || (l.seekoff % l.rangeoff == 0 && Lead(l) == l.headersz)
    ensures InWindow(l, b) && Hits(SeqWrites(l, l.nio), b) == 0
  {
    var j := Beyond(l, n, d);
    StartSlot(l, n, j);
    var place, start := l.seekoff % l.rangeoff, j * l.size + Lead(l);
    assert start >= Lead(l) by { MulMono(0, j, l.size); }
    if Lead(l) == 0 { LastByte(l, n, j); }
    hide WindowBytes, Reach, Beyond, ByteSlot, Lead, Hits, SeqWrites, InWindow, Divides, Gcd;
    if place <= start < place + l.headersz {
      b := l.minoff + start + (l.size - 1);
      NoHits(l, n, d, start + (l.size - 1));
    } else {
      b := l.minoff + start;
      NoHits(l, n, d, start);
    }
  }

  lemma Neighbours(p: int, n: nat)
    requires n > 2
    ensures (p + 1) % n != (p - 1) % n
  {
    ModEqual(p + 1, p - 1, n);
    DivModUnique(2, n, 0, 2);
  }

  lemma DistinctPlaces(j: nat, k: nat, size: nat)
    requires j != k && size > 0
    ensures !(k * size <= j * size < k * size + size)
  {
    if j > k { MulMono(k + 1, j, size); } else { MulMono(j + 1, k, size); }
  }

  lemma BlockHeaderMisses(l: Layout, n: nat) returns (b: nat)
    requires Plain(l, n, l.nio) && 0 < l.nio && n > 2 && l.headersz == l.size
    requires Gcd(1 + l.skip, n) > 1 && l.seekoff % l.size == 0
    ensures InWindow(l, b) && Hits(SeqWrites(l, l.nio), b) == 0
  {
    BlockHeader(l, n);
    Neighbours(Position(l, 0), n);
    var j := Beyond(l, n, 1);
    StartSlot(l, n, j);
    DistinctPlaces(j, Beyond(l, n, -1), l.size);
    OneIndivisible(Gcd(1 + l.skip, n));
    b := l.minoff + j * l.size;
    hide WindowBytes, Reach, Beyond, ByteSlot, Lead, Hits, SeqWrites, InWindow;
    NoHits(l, n, 1, j * l.size);
  }

  lemma GcdOfTwo(g: nat)
    requires g > 1 && Divides(g, 2)
    ensures g == 2
  {
    if g > 2 { DivModUnique(2, g, 0, 2); }
  }

  lemma GcdBelow(g: nat, n: nat)
    requires g > 1 && n > 0 && Divides(g, n)
    ensures n >= 2
  {
    if n == 1 { DivModUnique(1, g, 0, 1); }
  }

  lemma OneIndivisible(g: nat)
    requires g > 1
    ensures !Divides(g, 1)
  {
    DivModUnique(1, g, 0, 1);
  }

  /** The bodies start inside a block and no header begins the window. */
  predicate StartGap(l: Layout)
    requires l.size > 0 && l.rangeoff > 0
  {
    Lead(l) > 0 && (l.headersz == 0 || l.seekoff % l.rangeoff != 0)
  }

  /** The ways in which the conditions of a covering fill can fail. */
  lemma UncoveredCases(l: Layout, n: nat)
    requires Plain(l, n, l.nio) && l.rangeoff > 0 && !CoveringFill(l, n) && !StartGap(l)
    ensures Gcd(1 + l.skip, n) > 1
    ensures l.headersz < l.size ==>
      Lead(l) == 0 || (l.seekoff % l.rangeoff == 0 && Lead(l) == l.headersz)
    ensures l.headersz == l.size ==> l.seekoff % l.size == 0 && n > 2
  {
    LeadFrom(l, n);
    HeaderInside(l, n);
    SharedFactor(1 + l.skip, n);
    ZeroMod(l.size);
    hide WindowBytes, Reach, Gcd, Lead;
  }

  lemma SharedFactor(a: nat, n: nat)
    requires n > 0 && Gcd(a, n) != 1
    ensures Gcd(a, n) > 1 && n >= 2 && (n == 2 ==> Gcd(a, n) == 2)
  {
    GcdDivides(a, n);
    GcdBelow(Gcd(a, n), n);
    if n == 2 { GcdOfTwo(Gcd(a, n)); }
  }

  /** When the conditions of a covering fill fail, this byte is never written. */
  lemma CoverWitness(l: Layout, n: nat) returns (b: nat)
    requires Plain(l, n, l.nio) && l.nio >= n && !CoveringFill(l, n)
    ensures InWindow(l, b) && Hits(SeqWrites(l, l.nio), b) == 0
  {
    HeaderInside(l, n);
    hide WindowBytes, Reach, CoveringFill, Gcd, InWindow, Hits, SeqWrites, Lead, Divides;
    if StartGap(l) {
      StartMissed(l, n);
      b := l.minoff;
    } else {
      UncoveredCases(l, n);
      if l.headersz < l.size {
        OneIndivisible(Gcd(1 + l.skip, n));
        b := ShortHeaderMisses(l, n, 1);
      } else {
        b := BlockHeaderMisses(l, n);
      }
    }
  }

  /**
   One thread writes every byte of the window if and only if the stride is coprime to the
   block count and either the bodies are block aligned or a header begins the window; the
   one exception is a window of two blocks whose header is a whole block.
   */
  lemma CoveringFillIff(l: Layout, n: nat, r: nat)
    requires Plain(l, n, l.nio) && l.nio >= n && r > 0
    ensures Filled(SeqWrites(l, l.nio * r), l) <==> CoveringFill(l, n)
  {
    HeaderInside(l, n);
    hide WindowBytes, Reach, SeqWrites, Hits, CoveringFill;
    var ws := SeqWrites(l, l.nio * r);
    if CoveringFill(l, n) {
      forall b: nat | InWindow(l, b) ensures Hits(ws, b) >= 1 {
        HitsPasses(l, r, b);
        CoverPass(l, n, b - l.minoff);
        TimesPositive(r, Hits(SeqWrites(l, l.nio), b));
      }
    } else {
      var b := CoverWitness(l, n);
      HitsPasses(l, r, b);
      TimesPositive(r, Hits(SeqWrites(l, l.nio), b));
    }
    hide Plain, InWindow;
  }

  lemma TimesPositive(r: nat, h: nat)
    requires r > 0
    ensures r * h >= 1 <==> h >= 1
  {
  }

  // ---------------------------------------------------------------- the sparse fill

  /** With any multiplier two bodies have a byte in common exactly when the period divides the distance of their numbers. */
  lemma SparseBodiesMeetIff(l: Layout, n: nat, i: nat, k: nat, count: nat)
    requires Sparse(l, n, count) && i <= count && k <= count
    ensures l.rangeoff > 0 && Gcd(1 + l.skip, n) > 0 && Period(l, n) > 0
    ensures (exists b: nat :: Covers(BodyExtent(l, i), b) && Covers(BodyExtent(l, k), b))
       <==> Divides(Period(l, n), i - k)
  {
    SlotsRepeat(l, n, i, k);
    SparseMeetIff(l, n, i, k, count);
    hide Slot, Period, Covers, BodyExtent, Divides;
  }

  /** Whether one of the first `k` bodies reaches byte `b`. */
  ghost predicate Reached(l: Layout, k: nat, b: nat)
    requires l.rangeoff > 0
  {
    exists bno: nat :: bno < k && Covers(BodyExtent(l, bno), b)
  }

  /** Up to the period no byte is written twice, by whatever multiplier the blocks are spread. */
  lemma {:induction false} SparsePassOnce(l: Layout, n: nat, k: nat, b: nat)
    requires Sparse(l, n, l.nio) && 0 < l.nio && l.headersz == 0 && l.rangeoff > 0
    requires k <= l.nio && Gcd(1 + l.skip, n) > 0 && k <= Period(l, n)
    ensures Hits(SeqWrites(l, k), b) == One(Reached(l, k, b))
  {
    hide Hits, SeqWrites, WritesOf, BodyExtent, Covers, Period;
    if k == 0 {
      HitsNone(l, b);
    } else {
      hide Sparse;
      SparsePassOnce(l, n, k - 1, b);
      ReachedNext(l, k - 1, b);
      NotAgain(l, n, k - 1, b);
      BodyGranted(l, k - 1, b);
    }
  }

  /** Without a header a grant in the first pass is one body more. */
  lemma BodyGranted(l: Layout, k: nat, b: nat)
    requires l.rangeoff > 0 && k < l.nio && l.headersz == 0
    ensures Hits(SeqWrites(l, k + 1), b) == Hits(SeqWrites(l, k), b) + One(Covers(BodyExtent(l, k), b))
  {
    hide Hits, SeqWrites, WritesOf, BodyExtent, Covers;
    assert Divides(l.nio, 0);
    HitsNext(l, 0, k, b);
    HitsWritesOf(l, k, b);
  }

  lemma ReachedNext(l: Layout, k: nat, b: nat)
    requires l.rangeoff > 0
    ensures Reached(l, k + 1, b) <==> Reached(l, k, b) || Covers(BodyExtent(l, k), b)
  {
    hide BodyExtent, Covers;
    if Reached(l, k, b) {
      var bno: nat :| bno < k && Covers(BodyExtent(l, bno), b);
      assert bno < k + 1;
    }
    if Reached(l, k + 1, b) {
      var bno: nat :| bno < k + 1 && Covers(BodyExtent(l, bno), b);
    }
  }

  lemma NotAgain(l: Layout, n: nat, k: nat, b: nat)
    requires Sparse(l, n, l.nio) && l.rangeoff > 0 && k < l.nio && Gcd(1 + l.skip, n) > 0 && k < Period(l, n)
    ensures !(Reached(l, k, b) && Covers(BodyExtent(l, k), b))
  {
    hide BodyExtent, Covers, Sparse, Period;
    if Reached(l, k, b) && Covers(BodyExtent(l, k), b) {
      var bno: nat :| bno < k && Covers(BodyExtent(l, bno), b);
      SparseBodiesMeetIff(l, n, k, bno, l.nio);
    }
  }
}
