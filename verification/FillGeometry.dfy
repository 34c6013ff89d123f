/**
 Where iofill writes: the range arithmetic of ithreadinit and the mapping of a block
 number to a byte extent in io_thread, on 64-bit words.
 */
module FillGeometry {
  import opened Words
  import opened NumberTheory

  /** The command parameters that decide where a write goes. */
  datatype Params = Params(
    size: nat, nio: nat, nrep: nat, seekoff: nat, headersz: nat,
    skip: int, minoff: nat, maxoff: nat, multiplier: int)

  /** The fields of a thread that its offset arithmetic reads. */
  datatype Layout = Layout(
    size: nat, nio: nat, seekoff: nat, headersz: nat,
    skip: int, minoff: nat, multiplier: int, rangeoff: nat)

  /** A run of bytes named by one read or write call. */
  datatype Extent = Extent(off: nat, len: nat)

  /** What option parsing and the field types guarantee. */
  predicate WellTyped(p: Params) {
    && 0 < p.size < 0x8000_0000 && p.size % SECTOR == 0
    && p.nio < TWO64 && p.nrep < TWO64 && p.seekoff < TWO64
    && p.headersz < TWO64 && p.minoff < TWO64 && p.maxoff < TWO64
    && -0x8000_0000 <= p.skip < 0x7FFF_FFFF
    && -0x8000_0000 <= p.multiplier < 0x8000_0000
  }

  // ---------------------------------------------------------------- thread set-up

  function MinBlks(p: Params): nat
    requires p.size > 0
  {
    p.minoff / p.size
  }

  function MaxBlks(p: Params): nat
    requires p.size > 0
  {
    var blks := p.maxoff / p.size;
    var atLeastOne := if blks == 0 then 1 else blks;
    if atLeastOne == MinBlks(p) then MinBlks(p) + 1 else atLeastOne
  }

  function RangeOff(p: Params): nat
    requires p.size > 0
  {
    U64(U64(MaxBlks(p) - MinBlks(p)) * p.size)
  }

  function HeaderSize(p: Params): nat
    requires p.size > 0
  {
    if p.headersz > p.size then p.headersz % p.size else p.headersz
  }

  /** A header up to a block long is kept, a longer one is reduced to less than a block. */
  lemma HeaderKeptIff(p: Params)
    requires p.size > 0
    ensures HeaderSize(p) == p.headersz <==> p.headersz <= p.size
    ensures p.headersz > p.size ==> HeaderSize(p) == p.headersz % p.size < p.size
  {
  }

  function ThreadLayout(p: Params): Layout
    requires p.size > 0
  {
    Layout(p.size, p.nio, p.seekoff, HeaderSize(p), p.skip, p.minoff, p.multiplier, RangeOff(p))
  }

  function TotalIo(p: Params): nat {
    U64(p.nio * p.nrep)
  }

  // ---------------------------------------------------------------- one grant's writes

  /** The first byte past the window, as the clip computes it. */
  function WindowEnd(l: Layout): nat {
    U64(l.minoff + l.rangeoff * l.multiplier)
  }

  function Place(l: Layout, linear: nat): nat
    requires l.rangeoff > 0
  {
    U64(l.minoff + (linear % l.rangeoff) * l.multiplier)
  }

  /** The header write; it is not clipped. */
  function HeaderExtent(l: Layout): Extent
    requires l.rangeoff > 0
  {
    Extent(Place(l, l.seekoff), U32(l.headersz))
  }

  function Linear(l: Layout, bno: nat): nat {
    U64(l.seekoff + l.headersz + l.size * (1 + l.skip) * bno)
  }

  /** The write of block number `bno`, clipped at the end of the window. */
  function BodyExtent(l: Layout, bno: nat): Extent
    requires l.rangeoff > 0
  {
    var off := Place(l, Linear(l, bno));
    if U64(off + l.size) > WindowEnd(l)
    then Extent(off, U32(WindowEnd(l) - off))
    else Extent(off, l.size)
  }

  /** The writes that the holder of block number `bno` issues, in order. */
  function WritesOf(l: Layout, bno: nat): (ws: seq<Extent>)
    requires l.rangeoff > 0
    ensures 1 <= |ws| <= 2
  {
    (if bno == 0 && l.headersz != 0 then [HeaderExtent(l)] else []) + [BodyExtent(l, bno)]
  }

  /** The writes of grants 0..k-1 when one thread takes them all. */
  function SeqWrites(l: Layout, k: nat): seq<Extent>
    requires l.rangeoff > 0 && l.nio > 0
  {
    if k == 0 then [] else SeqWrites(l, k - 1) + WritesOf(l, (k - 1) % l.nio)
  }

  // ---------------------------------------------------------------- with a multiplier

  /** Nothing in the offsets of the header and of block `bno` wraps. */
  predicate Bounded(l: Layout, bno: nat) {
    && l.rangeoff > 0 && l.multiplier >= 1 && l.skip >= 0 && l.size < TWO32 && l.headersz < TWO32
    && l.minoff + l.multiplier * l.rangeoff + l.size < TWO64
    && l.seekoff + l.headersz + l.size * (1 + l.skip) * bno < TWO64
  }

  /** The offset that `place` is spread to, and where the range ends when it is spread as a whole. */
  lemma Spread(minoff: nat, place: nat, range: nat, m: int, size: nat)
    requires place < range && m >= 1 && minoff + m * range + size < TWO64
    ensures m * place + m <= m * range
    ensures U64(minoff + place * m) == minoff + m * place
    ensures U64(minoff + range * m) == minoff + m * range
    ensures U64(minoff + m * place + size) == minoff + m * place + size
  {
    MulMono(place + 1, range, m);
    assert (place + 1) * m == place * m + m && range * m == m * range && place * m == m * place;
  }

  /** The start of the header in plain arithmetic, for any multiplier. */
  lemma HeaderSpread(l: Layout)
    requires Bounded(l, 0)
    ensures HeaderExtent(l) == Extent(l.minoff + l.multiplier * (l.seekoff % l.rangeoff), l.headersz)
  {
    Spread(l.minoff, l.seekoff % l.rangeoff, l.rangeoff, l.multiplier, l.size);
  }

  lemma BodyAtPlace(l: Layout, bno: nat, place: nat, start: nat, end: nat)
    requires l.rangeoff > 0 && l.multiplier >= 1 && l.size < TWO32 && Linear(l, bno) % l.rangeoff == place
    requires l.minoff + l.multiplier * l.rangeoff + l.size < TWO64
    requires start == l.minoff + l.multiplier * place && end == l.minoff + l.multiplier * l.rangeoff
    ensures start < end && BodyExtent(l, bno) == Extent(start, Smaller(l.size, end - start))
  {
    hide Linear;
    Spread(l.minoff, place, l.rangeoff, l.multiplier, l.size);
    hide U64;
    assert Place(l, Linear(l, bno)) == start && WindowEnd(l) == end;
  }

  /** The start of a body and the clip at the end of the spread range, for any multiplier. */
  lemma BodySpread(l: Layout, bno: nat)
    requires Bounded(l, bno)
    ensures var start := l.minoff + l.multiplier * ((l.seekoff + l.headersz + l.size * (1 + l.skip) * bno) % l.rangeoff);
      var end := l.minoff + l.multiplier * l.rangeoff;
      start < end && BodyExtent(l, bno) == Extent(start, Smaller(l.size, end - start))
  {
    LinearBounded(l, bno);
    hide Linear, BodyExtent, Smaller;
    var place := Linear(l, bno) % l.rangeoff;
    MulMono(0, place, l.multiplier);
    BodyAtPlace(l, bno, place, l.minoff + l.multiplier * place, l.minoff + l.multiplier * l.rangeoff);
  }

  lemma LinearBounded(l: Layout, bno: nat)
    requires Bounded(l, bno)
    ensures Linear(l, bno) == l.seekoff + l.headersz + l.size * (1 + l.skip) * bno
  {
  }

  // ---------------------------------------------------------------- counting bytes

  predicate Covers(e: Extent, b: nat) {
    e.off <= b < e.off + e.len
  }

  function One(c: bool): nat {
    if c then 1 else 0
  }

  /** How many of the writes in `ws` reach byte `b`. */
  function Hits(ws: seq<Extent>, b: nat): nat {
    if ws == [] then 0 else Hits(ws[..|ws| - 1], b) + One(Covers(ws[|ws| - 1], b))
  }

  lemma {:induction false} HitsConcat(a: seq<Extent>, c: seq<Extent>, b: nat)
    ensures Hits(a + c, b) == Hits(a, b) + Hits(c, b)
    decreases |c|
  {
    if c == [] {
      assert a + c == a;
    } else {
      var c' := c[..|c| - 1];
      assert (a + c)[..|a + c| - 1] == a + c';
      HitsConcat(a, c', b);
    }
  }

  lemma HitsOne(e: Extent, b: nat)
    ensures Hits([e], b) == One(Covers(e, b))
  {
    assert [e][..0] == [];
  }

  lemma HitsSnoc(ws: seq<Extent>, e: Extent, b: nat)
    ensures Hits(ws + [e], b) == Hits(ws, b) + One(Covers(e, b))
  {
    HitsConcat(ws, [e], b);
    HitsOne(e, b);
  }

  lemma HitsWithout(l: seq<Extent>, e: Extent, r: seq<Extent>, b: nat)
    ensures Hits(l + [e] + r, b) == Hits(l + r, b) + One(Covers(e, b))
  {
    HitsSnoc(l, e, b);
    HitsConcat(l + [e], r, b);
    HitsConcat(l, r, b);
  }

  /** The order in which writes are issued does not matter for how often a byte is written. */
  lemma {:induction false} HitsPermutation(a: seq<Extent>, c: seq<Extent>, b: nat)
    requires multiset(a) == multiset(c)
    ensures Hits(a, b) == Hits(c, b)
    decreases |a|
  {
    if a == [] {
      assert |multiset(c)| == |multiset(a)|;
    } else {
      var a', e := a[..|a| - 1], a[|a| - 1];
      assert a == a' + [e];
      assert e in multiset(c);
      var i :| 0 <= i < |c| && c[i] == e;
      var l, r := c[..i], c[i + 1..];
      assert c == l + [e] + r;
      calc {
        multiset(a');
        multiset(a) - multiset{e};
        multiset(l + [e] + r) - multiset{e};
        multiset(l + r);
      }
      HitsPermutation(a', l + r, b);
      HitsSnoc(a', e, b);
      HitsWithout(l, e, r, b);
    }
  }

  lemma HitsWritesOf(l: Layout, bno: nat, b: nat)
    requires l.rangeoff > 0
    ensures Hits(WritesOf(l, bno), b)
         == One(bno == 0 && l.headersz != 0 && Covers(HeaderExtent(l), b))
          + One(Covers(BodyExtent(l, bno), b))
  {
    var header := if bno == 0 && l.headersz != 0 then [HeaderExtent(l)] else [];
    HitsSnoc(header, BodyExtent(l, bno), b);
    HitsOne(HeaderExtent(l), b);
  }

  lemma PassIndex(base: nat, k: nat, nio: nat)
    requires k < nio && Divides(nio, base)
    ensures (base + k) % nio == k
  {
    DivModUnique(base + k, nio, base / nio, k);
  }

  lemma HitsGrant(l: Layout, g: nat, bno: nat, b: nat)
    requires l.rangeoff > 0 && l.nio > 0 && g % l.nio == bno
    ensures Hits(SeqWrites(l, g + 1), b) == Hits(SeqWrites(l, g), b) + Hits(WritesOf(l, bno), b)
  {
    HitsConcat(SeqWrites(l, g), WritesOf(l, bno), b);
  }

  /** One more grant of a pass that begins at grant number `base`. */
  lemma HitsNext(l: Layout, base: nat, k: nat, b: nat)
    requires l.rangeoff > 0 && k < l.nio && Divides(l.nio, base)
    ensures Hits(SeqWrites(l, base + k + 1), b)
         == Hits(SeqWrites(l, base + k), b) + Hits(WritesOf(l, k), b)
  {
    PassIndex(base, k, l.nio);
    HitsGrant(l, base + k, k, b);
  }

  lemma HitsNone(l: Layout, b: nat)
    requires l.rangeoff > 0 && l.nio > 0
    ensures Hits(SeqWrites(l, 0), b) == 0
  {
  }

  /** Every repetition of the count writes the same bytes again. */
  lemma {:induction false} HitsRepeat(l: Layout, base: nat, k: nat, b: nat)
    requires l.rangeoff > 0 && l.nio > 0 && k <= l.nio && Divides(l.nio, base)
    ensures Hits(SeqWrites(l, base + k), b)
         == Hits(SeqWrites(l, base), b) + Hits(SeqWrites(l, k), b)
    decreases k
  {
    hide Divides, SeqWrites, WritesOf;
    if k == 0 {
      HitsNone(l, b);
    } else {
      HitsRepeat(l, base, k - 1, b);
      HitsNext(l, base, k - 1, b);
      HitsNext(l, 0, k - 1, b);
    }
  }

  lemma {:induction false} HitsPasses(l: Layout, r: nat, b: nat)
    requires l.rangeoff > 0 && l.nio > 0
    ensures Hits(SeqWrites(l, l.nio * r), b) == r * Hits(SeqWrites(l, l.nio), b)
  {
    hide Divides, SeqWrites, Hits, WritesOf;
    if r == 0 {
      HitsNone(l, b);
    } else {
      HitsPasses(l, r - 1, b);
      Multiple(l.nio, r - 1);
      HitsRepeat(l, l.nio * (r - 1), l.nio, b);
      Peel(r, l.nio);
      Peel(r, Hits(SeqWrites(l, l.nio), b));
    }
  }

  lemma Peel(r: nat, x: nat)
    requires r > 0
    ensures r * x == (r - 1) * x + x
  {
  }

  // ---------------------------------------------------------------- the plain fill

  function WindowBytes(n: nat, size: nat): nat {
    n * size
  }

  /** The largest value the offset arithmetic takes before it is reduced. */
  function Reach(l: Layout, count: nat): int {
    l.seekoff + l.headersz + l.size * (1 + l.skip) * count
  }

  /** A window of `n` blocks whose block numbers up to `count` have offsets below 2^64. */
  predicate Tiled(l: Layout, n: nat, count: nat) {
    && n > 0 && 0 < l.size < TWO32 && l.headersz <= l.size
    && l.rangeoff == WindowBytes(n, l.size) && l.skip >= 0
    && Reach(l, count) < TWO64
  }

  /** The layout of a dense fill, without a multiplier. */
  predicate Plain(l: Layout, n: nat, count: nat) {
    Tiled(l, n, count) && l.multiplier == 1 && l.minoff + l.rangeoff + l.size < TWO64
  }

  /** The layout of a fill with a multiplier, which leaves gaps unless that is one. */
  predicate Sparse(l: Layout, n: nat, count: nat) {
    && Tiled(l, n, count) && l.multiplier >= 1
    && l.minoff + l.multiplier * l.rangeoff + l.size < TWO64
  }

  /** A thread set up from such parameters has such a layout. */
  lemma PlainThread(p: Params, n: nat, count: nat)
    requires WellTyped(p) && p.multiplier == 1 && p.skip >= 0
    requires p.minoff / p.size <= p.maxoff / p.size && n == MaxBlks(p) - MinBlks(p)
    requires p.minoff + n * p.size + p.size < TWO64
    requires p.seekoff + HeaderSize(p) + p.size * (1 + p.skip) * count < TWO64
    ensures Plain(ThreadLayout(p), n, count)
  {
    MulMono(1, p.size, n);
    assert HeaderSize(p) <= p.size;
    hide HeaderSize, U64, MinBlks, MaxBlks;
    SmallWord(n);
    SmallWord(n * p.size);
    assert RangeOff(p) == n * p.size;
    hide RangeOff, WellTyped;
  }

  /** Where the window ends: its length counts whole blocks from zero, and is at least one. */
  function EndOf(p: Params): nat
    requires p.size > 0
  {
    if p.minoff / p.size == p.maxoff / p.size then p.minoff + p.size
    else p.maxoff - p.maxoff % p.size + p.minoff % p.size
  }

  lemma BlocksOf(x: nat, size: nat)
    requires size > 0
    ensures x == (x / size) * size + x % size && x % size <= x
  {
  }

  lemma BlockDistance(q: nat, r: nat, size: nat)
    requires r < q && size > 0
    ensures (q - r) * size == q * size - r * size && q - r <= (q - r) * size
  {
    MulMono(1, size, q - r);
  }

  /** The number of blocks of the window. */
  lemma WindowBlocks(p: Params)
    requires p.size > 0 && p.minoff / p.size <= p.maxoff / p.size
    ensures var q, r := p.maxoff / p.size, p.minoff / p.size;
      MaxBlks(p) - MinBlks(p) == if q == r then 1 else q - r
  {
  }

  /**
   The window begins at `minoff` and ends past `maxoff` exactly when the two are in the same
   block, or `minoff` is further into its block than `maxoff` is into its own.
   */
  lemma WindowInsideIff(p: Params)
    requires WellTyped(p) && p.multiplier == 1 && p.minoff / p.size <= p.maxoff / p.size
    requires p.minoff + p.size < TWO64 && p.maxoff + p.size < TWO64
    ensures WindowEnd(ThreadLayout(p)) == EndOf(p) > p.minoff
    ensures ThreadLayout(p).rangeoff == EndOf(p) - p.minoff
    ensures EndOf(p) <= p.maxoff <==> p.minoff / p.size < p.maxoff / p.size && p.minoff % p.size <= p.maxoff % p.size
  {
    var q, r := p.maxoff / p.size, p.minoff / p.size;
    BlocksOf(p.maxoff, p.size);
    BlocksOf(p.minoff, p.size);
    WindowBlocks(p);
    if q > r { BlockDistance(q, r, p.size); }
    hide U64, HeaderSize, MaxBlks, MinBlks, WellTyped;
    var n := if q == r then 1 else q - r;
    assert n * p.size == EndOf(p) - p.minoff;
    SmallWord(n);
    SmallWord(n * p.size);
    SmallWord(p.minoff + n * p.size);
    assert RangeOff(p) == n * p.size;
  }

  lemma SmallWord(x: int)
    requires 0 <= x < TWO64
    ensures U64(x) == x
  {
  }

  /** How far into a block the bodies start. */
  function Lead(l: Layout): nat
    requires l.size > 0
  {
    (l.seekoff + l.headersz) % l.size
  }

  /** The unreduced block position of block number `bno`. */
  function Position(l: Layout, bno: nat): nat
    requires l.size > 0 && l.skip >= 0
  {
    (l.seekoff + l.headersz) / l.size + (1 + l.skip) * bno
  }

  /** The place, among the `n` places of the window, where block `bno` starts. */
  function Slot(l: Layout, n: nat, bno: nat): nat
    requires n > 0 && l.size > 0 && l.skip >= 0
  {
    Position(l, bno) % n
  }

  /** Reducing a block-aligned offset by the window reduces its block number by the block count. */
  lemma SlotArith(w: nat, n: nat, size: nat, c: nat)
    requires n > 0 && c < size
    ensures n * size > 0 && (w * size + c) % (n * size) == (w % n) * size + c
    ensures w % n == n - 1 ==> (w % n) * size + size == n * size
    ensures w % n < n - 1 ==> (w % n) * size + 2 * size <= n * size
  {
    var q, j := w / n, w % n;
    assert w == q * n + j;
    assert (q * n + j) * size == (q * n) * size + j * size;
    MulAssoc(q, n, size);
    MulMono(j + 1, n, size);
    assert (j + 1) * size == j * size + size;
    DivModUnique(w * size + c, n * size, q, j * size + c);
    if j < n - 1 {
      MulMono(j + 2, n, size);
      assert (j + 2) * size == j * size + 2 * size;
    } else {
      assert j + 1 == n;
    }
  }

  lemma StrideLinear(a: nat, size: nat, stride: nat, bno: nat, count: nat)
    requires size > 0 && bno <= count && a + size * stride * count < TWO64
    ensures U64(a + size * stride * bno) == (a / size + stride * bno) * size + a % size
  {
    assert a == (a / size) * size + a % size;
    MulAssoc(size, stride, bno);
    assert (a / size + stride * bno) * size == (a / size) * size + (stride * bno) * size;
    MulMono(bno, count, size * stride);
  }

  /** The clip, once the place is known. */
  lemma Clip(minoff: nat, place: nat, range: nat, size: nat)
    requires place < range && minoff + range + size < TWO64 && size < TWO32
    ensures U64(minoff + place) == minoff + place && U64(minoff + range) == minoff + range
    ensures U64(minoff + place + size) > minoff + range <==> place + size > range
    ensures place + size > range ==> U32(minoff + range - (minoff + place)) == range - place
  {
  }

  lemma HeaderAt(l: Layout, n: nat, count: nat)
    requires Plain(l, n, count)
    ensures l.rangeoff > 0
    ensures HeaderExtent(l) == Extent(l.minoff + l.seekoff % l.rangeoff, l.headersz)
  {
    MulMono(1, n, l.size);
    assert U32(l.headersz) == l.headersz;
    hide WindowBytes, Reach, U32;
    Clip(l.minoff, l.seekoff % l.rangeoff, l.rangeoff, l.size);
  }

  lemma BodyFromPlace(l: Layout, bno: nat, place: nat)
    requires l.rangeoff > 0 && l.multiplier == 1 && 0 < l.size < TWO32
    requires l.minoff + l.rangeoff + l.size < TWO64 && Linear(l, bno) % l.rangeoff == place
    ensures BodyExtent(l, bno)
         == Extent(l.minoff + place, if place + l.size > l.rangeoff then l.rangeoff - place else l.size)
  {
    hide Linear, U32;
    Clip(l.minoff, place, l.rangeoff, l.size);
  }

  lemma LinearAt(l: Layout, n: nat, bno: nat, count: nat)
    requires Tiled(l, n, count) && bno <= count
    ensures Linear(l, bno) == Position(l, bno) * l.size + Lead(l)
  {
    StrideLinear(l.seekoff + l.headersz, l.size, 1 + l.skip, bno, count);
  }

  lemma PlaceAt(l: Layout, n: nat, bno: nat, count: nat)
    requires Tiled(l, n, count) && bno <= count
    ensures Linear(l, bno) % l.rangeoff == Slot(l, n, bno) * l.size + Lead(l)
    ensures Slot(l, n, bno) == n - 1 ==> Slot(l, n, bno) * l.size + l.size == l.rangeoff
    ensures Slot(l, n, bno) < n - 1 ==> Slot(l, n, bno) * l.size + 2 * l.size <= l.rangeoff
  {
    LinearAt(l, n, bno, count);
    hide Linear, Position;
    SlotArith(Position(l, bno), n, l.size, Lead(l));
  }

  /** The start of block `bno`, and its length: only the last place of the window is clipped. */
  lemma BodyAt(l: Layout, n: nat, bno: nat, count: nat)
    requires Plain(l, n, count) && bno <= count
    ensures l.rangeoff > 0
    ensures BodyExtent(l, bno)
         == Extent(l.minoff + Slot(l, n, bno) * l.size + Lead(l),
                   if Slot(l, n, bno) == n - 1 then l.size - Lead(l) else l.size)
  {
    PlaceAt(l, n, bno, count);
    assert 0 <= Slot(l, n, bno) <= n - 1 && Lead(l) < l.size;
    assert l.rangeoff > 0 && 0 <= Slot(l, n, bno) * l.size;
    hide Linear, Slot, Lead, BodyExtent;
    BodyFromPlace(l, bno, Slot(l, n, bno) * l.size + Lead(l));
  }

  // ---------------------------------------------------------------- the sparse fill

  lemma SparseStart(l: Layout, n: nat, bno: nat, count: nat)
    requires Sparse(l, n, count) && bno <= count
    ensures l.rangeoff > 0 && 0 < BodyExtent(l, bno).len <= l.size
    ensures BodyExtent(l, bno).off == l.minoff + l.multiplier * (Slot(l, n, bno) * l.size + Lead(l))
  {
    PlaceAt(l, n, bno, count);
    LinearAt(l, n, bno, count);
    MulMono(1, n, l.size);
    SparseBounded(l, n, bno, count);
    hide Linear, Slot, Lead, BodyExtent, Tiled, U64, Position;
    BodySpread(l, bno);
  }

  lemma SparseBounded(l: Layout, n: nat, bno: nat, count: nat)
    requires Sparse(l, n, count) && bno <= count
    ensures Bounded(l, bno) && Linear(l, bno) == l.seekoff + l.headersz + l.size * (1 + l.skip) * bno
  {
    MulMono(1, n, l.size);
    MulMono(bno, count, l.size * (1 + l.skip));
  }

  /** Starts in plain words: a difference of `d` places is one of `d` times multiplier times size bytes. */
  lemma SparseDistance(l: Layout, n: nat, i: nat, k: nat, count: nat)
    requires Sparse(l, n, count) && i <= count && k <= count
    ensures l.rangeoff > 0
    ensures BodyExtent(l, i).off - BodyExtent(l, k).off == (Slot(l, n, i) - Slot(l, n, k)) * (l.multiplier * l.size)
  {
    SparseStart(l, n, i, count);
    SparseStart(l, n, k, count);
    hide Slot, Lead, BodyExtent, Sparse;
    Distribute(l.multiplier, Slot(l, n, i), Slot(l, n, k), l.size, Lead(l));
  }

  lemma Distribute(m: int, a: int, b: int, size: int, c: int)
    ensures m * (a * size + c) - m * (b * size + c) == (a - b) * (m * size)
  {
    assert m * (a * size + c) == m * (a * size) + m * c && m * (b * size + c) == m * (b * size) + m * c;
    assert m * (a * size) == a * (m * size) && m * (b * size) == b * (m * size);
  }

  lemma ApartWhenLess(l: Layout, n: nat, i: nat, k: nat, count: nat, b: nat)
    requires Sparse(l, n, count) && i <= count && k <= count && Slot(l, n, i) < Slot(l, n, k)
    ensures l.rangeoff > 0 && !(Covers(BodyExtent(l, i), b) && Covers(BodyExtent(l, k), b))
  {
    SparseDistance(l, n, k, i, count);
    SparseStart(l, n, i, count);
    MulMono(1, l.multiplier, l.size);
    MulMono(1, Slot(l, n, k) - Slot(l, n, i), l.multiplier * l.size);
    hide Slot, BodyExtent, Sparse;
  }

  /** Bodies at different places have no byte in common; at the same place they are the same write. */
  lemma SparseMeetIff(l: Layout, n: nat, i: nat, k: nat, count: nat)
    requires Sparse(l, n, count) && i <= count && k <= count
    ensures l.rangeoff > 0
    ensures (exists b: nat :: Covers(BodyExtent(l, i), b) && Covers(BodyExtent(l, k), b)) <==> Slot(l, n, i) == Slot(l, n, k)
    ensures Slot(l, n, i) == Slot(l, n, k) ==> BodyExtent(l, i) == BodyExtent(l, k)
  {
    SparseStart(l, n, i, count);
    if Slot(l, n, i) == Slot(l, n, k) {
      PlaceAt(l, n, i, count);
      PlaceAt(l, n, k, count);
      SameBody(l, i, k);
      assert Covers(BodyExtent(l, k), BodyExtent(l, k).off);
    } else {
      forall b: nat ensures !(Covers(BodyExtent(l, i), b) && Covers(BodyExtent(l, k), b)) {
        if Slot(l, n, i) < Slot(l, n, k) {
          ApartWhenLess(l, n, i, k, count, b);
        } else {
          ApartWhenLess(l, n, k, i, count, b);
        }
      }
    }
    hide Slot, Linear, BodyExtent, Sparse, Tiled;
  }

  lemma SameBody(l: Layout, i: nat, k: nat)
    requires l.rangeoff > 0 && Linear(l, i) % l.rangeoff == Linear(l, k) % l.rangeoff
    ensures BodyExtent(l, i) == BodyExtent(l, k)
  {
    hide Linear, U64, U32;
  }
}
