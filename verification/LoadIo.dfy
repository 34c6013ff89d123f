/**
 What one ioload operation does: the choice of its type, its start offset on 64-bit words,
 and the loop that breaks it into pieces, for transfers and for sleeps.
 */
module LoadIo {
  import opened Words
  import opened NumberTheory
  import opened FillGeometry

  /** The parameters the offset arithmetic reads. */
  datatype LoadParams = LoadParams(minoff: nat, maxoff: nat, headersz: nat, multiplier: int)

  /** Option parsing gives the range in megabytes and the header in kilobytes. */
  predicate Parsed(p: LoadParams) {
    && p.minoff < p.maxoff < TWO64 && p.headersz < TWO64
    && p.minoff % SECTOR == p.maxoff % SECTOR == p.headersz % SECTOR == 0
  }

  // ---------------------------------------------------------------- set-up

  /** The largest size of all operation types; a sleep's time in microseconds counts as well. */
  method MaxSize(sizes: seq<nat>) returns (maxsize: nat)
    ensures forall s | s in sizes :: s <= maxsize
    ensures maxsize in sizes || (maxsize == 0 && forall s | s in sizes :: s == 0)
  {
    maxsize := 0;
    for i := 0 to |sizes|
      invariant forall s | s in sizes[..i] :: s <= maxsize
      invariant maxsize in sizes || (maxsize == 0 && forall s | s in sizes[..i] :: s == 0)
    {
      assert sizes[..i + 1] == sizes[..i] + [sizes[i]];
      if sizes[i] > maxsize {
        maxsize := sizes[i];
      }
    }
    assert sizes[..|sizes|] == sizes;
  }

  function Range(p: LoadParams, maxsize: nat): nat {
    var maxblks := if p.headersz != 0 then U64(p.maxoff - maxsize) / SECTOR else p.maxoff / SECTOR;
    U64(U64(maxblks - p.minoff / SECTOR) * SECTOR)
  }

  /** init_threads goes on only when the range is found to hold the largest I/O and the header. */
  predicate Accepted(p: LoadParams, maxsize: nat) {
    Range(p, maxsize) >= U64(maxsize + p.headersz)
  }

  /** The room that is left for the start of an I/O when a header shifts it; negative if there is none. */
  function Room(p: LoadParams, maxsize: nat): int {
    p.maxoff - maxsize - p.minoff
  }

  lemma WordBlocks(x: int, y: int)
    requires y % SECTOR == 0
    ensures U64(U64(U64(x) / SECTOR - y / SECTOR) * SECTOR) == U64(x - y - x % SECTOR)
  {
    var w := TWO64 / SECTOR;
    assert TWO64 == w * SECTOR;
    var q := x / TWO64;
    assert U64(x) == x - q * TWO64;
    assert q * TWO64 == (q * w) * SECTOR;
    var d := x / SECTOR;
    assert x == d * SECTOR + x % SECTOR;
    assert U64(x) == (d - q * w) * SECTOR + x % SECTOR;
    DivModUnique(U64(x), SECTOR, d - q * w, x % SECTOR);
    var b := U64(x) / SECTOR - y / SECTOR;
    assert y == (y / SECTOR) * SECTOR;
    assert b * SECTOR == x - x % SECTOR - q * TWO64 - y;
    var c := b / TWO64;
    assert U64(b) == b - c * TWO64;
    assert U64(b) * SECTOR == b * SECTOR - (c * SECTOR) * TWO64;
    ShiftWord(x - y - x % SECTOR, -q - c * SECTOR);
  }

  lemma ShiftWord(x: int, k: int)
    ensures U64(x + k * TWO64) == U64(x)
  {
    DivModUnique(x + k * TWO64, TWO64, x / TWO64 + k, x % TWO64);
  }

  /** The range in closed form: the room rounded down to a sector, or the whole range without a header. */
  lemma RangeIs(p: LoadParams, maxsize: nat)
    requires Parsed(p)
    ensures p.headersz != 0 ==> Range(p, maxsize) == U64(Room(p, maxsize) - Room(p, maxsize) % SECTOR)
    ensures p.headersz == 0 ==> Range(p, maxsize) == p.maxoff - p.minoff
  {
    if p.headersz != 0 {
      WordBlocks(p.maxoff - maxsize, p.minoff);
      Remainder(p.maxoff - maxsize, p.minoff);
    } else {
      assert U64(p.maxoff) == p.maxoff;
      WordBlocks(p.maxoff, p.minoff);
    }
    hide U64;
  }

  lemma Remainder(x: int, y: int)
    requires y % SECTOR == 0
    ensures (x - y) % SECTOR == x % SECTOR
  {
  }

  // ---------------------------------------------------------------- where an operation starts

  /** `rand` rounded down to a multiple of the size. */
  function Rounded(rand: nat, size: nat): nat
    requires size > 0
  {
    rand - rand % size
  }

  /** The start offset do_io computes from a random number, for an operation of `size` bytes. */
  function Offset(p: LoadParams, maxsize: nat, size: nat, rand: nat): nat
    requires size > 0 && Range(p, maxsize) > 0
  {
    var base := U64(Rounded(rand, size) + p.headersz);
    U64(U64((base % Range(p, maxsize)) * p.multiplier) + p.minoff)
  }

  /** The whole I/O lies in the range given on the command line. */
  predicate Inside(p: LoadParams, off: nat, size: nat) {
    p.minoff <= off && off + size <= p.maxoff
  }

  lemma WordSector(x: int)
    ensures U64(x) % SECTOR == x % SECTOR
  {
    var q := x / TWO64;
    assert x == q * TWO64 + U64(x);
    assert x - U64(x) == (q * (TWO64 / SECTOR)) * SECTOR;
  }

  lemma SectorTimes(x: int, k: int)
    requires x % SECTOR == 0
    ensures (x * k) % SECTOR == 0
  {
    assert x * k == ((x / SECTOR) * k) * SECTOR;
  }

  lemma SectorRemainder(x: nat, m: nat)
    requires m > 0 && x % SECTOR == 0 && m % SECTOR == 0
    ensures (x % m) % SECTOR == 0
  {
    SectorTimes(m, x / m);
    assert x == m * (x / m) + x % m;
  }

  lemma RangeSector(p: LoadParams, maxsize: nat)
    ensures Range(p, maxsize) % SECTOR == 0
  {
    var maxblks := if p.headersz != 0 then U64(p.maxoff - maxsize) / SECTOR else p.maxoff / SECTOR;
    WordSector(U64(maxblks - p.minoff / SECTOR) * SECTOR);
  }

  lemma WordSum(x: int, y: int)
    requires x % SECTOR == 0 && y % SECTOR == 0
    ensures U64(x + y) % SECTOR == 0
  {
    SectorSum(x, y);
    WordSector(x + y);
    hide U64;
  }

  lemma SectorSum(a: int, b: int)
    requires a % SECTOR == 0 && b % SECTOR == 0
    ensures (a + b) % SECTOR == 0
  {
  }

  lemma WordTimes(x: int, k: int)
    requires x % SECTOR == 0
    ensures U64(x * k) % SECTOR == 0
  {
    SectorTimes(x, k);
    WordSector(x * k);
  }

  lemma RoundedSector(rand: nat, size: nat)
    requires size > 0 && size % SECTOR == 0
    ensures Rounded(rand, size) % SECTOR == 0
  {
    assert Rounded(rand, size) == size * (rand / size);
    SectorTimes(size, rand / size);
  }

  /** Although the sum with the header may wrap, and so may the multiple, every start is sector aligned. */
  lemma OffsetAligned(p: LoadParams, maxsize: nat, size: nat, rand: nat)
    requires Parsed(p) && size > 0 && size % SECTOR == 0 && Range(p, maxsize) > 0
    ensures Offset(p, maxsize, size, rand) % SECTOR == 0
  {
    hide U64, Range, Rounded;
    RoundedSector(rand, size);
    var a := Rounded(rand, size);
    var base := U64(a + p.headersz);
    WordSum(a, p.headersz);
    RangeSector(p, maxsize);
    SectorRemainder(base, Range(p, maxsize));
    WordTimes(base % Range(p, maxsize), p.multiplier);
    WordSum(U64((base % Range(p, maxsize)) * p.multiplier), p.minoff);
  }

  /** Where an operation starts in plain arithmetic, for any multiplier, while nothing wraps. */
  lemma OffsetSpread(p: LoadParams, maxsize: nat, size: nat, rand: nat)
    requires size > 0 && Range(p, maxsize) > 0 && p.multiplier >= 0
    requires rand - rand % size + p.headersz < TWO64
    requires p.multiplier * Range(p, maxsize) + p.minoff < TWO64
    ensures Offset(p, maxsize, size, rand)
         == p.minoff + p.multiplier * ((rand - rand % size + p.headersz) % Range(p, maxsize))
  {
    hide Range;
    var range := Range(p, maxsize);
    var x := (rand - rand % size + p.headersz) % range;
    MulMono(x, range, p.multiplier);
    assert x * p.multiplier == p.multiplier * x && range * p.multiplier == p.multiplier * range;
    MulMono(0, x, p.multiplier);
  }

  /** With multiplier 1 and a range that ends below 2^64, nothing wraps after the reduction. */
  lemma PlainOffset(p: LoadParams, maxsize: nat, size: nat, rand: nat)
    requires Parsed(p) && p.multiplier == 1 && size > 0
    requires 0 < Range(p, maxsize) <= p.maxoff - p.minoff
    ensures Offset(p, maxsize, size, rand) == U64(Rounded(rand, size) + p.headersz) % Range(p, maxsize) + p.minoff
  {
    hide Range, Rounded;
    var x := U64(Rounded(rand, size) + p.headersz) % Range(p, maxsize);
    assert x * p.multiplier == x < p.maxoff - p.minoff;
  }

  /** With a header, every I/O stays in the range if the range holds the largest one. */
  lemma HeaderKeepsInside(p: LoadParams, maxsize: nat, size: nat, rand: nat)
    requires Parsed(p) && p.multiplier == 1 && p.headersz > 0
    requires 0 < size <= maxsize && p.minoff + maxsize <= p.maxoff && Range(p, maxsize) > 0
    ensures Inside(p, Offset(p, maxsize, size, rand), size)
  {
    RangeIs(p, maxsize);
    hide Range;
    var room := Room(p, maxsize);
    RoundedRoom(room, maxsize);
    WordOf(room - room % SECTOR);
    PlainOffset(p, maxsize, size, rand);
    ModBelow(U64(Rounded(rand, size) + p.headersz), Range(p, maxsize));
    hide Offset, U64, Rounded;
  }

  lemma ModBelow(x: nat, m: nat)
    requires m > 0
    ensures 0 <= x % m < m
  {
  }

  /** The multiple of `size` that follows `x`. */
  function Following(x: nat, size: nat): nat
    requires size > 0
  {
    x - x % size + size
  }

  lemma FollowingIs(x: nat, size: nat)
    requires size > 0
    ensures x < Following(x, size) <= x + size && Rounded(Following(x, size), size) == Following(x, size)
  {
    assert Following(x, size) == (x / size + 1) * size;
    DivModUnique(Following(x, size), size, x / size + 1, 0);
  }

  /** A random number that the header carries to a given place or a little beyond. */
  lemma Aim(h: nat, size: nat, from: nat, to: nat) returns (rand: nat)
    requires 0 < size < TWO32 / 2 && h < TWO64 && from < TWO32 / 2
    requires TWO64 - TWO32 <= to <= TWO64
    ensures rand < TWO64 && from <= U64(Rounded(rand, size) + h) < to
  {
    if from <= h < to {
      rand := 0;
      SmallMod(h, TWO64);
    } else {
      var gap := if h < from then from - h else TWO64 - h + from;
      rand := Following(gap, size);
      FollowingIs(gap, size);
      hide Following, Rounded;
      if h < from { SmallMod(rand + h, TWO64); } else { DivModUnique(rand + h, TWO64, 1, rand + h - TWO64); }
    }
  }

  /** With multiplier 1, a start beyond the range is outside whether or not the last sum wraps. */
  lemma BeyondIsOutside(p: LoadParams, maxsize: nat, size: nat, rand: nat)
    requires Parsed(p) && p.multiplier == 1 && size > 0 && Range(p, maxsize) > 0
    requires p.maxoff - p.minoff <= U64(Rounded(rand, size) + p.headersz) < Range(p, maxsize)
    ensures !Inside(p, Offset(p, maxsize, size, rand), size)
  {
    var y := U64(Rounded(rand, size) + p.headersz);
    SmallMod(y, Range(p, maxsize));
    hide Range, Rounded;
    assert y * p.multiplier == y < TWO64;
    SmallMod(y, TWO64);
    if y + p.minoff < TWO64 {
      SmallMod(y + p.minoff, TWO64);
    } else {
      DivModUnique(y + p.minoff, TWO64, 1, y + p.minoff - TWO64);
    }
  }

  lemma WrappedRange(p: LoadParams, maxsize: nat)
    requires Parsed(p) && p.headersz > 0 && p.minoff + maxsize > p.maxoff && maxsize < TWO32 / 2
    ensures TWO64 - TWO32 <= Range(p, maxsize) <= TWO64 && p.maxoff - p.minoff < TWO32 / 2
  {
    RangeIs(p, maxsize);
    var room := Room(p, maxsize);
    RoundedRoom(room, maxsize);
    WordOf(room - room % SECTOR);
    hide Range, U64;
  }

  /**
   With a header: the I/Os of a type stay in the range, whatever is drawn, exactly when the
   range holds the largest size of all types. A sleep's time counts among these.
   */
  lemma HeaderInsideIff(p: LoadParams, maxsize: nat, size: nat)
    requires Parsed(p) && p.multiplier == 1 && p.headersz > 0 && Range(p, maxsize) > 0
    requires 0 < size <= maxsize < TWO32 / 2
    ensures (forall rand: nat | rand < TWO64 :: Inside(p, Offset(p, maxsize, size, rand), size))
       <==> p.minoff + maxsize <= p.maxoff
  {
    if p.minoff + maxsize <= p.maxoff {
      forall rand: nat | rand < TWO64 ensures Inside(p, Offset(p, maxsize, size, rand), size) {
        HeaderKeepsInside(p, maxsize, size, rand);
      }
    } else {
      WrappedRange(p, maxsize);
      var rand := Aim(p.headersz, size, p.maxoff - p.minoff, Range(p, maxsize));
      BeyondIsOutside(p, maxsize, size, rand);
    }
    hide Offset, Range, Inside, Rounded, U64;
  }

  /**
   When the set-up check passes. Without a header: the range holds the largest I/O. With
   one: the room is at least the largest I/O and the header, as intended; or the largest I/O
   is larger than the range, and the subtraction has wrapped.
   */
  lemma AcceptedIff(p: LoadParams, maxsize: nat)
    requires Parsed(p) && p.minoff + 2 * maxsize + p.headersz + SECTOR <= TWO64
    ensures Accepted(p, maxsize) <==>
      if p.headersz == 0 then p.minoff + maxsize <= p.maxoff
      else Room(p, maxsize) - Room(p, maxsize) % SECTOR >= maxsize + p.headersz || p.minoff + maxsize > p.maxoff
  {
    RangeIs(p, maxsize);
    var room := Room(p, maxsize);
    RoundedRoom(room, maxsize);
    SmallMod(maxsize + p.headersz, TWO64);
    var x := room - room % SECTOR;
    WordOf(x);
    assert room < 0 <==> p.minoff + maxsize > p.maxoff;
    hide Range, Room, U64, Parsed;
  }

  lemma WordOf(x: int)
    requires -TWO64 <= x < TWO64
    ensures U64(x) == if x < 0 then x + TWO64 else x
  {
    if x < 0 { ShiftWord(x, 1); }
  }

  lemma RoundedRoom(room: int, maxsize: nat)
    ensures room - SECTOR < room - room % SECTOR <= room
    ensures room < 0 <==> room - room % SECTOR < 0
  {
  }

  /** The wrapped case is real: I/Os of two megabytes pass the check for a file range of one. */
  lemma TooSmallAccepted() returns (p: LoadParams, maxsize: nat)
    ensures Parsed(p) && p.headersz > 0 && p.multiplier == 1 && maxsize > p.maxoff - p.minoff
    ensures Accepted(p, maxsize) && Range(p, maxsize) > 0
    ensures !Inside(p, Offset(p, maxsize, maxsize, 0), maxsize)
  {
    p, maxsize := LoadParams(0, 0x10_0000, 1024, 1), 0x20_0000;
    AcceptedIff(p, maxsize);
  }

  // ---------------------------------------------------------------- without a header

  lemma MultipleBelow(x: nat, q: nat, s: nat)
    requires s > 0 && q > 0 && x % s == 0
    ensures x % (q * s) + s <= q * s
  {
    var r := q * s;
    var k := x / s;
    assert x == k * s;
    assert k == (k / q) * q + k % q;
    assert x == (k / q) * r + (k % q) * s by {
      assert ((k / q) * q) * s == (k / q) * (q * s);
    }
    MulMono(k % q + 1, q, s);
    MulMono(0, k % q, s);
    DivModUnique(x, r, k / q, (k % q) * s);
  }

  lemma RoundedDown(rand: nat, size: nat)
    requires size > 0
    ensures Rounded(rand, size) % size == 0 && Rounded(rand, size) <= rand
  {
    assert Rounded(rand, size) == size * (rand / size);
    DivModUnique(Rounded(rand, size), size, rand / size, 0);
  }

  lemma RoundedBelow(rand: nat, size: nat, r: nat)
    requires 0 < size <= r && r % size == 0
    ensures Rounded(rand, size) % r + size <= r
  {
    RoundedDown(rand, size);
    assert r == (r / size) * size;
    MultipleBelow(Rounded(rand, size), r / size, size);
    hide Rounded;
  }

  lemma HeaderlessOffset(p: LoadParams, maxsize: nat, size: nat, rand: nat)
    requires Parsed(p) && p.multiplier == 1 && p.headersz == 0 && size > 0 && rand < TWO64
    requires Range(p, maxsize) == p.maxoff - p.minoff
    ensures Offset(p, maxsize, size, rand) == Rounded(rand, size) % (p.maxoff - p.minoff) + p.minoff
  {
    PlainOffset(p, maxsize, size, rand);
    RoundedDown(rand, size);
    hide Range, Offset, Rounded;
    SmallMod(Rounded(rand, size), TWO64);
  }

  lemma SmallMod(x: nat, m: nat)
    requires x < m
    ensures x % m == x
  {
  }

  lemma DividedInside(p: LoadParams, maxsize: nat, size: nat, rand: nat)
    requires Parsed(p) && p.multiplier == 1 && p.headersz == 0 && 0 < size <= p.maxoff - p.minoff
    requires Range(p, maxsize) == p.maxoff - p.minoff && rand < TWO64
    requires (p.maxoff - p.minoff) % size == 0
    ensures Inside(p, Offset(p, maxsize, size, rand), size)
  {
    hide Range, Offset, Rounded;
    HeaderlessOffset(p, maxsize, size, rand);
    RoundedBelow(rand, size, p.maxoff - p.minoff);
  }

  lemma UndividedOutside(p: LoadParams, maxsize: nat, size: nat) returns (rand: nat)
    requires Parsed(p) && p.multiplier == 1 && p.headersz == 0 && 0 < size <= p.maxoff - p.minoff
    requires Range(p, maxsize) == p.maxoff - p.minoff && (p.maxoff - p.minoff) % size != 0
    ensures rand < TWO64 && !Inside(p, Offset(p, maxsize, size, rand), size)
  {
    hide Range, Offset, Rounded;
    var r := p.maxoff - p.minoff;
    rand := Rounded(r, size);
    RoundedTwice(r, size);
    HeaderlessOffset(p, maxsize, size, rand);
    SmallMod(rand, r);
  }

  lemma RoundedTwice(r: nat, size: nat)
    requires size > 0 && r % size != 0
    ensures Rounded(r, size) < r < Rounded(r, size) + size
    ensures Rounded(Rounded(r, size), size) == Rounded(r, size)
  {
    RoundedDown(r, size);
  }

  /**
   Without a header: the I/Os of one type stay in the range, whatever is drawn, exactly
   when their size divides the range.
   */
  lemma PlainInsideIff(p: LoadParams, maxsize: nat, size: nat)
    requires Parsed(p) && p.multiplier == 1 && p.headersz == 0 && 0 < size <= p.maxoff - p.minoff
    ensures Range(p, maxsize) > 0
    ensures (forall rand: nat | rand < TWO64 :: Inside(p, Offset(p, maxsize, size, rand), size))
       <==> (p.maxoff - p.minoff) % size == 0
  {
    RangeIs(p, maxsize);
    hide Range;
    if (p.maxoff - p.minoff) % size == 0 {
      forall rand: nat | rand < TWO64 ensures Inside(p, Offset(p, maxsize, size, rand), size) {
        DividedInside(p, maxsize, size, rand);
      }
    } else {
      var rand := UndividedOutside(p, maxsize, size);
    }
    hide Offset, Inside;
  }

  // ---------------------------------------------------------------- pieces

  /** The pieces of an operation, in order. */
  function Split(offset: nat, size: nat, maxiosize: nat): seq<Extent>
    requires maxiosize > 0
    decreases size
  {
    if size == 0 then []
    else
      var len := Smaller(size, maxiosize);
      [Extent(offset, len)] + Split(offset + len, size - len, maxiosize)
  }

  /** The inner loop of do_io for a read or a write. */
  method Transfer(offset: nat, size: nat, maxiosize: nat) returns (pieces: seq<Extent>)
    requires maxiosize > 0 && offset + size <= TWO64
    ensures pieces == Split(offset, size, maxiosize)
  {
    pieces := [];
    var baseoff: nat, sz: nat := offset, size;
    while sz > 0
      invariant sz <= size && (sz > 0 ==> baseoff == offset + (size - sz))
      invariant pieces + Split(baseoff, sz, maxiosize) == Split(offset, size, maxiosize)
    {
      var len := sz;
      if len > maxiosize {
        len := maxiosize;
      }
      ghost var rest := Split(baseoff + len, sz - len, maxiosize);
      assert pieces + ([Extent(baseoff, len)] + rest) == (pieces + [Extent(baseoff, len)]) + rest;
      pieces := pieces + [Extent(baseoff, len)];
      sz := sz - len;
      baseoff := U64(baseoff + len);
    }
  }

  /** The pieces reach each byte of the operation exactly once, and fit the buffer. */
  lemma SplitTiles(offset: nat, size: nat, maxiosize: nat, b: nat)
    requires maxiosize > 0
    ensures Hits(Split(offset, size, maxiosize), b) == One(offset <= b < offset + size)
    ensures forall e | e in Split(offset, size, maxiosize) :: 0 < e.len <= Smaller(size, maxiosize)
  {
    SplitHits(offset, size, maxiosize, b);
    SplitFits(offset, size, maxiosize);
  }

  lemma {:induction false} SplitHits(offset: nat, size: nat, maxiosize: nat, b: nat)
    requires maxiosize > 0
    ensures Hits(Split(offset, size, maxiosize), b) == One(offset <= b < offset + size)
    decreases size
  {
    if size == 0 {
    } else {
      var len := Smaller(size, maxiosize);
      SplitHits(offset + len, size - len, maxiosize, b);
      HitsConcat([Extent(offset, len)], Split(offset + len, size - len, maxiosize), b);
      HitsOne(Extent(offset, len), b);
      hide Hits;
    }
  }

  lemma {:induction false} SplitFits(offset: nat, size: nat, maxiosize: nat)
    requires maxiosize > 0
    ensures forall e | e in Split(offset, size, maxiosize) :: 0 < e.len <= Smaller(size, maxiosize)
    decreases size
  {
    if size == 0 {
    } else {
      var len := Smaller(size, maxiosize);
      SplitFits(offset + len, size - len, maxiosize);
    }
  }

  /** The pieces follow one another without a gap. */
  lemma {:induction false} SplitInOrder(offset: nat, size: nat, maxiosize: nat, k: nat)
    requires maxiosize > 0 && k < |Split(offset, size, maxiosize)|
    ensures Split(offset, size, maxiosize)[k].off == offset + k * maxiosize
    ensures k + 1 < |Split(offset, size, maxiosize)| ==> Split(offset, size, maxiosize)[k].len == maxiosize
    decreases size
  {
    var len := Smaller(size, maxiosize);
    var rest := Split(offset + len, size - len, maxiosize);
    if k > 0 {
      SplitInOrder(offset + len, size - len, maxiosize, k - 1);
      assert Split(offset, size, maxiosize)[k] == rest[k - 1];
      assert len == maxiosize;
      assert k * maxiosize == (k - 1) * maxiosize + maxiosize;
    } else {
      assert k * maxiosize == 0;
    }
  }

  /** The time that io_start sleeps instead of `len` microseconds. */
  function NapTime(draw: nat, len: nat): nat
    requires len > 0
  {
    var slu := U32(U32(draw) % len + 50);
    slu - slu % 50
  }

  lemma NapBounds(draw: nat, len: nat)
    requires 0 < len < TWO32 / 2
    ensures 50 <= NapTime(draw, len) <= len + 49 && NapTime(draw, len) % 50 == 0
  {
    var slu := U32(draw) % len + 50;
    assert U32(slu) == slu;
    assert NapTime(draw, len) == (slu / 50) * 50;
  }

  /** The draw decides: a time below `len` from it, moved on by 50 and rounded down to a multiple of 50. */
  lemma NapIs(draw: nat, len: nat)
    requires 0 < len < TWO32 / 2 && draw < TWO32
    ensures NapTime(draw, len) == (draw % len) / 50 * 50 + 50
    ensures draw < len ==> NapTime(draw, len) == draw / 50 * 50 + 50
  {
    ModBelow(draw, len);
    SmallMod(draw, TWO32);
    SmallMod(draw % len + 50, TWO32);
    NapRounded(draw % len);
    if draw < len { SmallMod(draw, len); }
  }

  lemma NapRounded(r: nat)
    ensures r + 50 - (r + 50) % 50 == r / 50 * 50 + 50
  {
  }

  lemma FiftySum(a: nat, b: nat)
    requires a % 50 == 0 && b % 50 == 0
    ensures (a + b) % 50 == 0
  {
  }

  lemma RoundedUp(total: nat, size: nat)
    requires total % 50 == 0 && size <= total <= size + 49
    ensures total == (size + 49) / 50 * 50
  {
  }

  /**
   The same loop for a sleep. Every piece is replaced by a random time of its own, yet the
   loop ends, and what is slept altogether is the wanted time rounded up to 50 microseconds.
   */
  method SleepPieces(size: nat, maxiosize: nat, draws: nat -> nat) returns (total: nat, naps: nat)
    requires 0 < maxiosize && size < TWO32 / 2
    ensures total == (size + 49) / 50 * 50
    ensures naps * 50 <= total
  {
    var sz: int := size;
    total, naps := 0, 0;
    while sz > 0
      invariant total + sz == size && sz > -50 && total % 50 == 0 && naps * 50 <= total
    {
      var len := sz;
      if len > maxiosize {
        len := maxiosize;
      }
      hide NapTime;
      NapBounds(draws(naps), len);
      len := NapTime(draws(naps), len);
      FiftySum(total, len);
      total, naps := total + len, naps + 1;
      sz := sz - len;
    }
    RoundedUp(total, size);
  }

  // ---------------------------------------------------------------- which type is run

  function SumTo(pcts: seq<real>, k: nat): real
    requires k <= |pcts|
  {
    if k == 0 then 0.0 else SumTo(pcts, k - 1) + pcts[k - 1]
  }

  /** The shares of the types add up: those before type `k`, then its own, then those after it. */
  lemma {:induction false} SharesAddUp(a: seq<real>, x: real, c: seq<real>)
    ensures SumTo(a + [x] + c, |a| + 1) == SumTo(a, |a|) + x
    ensures SumTo(a + [x] + c, |a| + 1 + |c|) == SumTo(a, |a|) + x + SumTo(c, |c|)
    decreases |c|
  {
    if c == [] {
      SumToPrefix(a, a + [x] + c, |a|);
    } else {
      var c' := c[..|c| - 1];
      SharesAddUp(a, x, c');
      SumToPrefix(a + [x] + c', a + [x] + c, |a| + |c|);
      SumToPrefix(a + [x] + c', a + [x] + c, |a| + 1);
      SumToPrefix(c', c, |c'|);
    }
  }

  lemma {:induction false} SumToPrefix(a: seq<real>, c: seq<real>, k: nat)
    requires k <= |a| && k <= |c| && forall i | 0 <= i < k :: a[i] == c[i]
    ensures SumTo(a, k) == SumTo(c, k)
  {
    if k == 0 {
    } else {
      SumToPrefix(a, c, k - 1);
    }
  }

  /** The walk over the list of types: the first whose share of the unit interval reaches past `x`, or the last. */
  method SelectType(pcts: seq<real>, x: real) returns (k: nat)
    requires pcts != []
    ensures k < |pcts|
    ensures forall j | 0 < j <= k :: SumTo(pcts, j) <= x
    ensures k + 1 < |pcts| ==> x < SumTo(pcts, k + 1)
  {
    var ioselect := x;
    k := 0;
    while k + 1 < |pcts|
      invariant k < |pcts| && ioselect == x - SumTo(pcts, k)
      invariant forall j | 0 < j <= k :: SumTo(pcts, j) <= x
    {
      if ioselect < pcts[k] {
        break;
      }
      ioselect := ioselect - pcts[k];
      k := k + 1;
    }
  }

  // ---------------------------------------------------------------- one thread

  datatype Op = Read | Write | Sleep

  datatype Itype = Itype(op: Op, size: nat, pct: real)

  /** What one pass through the type's loop did: transfers, or a sleep of that many microseconds. */
  datatype Work = Transfers(pieces: seq<Extent>) | Slept(time: nat)

  class LoadThread {
    const p: LoadParams
    const maxiosize: nat
    ghost const maxsize: nat
    var minblks: nat
    var maxblks: nat
    var rangeoff: nat

    ghost predicate Valid()
      reads this
    {
      rangeoff == Range(p, maxsize)
    }

    /** The range fields of ithreadinit. */
    constructor (p: LoadParams, maxiosize: nat, maxsize: nat)
      ensures Valid() && this.p == p && this.maxiosize == maxiosize && this.maxsize == maxsize
    {
      this.p, this.maxiosize, this.maxsize := p, maxiosize, maxsize;
      minblks := p.minoff / SECTOR;
      var blks := p.maxoff / SECTOR;
      if p.headersz != 0 {
        blks := U64(p.maxoff - maxsize) / SECTOR;
      }
      maxblks := blks;
      rangeoff := U64(U64(blks - p.minoff / SECTOR) * SECTOR);
    }

    /** The start offset of an operation, step by step. */
    method Start(size: nat, rand: nat) returns (offset: nat)
      requires Valid() && size > 0 && rangeoff > 0
      ensures offset == Offset(p, maxsize, size, rand)
    {
      offset := rand;
      offset := offset - offset % size;
      offset := U64(offset + p.headersz);
      offset := U64(U64((offset % rangeoff) * p.multiplier) + p.minoff);
      hide U64;
    }

    /**
     One operation of do_io. `x` and `rand` are its random numbers, `naps` those of a sleep.
     Offsets are drawn for sleeps as well.
     */
    method Operation(itlist: seq<Itype>, x: real, rand: nat, naps: nat -> nat) returns (k: nat, work: Work)
      requires Valid() && rangeoff > 0 && 0 < maxiosize < TWO32 / 2 && itlist != []
      requires forall t | t in itlist :: 0 < t.size < TWO32 / 2 && t.size <= maxsize
      requires forall t | t in itlist :: Offset(p, maxsize, t.size, rand) + t.size <= TWO64
      ensures k < |itlist|
      ensures forall j | 0 < j <= k :: SumTo(Pcts(itlist), j) <= x
      ensures k + 1 < |itlist| ==> x < SumTo(Pcts(itlist), k + 1)
      ensures itlist[k].op != Op.Sleep ==>
        work == Transfers(Split(Offset(p, maxsize, itlist[k].size, rand), itlist[k].size, maxiosize))
      ensures itlist[k].op == Op.Sleep ==> work == Slept((itlist[k].size + 49) / 50 * 50)
    {
      k := SelectType(Pcts(itlist), x);
      var ip := itlist[k];
      assert ip in itlist;
      var offset := Start(ip.size, rand);
      if ip.op == Op.Sleep {
        var time, n := SleepPieces(ip.size, maxiosize, naps);
        work := Slept(time);
      } else {
        var pieces := Transfer(offset, ip.size, maxiosize);
        work := Transfers(pieces);
      }
      hide Offset, Range, Split, SumTo;
    }
  }

  function Pcts(itlist: seq<Itype>): (pcts: seq<real>)
    ensures |pcts| == |itlist| && forall i | 0 <= i < |itlist| :: pcts[i] == itlist[i].pct
  {
    seq(|itlist|, i requires 0 <= i < |itlist| => itlist[i].pct)
  }

  /** What keeps the I/Os of a size in the range, by HeaderInsideIff and PlainInsideIff. */
  predicate KeepsInside(p: LoadParams, maxsize: nat, size: nat)
    requires size > 0
  {
    if p.headersz > 0 then p.minoff + maxsize <= p.maxoff
    else size <= p.maxoff - p.minoff && (p.maxoff - p.minoff) % size == 0
  }

  /**
   From the random number to the device: when the range keeps the I/Os of the size, with or
   without a header, every piece lies inside the range, fits the buffer, and begins on a
   sector when the piece size is a multiple of one.
   */
  lemma EveryPieceInside(p: LoadParams, maxsize: nat, maxiosize: nat, size: nat, rand: nat, k: nat)
    requires Parsed(p) && p.multiplier == 1 && maxiosize > 0 && rand < TWO64
    requires 0 < size <= maxsize && KeepsInside(p, maxsize, size) && Range(p, maxsize) > 0
    requires k < |Split(Offset(p, maxsize, size, rand), size, maxiosize)|
    ensures var e := Split(Offset(p, maxsize, size, rand), size, maxiosize)[k];
      && Inside(p, e.off, e.len) && e.len <= Smaller(maxsize, maxiosize)
      && (size % SECTOR == 0 && maxiosize % SECTOR == 0 ==> e.off % SECTOR == 0)
  {
    var off := Offset(p, maxsize, size, rand);
    if p.headersz > 0 {
      HeaderKeepsInside(p, maxsize, size, rand);
    } else {
      PlainInsideIff(p, maxsize, size);
    }
    if size % SECTOR == 0 { OffsetAligned(p, maxsize, size, rand); }
    hide Offset, Range;
    PieceInside(off, size, maxiosize, k);
  }

  lemma {:induction false} PieceInside(off: nat, size: nat, maxiosize: nat, k: nat)
    requires maxiosize > 0 && k < |Split(off, size, maxiosize)|
    ensures var e := Split(off, size, maxiosize)[k];
      && off <= e.off && e.off + e.len <= off + size && 0 < e.len <= Smaller(size, maxiosize)
      && (off % SECTOR == 0 && maxiosize % SECTOR == 0 ==> e.off % SECTOR == 0)
    decreases size
  {
    var len := Smaller(size, maxiosize);
    if k == 0 {
    } else {
      var rest := Split(off + len, size - len, maxiosize);
      assert Split(off, size, maxiosize)[k] == rest[k - 1];
      PieceInside(off + len, size - len, maxiosize, k - 1);
      if off % SECTOR == 0 && maxiosize % SECTOR == 0 { SectorSum(off, maxiosize); }
    }
  }
}
