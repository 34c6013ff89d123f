/**
 The injected writes of iofill: the list of offsets inside a segment, shuffled by groups
 when a thread is set up, and the cursors that go through that list segment by segment.
 */
module Segments {
  import opened NumberTheory
  import opened FillGeometry

  const NSWAPS: nat := 100
  const MAXSEG: nat := 4

  // ---------------------------------------------------------------- the shuffled list

  function Identity(m: nat): (s: seq<nat>)
    ensures |s| == m && forall i | 0 <= i < m :: s[i] == i
  {
    seq(m, i => i)
  }

  function Swapped(s: seq<nat>, a: nat, b: nat): (t: seq<nat>)
    requires a < |s| && b < |s|
    ensures |t| == |s|
  {
    s[a := s[b]][b := s[a]]
  }

  /** Entry `i` of the list when its groups of `g` stand in the order `order`. */
  function Entry(order: seq<nat>, g: nat, i: nat): nat {
    if g > 0 && i / g < |order| then order[i / g] * g + i % g else i
  }

  function Arrange(order: seq<nat>, g: nat, n: nat): (s: seq<nat>)
    ensures |s| == n && forall i | 0 <= i < n :: s[i] == Entry(order, g, i)
  {
    seq(n, i requires 0 <= i => Entry(order, g, i))
  }

  /** Every number below `|s|` stands in `s` exactly once. */
  ghost predicate IsPermutation(s: seq<nat>) {
    && (forall i | 0 <= i < |s| :: s[i] < |s|)
    && (forall i, j | 0 <= i < j < |s| :: s[i] != s[j])
    && (forall v: nat | v < |s| :: v in s)
  }

  lemma SwapPermutes(s: seq<nat>, a: nat, b: nat)
    requires IsPermutation(s) && a < |s| && b < |s|
    ensures IsPermutation(Swapped(s, a, b))
  {
    var t := Swapped(s, a, b);
    forall v: nat | v < |t| ensures v in t {
      assert v in s;
      var i :| 0 <= i < |s| && s[i] == v;
      assert t[if i == a then b else if i == b then a else i] == v;
    }
  }

  lemma GroupOf(i: nat, g: nat, a: nat)
    requires g > 0
    ensures a * g <= i < a * g + g <==> i / g == a
    ensures i / g == a ==> i % g == i - a * g
  {
    if a * g <= i < a * g + g { DivModUnique(i, g, a, i - a * g); }
  }

  lemma GroupBound(a: nat, m: nat, g: nat)
    requires a < m
    ensures a * g + g <= m * g
  {
    MulMono(a + 1, m, g);
    assert (a + 1) * g == a * g + g;
  }

  /** Shuffling whole groups keeps every offset in the list exactly once, and the tail in its place. */
  lemma ArrangePermutes(order: seq<nat>, g: nat, n: nat)
    requires IsPermutation(order) && |order| * g <= n
    ensures IsPermutation(Arrange(order, g, n))
    ensures forall i | |order| * g <= i < n :: Arrange(order, g, n)[i] == i
  {
    var s := Arrange(order, g, n);
    forall i | 0 <= i < n ensures s[i] < n && (i >= |order| * g ==> s[i] == i) {
      EntryBound(order, g, n, i);
    }
    forall i, j | 0 <= i < j < n ensures s[i] != s[j] {
      EntryDistinct(order, g, i, j);
    }
    forall v: nat | v < n ensures v in s {
      var i := EntryInverse(order, g, n, v);
      assert s[i] == v;
    }
    hide Entry;
  }

  /** Entry `j` of the group that stands at place `k` is offset `j` of group number `order[k]`. */
  lemma ArrangedAt(order: seq<nat>, g: nat, n: nat, k: nat, j: nat)
    requires k < |order| && j < g && |order| * g <= n
    ensures k * g + j < n && Arrange(order, g, n)[k * g + j] == order[k] * g + j
  {
    GroupBound(k, |order|, g);
    DivModUnique(k * g + j, g, k, j);
  }

  lemma EntryBound(order: seq<nat>, g: nat, n: nat, i: nat)
    requires IsPermutation(order) && |order| * g <= n && i < n
    ensures Entry(order, g, i) < n
    ensures i >= |order| * g ==> Entry(order, g, i) == i
  {
    if g > 0 {
      if i / g < |order| {
        GroupBound(order[i / g], |order|, g);
        GroupBound(i / g, |order|, g);
        GroupOf(i, g, i / g);
      }
    }
  }

  /** Where a group stands: in the order, or in the tail at its own place. */
  function GroupAt(order: seq<nat>, k: nat): nat {
    if k < |order| then order[k] else k
  }

  function GroupNo(i: nat, g: nat): nat
    requires g > 0
  {
    i / g
  }

  function Within(i: nat, g: nat): nat
    requires g > 0
  {
    i % g
  }

  lemma EntryGroup(order: seq<nat>, g: nat, i: nat)
    requires g > 0
    ensures GroupNo(Entry(order, g, i), g) == GroupAt(order, GroupNo(i, g))
    ensures Within(Entry(order, g, i), g) == Within(i, g)
  {
    if i / g < |order| { DivModUnique(order[i / g] * g + i % g, g, order[i / g], i % g); }
  }

  lemma GroupsDistinct(order: seq<nat>, k: nat, l: nat)
    requires IsPermutation(order) && k != l
    ensures GroupAt(order, k) != GroupAt(order, l)
  {
  }

  lemma EntryDistinct(order: seq<nat>, g: nat, i: nat, j: nat)
    requires IsPermutation(order) && i != j
    ensures Entry(order, g, i) != Entry(order, g, j)
  {
    if g > 0 {
      hide Entry, GroupAt, IsPermutation, GroupNo, Within;
      EntryGroup(order, g, i);
      EntryGroup(order, g, j);
      SameParts(i, j, g);
      SameParts(Entry(order, g, i), Entry(order, g, j), g);
      if GroupNo(i, g) != GroupNo(j, g) { GroupsDistinct(order, GroupNo(i, g), GroupNo(j, g)); }
    }
  }

  lemma SameParts(i: nat, j: nat, g: nat)
    requires g > 0
    ensures GroupNo(i, g) == GroupNo(j, g) && Within(i, g) == Within(j, g) <==> i == j
  {
    assert i == (i / g) * g + i % g && j == (j / g) * g + j % g;
  }

  lemma EntryInverse(order: seq<nat>, g: nat, n: nat, v: nat) returns (i: nat)
    requires IsPermutation(order) && |order| * g <= n && v < n
    ensures i < n && Entry(order, g, i) == v
  {
    if g > 0 && v / g < |order| {
      assert v / g in order;
      var k :| 0 <= k < |order| && order[k] == v / g;
      i := k * g + v % g;
      DivModUnique(i, g, k, v % g);
      GroupBound(k, |order|, g);
      GroupOf(v, g, v / g);
    } else {
      i := v;
    }
  }

  // ---------------------------------------------------------------- one pass over a segment

  function WriteAt(base: nat, slot: nat, ws: nat): Extent {
    Extent(base + slot * ws, ws)
  }

  /** The writes between two seats of a cursor. */
  function Pass(list: seq<nat>, base: nat, ws: nat): (p: seq<Extent>)
    ensures |p| == |list| && forall k | 0 <= k < |list| :: p[k] == WriteAt(base, list[k], ws)
  {
    seq(|list|, k requires 0 <= k < |list| => WriteAt(base, list[k], ws))
  }

  lemma SlotCovers(base: nat, slot: nat, ws: nat, b: nat)
    requires ws > 0
    ensures Covers(WriteAt(base, slot, ws), b) <==> b >= base && (b - base) / ws == slot
  {
    if b >= base { GroupOf(b - base, ws, slot); }
  }

  lemma {:induction false} PassPrefixHits(list: seq<nat>, base: nat, ws: nat, b: nat, k: nat)
    requires ws > 0 && k <= |list| && forall i, j | 0 <= i < j < |list| :: list[i] != list[j]
    ensures Hits(Pass(list, base, ws)[..k], b) == One(b >= base && (b - base) / ws in list[..k])
  {
    var p := Pass(list, base, ws);
    if k == 0 {
    } else {
      PassPrefixHits(list, base, ws, b, k - 1);
      assert p[..k] == p[..k - 1] + [p[k - 1]];
      assert list[..k] == list[..k - 1] + [list[k - 1]];
      HitsSnoc(p[..k - 1], p[k - 1], b);
      SlotCovers(base, list[k - 1], ws, b);
      assert list[k - 1] !in list[..k - 1];
      hide Hits, WriteAt;
    }
  }

  lemma PassHits(list: seq<nat>, base: nat, ws: nat, b: nat)
    requires ws > 0 && IsPermutation(list)
    ensures Hits(Pass(list, base, ws), b) == One(b >= base && (b - base) / ws < |list|)
  {
    PassPrefixHits(list, base, ws, b, |list|);
    assert Pass(list, base, ws)[..|list|] == Pass(list, base, ws);
    assert list[..|list|] == list;
    if b >= base { MemberIff(list, (b - base) / ws); }
    hide Hits, IsPermutation;
  }

  lemma MemberIff(s: seq<nat>, v: nat)
    requires IsPermutation(s)
    ensures v in s <==> v < |s|
  {
  }

  /** Every byte of the segment is written exactly once, and no other byte. */
  ghost predicate CoversSegment(ws: seq<Extent>, base: nat, segsize: nat) {
    forall b: nat :: Hits(ws, b) == One(base <= b < base + segsize)
  }

  lemma InSlots(x: nat, ws: nat, segsize: nat)
    requires ws > 0
    ensures x / ws < segsize / ws <==> x < segsize - segsize % ws
  {
    var n := segsize / ws;
    GroupOf(x, ws, x / ws);
    GroupOf(segsize, ws, n);
    if x / ws < n { GroupBound(x / ws, n, ws); } else { MulMono(n, x / ws, ws); }
  }

  /** A pass covers its segment exactly when the write size divides the segment size. */
  lemma PassCoversIff(list: seq<nat>, base: nat, ws: nat, segsize: nat)
    requires ws > 0 && IsPermutation(list) && |list| == segsize / ws
    ensures CoversSegment(Pass(list, base, ws), base, segsize) <==> segsize % ws == 0
  {
    var p := Pass(list, base, ws);
    hide Hits;
    if segsize % ws == 0 {
      forall b: nat ensures Hits(p, b) == One(base <= b < base + segsize) {
        PassHits(list, base, ws, b);
        if b >= base { InSlots(b - base, ws, segsize); }
      }
    } else {
      var b := base + (segsize - segsize % ws);
      PassHits(list, base, ws, b);
      InSlots(b - base, ws, segsize);
      assert Hits(p, b) == 0;
    }
  }

  // ---------------------------------------------------------------- the injecting thread

  datatype Params = Params(
    writeinject: nat, randinject: bool, segsize: nat, writesize: nat,
    nsegments: nat, nsubseg: nat, minoff: nat, maxoff: nat)

  /** What the set-up divides by and indexes with; the range has been checked by option parsing. */
  predicate WellFormed(p: Params) {
    && p.writeinject > 0 && 0 < p.writesize <= p.segsize
    && p.nsegments <= MAXSEG && p.nsubseg > 0 && p.minoff <= p.maxoff
  }

  function MaxSegs(p: Params): nat
    requires WellFormed(p)
  {
    var m := (p.maxoff - p.minoff) / p.segsize;
    if m == 0 then 1 else m
  }

  /** The start of the segment that the random number `draw` selects. */
  function Seat(p: Params, draw: nat): nat
    requires WellFormed(p)
  {
    p.minoff + draw % MaxSegs(p) * p.segsize
  }

  /** A selected segment lies in the range exactly when the range holds at least one segment. */
  lemma SeatInsideIff(p: Params, draw: nat)
    requires WellFormed(p)
    ensures Seat(p, draw) + p.segsize <= p.maxoff <==> p.segsize <= p.maxoff - p.minoff
  {
    var range := p.maxoff - p.minoff;
    GroupOf(range, p.segsize, range / p.segsize);
    GroupOf(range, p.segsize, 0);
    if range < p.segsize {
      assert draw % MaxSegs(p) == 0;
    } else {
      GroupBound(draw % MaxSegs(p), MaxSegs(p), p.segsize);
    }
  }

  /** Every segment of the range is selected by some draw, and draws select nothing else. */
  lemma EverySeat(p: Params, k: nat, draw: nat)
    requires WellFormed(p)
    ensures k < (p.maxoff - p.minoff) / p.segsize ==> Seat(p, k) == p.minoff + k * p.segsize
    ensures (p.maxoff - p.minoff) / p.segsize > 0 ==>
      Seat(p, draw) == p.minoff + draw % ((p.maxoff - p.minoff) / p.segsize) * p.segsize
    ensures (p.maxoff - p.minoff) / p.segsize == 0 ==> Seat(p, draw) == p.minoff
  {
    if k < (p.maxoff - p.minoff) / p.segsize {
      assert k % MaxSegs(p) == k;
    }
  }

  ghost predicate IsSeat(p: Params, base: nat) {
    WellFormed(p) && exists draw: nat :: base == Seat(p, draw)
  }

  /** How many writes one injection makes with a cursor. */
  function Burst(p: Params, draw: nat): nat
    requires WellFormed(p)
  {
    if p.randinject then draw % (p.writeinject * 2) + 1 else p.writeinject
  }

  lemma Reduced(x: nat, m: nat)
    requires m > 0
    ensures 0 <= x % m < m && (x < m ==> x % m == x)
  {
  }

  /** A burst is of the given length, or of any from one to twice that, as the draw decides. */
  lemma EveryBurst(p: Params, n: nat, draw: nat)
    requires WellFormed(p)
    ensures !p.randinject ==> Burst(p, draw) == p.writeinject
    ensures p.randinject ==> 1 <= Burst(p, draw) <= 2 * p.writeinject
    ensures p.randinject && 1 <= n <= 2 * p.writeinject ==> Burst(p, n - 1) == n
    ensures p.randinject && draw < 2 * p.writeinject ==> Burst(p, draw) == draw + 1
  {
    Reduced(draw, p.writeinject * 2);
    if n >= 1 { Reduced(n - 1, p.writeinject * 2); }
  }

  /** Write number `w` of a cursor: pass number `w / |list|` goes through the list from its own seat. */
  predicate LogOk(list: seq<nat>, ws: nat, log: seq<Extent>, bases: seq<nat>)
    requires list != []
  {
    forall w | 0 <= w < |log| ::
      w / |list| < |bases| && log[w] == WriteAt(bases[w / |list|], list[w % |list|], ws)
  }

  /** Where a cursor stands follows from how many writes it has made. */
  ghost predicate CursorOk(p: Params, list: seq<nat>, log: seq<Extent>, bases: seq<nat>, off: nat, written: nat)
    requires list != []
  {
    && LogOk(list, p.writesize, log, bases)
    && written <= |list| && |log| + |list| == |bases| * |list| + written
    && (bases != [] ==> off == bases[|bases| - 1])
    && (forall k | 0 <= k < |bases| :: IsSeat(p, bases[k]))
  }

  lemma Reseat(p: Params, list: seq<nat>, log: seq<Extent>, bases: seq<nat>, off: nat, seat: nat)
    requires list != [] && CursorOk(p, list, log, bases, off, |list|) && IsSeat(p, seat)
    ensures CursorOk(p, list, log, bases + [seat], seat, 0)
  {
    assert (|bases| + 1) * |list| == |bases| * |list| + |list|;
    hide IsSeat, WriteAt;
  }

  lemma Advance(p: Params, list: seq<nat>, log: seq<Extent>, bases: seq<nat>, off: nat, written: nat)
    requires list != [] && CursorOk(p, list, log, bases, off, written) && written < |list|
    ensures CursorOk(p, list, log + [WriteAt(off, list[written], p.writesize)], bases, off, written + 1)
  {
    var n := |list|;
    assert |bases| > 0;
    assert (|bases| - 1) * n == |bases| * n - n;
    DivModUnique(|log|, n, |bases| - 1, written);
    hide IsSeat, WriteAt;
  }

  /** The writes of a cursor from one seat to the next are one pass over its segment. */
  lemma WholePass(p: Params, list: seq<nat>, log: seq<Extent>, bases: seq<nat>, k: nat, from: nat)
    requires list != [] && LogOk(list, p.writesize, log, bases) && from == k * |list| && from + |list| <= |log|
    ensures k < |bases| && log[from..from + |list|] == Pass(list, bases[k], p.writesize)
  {
    WholeEntry(p, list, log, bases, k, from, 0);
    forall w: nat | w < |list| ensures log[from + w] == WriteAt(bases[k], list[w], p.writesize) {
      WholeEntry(p, list, log, bases, k, from, w);
    }
    SlicePass(list, bases[k], p.writesize, log, from);
    hide WriteAt, LogOk, Pass;
  }

  lemma SlicePass(list: seq<nat>, base: nat, ws: nat, log: seq<Extent>, from: nat)
    requires from + |list| <= |log|
    requires forall w: nat | w < |list| :: log[from + w] == WriteAt(base, list[w], ws)
    ensures log[from..from + |list|] == Pass(list, base, ws)
  {
    hide WriteAt;
  }

  lemma WholeEntry(p: Params, list: seq<nat>, log: seq<Extent>, bases: seq<nat>, k: nat, from: nat, w: nat)
    requires list != [] && LogOk(list, p.writesize, log, bases)
    requires from == k * |list| && w < |list| && from + w < |log|
    ensures k < |bases| && log[from + w] == WriteAt(bases[k], list[w], p.writesize)
  {
    DivModUnique(from + w, |list|, k, w);
    hide WriteAt;
  }

  /** The order of the groups after the given swaps. */
  function Order(m: nat, draws: seq<(nat, nat)>): (order: seq<nat>)
    requires m > 0
    ensures |order| == m
  {
    if draws == [] then Identity(m)
    else
      var d := draws[|draws| - 1];
      Swapped(Order(m, draws[..|draws| - 1]), d.0 % m, d.1 % m)
  }

  /** Each pair of draws exchanges the two groups it names and leaves the others where they are. */
  lemma OrderNext(m: nat, draws: seq<(nat, nat)>, d: (nat, nat))
    requires m > 0
    ensures Order(m, draws + [d])[d.0 % m] == Order(m, draws)[d.1 % m]
    ensures Order(m, draws + [d])[d.1 % m] == Order(m, draws)[d.0 % m]
    ensures forall k | 0 <= k < m && k != d.0 % m && k != d.1 % m :: Order(m, draws + [d])[k] == Order(m, draws)[k]
    ensures Order(m, []) == seq(m, i => i)
  {
    assert (draws + [d])[..|draws|] == draws;
  }

  lemma {:induction false} OrderPermutes(m: nat, draws: seq<(nat, nat)>)
    requires m > 0
    ensures IsPermutation(Order(m, draws))
  {
    if draws == [] {
      forall v: nat | v < m ensures v in Identity(m) {
        assert Identity(m)[v] == v;
      }
    } else {
      OrderPermutes(m, draws[..|draws| - 1]);
      var d := draws[|draws| - 1];
      SwapPermutes(Order(m, draws[..|draws| - 1]), d.0 % m, d.1 % m);
    }
  }

  /** Groups are the same or do not overlap. */
  lemma GroupsApart(a: nat, b: nat, g: nat)
    ensures a == b || a * g + g <= b * g || b * g + g <= a * g
  {
    if a < b { GroupBound(a, b, g); } else if b < a { GroupBound(b, a, g); }
  }

  /** Where entry `i` comes from when the runs of `g` entries at `first` and `second` are exchanged. */
  function Source(first: nat, second: nat, g: nat, i: nat): nat {
    if first <= i < first + g then second + (i - first)
    else if second <= i < second + g then first + (i - second)
    else i
  }

  function Exchange(was: seq<nat>, first: nat, second: nat, g: nat): (s: seq<nat>)
    requires first + g <= |was| && second + g <= |was|
    ensures |s| == |was| && forall i | 0 <= i < |s| :: s[i] == was[Source(first, second, g, i)]
  {
    seq(|was|, i requires 0 <= i < |was| => was[Source(first, second, g, i)])
  }

  /** The two runs change places, and everything else stays where it is. */
  lemma ExchangeSwaps(was: seq<nat>, first: nat, second: nat, g: nat)
    requires first + g <= |was| && second + g <= |was|
    requires first == second || first + g <= second || second + g <= first
    ensures Exchange(was, first, second, g)[first..first + g] == was[second..second + g]
    ensures Exchange(was, first, second, g)[second..second + g] == was[first..first + g]
    ensures forall i | 0 <= i < |was| && !(first <= i < first + g) && !(second <= i < second + g) ::
      Exchange(was, first, second, g)[i] == was[i]
  {
  }

  function GroupStart(a: nat, g: nat): nat {
    a * g
  }

  /** Exchanging two groups element by element is exchanging them in the order. */
  lemma SwapArranged(order: seq<nat>, a: nat, b: nat, g: nat, n: nat)
    requires a < |order| && b < |order| && |order| * g <= n
    ensures GroupStart(a, g) + g <= n && GroupStart(b, g) + g <= n
    ensures Arrange(Swapped(order, a, b), g, n) == Exchange(Arrange(order, g, n), GroupStart(a, g), GroupStart(b, g), g)
  {
    GroupBound(a, |order|, g);
    GroupBound(b, |order|, g);
    assert GroupStart(a, g) + g <= n && GroupStart(b, g) + g <= n;
    hide Entry, Swapped, Arrange, GroupStart, Exchange;
    forall i | 0 <= i < n
      ensures Entry(Swapped(order, a, b), g, i) == Entry(order, g, Source(GroupStart(a, g), GroupStart(b, g), g, i))
    {
      SwapEntry(order, a, b, g, i);
    }
    hide Source;
  }

  lemma SwapEntry(order: seq<nat>, a: nat, b: nat, g: nat, i: nat)
    requires a < |order| && b < |order|
    ensures Entry(Swapped(order, a, b), g, i) == Entry(order, g, Source(GroupStart(a, g), GroupStart(b, g), g, i))
  {
    if g > 0 {
      GroupOf(i, g, a);
      GroupOf(i, g, b);
      DivModUnique(b * g + i % g, g, b, i % g);
      DivModUnique(a * g + i % g, g, a, i % g);
    }
  }

  /** The exchange of two groups, one element after the other. */
  method SwapGroups(list: array<nat>, g1: nat, g2: nat, gsize: nat)
    requires g1 + gsize <= list.Length && g2 + gsize <= list.Length
    requires g1 == g2 || g1 + gsize <= g2 || g2 + gsize <= g1
    modifies list
    ensures list[..] == Exchange(old(list[..]), g1, g2, gsize)
  {
    var a, b := g1, g2;
    for j := 0 to gsize
      invariant a == g1 + j && b == g2 + j
      invariant forall i | 0 <= i < list.Length :: list[i] == old(list[..])[Source(g1, g2, j, i)]
    {
      list[a], list[b] := list[b], list[a];
      a, b := a + 1, b + 1;
    }
  }

  /** The shuffle of ithreadinit; each pair of random numbers names two groups. */
  method Shuffle(list: array<nat>, nsubseg: nat, gsize: nat, draws: seq<(nat, nat)>)
    requires nsubseg > 0 && nsubseg * gsize <= list.Length
    requires list[..] == Identity(list.Length)
    modifies list
    ensures list[..] == Arrange(Order(nsubseg, draws), gsize, list.Length)
  {
    ArrangeIdentity(nsubseg, gsize, list.Length);
    for i := 0 to |draws|
      invariant list[..] == Arrange(Order(nsubseg, draws[..i]), gsize, list.Length)
    {
      var g1 := draws[i].0 % nsubseg * gsize;
      var g2 := draws[i].1 % nsubseg * gsize;
      ghost var a, b, order := draws[i].0 % nsubseg, draws[i].1 % nsubseg, Order(nsubseg, draws[..i]);
      SwapArranged(order, a, b, gsize, list.Length);
      GroupsApart(a, b, gsize);
      SwapGroups(list, g1, g2, gsize);
      assert draws[..i + 1][..i] == draws[..i];
    }
    assert draws[..|draws|] == draws;
  }

  lemma ArrangeIdentity(m: nat, g: nat, n: nat)
    ensures Arrange(Identity(m), g, n) == Identity(n)
  {
    forall i | 0 <= i < n ensures Entry(Identity(m), g, i) == i {
      EntryIdentity(m, g, i);
    }
    hide Entry;
  }

  lemma EntryIdentity(m: nat, g: nat, i: nat)
    ensures Entry(Identity(m), g, i) == i
  {
    if g > 0 { GroupOf(i, g, i / g); }
  }

  /** The list a thread gets is a permutation of the slots of a segment. */
  lemma ListPermutes(p: Params, draws: seq<(nat, nat)>)
    requires WellFormed(p)
    ensures var n := p.segsize / p.writesize;
      n > 0 && p.nsubseg * (n / p.nsubseg) <= n && IsPermutation(Arrange(Order(p.nsubseg, draws), n / p.nsubseg, n))
  {
    var n := p.segsize / p.writesize;
    GroupOf(p.segsize, p.writesize, 0);
    GroupOf(n, p.nsubseg, n / p.nsubseg);
    OrderPermutes(p.nsubseg, draws);
    ArrangePermutes(Order(p.nsubseg, draws), n / p.nsubseg, n);
  }

  /** The seats that a cursor has taken since it had `from` are those that its draws selected. */
  ghost predicate SeatsDrawn(p: Params, from: nat, bases: seq<nat>, draws: nat -> nat)
    requires WellFormed(p)
  {
    forall k | from <= k < |bases| :: exists i: nat :: bases[k] == Seat(p, draws(i))
  }

  lemma SeatDrawn(p: Params, from: nat, bases: seq<nat>, draws: nat -> nat, i: nat)
    requires WellFormed(p) && SeatsDrawn(p, from, bases, draws)
    ensures SeatsDrawn(p, from, bases + [Seat(p, draws(i))], draws)
  {
    hide Seat;
  }

  class Injector {
    const p: Params
    const nsegoffs: nat
    const segofflist: array<nat>
    const cursegoff: array<nat>
    const segwrite: array<nat>
    ghost const list: seq<nat>        // what the list holds once it is shuffled
    ghost var logs: seq<seq<Extent>>  // all writes of each cursor
    ghost var bases: seq<seq<nat>>    // the seats each cursor has had

    ghost predicate Valid()
      reads this, segofflist, cursegoff, segwrite
    {
      && WellFormed(p) && nsegoffs == p.segsize / p.writesize == |list| && list != []
      && segofflist != cursegoff && segofflist != segwrite && cursegoff != segwrite
      && cursegoff.Length == segwrite.Length == |logs| == |bases| == MAXSEG
      && segofflist[..] == list && IsPermutation(list)
      && forall j | 0 <= j < MAXSEG :: CursorOk(p, list, logs[j], bases[j], cursegoff[j], segwrite[j])
    }

    /** The part of ithreadinit that prepares injection; `draws` are its random numbers. */
    constructor (p: Params, draws: seq<(nat, nat)>)
      requires WellFormed(p) && |draws| == NSWAPS
      ensures Valid() && this.p == p
      ensures list == Arrange(Order(p.nsubseg, draws), p.segsize / p.writesize / p.nsubseg, p.segsize / p.writesize)
      ensures forall j | 0 <= j < MAXSEG :: logs[j] == [] && bases[j] == []
      ensures fresh(segofflist) && fresh(cursegoff) && fresh(segwrite)
    {
      var n := p.segsize / p.writesize;
      var gsize := n / p.nsubseg;
      this.p := p;
      nsegoffs := n;
      var offs := new nat[n](i => i);
      segofflist := offs;
      cursegoff := new nat[MAXSEG](_ => 0);
      segwrite := new nat[MAXSEG](_ => n);
      logs := seq(MAXSEG, _ => []);
      bases := seq(MAXSEG, _ => []);
      list := Arrange(Order(p.nsubseg, draws), gsize, n);
      new;
      ListPermutes(p, draws);
      Shuffle(segofflist, p.nsubseg, gsize, draws);
    }

    /** One injected write with cursor `j`; `draw` selects the next segment when one is needed. */
    method Write(j: nat, draw: nat)
      requires Valid() && j < p.nsegments
      modifies this`logs, this`bases, cursegoff, segwrite
      ensures Valid()
      ensures exists e :: logs == old(logs)[j := old(logs)[j] + [e]]
      ensures bases == if old(segwrite[j]) == nsegoffs then old(bases)[j := old(bases)[j] + [Seat(p, draw)]] else old(bases)
    {
      if segwrite[j] == nsegoffs {
        Reseat(p, list, logs[j], bases[j], cursegoff[j], Seat(p, draw));
        cursegoff[j] := Seat(p, draw);
        segwrite[j] := 0;
        bases := bases[j := bases[j] + [cursegoff[j]]];
      }
      Advance(p, list, logs[j], bases[j], cursegoff[j], segwrite[j]);
      ghost var e := Extent(cursegoff[j] + segofflist[segwrite[j]] * p.writesize, p.writesize);
      logs := logs[j := logs[j] + [e]];
      segwrite[j] := segwrite[j] + 1;
      assert logs == old(logs)[j := old(logs)[j] + [e]];
      hide CursorOk, IsSeat, IsPermutation;
    }

    /**
     The writes of do_write_inject. Cursor `j` makes one burst; what it writes depends only
     on how many writes it has made before, in this or any earlier injection.
     */
    method Inject(bursts: seq<nat>, draw: (nat, nat) -> nat)
      requires Valid() && |bursts| == p.nsegments
      modifies this`logs, this`bases, cursegoff, segwrite
      ensures Valid()
      ensures forall j | 0 <= j < MAXSEG :: old(logs)[j] <= logs[j] && old(bases)[j] <= bases[j]
      ensures forall j | 0 <= j < MAXSEG ::
        |logs[j]| == |old(logs)[j]| + if j < p.nsegments then Burst(p, bursts[j]) else 0
      ensures forall j | 0 <= j < MAXSEG :: SeatsDrawn(p, |old(bases)[j]|, bases[j], i => draw(j, i))
    {
      hide Seat, CursorOk, IsPermutation;
      for j := 0 to p.nsegments
        invariant Valid()
        invariant forall k | 0 <= k < MAXSEG :: old(logs)[k] <= logs[k] && old(bases)[k] <= bases[k]
        invariant forall k | 0 <= k < MAXSEG ::
          |logs[k]| == |old(logs)[k]| + if k < j then Burst(p, bursts[k]) else 0
        invariant forall k | 0 <= k < MAXSEG :: SeatsDrawn(p, |old(bases)[k]|, bases[k], i => draw(k, i))
      {
        var count := p.writeinject;
        if p.randinject {
          count := bursts[j] % (p.writeinject * 2) + 1;
        }
        for i := 0 to count
          invariant Valid()
          invariant forall k | 0 <= k < MAXSEG :: old(logs)[k] <= logs[k] && old(bases)[k] <= bases[k]
          invariant forall k | 0 <= k < MAXSEG ::
            |logs[k]| == |old(logs)[k]| + if k < j then Burst(p, bursts[k]) else if k == j then i else 0
          invariant forall k | 0 <= k < MAXSEG :: SeatsDrawn(p, |old(bases)[k]|, bases[k], i => draw(k, i))
        {
          SeatDrawn(p, |old(bases)[j]|, bases[j], i => draw(j, i), i);
          Write(j, draw(j, i));
        }
      }
    }
  }

  /**
   However the writes of a cursor are spread over injections, those from one seat to the
   next write every byte of the segment exactly once and no other byte, exactly when the
   write size divides the segment size.
   */
  lemma EverySegmentCovered(t: Injector, j: nat, k: nat)
    requires t.Valid() && j < MAXSEG && (k + 1) * t.nsegoffs <= |t.logs[j]|
    ensures k < |t.bases[j]|
    ensures CoversSegment(t.logs[j][k * t.nsegoffs..(k + 1) * t.nsegoffs], t.bases[j][k], t.p.segsize)
       <==> t.p.segsize % t.p.writesize == 0
  {
    assert (k + 1) * t.nsegoffs == k * t.nsegoffs + t.nsegoffs;
    WholePass(t.p, t.list, t.logs[j], t.bases[j], k, k * t.nsegoffs);
    PassCoversIff(t.list, t.bases[j][k], t.p.writesize, t.p.segsize);
    hide IsPermutation, CoversSegment, LogOk;
  }
}
