/**
 Latency buckets, and the one-pass percentile scan over them. The scan is proved against
 an independent definition: the order statistic of the raw latencies.
 */
module LatencyHistogram {
  import opened Words

  const NLATBKTS: nat := 100000
  const LATDIV: nat := 10000
  const NPERCENT: nat := 5
  const READ: nat := 0
  const WRITE: nat := 1
  const NTYPE: nat := 2
  const PERCENTILE: seq<real> := [0.5, 0.1, 0.01, 0.001, 0.0001]

  /** The bucket of a latency; the quotient is kept in 32 bits. */
  function BucketOf(lat: nat): (b: nat)
    ensures b < NLATBKTS
  {
    var bkt := U32(lat / LATDIV);
    if bkt >= NLATBKTS then NLATBKTS - 1 else bkt
  }

  /** The quotient of the latency fits in the 32 bits it is kept in. */
  predicate Measurable(lat: nat) {
    lat / LATDIV < TWO32
  }

  lemma BucketMonotone(x: nat, y: nat)
    requires x <= y && Measurable(x) && Measurable(y)
    ensures BucketOf(x) <= BucketOf(y)
  {
  }

  /** The bucket is that of the latency itself exactly when the cast does not wrap, or wraps to the last bucket. */
  lemma BucketRightIff(lat: nat)
    ensures BucketOf(lat) == Smaller(lat / LATDIV, NLATBKTS - 1)
       <==> Measurable(lat) || U32(lat / LATDIV) >= NLATBKTS - 1
  {
    hide U32;
    if lat / LATDIV < TWO32 { WordOf(lat / LATDIV); }
  }

  lemma WordOf(q: nat)
    requires q < TWO32
    ensures U32(q) == q
  {
  }

  /** After about twelve hours the cast wraps, and a longer latency can fall into a lower bucket. */
  lemma BucketWraps()
    ensures exists x: nat, y: nat :: x <= y && Measurable(x) && !Measurable(y) && BucketOf(x) > BucketOf(y)
  {
    var y := TWO32 * LATDIV;
    assert y / LATDIV == TWO32;
    assert Measurable(LATDIV) && BucketOf(LATDIV) == 1;
    assert BucketOf(y) == 0;
  }

  /** How many of the latencies fall into bucket `b`. */
  function CountIn(lats: seq<nat>, b: nat): nat {
    if lats == [] then 0
    else CountIn(lats[..|lats| - 1], b) + if BucketOf(lats[|lats| - 1]) == b then 1 else 0
  }

  /** How many of the latencies fall into a bucket below `b`. */
  function Below(lats: seq<nat>, b: nat): nat {
    if lats == [] then 0
    else Below(lats[..|lats| - 1], b) + if BucketOf(lats[|lats| - 1]) < b then 1 else 0
  }

  /** The sum of the first `i` buckets. */
  function Prefix(h: seq<nat>, i: nat): nat
    requires i <= |h|
  {
    if i == 0 then 0 else Prefix(h, i - 1) + h[i - 1]
  }

  ghost predicate IsHistogram(h: seq<nat>, lats: seq<nat>) {
    |h| == NLATBKTS && forall b | 0 <= b < NLATBKTS :: h[b] == CountIn(lats, b)
  }

  lemma {:induction false} BelowNext(lats: seq<nat>, b: nat)
    ensures Below(lats, b + 1) == Below(lats, b) + CountIn(lats, b)
    ensures Below(lats, 0) == 0 && Below(lats, NLATBKTS) == |lats|
  {
    if lats == [] {
    } else {
      BelowNext(lats[..|lats| - 1], b);
    }
  }

  /** The running total of the scan counts the latencies in the buckets scanned. */
  lemma {:induction false} PrefixIsBelow(h: seq<nat>, lats: seq<nat>, i: nat)
    requires IsHistogram(h, lats) && i <= NLATBKTS
    ensures Prefix(h, i) == Below(lats, i)
    ensures Prefix(h, NLATBKTS) == |lats| || i < NLATBKTS
  {
    BelowNext(lats, 0);
    if i == 0 {
    } else {
      PrefixIsBelow(h, lats, i - 1);
      BelowNext(lats, i - 1);
    }
  }

  lemma {:induction false} PrefixMonotone(h: seq<nat>, i: nat, j: nat)
    requires i <= j <= |h|
    ensures Prefix(h, i) <= Prefix(h, j)
    decreases j
  {
    if i == j {
    } else {
      PrefixMonotone(h, i, j - 1);
    }
  }

  // ---------------------------------------------------------------- order statistics

  predicate Sorted(s: seq<nat>) {
    forall i, j | 0 <= i < j < |s| :: s[i] <= s[j]
  }

  /** Every collection of latencies can be sorted. */
  lemma {:induction false} SortedExists(lats: seq<nat>) returns (s: seq<nat>)
    ensures Sorted(s) && multiset(s) == multiset(lats)
  {
    if lats == [] {
      s := [];
    } else {
      var x := lats[|lats| - 1];
      s := SortedExists(lats[..|lats| - 1]);
      s := Inserted(s, x);
      assert lats == lats[..|lats| - 1] + [x];
    }
  }

  lemma SortedSnoc(s: seq<nat>, x: nat)
    requires Sorted(s) && (s == [] || s[|s| - 1] <= x)
    ensures Sorted(s + [x])
  {
  }

  lemma SortedInit(s: seq<nat>)
    requires Sorted(s) && s != []
    ensures Sorted(s[..|s| - 1]) && s == s[..|s| - 1] + [s[|s| - 1]]
    ensures |s| > 1 ==> s[|s| - 2] <= s[|s| - 1]
  {
  }

  lemma {:induction false} Inserted(s: seq<nat>, x: nat) returns (t: seq<nat>)
    requires Sorted(s)
    ensures Sorted(t) && multiset(t) == multiset(s) + multiset{x}
    ensures t != [] && t[|t| - 1] == if s == [] || x >= s[|s| - 1] then x else s[|s| - 1]
  {
    hide Sorted;
    if s == [] || x >= s[|s| - 1] {
      SortedSnoc(s, x);
      t := s + [x];
    } else {
      SortedInit(s);
      t := Inserted(s[..|s| - 1], x);
      SortedSnoc(t, s[|s| - 1]);
      t := t + [s[|s| - 1]];
    }
  }

  lemma {:induction false} BelowConcat(a: seq<nat>, c: seq<nat>, b: nat)
    ensures Below(a + c, b) == Below(a, b) + Below(c, b)
    decreases |c|
  {
    if c == [] {
      assert a + c == a;
    } else {
      assert (a + c)[..|a + c| - 1] == a + c[..|c| - 1];
      BelowConcat(a, c[..|c| - 1], b);
    }
  }

  lemma BelowWithout(l: seq<nat>, x: nat, r: seq<nat>, b: nat)
    ensures Below(l + [x] + r, b) == Below(l + r, b) + if BucketOf(x) < b then 1 else 0
  {
    BelowConcat(l + [x], r, b);
    BelowConcat(l, [x], b);
    BelowConcat(l, r, b);
    assert [x][..0] == [];
  }

  /** Counting does not depend on the order in which latencies were recorded. */
  lemma {:induction false} BelowPermutation(a: seq<nat>, c: seq<nat>, b: nat)
    requires multiset(a) == multiset(c)
    ensures Below(a, b) == Below(c, b)
    decreases |a|
  {
    if a == [] {
      assert |multiset(c)| == |multiset(a)|;
    } else {
      var a', x := a[..|a| - 1], a[|a| - 1];
      assert a == a' + [x];
      assert x in multiset(c);
      var i :| 0 <= i < |c| && c[i] == x;
      var l, r := c[..i], c[i + 1..];
      assert c == l + [x] + r;
      calc {
        multiset(a');
        multiset(a) - multiset{x};
        multiset(l + [x] + r) - multiset{x};
        multiset(l + r);
      }
      BelowPermutation(a', l + r, b);
      BelowWithout(l, x, r, b);
    }
  }

  lemma {:induction false} BelowAll(s: seq<nat>, b: nat)
    ensures Below(s, b) <= |s|
    ensures (forall i | 0 <= i < |s| :: BucketOf(s[i]) < b) ==> Below(s, b) == |s|
    ensures (forall i | 0 <= i < |s| :: BucketOf(s[i]) >= b) ==> Below(s, b) == 0
  {
    if s == [] {
    } else {
      BelowAll(s[..|s| - 1], b);
    }
  }

  lemma BelowSplit(s: seq<nat>, k: nat, b: nat)
    requires k <= |s|
    ensures Below(s, b) == Below(s[..k], b) + Below(s[k..], b)
  {
    BelowConcat(s[..k], s[k..], b);
    assert s == s[..k] + s[k..];
  }

  /** In a sorted sequence, `k` entries are below bucket `b` exactly when the `k`-th is. */
  lemma SortedBelow(s: seq<nat>, k: nat, b: nat)
    requires Sorted(s) && 1 <= k <= |s| && (forall i | 0 <= i < |s| :: Measurable(s[i]))
    ensures Below(s, b) >= k <==> BucketOf(s[k - 1]) < b
  {
    hide BucketOf, Measurable;
    if BucketOf(s[k - 1]) < b {
      forall i | 0 <= i < k ensures BucketOf(s[..k][i]) < b { BucketMonotone(s[i], s[k - 1]); }
      BelowAll(s[..k], b);
      BelowSplit(s, k, b);
    } else {
      var hi := s[k - 1..];
      forall i | 0 <= i < |hi| ensures BucketOf(hi[i]) >= b { BucketMonotone(s[k - 1], s[k - 1 + i]); }
      BelowAll(hi, b);
      BelowAll(s[..k - 1], b);
      BelowSplit(s, k - 1, b);
    }
  }

  // ---------------------------------------------------------------- thresholds and the scan

  /** How many operations must be at or below the reported latency. */
  function Threshold(tot: nat, p: real): (k: int)
    requires 0.0 <= p < 1.0
    ensures 0 <= k <= tot && (tot > 0 ==> k >= 1)
  {
    assert 0.0 <= tot as real * p <= tot as real;
    assert tot > 0 ==> tot as real * p < tot as real;
    var f := (tot as real * p).Floor;
    assert f as real <= tot as real * p;
    assert tot > 0 ==> f as real < tot as real;
    tot - f
  }

  /** It is the smallest number of operations that is the wanted share of all, or more. */
  lemma ThresholdIsCeiling(tot: nat, p: real)
    requires 0.0 <= p < 1.0
    ensures (Threshold(tot, p) - 1) as real < tot as real * (1.0 - p) <= Threshold(tot, p) as real
  {
    var f := (tot as real * p).Floor;
    assert f as real <= tot as real * p < (f + 1) as real;
    assert tot as real * (1.0 - p) == tot as real - tot as real * p;
  }

  lemma ThresholdMonotone(tot: nat, p: real, q: real)
    requires 0.0 <= q <= p < 1.0
    ensures Threshold(tot, p) <= Threshold(tot, q)
  {
    FloorMonotone(tot as real * q, tot as real * p) by { ScaleMonotone(tot as real, q, p); }
  }

  lemma ScaleMonotone(x: real, q: real, p: real)
    requires 0.0 <= x && q <= p
    ensures x * q <= x * p
  {
    assert x * (p - q) >= 0.0;
  }

  lemma FloorMonotone(x: real, y: real)
    requires x <= y
    ensures x.Floor <= y.Floor
  {
    assert x.Floor as real <= x && y < (y.Floor + 1) as real;
  }

  /**
   What the scan leaves for threshold `k`: the upper edge of the bucket in which the
   running total reaches `k`, or the value from before when it never does.
   */
  ghost predicate Scanned(h: seq<nat>, k: nat, before: int, after: int) {
    && (forall i | 0 <= i < |h| && Prefix(h, i) < k <= Prefix(h, i + 1) :: after == (i + 1) * LATDIV)
    && (Prefix(h, |h|) < k ==> after == before)
  }

  lemma {:induction false} Crossing(h: seq<nat>, k: nat, n: nat) returns (i: nat)
    requires n <= |h| && 1 <= k <= Prefix(h, n)
    ensures i < n && Prefix(h, i) < k <= Prefix(h, i + 1)
  {
    if k <= Prefix(h, n - 1) { i := Crossing(h, k, n - 1); } else { i := n - 1; }
  }

  /**
   The value reported for threshold `k` is the upper edge of the bucket of the `k`-th
   smallest latency, whatever the order in which the latencies were recorded.
   */
  lemma ScanIsOrderStatistic(h: seq<nat>, lats: seq<nat>, s: seq<nat>, k: nat, before: int, after: int)
    requires IsHistogram(h, lats) && Scanned(h, k, before, after)
    requires Sorted(s) && multiset(s) == multiset(lats) && (forall i | 0 <= i < |s| :: Measurable(s[i]))
    requires 1 <= k <= |lats|
    ensures |s| == |lats| && after == LATDIV * (1 + BucketOf(s[k - 1]))
  {
    assert |s| == |multiset(s)| == |multiset(lats)| == |lats|;
    var b := BucketOf(s[k - 1]);
    PrefixIsBelow(h, lats, b);
    PrefixIsBelow(h, lats, b + 1);
    BelowPermutation(s, lats, b);
    BelowPermutation(s, lats, b + 1);
    SortedBelow(s, k, b);
    SortedBelow(s, k, b + 1);
  }

  /** The upper edge of the bucket, among the first `n`, in which the running total reaches `k`. */
  function Edge(h: seq<nat>, k: nat, n: nat): nat
    requires n <= |h|
  {
    if n == 0 then 0 else if Prefix(h, n - 1) >= k then Edge(h, k, n - 1) else n * LATDIV
  }

  lemma {:induction false} EdgeIsCrossing(h: seq<nat>, k: nat, n: nat, i: nat)
    requires i < n <= |h| && Prefix(h, i) < k <= Prefix(h, i + 1)
    ensures Edge(h, k, n) == (i + 1) * LATDIV
  {
    if n == i + 1 {
    } else {
      PrefixMonotone(h, i + 1, n - 1);
      EdgeIsCrossing(h, k, n - 1, i);
    }
  }

  /** The scan leaves the edge, if the total reaches the threshold at all. */
  lemma ScannedEdge(h: seq<nat>, k: nat, before: int, after: int)
    requires 1 <= k && Scanned(h, k, before, after)
    ensures after == if Prefix(h, |h|) >= k then Edge(h, k, |h|) else before
  {
    if Prefix(h, |h|) >= k {
      var i := Crossing(h, k, |h|);
      EdgeIsCrossing(h, k, |h|, i);
    }
  }

  lemma EdgeScanned(h: seq<nat>, k: nat, before: int)
    requires 1 <= k <= Prefix(h, |h|)
    ensures Scanned(h, k, before, Edge(h, k, |h|))
  {
    forall i | 0 <= i < |h| && Prefix(h, i) < k <= Prefix(h, i + 1) ensures Edge(h, k, |h|) == (i + 1) * LATDIV {
      EdgeIsCrossing(h, k, |h|, i);
    }
  }

  /** With nothing recorded, the counter of operations is taken as one and the old value stays. */
  lemma ScanWithoutRecords(h: seq<nat>, p: real, before: int, after: int)
    requires 0.0 <= p < 1.0 && IsHistogram(h, []) && Scanned(h, Threshold(1, p), before, after)
    ensures after == before
  {
    PrefixIsBelow(h, [], NLATBKTS);
  }

  /**
   The scan of printbuckets: one pass over the buckets of both types, each with a cursor
   that moves through the thresholds as the running total reaches them.
   */
  method ScanPercentiles(buckets: seq<seq<nat>>, pct: array2<nat>, pctval: array2<int>)
    requires |buckets| == NTYPE && |buckets[READ]| == |buckets[WRITE]| == NLATBKTS
    requires pct.Length0 == pctval.Length0 == NPERCENT && pct.Length1 == pctval.Length1 == NTYPE
    requires (pct as object) != pctval
    requires forall j, t | 0 <= j < NPERCENT && 0 <= t < NTYPE :: pct[j, t] >= 1
    requires forall i, j, t | 0 <= i <= j < NPERCENT && 0 <= t < NTYPE :: pct[i, t] <= pct[j, t]
    modifies pctval
    ensures forall j, t | 0 <= j < NPERCENT && 0 <= t < NTYPE ::
      Scanned(buckets[t], pct[j, t], old(pctval[j, t]), pctval[j, t])
  {
    var rdtot, wrtot, jr, jw := 0, 0, 0, 0;
    var rd, wr := buckets[READ], buckets[WRITE];
    var i := 0;
    while i < NLATBKTS
      invariant 0 <= i <= NLATBKTS && 0 <= jr <= NPERCENT && 0 <= jw <= NPERCENT
      invariant rdtot == Prefix(rd, i) && wrtot == Prefix(wr, i)
      invariant Passed(rd, READ, pct, pctval, jr, i) && Passed(wr, WRITE, pct, pctval, jw, i)
      invariant forall j | jr <= j < NPERCENT :: pctval[j, READ] == old(pctval[j, READ])
      invariant forall j | jw <= j < NPERCENT :: pctval[j, WRITE] == old(pctval[j, WRITE])
    {
      rdtot := rdtot + rd[i];
      wrtot := wrtot + wr[i];
      jr := Advance(rd, READ, pct, pctval, jr, i, rdtot);
      jw := Advance(wr, WRITE, pct, pctval, jw, i, wrtot);
      i := i + 1;
    }
    forall j, t | 0 <= j < NPERCENT && 0 <= t < NTYPE
      ensures Scanned(buckets[t], pct[j, t], old(pctval[j, t]), pctval[j, t])
    {
      PassedScanned(buckets[t], t, pct, pctval, if t == READ then jr else jw, j, old(pctval[j, t]));
    }
  }

  /** The thresholds before cursor `cur` are reached within the first `i` buckets, the others not. */
  ghost predicate Passed(h: seq<nat>, t: nat, pct: array2<nat>, pctval: array2<int>, cur: nat, i: nat)
    requires pct.Length0 == pctval.Length0 == NPERCENT && pct.Length1 == pctval.Length1 == NTYPE
    requires t < NTYPE && cur <= NPERCENT && i <= |h|
    reads pct, pctval
  {
    && (forall j | 0 <= j < cur :: Reported(h, pct[j, t], pctval[j, t], i))
    && (forall j | cur <= j < NPERCENT :: Prefix(h, i) < pct[j, t])
  }

  ghost predicate Reported(h: seq<nat>, k: nat, v: int, i: nat)
    requires i <= |h|
  {
    exists b: nat :: b < i && Prefix(h, b) < k <= Prefix(h, b + 1) && v == (b + 1) * LATDIV
  }

  method Advance(h: seq<nat>, t: nat, pct: array2<nat>, pctval: array2<int>, cur: nat, i: nat, tot: nat)
    returns (next: nat)
    requires pct.Length0 == pctval.Length0 == NPERCENT && pct.Length1 == pctval.Length1 == NTYPE
    requires (pct as object) != pctval && t < NTYPE && cur <= NPERCENT && i < |h| && tot == Prefix(h, i + 1)
    requires forall j, k | 0 <= j <= k < NPERCENT :: pct[j, t] <= pct[k, t]
    requires Passed(h, t, pct, pctval, cur, i)
    modifies pctval
    ensures cur <= next <= NPERCENT && Passed(h, t, pct, pctval, next, i + 1)
    ensures forall j, u | 0 <= j < NPERCENT && 0 <= u < NTYPE && (u != t || j < cur || j >= next) ::
      pctval[j, u] == old(pctval[j, u])
  {
    next := cur;
    while next < NPERCENT && tot >= pct[next, t]
      invariant cur <= next <= NPERCENT
      invariant forall j | 0 <= j < cur :: Reported(h, pct[j, t], pctval[j, t], i)
      invariant forall j | cur <= j < next :: pct[j, t] <= tot && pctval[j, t] == (i + 1) * LATDIV
      invariant forall j, u | 0 <= j < NPERCENT && 0 <= u < NTYPE && (u != t || j < cur || j >= next) ::
        pctval[j, u] == old(pctval[j, u])
    {
      pctval[next, t] := (i + 1) * LATDIV;
      next := next + 1;
    }
    forall j | 0 <= j < next ensures Reported(h, pct[j, t], pctval[j, t], i + 1) {
      if j < cur {
        var b: nat :| b < i && Prefix(h, b) < pct[j, t] <= Prefix(h, b + 1) && pctval[j, t] == (b + 1) * LATDIV;
      } else {
        assert i < i + 1 && Prefix(h, i) < pct[j, t] <= Prefix(h, i + 1);
      }
    }
  }

  /** The running total crosses a threshold in one bucket only. */
  lemma CrossingUnique(h: seq<nat>, k: nat, i: nat, j: nat)
    requires i < |h| && j < |h|
    requires Prefix(h, i) < k <= Prefix(h, i + 1) && Prefix(h, j) < k <= Prefix(h, j + 1)
    ensures i == j
  {
    if i < j { PrefixMonotone(h, i + 1, j); }
    if j < i { PrefixMonotone(h, j + 1, i); }
  }

  lemma PassedScanned(h: seq<nat>, t: nat, pct: array2<nat>, pctval: array2<int>, cur: nat, j: nat, before: int)
    requires pct.Length0 == pctval.Length0 == NPERCENT && pct.Length1 == pctval.Length1 == NTYPE
    requires t < NTYPE && cur <= NPERCENT && j < NPERCENT && Passed(h, t, pct, pctval, cur, |h|)
    requires j >= cur ==> pctval[j, t] == before
    ensures Scanned(h, pct[j, t], before, pctval[j, t])
  {
    var k, v := pct[j, t], pctval[j, t];
    if j < cur {
      var b: nat :| b < |h| && Prefix(h, b) < k <= Prefix(h, b + 1) && v == (b + 1) * LATDIV;
      PrefixMonotone(h, b + 1, |h|);
      forall i | 0 <= i < |h| && Prefix(h, i) < k <= Prefix(h, i + 1) ensures v == (i + 1) * LATDIV {
        CrossingUnique(h, k, i, b);
      }
    } else {
      forall i | 0 < i <= |h| ensures Prefix(h, i) < k { PrefixMonotone(h, i, |h|); }
    }
  }
}
