/**
 The statistics of ioload as values: what a set of completed I/Os adds up to, and the
 element-wise loops that add and subtract statistics.
 */
module LoadStats {
  import opened Words
  import opened LatencyHistogram

  const SLEEP: nat := 15

  /** One completed I/O: its clock readings, its type and its size. */
  datatype Completion = Completion(start: nat, end: nat, typ: nat, size: nat)

  /** The measurement window of a stage. */
  datatype Window = Window(endwarmup: nat, endinterval: nat)

  /** `latbuckets` is indexed by type and then by bucket. */
  datatype Block = Block(
    latbuckets: seq<seq<nat>>, totreads: nat, totwrites: nat,
    totlat: seq<nat>, totbytes: seq<nat>)

  predicate Shaped(st: Block) {
    && |st.latbuckets| == |st.totlat| == |st.totbytes| == NTYPE
    && |st.latbuckets[READ]| == |st.latbuckets[WRITE]| == NLATBKTS
  }

  /** A statistics block with the array sizes of the source. */
  type IoStats = st: Block | Shaped(st)
    witness Block([seq(NLATBKTS, i => 0), seq(NLATBKTS, i => 0)], 0, 0, [0, 0], [0, 0])

  predicate WellTimed(c: Completion) {
    c.start <= c.end < TWO64 && c.typ in {READ, WRITE, SLEEP}
  }

  /** A completion counts when it is a read or write that began inside the window. */
  predicate Recorded(w: Window, c: Completion, t: nat) {
    w.endwarmup <= c.start < w.endinterval && c.typ == t
  }

  function Latency(c: Completion): nat {
    U64(c.end - c.start)
  }

  /** The latencies that count for type `t`, in the order recorded. */
  function LatsOf(w: Window, evs: seq<Completion>, t: nat): seq<nat> {
    if evs == [] then []
    else
      var c := evs[|evs| - 1];
      LatsOf(w, evs[..|evs| - 1], t) + if Recorded(w, c, t) then [Latency(c)] else []
  }

  function SizesOf(w: Window, evs: seq<Completion>, t: nat): seq<nat> {
    if evs == [] then []
    else
      var c := evs[|evs| - 1];
      SizesOf(w, evs[..|evs| - 1], t) + if Recorded(w, c, t) then [c.size] else []
  }

  function Sum(s: seq<nat>): nat {
    if s == [] then 0 else Sum(s[..|s| - 1]) + s[|s| - 1]
  }

  function Histogram(lats: seq<nat>): seq<nat> {
    seq(NLATBKTS, (b: nat) => CountIn(lats, b))
  }

  /** What the completions `evs` amount to. */
  function Tally(w: Window, evs: seq<Completion>): IoStats {
    Block([Histogram(LatsOf(w, evs, READ)), Histogram(LatsOf(w, evs, WRITE))],
            |LatsOf(w, evs, READ)|, |LatsOf(w, evs, WRITE)|,
            [Sum(LatsOf(w, evs, READ)), Sum(LatsOf(w, evs, WRITE))],
            [Sum(SizesOf(w, evs, READ)), Sum(SizesOf(w, evs, WRITE))])
  }

  function Zeros(n: nat): seq<nat> {
    seq(n, i => 0)
  }

  /** A cleared statistics block. */
  const ZERO: IoStats := Block([Zeros(NLATBKTS), Zeros(NLATBKTS)], 0, 0, Zeros(NTYPE), Zeros(NTYPE))

  function AddSeq(a: seq<nat>, b: seq<nat>): seq<nat>
    requires |a| == |b|
  {
    seq(|a|, i requires 0 <= i < |a| => a[i] + b[i])
  }

  function Add(a: IoStats, b: IoStats): IoStats {
    Block([AddSeq(a.latbuckets[READ], b.latbuckets[READ]), AddSeq(a.latbuckets[WRITE], b.latbuckets[WRITE])],
            a.totreads + b.totreads, a.totwrites + b.totwrites,
            AddSeq(a.totlat, b.totlat), AddSeq(a.totbytes, b.totbytes))
  }

  // ---------------------------------------------------------------- adding up completions

  lemma {:induction false} LatsConcat(w: Window, a: seq<Completion>, c: seq<Completion>, t: nat)
    ensures LatsOf(w, a + c, t) == LatsOf(w, a, t) + LatsOf(w, c, t)
    ensures SizesOf(w, a + c, t) == SizesOf(w, a, t) + SizesOf(w, c, t)
    decreases |c|
  {
    if c == [] {
      assert a + c == a;
    } else {
      assert (a + c)[..|a + c| - 1] == a + c[..|c| - 1];
      LatsConcat(w, a, c[..|c| - 1], t);
    }
  }

  lemma {:induction false} SumConcat(a: seq<nat>, c: seq<nat>)
    ensures Sum(a + c) == Sum(a) + Sum(c)
    decreases |c|
  {
    if c == [] {
      assert a + c == a;
    } else {
      assert (a + c)[..|a + c| - 1] == a + c[..|c| - 1];
      SumConcat(a, c[..|c| - 1]);
    }
  }

  lemma {:induction false} CountConcat(a: seq<nat>, c: seq<nat>, b: nat)
    ensures CountIn(a + c, b) == CountIn(a, b) + CountIn(c, b)
    decreases |c|
  {
    if c == [] {
      assert a + c == a;
    } else {
      assert (a + c)[..|a + c| - 1] == a + c[..|c| - 1];
      CountConcat(a, c[..|c| - 1], b);
    }
  }

  lemma HistogramConcat(a: seq<nat>, c: seq<nat>)
    ensures Histogram(a + c) == AddSeq(Histogram(a), Histogram(c))
  {
    forall b: nat | b < NLATBKTS ensures Histogram(a + c)[b] == Histogram(a)[b] + Histogram(c)[b] {
      CountConcat(a, c, b);
    }
  }

  /** The statistics of all completions are the sum of the statistics of the parts. */
  lemma TallyConcat(w: Window, a: seq<Completion>, c: seq<Completion>)
    ensures Tally(w, a + c) == Add(Tally(w, a), Tally(w, c))
  {
    LatsConcat(w, a, c, READ);
    LatsConcat(w, a, c, WRITE);
    HistogramConcat(LatsOf(w, a, READ), LatsOf(w, c, READ));
    HistogramConcat(LatsOf(w, a, WRITE), LatsOf(w, c, WRITE));
    SumConcat(LatsOf(w, a, READ), LatsOf(w, c, READ));
    SumConcat(LatsOf(w, a, WRITE), LatsOf(w, c, WRITE));
    SumConcat(SizesOf(w, a, READ), SizesOf(w, c, READ));
    SumConcat(SizesOf(w, a, WRITE), SizesOf(w, c, WRITE));
    hide Histogram, Sum, LatsOf, SizesOf;
    var x, y, z := Tally(w, a), Tally(w, c), Tally(w, a + c);
    assert z.totlat == AddSeq(x.totlat, y.totlat);
    assert z.totbytes == AddSeq(x.totbytes, y.totbytes);
  }

  lemma AddZero(a: IoStats)
    ensures Add(ZERO, a) == a
  {
    assert AddSeq(ZERO.totlat, a.totlat) == a.totlat;
    assert AddSeq(ZERO.totbytes, a.totbytes) == a.totbytes;
    assert AddSeq(ZERO.latbuckets[READ], a.latbuckets[READ]) == a.latbuckets[READ];
    assert AddSeq(ZERO.latbuckets[WRITE], a.latbuckets[WRITE]) == a.latbuckets[WRITE];
  }

  lemma ZeroTally(w: Window)
    ensures Tally(w, []) == ZERO
  {
    assert Histogram([]) == Zeros(NLATBKTS);
  }

  /** The buckets of a type hold its latencies, and their sum is the number of operations. */
  lemma TallyHistogram(w: Window, evs: seq<Completion>, t: nat)
    requires t < NTYPE
    ensures IsHistogram(Tally(w, evs).latbuckets[t], LatsOf(w, evs, t))
    ensures Prefix(Tally(w, evs).latbuckets[t], NLATBKTS) == |LatsOf(w, evs, t)|
  {
    PrefixIsBelow(Tally(w, evs).latbuckets[t], LatsOf(w, evs, t), NLATBKTS);
  }

  // ---------------------------------------------------------------- percentiles

  /** What the scan finds for the tail fraction `p` of these latencies. */
  function Quantile(lats: seq<nat>, p: real): nat
    requires 0.0 <= p < 1.0
  {
    Edge(Histogram(lats), Threshold(|lats|, p), NLATBKTS)
  }

  /** It is the upper edge of the bucket of the matching order statistic. */
  lemma QuantileIsOrderStatistic(lats: seq<nat>, p: real, s: seq<nat>)
    requires lats != [] && 0.0 <= p < 1.0 && Sorted(s) && multiset(s) == multiset(lats)
    requires forall i | 0 <= i < |s| :: Measurable(s[i])
    ensures |s| == |lats| && Quantile(lats, p) == LATDIV * (1 + BucketOf(s[Threshold(|s|, p) - 1]))
  {
    assert |s| == |multiset(s)| == |multiset(lats)| == |lats|;
    var h, k := Histogram(lats), Threshold(|lats|, p);
    PrefixIsBelow(h, lats, NLATBKTS);
    EdgeScanned(h, k, 0);
    ScanIsOrderStatistic(h, lats, s, k, 0, Quantile(lats, p));
    hide Threshold, BucketOf, Scanned;
  }

  // ---------------------------------------------------------------- the loops over the buckets

  /** The part of one statistics block that a bucket loop adds into another, and the row total. */
  method AddBuckets(dst: seq<seq<nat>>, src: seq<seq<nat>>) returns (r: seq<seq<nat>>, nreads: nat, nwrites: nat)
    requires |dst| == |src| == NTYPE && |dst[READ]| == |dst[WRITE]| == NLATBKTS
    requires |src[READ]| == |src[WRITE]| == NLATBKTS
    ensures r == [AddSeq(dst[READ], src[READ]), AddSeq(dst[WRITE], src[WRITE])]
    ensures nreads == Prefix(src[READ], NLATBKTS) && nwrites == Prefix(src[WRITE], NLATBKTS)
  {
    r, nreads, nwrites := dst, 0, 0;
    var i := 0;
    while i < NLATBKTS
      invariant 0 <= i <= NLATBKTS && |r| == NTYPE && |r[READ]| == |r[WRITE]| == NLATBKTS
      invariant forall t, b | 0 <= t < NTYPE && 0 <= b < NLATBKTS ::
        r[t][b] == if b < i then dst[t][b] + src[t][b] else dst[t][b]
      invariant nreads == Prefix(src[READ], i) && nwrites == Prefix(src[WRITE], i)
    {
      var j := 0;
      while j < NTYPE
        invariant 0 <= j <= NTYPE && |r| == NTYPE && |r[READ]| == |r[WRITE]| == NLATBKTS
        invariant forall t, b | 0 <= t < NTYPE && 0 <= b < NLATBKTS ::
          r[t][b] == if b < i || (b == i && t < j) then dst[t][b] + src[t][b] else dst[t][b]
      {
        r := r[j := r[j][i := r[j][i] + src[j][i]]];
        j := j + 1;
      }
      nreads := nreads + src[READ][i];
      nwrites := nwrites + src[WRITE][i];
      i := i + 1;
    }
    assert r[READ] == AddSeq(dst[READ], src[READ]);
    assert r[WRITE] == AddSeq(dst[WRITE], src[WRITE]);
  }

  /** Every counter of `a` is at most the same counter of `b`. */
  ghost predicate AtMost(a: IoStats, b: IoStats) {
    && (forall t, k | 0 <= t < NTYPE && 0 <= k < NLATBKTS :: a.latbuckets[t][k] <= b.latbuckets[t][k])
    && a.totreads <= b.totreads && a.totwrites <= b.totwrites
    && (forall t | 0 <= t < NTYPE :: a.totlat[t] <= b.totlat[t] && a.totbytes[t] <= b.totbytes[t])
  }

  /** The difference between two snapshots, counter by counter. */
  method StatsDiff(cp: IoStats, lp: IoStats) returns (up: IoStats)
    requires AtMost(lp, cp)
    ensures Add(lp, up) == cp
  {
    var totlat, totbytes := [0, 0], [0, 0];
    var j := 0;
    while j < NTYPE
      invariant 0 <= j <= NTYPE && |totlat| == |totbytes| == NTYPE
      invariant forall t | 0 <= t < j ::
        lp.totlat[t] + totlat[t] == cp.totlat[t] && lp.totbytes[t] + totbytes[t] == cp.totbytes[t]
    {
      totlat := totlat[j := cp.totlat[j] - lp.totlat[j]];
      totbytes := totbytes[j := cp.totbytes[j] - lp.totbytes[j]];
      j := j + 1;
    }
    var buckets := cp.latbuckets;
    var i := 0;
    while i < NLATBKTS
      invariant 0 <= i <= NLATBKTS
      invariant |buckets| == NTYPE && |buckets[READ]| == |buckets[WRITE]| == NLATBKTS
      invariant forall t, b | 0 <= t < NTYPE && 0 <= b < i ::
        lp.latbuckets[t][b] + buckets[t][b] == cp.latbuckets[t][b]
    {
      j := 0;
      while j < NTYPE
        invariant 0 <= j <= NTYPE
        invariant |buckets| == NTYPE && |buckets[READ]| == |buckets[WRITE]| == NLATBKTS
        invariant forall t, b | 0 <= t < NTYPE && 0 <= b && (b < i || (b == i && t < j)) ::
          lp.latbuckets[t][b] + buckets[t][b] == cp.latbuckets[t][b]
      {
        buckets := buckets[j := buckets[j][i := cp.latbuckets[j][i] - lp.latbuckets[j][i]]];
        j := j + 1;
      }
      i := i + 1;
    }
    up := Block(buckets, cp.totreads - lp.totreads, cp.totwrites - lp.totwrites, totlat, totbytes);
    assert AddSeq(lp.totlat, totlat) == cp.totlat && AddSeq(lp.totbytes, totbytes) == cp.totbytes;
    assert AddSeq(lp.latbuckets[READ], buckets[READ]) == cp.latbuckets[READ];
    assert AddSeq(lp.latbuckets[WRITE], buckets[WRITE]) == cp.latbuckets[WRITE];
    assert cp.latbuckets == [cp.latbuckets[READ], cp.latbuckets[WRITE]];
  }

  /** A difference that adds back to a sum is the other summand. */
  lemma AddCancels(a: IoStats, b: IoStats, c: IoStats)
    requires Add(a, b) == Add(a, c)
    ensures b == c
  {
    SeqCancels(a.latbuckets[READ], b.latbuckets[READ], c.latbuckets[READ]);
    SeqCancels(a.latbuckets[WRITE], b.latbuckets[WRITE], c.latbuckets[WRITE]);
    SeqCancels(a.totlat, b.totlat, c.totlat);
    SeqCancels(a.totbytes, b.totbytes, c.totbytes);
    assert b.latbuckets == [b.latbuckets[READ], b.latbuckets[WRITE]];
    assert c.latbuckets == [c.latbuckets[READ], c.latbuckets[WRITE]];
  }

  lemma SeqCancels(a: seq<nat>, b: seq<nat>, c: seq<nat>)
    requires |a| == |b| == |c| && AddSeq(a, b) == AddSeq(a, c)
    ensures b == c
  {
    forall i | 0 <= i < |a| ensures b[i] == c[i] {
      assert AddSeq(a, b)[i] == AddSeq(a, c)[i];
    }
  }
}
