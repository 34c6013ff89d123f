/**
 What the numbers of an ioload report mean in terms of the I/Os completed: order statistics
 of the raw latencies, when the latency limit halts, and sums over files.
 */
module LoadTheorems {
  import opened Words
  import opened LatencyHistogram
  import opened LoadStats
  import opened LoadReport

  /**
   The value for every percentile, of the latencies of all threads a block covers, is the
   upper edge of the bucket of the matching order statistic.
   */
  lemma ReportedIsOrderStatistic(w: Window, evs: seq<Completion>, t: nat, j: nat, s: seq<nat>)
    requires t < NTYPE && j < NPERCENT && SortedLats(w, evs, t, s) && s != []
    requires forall i | 0 <= i < |s| :: Measurable(s[i])
    ensures LatsOf(w, evs, t) != []
    ensures ValueOf(LatsOf(w, evs, t), j) == 10000 * (1 + Smaller(s[Threshold(|s|, Cut(j)) - 1] / 10000, 99999))
  {
    hide LatsOf, ValueOf, Threshold, Cut, Measurable, Smaller;
    var lats := LatsOf(w, evs, t);
    assert |s| == |multiset(s)| == |multiset(lats)| == |lats|;
    ValueIsOrderStatistic(lats, j, s);
  }

  /** The 90th percentile of sorted latencies is over the limit. */
  predicate OverLimit(s: seq<nat>, maxlatency: nat) {
    s != [] && 10000 * (1 + Smaller(s[Threshold(|s|, 0.1) - 1] / 10000, 99999)) > maxlatency
  }

  /**
   What decides, by the contract of Output, whether a summary halts when only the system is
   printed: that some type has operations in the stage and the 90th percentile of its own
   latencies, from the raw log, is over the limit.
   */
  lemma HaltIsStageLatency(r: Report, evs: seq<Completion>, rs: seq<nat>, ws: seq<nat>)
    requires SortedLats(r.window, evs, READ, rs) && SortedLats(r.window, evs, WRITE, ws)
    requires forall x | x in rs + ws :: Measurable(x)
    ensures r.HaltsOn(BlockLats(r.window, evs)) <==> OverLimit(rs, r.maxlatency) || OverLimit(ws, r.maxlatency)
  {
    OverIff(r, evs, READ, rs) by { assert forall i | 0 <= i < |rs| :: rs[i] in rs + ws; }
    OverIff(r, evs, WRITE, ws) by { assert forall i | 0 <= i < |ws| :: ws[i] in rs + ws; }
    hide LatsOf, OverLimit, ValueOf;
  }

  lemma OverIff(r: Report, evs: seq<Completion>, t: nat, s: seq<nat>)
    requires t < NTYPE && SortedLats(r.window, evs, t, s) && forall i | 0 <= i < |s| :: Measurable(s[i])
    ensures r.Over(LatsOf(r.window, evs, t)) <==> OverLimit(s, r.maxlatency)
  {
    assert |s| == |multiset(s)| == |multiset(LatsOf(r.window, evs, t))| == |LatsOf(r.window, evs, t)|;
    hide LatsOf, Threshold, Quantile, Smaller;
    if s != [] { ReportedIsOrderStatistic(r.window, evs, t, 1, s); }
  }

  /** However many blocks are printed, a type without operations in them keeps what the table held. */
  lemma StalePercentile(
      w: Window, verbose: bool, sys: seq<Completion>, files: seq<seq<Completion>>, kept: Lats, t: nat)
    requires t < NTYPE && LatsOf(w, sys, t) == []
    requires forall i | 0 <= i < |files| :: LatsOf(w, files[i], t) == []
    ensures KeepAll(kept, Blocks(w, verbose, sys, files))[t] == kept[t]
  {
    KeepAllSilent(kept, Blocks(w, verbose, sys, files), t);
  }

  /**
   With `verbose` it is the last file with operations of the type that leaves its percentiles
   in the table, whatever those of the system are.
   */
  lemma {:induction false} LastFileCarries(
      w: Window, sys: seq<Completion>, files: seq<seq<Completion>>, kept: Lats, t: nat, i: nat)
    requires t < NTYPE && i < |files| && LatsOf(w, files[i], t) != []
    requires forall j | i < j < |files| :: LatsOf(w, files[j], t) == []
    ensures KeepAll(kept, Blocks(w, true, sys, files))[t] == LatsOf(w, files[i], t)
    decreases |files|
  {
    var blocks, last := Blocks(w, true, sys, files), |files| - 1;
    assert blocks[..|blocks| - 1] == Blocks(w, true, sys, files[..last]);
    if i == last {
    } else {
      LastFileCarries(w, sys, files[..last], kept, t, i);
    }
    hide LatsOf;
  }

  // ---------------------------------------------------------------- sums over files

  ghost function SumOfFiles(w: Window, fs: seq<File>, k: Portion): IoStats
    reads (set f, t | f in fs && t in f.ithreads :: t)`reported
    reads (set f, t | f in fs && t in f.ithreads :: t)`recent
  {
    if fs == [] then ZERO
    else Add(SumOfFiles(w, fs[..|fs| - 1], k), Tally(w, Gather(fs[|fs| - 1].ithreads, k)))
  }

  /** What a report shows for all files is the sum of what it shows for each. */
  lemma {:induction false} FilesSumToSystem(w: Window, fs: seq<File>, k: Portion)
    ensures SumOfFiles(w, fs, k) == Tally(w, GatherAll(fs, k))
  {
    if fs == [] {
      ZeroTally(w);
    } else {
      FilesSumToSystem(w, fs[..|fs| - 1], k);
      TallyConcat(w, GatherAll(fs[..|fs| - 1], k), Gather(fs[|fs| - 1].ithreads, k));
    }
  }

  /** The completions that a report covers are those of every thread of every file, in list order. */
  lemma {:induction false} GatherSplits(a: seq<IoThread>, b: seq<IoThread>, t: IoThread, k: Portion)
    ensures Gather(a + b, k) == Gather(a, k) + Gather(b, k)
    ensures Gather([t], Whole) == t.reported + t.recent && Gather([t], Seen) == t.reported && Gather([t], Fresh) == t.recent
    decreases |b|
  {
    assert [t][..0] == [];
    if b == [] {
      assert a + b == a;
    } else {
      assert (a + b)[..|a + b| - 1] == a + b[..|b| - 1];
      GatherSplits(a, b[..|b| - 1], t, k);
    }
  }

  lemma {:induction false} GatherAllSplits(a: seq<File>, b: seq<File>, f: File, k: Portion)
    ensures GatherAll(a + b, k) == GatherAll(a, k) + GatherAll(b, k)
    ensures GatherAll([f], k) == Gather(f.ithreads, k)
    decreases |b|
  {
    assert [f][..0] == [];
    if b == [] {
      assert a + b == a;
    } else {
      assert (a + b)[..|a + b| - 1] == a + b[..|b| - 1];
      GatherAllSplits(a, b[..|b| - 1], f, k);
    }
    hide Gather;
  }

  // ---------------------------------------------------------------- what one I/O adds

  /**
   A read or write that began inside the window adds one operation, its latency in
   nanoseconds, its bytes and one entry in the bucket of its latency, all to its own type.
   */
  lemma OneMore(w: Window, evs: seq<Completion>, c: Completion, t: nat)
    requires WellTimed(c) && t < NTYPE && Measurable(c.end - c.start)
    ensures var a, b, counts := Tally(w, evs), Tally(w, evs + [c]), w.endwarmup <= c.start < w.endinterval && c.typ == t;
      && b.totlat[t] == a.totlat[t] + (if counts then c.end - c.start else 0)
      && b.totbytes[t] == a.totbytes[t] + (if counts then c.size else 0)
      && (t == READ ==> b.totreads == a.totreads + if counts then 1 else 0)
      && (t == WRITE ==> b.totwrites == a.totwrites + if counts then 1 else 0)
      && forall k | 0 <= k < NLATBKTS :: b.latbuckets[t][k]
           == a.latbuckets[t][k] + if counts && k == Smaller((c.end - c.start) / 10000, 99999) then 1 else 0
  {
    hide Tally, LatsOf, SizesOf, Histogram, Sum, BucketOf, U32, Measurable, Smaller;
    TallyOf(w, evs, t);
    TallyOf(w, evs + [c], t);
    SelectSnoc(w, evs, c, t);
    BucketRightIff(c.end - c.start);
    HistogramSnoc(LatsOf(w, evs, t), c.end - c.start);
    SumSnoc(LatsOf(w, evs, t), c.end - c.start);
    SumSnoc(SizesOf(w, evs, t), c.size);
  }

  lemma TallyOf(w: Window, evs: seq<Completion>, t: nat)
    requires t < NTYPE
    ensures var a, lats := Tally(w, evs), LatsOf(w, evs, t);
      && a.latbuckets[t] == Histogram(lats) && a.totlat[t] == Sum(lats) && a.totbytes[t] == Sum(SizesOf(w, evs, t))
      && (if t == READ then a.totreads else a.totwrites) == |lats|
  {
    hide LatsOf, SizesOf, Histogram, Sum;
  }

  /** An I/O that began outside the measurement window counts for nothing, whatever its stage. */
  lemma {:induction false} OutsideWindow(w: Window, evs: seq<Completion>)
    requires forall c | c in evs :: c.start < w.endwarmup || c.start >= w.endinterval || c.typ == SLEEP
    ensures Tally(w, evs) == ZERO
  {
    if evs == [] {
      ZeroTally(w);
    } else {
      var c := evs[|evs| - 1];
      OutsideWindow(w, evs[..|evs| - 1]);
      assert evs == evs[..|evs| - 1] + [c];
      SelectSnoc(w, evs[..|evs| - 1], c, READ);
      SelectSnoc(w, evs[..|evs| - 1], c, WRITE);
    }
  }
}
