/**
 ioload's statistics as they are kept and reported: per-thread counters updated as I/Os
 complete, aggregation per file and over all files, status differences, percentiles and
 the latency limit. Ghost logs of the completions tie every number to the raw events.
 */
module LoadReport {
  import opened Words
  import opened LatencyHistogram
  import opened LoadStats

  predicate SameCounts(a: IoStats, b: IoStats) {
    a.latbuckets == b.latbuckets && a.totlat == b.totlat && a.totbytes == b.totbytes
  }

  class IoThread {
    var cur: IoStats
    ghost var reported: seq<Completion>  // the completions the status reports of the stage covered
    ghost var recent: seq<Completion>    // the completions since

    /** The counters hold exactly the completions of the stage; the two totals are filled in by reports. */
    ghost predicate Valid(w: Window)
      reads this
    {
      SameCounts(cur, Tally(w, reported + recent))
    }

    constructor (w: Window)
      ensures Valid(w) && reported == recent == [] && cur == ZERO
    {
      cur, reported, recent := ZERO, [], [];
      ZeroTally(w);
    }

    /** io_finish: an I/O outside the window, and a sleep, leave the counters alone. */
    method Finish(c: Completion, w: Window)
      requires Valid(w) && WellTimed(c)
      modifies this`cur, this`recent
      ensures Valid(w) && recent == old(recent) + [c]
    {
      ghost var evs := reported + recent;
      FinishTally(w, evs, c);
      if c.start < w.endwarmup || c.start >= w.endinterval {
      } else {
        var lat := Latency(c);
        if c.typ != SLEEP {
          BumpSame(cur, Tally(w, evs), c.typ, lat, c.size);
          cur := Bump(cur, c.typ, lat, c.size);
        }
      }
      assert SameCounts(cur, Tally(w, evs + [c]));
      recent := recent + [c];
      assert evs + [c] == reported + recent;
      hide Tally, Bump;
    }
  }

  /** One operation more of type `t`: its bucket, its latency and its bytes. */
  function Bump(st: IoStats, t: nat, lat: nat, size: nat): IoStats
    requires t < NTYPE
  {
    var bkt := BucketOf(lat);
    st.(latbuckets := st.latbuckets[t := st.latbuckets[t][bkt := st.latbuckets[t][bkt] + 1]],
        totlat := st.totlat[t := st.totlat[t] + lat],
        totbytes := st.totbytes[t := st.totbytes[t] + size])
  }

  lemma BumpSame(a: IoStats, b: IoStats, t: nat, lat: nat, size: nat)
    requires t < NTYPE && SameCounts(a, b)
    ensures SameCounts(Bump(a, t, lat, size), Bump(b, t, lat, size))
  {
  }

  lemma HistogramSnoc(lats: seq<nat>, x: nat)
    ensures Histogram(lats + [x]) == Histogram(lats)[BucketOf(x) := Histogram(lats)[BucketOf(x)] + 1]
  {
    assert (lats + [x])[..|lats|] == lats;
  }

  /** One completion more: either nothing that is counted changes, or one cell of each table. */
  lemma FinishTally(w: Window, evs: seq<Completion>, c: Completion)
    requires WellTimed(c)
    ensures !(Recorded(w, c, READ) || Recorded(w, c, WRITE)) ==>
      Tally(w, evs + [c]) == Tally(w, evs)
    ensures Recorded(w, c, READ) || Recorded(w, c, WRITE) ==>
      SameCounts(Tally(w, evs + [c]), Bump(Tally(w, evs), c.typ, Latency(c), c.size))
  {
    SelectSnoc(w, evs, c, READ);
    SelectSnoc(w, evs, c, WRITE);
    var t := c.typ;
    if Recorded(w, c, READ) || Recorded(w, c, WRITE) {
      HistogramSnoc(LatsOf(w, evs, t), Latency(c));
      SumSnoc(LatsOf(w, evs, t), Latency(c));
      SumSnoc(SizesOf(w, evs, t), c.size);
    }
    hide Histogram, Sum, BucketOf, LatsOf, SizesOf;
  }

  lemma SelectSnoc(w: Window, evs: seq<Completion>, c: Completion, t: nat)
    ensures LatsOf(w, evs + [c], t) == if Recorded(w, c, t) then LatsOf(w, evs, t) + [Latency(c)] else LatsOf(w, evs, t)
    ensures SizesOf(w, evs + [c], t) == if Recorded(w, c, t) then SizesOf(w, evs, t) + [c.size] else SizesOf(w, evs, t)
  {
    assert (evs + [c])[..|evs|] == evs;
  }

  lemma SumSnoc(s: seq<nat>, x: nat)
    ensures Sum(s + [x]) == Sum(s) + x
  {
    assert (s + [x])[..|s|] == s;
  }

  class File {
    const ithreads: seq<IoThread>
    var cur: IoStats
    var use: IoStats
    var last: IoStats
    ghost var told: IoStats  // the sum of the differences that the status reports of the stage took

    constructor (ts: seq<IoThread>)
      ensures ithreads == ts && cur == use == last == told == ZERO
    {
      ithreads := ts;
      cur, use, last, told := ZERO, ZERO, ZERO, ZERO;
    }
  }

  // ---------------------------------------------------------------- which completions a report covers

  datatype Portion = Whole | Seen | Fresh

  ghost function Shown(status: bool): Portion {
    if status then Fresh else Whole
  }

  /** All completions of a thread, those the last status report covered, or those since. */
  ghost function Part(t: IoThread, k: Portion): seq<Completion>
    reads t`reported, t`recent
  {
    match k
    case Whole => t.reported + t.recent
    case Seen => t.reported
    case Fresh => t.recent
  }

  ghost function Gather(ts: seq<IoThread>, k: Portion): seq<Completion>
    reads (set t | t in ts)`reported, (set t | t in ts)`recent
  {
    if ts == [] then [] else Gather(ts[..|ts| - 1], k) + Part(ts[|ts| - 1], k)
  }

  /** The statistics of all completions are those already reported plus the fresh ones. */
  lemma {:induction false} SeenPlusFresh(w: Window, ts: seq<IoThread>)
    ensures Tally(w, Gather(ts, Whole)) == Add(Tally(w, Gather(ts, Seen)), Tally(w, Gather(ts, Fresh)))
  {
    if ts == [] {
      ZeroTally(w);
      AddZero(ZERO);
    } else {
      var ts', t := ts[..|ts| - 1], ts[|ts| - 1];
      SeenPlusFresh(w, ts');
      TallyConcat(w, Part(t, Seen), Part(t, Fresh));
      TallyConcat(w, Gather(ts', Whole), Part(t, Whole));
      TallyConcat(w, Gather(ts', Seen), Part(t, Seen));
      TallyConcat(w, Gather(ts', Fresh), Part(t, Fresh));
      AddSwap(Tally(w, Gather(ts', Seen)), Tally(w, Gather(ts', Fresh)),
              Tally(w, Part(t, Seen)), Tally(w, Part(t, Fresh)));
    }
  }

  lemma AddSwap(a: IoStats, b: IoStats, c: IoStats, d: IoStats)
    ensures Add(Add(a, b), Add(c, d)) == Add(Add(a, c), Add(b, d))
  {
    SwapSeq(a.latbuckets[READ], b.latbuckets[READ], c.latbuckets[READ], d.latbuckets[READ]);
    SwapSeq(a.latbuckets[WRITE], b.latbuckets[WRITE], c.latbuckets[WRITE], d.latbuckets[WRITE]);
    SwapSeq(a.totlat, b.totlat, c.totlat, d.totlat);
    SwapSeq(a.totbytes, b.totbytes, c.totbytes, d.totbytes);
  }

  lemma SwapSeq(a: seq<nat>, b: seq<nat>, c: seq<nat>, d: seq<nat>)
    requires |a| == |b| == |c| == |d|
    ensures AddSeq(AddSeq(a, b), AddSeq(c, d)) == AddSeq(AddSeq(a, c), AddSeq(b, d))
  {
  }

  lemma AddAssoc(a: IoStats, b: IoStats, c: IoStats)
    ensures Add(Add(a, b), c) == Add(a, Add(b, c))
  {
    AssocSeq(a.latbuckets[READ], b.latbuckets[READ], c.latbuckets[READ]);
    AssocSeq(a.latbuckets[WRITE], b.latbuckets[WRITE], c.latbuckets[WRITE]);
    AssocSeq(a.totlat, b.totlat, c.totlat);
    AssocSeq(a.totbytes, b.totbytes, c.totbytes);
  }

  lemma AssocSeq(a: seq<nat>, b: seq<nat>, c: seq<nat>)
    requires |a| == |b| == |c|
    ensures AddSeq(AddSeq(a, b), c) == AddSeq(a, AddSeq(b, c))
  {
  }

  twostate lemma {:induction false} GatherMoved(ts: seq<IoThread>)
    requires forall t | t in ts :: t.reported == old(t.reported + t.recent)
    ensures Gather(ts, Seen) == old(Gather(ts, Whole))
  {
    if ts == [] {
    } else {
      GatherMoved(ts[..|ts| - 1]);
    }
  }

  twostate lemma {:induction false} GatherAllMoved(fs: seq<File>)
    requires forall f, t | f in fs && t in f.ithreads :: t.reported == old(t.reported + t.recent)
    ensures GatherAll(fs, Seen) == old(GatherAll(fs, Whole))
  {
    if fs == [] {
    } else {
      GatherAllMoved(fs[..|fs| - 1]);
      GatherMoved(fs[|fs| - 1].ithreads);
    }
  }

  /** What was reported does not depend on what is completed since. */
  twostate lemma {:induction false} SeenStays(ts: seq<IoThread>)
    requires forall t | t in ts :: t.reported == old(t.reported)
    ensures Gather(ts, Seen) == old(Gather(ts, Seen))
  {
    if ts == [] {
    } else {
      SeenStays(ts[..|ts| - 1]);
    }
  }

  twostate lemma {:induction false} SeenAllStays(fs: seq<File>)
    requires forall f, t | f in fs && t in f.ithreads :: t.reported == old(t.reported)
    ensures GatherAll(fs, Seen) == old(GatherAll(fs, Seen))
  {
    if fs == [] {
    } else {
      SeenAllStays(fs[..|fs| - 1]);
      SeenStays(fs[|fs| - 1].ithreads);
    }
  }

  /** The completions of all threads of all files. */
  ghost function GatherAll(fs: seq<File>, k: Portion): seq<Completion>
    reads (set f, t | f in fs && t in f.ithreads :: t)`reported
    reads (set f, t | f in fs && t in f.ithreads :: t)`recent
  {
    if fs == [] then [] else GatherAll(fs[..|fs| - 1], k) + Gather(fs[|fs| - 1].ithreads, k)
  }

  lemma {:induction false} SeenPlusFreshAll(w: Window, fs: seq<File>)
    ensures Tally(w, GatherAll(fs, Whole)) == Add(Tally(w, GatherAll(fs, Seen)), Tally(w, GatherAll(fs, Fresh)))
  {
    if fs == [] {
      ZeroTally(w);
      AddZero(ZERO);
    } else {
      var fs', ts := fs[..|fs| - 1], fs[|fs| - 1].ithreads;
      SeenPlusFreshAll(w, fs');
      SeenPlusFresh(w, ts);
      TallyConcat(w, GatherAll(fs', Whole), Gather(ts, Whole));
      TallyConcat(w, GatherAll(fs', Seen), Gather(ts, Seen));
      TallyConcat(w, GatherAll(fs', Fresh), Gather(ts, Fresh));
      AddSwap(Tally(w, GatherAll(fs', Seen)), Tally(w, GatherAll(fs', Fresh)),
              Tally(w, Gather(ts, Seen)), Tally(w, Gather(ts, Fresh)));
    }
  }

  lemma AddAtMost(a: IoStats, b: IoStats)
    ensures AtMost(a, Add(a, b))
  {
  }

  /** A zero count is printed as one, so that it can divide. */
  function NoZero(st: IoStats): IoStats {
    st.(totreads := if st.totreads == 0 then 1 else st.totreads,
        totwrites := if st.totwrites == 0 then 1 else st.totwrites)
  }

  function TotalOf(st: IoStats, t: nat): nat {
    if t == READ then st.totreads else st.totwrites
  }

  lemma {:induction false} NothingGathered(ts: seq<IoThread>, k: Portion)
    requires forall t | t in ts :: t.reported == t.recent == []
    ensures Gather(ts, k) == []
  {
    if ts == [] {
    } else {
      NothingGathered(ts[..|ts| - 1], k);
    }
  }

  ghost predicate NothingYet(fs: seq<File>)
    reads set f, t | f in fs && t in f.ithreads :: t
  {
    forall f, t | f in fs && t in f.ithreads :: t.reported == t.recent == []
  }

  lemma {:induction false} NothingDone(fs: seq<File>, k: Portion)
    requires NothingYet(fs)
    ensures GatherAll(fs, k) == [] && forall f | f in fs :: Gather(f.ithreads, k) == []
  {
    if fs == [] {
    } else {
      NothingDone(fs[..|fs| - 1], k);
      NothingGathered(fs[|fs| - 1].ithreads, k);
    }
  }

  // ---------------------------------------------------------------- what the percentile table holds

  /** Latencies by type. */
  type Lats = ls: seq<seq<nat>> | |ls| == NTYPE witness [[], []]

  function BlockLats(w: Window, evs: seq<Completion>): Lats {
    [LatsOf(w, evs, READ), LatsOf(w, evs, WRITE)]
  }

  /** The table keeps the values of a type when a printed block has no operation of it. */
  function Keep(kept: Lats, lats: Lats): Lats {
    [if lats[READ] == [] then kept[READ] else lats[READ],
     if lats[WRITE] == [] then kept[WRITE] else lats[WRITE]]
  }

  function KeepAll(kept: Lats, blocks: seq<Lats>): Lats {
    if blocks == [] then kept else Keep(KeepAll(kept, blocks[..|blocks| - 1]), blocks[|blocks| - 1])
  }

  /** The value for percentile `j` of the latencies; the table starts with zeros. */
  function ValueOf(lats: seq<nat>, j: nat): nat
    requires j < NPERCENT
  {
    if lats == [] then 0 else Quantile(lats, PERCENTILE[j])
  }

  /** The percentile lines of a printed block, in microseconds. */
  function LinesOf(kept: Lats): seq<(int, int)> {
    seq(NPERCENT, j requires 0 <= j < NPERCENT =>
      (ValueOf(kept[READ], j) / 1000, ValueOf(kept[WRITE], j) / 1000))
  }

  /** The percentile lines of all blocks, printed one after the other. */
  function AllLines(kept: Lats, blocks: seq<Lats>): seq<seq<(int, int)>> {
    if blocks == [] then []
    else AllLines(kept, blocks[..|blocks| - 1]) + [LinesOf(KeepAll(kept, blocks))]
  }

  ghost predicate Holds(pctval: array2<int>, kept: Lats)
    requires pctval.Length0 == NPERCENT && pctval.Length1 == NTYPE
    reads pctval
  {
    forall j, t | 0 <= j < NPERCENT && 0 <= t < NTYPE :: pctval[j, t] == ValueOf(kept[t], j)
  }

  /** What the scan leaves for a block, in terms of its latencies. */
  lemma PrintedValue(w: Window, evs: seq<Completion>, t: nat, p: real, before: int, after: int)
    requires t < NTYPE && 0.0 <= p < 1.0
    requires var use := NoZero(Tally(w, evs));
      Scanned(use.latbuckets[t], Threshold(TotalOf(use, t), p), before, after)
    ensures after == if LatsOf(w, evs, t) == [] then before else Quantile(LatsOf(w, evs, t), p)
  {
    var lats := LatsOf(w, evs, t);
    TallyHistogram(w, evs, t);
    assert NoZero(Tally(w, evs)).latbuckets[t] == Histogram(lats);
    assert TotalOf(NoZero(Tally(w, evs)), t) == if lats == [] then 1 else |lats|;
    hide LatsOf, Tally, Scanned, Threshold, Histogram, NoZero;
    ScannedEdge(Histogram(lats), Threshold(if lats == [] then 1 else |lats|, p), before, after);
  }

  lemma {:induction false} KeepAllSilent(kept: Lats, blocks: seq<Lats>, t: nat)
    requires t < NTYPE && forall i | 0 <= i < |blocks| :: blocks[i][t] == []
    ensures KeepAll(kept, blocks)[t] == kept[t]
  {
    if blocks == [] {
    } else {
      KeepAllSilent(kept, blocks[..|blocks| - 1], t);
    }
  }

  /** The blocks a report prints: the system's, and with `verbose` those of the files. */
  function Blocks(w: Window, verbose: bool, sys: seq<Completion>, files: seq<seq<Completion>>): seq<Lats> {
    [BlockLats(w, sys)] + if verbose then FileBlocks(w, files) else []
  }

  function FileBlocks(w: Window, files: seq<seq<Completion>>): (bs: seq<Lats>)
    ensures |bs| == |files| && forall i | 0 <= i < |files| :: bs[i] == BlockLats(w, files[i])
  {
    seq(|files|, i requires 0 <= i < |files| => BlockLats(w, files[i]))
  }

  /** The completions of each file. */
  ghost function FileLogs(fs: seq<File>, k: Portion): (logs: seq<seq<Completion>>)
    reads (set f, t | f in fs && t in f.ithreads :: t)`reported
    reads (set f, t | f in fs && t in f.ithreads :: t)`recent
    ensures |logs| == |fs| && forall i | 0 <= i < |fs| :: logs[i] == Gather(fs[i].ithreads, k)
  {
    if fs == [] then [] else FileLogs(fs[..|fs| - 1], k) + [Gather(fs[|fs| - 1].ithreads, k)]
  }

  /** Without an operation of a type in all there is none in any file. */
  lemma {:induction false} SilentFiles(w: Window, fs: seq<File>, k: Portion, t: nat)
    requires LatsOf(w, GatherAll(fs, k), t) == []
    ensures forall f | f in fs :: LatsOf(w, Gather(f.ithreads, k), t) == []
  {
    if fs == [] {
    } else {
      var fs', ts := fs[..|fs| - 1], fs[|fs| - 1].ithreads;
      LatsConcat(w, GatherAll(fs', k), Gather(ts, k), t);
      SilentFiles(w, fs', k, t);
    }
  }

  /** Without an operation of a type in the stage there is none in what was reported, or is fresh. */
  lemma SilentParts(w: Window, fs: seq<File>, k: Portion, t: nat)
    requires t < NTYPE && LatsOf(w, GatherAll(fs, Whole), t) == []
    ensures LatsOf(w, GatherAll(fs, k), t) == []
  {
    SeenPlusFreshAll(w, fs);
    CountIsLength(w, GatherAll(fs, Whole), t);
    CountIsLength(w, GatherAll(fs, Seen), t);
    CountIsLength(w, GatherAll(fs, Fresh), t);
    hide Tally, LatsOf, GatherAll;
  }

  lemma CountIsLength(w: Window, evs: seq<Completion>, t: nat)
    requires t < NTYPE
    ensures TotalOf(Tally(w, evs), t) == |LatsOf(w, evs, t)|
  {
  }

  /** The block a report prints: the difference to the last status report, or the whole. */
  method UseOf(cur: IoStats, last: IoStats, ghost added: IoStats, status: bool) returns (use: IoStats)
    requires cur == Add(last, added)
    ensures use == if status then added else cur
  {
    if status {
      AddAtMost(last, added);
      use := StatsDiff(cur, last);
      AddCancels(last, use, added);
    } else {
      use := cur;
    }
  }

  lemma SameZero(w: Window, evs: seq<Completion>)
    requires evs == []
    ensures SameCounts(ZERO, Tally(w, evs))
  {
    ZeroTally(w);
  }

  /** What happens in a stage: an I/O of a file's thread completes, or a status report is made. */
  datatype Event = Completes(file: nat, thread: nat, c: Completion) | Status

  function SumStats(ds: seq<IoStats>): IoStats {
    if ds == [] then ZERO else Add(SumStats(ds[..|ds| - 1]), ds[|ds| - 1])
  }

  lemma NoDifferences()
    ensures SumStats([]) == ZERO
  {
  }

  lemma SumStatsSnoc(ds: seq<IoStats>, d: IoStats)
    ensures SumStats(ds + [d]) == Add(SumStats(ds), d)
  {
    assert (ds + [d])[..|ds|] == ds;
    hide Add;
  }

  function Tallies(w: Window, logs: seq<seq<Completion>>): (ts: seq<IoStats>)
    ensures |ts| == |logs| && forall k | 0 <= k < |logs| :: ts[k] == Tally(w, logs[k])
  {
    seq(|logs|, k requires 0 <= k < |logs| => Tally(w, logs[k]))
  }

  /** Printing one block and then the others is printing them all. */
  lemma {:induction false} FirstBlock(kept: Lats, lats: Lats, blocks: seq<Lats>)
    ensures KeepAll(kept, [lats] + blocks) == KeepAll(Keep(kept, lats), blocks)
    ensures AllLines(kept, [lats] + blocks) == [LinesOf(Keep(kept, lats))] + AllLines(Keep(kept, lats), blocks)
    decreases |blocks|
  {
    hide LinesOf, Keep;
    var all := [lats] + blocks;
    if blocks == [] {
      assert all[..0] == [] && all == [lats];
    } else {
      assert all[..|all| - 1] == [lats] + blocks[..|blocks| - 1];
      FirstBlock(kept, lats, blocks[..|blocks| - 1]);
    }
  }

  lemma NextBlock(kept: Lats, blocks: seq<Lats>, k: nat)
    requires k < |blocks|
    ensures KeepAll(kept, blocks[..k + 1]) == Keep(KeepAll(kept, blocks[..k]), blocks[k])
    ensures AllLines(kept, blocks[..k + 1])
         == AllLines(kept, blocks[..k]) + [LinesOf(Keep(KeepAll(kept, blocks[..k]), blocks[k]))]
  {
    assert blocks[..k + 1][..k] == blocks[..k];
    hide LinesOf, Keep;
  }

  /** In a stage without an operation of type `t`, what was reported and what a report shows has none. */
  lemma SilentStage(w: Window, fs: seq<File>, k: Portion, t: nat)
    requires t < NTYPE && LatsOf(w, GatherAll(fs, Whole), t) == []
    ensures LatsOf(w, GatherAll(fs, Seen), t) == [] && LatsOf(w, GatherAll(fs, k), t) == []
    ensures forall i | 0 <= i < |fs| :: LatsOf(w, FileLogs(fs, k)[i], t) == []
  {
    SilentParts(w, fs, Seen, t);
    SilentParts(w, fs, k, t);
    SilentFiles(w, fs, k, t);
    hide LatsOf, GatherAll;
  }

  /** A type is still what the stage began with after a report of a stage without operations of it. */
  lemma StillCarried(w: Window, fs: seq<File>, k: Portion, verbose: bool, kept: Lats, carried: Lats)
    requires forall t | 0 <= t < NTYPE && LatsOf(w, GatherAll(fs, Seen), t) == [] :: kept[t] == carried[t]
    ensures forall t | 0 <= t < NTYPE && LatsOf(w, GatherAll(fs, Whole), t) == [] ::
      KeepAll(kept, Blocks(w, verbose, GatherAll(fs, k), FileLogs(fs, k)))[t] == carried[t]
    ensures forall t | 0 <= t < NTYPE && LatsOf(w, GatherAll(fs, Whole), t) == [] :: kept[t] == carried[t]
  {
    hide LatsOf, GatherAll, KeepAll;
    forall t | 0 <= t < NTYPE && LatsOf(w, GatherAll(fs, Whole), t) == []
      ensures KeepAll(kept, Blocks(w, verbose, GatherAll(fs, k), FileLogs(fs, k)))[t] == kept[t] == carried[t]
    {
      SilentStage(w, fs, k, t);
      KeepAllSilent(kept, Blocks(w, verbose, GatherAll(fs, k), FileLogs(fs, k)), t);
    }
  }

  // ---------------------------------------------------------------- what a printed line says

  /** `s` is the latencies of type `t` in ascending order. */
  ghost predicate SortedLats(w: Window, evs: seq<Completion>, t: nat, s: seq<nat>) {
    Sorted(s) && multiset(s) == multiset(LatsOf(w, evs, t))
  }

  /** The tails that the five lines cut off: the 50, 90, 99, 99.9 and 99.99 percent lines. */
  function Cut(j: nat): (p: real)
    requires j < 5
    ensures 0.0 <= p < 1.0
  {
    [0.5, 0.1, 0.01, 0.001, 0.0001][j]
  }

  /**
   `v` is what line `j` may say about type `t`, in microseconds: the upper edge of the bucket,
   of ten each, of the matching order statistic; or what was `held`, without an operation.
   */
  ghost predicate IsPercentile(w: Window, evs: seq<Completion>, t: nat, j: nat, held: seq<nat>, v: int)
    requires j < NPERCENT
  {
    && (LatsOf(w, evs, t) == [] ==> v == ValueOf(held, j) / 1000)
    && forall s | SortedLats(w, evs, t, s) && s != [] && (forall i | 0 <= i < |s| :: Measurable(s[i])) ::
         v == 10 * (1 + Smaller(s[Threshold(|s|, Cut(j)) - 1] / 10000, 99999))
  }

  /** The five lines of a block with the completions `evs`: reads in the first column, writes in the second. */
  ghost predicate BlockRight(w: Window, held: Lats, evs: seq<Completion>, lines: seq<(int, int)>) {
    && |lines| == NPERCENT
    && (forall j | 0 <= j < NPERCENT :: IsPercentile(w, evs, READ, j, held[READ], lines[j].0))
    && (forall j | 0 <= j < NPERCENT :: IsPercentile(w, evs, WRITE, j, held[WRITE], lines[j].1))
  }

  /** What the table holds when the block of file `f` is printed. */
  function HeldBefore(w: Window, held: Lats, sys: seq<Completion>, files: seq<seq<Completion>>, f: nat): Lats
    requires f <= |files|
  {
    KeepAll(held, Blocks(w, true, sys, files[..f]))
  }

  /** The system's block comes first, and with `verbose` those of the files in order. */
  ghost predicate LinesRight(
      w: Window, held: Lats, verbose: bool, sys: seq<Completion>, files: seq<seq<Completion>>,
      printed: seq<seq<(int, int)>>)
  {
    && |printed| == 1 + (if verbose then |files| else 0)
    && BlockRight(w, held, sys, printed[0])
    && (verbose ==> forall f | 0 <= f < |files| ::
          BlockRight(w, HeldBefore(w, held, sys, files, f), files[f], printed[1 + f]))
  }

  /** The value for percentile `j` in terms of sorted raw latencies. */
  lemma ValueIsOrderStatistic(lats: seq<nat>, j: nat, s: seq<nat>)
    requires j < NPERCENT && s != [] && Sorted(s) && multiset(s) == multiset(lats)
    requires forall i | 0 <= i < |s| :: Measurable(s[i])
    ensures ValueOf(lats, j) == 10000 * (1 + Smaller(s[Threshold(|s|, Cut(j)) - 1] / 10000, 99999))
  {
    assert |s| == |multiset(s)| == |multiset(lats)| == |lats|;
    assert PERCENTILE[j] == Cut(j);
    QuantileIsOrderStatistic(lats, Cut(j), s);
    BucketRightIff(s[Threshold(|s|, Cut(j)) - 1]);
    hide Quantile, BucketOf, Threshold, U32;
  }

  lemma InMicroseconds(b: nat)
    ensures 10000 * (1 + b) / 1000 == 10 * (1 + b)
  {
  }

  lemma SortedDecides(w: Window, evs: seq<Completion>, t: nat, j: nat, s: seq<nat>)
    requires j < NPERCENT && SortedLats(w, evs, t, s) && s != [] && forall i | 0 <= i < |s| :: Measurable(s[i])
    ensures LatsOf(w, evs, t) != []
    ensures ValueOf(LatsOf(w, evs, t), j) / 1000 == 10 * (1 + Smaller(s[Threshold(|s|, Cut(j)) - 1] / 10000, 99999))
  {
    hide LatsOf, ValueOf, Threshold, Cut, Smaller, Measurable;
    var lats := LatsOf(w, evs, t);
    assert |s| == |multiset(s)| == |multiset(lats)| == |lats|;
    ValueIsOrderStatistic(lats, j, s);
    InMicroseconds(Smaller(s[Threshold(|s|, Cut(j)) - 1] / 10000, 99999));
  }

  lemma KeptOfType(w: Window, evs: seq<Completion>, t: nat, held: Lats)
    requires t < NTYPE
    ensures Keep(held, BlockLats(w, evs))[t] == if LatsOf(w, evs, t) == [] then held[t] else LatsOf(w, evs, t)
  {
    hide LatsOf;
  }

  lemma LineIsPercentile(w: Window, evs: seq<Completion>, t: nat, j: nat, held: Lats)
    requires t < NTYPE && j < NPERCENT
    ensures IsPercentile(w, evs, t, j, held[t], ValueOf(Keep(held, BlockLats(w, evs))[t], j) / 1000)
  {
    hide LatsOf, ValueOf, Keep, BlockLats, Threshold, Cut, Smaller, Measurable, SortedLats;
    var lats := LatsOf(w, evs, t);
    KeptOfType(w, evs, t, held);
    forall s | SortedLats(w, evs, t, s) && s != [] && (forall i | 0 <= i < |s| :: Measurable(s[i]))
      ensures lats != []
      ensures ValueOf(lats, j) / 1000 == 10 * (1 + Smaller(s[Threshold(|s|, Cut(j)) - 1] / 10000, 99999))
    {
      SortedDecides(w, evs, t, j, s);
    }
  }

  lemma BlockIsRight(w: Window, held: Lats, evs: seq<Completion>)
    ensures BlockRight(w, held, evs, LinesOf(Keep(held, BlockLats(w, evs))))
  {
    forall j: nat, t: nat | j < NPERCENT && t < NTYPE
      ensures IsPercentile(w, evs, t, j, held[t], ValueOf(Keep(held, BlockLats(w, evs))[t], j) / 1000)
    {
      LineIsPercentile(w, evs, t, j, held);
    }
    hide IsPercentile, ValueOf, Keep, BlockLats;
  }

  /** Block number `k` is printed as if it came alone, from what the table then holds. */
  lemma {:induction false} LinesAt(held: Lats, blocks: seq<Lats>, k: nat)
    requires k < |blocks|
    ensures |AllLines(held, blocks)| == |blocks|
    ensures AllLines(held, blocks)[k] == LinesOf(Keep(KeepAll(held, blocks[..k]), blocks[k]))
    decreases |blocks|
  {
    hide LinesOf, Keep;
    var init := blocks[..|blocks| - 1];
    if k == |blocks| - 1 {
      if init != [] { LinesAt(held, init, 0); }
    } else {
      LinesAt(held, init, k);
      assert init[..k] == blocks[..k];
    }
  }

  lemma FileIsRight(w: Window, held: Lats, sys: seq<Completion>, files: seq<seq<Completion>>, f: nat)
    requires f < |files|
    ensures |AllLines(held, Blocks(w, true, sys, files))| == 1 + |files|
    ensures BlockRight(w, HeldBefore(w, held, sys, files, f), files[f], AllLines(held, Blocks(w, true, sys, files))[1 + f])
  {
    hide BlockRight, LinesOf, Keep, BlockLats, AllLines, KeepAll;
    var blocks := Blocks(w, true, sys, files);
    LinesAt(held, blocks, 1 + f);
    assert blocks[..1 + f] == Blocks(w, true, sys, files[..f]);
    BlockIsRight(w, HeldBefore(w, held, sys, files, f), files[f]);
  }

  /** Every line that a report prints is right. */
  lemma AllLinesRight(w: Window, held: Lats, verbose: bool, sys: seq<Completion>, files: seq<seq<Completion>>)
    ensures LinesRight(w, held, verbose, sys, files, AllLines(held, Blocks(w, verbose, sys, files)))
  {
    hide BlockRight, LinesOf, Keep, BlockLats, AllLines, KeepAll;
    var blocks := Blocks(w, verbose, sys, files);
    LinesAt(held, blocks, 0);
    BlockIsRight(w, held, sys);
    assert blocks[..0] == [] && blocks[0] == BlockLats(w, sys);
    NothingPrinted(held);
    if verbose {
      forall f: nat | f < |files|
        ensures BlockRight(w, HeldBefore(w, held, sys, files, f), files[f], AllLines(held, blocks)[1 + f])
      {
        FileIsRight(w, held, sys, files, f);
      }
    }
    hide HeldBefore;
  }

  lemma NothingPrinted(held: Lats)
    ensures KeepAll(held, []) == held
  {
  }

  class Report {
    const flist: seq<File>
    const systot: File
    ghost const threads: set<IoThread>  // the threads of all files
    const pct: array2<nat>
    const pctval: array2<int>
    const verbose: bool
    const maxlatency: nat
    var window: Window
    var latencyFlag: nat
    var readlat: int
    var writelat: int
    ghost var kept: Lats     // the latencies whose percentiles the table holds
    ghost var carried: Lats  // those it held when the stage began

    /** The structure of the lists and arrays, which never changes. */
    ghost predicate WellBuilt() {
      && (pct as object) != pctval
      && pct.Length0 == pctval.Length0 == NPERCENT && pct.Length1 == pctval.Length1 == NTYPE
      && systot !in flist
      && (forall f, t | f in flist && t in f.ithreads :: t in threads)
      && (forall i, j | 0 <= i < j < |flist| :: flist[i] != flist[j])
    }

    ghost predicate Listed() {
      forall t | t in threads :: exists f :: f in flist && t in f.ithreads
    }

    /** What the last status report left behind is the statistics of what it covered. */
    ghost predicate LastCovers()
      requires WellBuilt()
      reads `window, flist`last, systot`last
      reads threads`reported, threads`recent
    {
      && systot.last == Tally(window, GatherAll(flist, Seen))
      && forall f | f in flist :: f.last == Tally(window, Gather(f.ithreads, Seen))
    }

    /** The sums over the threads are those of their logs. */
    ghost predicate Summed()
      requires WellBuilt()
      reads `window, flist`cur, systot`cur
      reads threads`reported, threads`recent
    {
      && systot.cur == Tally(window, GatherAll(flist, Whole))
      && forall f | f in flist :: f.cur == Tally(window, Gather(f.ithreads, Whole))
    }

    /** The blocks to be shown are those of the completions that the report covers. */
    ghost predicate Chosen(status: bool)
      requires WellBuilt()
      reads `window, flist`use, systot`use
      reads threads`reported, threads`recent
    {
      && systot.use == Tally(window, GatherAll(flist, Shown(status)))
      && forall f | f in flist :: f.use == Tally(window, Gather(f.ithreads, Shown(status)))
    }

    /** The same after printing, which takes a zero count as one in the blocks it prints. */
    ghost predicate Printed(status: bool)
      requires WellBuilt()
      reads `window, flist`use, systot`use
      reads threads`reported, threads`recent
    {
      && systot.use == NoZero(Tally(window, GatherAll(flist, Shown(status))))
      && forall f | f in flist ::
           var use := Tally(window, Gather(f.ithreads, Shown(status)));
           f.use == if verbose then NoZero(use) else use
    }

    /** The blocks that the report prints. */
    ghost function Shows(status: bool): seq<Lats>
      requires WellBuilt()
      reads `window, threads`reported, threads`recent
    {
      Blocks(window, verbose, GatherAll(flist, Shown(status)), FileLogs(flist, Shown(status)))
    }

    /** What was told so far is the current sums, after a status report; a summary begins again. */
    ghost predicate ToldIs(status: bool)
      reads flist`cur, systot`cur, flist`told, systot`told
    {
      && systot.told == (if status then systot.cur else ZERO)
      && forall f | f in flist :: f.told == if status then f.cur else ZERO
    }

    /** The blocks shown by a report, after printing, are of the completions it covered. */
    twostate predicate Showed(status: bool)
      reads `window, flist`use, systot`use
    {
      && systot.use == NoZero(Tally(window, old(GatherAll(flist, Shown(status)))))
      && forall f | f in flist ::
           var use := Tally(window, old(Gather(f.ithreads, Shown(status))));
           f.use == if verbose then NoZero(use) else use
    }

    /** A status report tells, in addition, of what is fresh. */
    twostate predicate TellsFresh()
      reads `window, flist`told, systot`told
    {
      && systot.told == Add(old(systot.told), Tally(window, old(GatherAll(flist, Fresh))))
      && forall f | f in flist :: f.told == Add(old(f.told), Tally(window, old(Gather(f.ithreads, Fresh))))
    }

    /** The differences of the status reports so far sum to the last snapshot. */
    ghost predicate ToldAll()
      reads flist`last, systot`last, flist`told, systot`told
    {
      systot.told == systot.last && forall f | f in flist :: f.told == f.last
    }

    /** The summary line repeats the second line of the system's block. */
    predicate Summary(printed: seq<seq<(int, int)>>)
      reads `readlat, `writelat
    {
      printed != [] && |printed[0]| == NPERCENT && readlat == printed[0][1].0 && writelat == printed[0][1].1
    }

    /** Over the latency limit, at the percentile that decides. */
    predicate Over(lats: seq<nat>) {
      ValueOf(lats, 1) > maxlatency
    }

    predicate HaltsOn(held: Lats) {
      Over(held[READ]) || Over(held[WRITE])
    }

    /**
     The table holds the percentiles of `kept`, which for a type without an operation in the
     stage are those the stage began with; they are under the limit if only the system is printed.
     */
    ghost predicate TableOk()
      requires WellBuilt()
      reads `window, `kept, `carried, pctval
      reads threads`reported, threads`recent
    {
      && Holds(pctval, kept)
      && (forall t | 0 <= t < NTYPE && LatsOf(window, GatherAll(flist, Seen), t) == [] :: kept[t] == carried[t])
      && (!verbose ==> !HaltsOn(carried))
    }

    ghost predicate Valid()
      reads `window, `kept, `carried, flist`last, systot`last, flist`told, systot`told, threads, pctval
    {
      WellBuilt() && Listed() && ThreadsValid() && LastCovers() && ToldAll() && TableOk()
    }

    ghost predicate ThreadsValid()
      reads `window, threads
    {
      forall t | t in threads :: t.Valid(window)
    }

    /** Everything starts at zero, as after the allocation of the lists. */
    constructor (files: seq<File>, systot: File, pct: array2<nat>, pctval: array2<int>, w: Window, verbose: bool, maxlatency: nat)
      requires (pct as object) != pctval
      requires pct.Length0 == pctval.Length0 == NPERCENT && pct.Length1 == pctval.Length1 == NTYPE
      requires forall i, j | 0 <= i < j < |files| :: files[i] != files[j]
      requires systot !in files && forall f | f in files + [systot] :: f.cur == f.use == f.last == f.told == ZERO
      requires forall j, t | 0 <= j < NPERCENT && 0 <= t < NTYPE :: pctval[j, t] == 0
      requires NothingYet(files) && forall f, t | f in files && t in f.ithreads :: t.Valid(w)
      ensures Valid() && flist == files && window == w
      ensures this.verbose == verbose && this.maxlatency == maxlatency
      ensures this.systot == systot && this.pct == pct && this.pctval == pctval && latencyFlag == 0
      ensures threads == (set f, t | f in files && t in f.ithreads :: t) && kept == carried == [[], []]
    {
      hide Tally;
      NothingDone(files, Seen);
      flist, window := files, w;
      threads := set f, t | f in files && t in f.ithreads :: t;
      this.verbose, this.maxlatency := verbose, maxlatency;
      this.systot := systot;
      this.pct, this.pctval := pct, pctval;
      latencyFlag, readlat, writelat := 0, 0, 0;
      kept, carried := [[], []], [[], []];
      new;
      hide Gather, GatherAll, Quantile, ValueOf, LatsOf;
      ZeroTally(w);
      AddZero(ZERO);
    }

    /** One thread's counters go into its file's and the system's. */
    method AddThread(itp: IoThread, ftp: File)
      requires itp.Valid(window) && ftp != systot
      modifies itp`cur, ftp`cur, systot`cur
      ensures itp.Valid(window)
      ensures ftp.cur == Add(old(ftp.cur), Tally(window, Part(itp, Whole)))
      ensures systot.cur == Add(old(systot.cur), Tally(window, Part(itp, Whole)))
    {
      var c := itp.cur;
      var rows, nreads, nwrites := AddBuckets(ftp.cur.latbuckets, c.latbuckets);
      var sysrows, _, _ := AddBuckets(systot.cur.latbuckets, c.latbuckets);
      TallyHistogram(window, Part(itp, Whole), READ);
      TallyHistogram(window, Part(itp, Whole), WRITE);
      itp.cur := itp.cur.(totreads := nreads, totwrites := nwrites);
      ftp.cur := Block(rows, ftp.cur.totreads + nreads, ftp.cur.totwrites + nwrites,
                         AddSeq(ftp.cur.totlat, c.totlat), AddSeq(ftp.cur.totbytes, c.totbytes));
      systot.cur := Block(sysrows, systot.cur.totreads + nreads, systot.cur.totwrites + nwrites,
                            AddSeq(systot.cur.totlat, c.totlat), AddSeq(systot.cur.totbytes, c.totbytes));
    }

    method SumFile(ftp: File)
      requires WellBuilt() && ftp in flist && ThreadsValid()
      modifies ftp`cur, systot`cur, threads`cur
      ensures ThreadsValid()
      ensures ftp.cur == Tally(window, Gather(ftp.ithreads, Whole))
      ensures systot.cur == Add(old(systot.cur), Tally(window, Gather(ftp.ithreads, Whole)))
    {
      hide Tally, Add, Recorded;
      ftp.cur := ZERO;
      ghost var sys := systot.cur;
      var i := 0;
      ZeroTally(window);
      AddZero(sys);
      AddZeroRight(sys);
      assert ftp.ithreads[..0] == [];
      while i < |ftp.ithreads|
        invariant 0 <= i <= |ftp.ithreads| && ThreadsValid()
        invariant ftp.cur == Tally(window, Gather(ftp.ithreads[..i], Whole))
        invariant systot.cur == Add(sys, Tally(window, Gather(ftp.ithreads[..i], Whole)))
      {
        var itp := ftp.ithreads[i];
        ghost var part := Gather(ftp.ithreads[..i], Whole);
        AddThread(itp, ftp);
        assert ftp.ithreads[..i + 1][..i] == ftp.ithreads[..i];
        TallyConcat(window, part, Part(itp, Whole));
        AddAssoc(sys, Tally(window, part), Tally(window, Part(itp, Whole)));
        i := i + 1;
      }
      assert ftp.ithreads[..i] == ftp.ithreads;
    }

    /** The thresholds and the scan of printbuckets. */
    method Scan(ftp: File)
      requires WellBuilt() && ftp.use.totreads > 0 && ftp.use.totwrites > 0
      modifies pct, pctval
      ensures forall j, t | 0 <= j < NPERCENT && 0 <= t < NTYPE ::
        Scanned(ftp.use.latbuckets[t], Threshold(TotalOf(ftp.use, t), PERCENTILE[j]),
                old(pctval[j, t]), pctval[j, t])
    {
      var i := 0;
      while i < NPERCENT
        invariant 0 <= i <= NPERCENT
        invariant forall j, t | 0 <= j < i && 0 <= t < NTYPE ::
          pct[j, t] == Threshold(TotalOf(ftp.use, t), PERCENTILE[j])
        modifies pct
      {
        pct[i, READ] := Threshold(ftp.use.totreads, PERCENTILE[i]);
        pct[i, WRITE] := Threshold(ftp.use.totwrites, PERCENTILE[i]);
        i := i + 1;
      }
      forall i, j, t | 0 <= i <= j < NPERCENT && 0 <= t < NTYPE ensures pct[i, t] <= pct[j, t] {
        ThresholdMonotone(TotalOf(ftp.use, t), PERCENTILE[i], PERCENTILE[j]);
      }
      ScanPercentiles(ftp.use.latbuckets, pct, pctval);
    }

    /**
     printbuckets of a block with the completions `evs`: its percentile lines, and for the
     system total the values that the summary line and the latency limit use.
     */
    method PrintBuckets(ftp: File, ghost evs: seq<Completion>) returns (lines: seq<(int, int)>)
      requires WellBuilt() && Holds(pctval, kept) && ftp.use == Tally(window, evs)
      modifies ftp`use, pct, pctval, this`latencyFlag, this`readlat, this`writelat, this`kept
      ensures ftp.use == NoZero(old(ftp.use))
      ensures kept == Keep(old(kept), BlockLats(window, evs)) && Holds(pctval, kept) && lines == LinesOf(kept)
      ensures |lines| == NPERCENT && (ftp == systot ==> readlat == lines[1].0 && writelat == lines[1].1)
      ensures if ftp == systot
        then && readlat == ValueOf(kept[READ], 1) / 1000 && writelat == ValueOf(kept[WRITE], 1) / 1000
             && latencyFlag == LimitFlag(kept, old(latencyFlag))
        else readlat == old(readlat) && writelat == old(writelat) && latencyFlag == old(latencyFlag)
    {
      hide Tally, Scanned, Threshold, LatsOf, Quantile;
      ftp.use := NoZero(ftp.use);
      Scan(ftp);
      forall j, t | 0 <= j < NPERCENT && 0 <= t < NTYPE
        ensures pctval[j, t] == ValueOf(Keep(kept, BlockLats(window, evs))[t], j)
      {
        PrintedValue(window, evs, t, PERCENTILE[j], old(pctval[j, t]), pctval[j, t]);
      }
      kept := Keep(kept, BlockLats(window, evs));
      lines := [];
      for i := 0 to NPERCENT
        invariant |lines| == i && forall j | 0 <= j < i :: lines[j] == LinesOf(kept)[j]
      {
        lines := lines + [(pctval[i, READ] / 1000, pctval[i, WRITE] / 1000)];
      }
      if ftp == systot {
        readlat := pctval[1, READ] / 1000;
        writelat := pctval[1, WRITE] / 1000;
        if pctval[1, READ] > maxlatency {
          latencyFlag := 1;
        } else if pctval[1, WRITE] > maxlatency {
          latencyFlag := 2;
        }
      }
    }

    method SumNext(k: nat)
      requires WellBuilt() && k < |flist| && ThreadsValid()
      requires systot.cur == Tally(window, GatherAll(flist[..k], Whole))
      modifies systot`cur, {flist[k]}`cur, threads`cur
      ensures ThreadsValid()
      ensures systot.cur == Tally(window, GatherAll(flist[..k + 1], Whole))
      ensures flist[k].cur == Tally(window, Gather(flist[k].ithreads, Whole))
    {
      hide Tally, Add, Gather;
      ghost var part := GatherAll(flist[..k], Whole);
      SumFile(flist[k]);
      assert flist[..k + 1][..k] == flist[..k];
      TallyConcat(window, part, Gather(flist[k].ithreads, Whole));
    }

    lemma NoFileYet()
      ensures Tally(window, GatherAll(flist[..0], Whole)) == ZERO
    {
      ZeroTally(window);
      assert GatherAll(flist[..0], Whole) == [];
    }

    /** The sums of all threads, per file and over all files. */
    method Aggregate()
      requires WellBuilt() && ThreadsValid()
      modifies systot`cur, flist`cur, threads`cur
      ensures ThreadsValid()
      ensures WellBuilt() && Summed()
    {
      hide Tally, Add, Gather, GatherAll, ThreadsValid;
      systot.cur := ZERO;
      NoFileYet();
      var k := 0;
      while k < |flist|
        invariant 0 <= k <= |flist| && ThreadsValid()
        invariant systot.cur == Tally(window, GatherAll(flist[..k], Whole))
        invariant forall j | 0 <= j < k :: flist[j].cur == Tally(window, Gather(flist[j].ithreads, Whole))
      {
        SumNext(k);
        k := k + 1;
      }
      assert flist[..k] == flist;
    }

    method TakeFileUse(ftp: File, status: bool)
      requires ftp.cur == Tally(window, Gather(ftp.ithreads, Whole))
      requires ftp.last == Tally(window, Gather(ftp.ithreads, Seen))
      modifies ftp`use
      ensures ftp.use == Tally(window, Gather(ftp.ithreads, Shown(status)))
    {
      hide Tally, Add, Gather;
      SeenPlusFresh(window, ftp.ithreads);
      ftp.use := UseOf(ftp.cur, ftp.last, Tally(window, Gather(ftp.ithreads, Fresh)), status);
    }

    /** A status report shows what was added since the last one, a summary everything. */
    method TakeUse(status: bool)
      requires WellBuilt() && LastCovers() && Summed()
      modifies systot`use, flist`use
      ensures Chosen(status)
    {
      hide Tally, Add, Gather, GatherAll;
      SeenPlusFreshAll(window, flist);
      systot.use := UseOf(systot.cur, systot.last, Tally(window, GatherAll(flist, Fresh)), status);
      var k := 0;
      while k < |flist|
        invariant 0 <= k <= |flist|
        invariant systot.use == Tally(window, GatherAll(flist, Shown(status)))
        invariant forall j | 0 <= j < k ::
          flist[j].use == Tally(window, Gather(flist[j].ithreads, Shown(status)))
      {
        TakeFileUse(flist[k], status);
        k := k + 1;
      }
    }

    /** The blocks of the files, one after the other through the same table. */
    method PrintFiles(ghost files: seq<seq<Completion>>) returns (printed: seq<seq<(int, int)>>)
      requires WellBuilt() && Holds(pctval, kept)
      requires |files| == |flist| && forall i | 0 <= i < |flist| :: flist[i].use == Tally(window, files[i])
      modifies flist`use, pct, pctval, this`latencyFlag, this`readlat, this`writelat, this`kept
      ensures forall f | f in flist :: f.use == NoZero(old(f.use))
      ensures latencyFlag == old(latencyFlag) && readlat == old(readlat) && writelat == old(writelat)
      ensures Holds(pctval, kept) && kept == KeepAll(old(kept), FileBlocks(window, files))
      ensures printed == AllLines(old(kept), FileBlocks(window, files))
    {
      hide Tally, Keep, LinesOf, NoZero, Holds, BlockLats, KeepAll, AllLines, FileBlocks;
      ghost var kept0, blocks := kept, FileBlocks(window, files);
      printed := [];
      StartOfBlocks(kept, blocks);
      var k := 0;
      while k < |flist|
        invariant 0 <= k <= |flist| && latencyFlag == old(latencyFlag)
        invariant readlat == old(readlat) && writelat == old(writelat)
        invariant forall j | 0 <= j < k :: flist[j].use == NoZero(old(flist[j].use))
        invariant forall j | k <= j < |flist| :: flist[j].use == old(flist[j].use)
        invariant Holds(pctval, kept) && kept == KeepAll(kept0, blocks[..k])
        invariant printed == AllLines(kept0, blocks[..k])
      {
        var lines := PrintBuckets(flist[k], files[k]);
        printed := printed + [lines];
        NextBlock(kept0, blocks, k);
        k := k + 1;
      }
      assert blocks[..|blocks|] == blocks;
    }

    lemma StartOfBlocks(k: Lats, blocks: seq<Lats>)
      ensures KeepAll(k, blocks[..0]) == k && AllLines(k, blocks[..0]) == []
    {
    }

    /** The printed part of a report: the system, and with `verbose` the files. */
    method PrintBlocks(status: bool, ghost sys: seq<Completion>, ghost files: seq<seq<Completion>>)
      returns (printed: seq<seq<(int, int)>>)
      requires WellBuilt() && Holds(pctval, kept) && systot.use == Tally(window, sys)
      requires |files| == |flist| && forall i | 0 <= i < |flist| :: flist[i].use == Tally(window, files[i])
      modifies systot`use, flist`use, pct, pctval, this`latencyFlag, this`readlat, this`writelat, this`kept
      ensures systot.use == NoZero(old(systot.use))
      ensures forall f | f in flist :: f.use == if verbose then NoZero(old(f.use)) else old(f.use)
      ensures Holds(pctval, kept) && kept == KeepAll(old(kept), Blocks(window, verbose, sys, files))
      ensures printed == AllLines(old(kept), Blocks(window, verbose, sys, files)) && Summary(printed)
      ensures !status ==> latencyFlag == LimitFlag(Keep(old(kept), BlockLats(window, sys)), 0)
    {
      hide Tally, Keep, LinesOf, NoZero, Holds, BlockLats, KeepAll, AllLines, FileBlocks, LimitFlag;
      if !status {
        latencyFlag := 0;
      }
      FirstBlock(kept, BlockLats(window, sys), if verbose then FileBlocks(window, files) else []);
      StartOfBlocks(Keep(kept, BlockLats(window, sys)), []);
      var lines := PrintBuckets(systot, sys);
      printed := [];
      if verbose {
        printed := PrintFiles(files);
      }
      printed := [lines] + printed;
    }

    method PrintAll(status: bool) returns (printed: seq<seq<(int, int)>>)
      requires WellBuilt() && Holds(pctval, kept) && Chosen(status)
      modifies systot`use, flist`use, pct, pctval, this`latencyFlag, this`readlat, this`writelat, this`kept
      ensures Printed(status) && Holds(pctval, kept)
      ensures kept == KeepAll(old(kept), Shows(status)) && printed == AllLines(old(kept), Shows(status))
      ensures Summary(printed)
      ensures !status ==> latencyFlag == LimitFlag(Keep(old(kept), BlockLats(window, GatherAll(flist, Whole))), 0)
    {
      hide Tally, Gather, GatherAll, FileLogs, NoZero, Holds, Keep, BlockLats, KeepAll, AllLines, Blocks, LimitFlag;
      printed := PrintBlocks(status, GatherAll(flist, Shown(status)), FileLogs(flist, Shown(status)));
    }

    /** Everything is what was reported and what is fresh, for the system and for every file. */
    lemma PartsAddUp()
      ensures Tally(window, GatherAll(flist, Whole))
           == Add(Tally(window, GatherAll(flist, Seen)), Tally(window, GatherAll(flist, Fresh)))
      ensures forall f | f in flist ::
        Tally(window, Gather(f.ithreads, Whole))
        == Add(Tally(window, Gather(f.ithreads, Seen)), Tally(window, Gather(f.ithreads, Fresh)))
    {
      hide Tally, Add, Gather, GatherAll;
      SeenPlusFreshAll(window, flist);
      forall f | f in flist
        ensures Tally(window, Gather(f.ithreads, Whole))
             == Add(Tally(window, Gather(f.ithreads, Seen)), Tally(window, Gather(f.ithreads, Fresh)))
      {
        SeenPlusFresh(window, f.ithreads);
      }
    }

    /** Of a status report the differences are added up; a summary begins again. */
    ghost method Tell(status: bool)
      requires WellBuilt() && Summed() && Chosen(status) && LastCovers() && ToldAll()
      modifies systot`told, flist`told
      ensures ToldIs(status) && (status ==> TellsFresh())
    {
      hide Tally, Add, Gather, GatherAll;
      PartsAddUp();
      assert forall f | f in flist :: f.told == f.last;
      forall f | f in flist { f.told := if status then Add(f.told, f.use) else ZERO; }
      systot.told := if status then Add(systot.told, systot.use) else ZERO;
    }

    /** After a status report the snapshots move up. */
    method CopyLast()
      requires WellBuilt()
      modifies systot`last, flist`last
      ensures systot.last == systot.cur && forall f | f in flist :: f.last == f.cur
    {
      systot.last := systot.cur;
      var k := 0;
      while k < |flist|
        invariant 0 <= k <= |flist|
        invariant forall j | 0 <= j < k :: flist[j].last == flist[j].cur
        invariant systot.last == systot.cur
      {
        flist[k].last := flist[k].cur;
        k := k + 1;
      }
    }

    /** What was recent has now been reported. */
    ghost method MoveLogs()
      requires WellBuilt() && ThreadsValid()
      modifies threads`reported, threads`recent
      ensures ThreadsValid()
      ensures forall t | t in threads :: t.reported == old(t.reported + t.recent) && t.recent == []
      ensures GatherAll(flist, Seen) == old(GatherAll(flist, Whole))
      ensures forall f | f in flist :: Gather(f.ithreads, Seen) == old(Gather(f.ithreads, Whole))
    {
      hide Tally, SameCounts;
      forall t | t in threads { t.reported := t.reported + t.recent; }
      forall t | t in threads { t.recent := []; }
      forall t | t in threads ensures t.Valid(window) {
        assert old(t.Valid(window));
        assert t.reported + t.recent == old(t.reported + t.recent);
      }
      GatherAllMoved(flist);
      forall f | f in flist ensures Gather(f.ithreads, Seen) == old(Gather(f.ithreads, Whole)) {
        GatherMoved(f.ithreads);
      }
    }

    /** After a summary the counters and the snapshots are cleared. */
    method ClearCounters()
      requires WellBuilt() && Listed()
      modifies systot`last, flist`last, threads`cur
      ensures systot.last == ZERO
      ensures (forall f | f in flist :: f.last == ZERO) && (forall t | t in threads :: t.cur == ZERO)
    {
      systot.last := ZERO;
      var k := 0;
      while k < |flist|
        invariant 0 <= k <= |flist| && systot.last == ZERO
        invariant forall j | 0 <= j < k :: flist[j].last == ZERO
        invariant forall j, t | 0 <= j < k && t in flist[j].ithreads :: t.cur == ZERO
      {
        var ftp := flist[k];
        ftp.last := ZERO;
        var i := 0;
        while i < |ftp.ithreads|
          invariant 0 <= i <= |ftp.ithreads|
          invariant forall j, t | 0 <= j < k && t in flist[j].ithreads :: t.cur == ZERO
          invariant forall j | 0 <= j < i :: ftp.ithreads[j].cur == ZERO
          modifies threads`cur
        {
          ftp.ithreads[i].cur := ZERO;
          i := i + 1;
        }
        k := k + 1;
      }
    }

    ghost method DropLogs()
      requires WellBuilt() && forall t | t in threads :: t.cur == ZERO
      modifies threads`reported, threads`recent
      ensures ThreadsValid() && forall t | t in threads :: t.reported == t.recent == []
      ensures GatherAll(flist, Seen) == [] && forall f | f in flist :: Gather(f.ithreads, Seen) == []
    {
      hide Tally, SameCounts, Gather, GatherAll;
      forall t | t in threads { t.reported := []; }
      forall t | t in threads { t.recent := []; }
      FreshThreads();
      hide ThreadsValid;
      NothingDone(flist, Seen);
    }

    lemma FreshThreads()
      requires forall t | t in threads :: t.cur == ZERO && t.reported == t.recent == []
      ensures ThreadsValid()
    {
      hide Tally, SameCounts;
      forall t | t in threads ensures t.Valid(window) {
        SameZero(window, t.reported + t.recent);
      }
    }

    method Settle(status: bool)
      requires WellBuilt() && Listed() && ThreadsValid() && Summed()
      requires ToldIs(status)
      modifies systot`last, flist`last, threads
      ensures ThreadsValid() && LastCovers() && ToldAll()
      ensures GatherAll(flist, Seen) == if status then old(GatherAll(flist, Whole)) else []
      ensures forall t | t in threads ::
        t.reported == (if status then old(t.reported + t.recent) else []) && t.recent == []
    {
      hide Tally, Gather, GatherAll, ThreadsValid, Listed;
      if status {
        CopyLast();
        MoveLogs();
      } else {
        ClearCounters();
        DropLogs();
        ZeroTally(window);
      }
    }

    /** The sums, the blocks to be shown, and the differences told so far. */
    method Collect(status: bool)
      requires WellBuilt() && ThreadsValid() && LastCovers() && ToldAll()
      modifies systot`cur, systot`use, systot`told, flist`cur, flist`use, flist`told, threads`cur
      ensures ThreadsValid()
      ensures WellBuilt() && Summed()
      ensures Chosen(status)
      ensures ToldIs(status) && (status ==> TellsFresh())
    {
      hide Tally, Add, Gather, GatherAll, WellBuilt, ThreadsValid;
      hide Summed, Chosen, LastCovers, ToldAll, ToldIs;
      Aggregate();
      TakeUse(status);
      Tell(status);
    }

    /** Only types with operations in the stage, or left over from before it, decide. */
    lemma HeldDecides(evs: seq<Completion>)
      requires forall t | 0 <= t < NTYPE && LatsOf(window, evs, t) == [] :: kept[t] == carried[t]
      ensures Keep(kept, BlockLats(window, evs)) == Keep(carried, BlockLats(window, evs))
      ensures !HaltsOn(carried) ==>
        (HaltsOn(Keep(carried, BlockLats(window, evs))) <==> HaltsOn(BlockLats(window, evs)))
    {
      hide LatsOf, Quantile;
    }

    /** Everything of a report up to the test of the latency limit. */
    method Produce(status: bool) returns (printed: seq<seq<(int, int)>>)
      requires Valid()
      modifies this`latencyFlag, this`readlat, this`writelat, this`kept, pct, pctval
      modifies systot`cur, systot`use, systot`told, flist`cur, flist`use, flist`told, threads`cur
      ensures WellBuilt() && Listed() && ThreadsValid() && Holds(pctval, kept)
      ensures WellBuilt() && Summed()
      ensures Printed(status) && ToldIs(status) && (status ==> TellsFresh())
      ensures kept == KeepAll(old(kept), Shows(status)) && printed == AllLines(old(kept), Shows(status))
      ensures Summary(printed)
      ensures !status ==> latencyFlag == LimitFlag(Keep(old(kept), BlockLats(window, GatherAll(flist, Whole))), 0)
    {
      hide Tally, Gather, GatherAll, WellBuilt, Listed, ThreadsValid, LastCovers, ToldAll, NoZero, Add;
      hide Keep, KeepAll, BlockLats, AllLines, HaltsOn, Holds, LimitFlag, Summary;
      hide Shows, Summed, Chosen, Printed, ToldIs, TellsFresh;
      Collect(status);
      printed := PrintAll(status);
    }

    /** What a report leaves behind when the program goes on. */
    method Close(status: bool)
      requires WellBuilt() && Listed() && ThreadsValid() && Holds(pctval, kept) && Summed()
      requires ToldIs(status)
      requires forall t | 0 <= t < NTYPE && LatsOf(window, GatherAll(flist, Whole), t) == [] ::
        status ==> kept[t] == carried[t]
      requires !verbose ==> !HaltsOn(if status then carried else kept)
      modifies systot`last, flist`last, threads, this`carried
      ensures Valid() && carried == if status then old(carried) else kept
      ensures forall t | t in threads ::
        t.reported == (if status then old(t.reported + t.recent) else []) && t.recent == []
    {
      hide Tally, Gather, GatherAll, Listed, ThreadsValid, LastCovers, ToldAll, HaltsOn, Holds, LatsOf;
      Settle(status);
      if !status { carried := kept; }
    }

    /** The flag of the limit, which only what was held or recorded can raise. */
    lemma FlagRaised(held: Lats)
      ensures LimitFlag(held, 0) != 0 <==> HaltsOn(held)
      ensures LimitFlag(held, 0) == 1 <==> Over(held[READ])
    {
    }

    twostate lemma ShowedFromPrinted(status: bool)
      requires WellBuilt() && Printed(status) && window == old(window)
      requires forall t | t in threads :: t.reported == old(t.reported) && t.recent == old(t.recent)
      ensures Showed(status)
    {
      hide Tally, NoZero;
      assert GatherAll(flist, Shown(status)) == old(GatherAll(flist, Shown(status)));
      forall f | f in flist ensures Gather(f.ithreads, Shown(status)) == old(Gather(f.ithreads, Shown(status))) {
      }
    }

    /** A report up to the decision to halt. */
    method Decide(status: bool) returns (halted: bool, printed: seq<seq<(int, int)>>)
      requires Valid()
      modifies this`latencyFlag, this`readlat, this`writelat, this`kept, pct, pctval
      modifies systot`cur, systot`use, systot`told, flist`cur, flist`use, flist`told, threads`cur
      ensures WellBuilt() && Listed() && ThreadsValid() && Holds(pctval, kept) && Summed()
      ensures Showed(status) && ToldIs(status) && (status ==> TellsFresh())
      ensures kept == KeepAll(old(kept), old(Shows(status))) && printed == AllLines(old(kept), old(Shows(status)))
      ensures Summary(printed)
      ensures halted <==> !status && HaltsOn(Keep(carried, BlockLats(window, old(GatherAll(flist, Whole)))))
      ensures halted ==> (latencyFlag == 1 <==> Over(Keep(carried, BlockLats(window, old(GatherAll(flist, Whole))))[READ]))
      ensures !verbose ==> (halted <==> !status && HaltsOn(BlockLats(window, old(GatherAll(flist, Whole)))))
      ensures forall t | 0 <= t < NTYPE && LatsOf(window, GatherAll(flist, Whole), t) == [] ::
        status ==> kept[t] == carried[t]
      ensures !halted && !verbose ==> !HaltsOn(if status then carried else kept)
    {
      hide Tally, Gather, GatherAll, Listed, ThreadsValid, LastCovers, ToldAll, NoZero, Add;
      hide Keep, KeepAll, Blocks, BlockLats, AllLines, HaltsOn, Holds, LimitFlag, LatsOf, Summary;
      hide Summed, Chosen, Printed, Showed, ToldIs, TellsFresh;
      ghost var whole, held := GatherAll(flist, Whole), kept;
      StillCarried(window, flist, Shown(status), verbose, kept, carried);
      HeldDecides(whole);
      FlagRaised(Keep(held, BlockLats(window, whole)));
      OneBlock(held, whole);
      printed := Produce(status);
      ShowedFromPrinted(status);
      halted := !status && latencyFlag != 0;
    }

    /**
     One report. A status report covers what was completed since the last one; a summary
     covers the stage, halts the program over the latency limit, and otherwise starts the
     next stage from nothing. `printed` is the percentile lines of all blocks.
     */
    method Output(status: bool) returns (halted: bool, printed: seq<seq<(int, int)>>)
      requires Valid()
      modifies this`latencyFlag, this`readlat, this`writelat, this`kept, this`carried
      modifies systot, flist, pct, pctval, threads
      ensures Showed(status)
      ensures kept == KeepAll(old(kept), old(Shows(status))) && printed == AllLines(old(kept), old(Shows(status)))
      ensures Summary(printed)
      ensures LinesRight(window, old(kept), verbose, old(GatherAll(flist, Shown(status))), old(FileLogs(flist, Shown(status))), printed)
      ensures halted <==> !status && HaltsOn(Keep(old(carried), BlockLats(window, old(GatherAll(flist, Whole)))))
      ensures halted ==> (latencyFlag == 1 <==> Over(Keep(old(carried), BlockLats(window, old(GatherAll(flist, Whole))))[READ]))
      ensures !verbose ==> (halted <==> !status && HaltsOn(BlockLats(window, old(GatherAll(flist, Whole)))))
      ensures !halted ==> Valid() && carried == if status then old(carried) else kept
      ensures !halted ==> forall t | t in threads ::
        t.reported == (if status then old(t.reported + t.recent) else []) && t.recent == []
      ensures status ==> TellsFresh() && ToldIs(true)
    {
      hide Tally, Gather, GatherAll, Listed, ThreadsValid, LastCovers, ToldAll, NoZero, Add;
      hide Keep, KeepAll, Blocks, BlockLats, AllLines, HaltsOn, Holds, LatsOf, Shows;
      hide Summed, ToldIs, TellsFresh, Valid, Showed, WellBuilt, Summary, LinesRight, FileLogs;
      ShowsRight(status);
      halted, printed := Decide(status);
      if !halted {
        Close(status);
      }
    }

    lemma ShowsRight(status: bool)
      requires Valid()
      ensures LinesRight(window, kept, verbose, GatherAll(flist, Shown(status)), FileLogs(flist, Shown(status)), AllLines(kept, Shows(status)))
    {
      hide LinesRight, GatherAll, FileLogs, ThreadsValid, LastCovers, ToldAll, TableOk, Listed;
      AllLinesRight(window, kept, verbose, GatherAll(flist, Shown(status)), FileLogs(flist, Shown(status)));
    }

    /** Without `verbose` the system's block is the only one. */
    lemma OneBlock(held: Lats, evs: seq<Completion>)
      ensures forall files :: KeepAll(held, Blocks(window, false, evs, files)) == Keep(held, BlockLats(window, evs))
    {
      FirstBlock(held, BlockLats(window, evs), []);
      hide BlockLats, Keep;
      forall files ensures Blocks(window, false, evs, files) == [BlockLats(window, evs)] {
      }
      assert [BlockLats(window, evs)] + [] == [BlockLats(window, evs)];
    }

    /** An I/O of a thread of some file completes. */
    method Complete(f: nat, i: nat, c: Completion)
      requires Valid() && f < |flist| && i < |flist[f].ithreads| && WellTimed(c)
      modifies threads`cur, threads`recent
      ensures Valid()
      ensures forall t | t in threads ::
        t.recent == old(t.recent) + if t == flist[f].ithreads[i] then [c] else []
    {
      hide Tally, Gather, GatherAll, LatsOf, Recorded, Holds, SameCounts;
      var itp := flist[f].ithreads[i];
      assert flist[f] in flist && itp in flist[f].ithreads;
      assert itp in threads;
      itp.Finish(c, window);
      SeenAllStays(flist);
      forall g | g in flist ensures Gather(g.ithreads, Seen) == old(Gather(g.ithreads, Seen)) {
        SeenStays(g.ithreads);
      }
      forall t | t in threads ensures t.Valid(window) && t.recent == old(t.recent) + if t == itp then [c] else [] {
        assert old(t.Valid(window));
      }
    }

    /** One status report, and the differences that it took before printing. */
    method StatusReport() returns (use: IoStats, ghost delta: IoStats, ghost deltas: seq<IoStats>)
      requires Valid()
      modifies this`latencyFlag, this`readlat, this`writelat, this`kept, this`carried
      modifies systot, flist, pct, pctval, threads
      ensures Valid() && ToldIs(true) && use == NoZero(delta)
      ensures delta == Tally(window, old(GatherAll(flist, Fresh)))
      ensures |deltas| == |flist| && forall k | 0 <= k < |flist| :: deltas[k] == Tally(window, old(Gather(flist[k].ithreads, Fresh)))
      ensures systot.told == Add(old(systot.told), delta)
      ensures forall k | 0 <= k < |flist| :: flist[k].told == Add(old(flist[k].told), deltas[k])
    {
      hide Tally, Gather, GatherAll, NoZero, Add, Valid, Over, Keep, KeepAll, AllLines, BlockLats, Shows, HaltsOn, LinesRight, Summary;
      delta := Tally(window, GatherAll(flist, Fresh));
      deltas := Tallies(window, FileLogs(flist, Fresh));
      label before:
      var halted, printed := Output(true);
      assert TellsFresh@before();
      assert Showed@before(true);
      use := systot.use;
    }

    /**
     A stage from its beginning: any number of completions and status reports in any order.
     The differences that the reports take sum to the current statistics of the last one, for
     the system and for every file; taking a zero count as one reaches only what is shown.
     */
    method RunStage(script: seq<Event>)
      returns (shown: seq<IoStats>, ghost deltas: seq<IoStats>, ghost fileDeltas: seq<seq<IoStats>>)
      requires Valid() && forall e | e in script :: Possible(e)
      requires systot.told == ZERO && forall f | f in flist :: f.told == ZERO
      modifies this`latencyFlag, this`readlat, this`writelat, this`kept, this`carried
      modifies systot, flist, pct, pctval, threads
      ensures Valid() && |shown| == |deltas| && |fileDeltas| == |flist|
      ensures forall i | 0 <= i < |shown| :: shown[i] == NoZero(deltas[i])
      ensures SumStats(deltas) == systot.last && forall k | 0 <= k < |flist| :: SumStats(fileDeltas[k]) == flist[k].last
      ensures deltas != [] ==> systot.last == systot.cur && forall f | f in flist :: f.last == f.cur
    {
      hide Tally, Gather, GatherAll, NoZero, Add, ThreadsValid, LastCovers, TableOk, WellBuilt, Listed, SumStats;
      NoDifferences();
      shown, deltas, fileDeltas := [], [], seq(|flist|, _ => []);
      for n := 0 to |script|
        invariant Valid() && |shown| == |deltas| && |fileDeltas| == |flist|
        invariant forall i | 0 <= i < |shown| :: shown[i] == NoZero(deltas[i])
        invariant SumStats(deltas) == systot.told
        invariant forall k | 0 <= k < |flist| :: SumStats(fileDeltas[k]) == flist[k].told
        invariant deltas != [] ==> ToldIs(true)
      {
        assert Possible(script[n]);
        match script[n] {
          case Completes(f, i, c) => Complete(f, i, c);
          case Status =>
            var use, delta, ds := StatusReport();
            forall k | 0 <= k < |flist| ensures SumStats(fileDeltas[k] + [ds[k]]) == flist[k].told {
              SumStatsSnoc(fileDeltas[k], ds[k]);
            }
            SumStatsSnoc(deltas, delta);
            shown, deltas := shown + [use], deltas + [delta];
            fileDeltas := seq(|flist|, k requires 0 <= k < |flist| => fileDeltas[k] + [ds[k]]);
        }
      }
    }

    predicate Possible(e: Event) {
      match e
      case Completes(f, i, c) => f < |flist| && i < |flist[f].ithreads| && WellTimed(c)
      case Status => true
    }

    /**
     The start of a stage: the new window is published once nothing of the old stage is
     left, so that no completion is ever counted in two stages.
     */
    method BeginStage(endwarmup: nat, endinterval: nat)
      requires Valid() && forall t | t in threads :: t.reported == t.recent == []
      modifies this`window
      ensures Valid() && window == Window(endwarmup, endinterval)
    {
      hide Tally, Gather, GatherAll;
      NothingDone(flist, Seen);
      ZeroTally(window);
      ghost var before := window;
      window := Window(endwarmup, endinterval);
      ZeroTally(window);
      forall t | t in threads ensures t.Valid(window) {
        assert t.reported + t.recent == [] && old(t.Valid(before));
      }
    }

    function LimitFlag(held: Lats, before: nat): nat {
      if Over(held[READ]) then 1 else if Over(held[WRITE]) then 2 else before
    }
  }

  lemma AddZeroRight(a: IoStats)
    ensures Add(a, ZERO) == a
  {
    assert AddSeq(a.totlat, ZERO.totlat) == a.totlat;
    assert AddSeq(a.totbytes, ZERO.totbytes) == a.totbytes;
    assert AddSeq(a.latbuckets[READ], ZERO.latbuckets[READ]) == a.latbuckets[READ];
    assert AddSeq(a.latbuckets[WRITE], ZERO.latbuckets[WRITE]) == a.latbuckets[WRITE];
  }
}
