/**
 A run of ioload, printing the files as well as the system, that halts on a percentile of
 an earlier stage: two files, one write in ten slow, and then a stage that only reads.
 */
module StaleLimit {
  import opened LatencyHistogram
  import opened LoadStats
  import opened LoadReport
  import opened LoadTheorems

  const STAGE: Window := Window(0, 1_000_000_000)
  const LIMIT: nat := 2_000_000
  const FAST: Completion := Completion(1, 1, WRITE, 4096)
  const SLOW: Completion := Completion(1, 3_000_001, WRITE, 4096)
  const NEXT: Window := Window(2_000_000_000, 3_000_000_000)
  const READONE: Completion := Completion(2_000_000_001, 2_000_000_001, READ, 4096)

  function Repeat<T>(x: T, n: nat): seq<T> {
    if n == 0 then [] else Repeat(x, n - 1) + [x]
  }

  lemma {:induction false} RepeatIs<T>(x: T, n: nat)
    ensures |Repeat(x, n)| == n && forall i | 0 <= i < n :: Repeat(x, n)[i] == x
  {
    if n == 0 {
    } else {
      RepeatIs(x, n - 1);
    }
  }

  lemma {:induction false} FastLats(n: nat)
    ensures LatsOf(STAGE, Repeat(FAST, n), WRITE) == Repeat(0, n)
    ensures LatsOf(STAGE, Repeat(FAST, n), READ) == []
  {
    if n == 0 {
    } else {
      FastLats(n - 1);
      SelectSnoc(STAGE, Repeat(FAST, n - 1), FAST, WRITE);
      SelectSnoc(STAGE, Repeat(FAST, n - 1), FAST, READ);
      hide LatsOf;
    }
  }

  lemma SlowLats(evs: seq<Completion>)
    ensures LatsOf(STAGE, evs + [SLOW], WRITE) == LatsOf(STAGE, evs, WRITE) + [3_000_000]
    ensures LatsOf(STAGE, evs + [SLOW], READ) == LatsOf(STAGE, evs, READ)
  {
    SelectSnoc(STAGE, evs, SLOW, WRITE);
    SelectSnoc(STAGE, evs, SLOW, READ);
  }

  /** Nine fast writes and a slow one: the 90th percentile is that of the fast ones. */
  lemma MixIsUnder()
    ensures ValueOf(Repeat(0, 9) + [3_000_000], 1) == 10_000
  {
    var s := Repeat(0, 9) + [3_000_000];
    RepeatIs(0, 9);
    assert Threshold(10, PERCENTILE[1]) == 9;
    QuantileIsOrderStatistic(s, PERCENTILE[1], s);
  }

  /** The slow one alone is over the limit. */
  lemma SlowIsOver()
    ensures ValueOf([3_000_000], 1) == 3_010_000
  {
    assert Threshold(1, PERCENTILE[1]) == 1;
    QuantileIsOrderStatistic([3_000_000], PERCENTILE[1], [3_000_000]);
  }

  lemma ReadIsUnder()
    ensures LatsOf(NEXT, [READONE], READ) == [0] && LatsOf(NEXT, [READONE], WRITE) == []
    ensures ValueOf([0], 1) == 10_000
  {
    assert [READONE][..0] == [];
    assert Threshold(1, PERCENTILE[1]) == 1;
    QuantileIsOrderStatistic([0], PERCENTILE[1], [0]);
  }

  /** The report of two files with one thread each. */
  ghost predicate TwoFiles(r: Report)
    reads r, r.flist, r.systot, r.threads, r.pctval
  {
    && r.Valid() && r.verbose && r.maxlatency == LIMIT
    && |r.flist| == 2 && r.flist[0] != r.flist[1]
    && |r.flist[0].ithreads| == 1 && |r.flist[1].ithreads| == 1
    && r.flist[0].ithreads[0] != r.flist[1].ithreads[0]
    && r.flist[0].ithreads[0] in r.threads && r.flist[1].ithreads[0] in r.threads
  }

  /** The log of the thread of file `f`. */
  ghost function Log(r: Report, f: nat): seq<Completion>
    requires f < |r.flist| && |r.flist[f].ithreads| == 1
    reads r.flist[f].ithreads[0]
  {
    r.flist[f].ithreads[0].reported + r.flist[f].ithreads[0].recent
  }

  lemma LogsGathered(r: Report)
    requires TwoFiles(r)
    ensures GatherAll(r.flist, Whole) == Log(r, 0) + Log(r, 1)
    ensures FileLogs(r.flist, Whole) == [Log(r, 0), Log(r, 1)]
  {
    hide Tally;
    var fs := r.flist;
    assert fs[..2] == fs && fs[..1] == [fs[0]] && fs[..0] == [];
    assert fs[0].ithreads[..0] == [] && fs[1].ithreads[..0] == [];
    assert fs[0].ithreads[..1] == fs[0].ithreads && fs[1].ithreads[..1] == fs[1].ithreads;
    assert Gather(fs[0].ithreads, Whole) == Log(r, 0);
    assert Gather(fs[1].ithreads, Whole) == Log(r, 1);
    assert GatherAll([fs[0]], Whole) == Log(r, 0) by { assert [fs[0]][..0] == []; }
    assert fs == [fs[0]] + [fs[1]];
  }

  /** A file with one thread that has not done anything yet. */
  method NewFile() returns (f: File)
    ensures fresh(f) && |f.ithreads| == 1 && fresh(f.ithreads[0]) && f.ithreads[0].Valid(STAGE)
    ensures f.ithreads[0].reported == f.ithreads[0].recent == [] && f.cur == f.use == f.last == f.told == ZERO
  {
    var t := new IoThread(STAGE);
    f := new File([t]);
  }

  /** Nothing has happened yet. */
  ghost predicate AtStart(r: Report)
    reads r, r.flist, r.systot, r.threads, r.pctval
  {
    TwoFiles(r) && r.window == STAGE && r.carried == [[], []] && Log(r, 0) == [] && Log(r, 1) == []
  }

  /** A file as NewFile leaves it. */
  ghost predicate Untouched(f: File)
    reads f, f.ithreads
  {
    && |f.ithreads| == 1 && f.cur == f.use == f.last == f.told == ZERO
    && f.ithreads[0].Valid(STAGE) && f.ithreads[0].reported == f.ithreads[0].recent == []
  }

  method SetUp() returns (r: Report)
    ensures AtStart(r)
  {
    hide Tally, SameCounts;
    var fa := NewFile();
    var fb := NewFile();
    r := NewReport(fa, fb);
  }

  method NewReport(fa: File, fb: File) returns (r: Report)
    requires Untouched(fa) && Untouched(fb) && fa != fb && fa.ithreads[0] != fb.ithreads[0]
    ensures AtStart(r)
  {
    hide Tally, SameCounts, Report.Valid, IoThread.Valid;
    r := Construct(fa, fb);
    assert fa in r.flist && fa.ithreads[0] in fa.ithreads && fb in r.flist && fb.ithreads[0] in fb.ithreads;
  }

  method Construct(fa: File, fb: File) returns (r: Report)
    requires Untouched(fa) && Untouched(fb) && fa != fb
    ensures r.Valid() && r.flist == [fa, fb] && r.window == STAGE && r.verbose && r.maxlatency == LIMIT
    ensures r.threads == (set f, t | f in [fa, fb] && t in f.ithreads :: t) && r.carried == [[], []]
  {
    var all := new File([]);
    var pct := new nat[NPERCENT, NTYPE]((i, j) => 0);
    var pctval := new int[NPERCENT, NTYPE]((i, j) => 0);
    NothingInTwo(fa, fb);
    hide *;
    r := new Report([fa, fb], all, pct, pctval, STAGE, true, LIMIT);
  }

  lemma NothingInTwo(fa: File, fb: File)
    requires Untouched(fa) && Untouched(fb)
    ensures NothingYet([fa, fb]) && forall f, t | f in [fa, fb] && t in f.ithreads :: t.Valid(STAGE)
  {
    hide IoThread.Valid;
    forall f, t | f in [fa, fb] && t in f.ithreads ensures t == fa.ithreads[0] || t == fb.ithreads[0] {
    }
  }

  /** A stage of ten writes, the last of them slow and on the second file. */
  method FirstStage(r: Report)
    requires AtStart(r)
    modifies r.threads`cur, r.threads`recent
    ensures TwoFiles(r) && r.window == STAGE && r.carried == [[], []]
    ensures Log(r, 0) == Repeat(FAST, 9) && Log(r, 1) == [SLOW]
  {
    hide Report.Valid;
    for n := 0 to 9
      invariant TwoFiles(r) && r.window == STAGE && r.carried == [[], []]
      invariant Log(r, 0) == Repeat(FAST, n) && Log(r, 1) == []
    {
      r.Complete(0, 0, FAST);
    }
    r.Complete(1, 0, SLOW);
  }

  lemma MixLats()
    ensures BlockLats(STAGE, Repeat(FAST, 9) + [SLOW]) == [[], Repeat(0, 9) + [3_000_000]]
    ensures LatsOf(STAGE, [SLOW], WRITE) == [3_000_000]
  {
    FastLats(9);
    SlowLats(Repeat(FAST, 9));
    SlowLats([]);
    assert [] + [SLOW] == [SLOW];
    hide LatsOf, Repeat;
  }

  lemma MixDoesNotHalt(r: Report)
    requires r.maxlatency == LIMIT
    ensures !r.HaltsOn(Keep([[], []], [[], Repeat(0, 9) + [3_000_000]]))
  {
    MixIsUnder();
    hide Quantile, Repeat;
  }

  /** What is left of it is the slow write. */
  lemma FirstStageKeeps(r: Report, kept: Lats)
    requires TwoFiles(r) && r.window == STAGE && r.carried == [[], []]
    requires Log(r, 0) == Repeat(FAST, 9) && Log(r, 1) == [SLOW]
    ensures !r.HaltsOn(Keep(r.carried, BlockLats(STAGE, GatherAll(r.flist, Whole))))
    ensures KeepAll(kept, r.Shows(false))[WRITE] == [3_000_000]
  {
    ShowsLogs(r);
    MixLats();
    MixDoesNotHalt(r);
    hide *;
    LastFileCarries(STAGE, GatherAll(r.flist, Whole), [Log(r, 0), Log(r, 1)], kept, WRITE, 1);
  }

  lemma ShowsLogs(r: Report)
    requires TwoFiles(r) && r.window == STAGE
    ensures GatherAll(r.flist, Whole) == Log(r, 0) + Log(r, 1)
    ensures r.Shows(false) == Blocks(STAGE, true, GatherAll(r.flist, Whole), [Log(r, 0), Log(r, 1)])
  {
    LogsGathered(r);
    hide Blocks, GatherAll, FileLogs, Report.Valid;
  }

  /** A stage with a read only, and its summary. */
  method SecondStage(r: Report) returns (halted: bool, ghost evs: seq<Completion>)
    requires TwoFiles(r) && r.carried[WRITE] == [3_000_000]
    requires forall t | t in r.threads :: t.reported == t.recent == []
    modifies r, r.systot, r.flist, r.pct, r.pctval, r.threads
    ensures halted && r.window == NEXT
    ensures LatsOf(NEXT, evs, WRITE) == [] && !r.HaltsOn(BlockLats(NEXT, evs))
  {
    hide Tally, LatsOf, Quantile, Report.Valid, Gather, GatherAll, KeepAll, Add, NoZero, LinesRight, FileLogs, Report.Summary;
    r.BeginStage(NEXT.endwarmup, NEXT.endinterval);
    r.Complete(0, 0, READONE);
    evs := GatherAll(r.flist, Whole);
    LogsGathered(r);
    assert evs == [READONE];
    ReadIsUnder();
    SlowIsOver();
    var lines;
    halted, lines := r.Output(false);
  }

  /**
   The second summary halts the program, although the 90th percentile of its stage, which
   has no write, is far below the limit. The first one, of the stage the slow write
   belongs to, did not.
   */
  method HaltsOnStale(r: Report) returns (first: bool, second: bool, ghost evs: seq<Completion>)
    requires AtStart(r)
    modifies r, r.systot, r.flist, r.pct, r.pctval, r.threads
    ensures !first && second
    ensures r.window == NEXT && LatsOf(NEXT, evs, WRITE) == [] && !r.HaltsOn(BlockLats(NEXT, evs))
  {
    hide Tally, LatsOf, Quantile, Report.Valid, Gather, GatherAll, KeepAll, Add, NoZero, Report.HaltsOn, LinesRight;
    FirstStage(r);
    FirstStageKeeps(r, r.kept);
    var lines;
    first, lines := r.Output(false);
    second, evs := SecondStage(r);
  }
}
