/**
 ioload's staged load: main runs one stage after another on the same io threads, with a
 growing number of them active, and separates the stages by a semaphore barrier that is
 used again and again. One step is one access to a semaphore or to the shared thread
 count, one whole do_io, or one report.
 */
module StageBarrier {
  import opened Options
  import opened NumberTheory

  /** Every file has `max` io threads. */
  datatype Config = Config(nfiles: nat, init: nat, max: nat, incr: nat)

  datatype MainPc =
    | MCreate(k: nat) | MReady(k: nat) | MTest(i: nat)
    | MPost(i: nat, k: nat) | MWait(i: nat, k: nat) | MOutput(i: nat)
    | MRelease(k: nat) | MExit | MHalted

  datatype IoPc = INone | IReady | ITest | IWait | ICompare | IWork | IPost | IEnd

  /** What a report was written about: the stage's thread count and who did I/O in the stage. */
  datatype Report = Report(threads: nat, did: seq<nat>)

  /** `did` counts the calls of do_io that ended in the current stage; the program does not have it. */
  datatype State = State(
    threads: nat, main: MainPc, ios: seq<IoPc>, stop: seq<nat>, start: seq<nat>,
    did: seq<nat>, reports: seq<Report>)

  /** `Halt` is main finding, in a summary, that the latency limit is exceeded. */
  datatype Actor = Main | Halt | Io(t: nat)

  function Count(c: Config): nat {
    c.nfiles * c.max
  }

  /** The threads of all files in list order; the numbers start again with every file. */
  function Id(c: Config, t: nat): nat {
    if c.max == 0 then 0 else t % c.max
  }

  predicate Typed(c: Config, s: State) {
    |s.ios| == |s.stop| == |s.start| == |s.did| == Count(c)
  }

  ghost predicate Init(c: Config, s: State) {
    && Typed(c, s) && s.main == MCreate(0) && s.threads == 1 && s.reports == []
    && forall t | 0 <= t < Count(c) :: s.ios[t] == INone && s.stop[t] == s.start[t] == s.did[t] == 0
  }

  // ---------------------------------------------------------------- the two programs

  predicate Ended(s: State) {
    s.main == MExit || s.main == MHalted
  }

  /** runtest; `None` when it waits, or after exit. */
  function MainStep(c: Config, s: State): Option<State>
    requires Typed(c, s)
  {
    var n := Count(c);
    match s.main
    case MCreate(k) =>
      if k < n then Some(s.(main := MCreate(k + 1), ios := s.ios[k := IReady]))
      else Some(s.(main := MReady(0)))
    case MReady(k) =>
      if k >= n then Some(s.(main := MTest(c.init)))
      else if s.stop[k] == 0 then None
      else Some(s.(main := MReady(k + 1), stop := s.stop[k := s.stop[k] - 1]))
    case MTest(i) =>
      if i <= c.max
      then Some(s.(main := MPost(i, 0), threads := i, did := seq(n, _ => 0)))
      else Some(s.(main := MRelease(0), threads := 0))
    case MPost(i, k) =>
      if k >= n then Some(s.(main := MWait(i, 0)))
      else Some(s.(main := MPost(i, k + 1), start := s.start[k := s.start[k] + 1]))
    case MWait(i, k) =>
      if k >= n then Some(s.(main := MOutput(i)))
      else if s.stop[k] == 0 then None
      else Some(s.(main := MWait(i, k + 1), stop := s.stop[k := s.stop[k] - 1]))
    case MOutput(i) =>
      Some(s.(main := MTest(i + c.incr), reports := s.reports + [Report(s.threads, s.did)]))
    case MRelease(k) =>
      if k >= n then Some(s.(main := MExit))
      else Some(s.(main := MRelease(k + 1), start := s.start[k := s.start[k] + 1]))
    case MExit => None
    case MHalted => None
  }

  /** The exit of a summary over the latency limit. */
  function HaltStep(s: State): Option<State> {
    if s.main.MOutput?
    then Some(s.(main := MHalted, reports := s.reports + [Report(s.threads, s.did)]))
    else None
  }

  /** io_thread; after exit no thread runs. */
  function IoStep(c: Config, s: State, t: nat): Option<State>
    requires Typed(c, s) && t < Count(c)
  {
    if Ended(s) then None else
    match s.ios[t]
    case INone => None
    case IReady => Some(s.(ios := s.ios[t := ITest], stop := s.stop[t := s.stop[t] + 1]))
    case ITest => Some(s.(ios := s.ios[t := if s.threads == 0 then IEnd else IWait]))
    case IWait =>
      if s.start[t] == 0 then None
      else Some(s.(ios := s.ios[t := ICompare], start := s.start[t := s.start[t] - 1]))
    case ICompare => Some(s.(ios := s.ios[t := if Id(c, t) < s.threads then IWork else IPost]))
    case IWork => Some(s.(ios := s.ios[t := IPost], did := s.did[t := s.did[t] + 1]))
    case IPost => Some(s.(ios := s.ios[t := ITest], stop := s.stop[t := s.stop[t] + 1]))
    case IEnd => None
  }

  function Step(c: Config, s: State, a: Actor): Option<State>
    requires Typed(c, s)
  {
    match a
    case Main => MainStep(c, s)
    case Halt => HaltStep(s)
    case Io(t) => if t < Count(c) then IoStep(c, s, t) else None
  }

  ghost predicate Next(c: Config, s: State, s': State) {
    Typed(c, s) && exists a :: Step(c, s, a) == Some(s')
  }

  ghost predicate Path(c: Config, run: seq<State>) {
    && run != []
    && forall i | 0 <= i < |run| - 1 :: Next(c, run[i], run[i + 1])
  }

  ghost predicate Run(c: Config, run: seq<State>) {
    Path(c, run) && Init(c, run[0])
  }

  // ---------------------------------------------------------------- the invariant

  function Due(id: nat, threads: nat): nat {
    if id < threads then 1 else 0
  }

  predicate Resting(pc: IoPc) {
    pc == ITest || pc == IWait || pc == IEnd
  }

  /** Main has taken the thread's last post and not started it again. */
  predicate Idle(pc: IoPc, stop: nat, start: nat) {
    stop == start == 0 && Resting(pc)
  }

  predicate Starting(pc: IoPc, stop: nat, start: nat) {
    start == 0 && ((stop == 0 && pc == IReady) || (stop == 1 && Resting(pc)))
  }

  /** Main has posted `start` once and not yet taken the post that answers it. */
  predicate Out(pc: IoPc, stop: nat, start: nat) {
    || (stop + start == 1 && Resting(pc))
    || (stop == start == 0 && (pc == ICompare || pc == IWork || pc == IPost))
  }

  /** How much of the stage's work an outstanding thread has done. */
  predicate Progress(id: nat, threads: nat, pc: IoPc, stop: nat, start: nat, did: nat) {
    && (start == 1 || pc == ICompare ==> did == 0)
    && (pc == IWork ==> did == 0 && id < threads)
    && (pc == IPost || stop == 1 ==> did == Due(id, threads))
  }

  predicate ThreadOk(
      m: MainPc, init: nat, threads: nat, t: nat, id: nat, pc: IoPc, stop: nat, start: nat, did: nat)
  {
    && (pc == IEnd ==> init == 0 || m.MRelease? || m.MExit?)
    && match m
       case MCreate(k) => if t < k then Starting(pc, stop, start) else pc == INone && stop == start == 0
       case MReady(k) => if t < k then Idle(pc, stop, start) else Starting(pc, stop, start)
       case MTest(_) => Idle(pc, stop, start)
       case MPost(_, k) =>
         if t < k then Out(pc, stop, start) && Progress(id, threads, pc, stop, start, did)
         else Idle(pc, stop, start) && did == 0
       case MWait(_, k) =>
         if t >= k then Out(pc, stop, start) && Progress(id, threads, pc, stop, start, did)
         else Idle(pc, stop, start) && did == Due(id, threads)
       case MOutput(_) => Idle(pc, stop, start) && did == Due(id, threads)
       case MRelease(k) => if t < k then Out(pc, stop, start) && pc != IWork else Idle(pc, stop, start)
       case MExit => Out(pc, stop, start) && pc != IWork
       case MHalted => Idle(pc, stop, start)
  }

  predicate Thread(c: Config, s: State, t: nat)
    requires Typed(c, s) && t < Count(c)
  {
    ThreadOk(s.main, c.init, s.threads, t, Id(c, t), s.ios[t], s.stop[t], s.start[t], s.did[t])
  }

  /** The thread count of the stage that follows `k` others. */
  function StageCount(c: Config, k: nat): nat {
    c.init + k * c.incr
  }

  predicate MainOk(c: Config, s: State) {
    var n, i := Count(c), StageCount(c, |s.reports|);
    match s.main
    case MCreate(k) => k <= n && s.threads == 1 && s.reports == []
    case MReady(k) => k <= n && s.threads == 1 && s.reports == []
    case MTest(j) => j == i && (c.init > 0 ==> s.threads > 0)
    case MPost(j, k) => k <= n && j == i == s.threads <= c.max
    case MWait(j, k) => k <= n && j == i == s.threads <= c.max
    case MOutput(j) => j == i == s.threads <= c.max
    case MRelease(k) => k <= n && s.threads == 0 && i > c.max
    case MExit => s.threads == 0 && i > c.max
    case MHalted => s.reports != []
  }

  /** A report tells of its stage's count, and of one do_io of each thread below it and none above. */
  predicate ReportOk(c: Config, r: Report, k: nat) {
    && r.threads == StageCount(c, k) <= c.max && |r.did| == Count(c)
    && forall t | 0 <= t < Count(c) :: r.did[t] == Due(Id(c, t), r.threads)
  }

  ghost predicate Inv(c: Config, s: State) {
    && Typed(c, s) && MainOk(c, s)
    && (forall t | 0 <= t < Count(c) :: Thread(c, s, t))
    && (forall k | 0 <= k < |s.reports| :: ReportOk(c, s.reports[k], k))
  }

  lemma StepInv(c: Config, s: State, a: Actor, s': State)
    requires Inv(c, s) && Step(c, s, a) == Some(s')
    ensures Inv(c, s')
  {
    match a
    case Main => MainInv(c, s, s');
    case Halt => HaltInv(c, s, s');
    case Io(t) => IoInv(c, s, t, s');
  }

  lemma MainInv(c: Config, s: State, s': State)
    requires Inv(c, s) && MainStep(c, s) == Some(s')
    ensures Inv(c, s')
  {
    forall t | 0 <= t < Count(c) ensures Thread(c, s', t) {
      MainThread(c, s, s', t);
    }
    if s.main.MOutput? {
      NextStage(c, |s.reports|);
      NewReport(c, s);
    }
    hide Thread, ReportOk, StageCount, Count, Id;
  }

  lemma NewReport(c: Config, s: State)
    requires Inv(c, s) && s.main.MOutput?
    ensures ReportOk(c, Report(s.threads, s.did), |s.reports|)
  {
    forall t | 0 <= t < Count(c) ensures s.did[t] == Due(Id(c, t), s.threads) {
      assert Thread(c, s, t);
    }
  }

  lemma HaltInv(c: Config, s: State, s': State)
    requires Inv(c, s) && HaltStep(s) == Some(s')
    ensures Inv(c, s')
  {
    NewReport(c, s);
    forall t | 0 <= t < Count(c) ensures Thread(c, s', t) {
      assert Thread(c, s, t);
    }
    hide ReportOk, StageCount, Count, Id;
  }

  lemma NextStage(c: Config, k: nat)
    ensures StageCount(c, k + 1) == StageCount(c, k) + c.incr
  {
  }

  lemma MainThread(c: Config, s: State, s': State, t: nat)
    requires Inv(c, s) && MainStep(c, s) == Some(s') && Typed(c, s') && t < Count(c)
    ensures Thread(c, s', t)
  {
    assert Thread(c, s, t);
    hide Inv, Id, Count, StageCount;
  }

  lemma IoInv(c: Config, s: State, t: nat, s': State)
    requires Inv(c, s) && t < Count(c) && IoStep(c, s, t) == Some(s')
    ensures Inv(c, s')
  {
    assert Thread(c, s, t);
    forall u | 0 <= u < Count(c) ensures Thread(c, s', u) {
      assert Thread(c, s, u);
      hide ReportOk, StageCount, Count, Id, MainOk;
    }
    hide ReportOk, StageCount, Count, Id, Thread;
  }

  /** Every state of every run keeps the invariant. */
  lemma {:induction false} RunInv(c: Config, run: seq<State>, i: nat)
    requires Run(c, run) && i < |run|
    ensures Inv(c, run[i])
  {
    if i == 0 {
    } else {
      RunInv(c, run, i - 1);
      assert Next(c, run[i - 1], run[i - 1 + 1]);
      var a :| Step(c, run[i - 1], a) == Some(run[i]);
      StepInv(c, run[i - 1], a, run[i]);
    }
  }

  // ---------------------------------------------------------------- what the stages guarantee

  /** A thread does I/O only while main is inside a stage, and only if its number is below the stage's count. */
  lemma OnlyActiveThreadsWork(c: Config, run: seq<State>, i: nat, t: nat)
    requires Run(c, run) && i < |run| && t < Count(c)
    requires Typed(c, run[i]) && run[i].ios[t] == IWork
    ensures run[i].main.MPost? || run[i].main.MWait?
    ensures Id(c, t) < run[i].main.i == StageCount(c, |run[i].reports|)
    ensures run[i].did[t] == 0
  {
    RunInv(c, run, i);
    assert Thread(c, run[i], t);
  }

  /** While a summary is written every io thread is between its last post and its next start. */
  lemma SummaryIsAlone(c: Config, run: seq<State>, i: nat, t: nat)
    requires Run(c, run) && i < |run| && t < Count(c) && run[i].main.MOutput?
    ensures Typed(c, run[i]) && Resting(run[i].ios[t])
    ensures run[i].start[t] == run[i].stop[t] == 0
  {
    RunInv(c, run, i);
    assert Thread(c, run[i], t);
  }

  /**
   The reports written so far are those of the stages in order, and in the stage with count
   m each thread numbered below m did its I/O exactly once and no other thread any. When
   the program exits otherwise than by the latency limit, all stages have been reported.
   */
  lemma ReportsAreTheStages(c: Config, run: seq<State>, i: nat, k: nat)
    requires Run(c, run) && i < |run| && k < |run[i].reports|
    ensures run[i].reports[k].threads == StageCount(c, k) <= c.max
    ensures |run[i].reports[k].did| == Count(c)
    ensures forall t | 0 <= t < Count(c) ::
      run[i].reports[k].did[t] == Due(Id(c, t), StageCount(c, k))
    ensures run[i].main == MExit ==> StageCount(c, |run[i].reports|) > c.max
  {
    RunInv(c, run, i);
    assert ReportOk(c, run[i].reports[k], k);
  }

  /** Thread number `j` of file `f` stands at place f * max + j of the list. */
  lemma PlaceHasNumber(c: Config, f: nat, j: nat)
    requires f < c.nfiles && j < c.max
    ensures f * c.max + j < Count(c) && Id(c, f * c.max + j) == j
  {
    MulMono(f + 1, c.nfiles, c.max);
    assert (f + 1) * c.max == f * c.max + c.max;
    DivModUnique(f * c.max + j, c.max, f, j);
  }

  /** There are no other places. */
  lemma EveryPlaceIsOfAFile(c: Config, t: nat) returns (f: nat, j: nat)
    requires t < Count(c)
    ensures f < c.nfiles && j < c.max && t == f * c.max + j
  {
    if c.max == 0 {
      assert false;
    } else {
      f, j := t / c.max, t % c.max;
      if f >= c.nfiles { MulMono(c.nfiles, f, c.max); }
    }
  }

  /**
   File by file: in stage number `k`, counted from zero, thread `j` of every file did its I/O
   once if `j` is below initthreads + k * incrthreads, and not at all otherwise.
   */
  lemma EveryFileDidItsStage(c: Config, run: seq<State>, i: nat, k: nat, f: nat, j: nat)
    requires Run(c, run) && i < |run| && k < |run[i].reports| && f < c.nfiles && j < c.max
    ensures c.init + k * c.incr <= c.max && run[i].reports[k].threads == c.init + k * c.incr
    ensures f * c.max + j < |run[i].reports[k].did| == c.nfiles * c.max
    ensures run[i].reports[k].did[f * c.max + j] == if j < c.init + k * c.incr then 1 else 0
  {
    ReportsAreTheStages(c, run, i, k);
    PlaceHasNumber(c, f, j);
    hide Id;
  }

  /** Thread `j` of a file does I/O only in a stage, and only if the stage's count is above `j`. */
  lemma EveryFileWorksInStage(c: Config, run: seq<State>, i: nat, f: nat, j: nat)
    requires Run(c, run) && i < |run| && f < c.nfiles && j < c.max
    ensures f * c.max + j < |run[i].ios| == c.nfiles * c.max
    ensures run[i].ios[f * c.max + j] == IWork ==>
      (run[i].main.MPost? || run[i].main.MWait?) && j < c.init + |run[i].reports| * c.incr <= c.max
  {
    RunInv(c, run, i);
    PlaceHasNumber(c, f, j);
    hide Id;
    assert Thread(c, run[i], f * c.max + j);
  }

  /** Over all stages no semaphore ever holds more than one. */
  lemma SemaphoresAreBinary(c: Config, run: seq<State>, i: nat, t: nat)
    requires Run(c, run) && i < |run| && t < Count(c)
    ensures Typed(c, run[i]) && run[i].stop[t] + run[i].start[t] <= 1
  {
    RunInv(c, run, i);
    assert Thread(c, run[i], t);
  }

  // ---------------------------------------------------------------- deadlock

  /** With at least one thread in the first stage, some thread can always go on until the program ends. */
  lemma NeverDeadlocks(c: Config, run: seq<State>) returns (a: Actor)
    requires Run(c, run) && !Ended(run[|run| - 1]) && c.init > 0
    ensures Typed(c, run[|run| - 1]) && Step(c, run[|run| - 1], a).Some?
  {
    var s := run[|run| - 1];
    RunInv(c, run, |run| - 1);
    if MainStep(c, s).Some? {
      a := Main;
    } else {
      var k := s.main.k;
      assert Thread(c, s, k);
      a := Io(k);
    }
  }

  /** Main waits, or will wait, for a thread that has left its loop. */
  predicate Hung(c: Config, s: State, t: nat) {
    && Typed(c, s) && t < Count(c) && s.ios[t] == IEnd && s.stop[t] == 0
    && (s.main.MPost? || (s.main.MWait? && s.main.k <= t))
  }

  lemma {:induction false} HungForever(c: Config, path: seq<State>, i: nat, t: nat)
    requires Path(c, path) && i < |path| && Hung(c, path[0], t)
    ensures Hung(c, path[i], t)
  {
    if i == 0 {
    } else {
      HungForever(c, path, i - 1, t);
      assert Next(c, path[i - 1], path[i - 1 + 1]);
    }
  }

  ghost predicate CanHang(c: Config) {
    exists run, t :: EndsHung(c, run, t)
  }

  ghost predicate EndsHung(c: Config, run: seq<State>, t: nat) {
    Run(c, run) && Hung(c, run[|run| - 1], t)
  }

  lemma Extend(c: Config, run: seq<State>, a: Actor) returns (run': seq<State>, s: State)
    requires Run(c, run) && Typed(c, run[|run| - 1]) && Step(c, run[|run| - 1], a).Some?
    ensures Run(c, run') && s == run'[|run'| - 1] && Step(c, run[|run| - 1], a) == Some(s)
  {
    s := Step(c, run[|run| - 1], a).value;
    run' := run + [s];
    assert Next(c, run[|run| - 1], s);
    forall i | 0 <= i < |run'| - 1 ensures Next(c, run'[i], run'[i + 1]) {
      if i < |run| - 1 { assert Next(c, run[i], run[i + 1]); }
    }
  }

  /** A schedule in which main creates `k` threads and each reports at once. */
  lemma {:induction false} Create(c: Config, k: nat) returns (run: seq<State>, s: State)
    requires k <= Count(c)
    ensures Run(c, run) && s == run[|run| - 1] && Typed(c, s) && s.main == MCreate(k)
    ensures forall t | 0 <= t < k :: s.ios[t] == ITest && s.stop[t] == 1
    ensures forall t | k <= t < Count(c) :: s.ios[t] == INone && s.stop[t] == 0
    decreases k
  {
    var n := Count(c);
    hide Count;
    if k == 0 {
      s := State(1, MCreate(0), seq(n, _ => INone), seq(n, _ => 0), seq(n, _ => 0), seq(n, _ => 0), []);
      run := [s];
    } else {
      run, s := Create(c, k - 1);
      run, s := Extend(c, run, Main);
      run, s := Extend(c, run, Io(k - 1));
    }
  }

  /** Main then takes the first `k` of those posts. */
  lemma {:induction false} Collect(c: Config, k: nat) returns (run: seq<State>, s: State)
    requires k <= Count(c)
    ensures Run(c, run) && s == run[|run| - 1] && Typed(c, s) && s.main == MReady(k)
    ensures forall t | 0 <= t < Count(c) :: s.ios[t] == ITest && s.stop[t] == if t < k then 0 else 1
    decreases k
  {
    var n := Count(c);
    hide Count;
    if k == 0 {
      run, s := Create(c, n);
      run, s := Extend(c, run, Main);
    } else {
      run, s := Collect(c, k - 1);
      run, s := Extend(c, run, Main);
    }
  }

  /** With an empty first stage an io thread that is slow to test the count leaves, and main waits for it. */
  lemma EmptyStageHangs(c: Config) returns (run: seq<State>)
    requires c.init == 0 && Count(c) > 0
    ensures Run(c, run) && Hung(c, run[|run| - 1], 0)
  {
    var s: State;
    run, s := Collect(c, Count(c));
    hide Count;
    run, s := Extend(c, run, Main);
    run, s := Extend(c, run, Main);
    run, s := Extend(c, run, Io(0));
  }

  /** The program can hang exactly when it has io threads and `initthreads` is zero. */
  lemma HangsIff(c: Config)
    ensures CanHang(c) <==> c.init == 0 && Count(c) > 0
  {
    if c.init == 0 && Count(c) > 0 {
      var run := EmptyStageHangs(c);
      assert EndsHung(c, run, 0);
    }
    if CanHang(c) {
      var run, t :| EndsHung(c, run, t);
      RunInv(c, run, |run| - 1);
      assert Thread(c, run[|run| - 1], t);
    }
    hide Count;
  }

  // ---------------------------------------------------------------- every run ends

  /** Main's steps from the test of stage count `i` on. */
  function Ahead(c: Config, i: nat): nat
    decreases c.max + 1 - i
  {
    if i > c.max || c.incr == 0 then Count(c) + 2 else 2 * Count(c) + 4 + Ahead(c, i + c.incr)
  }

  /** How often main will still start each thread. */
  function Starts(c: Config, i: nat): nat
    decreases c.max + 1 - i
  {
    if i > c.max || c.incr == 0 then 1 else 1 + Starts(c, i + c.incr)
  }

  function Rest(n: nat, k: nat): nat {
    if k <= n then n - k else 0
  }

  function MainLeft(c: Config, m: MainPc): nat {
    var n := Count(c);
    match m
    case MCreate(k) => Ahead(c, c.init) + n + 1 + Rest(n, k) + 1
    case MReady(k) => Ahead(c, c.init) + Rest(n, k) + 1
    case MTest(i) => Ahead(c, i)
    case MPost(i, k) => Ahead(c, i + c.incr) + n + 2 + Rest(n, k) + 1
    case MWait(i, k) => Ahead(c, i + c.incr) + 1 + Rest(n, k) + 1
    case MOutput(i) => Ahead(c, i + c.incr) + 1
    case MRelease(k) => Rest(n, k) + 1
    case MExit => 0
    case MHalted => 0
  }

  function StartsLeft(c: Config, m: MainPc, t: nat): nat {
    match m
    case MCreate(_) => Starts(c, c.init)
    case MReady(_) => Starts(c, c.init)
    case MTest(i) => Starts(c, i)
    case MPost(i, k) => Starts(c, i + c.incr) + Due(k, t + 1)
    case MWait(i, _) => Starts(c, i + c.incr)
    case MOutput(i) => Starts(c, i + c.incr)
    case MRelease(k) => Due(k, t + 1)
    case MExit => 0
    case MHalted => 0
  }

  function IoLeft(pc: IoPc): nat {
    match pc
    case INone => 4
    case IReady => 3
    case ITest => 1
    case IWait => 0
    case ICompare => 5
    case IWork => 4
    case IPost => 3
    case IEnd => 0
  }

  function ThreadLeft(c: Config, s: State, t: nat): nat
    requires Typed(c, s) && t < Count(c)
  {
    IoLeft(s.ios[t]) + 6 * (s.start[t] + StartsLeft(c, s.main, t))
  }

  function ThreadsLeft(c: Config, s: State, k: nat): nat
    requires Typed(c, s) && k <= Count(c)
  {
    if k == 0 then 0 else ThreadsLeft(c, s, k - 1) + ThreadLeft(c, s, k - 1)
  }

  /** An upper bound on the steps still to come. */
  function Left(c: Config, s: State): nat
    requires Typed(c, s)
  {
    MainLeft(c, s.main) + ThreadsLeft(c, s, Count(c))
  }

  lemma {:induction false} ThreadsLeftLess(c: Config, s: State, s': State, k: nat, t: nat)
    requires Typed(c, s) && Typed(c, s') && k <= Count(c)
    requires forall u | 0 <= u < Count(c) :: ThreadLeft(c, s', u) <= ThreadLeft(c, s, u)
    ensures ThreadsLeft(c, s', k) <= ThreadsLeft(c, s, k)
    ensures t < k && ThreadLeft(c, s', t) < ThreadLeft(c, s, t) ==> ThreadsLeft(c, s', k) < ThreadsLeft(c, s, k)
  {
    if k == 0 {
    } else {
      ThreadsLeftLess(c, s, s', k - 1, t);
    }
    hide ThreadLeft;
  }

  lemma MainLess(c: Config, s: State, s': State)
    requires Typed(c, s) && c.incr > 0 && MainStep(c, s) == Some(s')
    ensures Typed(c, s') && MainLeft(c, s'.main) < MainLeft(c, s.main)
  {
    if s.main.MTest? { AheadNext(c, s.main.i); }
    hide Count, Ahead;
  }

  lemma AheadNext(c: Config, i: nat)
    requires c.incr > 0
    ensures Ahead(c, i) == if i > c.max then Count(c) + 2 else 2 * Count(c) + 4 + Ahead(c, i + c.incr)
  {
  }

  lemma MainThreadLess(c: Config, s: State, s': State, t: nat)
    requires Inv(c, s) && c.incr > 0 && MainStep(c, s) == Some(s') && Typed(c, s') && t < Count(c)
    ensures ThreadLeft(c, s', t) <= ThreadLeft(c, s, t)
  {
    assert Thread(c, s, t);
    hide Count, Inv;
  }

  lemma HaltLess(c: Config, s: State, s': State)
    requires Typed(c, s) && HaltStep(s) == Some(s')
    ensures Typed(c, s') && MainLeft(c, s'.main) < MainLeft(c, s.main)
    ensures forall t | 0 <= t < Count(c) :: ThreadLeft(c, s', t) <= ThreadLeft(c, s, t)
  {
    hide Count, Ahead, Starts;
  }

  lemma IoLess(c: Config, s: State, t: nat, s': State)
    requires Typed(c, s) && t < Count(c) && IoStep(c, s, t) == Some(s')
    ensures Typed(c, s') && s'.main == s.main
    ensures forall u | 0 <= u < Count(c) && u != t :: ThreadLeft(c, s', u) == ThreadLeft(c, s, u)
    ensures ThreadLeft(c, s', t) < ThreadLeft(c, s, t)
  {
    hide Count;
    hide StartsLeft;
  }

  lemma StepLess(c: Config, s: State, a: Actor, s': State)
    requires Inv(c, s) && c.incr > 0 && Step(c, s, a) == Some(s')
    ensures Typed(c, s') && Left(c, s') < Left(c, s)
  {
    match a {
      case Main =>
        MainLess(c, s, s');
        forall t | 0 <= t < Count(c) ensures ThreadLeft(c, s', t) <= ThreadLeft(c, s, t) {
          MainThreadLess(c, s, s', t);
        }
        hide Count, ThreadLeft, MainLeft;
        ThreadsLeftLess(c, s, s', Count(c), 0);
      case Halt =>
        HaltLess(c, s, s');
        hide Count, ThreadLeft, MainLeft;
        ThreadsLeftLess(c, s, s', Count(c), 0);
      case Io(t) =>
        IoLess(c, s, t, s');
        hide Count, ThreadLeft, MainLeft;
        ThreadsLeftLess(c, s, s', Count(c), t);
    }
  }

  lemma {:induction false} RunLess(c: Config, run: seq<State>, i: nat)
    requires Run(c, run) && c.incr > 0 && i < |run|
    ensures Typed(c, run[i]) && i + Left(c, run[i]) <= Left(c, run[0])
  {
    if i == 0 {
    } else {
      RunLess(c, run, i - 1);
      RunInv(c, run, i - 1);
      assert Next(c, run[i - 1], run[i - 1 + 1]);
      var a :| Step(c, run[i - 1], a) == Some(run[i]);
      StepLess(c, run[i - 1], a, run[i]);
    }
  }

  /**
   With a positive increment every run is bounded; with NeverDeadlocks, every run that is
   carried on goes through all its stages and exits.
   */
  lemma RunsEnd(c: Config, run: seq<State>)
    requires Run(c, run) && c.incr > 0
    ensures Typed(c, run[0]) && |run| <= 1 + Left(c, run[0])
  {
    RunLess(c, run, |run| - 1);
  }
}
