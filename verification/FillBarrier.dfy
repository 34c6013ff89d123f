/**
 The two-level start and stop barrier of iofill: main, one thread for every file, and the
 io threads of each file, synchronised by counting semaphores that start at zero. One step
 is one thread's next semaphore operation, thread creation or loop exit.
 */
module FillBarrier {
  import opened Options

  datatype Config = Config(nfiles: nat, nthreads: nat)

  datatype MainPc =
    | MCreate(i: nat) | MWaitReady(i: nat) | MPost(i: nat) | MWaitDone(i: nat)
    | MReport | MEnd

  datatype FilePc =
    | FNone | FCreate(j: nat) | FWaitReady(j: nat) | FPostReady | FWaitStart
    | FPost(j: nat) | FWaitDone(j: nat) | FPostDone | FEnd

  datatype IoPc = INone | IPostReady | IWaitStart | IRunning | IPostDone | IEnd

  /** An io thread is named by its file and its number. */
  type Io = (nat, nat)

  datatype State = State(
    main: MainPc, files: seq<FilePc>, ios: map<Io, IoPc>,
    fstop: seq<nat>, fstart: seq<nat>,       // the semaphores of the file threads
    stop: map<Io, nat>, start: map<Io, nat>) // and of the io threads

  datatype Actor = Main | FileThread(f: nat) | IoThread(f: nat, j: nat)

  predicate Has(c: Config, io: Io) {
    io.0 < c.nfiles && io.1 < c.nthreads
  }

  predicate Typed(c: Config, s: State) {
    && |s.files| == |s.fstop| == |s.fstart| == c.nfiles
    && IosTyped(c, s)
  }

  predicate IosTyped(c: Config, s: State) {
    forall f, j | 0 <= f < c.nfiles && 0 <= j < c.nthreads ::
      (f, j) in s.ios && (f, j) in s.stop && (f, j) in s.start
  }

  ghost predicate Init(c: Config, s: State) {
    && Typed(c, s) && s.main == MCreate(0)
    && (forall f | 0 <= f < c.nfiles :: s.files[f] == FNone && s.fstop[f] == 0 && s.fstart[f] == 0)
    && (forall f, j | 0 <= f < c.nfiles && 0 <= j < c.nthreads ::
          s.ios[(f, j)] == INone && s.stop[(f, j)] == 0 && s.start[(f, j)] == 0)
  }

  // ---------------------------------------------------------------- the three programs

  /** runtest; `None` when it is blocked or has ended. */
  function MainStep(c: Config, s: State): Option<State>
    requires Typed(c, s)
  {
    match s.main
    case MCreate(i) =>
      if i < c.nfiles
      then Some(s.(main := MCreate(i + 1), files := s.files[i := FCreate(0)]))
      else Some(s.(main := MWaitReady(0)))
    case MWaitReady(i) =>
      if i >= c.nfiles then Some(s.(main := MPost(0)))
      else if s.fstop[i] == 0 then None
      else Some(s.(main := MWaitReady(i + 1), fstop := s.fstop[i := s.fstop[i] - 1]))
    case MPost(i) =>
      if i < c.nfiles
      then Some(s.(main := MPost(i + 1), fstart := s.fstart[i := s.fstart[i] + 1]))
      else Some(s.(main := MWaitDone(0)))
    case MWaitDone(i) =>
      if i >= c.nfiles then Some(s.(main := MReport))
      else if s.fstop[i] == 0 then None
      else Some(s.(main := MWaitDone(i + 1), fstop := s.fstop[i := s.fstop[i] - 1]))
    case MReport => Some(s.(main := MEnd))
    case MEnd => None
  }

  /** file_thread. */
  function FileStep(c: Config, s: State, f: nat): Option<State>
    requires Typed(c, s) && f < c.nfiles
  {
    match s.files[f]
    case FNone => None
    case FCreate(j) =>
      if j < c.nthreads
      then Some(s.(files := s.files[f := FCreate(j + 1)], ios := s.ios[(f, j) := IPostReady]))
      else Some(s.(files := s.files[f := FWaitReady(0)]))
    case FWaitReady(j) =>
      if j >= c.nthreads then Some(s.(files := s.files[f := FPostReady]))
      else if s.stop[(f, j)] == 0 then None
      else Some(s.(files := s.files[f := FWaitReady(j + 1)], stop := s.stop[(f, j) := s.stop[(f, j)] - 1]))
    case FPostReady =>
      Some(s.(files := s.files[f := FWaitStart], fstop := s.fstop[f := s.fstop[f] + 1]))
    case FWaitStart =>
      if s.fstart[f] == 0 then None
      else Some(s.(files := s.files[f := FPost(0)], fstart := s.fstart[f := s.fstart[f] - 1]))
    case FPost(j) =>
      if j < c.nthreads
      then Some(s.(files := s.files[f := FPost(j + 1)], start := s.start[(f, j) := s.start[(f, j)] + 1]))
      else Some(s.(files := s.files[f := FWaitDone(0)]))
    case FWaitDone(j) =>
      if j >= c.nthreads then Some(s.(files := s.files[f := FPostDone]))
      else if s.stop[(f, j)] == 0 then None
      else Some(s.(files := s.files[f := FWaitDone(j + 1)], stop := s.stop[(f, j) := s.stop[(f, j)] - 1]))
    case FPostDone =>
      Some(s.(files := s.files[f := FEnd], fstop := s.fstop[f := s.fstop[f] + 1]))
    case FEnd => None
  }

  /** io_thread, with its whole claim loop as the one step out of `IRunning`. */
  function IoStep(c: Config, s: State, io: Io): Option<State>
    requires Typed(c, s) && Has(c, io)
  {
    match s.ios[io]
    case INone => None
    case IPostReady =>
      Some(s.(ios := s.ios[io := IWaitStart], stop := s.stop[io := s.stop[io] + 1]))
    case IWaitStart =>
      if s.start[io] == 0 then None
      else Some(s.(ios := s.ios[io := IRunning], start := s.start[io := s.start[io] - 1]))
    case IRunning => Some(s.(ios := s.ios[io := IPostDone]))
    case IPostDone =>
      Some(s.(ios := s.ios[io := IEnd], stop := s.stop[io := s.stop[io] + 1]))
    case IEnd => None
  }

  function Step(c: Config, s: State, a: Actor): Option<State>
    requires Typed(c, s)
  {
    match a
    case Main => MainStep(c, s)
    case FileThread(f) => if f < c.nfiles then FileStep(c, s, f) else None
    case IoThread(f, j) => if Has(c, (f, j)) then IoStep(c, s, (f, j)) else None
  }

  ghost predicate Next(c: Config, s: State, s': State) {
    Typed(c, s) && exists a :: Step(c, s, a) == Some(s')
  }

  ghost predicate Run(c: Config, run: seq<State>) {
    && run != [] && Init(c, run[0])
    && forall i | 0 <= i < |run| - 1 :: Next(c, run[i], run[i + 1])
  }

  // ---------------------------------------------------------------- semaphore operations done so far

  function MainWaits(m: MainPc, f: nat): nat {
    match m
    case MCreate(_) => 0
    case MWaitReady(i) => if f < i then 1 else 0
    case MPost(_) => 1
    case MWaitDone(i) => if f < i then 2 else 1
    case _ => 2
  }

  function MainPosts(m: MainPc, f: nat): nat {
    match m
    case MCreate(_) => 0
    case MWaitReady(_) => 0
    case MPost(i) => if f < i then 1 else 0
    case _ => 1
  }

  function FilePosts(p: FilePc): nat {
    match p
    case FEnd => 2
    case FWaitStart => 1
    case FPost(_) => 1
    case FWaitDone(_) => 1
    case FPostDone => 1
    case _ => 0
  }

  function FileStarts(p: FilePc): nat {
    match p
    case FPost(_) => 1
    case FWaitDone(_) => 1
    case FPostDone => 1
    case FEnd => 1
    case _ => 0
  }

  /** How often the file thread has waited for its io thread `j`. */
  function FileWaits(p: FilePc, j: nat): nat {
    match p
    case FNone => 0
    case FCreate(_) => 0
    case FWaitReady(k) => if j < k then 1 else 0
    case FWaitDone(k) => if j < k then 2 else 1
    case FPostDone => 2
    case FEnd => 2
    case _ => 1
  }

  /** How often the file thread has released its io thread `j`. */
  function FileReleases(p: FilePc, j: nat): nat {
    match p
    case FPost(k) => if j < k then 1 else 0
    case FWaitDone(_) => 1
    case FPostDone => 1
    case FEnd => 1
    case _ => 0
  }

  function IoPosts(p: IoPc): nat {
    match p
    case INone => 0
    case IPostReady => 0
    case IEnd => 2
    case _ => 1
  }

  function IoStarts(p: IoPc): nat {
    match p
    case IRunning => 1
    case IPostDone => 1
    case IEnd => 1
    case _ => 0
  }

  /** Each semaphore holds the posts to it less the waits on it, and only created threads run. */
  ghost predicate Inv(c: Config, s: State) {
    && Typed(c, s) && MainTyped(c, s.main)
    && (forall f | 0 <= f < c.nfiles :: FileInv(c, s, f))
    && (forall f, j | 0 <= f < c.nfiles && 0 <= j < c.nthreads :: IoInv(c, s, f, j))
  }

  predicate MainTyped(c: Config, m: MainPc) {
    match m
    case MCreate(i) => i <= c.nfiles
    case MWaitReady(i) => i <= c.nfiles
    case MPost(i) => i <= c.nfiles
    case MWaitDone(i) => i <= c.nfiles
    case _ => true
  }

  predicate FileTyped(c: Config, p: FilePc) {
    match p
    case FCreate(j) => j <= c.nthreads
    case FWaitReady(j) => j <= c.nthreads
    case FPost(j) => j <= c.nthreads
    case FWaitDone(j) => j <= c.nthreads
    case _ => true
  }

  predicate FileInv(c: Config, s: State, f: nat)
    requires Typed(c, s) && f < c.nfiles
  {
    && FileTyped(c, s.files[f])
    && s.fstop[f] + MainWaits(s.main, f) == FilePosts(s.files[f])
    && s.fstart[f] + FileStarts(s.files[f]) == MainPosts(s.main, f)
    && (s.files[f] == FNone <==> s.main.MCreate? && f >= s.main.i)
  }

  predicate IoInv(c: Config, s: State, f: nat, j: nat)
    requires Typed(c, s) && f < c.nfiles && j < c.nthreads
  {
    var p, io := s.files[f], (f, j);
    && s.stop[io] + FileWaits(p, j) == IoPosts(s.ios[io])
    && s.start[io] + IoStarts(s.ios[io]) == FileReleases(p, j)
    && (s.ios[io] == INone <==> p == FNone || (p.FCreate? && j >= p.j))
  }

  lemma StepInv(c: Config, s: State, a: Actor, s': State)
    requires Inv(c, s) && Step(c, s, a) == Some(s')
    ensures Inv(c, s')
  {
    match a
    case Main => MainInv(c, s, s');
    case FileThread(f) => FileStepInv(c, s, f, s');
    case IoThread(f, j) => IoStepInv(c, s, f, j, s');
  }

  lemma MainInv(c: Config, s: State, s': State)
    requires Inv(c, s) && MainStep(c, s) == Some(s')
    ensures Inv(c, s')
  {
    forall f | 0 <= f < c.nfiles ensures FileInv(c, s', f) {
      MainStepFile(c, s, s', f);
    }
    forall f, j | 0 <= f < c.nfiles && 0 <= j < c.nthreads ensures IoInv(c, s', f, j) {
      assert IoInv(c, s, f, j) && FileInv(c, s, f);
      hide MainWaits, MainPosts, FilePosts, FileStarts;
    }
    hide FileInv, IoInv, IosTyped;
  }

  lemma MainStepFile(c: Config, s: State, s': State, f: nat)
    requires Inv(c, s) && MainStep(c, s) == Some(s') && Typed(c, s') && f < c.nfiles
    ensures FileInv(c, s', f)
  {
    assert FileInv(c, s, f);
    MainBalance(c, s, s', f);
    MainFile(c, s, s', f);
    hide Inv, IosTyped, MainStep, MainWaits, MainPosts;
  }

  /** A step of main keeps the accounts of its own waits and posts. */
  lemma MainBalance(c: Config, s: State, s': State, f: nat)
    requires Typed(c, s) && MainTyped(c, s.main) && MainStep(c, s) == Some(s') && Typed(c, s') && f < c.nfiles
    ensures s'.fstop[f] + MainWaits(s'.main, f) == s.fstop[f] + MainWaits(s.main, f)
    ensures s'.fstart[f] + MainPosts(s.main, f) == s.fstart[f] + MainPosts(s'.main, f)
  {
    hide IosTyped;
  }

  /** It changes a file thread only by creating it. */
  lemma MainFile(c: Config, s: State, s': State, f: nat)
    requires Typed(c, s) && MainTyped(c, s.main) && MainStep(c, s) == Some(s') && Typed(c, s') && f < c.nfiles
    requires s.files[f] == FNone <==> s.main.MCreate? && f >= s.main.i
    ensures s'.files[f] == s.files[f] || (s.files[f] == FNone && s'.files[f] == FCreate(0))
    ensures s'.files[f] == FNone <==> s'.main.MCreate? && f >= s'.main.i
  {
    hide IosTyped;
  }

  lemma FileStepInv(c: Config, s: State, f: nat, s': State)
    requires Inv(c, s) && f < c.nfiles && FileStep(c, s, f) == Some(s')
    ensures Inv(c, s')
  {
    FileStepTyped(c, s, f, s');
    forall g | 0 <= g < c.nfiles ensures FileInv(c, s', g) {
      FileStepFile(c, s, f, s', g);
    }
    forall g, j | 0 <= g < c.nfiles && 0 <= j < c.nthreads ensures IoInv(c, s', g, j) {
      FileStepIo(c, s, f, s', g, j);
    }
    hide Typed, FileStep, FileInv, IoInv;
  }

  lemma FileStepTyped(c: Config, s: State, f: nat, s': State)
    requires Typed(c, s) && f < c.nfiles && FileStep(c, s, f) == Some(s')
    ensures Typed(c, s') && s'.main == s.main
  {
  }

  lemma FileStepFile(c: Config, s: State, f: nat, s': State, g: nat)
    requires Inv(c, s) && f < c.nfiles && FileStep(c, s, f) == Some(s')
    requires g < c.nfiles && Typed(c, s')
    ensures FileInv(c, s', g)
  {
    assert FileInv(c, s, g) && FileInv(c, s, f);
    FileStepTyped(c, s, f, s');
    if g == f {
      FileStepSelf(c, s, f, s');
    } else {
      FileStepOther(c, s, f, s', g);
      hide FileStep;
    }
    hide Inv, Typed;
  }

  lemma FileStepSelf(c: Config, s: State, f: nat, s': State)
    requires Typed(c, s) && f < c.nfiles && FileStep(c, s, f) == Some(s')
    requires FileInv(c, s, f) && Typed(c, s')
    ensures FileInv(c, s', f)
  {
    hide MainWaits, MainPosts;
  }

  /** A file thread leaves the state of the other file threads alone. */
  lemma FileStepOther(c: Config, s: State, f: nat, s': State, g: nat)
    requires Typed(c, s) && f < c.nfiles && FileStep(c, s, f) == Some(s') && Typed(c, s')
    requires g < c.nfiles && g != f
    ensures s'.files[g] == s.files[g] && s'.fstop[g] == s.fstop[g] && s'.fstart[g] == s.fstart[g]
  {
    hide IosTyped;
  }

  lemma FileStepIo(c: Config, s: State, f: nat, s': State, g: nat, j: nat)
    requires Inv(c, s) && f < c.nfiles && FileStep(c, s, f) == Some(s')
    requires g < c.nfiles && j < c.nthreads && Typed(c, s')
    ensures IoInv(c, s', g, j)
  {
    assert IoInv(c, s, g, j) && FileInv(c, s, f);
    hide Inv;
    if g == f {
      hide FileInv, MainWaits, MainPosts, FilePosts, FileStarts;
    } else {
      FileStepOther(c, s, f, s', g);
      FileStepOtherIo(c, s, f, s', g, j);
      hide FileStep;
    }
  }

  lemma FileStepOtherIo(c: Config, s: State, f: nat, s': State, g: nat, j: nat)
    requires Typed(c, s) && f < c.nfiles && FileStep(c, s, f) == Some(s') && Typed(c, s')
    requires g < c.nfiles && g != f && j < c.nthreads
    ensures s'.ios[(g, j)] == s.ios[(g, j)]
    ensures s'.stop[(g, j)] == s.stop[(g, j)] && s'.start[(g, j)] == s.start[(g, j)]
  {
  }

  lemma IoStepInv(c: Config, s: State, f: nat, j: nat, s': State)
    requires Inv(c, s) && Has(c, (f, j)) && IoStep(c, s, (f, j)) == Some(s')
    ensures Inv(c, s')
  {
    forall g | 0 <= g < c.nfiles ensures FileInv(c, s', g) {
      assert FileInv(c, s, g);
    }
    forall g, k | 0 <= g < c.nfiles && 0 <= k < c.nthreads ensures IoInv(c, s', g, k) {
      assert IoInv(c, s, g, k);
    }
  }

  /** Every state of every run keeps the semaphore accounting. */
  lemma {:induction false} RunInv(c: Config, run: seq<State>, i: nat)
    requires Run(c, run) && i < |run|
    ensures Inv(c, run[i])
  {
    if i == 0 {
    } else {
      RunInv(c, run, i - 1);
      assert Next(c, run[i - 1], run[i - 1 + 1]);
      var a :| Step(c, run[i - 1], a) == Some(run[i]);
      StepInv(c, run[i - 1], a, run[i]);
    }
  }

  // ---------------------------------------------------------------- what the barrier guarantees

  /** An io thread that has passed its start wait proves that main has released its file. */
  lemma ReleasedByMain(c: Config, s: State, f: nat, j: nat)
    requires Inv(c, s) && f < c.nfiles && j < c.nthreads && IoStarts(s.ios[(f, j)]) == 1
    ensures MainPosts(s.main, f) == 1
  {
    assert IoInv(c, s, f, j) && FileInv(c, s, f);
  }

  /** Once main has collected a file's report, every io thread of it has reported. */
  lemma ReadyAtMain(c: Config, s: State, f: nat, j: nat)
    requires Inv(c, s) && f < c.nfiles && j < c.nthreads
    ensures MainWaits(s.main, f) >= 1 ==> IoPosts(s.ios[(f, j)]) >= 1
    ensures MainWaits(s.main, f) >= 2 ==> s.ios[(f, j)] == IEnd
  {
    assert IoInv(c, s, f, j) && FileInv(c, s, f);
  }

  /** No io thread passes its start wait before every io thread of every file has reported ready. */
  lemma StartsTogether(c: Config, run: seq<State>, i: nat, f: nat, j: nat, g: nat, k: nat)
    requires Run(c, run) && i < |run|
    requires f < c.nfiles && j < c.nthreads && g < c.nfiles && k < c.nthreads
    requires Typed(c, run[i]) && IoStarts(run[i].ios[(f, j)]) == 1
    ensures IoPosts(run[i].ios[(g, k)]) >= 1
  {
    RunInv(c, run, i);
    ReleasedByMain(c, run[i], f, j);
    ReadyAtMain(c, run[i], g, k);
  }

  /** The report is written only when every io thread of every file has finished. */
  lemma ReportAfterAll(c: Config, run: seq<State>, i: nat, g: nat, k: nat)
    requires Run(c, run) && i < |run| && g < c.nfiles && k < c.nthreads
    requires run[i].main == MReport || run[i].main == MEnd
    ensures Typed(c, run[i]) && run[i].ios[(g, k)] == IEnd
  {
    RunInv(c, run, i);
    ReadyAtMain(c, run[i], g, k);
  }

  /** Although `stop` is used for both phases, no semaphore ever holds more than one. */
  lemma SemaphoresAreBinary(c: Config, run: seq<State>, i: nat, f: nat, j: nat)
    requires Run(c, run) && i < |run| && f < c.nfiles && j < c.nthreads
    ensures Typed(c, run[i])
    ensures run[i].fstop[f] <= 1 && run[i].fstart[f] <= 1
    ensures run[i].stop[(f, j)] <= 1 && run[i].start[(f, j)] <= 1
  {
    RunInv(c, run, i);
    assert IoInv(c, run[i], f, j) && FileInv(c, run[i], f);
  }

  // ---------------------------------------------------------------- progress

  predicate Finished(s: State) {
    s.main == MEnd
  }

  /** Unless main has ended, some thread can take a step: the barrier never deadlocks. */
  lemma NeverDeadlocks(c: Config, run: seq<State>) returns (a: Actor)
    requires Run(c, run) && !Finished(run[|run| - 1])
    ensures Typed(c, run[|run| - 1]) && Step(c, run[|run| - 1], a).Some?
  {
    var s := run[|run| - 1];
    RunInv(c, run, |run| - 1);
    if MainStep(c, s).Some? {
      a := Main;
    } else {
      a := UnblockFile(c, s, s.main.i);
    }
  }

  lemma UnblockFile(c: Config, s: State, f: nat) returns (a: Actor)
    requires Inv(c, s) && f < c.nfiles && s.fstop[f] == 0
    requires s.main == MWaitReady(f) || s.main == MWaitDone(f)
    ensures Step(c, s, a).Some?
  {
    assert FileInv(c, s, f);
    if FileStep(c, s, f).Some? {
      a := FileThread(f);
    } else {
      var j := s.files[f].j;
      assert IoInv(c, s, f, j);
      a := IoThread(f, j);
    }
  }

  // ---------------------------------------------------------------- every run ends

  function MainRank(c: Config, m: MainPc): nat {
    var n := c.nfiles + 1;
    match m
    case MCreate(i) => i
    case MWaitReady(i) => n + i
    case MPost(i) => 2 * n + i
    case MWaitDone(i) => 3 * n + i
    case MReport => 4 * n
    case MEnd => 4 * n + 1
  }

  function FileRank(c: Config, p: FilePc): nat {
    var t := c.nthreads;
    match p
    case FNone => 0
    case FCreate(j) => 1 + j
    case FWaitReady(j) => t + 2 + j
    case FPostReady => 2 * t + 3
    case FWaitStart => 2 * t + 4
    case FPost(j) => 2 * t + 5 + j
    case FWaitDone(j) => 3 * t + 6 + j
    case FPostDone => 4 * t + 7
    case FEnd => 4 * t + 8
  }

  function IoRank(p: IoPc): nat {
    match p
    case INone => 0
    case IPostReady => 1
    case IWaitStart => 2
    case IRunning => 3
    case IPostDone => 4
    case IEnd => 5
  }

  function IosDone(c: Config, s: State, f: nat, k: nat): nat
    requires Typed(c, s) && f < c.nfiles && k <= c.nthreads
  {
    if k == 0 then 0 else IosDone(c, s, f, k - 1) + IoRank(s.ios[(f, k - 1)])
  }

  function FilesDone(c: Config, s: State, n: nat): nat
    requires Typed(c, s) && n <= c.nfiles
  {
    if n == 0 then 0
    else FilesDone(c, s, n - 1) + FileRank(c, s.files[n - 1]) + IosDone(c, s, n - 1, c.nthreads)
  }

  /** How far all threads together have come. */
  function Done(c: Config, s: State): nat
    requires Typed(c, s)
  {
    MainRank(c, s.main) + FilesDone(c, s, c.nfiles)
  }

  /** No thread goes back. */
  ghost predicate Forward(c: Config, s: State, s': State)
    requires Typed(c, s) && Typed(c, s')
  {
    && MainRank(c, s.main) <= MainRank(c, s'.main)
    && (forall f | 0 <= f < c.nfiles :: FileRank(c, s.files[f]) <= FileRank(c, s'.files[f]))
    && (forall f, j | 0 <= f < c.nfiles && 0 <= j < c.nthreads ::
          IoRank(s.ios[(f, j)]) <= IoRank(s'.ios[(f, j)]))
  }

  lemma {:induction false} IosForward(c: Config, s: State, s': State, f: nat, k: nat)
    requires Typed(c, s) && Typed(c, s') && Forward(c, s, s') && f < c.nfiles && k <= c.nthreads
    ensures IosDone(c, s, f, k) <= IosDone(c, s', f, k)
    ensures (exists j | 0 <= j < k :: IoRank(s.ios[(f, j)]) < IoRank(s'.ios[(f, j)])) ==>
      IosDone(c, s, f, k) < IosDone(c, s', f, k)
  {
    if k == 0 {
    } else {
      IosForward(c, s, s', f, k - 1);
    }
  }

  lemma {:induction false} FilesForward(c: Config, s: State, s': State, n: nat)
    requires Typed(c, s) && Typed(c, s') && Forward(c, s, s') && n <= c.nfiles
    ensures FilesDone(c, s, n) <= FilesDone(c, s', n)
    ensures (exists f | 0 <= f < n :: FileRank(c, s.files[f]) < FileRank(c, s'.files[f])) ==>
      FilesDone(c, s, n) < FilesDone(c, s', n)
    ensures (exists f, j | 0 <= f < n && 0 <= j < c.nthreads :: IoRank(s.ios[(f, j)]) < IoRank(s'.ios[(f, j)])) ==>
      FilesDone(c, s, n) < FilesDone(c, s', n)
  {
    if n == 0 {
    } else {
      FilesForward(c, s, s', n - 1);
      IosForward(c, s, s', n - 1, c.nthreads);
      hide FileRank, IoRank, IosDone, IosTyped;
    }
  }

  lemma MainForward(c: Config, s: State, s': State)
    requires Inv(c, s) && MainStep(c, s) == Some(s') && Typed(c, s')
    ensures Forward(c, s, s') && MainRank(c, s.main) < MainRank(c, s'.main)
  {
    forall f | 0 <= f < c.nfiles ensures FileRank(c, s.files[f]) <= FileRank(c, s'.files[f]) {
      assert FileInv(c, s, f);
      MainFile(c, s, s', f);
      hide MainStep, MainRank, Inv, IosTyped;
    }
    hide Inv, IosTyped, FileRank, IoRank;
  }

  lemma FileForward(c: Config, s: State, f: nat, s': State)
    requires Inv(c, s) && f < c.nfiles && FileStep(c, s, f) == Some(s') && Typed(c, s')
    ensures Forward(c, s, s') && FileRank(c, s.files[f]) < FileRank(c, s'.files[f])
  {
    FileStepTyped(c, s, f, s');
    assert FileRank(c, s.files[f]) < FileRank(c, s'.files[f]) by {
      assert FileInv(c, s, f);
    }
    forall g | 0 <= g < c.nfiles ensures FileRank(c, s.files[g]) <= FileRank(c, s'.files[g]) {
      if g != f { FileStepOther(c, s, f, s', g); }
    }
    forall g, j | 0 <= g < c.nfiles && 0 <= j < c.nthreads
      ensures IoRank(s.ios[(g, j)]) <= IoRank(s'.ios[(g, j)])
    {
      FileForwardIo(c, s, f, s', g, j);
    }
    hide FileStep, FileRank, IoRank, Inv, IosTyped;
  }

  lemma FileForwardIo(c: Config, s: State, f: nat, s': State, g: nat, j: nat)
    requires Inv(c, s) && f < c.nfiles && FileStep(c, s, f) == Some(s') && Typed(c, s')
    requires g < c.nfiles && j < c.nthreads
    ensures IoRank(s.ios[(g, j)]) <= IoRank(s'.ios[(g, j)])
  {
    assert IoInv(c, s, g, j);
    hide Inv;
  }

  lemma IoForward(c: Config, s: State, f: nat, j: nat, s': State)
    requires Inv(c, s) && Has(c, (f, j)) && IoStep(c, s, (f, j)) == Some(s') && Typed(c, s')
    ensures Forward(c, s, s') && IoRank(s.ios[(f, j)]) < IoRank(s'.ios[(f, j)])
  {
  }

  lemma MainStays(c: Config, s: State, s': State)
    requires Typed(c, s) && Typed(c, s') && Forward(c, s, s')
    ensures MainRank(c, s.main) <= MainRank(c, s'.main)
  {
  }

  /** Every step brings the whole program forward. */
  lemma StepForward(c: Config, s: State, a: Actor, s': State)
    requires Inv(c, s) && Step(c, s, a) == Some(s')
    ensures Typed(c, s') && Done(c, s) < Done(c, s')
  {
    StepInv(c, s, a, s');
    hide Inv, Forward, MainStep, FileStep, IoStep, MainRank, FileRank, IoRank;
    match a {
      case Main =>
        MainForward(c, s, s');
        FilesForward(c, s, s', c.nfiles);
      case FileThread(f) =>
        FileForward(c, s, f, s');
        MainStays(c, s, s');
        FilesForward(c, s, s', c.nfiles);
      case IoThread(f, j) =>
        IoForward(c, s, f, j, s');
        MainStays(c, s, s');
        FilesForward(c, s, s', c.nfiles);
    }
  }

  lemma {:induction false} IosBound(c: Config, s: State, f: nat, k: nat)
    requires Typed(c, s) && f < c.nfiles && k <= c.nthreads
    ensures IosDone(c, s, f, k) <= 5 * k
  {
    if k == 0 {
    } else {
      IosBound(c, s, f, k - 1);
    }
  }

  lemma {:induction false} FilesBound(c: Config, s: State, n: nat)
    requires Inv(c, s) && n <= c.nfiles
    ensures FilesDone(c, s, n) <= n * (9 * c.nthreads + 8)
  {
    if n == 0 {
    } else {
      FilesBound(c, s, n - 1);
      IosBound(c, s, n - 1, c.nthreads);
      assert FileInv(c, s, n - 1);
      assert n * (9 * c.nthreads + 8) == (n - 1) * (9 * c.nthreads + 8) + (9 * c.nthreads + 8);
    }
  }

  lemma {:induction false} RunForward(c: Config, run: seq<State>, i: nat)
    requires Run(c, run) && i < |run|
    ensures Typed(c, run[i]) && i <= Done(c, run[i])
  {
    RunInv(c, run, i);
    if i == 0 {
    } else {
      RunForward(c, run, i - 1);
      RunInv(c, run, i - 1);
      assert Next(c, run[i - 1], run[i - 1 + 1]);
      var a :| Step(c, run[i - 1], a) == Some(run[i]);
      StepForward(c, run[i - 1], a, run[i]);
    }
  }

  /**
   Every run is bounded; with NeverDeadlocks, every run that is carried on reaches the
   report and the end of the program.
   */
  lemma RunsEnd(c: Config, run: seq<State>)
    requires Run(c, run)
    ensures |run| <= c.nfiles * (9 * c.nthreads + 8) + 4 * c.nfiles + 6
  {
    var s := run[|run| - 1];
    RunForward(c, run, |run| - 1);
    RunInv(c, run, |run| - 1);
    FilesBound(c, s, c.nfiles);
  }
}
