/**
 Stop-the-world injection in iofill. Thread 0 of a file now and then stops its peers, does
 its injected writes and flushes, and lets the peers go on. One step is one access to shared
 memory or to a semaphore, or one whole I/O of the claim loop.
 */
module Injection {
  import opened Options

  /**
   Where a thread is in its loop. `timed` remembers which of the two calls of
   do_write_inject is running: the one on the clock, before the test of `iowait`, or the
   one on the block number, after the claim.
   */
  datatype Pc =
    | Top | Test | Posting | Parked | Claim | Claimed | Work | Exited
    | Stopping(next: nat, timed: bool) | Injecting(timed: bool) | Restarting(next: nat, timed: bool)

  /**
   `left` is how many block numbers can still be granted. `round` counts the injections and
   `posted` holds the round in which a thread last posted `iostop`; the program has neither.
   */
  datatype State = State(
    iowait: bool, left: nat, pcs: seq<Pc>, iostop: seq<nat>, iostart: seq<nat>,
    round: nat, posted: seq<nat>)

  predicate Typed(n: nat, s: State) {
    |s.pcs| == |s.iostop| == |s.iostart| == |s.posted| == n
  }

  ghost predicate Init(n: nat, s: State) {
    && Typed(n, s) && !s.iowait && s.round == 0
    && (forall t | 0 <= t < n :: s.pcs[t] == Top && s.iostop[t] == 0 && s.iostart[t] == 0 && s.posted[t] == 0)
  }

  /** Only thread 0 keeps its injection parameters. */
  predicate Injector(t: nat) {
    t == 0
  }

  function Goto(s: State, t: nat, pc: Pc): State
    requires t < |s.pcs|
  {
    s.(pcs := s.pcs[t := pc])
  }

  /**
   One step of thread `t`, or `None` when it waits for a semaphore or has ended. `choice`
   is what the clock, the block number or the device decides: to inject now, or that an
   I/O of this step stops the run.
   */
  function Step(n: nat, s: State, t: nat, choice: bool): Option<State>
    requires Typed(n, s) && t < n
  {
    match s.pcs[t]
    case Top =>
      if choice && Injector(t)
      then Some(Goto(s, t, Stopping(1, true)).(iowait := true, round := s.round + 1))
      else Some(Goto(s, t, Test))
    case Test => Some(Goto(s, t, if s.iowait then Posting else Claim))
    case Posting =>
      Some(Goto(s, t, Parked).(iostop := s.iostop[t := s.iostop[t] + 1], posted := s.posted[t := s.round]))
    case Parked =>
      if s.iostart[t] == 0 then None
      else Some(Goto(s, t, Claim).(iostart := s.iostart[t := s.iostart[t] - 1]))
    case Claim =>
      if s.left == 0 then Some(Goto(s, t, Exited))
      else Some(Goto(s, t, Claimed).(left := s.left - 1))
    case Claimed =>
      if choice && Injector(t)
      then Some(Goto(s, t, Stopping(1, false)).(iowait := true, round := s.round + 1))
      else Some(Goto(s, t, Work))
    case Work => Some(Goto(s, t, Top).(left := if choice then 0 else s.left))
    case Exited => None
    case Stopping(i, timed) =>
      if i >= n then Some(Goto(s, t, Injecting(timed)))
      else if s.iostop[i] == 0 then None
      else Some(Goto(s, t, Stopping(i + 1, timed)).(iostop := s.iostop[i := s.iostop[i] - 1]))
    case Injecting(timed) =>
      Some(Goto(s, t, Restarting(1, timed)).(iowait := false, left := if choice then 0 else s.left))
    case Restarting(i, timed) =>
      if i >= n then Some(Goto(s, t, if timed then Test else Work))
      else Some(Goto(s, t, Restarting(i + 1, timed)).(iostart := s.iostart[i := s.iostart[i] + 1]))
  }

  ghost predicate Next(n: nat, s: State, s': State) {
    Typed(n, s) && exists t: nat, choice | t < n :: Step(n, s, t, choice) == Some(s')
  }

  ghost predicate Path(n: nat, run: seq<State>) {
    && run != []
    && forall i | 0 <= i < |run| - 1 :: Next(n, run[i], run[i + 1])
  }

  ghost predicate Run(n: nat, run: seq<State>) {
    Path(n, run) && Init(n, run[0])
  }

  // ---------------------------------------------------------------- the invariant

  /** Thread 0 has collected the post of peer `p` and has not released it again. */
  predicate Held(zero: Pc, p: nat) {
    match zero
    case Stopping(i, _) => p < i
    case Injecting(_) => true
    case Restarting(i, _) => p >= i
    case _ => false
  }

  predicate Loop(pc: Pc) {
    !pc.Stopping? && !pc.Injecting? && !pc.Restarting?
  }

  /** What the semaphores of peer `p` hold, given where it and thread 0 are. */
  predicate PeerOk(zero: Pc, round: nat, p: nat, pc: Pc, stop: nat, start: nat, posted: nat) {
    && Loop(pc) && stop + start <= 1
    && (Held(zero, p) ==> pc == Parked && stop == start == 0 && posted == round)
    && (!Held(zero, p) && pc == Parked ==> stop + start == 1)
    && (stop == 1 ==> zero.Stopping? && p >= zero.next && posted == round)
    && (pc != Parked ==> stop == start == 0)
    && (pc == Posting ==> zero.Stopping? && p >= zero.next)
  }

  ghost predicate Inv(n: nat, s: State) {
    && Typed(n, s) && n > 0
    && s.pcs[0] != Posting && s.pcs[0] != Parked
    && (s.pcs[0].Stopping? || s.pcs[0].Restarting? ==> 1 <= s.pcs[0].next <= n)
    && s.iowait == (s.pcs[0].Stopping? || s.pcs[0].Injecting?)
    && (forall p | 1 <= p < n :: Peer(n, s, p))
  }

  predicate Peer(n: nat, s: State, p: nat)
    requires Typed(n, s) && 1 <= p < n
  {
    PeerOk(s.pcs[0], s.round, p, s.pcs[p], s.iostop[p], s.iostart[p], s.posted[p])
  }

  lemma StepInv(n: nat, s: State, t: nat, choice: bool, s': State)
    requires Inv(n, s) && t < n && Step(n, s, t, choice) == Some(s')
    ensures Inv(n, s')
  {
    if t == 0 { ZeroInv(n, s, choice, s'); } else { PeerInv(n, s, t, choice, s'); }
  }

  lemma ZeroInv(n: nat, s: State, choice: bool, s': State)
    requires Inv(n, s) && Step(n, s, 0, choice) == Some(s')
    ensures Inv(n, s')
  {
    forall p | 1 <= p < n ensures Peer(n, s', p) {
      assert Peer(n, s, p);
      if s.pcs[0].Stopping? && s.pcs[0].next < n { assert Peer(n, s, s.pcs[0].next); }
    }
  }

  lemma PeerInv(n: nat, s: State, t: nat, choice: bool, s': State)
    requires Inv(n, s) && 1 <= t < n && Step(n, s, t, choice) == Some(s')
    ensures Inv(n, s')
  {
    assert Peer(n, s, t);
    assert s'.pcs[0] == s.pcs[0] && s'.round == s.round && s'.iowait == s.iowait;
    forall p | 1 <= p < n ensures Peer(n, s', p) {
      assert Peer(n, s, p);
    }
  }

  /** Every state of every run keeps the invariant. */
  lemma {:induction false} RunInv(n: nat, run: seq<State>, i: nat)
    requires n > 0 && Run(n, run) && i < |run|
    ensures Inv(n, run[i])
  {
    if i == 0 {
    } else {
      RunInv(n, run, i - 1);
      assert Next(n, run[i - 1], run[i - 1 + 1]);
      var t: nat, choice :| t < n && Step(n, run[i - 1], t, choice) == Some(run[i]);
      StepInv(n, run[i - 1], t, choice, run[i]);
    }
  }

  // ---------------------------------------------------------------- safety

  /**
   While thread 0 injects, no peer is inside an I/O: each is parked on `iostart`, having
   posted in this very round, and no semaphore holds anything left over.
   */
  lemma InjectionIsAlone(n: nat, run: seq<State>, i: nat, p: nat)
    requires n > 0 && Run(n, run) && i < |run| && 1 <= p < n
    requires Typed(n, run[i]) && run[i].pcs[0].Injecting?
    ensures run[i].pcs[p] == Parked && run[i].posted[p] == run[i].round
    ensures run[i].iostop[p] == 0 && run[i].iostart[p] == 0
  {
    RunInv(n, run, i);
    assert Peer(n, run[i], p);
  }

  /** However many rounds there are, no semaphore ever holds more than one. */
  lemma SemaphoresAreBinary(n: nat, run: seq<State>, i: nat, p: nat)
    requires n > 0 && Run(n, run) && i < |run| && 1 <= p < n
    ensures Typed(n, run[i]) && run[i].iostop[p] + run[i].iostart[p] <= 1
  {
    RunInv(n, run, i);
    assert Peer(n, run[i], p);
  }

  /** The post that thread 0 takes from a peer was made in the current round. */
  lemma PostIsFresh(n: nat, run: seq<State>, i: nat)
    requires n > 0 && Run(n, run) && i < |run|
    requires Typed(n, run[i]) && run[i].pcs[0].Stopping? && run[i].pcs[0].next < n
    requires Step(n, run[i], 0, true).Some?
    ensures run[i].posted[run[i].pcs[0].next] == run[i].round
    ensures run[i].pcs[run[i].pcs[0].next] == Parked
  {
    RunInv(n, run, i);
    assert Peer(n, run[i], run[i].pcs[0].next);
  }

  /** Thread 0 never parks itself. */
  lemma InjectorNeverParks(n: nat, run: seq<State>, i: nat)
    requires n > 0 && Run(n, run) && i < |run|
    ensures Typed(n, run[i]) && run[i].pcs[0] != Posting && run[i].pcs[0] != Parked
  {
    RunInv(n, run, i);
  }

  // ---------------------------------------------------------------- when an injection can start

  /** A peer that has to claim a block number before it tests `iowait` again. */
  predicate Claimer(s: State, p: nat)
    requires p < |s.pcs| == |s.iostart|
  {
    s.pcs[p] == Claim || (s.pcs[p] == Parked && s.iostart[p] == 1)
  }

  function Claimers(n: nat, s: State, i: nat): nat
    requires Typed(n, s) && i <= n
    decreases n - i
  {
    if i == n then 0 else (if Claimer(s, i) then 1 else 0) + Claimers(n, s, i + 1)
  }

  /** No awaited peer has left the loop, and there are block numbers for all that need one. */
  ghost predicate CanGather(n: nat, s: State)
    requires Typed(n, s) && n > 0 && s.pcs[0].Stopping? && s.pcs[0].next <= n
  {
    && (forall p | s.pcs[0].next <= p < n :: s.pcs[p] != Exited)
    && Claimers(n, s, s.pcs[0].next) <= s.left
  }

  lemma {:induction false} ClaimersFrame(n: nat, s: State, s': State, i: nat)
    requires Typed(n, s) && Typed(n, s') && i <= n
    requires forall p | i <= p < n :: Claimer(s, p) == Claimer(s', p)
    ensures Claimers(n, s', i) == Claimers(n, s, i)
    decreases n - i
  {
    if i == n {
    } else {
      ClaimersFrame(n, s, s', i + 1);
    }
  }

  /** When only thread `t` changes, the count changes by what `t` adds. */
  lemma {:induction false} ClaimersChange(n: nat, s: State, s': State, i: nat, t: nat)
    requires Typed(n, s) && Typed(n, s') && i <= t < n
    requires forall p | i <= p < n && p != t :: Claimer(s, p) == Claimer(s', p)
    ensures Claimers(n, s', i) - (if Claimer(s', t) then 1 else 0)
         == Claimers(n, s, i) - (if Claimer(s, t) then 1 else 0)
    decreases n - i
  {
    if i < t {
      ClaimersChange(n, s, s', i + 1, t);
    } else {
      ClaimersFrame(n, s, s', i + 1);
    }
  }

  /** Thread 0 waits in io_stop for peers that can never all post. */
  ghost predicate Stalled(n: nat, s: State) {
    Inv(n, s) && s.pcs[0].Stopping? && !CanGather(n, s)
  }

  lemma StalledStep(n: nat, s: State, t: nat, choice: bool, s': State)
    requires Stalled(n, s) && t < n && Step(n, s, t, choice) == Some(s')
    ensures Stalled(n, s')
  {
    StepInv(n, s, t, choice, s');
    var i := s.pcs[0].next;
    if t == 0 {
      assert i < n;
      assert Peer(n, s, i);
      ClaimersFrame(n, s, s', i + 1);
      assert forall p | i <= p < n && s.pcs[p] == Exited :: s'.pcs[p] == Exited;
    } else {
      assert Peer(n, s, t);
      assert t >= i;
      if p: nat :| i <= p < n && s.pcs[p] == Exited {
        assert s'.pcs[p] == Exited;
      } else {
        ClaimersChange(n, s, s', i, t);
        assert s.pcs[t] == Claim && s.left == 0 ==> s'.pcs[t] == Exited;
      }
    }
  }

  /** Once stalled, thread 0 stays in io_stop for ever. */
  lemma {:induction false} StalledForever(n: nat, path: seq<State>, i: nat)
    requires Path(n, path) && i < |path| && Stalled(n, path[0])
    ensures Stalled(n, path[i])
  {
    if i == 0 {
    } else {
      StalledForever(n, path, i - 1);
      assert Next(n, path[i - 1], path[i - 1 + 1]);
      var t: nat, choice :| t < n && Step(n, path[i - 1], t, choice) == Some(path[i]);
      StalledStep(n, path[i - 1], t, choice, path[i]);
    }
  }

  function Distance(pc: Pc, start: nat): nat {
    match pc
    case Parked => if start == 0 then 0 else 7
    case Posting => 1
    case Test => 2
    case Top => 3
    case Work => 4
    case Claimed => 5
    case Claim => 6
    case _ => 0
  }

  /** The thread whose step brings the gathering forward: the awaited peer, or thread 0 itself. */
  function Mover(n: nat, s: State): nat
    requires Typed(n, s) && n > 0 && s.pcs[0].Stopping?
  {
    var i := s.pcs[0].next;
    if i >= n || s.iostop[i] > 0 then 0 else i
  }

  lemma MoverStep(n: nat, s: State) returns (s': State)
    requires Inv(n, s) && s.pcs[0].Stopping? && CanGather(n, s)
    ensures Step(n, s, Mover(n, s), false) == Some(s') && Inv(n, s')
    ensures s'.pcs[0].Injecting? || (s'.pcs[0].Stopping? && CanGather(n, s'))
    ensures s'.pcs[0].Stopping? ==>
      var i := s.pcs[0].next;
      s'.pcs[0].next == i + 1 ||
      (s'.pcs[0].next == i < n && Distance(s'.pcs[i], s'.iostart[i]) < Distance(s.pcs[i], s.iostart[i]))
  {
    var i := s.pcs[0].next;
    var t := Mover(n, s);
    if i < n { assert Peer(n, s, i); }
    s' := Step(n, s, t, false).value;
    StepInv(n, s, t, false, s');
    if i < n { ClaimersFrame(n, s, s', i + 1); }
  }

  /** If the peers can be gathered, some schedule gathers them. */
  lemma Gather(n: nat, s: State) returns (path: seq<State>)
    requires Inv(n, s) && s.pcs[0].Stopping? && CanGather(n, s)
    ensures Path(n, path) && path[0] == s
    ensures Typed(n, path[|path| - 1]) && path[|path| - 1].pcs[0].Injecting?
    decreases n - s.pcs[0].next,
      if s.pcs[0].next < n then Distance(s.pcs[s.pcs[0].next], s.iostart[s.pcs[0].next]) else 0
  {
    var s' := MoverStep(n, s);
    assert Next(n, s, s');
    if s'.pcs[0].Injecting? {
      path := [s, s'];
    } else {
      var rest := Gather(n, s');
      path := [s] + rest;
      forall i | 0 <= i < |path| - 1 ensures Next(n, path[i], path[i + 1]) {
        if i > 0 { assert Next(n, rest[i - 1], rest[i - 1 + 1]); }
      }
    }
  }

  ghost predicate Reaches(n: nat, s: State) {
    exists path :: Path(n, path) && path[0] == s && LastInjects(n, path)
  }

  ghost predicate LastInjects(n: nat, path: seq<State>)
    requires path != []
  {
    Typed(n, path[|path| - 1]) && n > 0 && path[|path| - 1].pcs[0].Injecting?
  }

  /**
   Waiting in io_stop ends, on some schedule, exactly when no awaited peer has left its
   loop and there are block numbers left for all that must claim one first; otherwise
   thread 0, and with it the whole program, hangs.
   */
  lemma InjectionStartsIff(n: nat, run: seq<State>)
    requires n > 0 && Run(n, run)
    requires Typed(n, run[|run| - 1]) && run[|run| - 1].pcs[0].Stopping?
    requires run[|run| - 1].pcs[0].next <= n
    ensures Reaches(n, run[|run| - 1]) <==> CanGather(n, run[|run| - 1])
  {
    var s := run[|run| - 1];
    RunInv(n, run, |run| - 1);
    if CanGather(n, s) {
      var path := Gather(n, s);
      assert LastInjects(n, path);
    } else if Reaches(n, s) {
      var path :| Path(n, path) && path[0] == s && LastInjects(n, path);
      StalledForever(n, path, |path| - 1);
    }
  }

  // ---------------------------------------------------------------- when an injection can hang

  lemma Extend(n: nat, run: seq<State>, t: nat, choice: bool) returns (run': seq<State>, s: State)
    requires Run(n, run) && t < n && Typed(n, run[|run| - 1]) && Step(n, run[|run| - 1], t, choice).Some?
    ensures Run(n, run') && run'[0] == run[0]
    ensures s == run'[|run'| - 1] && Step(n, run[|run| - 1], t, choice) == Some(s)
  {
    s := Step(n, run[|run| - 1], t, choice).value;
    run' := run + [s];
    assert Next(n, run[|run| - 1], s);
    forall i | 0 <= i < |run'| - 1 ensures Next(n, run'[i], run'[i + 1]) {
      if i < |run| - 1 { assert Next(n, run[i], run[i + 1]); }
    }
  }

  /** All threads are at the top of their loops, and nobody injects. */
  predicate AtTop(n: nat, s: State, left: nat) {
    Typed(n, s) && !s.iowait && s.left == left && forall t | 0 <= t < n :: s.pcs[t] == Top
  }

  /** A schedule in which thread 1 claims and writes `m` numbers. */
  lemma {:induction false} Drain(n: nat, left: nat, m: nat) returns (run: seq<State>, s: State)
    requires n >= 2 && m <= left
    ensures Run(n, run) && run[0].left == left && s == run[|run| - 1] && AtTop(n, s, left - m)
    decreases m
  {
    if m == 0 {
      s := State(false, left, seq(n, _ => Top), seq(n, _ => 0), seq(n, _ => 0), 0, seq(n, _ => 0));
      run := [s];
    } else {
      run, s := Drain(n, left, m - 1);
      run, s := Extend(n, run, 1, false);
      run, s := Extend(n, run, 1, false);
      run, s := Extend(n, run, 1, false);
      run, s := Extend(n, run, 1, false);
      run, s := Extend(n, run, 1, false);
    }
  }

  /** A schedule in which thread 1 takes all numbers and leaves, and then thread 0 injects. */
  lemma LeaveAndInject(n: nat, left: nat) returns (run: seq<State>)
    requires n >= 2
    ensures Run(n, run) && run[0].left == left && Stalled(n, run[|run| - 1])
  {
    var s: State;
    run, s := Drain(n, left, left);
    run, s := Extend(n, run, 1, false);
    run, s := Extend(n, run, 1, false);
    run, s := Extend(n, run, 1, false);
    run, s := Extend(n, run, 0, true);
    RunInv(n, run, |run| - 1);
    assert s.pcs[1] == Exited;
  }

  ghost predicate StallsFrom(n: nat, left: nat, run: seq<State>) {
    Run(n, run) && run[0].left == left && Stalled(n, run[|run| - 1])
  }

  /**
   With any count of block numbers, a file whose thread 0 injects can hang in io_stop
   exactly when it has a second thread.
   */
  lemma InjectionHangsIff(n: nat, left: nat)
    ensures (exists run :: StallsFrom(n, left, run)) <==> n >= 2
  {
    if n >= 2 {
      var run := LeaveAndInject(n, left);
      assert StallsFrom(n, left, run);
    }
    if run :| StallsFrom(n, left, run) {
      var s := run[|run| - 1];
      if n == 1 {
        assert Claimers(1, s, 1) == 0;
        assert CanGather(1, s);
      }
    }
  }
}
