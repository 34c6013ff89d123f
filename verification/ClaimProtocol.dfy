/**
 The claim loop of iofill's io threads as a state machine: any number of threads take
 block numbers from one 64-bit counter by fetch-and-add, issue the writes of each, and a
 failing or late I/O stops the file by adding the total to the counter, also when it is a
 write that thread 0 injects. One step is one atomic action of one thread; a run is any
 interleaving.
 */
module ClaimProtocol {
  import opened Words
  import opened NumberTheory
  import opened FillGeometry

  /** `injections` bounds how many injected writes of thread 0 fail or come late. */
  datatype Config = Config(layout: Layout, totalio: nat, nthreads: nat, injections: nat)

  /** The place of one thread in its loop. */
  datatype Pc =
    | Ready                                       // about to fetch-and-add
    | Issuing(ws: seq<Extent>)                    // the writes of its grant still to issue
    | Finishing(rest: seq<Extent>, stop: bool)    // in io_finish of a write; `stop`: about to add the total
    | Exited

  /**
   `counter` is the shared word. The other fields are history: the grants in the order they
   were given, the writes in the order they were issued, how often the total was added, and
   how often by an injected write.
   */
  datatype State = State(
    counter: nat, threads: seq<Pc>,
    granted: seq<nat>, log: seq<Extent>, stops: nat, injected: nat)

  predicate WellFormed(c: Config) {
    c.layout.rangeoff > 0 && (c.totalio > 0 ==> c.layout.nio > 0)
  }

  /**
   The counter cannot wrap: each grant and each exit adds one, and the total is added at
   most twice by each thread, for a header and for a body, and by injected writes.
   */
  predicate NoWrap(c: Config) {
    c.totalio + c.nthreads + (2 * c.nthreads + c.injections) * c.totalio < TWO64
  }

  predicate Init(c: Config, s: State) {
    && s.counter == 0 && s.granted == [] && s.log == [] && s.stops == s.injected == 0
    && |s.threads| == c.nthreads
    && forall t | 0 <= t < c.nthreads :: s.threads[t] == Ready
  }

  // ---------------------------------------------------------------- atomic actions

  function AfterClaim(c: Config, s: State, t: nat): State
    requires WellFormed(c) && t < |s.threads|
  {
    if s.counter >= c.totalio
    then s.(counter := U64(s.counter + 1), threads := s.threads[t := Exited])
    else s.(counter := U64(s.counter + 1),
            threads := s.threads[t := Issuing(WritesOf(c.layout, s.counter % c.layout.nio))],
            granted := s.granted + [s.counter])
  }

  predicate Claim(c: Config, s: State, s': State, t: nat)
    requires WellFormed(c) && t < |s.threads|
  {
    s.threads[t] == Ready && s' == AfterClaim(c, s, t)
  }

  /** The write is issued; `stop` says whether it failed or came after the end time. */
  predicate Issue(s: State, s': State, t: nat, stop: bool)
    requires t < |s.threads|
  {
    && s.threads[t].Issuing? && s.threads[t].ws != []
    && s' == s.(log := s.log + [s.threads[t].ws[0]],
                threads := s.threads[t := Finishing(s.threads[t].ws[1..], stop)])
  }

  function AfterFinish(c: Config, s: State, t: nat): State
    requires t < |s.threads| && s.threads[t].Finishing?
  {
    var next := if s.threads[t].rest == [] then Ready else Issuing(s.threads[t].rest);
    s.(threads := s.threads[t := next],
       counter := if s.threads[t].stop then U64(s.counter + c.totalio) else s.counter,
       stops := if s.threads[t].stop then s.stops + 1 else s.stops)
  }

  predicate Finish(c: Config, s: State, s': State, t: nat)
    requires t < |s.threads|
  {
    s.threads[t].Finishing? && s' == AfterFinish(c, s, t)
  }

  /** A write that thread 0 injects, at any point of its loop, stops the file. */
  predicate InjectedStop(c: Config, s: State, s': State, t: nat)
    requires t < |s.threads|
  {
    && t == 0 && s.threads[t] != Exited && s.injected < c.injections
    && s' == s.(counter := U64(s.counter + c.totalio), stops := s.stops + 1, injected := s.injected + 1)
  }

  predicate Step(c: Config, s: State, s': State, t: nat, stop: bool)
    requires WellFormed(c)
  {
    && t < |s.threads|
    && (Claim(c, s, s', t) || Issue(s, s', t, stop) || Finish(c, s, s', t) || InjectedStop(c, s, s', t))
  }

  ghost predicate Next(c: Config, s: State, s': State)
    requires WellFormed(c)
  {
    exists t: nat, stop: bool :: Step(c, s, s', t, stop)
  }

  ghost predicate Run(c: Config, run: seq<State>)
    requires WellFormed(c)
  {
    && run != [] && Init(c, run[0])
    && forall i | 0 <= i < |run| - 1 :: Next(c, run[i], run[i + 1])
  }

  predicate AllExited(s: State) {
    forall t | 0 <= t < |s.threads| :: s.threads[t] == Exited
  }

  // ---------------------------------------------------------------- sums over threads

  function Pending(pc: Pc): seq<Extent> {
    match pc
    case Ready => []
    case Issuing(ws) => ws
    case Finishing(rest, _) => rest
    case Exited => []
  }

  function AllPending(ts: seq<Pc>): multiset<Extent> {
    if ts == [] then multiset{} else AllPending(ts[..|ts| - 1]) + multiset(Pending(ts[|ts| - 1]))
  }

  lemma AddToBoth<T>(a: multiset<T>, b: multiset<T>, c: multiset<T>, d: multiset<T>, e: multiset<T>)
    requires a + b == c + d
    ensures (a + e) + b == (c + e) + d
  {
    assert (a + e) + b == (a + b) + e;
    assert (c + e) + d == (c + d) + e;
  }

  lemma Cancel<T>(a: multiset<T>, b: multiset<T>, r: multiset<T>)
    requires a + r == b + r
    ensures a == b
  {
    assert (a + r) - r == a && (b + r) - r == b;
  }

  lemma {:induction false} AllPendingUpdate(ts: seq<Pc>, t: nat, pc: Pc)
    requires t < |ts|
    ensures AllPending(ts[t := pc]) + multiset(Pending(ts[t]))
         == AllPending(ts) + multiset(Pending(pc))
  {
    var last := |ts| - 1;
    if t == last {
      assert ts[t := pc][..last] == ts[..last];
    } else {
      assert ts[t := pc][..last] == ts[..last][t := pc];
      AllPendingUpdate(ts[..last], t, pc);
      AddToBoth(AllPending(ts[..last][t := pc]), multiset(Pending(ts[t])),
                AllPending(ts[..last]), multiset(Pending(pc)), multiset(Pending(ts[last])));
    }
  }

  /** What a thread has still to do, counted by `w`. */
  function Sum(w: Pc -> nat, ts: seq<Pc>): nat {
    if ts == [] then 0 else Sum(w, ts[..|ts| - 1]) + w(ts[|ts| - 1])
  }

  lemma {:induction false} SumUpdate(w: Pc -> nat, ts: seq<Pc>, t: nat, pc: Pc)
    requires t < |ts|
    ensures Sum(w, ts[t := pc]) + w(ts[t]) == Sum(w, ts) + w(pc)
  {
    var last := |ts| - 1;
    if t == last {
      assert ts[t := pc][..last] == ts[..last];
    } else {
      assert ts[t := pc][..last] == ts[..last][t := pc];
      SumUpdate(w, ts[..last], t, pc);
    }
  }

  lemma {:induction false} SumBound(w: Pc -> nat, ts: seq<Pc>, m: nat)
    requires forall t | 0 <= t < |ts| :: w(ts[t]) <= m
    ensures Sum(w, ts) <= m * |ts|
  {
    if ts == [] {
    } else {
      SumBound(w, ts[..|ts| - 1], m);
      assert m * |ts| == m * (|ts| - 1) + m;
    }
  }

  function ExitedOne(pc: Pc): nat { if pc == Exited then 1 else 0 }

  /** How often a thread can still add the total before it claims again. */
  function StopsLeft(pc: Pc): nat {
    match pc
    case Ready => 0
    case Issuing(ws) => |ws|
    case Finishing(rest, stop) => |rest| + if stop then 1 else 0
    case Exited => 0
  }

  /** The number of actions left in a thread's iteration, and one for its last claim. */
  function ActionsLeft(pc: Pc): nat {
    match pc
    case Ready => 1
    case Issuing(ws) => 2 * |ws| + 1
    case Finishing(rest, _) => 2 * |rest| + 2
    case Exited => 0
  }

  // ---------------------------------------------------------------- the invariant

  predicate SmallPc(pc: Pc) {
    match pc
    case Issuing(ws) => 1 <= |ws| <= 2
    case Finishing(rest, _) => |rest| <= 1
    case _ => true
  }

  /** What `k` stops have added to the counter. */
  function Added(c: Config, k: nat): nat {
    k * c.totalio
  }

  /** The counter is the sum of all additions, and its grants are an initial segment of the numbers. */
  predicate Counted(c: Config, s: State) {
    && |s.threads| == c.nthreads
    && (forall t | 0 <= t < c.nthreads :: SmallPc(s.threads[t]))
    && s.counter == |s.granted| + Sum(ExitedOne, s.threads) + Added(c, s.stops)
    && |s.granted| <= c.totalio
    && (forall i | 0 <= i < |s.granted| :: s.granted[i] == i)
    && (s.stops == 0 && Sum(ExitedOne, s.threads) > 0 ==> |s.granted| == c.totalio)
    && s.stops + Sum(StopsLeft, s.threads) <= 2 * c.nthreads + s.injected <= 2 * c.nthreads + c.injections
  }

  /** What is issued and what is pending are the writes of one thread taking the same grants. */
  predicate Logged(c: Config, s: State)
    requires WellFormed(c)
  {
    if c.totalio > 0
    then multiset(s.log) + AllPending(s.threads) == multiset(SeqWrites(c.layout, |s.granted|))
    else s.log == [] && AllPending(s.threads) == multiset{}
  }

  predicate Inv(c: Config, s: State)
    requires WellFormed(c)
  {
    Counted(c, s) && Logged(c, s)
  }

  lemma {:induction false} FreshSums(ts: seq<Pc>)
    requires forall t | 0 <= t < |ts| :: ts[t] == Ready
    ensures Sum(ExitedOne, ts) == 0 && Sum(StopsLeft, ts) == 0 && AllPending(ts) == multiset{}
  {
    if ts == [] {
    } else {
      FreshSums(ts[..|ts| - 1]);
    }
  }

  lemma InitInv(c: Config, s: State)
    requires WellFormed(c) && Init(c, s)
    ensures Inv(c, s)
  {
    FreshSums(s.threads);
  }

  lemma ExitedBound(c: Config, s: State)
    requires |s.threads| == c.nthreads
    ensures Sum(ExitedOne, s.threads) <= c.nthreads
  {
    SumBound(ExitedOne, s.threads, 1);
  }

  /** The counter stays below 2^64, so the word and the running total of all additions agree. */
  lemma NoWrapAt(c: Config, grants: nat, exited: nat, stops: nat)
    requires NoWrap(c) && grants <= c.totalio && exited <= c.nthreads && stops <= 2 * c.nthreads + c.injections
    ensures U64(grants + exited + Added(c, stops)) == grants + exited + Added(c, stops)
  {
    MulMono(stops, 2 * c.nthreads + c.injections, c.totalio);
  }

  lemma AddedNext(c: Config, k: nat)
    ensures Added(c, k + 1) == Added(c, k) + c.totalio && Added(c, 0) == 0
    ensures k > 0 ==> Added(c, k) >= c.totalio
  {
    if k > 0 { MulMono(1, k, c.totalio); }
  }

  /** While the counter is below the total, nobody has added the total and nobody has left. */
  lemma OpenCounter(c: Config, s: State)
    requires Counted(c, s) && s.counter < c.totalio
    ensures s.stops == 0 && Sum(ExitedOne, s.threads) == 0 && s.counter == |s.granted|
  {
    AddedNext(c, s.stops);
  }

  lemma ClaimCounted(c: Config, s: State, s': State, t: nat)
    requires WellFormed(c) && NoWrap(c) && Counted(c, s) && t < |s.threads| && Claim(c, s, s', t)
    ensures Counted(c, s')
  {
    hide WritesOf, Added, NoWrap, U64;
    var pc := s'.threads[t];
    SumUpdate(ExitedOne, s.threads, t, pc);
    SumUpdate(StopsLeft, s.threads, t, pc);
    ExitedBound(c, s');
    AddedNext(c, 0);
    if s.counter < c.totalio {
      OpenCounter(c, s);
      SumBound(StopsLeft, s'.threads, 2);
    } else if s.stops > 0 {
      AddedNext(c, s.stops);
    }
    NoWrapAt(c, |s'.granted|, Sum(ExitedOne, s'.threads), s.stops);
  }

  lemma SeqWritesSnoc(l: Layout, g: nat)
    requires l.rangeoff > 0 && l.nio > 0
    ensures multiset(SeqWrites(l, g + 1))
         == multiset(SeqWrites(l, g)) + multiset(WritesOf(l, g % l.nio))
  {
    assert SeqWrites(l, g + 1) == SeqWrites(l, g) + WritesOf(l, g % l.nio);
  }

  lemma ClaimLogged(c: Config, s: State, s': State, t: nat)
    requires WellFormed(c) && Inv(c, s) && t < |s.threads| && Claim(c, s, s', t)
    ensures Logged(c, s')
  {
    if s.counter < c.totalio {
      GrantLogged(c, s, t);
    } else {
      LeaveLogged(c, s, t);
    }
    hide Inv, Logged, AfterClaim;
  }

  /** The writes of a grant are pending first. */
  lemma GrantLogged(c: Config, s: State, t: nat)
    requires WellFormed(c) && Inv(c, s) && t < |s.threads| && s.threads[t] == Ready && s.counter < c.totalio
    ensures Logged(c, AfterClaim(c, s, t))
  {
    OpenCounter(c, s);
    hide WritesOf, SeqWrites, U64, Counted;
    var g := s.counter;
    var ws := WritesOf(c.layout, g % c.layout.nio);
    AllPendingUpdate(s.threads, t, Issuing(ws));
    SeqWritesSnoc(c.layout, g);
    Shift(multiset(s.log), AllPending(s.threads), AllPending(s.threads[t := Issuing(ws)]),
          multiset(ws), multiset(SeqWrites(c.layout, g)));
    assert |s.granted + [g]| == g + 1;
    hide AllPending;
  }

  lemma Shift(log: multiset<Extent>, before: multiset<Extent>, after: multiset<Extent>,
              ws: multiset<Extent>, all: multiset<Extent>)
    requires log + before == all && after + multiset([]) == before + ws
    ensures log + after == all + ws
  {
    assert after == before + ws;
    assert log + (before + ws) == (log + before) + ws;
  }

  lemma LeaveLogged(c: Config, s: State, t: nat)
    requires WellFormed(c) && Logged(c, s) && t < |s.threads| && s.threads[t] == Ready && s.counter >= c.totalio
    ensures Logged(c, AfterClaim(c, s, t))
  {
    hide WritesOf, SeqWrites, U64;
    AllPendingUpdate(s.threads, t, Exited);
    Shift(multiset(s.log), AllPending(s.threads), AllPending(s.threads[t := Exited]),
          multiset([]), multiset(s.log) + AllPending(s.threads));
    hide AllPending;
  }

  lemma IssueCounted(c: Config, s: State, s': State, t: nat, stop: bool)
    requires Counted(c, s) && t < |s.threads| && Issue(s, s', t, stop)
    ensures Counted(c, s')
  {
    hide Added;
    SumUpdate(ExitedOne, s.threads, t, s'.threads[t]);
    SumUpdate(StopsLeft, s.threads, t, s'.threads[t]);
  }

  lemma IssueLogged(c: Config, s: State, s': State, t: nat, stop: bool)
    requires WellFormed(c) && Logged(c, s) && t < |s.threads| && Issue(s, s', t, stop)
    ensures Logged(c, s')
  {
    hide SeqWrites;
    var ws := s.threads[t].ws;
    var before, after := AllPending(s.threads), AllPending(s'.threads);
    AllPendingUpdate(s.threads, t, s'.threads[t]);
    assert multiset(ws) == multiset{ws[0]} + multiset(ws[1..]) by { assert ws == [ws[0]] + ws[1..]; }
    assert after + (multiset{ws[0]} + multiset(ws[1..])) == (after + multiset{ws[0]}) + multiset(ws[1..]);
    Cancel(after + multiset{ws[0]}, before, multiset(ws[1..]));
    assert multiset(s'.log) + after == multiset(s.log) + before;
  }

  lemma FinishCounted(c: Config, s: State, s': State, t: nat)
    requires NoWrap(c) && Counted(c, s) && t < |s.threads| && Finish(c, s, s', t)
    ensures Counted(c, s')
  {
    hide Added, NoWrap, U64;
    SumUpdate(ExitedOne, s.threads, t, s'.threads[t]);
    SumUpdate(StopsLeft, s.threads, t, s'.threads[t]);
    ExitedBound(c, s');
    AddedNext(c, s.stops);
    NoWrapAt(c, |s.granted|, Sum(ExitedOne, s'.threads), s'.stops);
  }

  lemma FinishLogged(c: Config, s: State, s': State, t: nat)
    requires WellFormed(c) && Logged(c, s) && t < |s.threads| && Finish(c, s, s', t)
    ensures Logged(c, s')
  {
    hide SeqWrites;
    AllPendingUpdate(s.threads, t, s'.threads[t]);
    Cancel(AllPending(s'.threads), AllPending(s.threads), multiset(s.threads[t].rest));
  }

  lemma InjectedCounted(c: Config, s: State, s': State, t: nat)
    requires NoWrap(c) && Counted(c, s) && t < |s.threads| && InjectedStop(c, s, s', t)
    ensures Counted(c, s')
  {
    hide Added, NoWrap, U64;
    ExitedBound(c, s');
    AddedNext(c, s.stops);
    NoWrapAt(c, |s.granted|, Sum(ExitedOne, s'.threads), s'.stops);
  }

  lemma StepInv(c: Config, s: State, s': State, t: nat, stop: bool)
    requires WellFormed(c) && NoWrap(c) && Inv(c, s) && Step(c, s, s', t, stop)
    ensures Inv(c, s')
  {
    hide Counted, Logged;
    if Claim(c, s, s', t) {
      ClaimCounted(c, s, s', t);
      ClaimLogged(c, s, s', t);
    } else if Issue(s, s', t, stop) {
      IssueCounted(c, s, s', t, stop);
      IssueLogged(c, s, s', t, stop);
    } else if Finish(c, s, s', t) {
      FinishCounted(c, s, s', t);
      FinishLogged(c, s, s', t);
    } else {
      InjectedCounted(c, s, s', t);
      InjectedLogged(c, s, s', t);
    }
    hide Claim, Issue, Finish, InjectedStop;
  }

  lemma InjectedLogged(c: Config, s: State, s': State, t: nat)
    requires WellFormed(c) && Logged(c, s) && t < |s.threads| && InjectedStop(c, s, s', t)
    ensures Logged(c, s')
  {
  }

  /** Every state of every run satisfies the invariant. */
  lemma {:induction false} RunInv(c: Config, run: seq<State>, i: nat)
    requires WellFormed(c) && NoWrap(c) && Run(c, run) && i < |run|
    ensures Inv(c, run[i])
  {
    if i == 0 {
      InitInv(c, run[0]);
    } else {
      RunInv(c, run, i - 1);
      assert Next(c, run[i - 1], run[i - 1 + 1]);
      var t: nat, stop: bool :| Step(c, run[i - 1], run[i], t, stop);
      StepInv(c, run[i - 1], run[i], t, stop);
    }
  }

  // ---------------------------------------------------------------- what every run keeps

  lemma {:induction false} EverybodyLeft(ts: seq<Pc>)
    requires forall t | 0 <= t < |ts| :: ts[t] == Exited
    ensures Sum(ExitedOne, ts) == |ts| && AllPending(ts) == multiset{}
  {
    if ts == [] {
    } else {
      EverybodyLeft(ts[..|ts| - 1]);
    }
  }

  /**
   In every run the numbers granted are 0, 1, 2, ... in that order, each to one thread; and
   when the threads have all left without a stop, they are exactly the numbers below the total.
   */
  lemma GrantsFillPrefix(c: Config, run: seq<State>, i: nat)
    requires WellFormed(c) && NoWrap(c) && Run(c, run) && i < |run|
    ensures |run[i].granted| <= c.totalio
    ensures forall j | 0 <= j < |run[i].granted| :: run[i].granted[j] == j
    ensures AllExited(run[i]) && run[i].stops == 0 && c.nthreads > 0 ==> |run[i].granted| == c.totalio
  {
    RunInv(c, run, i);
    if AllExited(run[i]) { EverybodyLeft(run[i].threads); }
  }

  /** The writes of a finished run are those of one thread taking the same grants, in some order. */
  lemma RunRefinesOneThread(c: Config, run: seq<State>, i: nat)
    requires WellFormed(c) && NoWrap(c) && Run(c, run) && i < |run|
    requires AllExited(run[i]) && c.totalio > 0
    ensures multiset(run[i].log) == multiset(SeqWrites(c.layout, |run[i].granted|))
  {
    RunInv(c, run, i);
    EverybodyLeft(run[i].threads);
  }

  lemma StoppedStep(c: Config, s: State, s': State, t: nat, stop: bool)
    requires WellFormed(c) && Counted(c, s) && s.stops > 0 && Step(c, s, s', t, stop)
    ensures s'.granted == s.granted && s'.stops > 0
  {
    hide WritesOf;
    AddedNext(c, s.stops);
  }

  lemma {:induction false} PendingCount(ts: seq<Pc>)
    requires forall t | 0 <= t < |ts| :: SmallPc(ts[t])
    ensures |AllPending(ts)| <= 2 * |ts|
  {
    if ts == [] {
    } else {
      PendingCount(ts[..|ts| - 1]);
    }
  }

  /**
   Once any thread has added the total, no number is granted any more in the rest of the run:
   only the writes that were pending are still issued, at most two for each thread.
   */
  lemma {:induction false} StopIsSticky(c: Config, run: seq<State>, i: nat, j: nat)
    requires WellFormed(c) && NoWrap(c) && Run(c, run) && i <= j < |run| && run[i].stops > 0
    ensures run[j].stops > 0 && run[j].granted == run[i].granted
    ensures multiset(run[j].log) <= multiset(run[i].log) + AllPending(run[i].threads)
    ensures |run[j].log| <= |run[i].log| + 2 * c.nthreads
    decreases j
  {
    StoppedGrants(c, run, i, j);
    RunInv(c, run, i);
    RunInv(c, run, j);
    PendingCount(run[i].threads);
    hide SeqWrites;
    var issued, earlier := multiset(run[j].log), multiset(run[i].log);
    var left, pending := AllPending(run[j].threads), AllPending(run[i].threads);
    assert issued + left == earlier + pending;
    assert |issued + left| == |issued| + |left| && |earlier + pending| == |earlier| + |pending|;
  }

  lemma {:induction false} StoppedGrants(c: Config, run: seq<State>, i: nat, j: nat)
    requires WellFormed(c) && NoWrap(c) && Run(c, run) && i <= j < |run| && run[i].stops > 0
    ensures run[j].stops > 0 && run[j].granted == run[i].granted
    decreases j
  {
    if i == j {
    } else {
      StoppedGrants(c, run, i, j - 1);
      RunInv(c, run, j - 1);
      assert Next(c, run[j - 1], run[j - 1 + 1]);
      var t: nat, stop: bool :| Step(c, run[j - 1], run[j], t, stop);
      StoppedStep(c, run[j - 1], run[j], t, stop);
    }
  }

  // ---------------------------------------------------------------- every run comes to an end

  /** The work left: five actions for every number not yet granted, what the threads are doing, and injected stops. */
  function Work(c: Config, s: State): int {
    5 * (c.totalio - |s.granted|) + Sum(ActionsLeft, s.threads) + (c.injections - s.injected)
  }

  lemma StepWorks(c: Config, s: State, s': State, t: nat, stop: bool)
    requires WellFormed(c) && Step(c, s, s', t, stop)
    ensures Work(c, s') < Work(c, s)
  {
    SumUpdate(ActionsLeft, s.threads, t, s'.threads[t]);
    assert s.threads[t := s.threads[t]] == s.threads;
    hide U64;
  }

  lemma {:induction false} RunWorks(c: Config, run: seq<State>, i: nat)
    requires WellFormed(c) && Run(c, run) && i < |run|
    ensures Work(c, run[i]) + i <= 5 * c.totalio + c.nthreads + c.injections
  {
    if i == 0 {
      SumBound(ActionsLeft, run[0].threads, 1);
    } else {
      RunWorks(c, run, i - 1);
      assert Next(c, run[i - 1], run[i - 1 + 1]);
      var t: nat, stop: bool :| Step(c, run[i - 1], run[i], t, stop);
      StepWorks(c, run[i - 1], run[i], t, stop);
    }
  }

  /** No run is longer than five actions a number, one a thread and one an injected stop: no interleaving loops forever. */
  lemma RunsEnd(c: Config, run: seq<State>)
    requires WellFormed(c) && NoWrap(c) && Run(c, run)
    ensures |run| <= 5 * c.totalio + c.nthreads + c.injections + 1
  {
    RunWorks(c, run, |run| - 1);
    RunInv(c, run, |run| - 1);
  }

  /** A run can go on, by a step of some thread, until every thread has left. */
  lemma NeverStuck(c: Config, run: seq<State>) returns (s': State, t: nat)
    requires WellFormed(c) && NoWrap(c) && Run(c, run) && !AllExited(run[|run| - 1])
    ensures Step(c, run[|run| - 1], s', t, false) && s'.injected == run[|run| - 1].injected
  {
    var s := run[|run| - 1];
    RunInv(c, run, |run| - 1);
    t :| t < |s.threads| && s.threads[t] != Exited;
    hide WritesOf, SeqWrites, U64, Logged;
    match s.threads[t]
    case Ready => s' := AfterClaim(c, s, t);
    case Issuing(ws) =>
      assert SmallPc(s.threads[t]);
      s' := s.(log := s.log + [ws[0]], threads := s.threads[t := Finishing(ws[1..], false)]);
    case Finishing(rest, stop) => s' := AfterFinish(c, s, t);
  }
}
