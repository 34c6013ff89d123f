/**
 The claim loop of iofill when a file has several streams: after the claim on the file's
 counter a thread takes its block number from the counter of its stream head, by a second
 fetch-and-add. One step is one atomic action of one thread; a run is any interleaving.
 */
module StreamClaims {
  import opened Words
  import opened NumberTheory
  import FillSetup

  /** `heads[t]` is the thread whose counter thread `t` takes its numbers from. */
  datatype Config = Config(totalio: nat, heads: seq<nat>)

  datatype Pc = Ready | Taking | Writing(bno: nat) | Exited

  /**
   `counter` and `nextbno` are the shared words. The other fields are history: how many
   claims were granted, the numbers each head gave out in order, and how often the total
   was added to the counter.
   */
  datatype State = State(
    counter: nat, nextbno: seq<nat>, threads: seq<Pc>,
    granted: nat, given: seq<seq<nat>>, stops: nat)

  predicate WellFormed(c: Config) {
    forall t | 0 <= t < |c.heads| :: c.heads[t] < |c.heads|
  }

  ghost predicate Init(c: Config, s: State) {
    && s.counter == s.granted == s.stops == 0
    && |s.threads| == |s.nextbno| == |s.given| == |c.heads|
    && forall t | 0 <= t < |c.heads| :: s.threads[t] == Ready && s.nextbno[t] == 0 && s.given[t] == []
  }

  predicate Claim(c: Config, s: State, s': State, t: nat)
    requires t < |s.threads|
  {
    && s.threads[t] == Ready
    && if s.counter >= c.totalio
       then s' == s.(counter := U64(s.counter + 1), threads := s.threads[t := Exited])
       else s' == s.(counter := U64(s.counter + 1), threads := s.threads[t := Taking], granted := s.granted + 1)
  }

  predicate Take(c: Config, s: State, s': State, t: nat)
    requires t < |s.threads|
  {
    && s.threads[t] == Taking && t < |c.heads|
    && var h := c.heads[t];
       && h < |s.nextbno| && h < |s.given|
       && s' == s.(nextbno := s.nextbno[h := U64(s.nextbno[h] + 1)],
                   given := s.given[h := s.given[h] + [s.nextbno[h]]],
                   threads := s.threads[t := Writing(s.nextbno[h])])
  }

  /** The counter after the total was added to it `adds` times. */
  function WithTotals(c: Config, counter: nat, adds: nat): nat {
    U64(counter + adds * c.totalio)
  }

  /** The writes of the number are done; `adds` says for how many of them the total was added. */
  predicate Finish(c: Config, s: State, s': State, t: nat, adds: nat)
    requires t < |s.threads|
  {
    && s.threads[t].Writing? && adds <= 2
    && s' == s.(counter := WithTotals(c, s.counter, adds), threads := s.threads[t := Ready],
                stops := s.stops + adds)
  }

  predicate Step(c: Config, s: State, s': State, t: nat, adds: nat) {
    t < |s.threads| && (Claim(c, s, s', t) || Take(c, s, s', t) || Finish(c, s, s', t, adds))
  }

  ghost predicate Next(c: Config, s: State, s': State) {
    exists t, adds :: Step(c, s, s', t, adds)
  }

  ghost predicate Run(c: Config, run: seq<State>) {
    && run != [] && Init(c, run[0])
    && forall i | 0 <= i < |run| - 1 :: Next(c, run[i], run[i + 1])
  }

  // ---------------------------------------------------------------- sums

  function Total(given: seq<seq<nat>>): nat {
    if given == [] then 0 else Total(given[..|given| - 1]) + |given[|given| - 1]|
  }

  lemma {:induction false} TotalUpdate(given: seq<seq<nat>>, h: nat, x: nat)
    requires h < |given|
    ensures Total(given[h := given[h] + [x]]) == Total(given) + 1
  {
    var last := |given| - 1;
    if h == last {
      assert given[h := given[h] + [x]][..last] == given[..last];
    } else {
      assert given[h := given[h] + [x]][..last] == given[..last][h := given[h] + [x]];
      TotalUpdate(given[..last], h, x);
    }
  }

  lemma {:induction false} TotalAtLeast(given: seq<seq<nat>>, h: nat)
    requires h < |given|
    ensures |given[h]| <= Total(given)
  {
    if h == |given| - 1 {
    } else {
      TotalAtLeast(given[..|given| - 1], h);
    }
  }

  lemma {:induction false} TotalNone(given: seq<seq<nat>>)
    requires forall h | 0 <= h < |given| :: given[h] == []
    ensures Total(given) == 0
  {
    if given == [] {
    } else {
      TotalNone(given[..|given| - 1]);
    }
  }

  function Counters(nextbno: seq<nat>): nat {
    if nextbno == [] then 0 else Counters(nextbno[..|nextbno| - 1]) + nextbno[|nextbno| - 1]
  }

  lemma {:induction false} CountersAreTotal(nextbno: seq<nat>, given: seq<seq<nat>>)
    requires |nextbno| == |given| && forall h | 0 <= h < |given| :: nextbno[h] == |given[h]|
    ensures Counters(nextbno) == Total(given)
  {
    if given == [] {
    } else {
      CountersAreTotal(nextbno[..|given| - 1], given[..|given| - 1]);
    }
  }

  function Count(ts: seq<Pc>, pc: Pc): nat {
    if ts == [] then 0 else Count(ts[..|ts| - 1], pc) + if ts[|ts| - 1] == pc then 1 else 0
  }

  lemma {:induction false} CountUpdate(ts: seq<Pc>, t: nat, to: Pc, pc: Pc)
    requires t < |ts|
    ensures Count(ts[t := to], pc) + (if ts[t] == pc then 1 else 0) == Count(ts, pc) + if to == pc then 1 else 0
  {
    var last := |ts| - 1;
    if t == last {
      assert ts[t := to][..last] == ts[..last];
    } else {
      assert ts[t := to][..last] == ts[..last][t := to];
      CountUpdate(ts[..last], t, to, pc);
    }
  }

  lemma {:induction false} CountBound(ts: seq<Pc>, pc: Pc)
    ensures Count(ts, pc) <= |ts|
    ensures (forall t | 0 <= t < |ts| :: ts[t] == pc) ==> Count(ts, pc) == |ts|
    ensures (forall t | 0 <= t < |ts| :: ts[t] != pc) ==> Count(ts, pc) == 0
  {
    if ts == [] {
    } else {
      CountBound(ts[..|ts| - 1], pc);
    }
  }

  // ---------------------------------------------------------------- the invariant

  /** A head gives out 0, 1, 2, ... in that order, and its word is the next of them. */
  predicate HeadOk(next: nat, given: seq<nat>) {
    next == U64(|given|) && forall k | 0 <= k < |given| :: given[k] == U64(k)
  }

  ghost predicate Shaped(c: Config, s: State) {
    |s.threads| == |s.nextbno| == |s.given| == |c.heads|
  }

  ghost predicate Given(c: Config, s: State) {
    && Shaped(c, s)
    && (forall h | 0 <= h < |c.heads| :: HeadOk(s.nextbno[h], s.given[h]))
    && (forall h | 0 <= h < |c.heads| && h !in c.heads :: s.given[h] == [])
    && Total(s.given) + Count(s.threads, Taking) == s.granted
  }

  /** While nobody has added the total, the counter is the claims and the exits. */
  ghost predicate Claimed(c: Config, s: State) {
    s.stops == 0 ==>
      && s.counter == s.granted + Count(s.threads, Exited) && s.granted <= c.totalio
      && (Count(s.threads, Exited) > 0 ==> s.granted == c.totalio)
  }

  lemma NextWord(k: nat)
    ensures U64(U64(k) + 1) == U64(k + 1)
  {
    ModAdd(k, 1, TWO64);
  }

  lemma HeadNext(next: nat, given: seq<nat>)
    requires HeadOk(next, given)
    ensures HeadOk(U64(next + 1), given + [next])
  {
    NextWord(|given|);
    hide U64;
  }

  lemma StepGiven(c: Config, s: State, s': State, t: nat, adds: nat)
    requires WellFormed(c) && Given(c, s) && Step(c, s, s', t, adds)
    ensures Given(c, s')
  {
    hide HeadOk, Total, Count, U64, WithTotals;
    if Take(c, s, s', t) {
      TakeGiven(c, s, s', t);
    } else {
      CountUpdate(s.threads, t, s'.threads[t], Taking);
    }
  }

  lemma TakeGiven(c: Config, s: State, s': State, t: nat)
    requires WellFormed(c) && Given(c, s) && t < |s.threads| && Take(c, s, s', t)
    ensures Given(c, s')
  {
    hide HeadOk, Total, Count, U64;
    var h := c.heads[t];
    CountUpdate(s.threads, t, s'.threads[t], Taking);
    TotalUpdate(s.given, h, s.nextbno[h]);
    HeadNext(s.nextbno[h], s.given[h]);
  }

  lemma StepClaimed(c: Config, s: State, s': State, t: nat, adds: nat)
    requires c.totalio + |c.heads| < TWO64 && Shaped(c, s) && Claimed(c, s) && Step(c, s, s', t, adds)
    ensures Claimed(c, s')
  {
    if Claim(c, s, s', t) {
      ClaimClaimed(c, s, s', t);
    } else {
      CountUpdate(s.threads, t, s'.threads[t], Exited);
      CountBound(s.threads, Exited);
      if s.stops == 0 && adds == 0 { NothingAdded(c, s.counter); }
    }
    hide Count, U64, Claim, WithTotals;
  }

  lemma ClaimClaimed(c: Config, s: State, s': State, t: nat)
    requires c.totalio + |c.heads| < TWO64 && Shaped(c, s) && Claimed(c, s)
    requires t < |s.threads| && Claim(c, s, s', t)
    ensures Claimed(c, s')
  {
    CountUpdate(s.threads, t, s'.threads[t], Exited);
    CountBound(s'.threads, Exited);
    hide Count, U64;
    if s.stops == 0 { SmallWord(s.counter + 1); }
  }

  lemma NothingAdded(c: Config, counter: nat)
    requires counter < TWO64
    ensures WithTotals(c, counter, 0) == counter
  {
    SmallWord(counter);
  }

  lemma SmallWord(x: nat)
    requires x < TWO64
    ensures U64(x) == x
  {
  }

  lemma {:induction false} RunGiven(c: Config, run: seq<State>, i: nat)
    requires WellFormed(c) && Run(c, run) && i < |run|
    ensures Given(c, run[i])
  {
    if i == 0 {
      TotalNone(run[0].given);
      CountBound(run[0].threads, Taking);
    } else {
      RunGiven(c, run, i - 1);
      assert Next(c, run[i - 1], run[i - 1 + 1]);
      var t, adds :| Step(c, run[i - 1], run[i], t, adds);
      StepGiven(c, run[i - 1], run[i], t, adds);
    }
  }

  lemma {:induction false} RunClaimed(c: Config, run: seq<State>, i: nat)
    requires WellFormed(c) && Run(c, run) && i < |run| && c.totalio + |c.heads| < TWO64
    ensures Claimed(c, run[i])
  {
    if i == 0 {
      CountBound(run[0].threads, Exited);
    } else {
      RunClaimed(c, run, i - 1);
      RunGiven(c, run, i - 1);
      assert Next(c, run[i - 1], run[i - 1 + 1]);
      var t, adds :| Step(c, run[i - 1], run[i], t, adds);
      StepClaimed(c, run[i - 1], run[i], t, adds);
    }
  }

  // ---------------------------------------------------------------- what the streams share out

  /**
   At every moment the counters of the stream heads sum to the claims that have taken a
   stream number: all granted claims but those of threads between the two fetch-and-adds.
   */
  lemma HeadsCountClaims(c: Config, run: seq<State>, i: nat)
    requires WellFormed(c) && Run(c, run) && i < |run| && run[i].granted < TWO64
    ensures Counters(run[i].nextbno) + Count(run[i].threads, Taking) == run[i].granted
  {
    var s := run[i];
    RunGiven(c, run, i);
    forall h | 0 <= h < |s.given| ensures s.nextbno[h] == |s.given[h]| {
      assert HeadOk(s.nextbno[h], s.given[h]);
      TotalAtLeast(s.given, h);
      SmallWord(|s.given[h]|);
    }
    CountersAreTotal(s.nextbno, s.given);
    hide U64;
  }

  /** The numbers a head gives out are 0, 1, 2, ... in that order, so no two threads get the same. */
  lemma NumbersAreDistinct(c: Config, run: seq<State>, i: nat, h: nat)
    requires WellFormed(c) && Run(c, run) && i < |run| && run[i].granted < TWO64 && h < |c.heads|
    ensures h < |run[i].given| && forall k | 0 <= k < |run[i].given[h]| :: run[i].given[h][k] == k
    ensures h !in c.heads ==> run[i].given[h] == []
  {
    var s := run[i];
    RunGiven(c, run, i);
    assert HeadOk(s.nextbno[h], s.given[h]);
    TotalAtLeast(s.given, h);
    forall k | 0 <= k < |s.given[h]| ensures s.given[h][k] == k {
      SmallWord(k);
    }
    hide U64;
  }

  /** A thread works on a number of its own head, on which no other thread works. */
  ghost predicate Held(c: Config, s: State) {
    && Shaped(c, s)
    && (forall t | 0 <= t < |s.threads| && s.threads[t].Writing? ::
          c.heads[t] < |s.given| && s.threads[t].bno in s.given[c.heads[t]])
    && (forall t, u | 0 <= t < u < |s.threads| && s.threads[t].Writing? && s.threads[u].Writing? && c.heads[t] == c.heads[u] ::
          s.threads[t].bno != s.threads[u].bno)
  }

  lemma FreshNumber(c: Config, s: State, h: nat)
    requires Given(c, s) && s.granted < TWO64 && h < |c.heads|
    ensures s.nextbno[h] !in s.given[h]
  {
    TotalAtLeast(s.given, h);
    assert HeadOk(s.nextbno[h], s.given[h]);
    forall k | 0 <= k < |s.given[h]| ensures s.given[h][k] != s.nextbno[h] {
      SmallWord(k);
      SmallWord(|s.given[h]|);
    }
    hide U64, Total, Count;
  }

  lemma StepHeld(c: Config, s: State, s': State, t: nat, adds: nat)
    requires WellFormed(c) && Given(c, s) && Held(c, s) && s.granted < TWO64 && Step(c, s, s', t, adds)
    ensures Held(c, s')
  {
    if Take(c, s, s', t) {
      FreshNumber(c, s, c.heads[t]);
    }
    hide Given, U64, WithTotals;
  }

  /** In every interleaving each thread works on a number that its own stream head gave out, and no two on the same. */
  lemma {:induction false} NumbersFromOwnHead(c: Config, run: seq<State>, i: nat)
    requires WellFormed(c) && Run(c, run) && i < |run| && run[i].granted < TWO64
    ensures Held(c, run[i])
  {
    if i == 0 {
      assert Init(c, run[0]);
    } else {
      assert Next(c, run[i - 1], run[i - 1 + 1]);
      var t, adds :| Step(c, run[i - 1], run[i], t, adds);
      NumbersFromOwnHead(c, run, i - 1);
      RunGiven(c, run, i - 1);
      StepHeld(c, run[i - 1], run[i], t, adds);
    }
  }

  /** When all threads have left without a stop, the streams have shared out the whole count. */
  lemma StreamsShareAll(c: Config, run: seq<State>, i: nat)
    requires WellFormed(c) && Run(c, run) && i < |run| && c.totalio + |c.heads| < TWO64 && c.heads != []
    requires run[i].stops == 0 && forall t | 0 <= t < |run[i].threads| :: run[i].threads[t] == Exited
    ensures Counters(run[i].nextbno) == c.totalio
  {
    RunGiven(c, run, i);
    RunClaimed(c, run, i);
    CountBound(run[i].threads, Exited);
    CountBound(run[i].threads, Taking);
    HeadsCountClaims(c, run, i);
  }

  /** The heads that init_threads assigns. */
  function HeadsOf(streams: nat, nthreads: nat): seq<nat> {
    seq(nthreads, j requires 0 <= j => FillSetup.HeadOf(j, streams, nthreads))
  }

  /** With fewer streams than threads only the first `streams` counters are ever used. */
  lemma OnlyHeadsCount(c: Config, run: seq<State>, i: nat, streams: nat, nthreads: nat, h: nat)
    requires 1 < streams < nthreads && c.heads == HeadsOf(streams, nthreads)
    requires Run(c, run) && i < |run| && streams <= h < nthreads
    ensures WellFormed(c) && h < |run[i].nextbno| && run[i].nextbno[h] == 0
  {
    assert forall t | 0 <= t < nthreads :: c.heads[t] < streams;
    RunGiven(c, run, i);
    assert h !in c.heads;
    assert HeadOk(run[i].nextbno[h], run[i].given[h]);
  }
}
