/**
 The log of slow and failed I/Os that all io threads share: a bounded array and one counter.
 Claiming a slot and copying the record into it are separate steps of a thread.
 */
module DetailsLog {
  import opened Words

  /** The fields of a record that the log itself touches; `data` stands for the others. */
  datatype Iodet = Iodet(start: nat, end: nat, latency: nat, data: nat)

  datatype Pc = Idle | Copying(slot: nat, rec: Iodet)

  /**
   `claims` holds the records in the order in which their slots were claimed and `written`
   how often each slot was written, both since the last reset; the program has neither.
   */
  datatype State = State(
    cur: nat, details: seq<Iodet>, pcs: seq<Pc>, claims: seq<Iodet>, written: seq<nat>)

  datatype Action = Claim(t: nat, rec: Iodet) | Copy(t: nat)

  /** The record as it is stored, with its latency filled in. */
  function Stamp(d: Iodet): Iodet {
    d.(latency := U64(d.end - d.start))
  }

  /** `d` is the record with the time it took, and otherwise as it was handed in. */
  predicate StoredAs(d: Iodet, rec: Iodet) {
    && d.start == rec.start && d.end == rec.end && d.data == rec.data
    && (rec.start <= rec.end < TWO64 ==> d.latency == rec.end - rec.start)
  }

  predicate Typed(cap: nat, s: State) {
    |s.details| == |s.written| == cap
  }

  /** iob_details_add, one step at a time; a claim past the capacity copies nothing. */
  predicate Enabled(cap: nat, s: State, a: Action) {
    && Typed(cap, s) && a.t < |s.pcs|
    && (a.Claim? <==> s.pcs[a.t].Idle?)
    && (a.Copy? ==> s.pcs[a.t].slot < cap)
  }

  function Step(cap: nat, s: State, a: Action): State
    requires Enabled(cap, s, a)
  {
    match a
    case Claim(t, rec) =>
      State(s.cur + 1, s.details,
            if s.cur < cap then s.pcs[t := Copying(s.cur, rec)] else s.pcs,
            s.claims + [rec], s.written)
    case Copy(t) =>
      var slot := s.pcs[t].slot;
      s.(details := s.details[slot := Stamp(s.pcs[t].rec)], pcs := s.pcs[t := Idle],
         written := s.written[slot := s.written[slot] + 1])
  }

  /** iob_details_reset; clearing leaves zeros behind. */
  function Reset(cap: nat, s: State, clear: bool): State {
    State(0, if clear then seq(cap, _ => Iodet(0, 0, 0, 0)) else s.details, s.pcs, [], seq(cap, _ => 0))
  }

  ghost predicate Next(cap: nat, s: State, s': State) {
    exists a :: Enabled(cap, s, a) && Step(cap, s, a) == s'
  }

  /** Any number of adds by any threads, without a reset. */
  ghost predicate Path(cap: nat, path: seq<State>) {
    && path != []
    && forall i | 0 <= i < |path| - 1 :: Next(cap, path[i], path[i + 1])
  }

  predicate Quiet(s: State) {
    forall t | 0 <= t < |s.pcs| :: s.pcs[t].Idle?
  }

  /** What the scan of iob_details_output finds: the first claims in order, one write each, and no more. */
  ghost predicate LogIsRight(cap: nat, s: State) {
    && Typed(cap, s) && s.cur == |s.claims|
    && forall i | 0 <= i < Smaller(s.cur, cap) :: s.details[i] == Stamp(s.claims[i]) && s.written[i] == 1
  }

  // ---------------------------------------------------------------- the invariant

  predicate Pending(s: State, i: nat) {
    exists t | 0 <= t < |s.pcs| :: s.pcs[t].Copying? && s.pcs[t].slot == i
  }

  ghost predicate SlotOk(s: State, i: nat)
    requires i < |s.details| == |s.written|
  {
    s.written[i] == if i < |s.claims| && !Pending(s, i) then 1 else 0
  }

  ghost predicate Inv(cap: nat, s: State) {
    && Typed(cap, s) && s.cur == |s.claims|
    && (forall t | 0 <= t < |s.pcs| && s.pcs[t].Copying? ::
          s.pcs[t].slot < Smaller(s.cur, cap) && s.claims[s.pcs[t].slot] == s.pcs[t].rec)
    && (forall t, u | 0 <= t < u < |s.pcs| && s.pcs[t].Copying? && s.pcs[u].Copying? ::
          s.pcs[t].slot != s.pcs[u].slot)
    && (forall i | 0 <= i < cap :: SlotOk(s, i))
    && (forall i | 0 <= i < Smaller(s.cur, cap) && s.written[i] == 1 :: s.details[i] == Stamp(s.claims[i]))
  }

  /** A freshly reset log, with no copy under way, satisfies the invariant whatever the array holds. */
  lemma FreshInv(cap: nat, s: State)
    requires Typed(cap, s) && s.cur == 0 && s.claims == [] && Quiet(s)
    requires forall i | 0 <= i < cap :: s.written[i] == 0
    ensures Inv(cap, s)
  {
  }

  lemma StepInv(cap: nat, s: State, a: Action)
    requires Inv(cap, s) && Enabled(cap, s, a)
    ensures Inv(cap, Step(cap, s, a))
  {
    if a.Claim? { ClaimInv(cap, s, a.t, a.rec); } else { CopyInv(cap, s, a.t); }
  }

  lemma ClaimInv(cap: nat, s: State, t: nat, rec: Iodet)
    requires Inv(cap, s) && Enabled(cap, s, Claim(t, rec))
    ensures Inv(cap, Step(cap, s, Claim(t, rec)))
  {
    var s' := Step(cap, s, Claim(t, rec));
    forall i | 0 <= i < cap ensures SlotOk(s', i) {
      assert SlotOk(s, i);
      if i == s.cur {
        assert s'.pcs[t].Copying? && s'.pcs[t].slot == i;
      } else if Pending(s, i) {
        var u :| 0 <= u < |s.pcs| && s.pcs[u].Copying? && s.pcs[u].slot == i;
        assert s'.pcs[u] == s.pcs[u];
      }
    }
    if s.cur < cap {
      assert s'.pcs[t].Copying? && s'.pcs[t].slot == s.cur;
      assert SlotOk(s', s.cur) && Pending(s', s.cur);
    }
  }

  lemma CopyInv(cap: nat, s: State, t: nat)
    requires Inv(cap, s) && Enabled(cap, s, Copy(t))
    ensures Inv(cap, Step(cap, s, Copy(t)))
  {
    var s' := Step(cap, s, Copy(t));
    var slot := s.pcs[t].slot;
    forall i | 0 <= i < cap ensures SlotOk(s', i) {
      assert SlotOk(s, i);
      if i == slot {
        assert Pending(s, i);
      } else if Pending(s, i) {
        var u :| 0 <= u < |s.pcs| && s.pcs[u].Copying? && s.pcs[u].slot == i;
        assert s'.pcs[u] == s.pcs[u];
      }
    }
    assert SlotOk(s, slot) && Pending(s, slot);
  }

  lemma {:induction false} PathInv(cap: nat, path: seq<State>, i: nat)
    requires Path(cap, path) && Inv(cap, path[0]) && i < |path|
    ensures Inv(cap, path[i])
  {
    if i == 0 {
    } else {
      PathInv(cap, path, i - 1);
      assert Next(cap, path[i - 1], path[i - 1 + 1]);
      var a :| Enabled(cap, path[i - 1], a) && Step(cap, path[i - 1], a) == path[i];
      StepInv(cap, path[i - 1], a);
    }
  }

  // ---------------------------------------------------------------- what the log holds

  /**
   From a fresh log, however the threads interleave, once all copies are done the log holds
   the record of the i-th claimer in slot i; no slot was written twice.
   */
  lemma QuietLogIsRight(cap: nat, path: seq<State>)
    requires Path(cap, path) && Inv(cap, path[0]) && Quiet(path[|path| - 1])
    ensures LogIsRight(cap, path[|path| - 1])
    ensures var s := path[|path| - 1];
      forall i | 0 <= i < |s.claims| && i < cap :: StoredAs(s.details[i], s.claims[i])
  {
    var s := path[|path| - 1];
    PathInv(cap, path, |path| - 1);
    forall i | 0 <= i < Smaller(s.cur, cap) ensures s.written[i] == 1 {
      assert SlotOk(s, i);
    }
  }

  /** At any moment no slot was written more than once, and none beyond the claims. */
  lemma NeverTwice(cap: nat, path: seq<State>, i: nat, slot: nat)
    requires Path(cap, path) && Inv(cap, path[0]) && i < |path| && slot < cap
    ensures Typed(cap, path[i])
    ensures path[i].written[slot] <= 1
    ensures slot >= path[i].cur ==> path[i].written[slot] == 0
  {
    PathInv(cap, path, i);
    assert SlotOk(path[i], slot);
  }

  /** The bounded scan of the report. */
  method Scan(details: seq<Iodet>, curIodet: nat, niodet: nat) returns (rows: seq<Iodet>)
    requires |details| == niodet
    ensures rows == details[..Smaller(curIodet, niodet)]
  {
    var maxdet := curIodet;
    if maxdet > niodet {
      maxdet := niodet;
    }
    rows := [];
    for i := 0 to maxdet
      invariant rows == details[..i]
    {
      rows := rows + [details[i]];
    }
  }

  // ---------------------------------------------------------------- resets

  lemma Append(cap: nat, path: seq<State>, a: Action) returns (path': seq<State>, s: State)
    requires Path(cap, path) && Enabled(cap, path[|path| - 1], a)
    ensures Path(cap, path') && path'[0] == path[0]
    ensures s == path'[|path'| - 1] == Step(cap, path[|path| - 1], a)
  {
    s := Step(cap, path[|path| - 1], a);
    path' := path + [s];
    assert Next(cap, path[|path| - 1], s);
    forall i | 0 <= i < |path'| - 1 ensures Next(cap, path'[i], path'[i + 1]) {
      if i < |path| - 1 { assert Next(cap, path[i], path[i + 1]); }
    }
  }

  predicate InRange(cap: nat, s: State) {
    Typed(cap, s) && forall v | 0 <= v < |s.pcs| && s.pcs[v].Copying? :: s.pcs[v].slot < cap
  }

  /** A schedule in which the threads below `m`, except `t`, finish their copies. */
  lemma {:induction false} FinishOthers(cap: nat, s0: State, t: nat, m: nat) returns (path: seq<State>, s: State)
    requires InRange(cap, s0) && t < |s0.pcs| && m <= |s0.pcs|
    ensures Path(cap, path) && path[0] == s0 && s == path[|path| - 1]
    ensures InRange(cap, s) && |s.pcs| == |s0.pcs| && s.pcs[t] == s0.pcs[t]
    ensures s.cur == s0.cur && s.claims == s0.claims
    ensures forall v | 0 <= v < m && v != t :: s.pcs[v].Idle?
    decreases m
  {
    if m == 0 {
      path, s := [s0], s0;
    } else {
      path, s := FinishOthers(cap, s0, t, m - 1);
      if m - 1 != t && s.pcs[m - 1].Copying? {
        path, s := Append(cap, path, Copy(m - 1));
      }
    }
  }

  predicate OnlyCopier(s: State, t: nat) {
    forall v | 0 <= v < |s.pcs| && v != t :: s.pcs[v].Idle?
  }

  /** Then thread `u` adds the record `m` times. */
  lemma {:induction false} AddMany(cap: nat, s0: State, t: nat, u: nat, rec: Iodet, m: nat)
    returns (path: seq<State>, s: State)
    requires InRange(cap, s0) && t < |s0.pcs| && u < |s0.pcs| && t != u && s0.cur == 0 && s0.claims == [] && m <= cap
    ensures Path(cap, path) && path[0] == s0 && s == path[|path| - 1]
    ensures InRange(cap, s) && |s.pcs| == |s0.pcs| && s.pcs[t] == s0.pcs[t] && OnlyCopier(s, t)
    ensures s.cur == |s.claims| == m && forall i | 0 <= i < m :: s.claims[i] == rec
    decreases m
  {
    if m == 0 {
      path, s := FinishOthers(cap, s0, t, |s0.pcs|);
    } else {
      path, s := AddMany(cap, s0, t, u, rec, m - 1);
      path, s := Append(cap, path, Claim(u, rec));
      path, s := Append(cap, path, Copy(u));
    }
  }

  /** A copy that was under way at the reset can overwrite a record of the next stage. */
  lemma LateCopy(cap: nat, s0: State, t: nat) returns (path: seq<State>)
    requires InRange(cap, s0) && |s0.pcs| >= 2 && s0.cur == 0 && s0.claims == []
    requires t < |s0.pcs| && s0.pcs[t].Copying?
    ensures Path(cap, path) && path[0] == s0
    ensures Quiet(path[|path| - 1]) && !LogIsRight(cap, path[|path| - 1])
  {
    var slot, rec := s0.pcs[t].slot, s0.pcs[t].rec;
    var s: State;
    path, s := AddMany(cap, s0, t, if t == 0 then 1 else 0, rec.(data := rec.data + 1), slot + 1);
    path, s := Append(cap, path, Copy(t));
    assert s.details[slot] == Stamp(rec) && s.claims[slot] == rec.(data := rec.data + 1);
  }

  ghost predicate RightWhenQuiet(cap: nat, path: seq<State>)
    requires path != []
  {
    Quiet(path[|path| - 1]) ==> LogIsRight(cap, path[|path| - 1])
  }

  /**
   With two threads or more: after a reset the log will always be right once it is quiet
   exactly when no copy was under way at the reset. In a summary all io threads of ioload
   wait; but with a long-latency limit it also resets after each status report, while they run.
   */
  lemma ResetSafeIff(cap: nat, s: State, clear: bool)
    requires Inv(cap, s) && |s.pcs| >= 2
    ensures (forall path | Path(cap, path) && path[0] == Reset(cap, s, clear) :: RightWhenQuiet(cap, path)) <==> Quiet(s)
  {
    var s0 := Reset(cap, s, clear);
    if Quiet(s) {
      FreshInv(cap, s0);
      forall path | Path(cap, path) && path[0] == s0 ensures RightWhenQuiet(cap, path) {
        if Quiet(path[|path| - 1]) { QuietLogIsRight(cap, path); }
      }
    } else {
      var t :| 0 <= t < |s.pcs| && !s.pcs[t].Idle?;
      var path := LateCopy(cap, s0, t);
      assert !RightWhenQuiet(cap, path);
    }
  }
}
