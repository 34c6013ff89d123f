/**
 iofill's own account of its I/Os: the count, the I/Os of each second and the latency
 buckets that every completion updates, and the tables printed from them.
 */
module FillTallies {
  import opened Words
  import opened LatencyHistogram

  const NSEC: nat := 20000
  const NSTATTYPES: nat := 8
  const SECOND: nat := 1_000_000_000

  datatype Io = Io(start: nat, end: nat, typ: nat, size: nat)

  /** How the read or write call ended; `Full` is a device without room or a short transfer. */
  datatype Ending = Done | Full | Failed

  /** What io_finish does to the other threads: nothing, stop their claims, or end the program. */
  datatype Outcome = Continue | StopAll | Exit

  // ---------------------------------------------------------------- sums

  lemma {:induction false} PrefixUpdate(s: seq<nat>, k: nat, n: nat)
    requires k < |s| && n <= |s|
    ensures Prefix(s[k := s[k] + 1], n) == Prefix(s, n) + if k < n then 1 else 0
  {
    if n == 0 {
    } else {
      PrefixUpdate(s, k, n - 1);
    }
  }

  lemma {:induction false} PrefixZeros(s: seq<nat>, m: nat, n: nat)
    requires m <= n <= |s| && forall i | m <= i < n :: s[i] == 0
    ensures Prefix(s, n) == Prefix(s, m)
    decreases n
  {
    if m == n {
    } else {
      PrefixZeros(s, m, n - 1);
    }
  }

  function LatsOf(evs: seq<Io>, t: nat): seq<nat> {
    if evs == [] then []
    else
      var c := evs[|evs| - 1];
      LatsOf(evs[..|evs| - 1], t) + if c.typ == t then [U64(c.end - c.start)] else []
  }

  /** How many of the I/Os have a type below `n`. */
  function TypesBelow(evs: seq<Io>, n: nat): nat {
    if n == 0 then 0 else TypesBelow(evs, n - 1) + |LatsOf(evs, n - 1)|
  }

  lemma {:induction false} TypesSnoc(evs: seq<Io>, c: Io, n: nat)
    ensures TypesBelow(evs + [c], n) == TypesBelow(evs, n) + if c.typ < n then 1 else 0
  {
    if n == 0 {
    } else {
      TypesSnoc(evs, c, n - 1);
      assert (evs + [c])[..|evs|] == evs;
    }
  }

  lemma {:induction false} TypesAll(evs: seq<Io>)
    requires forall c | c in evs :: c.typ < NSTATTYPES
    ensures TypesBelow(evs, NSTATTYPES) == |evs|
  {
    if evs == [] {
      NoTypes(NSTATTYPES);
    } else {
      TypesAll(evs[..|evs| - 1]);
      assert evs == evs[..|evs| - 1] + [evs[|evs| - 1]];
      TypesSnoc(evs[..|evs| - 1], evs[|evs| - 1], NSTATTYPES);
    }
  }

  lemma {:induction false} NoTypes(n: nat)
    ensures TypesBelow([], n) == 0
  {
    if n == 0 {
    } else {
      NoTypes(n - 1);
    }
  }

  /** All latency buckets of all types together. */
  function BucketSum(h: seq<seq<nat>>, n: nat): nat
    requires n <= |h| && forall t | 0 <= t < n :: |h[t]| == NLATBKTS
  {
    if n == 0 then 0 else BucketSum(h, n - 1) + Prefix(h[n - 1], NLATBKTS)
  }

  ghost predicate Bucketed(h: seq<seq<nat>>, evs: seq<Io>) {
    |h| == NSTATTYPES && forall t | 0 <= t < NSTATTYPES :: IsHistogram(h[t], LatsOf(evs, t))
  }

  lemma {:induction false} BucketsHoldAll(h: seq<seq<nat>>, evs: seq<Io>, n: nat)
    requires Bucketed(h, evs) && n <= NSTATTYPES
    ensures BucketSum(h, n) == TypesBelow(evs, n)
  {
    if n == 0 {
    } else {
      BucketsHoldAll(h, evs, n - 1);
      PrefixIsBelow(h[n - 1], LatsOf(evs, n - 1), NLATBKTS);
    }
  }

  /** One more I/O is one more in the bucket of its type and latency. */
  lemma BucketedSnoc(h: seq<seq<nat>>, evs: seq<Io>, c: Io)
    requires Bucketed(h, evs) && c.typ < NSTATTYPES
    ensures |h| == NSTATTYPES && |h[c.typ]| == NLATBKTS
    ensures var b := BucketOf(U64(c.end - c.start));
      Bucketed(h[c.typ := h[c.typ][b := h[c.typ][b] + 1]], evs + [c])
  {
    var x := U64(c.end - c.start);
    assert (evs + [c])[..|evs|] == evs;
    HistogramSnoc(h[c.typ], LatsOf(evs, c.typ), x);
    forall t | 0 <= t < NSTATTYPES
      ensures LatsOf(evs + [c], t) == if c.typ == t then LatsOf(evs, t) + [x] else LatsOf(evs, t)
    {
    }
    hide BucketOf, U64, IsHistogram, LatsOf;
  }

  lemma HistogramSnoc(h: seq<nat>, lats: seq<nat>, x: nat)
    requires IsHistogram(h, lats)
    ensures IsHistogram(h[BucketOf(x) := h[BucketOf(x)] + 1], lats + [x])
  {
    assert (lats + [x])[..|lats|] == lats;
    hide BucketOf;
  }

  // ---------------------------------------------------------------- rows of the per-second table

  function CountRow(rows: seq<nat>, k: nat): nat {
    if rows == [] then 0 else CountRow(rows[..|rows| - 1], k) + if rows[|rows| - 1] == k then 1 else 0
  }

  lemma CountRowSnoc(rows: seq<nat>, r: nat, k: nat)
    ensures CountRow(rows + [r], k) == CountRow(rows, k) + if r == k then 1 else 0
  {
    assert (rows + [r])[..|rows|] == rows;
  }

  /** How many seconds the clock has gone on since the first I/O. */
  function Elapsed(first: nat, c: Io): int {
    (c.start - first) / SECOND
  }

  /** No I/O is put into a later second than its own. */
  ghost predicate NoneEarly(evs: seq<Io>, rows: seq<nat>, first: nat) {
    |rows| == |evs| && forall i | 0 <= i < |evs| :: first <= evs[i].start && rows[i] <= Elapsed(first, evs[i])
  }

  /** The next boundary is one second after `ticks` whole ones, all of which had passed. */
  predicate Ticking(first: nat, nextsec: nat, ticks: nat, latest: nat) {
    && nextsec == first + (1 + ticks) * SECOND
    && first + ticks * SECOND <= latest
  }

  /** An I/O that does not pass the boundary falls into the second that was counted, unless it sits on it. */
  lemma StaysInSecond(first: nat, nextsec: nat, ticks: nat, latest: nat, c: Io)
    requires Ticking(first, nextsec, ticks, latest) && latest <= c.start <= nextsec
    ensures Ticking(first, nextsec, ticks, c.start)
    ensures Elapsed(first, c) == if c.start < nextsec then ticks else ticks + 1
  {
  }

  /** An I/O past the boundary moves it on by one second, even when more have gone by. */
  lemma PassesBoundary(first: nat, nextsec: nat, ticks: nat, latest: nat, c: Io)
    requires Ticking(first, nextsec, ticks, latest) && c.start > nextsec
    ensures Ticking(first, nextsec + SECOND, ticks + 1, c.start)
    ensures Elapsed(first, c) >= ticks + 1
    ensures Elapsed(first, c) == ticks + 1 <==> c.start < nextsec + SECOND
  {
  }

  /** The row of the table for the second counted; the last row takes all later seconds. */
  function Row(ticks: nat): (r: nat)
    ensures r < NSEC
  {
    if ticks < NSEC then ticks else NSEC - 1
  }

  function NextSec(nextsec: nat, c: Io): nat {
    if nextsec == 0 then c.start + SECOND else if c.start > nextsec then nextsec + SECOND else nextsec
  }

  function Ticks(nextsec: nat, ticks: nat, c: Io): nat {
    if nextsec != 0 && c.start > nextsec then ticks + 1 else ticks
  }

  ghost predicate Clocked(evs: seq<Io>, rows: seq<nat>, nextsec: nat, ticks: nat) {
    && |rows| == |evs| && (nextsec == 0 <==> evs == []) && (evs == [] ==> ticks == 0)
    && (evs != [] ==>
          Ticking(evs[0].start, nextsec, ticks, evs[|evs| - 1].start) && NoneEarly(evs, rows, evs[0].start))
  }

  lemma ClockedNext(evs: seq<Io>, rows: seq<nat>, nextsec: nat, ticks: nat, c: Io)
    requires Clocked(evs, rows, nextsec, ticks) && (evs != [] ==> evs[|evs| - 1].start <= c.start)
    ensures var ticks' := Ticks(nextsec, ticks, c);
      && Clocked(evs + [c], rows + [Row(ticks')], NextSec(nextsec, c), ticks')
      && (ticks' < NSEC ==>
            (Row(ticks') == Elapsed((evs + [c])[0].start, c) <==> c.start < NextSec(nextsec, c)))
  {
    if evs == [] {
      assert (evs + [c]) == [c];
    } else {
      var first, latest := evs[0].start, evs[|evs| - 1].start;
      if c.start > nextsec {
        PassesBoundary(first, nextsec, ticks, latest, c);
      } else {
        StaysInSecond(first, nextsec, ticks, latest, c);
      }
      hide Elapsed, Ticking;
    }
  }

  ghost predicate Seconds(s: seq<nat>, rows: seq<nat>, n: nat) {
    && |s| == NSEC && n < NSEC && Prefix(s, NSEC) == |rows|
    && (forall k | 0 <= k < NSEC :: s[k] == CountRow(rows, k))
    && (forall k | n < k < NSEC :: s[k] == 0)
  }

  function Bumped(s: seq<nat>, k: nat): seq<nat>
    requires k < |s|
  {
    s[k := s[k] + 1]
  }

  lemma SecondsNext(s: seq<nat>, rows: seq<nat>, n: nat, n': nat)
    requires Seconds(s, rows, n) && n <= n' < NSEC
    ensures Seconds(Bumped(s, n'), rows + [n'], n')
  {
    PrefixUpdate(s, n', NSEC);
    forall k | 0 <= k < NSEC ensures CountRow(rows + [n'], k) == CountRow(rows, k) + if n' == k then 1 else 0 {
      CountRowSnoc(rows, n', k);
    }
    hide Prefix, CountRow;
  }

  /** One bucket of one type holds one more, and nothing else has changed. */
  predicate OneMoreIn(h: seq<seq<nat>>, h': seq<seq<nat>>, typ: nat, bkt: nat) {
    && |h| == |h'| == 8 && (forall t | 0 <= t < 8 :: |h[t]| == |h'[t]| == 100000)
    && forall t, b | 0 <= t < 8 && 0 <= b < 100000 :: h'[t][b] == h[t][b] + if t == typ && b == bkt then 1 else 0
  }

  lemma OneMoreBucket(h: seq<seq<nat>>, evs: seq<Io>, c: Io)
    requires Bucketed(h, evs) && c.typ < NSTATTYPES && c.start <= c.end && Measurable(c.end - c.start)
    ensures |h| == NSTATTYPES && |h[c.typ]| == NLATBKTS
    ensures var b := BucketOf(U64(c.end - c.start));
      OneMoreIn(h, h[c.typ := h[c.typ][b := h[c.typ][b] + 1]], c.typ, Smaller((c.end - c.start) / 10000, 99999))
  {
    BucketRightIff(c.end - c.start);
    hide BucketOf, Measurable, Smaller, U32;
  }

  class IoThread {
    var iocount: nat
    var nextsec: nat
    var nseconds: nat
    const seconds: array<nat>
    var latbuckets: seq<seq<nat>>       // by type, then by bucket
    ghost var evs: seq<Io>              // the I/Os that were completed
    ghost var rows: seq<nat>            // the second each was counted in
    ghost var ticks: nat                // how often the second was advanced

    ghost predicate Valid()
      reads this, seconds
    {
      && seconds.Length == NSEC && iocount == |evs| && (forall c | c in evs :: c.typ < NSTATTYPES)
      && Bucketed(latbuckets, evs)
      && nseconds == Row(ticks) && Seconds(seconds[..], rows, nseconds)
      && Clocked(evs, rows, nextsec, ticks)
    }

    constructor ()
      ensures Valid() && evs == [] && fresh(seconds)
    {
      iocount, nextsec, nseconds := 0, 0, 0;
      seconds := new nat[NSEC](_ => 0);
      latbuckets := seq(NSTATTYPES, _ => seq(NLATBKTS, _ => 0));
      evs, rows, ticks := [], [], 0;
      new;
      PrefixZeros(seconds[..], 0, NSEC);
    }

    /** The part of io_finish that counts the latency. */
    method CountLatency(c: Io)
      requires Bucketed(latbuckets, evs) && c.typ < NSTATTYPES
      modifies this`latbuckets
      ensures Bucketed(latbuckets, evs + [c])
      ensures c.start <= c.end && Measurable(c.end - c.start) ==>
        OneMoreIn(old(latbuckets), latbuckets, c.typ, Smaller((c.end - c.start) / 10000, 99999))
    {
      hide Bucketed, BucketOf, U64, OneMoreIn, Smaller, Measurable;
      var lat := U64(c.end - c.start);
      var bkt := BucketOf(lat);
      if c.start <= c.end && Measurable(c.end - c.start) { OneMoreBucket(latbuckets, evs, c); }
      BucketedSnoc(latbuckets, evs, c);
      latbuckets := latbuckets[c.typ := latbuckets[c.typ][bkt := latbuckets[c.typ][bkt] + 1]];
    }

    /**
     io_finish. A thread's I/Os follow one another, so their start times do not decrease.
     The clock is not near the end of its range.
     */
    method Finish(c: Io, ending: Ending, endtime: nat) returns (outcome: Outcome)
      requires Valid() && c.typ < NSTATTYPES
      requires evs != [] ==> evs[|evs| - 1].start <= c.start
      modifies this, seconds
      ensures Valid()
      ensures ending == Done ==> evs == old(evs) + [c] && |rows| == |old(rows)| + 1 && old(rows) <= rows
      ensures ending != Done ==> evs == old(evs) && rows == old(rows)
      ensures outcome == match ending
        case Done => if old(evs) != [] && c.start > old(nextsec) && c.start > endtime then StopAll else Continue
        case Full => StopAll
        case Failed => Exit
      ensures ending == Done ==> iocount == old(iocount) + 1
      ensures ending == Done && old(nextsec) == 0 ==> nextsec == c.start + 1_000_000_000
      ensures ending == Done && old(nextsec) > 0 ==>
        nextsec == old(nextsec) + if c.start > old(nextsec) then 1_000_000_000 else 0
      ensures ending == Done ==>
        seconds[..] == old(seconds[..])[nseconds := old(seconds[..])[nseconds] + 1]
      ensures ending == Done ==>
        nseconds == old(nseconds) + if 0 < old(nextsec) < c.start && old(nseconds) < 19999 then 1 else 0
      ensures ending == Done && c.start <= c.end && Measurable(c.end - c.start) ==>
        OneMoreIn(old(latbuckets), latbuckets, c.typ, Smaller((c.end - c.start) / 10000, 99999))
      ensures ending == Done && ticks < NSEC ==>
        (rows[|rows| - 1] == Elapsed(evs[0].start, c) <==> c.start < nextsec)
    {
      hide Bucketed, BucketOf, U64, Elapsed, NoneEarly, Ticking, Seconds, OneMoreIn, Smaller, Measurable;
      outcome := Continue;
      if ending != Done {
        outcome := if ending == Full then StopAll else Exit;
        return;
      }
      ClockedNext(evs, rows, nextsec, ticks, c);
      assert evs == [] <==> nextsec == 0;
      hide Clocked;
      ticks := Ticks(nextsec, ticks, c);
      if nextsec == 0 {
        nextsec := c.start + SECOND;
      } else if c.start > nextsec {
        nextsec := nextsec + SECOND;
        if nseconds < NSEC - 1 {
          nseconds := nseconds + 1;
        }
        if c.start > endtime {
          outcome := StopAll;
        }
      }
      CountLatency(c);
      SecondsNext(seconds[..], rows, Row(old(ticks)), nseconds);
      seconds[nseconds] := seconds[nseconds] + 1;
      assert seconds[..] == Bumped(old(seconds[..]), nseconds);
      evs, rows := evs + [c], rows + [nseconds];
      iocount := iocount + 1;
    }
  }

  /** The three tallies of a thread agree: the count, the table of seconds, the latency buckets. */
  lemma TalliesAgree(t: IoThread)
    requires t.Valid()
    ensures t.nseconds <= NSEC - 1
    ensures Prefix(t.seconds[..], t.nseconds + 1) == t.iocount
    ensures BucketSum(t.latbuckets, NSTATTYPES) == t.iocount
  {
    PrefixZeros(t.seconds[..], t.nseconds + 1, NSEC);
    TypesAll(t.evs);
    BucketsHoldAll(t.latbuckets, t.evs, NSTATTYPES);
    hide Bucketed, Clocked;
  }

  // ---------------------------------------------------------------- the per-second table

  /** The I/Os of all columns in the first `n` rows. */
  function TotalTo(cols: seq<seq<nat>>, n: nat): nat
    requires forall j | 0 <= j < |cols| :: n <= |cols[j]|
  {
    if cols == [] then 0 else TotalTo(cols[..|cols| - 1], n) + Prefix(cols[|cols| - 1], n)
  }

  function RowTotal(cols: seq<seq<nat>>, i: nat): nat
    requires forall j | 0 <= j < |cols| :: i < |cols[j]|
  {
    if cols == [] then 0 else RowTotal(cols[..|cols| - 1], i) + cols[|cols| - 1][i]
  }

  lemma {:induction false} TotalNext(cols: seq<seq<nat>>, n: nat)
    requires forall j | 0 <= j < |cols| :: n < |cols[j]|
    ensures TotalTo(cols, n + 1) == TotalTo(cols, n) + RowTotal(cols, n)
  {
    if cols == [] {
    } else {
      TotalNext(cols[..|cols| - 1], n);
    }
  }

  lemma {:induction false} TotalNone(cols: seq<seq<nat>>)
    ensures TotalTo(cols, 0) == 0
  {
    if cols == [] {
    } else {
      TotalNone(cols[..|cols| - 1]);
    }
  }

  ghost function Columns(ts: seq<IoThread>): (cols: seq<seq<nat>>)
    reads (set t | t in ts :: t.seconds)
    ensures |cols| == |ts| && forall j | 0 <= j < |ts| :: cols[j] == ts[j].seconds[..]
  {
    if ts == [] then [] else Columns(ts[..|ts| - 1]) + [ts[|ts| - 1].seconds[..]]
  }

  ghost predicate AllValid(ts: seq<IoThread>)
    reads (set t | t in ts), (set t | t in ts :: t.seconds)
  {
    forall j | 0 <= j < |ts| :: ts[j].Valid()
  }

  ghost function IoCounts(ts: seq<IoThread>): nat
    reads (set t | t in ts)
  {
    if ts == [] then 0 else IoCounts(ts[..|ts| - 1]) + ts[|ts| - 1].iocount
  }

  /** Rows past every thread's last second add up to all the I/Os there were. */
  lemma {:induction false} TotalAll(ts: seq<IoThread>, n: nat)
    requires AllValid(ts) && n <= NSEC && forall j | 0 <= j < |ts| :: ts[j].nseconds < n
    ensures forall j | 0 <= j < |ts| :: |Columns(ts)[j]| == NSEC
    ensures TotalTo(Columns(ts), n) == IoCounts(ts)
  {
    if ts == [] {
    } else {
      var t := ts[|ts| - 1];
      TotalAll(ts[..|ts| - 1], n);
      assert Columns(ts)[..|ts| - 1] == Columns(ts[..|ts| - 1]);
      assert t.Valid();
      PrefixZeros(t.seconds[..], n, NSEC);
      hide Bucketed, Clocked, Prefix;
    }
  }

  function RowCells(cols: seq<seq<nat>>, i: nat): (row: seq<nat>)
    requires forall j | 0 <= j < |cols| :: i < |cols[j]|
    ensures |row| == |cols| && forall j | 0 <= j < |cols| :: row[j] == cols[j][i]
  {
    seq(|cols|, j requires 0 <= j < |cols| => cols[j][i])
  }

  /**
   output_seconds over the threads of all files: a row for each second with the counters of
   all threads and their sum, so that every I/O that was counted is printed in one row.
   */
  method OutputSeconds(ts: seq<IoThread>) returns (cells: seq<seq<nat>>, totals: seq<nat>)
    requires AllValid(ts)
    ensures |cells| == |totals| <= NSEC && forall j | 0 <= j < |ts| :: ts[j].nseconds < |totals| <= ts[j].seconds.Length
    ensures forall i | 0 <= i < |cells| :: |cells[i]| == |ts|
    ensures forall i, j | 0 <= i < |cells| && 0 <= j < |ts| :: cells[i][j] == ts[j].seconds[i]
    ensures forall i | 0 <= i < |totals| :: totals[i] == Prefix(cells[i], |cells[i]|)
    ensures Prefix(totals, |totals|) == IoCounts(ts)
  {
    var maxsec := LastSecond(ts);
    if maxsec < NSEC {
      maxsec := maxsec + 1;
    }
    TotalAll(ts, maxsec);
    cells, totals := PrintRows(ts, maxsec, Columns(ts));
    hide AllValid, IoCounts, Prefix, TotalTo, Columns;
  }

  method PrintRows(ts: seq<IoThread>, maxsec: nat, ghost cols: seq<seq<nat>>)
    returns (cells: seq<seq<nat>>, totals: seq<nat>)
    requires |cols| == |ts| && forall j | 0 <= j < |ts| :: cols[j] == ts[j].seconds[..] && |cols[j]| == NSEC
    requires maxsec <= NSEC
    ensures |cells| == |totals| == maxsec
    ensures forall i | 0 <= i < maxsec :: cells[i] == RowCells(cols, i)
    ensures forall i | 0 <= i < maxsec :: totals[i] == Prefix(cells[i], |cells[i]|)
    ensures Prefix(totals, maxsec) == TotalTo(cols, maxsec)
  {
    TotalNone(cols);
    cells, totals := [], [];
    assert Prefix(totals, 0) == 0;
    hide Prefix, TotalTo, RowTotal, RowCells;
    for i := 0 to maxsec
      invariant |cells| == |totals| == i
      invariant forall k | 0 <= k < i :: cells[k] == RowCells(cols, k)
      invariant forall k | 0 <= k < i :: totals[k] == Prefix(cells[k], |cells[k]|)
      invariant Prefix(totals, i) == TotalTo(cols, i)
    {
      var row, totio := OutputRow(ts, i, cols);
      TotalNext(cols, i);
      PrefixSnoc(totals, totio);
      cells, totals := cells + [row], totals + [totio];
    }
  }

  lemma PrefixSnoc(s: seq<nat>, x: nat)
    ensures Prefix(s + [x], |s| + 1) == Prefix(s, |s|) + x
  {
    PrefixAppend(s, x, |s|);
  }

  method LastSecond(ts: seq<IoThread>) returns (maxsec: nat)
    requires AllValid(ts)
    ensures maxsec < NSEC && forall j | 0 <= j < |ts| :: ts[j].nseconds <= maxsec && ts[j].seconds.Length == NSEC
  {
    maxsec := 0;
    for j := 0 to |ts|
      invariant maxsec < NSEC && forall k | 0 <= k < j :: ts[k].nseconds <= maxsec && ts[k].seconds.Length == NSEC
    {
      assert ts[j].Valid();
      if ts[j].nseconds > maxsec {
        maxsec := ts[j].nseconds;
      }
    }
  }

  lemma {:induction false} PrefixAppend(s: seq<nat>, x: nat, n: nat)
    requires n <= |s|
    ensures Prefix(s + [x], n) == Prefix(s, n)
  {
    if n == 0 {
    } else {
      PrefixAppend(s, x, n - 1);
    }
  }

  method OutputRow(ts: seq<IoThread>, i: nat, ghost cols: seq<seq<nat>>) returns (row: seq<nat>, totio: nat)
    requires |cols| == |ts| && forall j | 0 <= j < |ts| :: cols[j] == ts[j].seconds[..] && i < |cols[j]|
    ensures row == RowCells(cols, i) && totio == RowTotal(cols, i) == Prefix(row, |row|)
  {
    row, totio := [], 0;
    for j := 0 to |ts|
      invariant totio == Prefix(row, |row|)
      invariant |row| == j && forall k | 0 <= k < j :: row[k] == cols[k][i]
      invariant totio == RowTotal(cols[..j], i)
    {
      assert cols[..j + 1][..j] == cols[..j];
      PrefixSnoc(row, ts[j].seconds[i]);
      row, totio := row + [ts[j].seconds[i]], totio + ts[j].seconds[i];
    }
    assert cols[..|ts|] == cols;
  }

  // ---------------------------------------------------------------- the rows of the latency table

  const LGMAX: seq<nat> := [10000, 0xffff_ffff]
  const LGROUP: seq<nat> := [5, 1000]

  /** A printed row: the latency it reaches to, in microseconds, and its number of I/Os. */
  datatype LatencyRow = LatencyRow(latency: nat, count: nat)

  /** How many buckets the rows up to row `k` take: five for each up to ten milliseconds, then a thousand. */
  function RowEnd(k: nat): nat {
    if k < 200 then 5 * (k + 1) else 1000 * (k - 198)
  }

  function RowStart(k: nat): nat {
    if k == 0 then 0 else RowEnd(k - 1)
  }

  function RowOf(h: seq<nat>, k: nat): LatencyRow
    requires |h| == NLATBKTS && k < 299
  {
    PrefixMonotone(h, RowStart(k), RowEnd(k));
    LatencyRow(10 * RowEnd(k), Prefix(h, RowEnd(k)) - Prefix(h, RowStart(k)))
  }

  function SumOf(s: seq<nat>): nat {
    if s == [] then 0 else s[0] + SumOf(s[1..])
  }

  lemma {:induction false} PrefixSlice(h: seq<nat>, a: nat, b: nat)
    requires a <= b <= |h|
    ensures Prefix(h, b) == Prefix(h, a) + SumOf(h[a..b])
    decreases b - a
  {
    if a == b {
    } else {
      PrefixSlice(h, a + 1, b);
      assert h[a..b][1..] == h[a + 1..b];
    }
  }

  /**
   The table in plain numbers: 200 rows of 50 microseconds each, up to ten milliseconds,
   then 99 rows of ten milliseconds, up to a second; each counts its own buckets.
   */
  lemma RowsAre(h: seq<nat>, k: nat)
    requires |h| == 100000 && k < 299
    ensures k < 200 ==> RowOf(h, k) == LatencyRow(50 * (k + 1), SumOf(h[5 * k..5 * k + 5]))
    ensures k >= 200 ==> RowOf(h, k) == LatencyRow(10000 * (k - 198), SumOf(h[1000 * (k - 199)..1000 * (k - 198)]))
  {
    PrefixSlice(h, RowStart(k), RowEnd(k));
    hide Prefix, SumOf;
  }

  /**
   The grouping loop of printbuckets for one column. The rows divide the buckets among
   them without a gap, and the index into the group tables stays inside them.
   */
  method GroupRows(h: seq<nat>) returns (rows: seq<LatencyRow>)
    requires |h| == NLATBKTS
    ensures |rows| == 299 && RowEnd(298) == NLATBKTS
    ensures forall k | 0 <= k < |rows| :: rows[k] == RowOf(h, k)
  {
    rows := [];
    var i, gn, latency := 0, 0, 0;
    while i < NLATBKTS
      invariant |rows| <= 299 && i == RowStart(|rows|) && latency == 10 * i
      invariant gn == if i < 1000 then 0 else 1
      invariant forall k | 0 <= k < |rows| :: rows[k] == RowOf(h, k)
      decreases NLATBKTS - i
    {
      var rc;
      rc, i, latency := GroupRow(h, i, LGROUP[gn], latency);
      assert i == RowEnd(|rows|);
      hide Prefix;
      rows := rows + [LatencyRow(latency, rc)];
      if latency >= LGMAX[gn] && gn < 2 {
        gn := gn + 1;
      }
    }
  }

  /** The inner loop: one group of buckets. */
  method GroupRow(h: seq<nat>, from: nat, group: nat, before: nat) returns (rc: nat, i: nat, latency: nat)
    requires from <= |h| == NLATBKTS
    ensures i == (if from + group < NLATBKTS then from + group else NLATBKTS)
    ensures Prefix(h, i) == Prefix(h, from) + rc && latency == before + 10 * (i - from)
  {
    var j := 0;
    rc, i, latency := 0, from, before;
    while j < group && i < NLATBKTS
      invariant j <= group && i == from + j <= NLATBKTS && latency == before + 10 * j
      invariant Prefix(h, i) == Prefix(h, from) + rc
    {
      rc := rc + h[i];
      latency := latency + LATDIV / 1000;
      j, i := j + 1, i + 1;
    }
  }
}
