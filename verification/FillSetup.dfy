/**
 How iofill prepares its io threads and what one of them does with a block number: the
 field-by-field set-up and the steps of the claim loop, against the geometry of the writes.
 */
module FillSetup {
  import opened Words
  import opened NumberTheory
  import opened FillGeometry

  /** With partitioning every thread gets a range of its own. */
  function Partitioned(p: Params, partition: bool, threadid: nat): Params {
    if partition
    then
      var minoff := U64(p.minoff + p.maxoff * threadid);
      p.(minoff := minoff, maxoff := U64(p.maxoff + p.maxoff * threadid))
    else p
  }

  /** The layout of the thread, when it is its own stream head. */
  function ThreadWindow(p: Params, threadid: nat): Layout
    requires p.size > 0
  {
    ThreadLayout(Partitioned(p, true, threadid))
  }

  predicate Reaches(l: Layout, x: nat) {
    l.minoff <= x < WindowEnd(l)
  }

  /** No byte lies in both windows. */
  ghost predicate Disjoint(a: Layout, b: Layout) {
    forall x: nat :: !(Reaches(a, x) && Reaches(b, x))
  }

  /** The range of the thread is so cut that its window ends where the next thread's begins, or before. */
  predicate FitsBefore(p: Params, threadid: nat)
    requires p.size > 0
  {
    var own := Partitioned(p, true, threadid);
    if own.minoff / p.size == own.maxoff / p.size then p.size <= p.maxoff
    else own.minoff % p.size <= p.minoff + own.maxoff % p.size
  }

  /** The offsets of the first `n` threads stay below 2^64. */
  predicate SmallPartitions(p: Params, n: nat) {
    WellTyped(p) && p.multiplier == 1 && p.minoff <= p.maxoff && n * p.maxoff + p.size < TWO64
  }

  /** Where the window of thread `i` begins and ends. */
  lemma PartitionWindow(p: Params, n: nat, i: nat)
    requires p.size > 0 && SmallPartitions(p, n) && i < n
    ensures ThreadWindow(p, i).minoff == p.minoff + i * p.maxoff
    ensures ThreadWindow(p, i).minoff < WindowEnd(ThreadWindow(p, i)) == EndOf(Partitioned(p, true, i))
    ensures WindowEnd(ThreadWindow(p, i)) <= p.minoff + (i + 1) * p.maxoff <==> FitsBefore(p, i)
  {
    MulMono(i + 1, n, p.maxoff);
    Unwrapped(p, i);
    var own := Partitioned(p, true, i);
    QuotientMono(own.minoff, own.maxoff, p.size);
    BlocksOf(own.maxoff, p.size);
    assert (i + 1) * p.maxoff == i * p.maxoff + p.maxoff;
    hide Partitioned;
    WindowInsideIff(own);
    hide U64, WindowEnd, ThreadLayout;
  }

  lemma QuotientMono(a: nat, b: nat, m: nat)
    requires a <= b && m > 0
    ensures a / m <= b / m
  {
    BlocksOf(a, m);
    BlocksOf(b, m);
    assert (b / m + 1) * m == (b / m) * m + m;
    if b / m + 1 <= a / m { MulMono(b / m + 1, a / m, m); }
  }

  lemma ApartIff(a: Layout, b: Layout)
    requires a.minoff <= b.minoff < WindowEnd(b)
    ensures Disjoint(a, b) <==> WindowEnd(a) <= b.minoff
  {
    hide WindowEnd;
    if WindowEnd(a) > b.minoff {
      assert Reaches(a, b.minoff) && Reaches(b, b.minoff);
    }
  }

  lemma WindowsApartIff(p: Params, n: nat, i: nat, j: nat)
    requires p.size > 0 && SmallPartitions(p, n) && i < j < n
    ensures Disjoint(ThreadWindow(p, i), ThreadWindow(p, j)) <==>
      WindowEnd(ThreadWindow(p, i)) <= p.minoff + j * p.maxoff
  {
    PartitionWindow(p, n, i);
    PartitionWindow(p, n, j);
    MulMono(i, j, p.maxoff);
    hide ThreadWindow, WindowEnd, EndOf, FitsBefore, SmallPartitions, Disjoint;
    ApartIff(ThreadWindow(p, i), ThreadWindow(p, j));
  }

  /**
   Threads that are partitioned write windows of their own exactly when each window but the
   last fits before the next, which the offsets decide modulo the block size.
   */
  lemma PartitionsDisjointIff(p: Params, n: nat)
    requires p.size > 0 && SmallPartitions(p, n)
    ensures (forall i: nat, j: nat | i < j < n :: Disjoint(ThreadWindow(p, i), ThreadWindow(p, j)))
       <==> (forall i: nat | i < n - 1 :: FitsBefore(p, i))
  {
    hide ThreadWindow, WindowEnd, EndOf, FitsBefore, SmallPartitions, Disjoint;
    if forall i: nat | i < n - 1 :: FitsBefore(p, i) {
      forall i: nat, j: nat | i < j < n ensures Disjoint(ThreadWindow(p, i), ThreadWindow(p, j)) {
        WindowsApartIff(p, n, i, j);
        PartitionWindow(p, n, i);
        MulMono(i + 1, j, p.maxoff);
      }
    } else {
      var i: nat :| i < n - 1 && !FitsBefore(p, i);
      WindowsApartIff(p, n, i, i + 1);
      PartitionWindow(p, n, i);
      assert !Disjoint(ThreadWindow(p, i), ThreadWindow(p, i + 1));
    }
  }

  /** The condition can fail: blocks of 1536 bytes in partitions of 2048 make threads 2 and 3 write the same bytes. */
  lemma PartitionsOverlap() returns (p: Params, x: nat)
    ensures p == Params(1536, 1, 1, 0, 0, 0, 0, 2048, 1) && SmallPartitions(p, 4) && !FitsBefore(p, 2)
    ensures Reaches(ThreadWindow(p, 2), x) && Reaches(ThreadWindow(p, 3), x)
  {
    p, x := Params(1536, 1, 1, 0, 0, 0, 0, 2048, 1), 6144;
    PartitionWindow(p, 4, 2);
    PartitionWindow(p, 4, 3);
    assert Partitioned(p, true, 2).minoff == 4096 && Partitioned(p, true, 2).maxoff == 6144;
  }

  lemma Unwrapped(p: Params, i: nat)
    requires p.minoff <= p.maxoff && p.maxoff + p.maxoff * i < TWO64
    ensures Partitioned(p, true, i).minoff == p.minoff + i * p.maxoff
    ensures Partitioned(p, true, i).maxoff == (i + 1) * p.maxoff
  {
    assert p.maxoff * i == i * p.maxoff && (i + 1) * p.maxoff == i * p.maxoff + p.maxoff;
  }

  /** The counter after a fetch-and-add of one. */
  function NextBno(bno: nat): (next: nat)
    ensures bno + 1 < TWO64 ==> next == bno + 1
  {
    U64(bno + 1)
  }

  lemma NextGrant(l: Layout, k: nat)
    requires l.rangeoff > 0 && l.nio > 0
    ensures SeqWrites(l, k + 1) == SeqWrites(l, k) + WritesOf(l, k % l.nio)
  {
  }

  /** The writes of an earlier grant come first. */
  lemma {:induction false} GrantsInOrder(l: Layout, g: nat, k: nat)
    requires l.rangeoff > 0 && l.nio > 0 && g < k
    ensures SeqWrites(l, g) + WritesOf(l, g % l.nio) <= SeqWrites(l, k)
    decreases k
  {
    NextGrant(l, k - 1);
    if g == k - 1 {
    } else {
      GrantsInOrder(l, g, k - 1);
    }
    hide SeqWrites, WritesOf;
  }

  /** The parameters that a thread gets a copy of, besides those of the geometry. */
  datatype Common = Common(
    partition: bool, writeinject: nat, injectintervalIo: nat, flush: nat, randseed: nat)

  /** Only thread 0 keeps its injection and flush parameters, and every thread has its own seed. */
  function CommonOf(cm: Common, threadid: nat, now: nat): Common {
    var own := if threadid == 0 then cm else cm.(writeinject := 0, injectintervalIo := 0, flush := 0);
    own.(randseed := SeedOf(cm, threadid, now))
  }

  /** Without a given seed a thread is seeded from the clock. */
  function SeedOf(cm: Common, threadid: nat, now: nat): nat {
    if cm.randseed == 0 then U32(U32(now) + threadid) else U32(cm.randseed + threadid)
  }

  /** Threads below 2^32 that were given a seed, or read the same clock, draw from seeds of their own. */
  lemma SeedsDiffer(cm: Common, i: nat, j: nat, now: nat)
    requires i < TWO32 && j < TWO32
    ensures SeedOf(cm, i, now) == SeedOf(cm, j, now) <==> i == j
    ensures cm.randseed != 0 && cm.randseed + i < TWO32 ==> SeedOf(cm, i, now) == cm.randseed + i
  {
    var seed := if cm.randseed == 0 then U32(now) else cm.randseed;
    ModEqual(seed + i, seed + j, TWO32);
  }

  class IoThread {
    const threadid: nat
    var params: Params
    var common: Common
    var minblks: nat
    var maxblks: nat
    var rangeoff: nat
    var nextbno: nat
    var streamhead: IoThread

    /** ithreadinit, without the injection list. */
    constructor (threadid: nat, cp: Params, cm: Common, now: nat)
      requires cp.size > 0
      ensures this.threadid == threadid && streamhead == this && nextbno == 0
      ensures common == CommonOf(cm, threadid, now)
      ensures params == Partitioned(cp, cm.partition, threadid).(headersz := HeaderSize(cp))
      ensures rangeoff == RangeOff(Partitioned(cp, cm.partition, threadid))
    {
      this.threadid := threadid;
      params := cp;
      common := cm;
      streamhead := this;
      minblks, maxblks, rangeoff, nextbno := 0, 0, 0, 0;
      new;
      if threadid != 0 {
        common := common.(writeinject := 0);
        common := common.(injectintervalIo := 0);
        common := common.(flush := 0);
      }
      if cm.randseed == 0 {
        common := common.(randseed := U32(U32(now) + threadid));
      } else {
        common := common.(randseed := U32(cm.randseed + threadid));
      }
      assert common == CommonOf(cm, threadid, now);
      if common.partition {
        params := params.(minoff := U64(params.minoff + params.maxoff * threadid));
        params := params.(maxoff := U64(params.maxoff + params.maxoff * threadid));
      }
      assert params == Partitioned(cp, cm.partition, threadid);
      SetRange();
      hide U64, U32, Partitioned, RangeOff;
      if params.headersz > params.size {
        params := params.(headersz := params.headersz % params.size);
      }
    }

    /** The part of ithreadinit that fixes the range. */
    method SetRange()
      requires params.size > 0
      modifies this`minblks, this`maxblks, this`rangeoff
      ensures minblks == MinBlks(params) && maxblks == MaxBlks(params) && rangeoff == RangeOff(params)
    {
      hide U64;
      minblks := params.minoff / params.size;
      maxblks := params.maxoff / params.size;
      if maxblks == 0 {
        maxblks := 1;
      }
      if maxblks == minblks {
        maxblks := minblks + 1;
      }
      assert maxblks == MaxBlks(params);
      hide MinBlks, MaxBlks;
      rangeoff := U64(U64(maxblks - minblks) * params.size);
    }

    /** The layout the claim loop works with: start and seek of the head of the stream, the rest its own. */
    ghost function Effective(): Layout
      reads this, streamhead
    {
      Layout(params.size, params.nio, streamhead.params.seekoff, params.headersz,
             params.skip, streamhead.params.minoff, params.multiplier, rangeoff)
    }

    /** A grant's writes in plain arithmetic, while nothing wraps: start and seek are those of the head of the stream. */
    ghost predicate Spelled(bno: nat, writes: seq<Extent>)
      requires rangeoff > 0
      reads this, streamhead
    {
      var at, m := streamhead.params.minoff, params.multiplier;
      var linear := streamhead.params.seekoff + params.headersz + params.size * (1 + params.skip) * bno;
      var start, end := at + m * (linear % rangeoff), at + m * rangeoff;
      && |writes| == (if bno == 0 && params.headersz != 0 then 2 else 1)
      && (Bounded(Effective(), bno) ==>
            && start < end && writes[|writes| - 1] == Extent(start, Smaller(params.size, end - start))
            && (|writes| == 2 ==>
                  writes[0] == Extent(at + m * (streamhead.params.seekoff % rangeoff), params.headersz)))
    }

    lemma GrantSpelled(bno: nat)
      requires rangeoff > 0
      ensures Spelled(bno, WritesOf(Effective(), bno))
    {
      if Bounded(Effective(), bno) {
        BodySpread(Effective(), bno);
        if bno == 0 { HeaderSpread(Effective()); }
      }
      hide Bounded, BodyExtent, HeaderExtent;
    }

    /** What the claim loop does for block number `bno`. */
    method Grant(bno: nat) returns (writes: seq<Extent>)
      requires rangeoff > 0 && params.size > 0
      ensures writes == WritesOf(Effective(), bno)
      ensures Spelled(bno, writes)
    {
      hide U64, U32;
      GrantSpelled(bno);
      hide Spelled;
      writes := [];
      var offset: nat;
      if bno == 0 && params.headersz != 0 {
        offset := streamhead.params.seekoff;
        offset := U64(streamhead.params.minoff + (offset % rangeoff) * params.multiplier);
        writes := writes + [Extent(offset, U32(params.headersz))];
      }
      offset := U64(streamhead.params.seekoff + params.headersz + params.size * (1 + params.skip) * bno);
      offset := U64(streamhead.params.minoff + (offset % rangeoff) * params.multiplier);
      var size := params.size;
      var end := U64(streamhead.params.minoff + rangeoff * params.multiplier);
      if U64(offset + params.size) > end {
        size := U32(end - offset);
      }
      writes := writes + [Extent(offset, size)];
    }

    /** The claim loop of a file that has only this thread, without errors or a time limit. */
    method RunAlone(totalio: nat) returns (log: seq<Extent>)
      requires rangeoff > 0 && params.size > 0 && params.nio > 0 && totalio < TWO64
      ensures log == SeqWrites(Effective(), totalio)
    {
      log := [];
      var threadBno := 0;
      while true
        invariant threadBno <= totalio && log == SeqWrites(Effective(), threadBno)
        decreases totalio - threadBno
      {
        var bno := threadBno;
        if bno >= totalio {
          break;
        }
        threadBno := NextBno(threadBno);
        var writes := Grant(bno % params.nio);
        NextGrant(Effective(), bno);
        log := log + writes;
        hide WritesOf, SeqWrites;
      }
      hide SeqWrites, WritesOf;
    }
  }

  /** The stream head of thread `j`: threads share heads only when there are fewer streams than threads. */
  function HeadOf(j: nat, streams: nat, nthreads: nat): nat {
    if 1 < streams < nthreads then j % streams else j
  }

  /** set_streamhead: a search through the file's threads. */
  method SetStreamhead(itp: IoThread, ithreads: seq<IoThread>, streamid: nat)
    requires streamid < |ithreads| && forall j | 0 <= j < |ithreads| :: ithreads[j].threadid == j
    modifies itp`streamhead
    ensures itp.streamhead == ithreads[streamid]
  {
    for k := 0 to |ithreads|
      invariant k <= streamid
    {
      if ithreads[k].threadid == streamid {
        itp.streamhead := ithreads[k];
        break;
      }
    }
  }

  /** What init_threads leaves in thread `j` of a file. */
  ghost predicate SetUp(t: IoThread, j: nat, cp: Params, cm: Common, clock: nat -> nat)
    requires cp.size > 0
    reads t`common, t`params, t`rangeoff, t`nextbno
  {
    && t.threadid == j && t.nextbno == 0 && t.common == CommonOf(cm, j, clock(j))
    && t.params == Partitioned(cp, cm.partition, j).(headersz := HeaderSize(cp))
    && t.rangeoff == RangeOff(Partitioned(cp, cm.partition, j))
  }

  /** After set-up only the first thread injects and flushes, and what is not partitioned or seeded is as given. */
  lemma OwnParameters(t: IoThread, j: nat, cp: Params, cm: Common, clock: nat -> nat)
    requires cp.size > 0 && SetUp(t, j, cp, cm, clock)
    ensures t.common.writeinject == (if j == 0 then cm.writeinject else 0)
    ensures t.common.injectintervalIo == (if j == 0 then cm.injectintervalIo else 0)
    ensures t.common.flush == (if j == 0 then cm.flush else 0)
    ensures t.common.partition == cm.partition
    ensures t.params.size == cp.size && t.params.nio == cp.nio && t.params.nrep == cp.nrep
    ensures t.params.seekoff == cp.seekoff && t.params.skip == cp.skip && t.params.multiplier == cp.multiplier
    ensures !cm.partition ==> t.params.minoff == cp.minoff && t.params.maxoff == cp.maxoff
  {
  }

  /** With fewer streams than threads, the heads are the first threads, and threads share one by their number. */
  lemma HeadsShared(j: nat, k: nat, streams: nat, nthreads: nat)
    requires j < nthreads && k < nthreads
    ensures 1 < streams < nthreads ==>
      && HeadOf(j, streams, nthreads) < streams
      && (HeadOf(j, streams, nthreads) == HeadOf(k, streams, nthreads) <==> Divides(streams, j - k))
      && (j < streams ==> HeadOf(j, streams, nthreads) == j)
    ensures !(1 < streams < nthreads) ==> HeadOf(j, streams, nthreads) == j
  {
    if 1 < streams {
      ModEqual(j, k, streams);
      Reduced(j, streams);
    }
    hide Divides;
  }

  lemma Reduced(x: nat, m: nat)
    requires m > 0
    ensures 0 <= x % m < m && (x < m ==> x % m == x)
  {
  }

  /** Threads are put at the front of the list from the last to the first. */
  method BuildThreads(cp: Params, nthreads: nat, cm: Common, clock: nat -> nat)
    returns (ithreads: seq<IoThread>)
    requires cp.size > 0
    ensures |ithreads| == nthreads && forall j | 0 <= j < nthreads :: fresh(ithreads[j])
    ensures forall j | 0 <= j < nthreads ::
      SetUp(ithreads[j], j, cp, cm, clock) && ithreads[j].streamhead == ithreads[j]
  {
    hide SetUp;
    ithreads := [];
    var j: int := nthreads - 1;
    while j >= 0
      invariant -1 <= j < nthreads && |ithreads| == nthreads - 1 - j
      invariant forall k | 0 <= k < |ithreads| :: fresh(ithreads[k])
      invariant forall k | 0 <= k < |ithreads| :: SetUp(ithreads[k], j + 1 + k, cp, cm, clock)
      invariant forall k | 0 <= k < |ithreads| :: ithreads[k].streamhead == ithreads[k]
    {
      var itp := NewThread(j, cp, cm, clock);
      ithreads := [itp] + ithreads;
      j := j - 1;
    }
  }

  method NewThread(j: nat, cp: Params, cm: Common, clock: nat -> nat) returns (itp: IoThread)
    requires cp.size > 0
    ensures fresh(itp) && SetUp(itp, j, cp, cm, clock) && itp.streamhead == itp
  {
    itp := new IoThread(j, cp, cm, clock(j));
  }

  /**
   init_threads for one file; `clock` is what each thread reads from the clock. The list is
   in the order of the thread numbers, only the first thread injects, and with fewer streams
   than threads the streams are shared out.
   */
  method InitThreads(cp: Params, nthreads: nat, streams: nat, cm: Common, clock: nat -> nat)
    returns (ithreads: seq<IoThread>)
    requires cp.size > 0
    ensures |ithreads| == nthreads
    ensures forall j | 0 <= j < nthreads :: SetUp(ithreads[j], j, cp, cm, clock)
    ensures forall j | 0 <= j < nthreads :: ithreads[j].streamhead == ithreads[HeadOf(j, streams, nthreads)]
  {
    ithreads := BuildThreads(cp, nthreads, cm, clock);
    assert forall k | 0 <= k < nthreads :: ithreads[k].threadid == k;
    hide SetUp;
    if streams > 1 && streams < nthreads {
      for i := 0 to nthreads
        invariant forall k | 0 <= k < nthreads :: SetUp(ithreads[k], k, cp, cm, clock)
        invariant forall k | 0 <= k < i :: ithreads[k].streamhead == ithreads[HeadOf(k, streams, nthreads)]
        invariant forall k | i <= k < nthreads :: ithreads[k].streamhead == ithreads[k]
      {
        SetStreamhead(ithreads[i], ithreads, ithreads[i].threadid % streams);
      }
    }
  }

  /** Without streams and partitioning a thread works with the layout the coverage theorems are about. */
  lemma EffectiveIsThreadLayout(t: IoThread, j: nat, cp: Params, cm: Common, clock: nat -> nat)
    requires cp.size > 0 && SetUp(t, j, cp, cm, clock) && !cm.partition && t.streamhead == t
    ensures t.Effective() == ThreadLayout(cp)
  {
  }
}
