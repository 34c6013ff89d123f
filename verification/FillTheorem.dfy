/**
 What iofill is for: whatever the number of threads and however they interleave, a run
 that is not stopped fills the window.
 */
module FillTheorem {
  import opened Words
  import opened NumberTheory
  import opened FillGeometry
  import opened FillCoverage
  import opened ClaimProtocol

  /** A file set up with `nrep` repetitions of `nio` blocks over a window of `n` blocks. */
  predicate FileConfig(c: Config, n: nat, nrep: nat) {
    && WellFormed(c) && NoWrap(c) && c.nthreads > 0 && nrep > 0 && c.layout.nio > 0
    && Plain(c.layout, n, c.layout.nio) && c.totalio == c.layout.nio * nrep
  }

  /** A run in which every thread has left its loop and no write failed or was late. */
  ghost predicate CompleteRun(c: Config, run: seq<State>)
    requires WellFormed(c)
  {
    Run(c, run) && AllExited(run[|run| - 1]) && run[|run| - 1].stops == 0
  }

  /** No write has failed or come too late so far. */
  predicate Undisturbed(s: State) {
    s.stops == 0 && forall t | 0 <= t < |s.threads| && s.threads[t].Finishing? :: !s.threads[t].stop
  }

  /** A run without a stop so far can be carried on to a complete one. */
  lemma {:induction false} Completed(c: Config, run: seq<State>) returns (whole: seq<State>)
    requires WellFormed(c) && NoWrap(c) && Run(c, run) && Undisturbed(run[|run| - 1])
    ensures CompleteRun(c, whole) && run <= whole
    decreases 5 * c.totalio + c.nthreads + c.injections + 1 - |run|
  {
    if AllExited(run[|run| - 1]) {
      whole := run;
    } else {
      var s', t := NeverStuck(c, run);
      assert Next(c, run[|run| - 1], s');
      assert !InjectedStop(c, run[|run| - 1], s', t);
      var longer := run + [s'];
      forall i | 0 <= i < |longer| - 1 ensures Next(c, longer[i], longer[i + 1]) {
        if i < |run| - 1 { assert Next(c, run[i], run[i + 1]); }
      }
      RunsEnd(c, longer);
      whole := Completed(c, longer);
    }
  }

  /** There are complete runs for every file: the theorems below are never about nothing. */
  lemma CompleteRunExists(c: Config) returns (run: seq<State>)
    requires WellFormed(c) && NoWrap(c)
    ensures CompleteRun(c, run)
  {
    var s := State(0, seq(c.nthreads, _ => Ready), [], [], 0, 0);
    run := Completed(c, [s]);
  }

  lemma CompleteLog(c: Config, n: nat, nrep: nat, run: seq<State>)
    requires FileConfig(c, n, nrep) && CompleteRun(c, run)
    ensures multiset(run[|run| - 1].log) == multiset(SeqWrites(c.layout, c.layout.nio * nrep))
  {
    GrantsFillPrefix(c, run, |run| - 1);
    assert c.totalio > 0 by { PositiveProduct(c.layout.nio, nrep); }
    RunRefinesOneThread(c, run, |run| - 1);
  }

  lemma PositiveProduct(a: nat, b: nat)
    requires a > 0 && b > 0
    ensures a * b > 0
  {
  }

  /**
   With as many block numbers as the window has blocks, every interleaving writes each byte
   of the window exactly once a repetition and no other byte, if and only if the stride is
   coprime to the block count and header and seek fit.
   */
  lemma EveryRunFillsExactly(c: Config, n: nat, nrep: nat, run: seq<State>)
    requires FileConfig(c, n, nrep) && c.layout.nio == n && CompleteRun(c, run)
    ensures FilledExactly(run[|run| - 1].log, c.layout, nrep) <==> ExactFill(c.layout, n)
  {
    var log, ws := run[|run| - 1].log, SeqWrites(c.layout, c.layout.nio * nrep);
    CompleteLog(c, n, nrep, run);
    ExactFillIff(c.layout, n, nrep);
    forall b: nat ensures Hits(log, b) == Hits(ws, b) {
      HitsPermutation(log, ws, b);
    }
  }

  /**
   With at least as many block numbers as the window has blocks, every interleaving leaves
   no byte of the window unwritten, if and only if the covering condition holds.
   */
  lemma EveryRunCovers(c: Config, n: nat, nrep: nat, run: seq<State>)
    requires FileConfig(c, n, nrep) && c.layout.nio >= n && CompleteRun(c, run)
    ensures Filled(run[|run| - 1].log, c.layout) <==> CoveringFill(c.layout, n)
  {
    var log, ws := run[|run| - 1].log, SeqWrites(c.layout, c.layout.nio * nrep);
    CompleteLog(c, n, nrep, run);
    CoveringFillIff(c.layout, n, nrep);
    forall b: nat ensures Hits(log, b) == Hits(ws, b) {
      HitsPermutation(log, ws, b);
    }
  }

  /** The file that init_threads makes of command parameters. */
  function FileOf(p: Params, nthreads: nat, injections: nat): Config
    requires p.size > 0
  {
    Config(ThreadLayout(p), TotalIo(p), nthreads, injections)
  }

  /**
   From the command line to the device: parameters whose count is the number of blocks of
   the range fill it exactly, whatever the interleaving, if and only if the stride is
   coprime to that number and header and seek fit.
   */
  lemma OptionsFillExactly(p: Params, nthreads: nat, injections: nat, n: nat, run: seq<State>)
    requires WellTyped(p) && p.multiplier == 1 && p.skip >= 0 && nthreads > 0 && p.nrep > 0
    requires p.minoff / p.size <= p.maxoff / p.size && p.nio == n == MaxBlks(p) - MinBlks(p)
    requires p.minoff + n * p.size + p.size < TWO64 && p.nio * p.nrep < TWO64
    requires p.seekoff + HeaderSize(p) + p.size * (1 + p.skip) * p.nio < TWO64
    requires WellFormed(FileOf(p, nthreads, injections)) && NoWrap(FileOf(p, nthreads, injections))
    requires CompleteRun(FileOf(p, nthreads, injections), run)
    ensures FilledExactly(run[|run| - 1].log, ThreadLayout(p), p.nrep) <==> ExactFill(ThreadLayout(p), n)
  {
    PlainThread(p, n, p.nio);
    TotalIoIs(p);
    hide Plain, CompleteRun, NoWrap, MaxBlks, MinBlks, HeaderSize, RangeOff, TotalIo, ExactFill, FilledExactly;
    EveryRunFillsExactly(FileOf(p, nthreads, injections), n, p.nrep, run);
  }

  /** For example: 64 threads fill 8 blocks of 16 KB with a stride of 3, after a header of 1 KB. */
  lemma SampleOptions() returns (p: Params, run: seq<State>)
    ensures p.size == 16384 && p.nio == 8 && p.skip == 2 && p.headersz == 1024
    ensures WellFormed(FileOf(p, 64, 0)) && CompleteRun(FileOf(p, 64, 0), run)
    ensures FilledExactly(run[|run| - 1].log, ThreadLayout(p), p.nrep)
  {
    p := Params(16384, 8, 1, 0, 1024, 2, 0, 131072, 1);
    assert MaxBlks(p) == 8 && MinBlks(p) == 0;
    TotalIoIs(p);
    run := CompleteRunExists(FileOf(p, 64, 0));
    OptionsFillExactly(p, 64, 0, 8, run);
    assert Gcd(3, 8) == Gcd(8, 3) == Gcd(3, 2) == Gcd(2, 1) == Gcd(1, 0) == 1;
    hide FilledExactly, CompleteRun;
  }

  lemma TotalIoIs(p: Params)
    requires p.nio * p.nrep < TWO64
    ensures TotalIo(p) == p.nio * p.nrep
  {
  }

  /** Whatever happens, stopped or not, a body write stays inside the window. */
  lemma EveryRunStaysInside(c: Config, n: nat, nrep: nat, run: seq<State>, e: Extent)
    requires FileConfig(c, n, nrep) && Run(c, run) && e in run[|run| - 1].log
    ensures e == HeaderExtent(c.layout)
         || (c.layout.minoff <= e.off && e.off + e.len <= c.layout.minoff + c.layout.rangeoff)
  {
    RunInv(c, run, |run| - 1);
    assert e in multiset(run[|run| - 1].log);
    if c.totalio > 0 {
      assert e in multiset(SeqWrites(c.layout, |run[|run| - 1].granted|));
      WriteInside(c.layout, n, |run[|run| - 1].granted|, e);
    }
  }

  lemma {:induction false} WriteInside(l: Layout, n: nat, k: nat, e: Extent)
    requires Plain(l, n, l.nio) && l.nio > 0 && l.rangeoff > 0 && e in SeqWrites(l, k)
    ensures e == HeaderExtent(l) || (l.minoff <= e.off && e.off + e.len <= l.minoff + l.rangeoff)
    decreases k
  {
    if k == 0 {
    } else {
      if e in SeqWrites(l, k - 1) {
        WriteInside(l, n, k - 1, e);
      } else {
        hide BodyExtent, HeaderExtent, WindowBytes, Reach;
        BodyInside(l, n, (k - 1) % l.nio, l.nio);
      }
    }
  }
}
