// The benchmark's work distribution: workers claim chunks from one atomic counter and merge their
// local counts into one atomic total. Every atomic access is one step; steps interleave freely.
module ChunkClaiming {
  import opened Words
  import opened BitSlicer
  import opened Machine
  import opened ComparisonKernel

  // ----- the reference -----

  /** How many of the first n prices exceed the threshold. */
  function CountGreater(prices: seq<Word>, n: nat, threshold: Word): nat
    requires n <= |prices|
  {
    if n == 0 then 0 else CountGreater(prices, n - 1, threshold) + Int(prices[n - 1] > threshold)
  }

  /** The single-threaded reference loop. */
  method ScalarReferenceCount(prices: seq<Word>, rows: nat, threshold: Word) returns (count: nat)
    requires rows <= |prices|
    ensures count == CountGreater(prices, rows, threshold)
  {
    count := 0;
    for i := 0 to rows
      invariant count == CountGreater(prices, i, threshold)
    {
      if prices[i] > threshold { count := count + 1; }
    }
  }

  // ----- one chunk -----

  function ChunkOf(prices: seq<Word>, chunk: nat): (values: seq<Word>)
    requires 64 * chunk + 64 <= |prices|
    ensures |values| == 64
  {
    prices[64 * chunk..64 * chunk + 64]
  }

  /** The comparison mask of a chunk. */
  function ChunkMask(prices: seq<Word>, threshold: Word, chunk: nat): (mask: Word)
    requires 64 * chunk + 64 <= |prices|
    ensures forall r | 0 <= r < 64 :: Bit(mask, r) == (prices[64 * chunk + r] > threshold)
  {
    var values := ChunkOf(prices, chunk);
    assert forall r | 0 <= r < 64 :: values[r] == prices[64 * chunk + r];
    Pack(seq(64, r requires 0 <= r < 64 => values[r] > threshold))
  }

  /** Whatever state the kernel halts in after slicing a chunk, x0 holds the chunk's mask. */
  lemma KernelGivesMask(prices: seq<Word>, threshold: Word, chunk: nat, s: State, t: State)
    requires 64 * chunk + 64 <= |prices| && PlanesEntry(s)
    requires Reaches(CompareProgram(threshold), [Transpose(ChunkOf(prices, chunk))], Running(0, s), Halted(t))
    ensures t.regs[0] == Num(ChunkMask(prices, threshold, chunk))
  {
    var values := ChunkOf(prices, chunk);
    var u, mask := ComparisonDecides(values, threshold, s);
    HaltsOnce(CompareProgram(threshold), [Transpose(values)], Running(0, s), Halted(u), Halted(t));
    forall r | 0 <= r < 64 ensures Bit(mask, r) == Bit(ChunkMask(prices, threshold, chunk), r) {
      assert values[r] == prices[64 * chunk + r];
    }
    WordsEqual(mask, ChunkMask(prices, threshold, chunk));
  }

  function ChunkCount(prices: seq<Word>, threshold: Word, chunk: nat): nat
    requires 64 * chunk + 64 <= |prices|
  {
    PopCount(ChunkMask(prices, threshold, chunk))
  }

  lemma {:induction false} PopIsCount(prices: seq<Word>, threshold: Word, chunk: nat, k: nat)
    requires 64 * chunk + 64 <= |prices| && k <= 64
    ensures CountGreater(prices, 64 * chunk, threshold) + PopUpTo(ChunkMask(prices, threshold, chunk), k)
            == CountGreater(prices, 64 * chunk + k, threshold)
  {
    hide ChunkMask;
    if k > 0 { PopIsCount(prices, threshold, chunk, k - 1); }
  }

  // ----- workers -----

  datatype Phase = Claiming | Holding(chunk: nat) | Merging | Finished

  datatype Worker = Worker(phase: Phase, matches: nat)

  /** The shared counter and total, the workers, and two history variables: who claimed each chunk and
      which chunks have been counted. */
  datatype World = World(counter: nat, total: nat, workers: seq<Worker>, owner: map<nat, nat>, counted: set<nat>)

  datatype Input = Input(prices: seq<Word>, threshold: Word)
  {
    function Chunks(): (n: nat)
      ensures 64 * n <= |prices| < 64 * n + 64
    {
      |prices| / 64
    }
  }

  function Launch(threads: nat): World {
    World(0, 0, seq(threads, t => Worker(Claiming, 0)), map[], {})
  }

  /** One step of worker w: claim the next chunk, count the chunk it holds, or merge its local count. */
  function Step(input: Input, s: World, w: nat): World
    requires w < |s.workers| && (s.workers[w].phase.Holding? ==> s.workers[w].phase.chunk < input.Chunks())
  {
    var me := s.workers[w];
    match me.phase
    case Claiming =>
      var chunk := s.counter;
      if chunk >= input.Chunks() then s.(counter := chunk + 1, workers := s.workers[w := me.(phase := Merging)])
      else s.(counter := chunk + 1, workers := s.workers[w := me.(phase := Holding(chunk))],
          owner := s.owner[chunk := w])
    case Holding(chunk) =>
      var found := ChunkCount(input.prices, input.threshold, chunk);
      s.(workers := s.workers[w := Worker(Claiming, me.matches + found)], counted := s.counted + {chunk})
    case Merging => s.(total := s.total + me.matches, workers := s.workers[w := me.(phase := Finished)])
    case Finished => s
  }

  // ----- the invariant -----

  /** The local counts that have not been merged yet. */
  function Unmerged(workers: seq<Worker>): nat {
    if workers == [] then 0
    else Unmerged(workers[..|workers| - 1]) + Pending(workers[|workers| - 1])
  }

  function Pending(w: Worker): nat {
    if w.phase == Finished then 0 else w.matches
  }

  /** The matches of those of the first n chunks that are in the set. */
  function SumOver(input: Input, chunks: set<nat>, n: nat): nat
    requires n <= input.Chunks()
  {
    if n == 0 then 0
    else SumOver(input, chunks, n - 1) + if n - 1 in chunks then ChunkCount(input.prices, input.threshold, n - 1) else 0
  }

  /** A worker that holds a chunk owns it and has not counted it; one that stopped claiming has seen
      the counter beyond the last chunk. */
  ghost predicate WorkerInv(input: Input, s: World, w: nat)
    requires w < |s.workers|
  {
    match s.workers[w].phase
    case Holding(c) => c in s.owner && s.owner[c] == w && c !in s.counted && c < input.Chunks()
    case Claiming => true
    case _ => s.counter > input.Chunks()
  }

  /** A claimed chunk is counted or still held by its owner. */
  ghost predicate ChunkInv(s: World, c: nat) {
    c in s.owner ==> s.owner[c] < |s.workers| && (c in s.counted || s.workers[s.owner[c]].phase == Holding(c))
  }

  ghost predicate Inv(input: Input, s: World) {
    (forall c: nat :: c in s.owner <==> c < s.counter && c < input.Chunks())
    && (forall w | 0 <= w < |s.workers| :: WorkerInv(input, s, w))
    && (forall c: nat :: ChunkInv(s, c))
    && (forall c | c in s.counted :: c in s.owner)
    && s.total + Unmerged(s.workers) == SumOver(input, s.counted, input.Chunks())
  }

  lemma {:induction false} UnmergedUpdate(workers: seq<Worker>, w: nat, me: Worker)
    requires w < |workers|
    ensures Unmerged(workers[w := me]) + Pending(workers[w]) == Unmerged(workers) + Pending(me)
    decreases |workers|
  {
    var n := |workers| - 1;
    if w < n {
      assert workers[w := me][..n] == workers[..n][w := me];
      UnmergedUpdate(workers[..n], w, me);
    } else {
      assert workers[w := me][..n] == workers[..n];
    }
  }

  lemma {:induction false} SumOverAdd(input: Input, chunks: set<nat>, c: nat, n: nat)
    requires n <= input.Chunks() && c !in chunks && c < input.Chunks()
    ensures SumOver(input, chunks + {c}, n) ==
            SumOver(input, chunks, n) + if c < n then ChunkCount(input.prices, input.threshold, c) else 0
    decreases n
  {
    hide ChunkCount;
    if n > 0 { SumOverAdd(input, chunks, c, n - 1); }
  }

  lemma {:induction false} NothingUnmerged(threads: nat)
    ensures Unmerged(seq(threads, t => Worker(Claiming, 0))) == 0
  {
    if threads > 0 {
      NothingUnmerged(threads - 1);
      assert seq(threads, t => Worker(Claiming, 0))[..threads - 1] == seq(threads - 1, t => Worker(Claiming, 0));
    }
  }

  lemma {:induction false} NothingCounted(input: Input, n: nat)
    requires n <= input.Chunks()
    ensures SumOver(input, {}, n) == 0
  {
    if n > 0 { NothingCounted(input, n - 1); }
  }

  lemma LaunchInv(input: Input, threads: nat)
    ensures Inv(input, Launch(threads))
  {
    NothingUnmerged(threads);
    NothingCounted(input, input.Chunks());
  }

  /** Every step of every worker keeps the invariant. */
  lemma StepKeepsInv(input: Input, s: World, w: nat)
    requires Inv(input, s) && w < |s.workers|
    ensures WorkerInv(input, s, w) && Inv(input, Step(input, s, w))
  {
    hide SumOver, ChunkCount, Unmerged;
    assert WorkerInv(input, s, w);
    var t := Step(input, s, w);
    UnmergedUpdate(s.workers, w, t.workers[w]);
    if s.workers[w].phase.Holding? { SumOverAdd(input, s.counted, s.workers[w].phase.chunk, input.Chunks()); }
    forall v | 0 <= v < |t.workers| ensures WorkerInv(input, t, v) {
      assert WorkerInv(input, s, v);
    }
    forall c: nat ensures ChunkInv(t, c) {
      assert ChunkInv(s, c);
    }
  }

  // ----- runs -----

  /** The world after a schedule of worker steps; steps of workers that do not exist do nothing. */
  function RunSchedule(input: Input, threads: nat, schedule: seq<nat>): (s: World)
    ensures Inv(input, s) && |s.workers| == threads
  {
    if schedule == [] then LaunchInv(input, threads); Launch(threads)
    else
      var n := |schedule| - 1;
      var s := RunSchedule(input, threads, schedule[..n]);
      if schedule[n] < threads then StepKeepsInv(input, s, schedule[n]); Step(input, s, schedule[n]) else s
  }

  ghost predicate AllFinished(s: World) {
    forall w | 0 <= w < |s.workers| :: s.workers[w].phase == Finished
  }

  lemma {:induction false} AllMerged(workers: seq<Worker>)
    requires forall w | 0 <= w < |workers| :: workers[w].phase == Finished
    ensures Unmerged(workers) == 0
  {
    if workers != [] { AllMerged(workers[..|workers| - 1]); }
  }

  lemma NoneGreater(prices: seq<Word>, threshold: Word)
    ensures CountGreater(prices, 0, threshold) == 0
  {
  }

  lemma {:induction false} AllCounted(input: Input, chunks: set<nat>, n: nat)
    requires n <= input.Chunks() && forall c: nat | c < n :: c in chunks
    ensures SumOver(input, chunks, n) == CountGreater(input.prices, 64 * n, input.threshold)
  {
    hide CountGreater, ChunkMask;
    NoneGreater(input.prices, input.threshold);
    if n > 0 {
      AllCounted(input, chunks, n - 1);
      PopIsCount(input.prices, input.threshold, n - 1, 64);
    }
  }

  /** Under every schedule: the claimed chunks are exactly those below the counter, each claimed by one
      existing worker, and merged plus unmerged counts are the matches of the counted chunks. */
  lemma ClaimsAreExact(input: Input, threads: nat, schedule: seq<nat>)
    ensures var s := RunSchedule(input, threads, schedule);
            (forall c: nat :: c in s.owner <==> c < s.counter && c < input.Chunks())
            && (forall c: nat | c in s.owner :: s.owner[c] < threads)
            && s.counted <= s.owner.Keys
            && s.total + Unmerged(s.workers) == SumOver(input, s.counted, input.Chunks())
  {
    var s := RunSchedule(input, threads, schedule);
    forall c: nat | c in s.owner ensures s.owner[c] < threads { assert ChunkInv(s, c); }
  }

  /** Once every worker has finished, the total is the reference count over all whole chunks. */
  lemma TotalAtJoin(input: Input, threads: nat, schedule: seq<nat>)
    requires threads > 0 && AllFinished(RunSchedule(input, threads, schedule))
    ensures RunSchedule(input, threads, schedule).total
        == CountGreater(input.prices, 64 * input.Chunks(), input.threshold)
  {
    var s := RunSchedule(input, threads, schedule);
    AllMerged(s.workers);
    assert WorkerInv(input, s, 0);
    forall c: nat | c < input.Chunks() ensures c in s.counted { assert ChunkInv(s, c); }
    AllCounted(input, s.counted, input.Chunks());
  }

  lemma {:induction false} TailCount(prices: seq<Word>, m: nat, n: nat, threshold: Word)
    requires m <= n <= |prices|
    ensures CountGreater(prices, m, threshold) <= CountGreater(prices, n, threshold)
    ensures CountGreater(prices, m, threshold) == CountGreater(prices, n, threshold)
            <==> forall i | m <= i < n :: prices[i] <= threshold
    decreases n
  {
    if m < n { TailCount(prices, m, n - 1, threshold); }
  }

  /** The total is the count over all rows if and only if no row of a partial last chunk exceeds the threshold. */
  lemma TotalExactIff(input: Input, threads: nat, schedule: seq<nat>)
    requires threads > 0 && AllFinished(RunSchedule(input, threads, schedule))
    ensures RunSchedule(input, threads, schedule).total == CountGreater(input.prices, |input.prices|, input.threshold)
            <==> forall i | 64 * input.Chunks() <= i < |input.prices| :: input.prices[i] <= input.threshold
  {
    TotalAtJoin(input, threads, schedule);
    TailCount(input.prices, 64 * input.Chunks(), |input.prices|, input.threshold);
  }

  // ----- termination -----

  // ----- the counter -----

  /** Workers that have seen the counter beyond the last chunk. */
  function Turned(workers: seq<Worker>): nat {
    if workers == [] then 0
    else Turned(workers[..|workers| - 1]) + TurnedOne(workers[|workers| - 1])
  }

  function TurnedOne(w: Worker): nat {
    if w.phase == Merging || w.phase == Finished then 1 else 0
  }

  lemma {:induction false} TurnedUpdate(workers: seq<Worker>, w: nat, me: Worker)
    requires w < |workers|
    ensures Turned(workers[w := me]) + TurnedOne(workers[w]) == Turned(workers) + TurnedOne(me)
    decreases |workers|
  {
    var n := |workers| - 1;
    if w < n {
      assert workers[w := me][..n] == workers[..n][w := me];
      TurnedUpdate(workers[..n], w, me);
    } else {
      assert workers[w := me][..n] == workers[..n];
    }
  }

  lemma {:induction false} NoneTurned(threads: nat)
    ensures Turned(seq(threads, t => Worker(Claiming, 0))) == 0
  {
    if threads > 0 {
      NoneTurned(threads - 1);
      assert seq(threads, t => Worker(Claiming, 0))[..threads - 1] == seq(threads - 1, t => Worker(Claiming, 0));
    }
  }

  /** Every fetch is accounted for: the counter is the chunks claimed and one more for each worker that
      has turned away. */
  ghost predicate CounterExact(input: Input, s: World) {
    if Turned(s.workers) == 0 then s.counter <= input.Chunks() else s.counter == input.Chunks() + Turned(s.workers)
  }

  lemma {:induction false} CounterKept(input: Input, threads: nat, schedule: seq<nat>)
    ensures CounterExact(input, RunSchedule(input, threads, schedule))
    decreases |schedule|
  {
    if schedule == [] {
      NoneTurned(threads);
    } else {
      var n := |schedule| - 1;
      var s, w := RunSchedule(input, threads, schedule[..n]), schedule[n];
      CounterKept(input, threads, schedule[..n]);
      if w < threads {
        StepKeepsInv(input, s, w);
        var t := Step(input, s, w);
        TurnedUpdate(s.workers, w, t.workers[w]);
        assert t.workers == s.workers[w := t.workers[w]];
      }
    }
  }

  lemma {:induction false} AllTurned(workers: seq<Worker>)
    requires forall w | 0 <= w < |workers| :: workers[w].phase == Finished
    ensures Turned(workers) == |workers|
  {
    if workers != [] { AllTurned(workers[..|workers| - 1]); }
  }

  /** At join the counter has been fetched once for every chunk and once more by every worker, and every
      chunk has been counted. */
  lemma CounterAtJoin(input: Input, threads: nat, schedule: seq<nat>)
    requires threads > 0 && AllFinished(RunSchedule(input, threads, schedule))
    ensures var s := RunSchedule(input, threads, schedule);
            s.counter == input.Chunks() + threads && forall c: nat :: c in s.owner <==> c < input.Chunks()
  {
    CounterKept(input, threads, schedule);
    AllTurned(RunSchedule(input, threads, schedule).workers);
  }

  function Rank(p: Phase): nat {
    match p
    case Holding(_) => 3
    case Claiming => 2
    case Merging => 1
    case Finished => 0
  }

  function Ranks(workers: seq<Worker>): nat {
    if workers == [] then 0 else Ranks(workers[..|workers| - 1]) + Rank(workers[|workers| - 1].phase)
  }

  /** Work left: two units for every unclaimed chunk and the rank of every worker. */
  function Work(input: Input, s: World): nat {
    Ranks(s.workers) + if s.counter < input.Chunks() then 2 * (input.Chunks() - s.counter) else 0
  }

  lemma {:induction false} RanksUpdate(workers: seq<Worker>, w: nat, me: Worker)
    requires w < |workers|
    ensures Ranks(workers[w := me]) + Rank(workers[w].phase) == Ranks(workers) + Rank(me.phase)
    decreases |workers|
  {
    var n := |workers| - 1;
    if w < n {
      assert workers[w := me][..n] == workers[..n][w := me];
      RanksUpdate(workers[..n], w, me);
    } else {
      assert workers[w := me][..n] == workers[..n];
    }
  }

  /** Every step of an unfinished worker uses up work, so no run goes on forever. */
  lemma StepUsesWork(input: Input, s: World, w: nat)
    requires Inv(input, s) && w < |s.workers| && s.workers[w].phase != Finished
    ensures WorkerInv(input, s, w) && Work(input, Step(input, s, w)) < Work(input, s)
  {
    hide SumOver, ChunkCount, Unmerged, Ranks;
    assert WorkerInv(input, s, w);
    RanksUpdate(s.workers, w, Step(input, s, w).workers[w]);
  }

  /** Every run can be continued until all workers have finished. */
  lemma {:induction false} CanFinish(input: Input, threads: nat, schedule: seq<nat>) returns (full: seq<nat>)
    ensures schedule <= full && AllFinished(RunSchedule(input, threads, full))
    decreases Work(input, RunSchedule(input, threads, schedule))
  {
    var s := RunSchedule(input, threads, schedule);
    if AllFinished(s) {
      full := schedule;
    } else {
      var w :| 0 <= w < threads && s.workers[w].phase != Finished;
      StepUsesWork(input, s, w);
      assert (schedule + [w])[..|schedule|] == schedule;
      full := CanFinish(input, threads, schedule + [w]);
    }
  }
}
