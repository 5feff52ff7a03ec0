// The static partition of rows over worker threads.
module ParallelRunner {
  import opened Words
  import opened Ir
  import opened Rows
  import opened Counting
  import opened Chunks

  // ----- the partition -----

  /** Rows per thread: the largest number of whole chunks that fits once for every thread, and at least
      one chunk. */
  function Share(total: nat, threads: nat): (rows: nat)
    requires threads > 0
    ensures rows >= 64 && rows % 64 == 0
    ensures rows == 64 || rows * threads <= total
    ensures (rows + 64) * threads > total
  {
    LargestShare(total, threads);
    if total / threads / 64 * 64 == 0 then 64 else total / threads / 64 * 64
  }

  lemma LargestShare(total: nat, threads: nat)
    requires threads > 0
    ensures var rows := total / threads / 64 * 64;
            rows * threads <= total < (rows + 64) * threads && (rows == 0 ==> 128 * threads > total)
  {
    var q := total / threads;
    var rows := q / 64 * 64;
    assert q * threads <= total < (q + 1) * threads;
    MulMono(threads, rows, q);
    MulMono(threads, q + 1, rows + 64);
    MulMono(threads, 64, 128);
  }

  function Start(total: nat, threads: nat, t: nat): nat
    requires threads > 0
  {
    t * Share(total, threads)
  }

  /** The last thread takes the rest; the others a full share, even past the last row. */
  function End(total: nat, threads: nat, t: nat): nat
    requires threads > 0
  {
    if t == threads - 1 then total else Start(total, threads, t) + Share(total, threads)
  }

  predicate Started(total: nat, threads: nat, t: nat)
    requires threads > 0
  {
    t < threads && Start(total, threads, t) < total
  }

  /** Some thread's share passes the last row: a partial last chunk that is not the last thread's. */
  predicate Overruns(total: nat, threads: nat)
    requires threads > 0
  {
    total % 64 != 0 && total <= 64 * (threads - 1)
  }

  /** A share cut from the division fits threads times; otherwise it is one chunk. */
  lemma ShareFits(total: nat, threads: nat)
    requires threads > 0
    ensures Share(total, threads) * threads <= total || (Share(total, threads) == 64 && total < 64 * threads)
  {
    var q := total / threads;
    assert q * threads <= total;
    var s := q / 64 * 64;
    if s == 0 {
      assert q < 64;
      assert total < (q + 1) * threads;
      MulMono(threads, q + 1, 64);
    } else {
      MulMono(threads, s, q);
    }
  }

  lemma StartsAligned(total: nat, threads: nat, t: nat)
    requires threads > 0
    ensures Start(total, threads, t) % 64 == 0
  {
    var s := Share(total, threads);
    assert s == 64 * (s / 64);
    assert t * s == 64 * (t * (s / 64));
  }

  lemma StartAfter(total: nat, threads: nat, t: nat)
    requires threads > 0
    ensures Start(total, threads, t + 1) == Start(total, threads, t) + Share(total, threads)
  {
  }

  lemma SharesFit(total: nat, threads: nat, t: nat)
    requires threads > 0 && t < threads - 1 && Share(total, threads) * threads <= total
    ensures Start(total, threads, t + 1) <= total
  {
    MulMono(Share(total, threads), t + 1, threads);
    hide Share;
  }

  lemma RoundedUp(total: nat)
    ensures total <= RoundUp(total)
  {
  }

  lemma NonLastFits(total: nat, threads: nat, t: nat)
    requires threads > 0 && t < threads - 1 && Start(total, threads, t) < total
    ensures Start(total, threads, t + 1) <= RoundUp(total)
    ensures !Overruns(total, threads) ==> Start(total, threads, t + 1) <= total
  {
    hide *;
    ShareFits(total, threads);
    RoundedUp(total);
    if Share(total, threads) * threads <= total {
      SharesFit(total, threads, t);
    } else {
      OneChunkShare(total, threads, t);
    }
  }

  lemma OneChunkShare(total: nat, threads: nat, t: nat)
    requires threads > 0 && t < threads - 1 && Share(total, threads) == 64 && Start(total, threads, t) < total
    ensures Start(total, threads, t) == 64 * t && Start(total, threads, t + 1) == 64 * t + 64
    ensures 64 * t + 64 <= RoundUp(total) && (!Overruns(total, threads) ==> 64 * t + 64 <= total)
  {
    hide Share;
  }

  lemma LastStarts(total: nat, threads: nat)
    requires threads > 0 && Start(total, threads, threads - 1) < total
    ensures !Overruns(total, threads)
  {
    MulMono(threads - 1, 64, Share(total, threads));
    hide Share;
  }

  /** How far the started ranges reach, and that a non-last range stays inside the rounded total. */
  lemma RangeEnd(total: nat, threads: nat, t: nat)
    requires threads > 0 && Started(total, threads, t)
    ensures t < threads - 1 ==> End(total, threads, t) <= RoundUp(total)
    ensures t < threads - 1 && !Overruns(total, threads) ==> End(total, threads, t) <= total
    ensures t == threads - 1 ==> !Overruns(total, threads)
  {
    hide Start, Share, RoundUp, Overruns;
    StartAfter(total, threads, t);
    if t < threads - 1 { NonLastFits(total, threads, t); } else { LastStarts(total, threads); }
  }

  /** Every started range lies within the rows if and only if the partition does not overrun. */
  lemma WithinRowsIff(total: nat, threads: nat)
    requires threads > 0 && total > 0
    ensures (forall t | Started(total, threads, t) :: End(total, threads, t) <= total) <==> !Overruns(total, threads)
  {
    if Overruns(total, threads) {
      var t := total / 64;
      ShareFits(total, threads);
      var s := Share(total, threads);
      if s * threads <= total { MulMono(threads, 64, s); }
      assert s == 64;
      assert Started(total, threads, t) && End(total, threads, t) > total;
    } else {
      forall t | Started(total, threads, t) ensures End(total, threads, t) <= total {
        RangeEnd(total, threads, t);
      }
    }
  }

  /** The started ranges are 64-aligned, each begins where the one before ends, and without overrun
      they cover exactly the rows. */
  lemma RangesPartition(total: nat, threads: nat, t: nat)
    requires threads > 0 && total > 0 && Started(total, threads, t) && !Overruns(total, threads)
    ensures Start(total, threads, 0) == 0 && Start(total, threads, t) % 64 == 0
    ensures Start(total, threads, t) < End(total, threads, t) <= total
    ensures if Started(total, threads, t + 1) then Start(total, threads, t + 1) == End(total, threads, t)
            else End(total, threads, t) == total
  {
    StartsAligned(total, threads, t);
    RangeEnd(total, threads, t);
    StartAfter(total, threads, t);
  }

  // ----- the sum of the shares -----

  /** The rows a run counts: those of the table, or whole chunks of memory when a share overruns. */
  function Visited(total: nat, threads: nat): nat
    requires threads > 0
  {
    if Overruns(total, threads) then RoundUp(total) else total
  }

  /** What thread t counts. */
  function ThreadCount(m: Table, nodes: seq<Node>, root: nat, form: Form, threads: nat, t: nat): nat
    requires threads > 0 && WellBuilt(nodes) && root < |nodes| && Readable(m, Visited(m.rows, threads))
  {
    if Started(m.rows, threads, t) then
      var end := End(m.rows, threads, t);
      RangeReadable(m, threads, t);
      CountRows(m.(rows := end), nodes, root, form, Start(m.rows, threads, t), RoundUp(end))
    else 0
  }

  lemma RangeReadable(m: Table, threads: nat, t: nat)
    requires threads > 0 && Started(m.rows, threads, t) && Readable(m, Visited(m.rows, threads))
    ensures Readable(m.(rows := End(m.rows, threads, t)), End(m.rows, threads, t))
    ensures Start(m.rows, threads, t) % 64 == 0
  {
    RangeEnd(m.rows, threads, t);
    StartsAligned(m.rows, threads, t);
    var u := m.(rows := End(m.rows, threads, t));
    forall i, x | 0 <= i < u.rows && x in u.fields ensures CellReadable(u, i, x) { assert CellReadable(m, i, x); }
  }

  /** The total of the first k threads. */
  function SumCounts(m: Table, nodes: seq<Node>, root: nat, form: Form, threads: nat, k: nat): nat
    requires threads > 0 && WellBuilt(nodes) && root < |nodes| && Readable(m, Visited(m.rows, threads))
  {
    if k == 0 then 0
    else SumCounts(m, nodes, root, form, threads, k - 1) + ThreadCount(m, nodes, root, form, threads, k - 1)
  }

  lemma VisitedReadable(m: Table, v: nat)
    requires Readable(m, v)
    ensures Readable(m.(rows := v), v)
  {
    var u := m.(rows := v);
    forall i, x | 0 <= i < v && x in u.fields ensures CellReadable(u, i, x) { assert CellReadable(m, i, x); }
  }

  /** Two tables over the same data that agree on which of the rows lo to hi exist count alike. */
  lemma {:induction false} SameRowsCount(a: Table, b: Table, nodes: seq<Node>, root: nat, form: Form, lo: nat, hi: nat)
    requires Readable(a, a.rows) && Readable(b, b.rows) && WellBuilt(nodes) && root < |nodes|
    requires a == b.(rows := a.rows) && (a.rows == b.rows || (hi <= a.rows && hi <= b.rows))
    ensures CountRows(a, nodes, root, form, lo, hi) == CountRows(b, nodes, root, form, lo, hi)
    decreases hi
  {
    hide Verdict, Bit, Cell;
    if lo < hi {
      SameRowsCount(a, b, nodes, root, form, lo, hi - 1);
      assert RowAt(a, hi - 1) == RowAt(b, hi - 1);
    }
  }

  /** Where the first k threads have got to. */
  function Covered(total: nat, threads: nat, k: nat): nat
    requires threads > 0
  {
    if k < threads && Start(total, threads, k) < RoundUp(total) then Start(total, threads, k) else RoundUp(total)
  }

  lemma NothingCovered(total: nat, threads: nat)
    requires threads > 0 && total > 0
    ensures Covered(total, threads, 0) == 0 && Covered(total, threads, threads) == RoundUp(total)
  {
  }

  lemma NothingToCount(t: Table, nodes: seq<Node>, root: nat, form: Form, at: nat)
    requires Readable(t, t.rows) && WellBuilt(nodes) && root < |nodes|
    ensures CountRows(t, nodes, root, form, at, at) == 0
  {
  }

  lemma OneThread(m: Table, nodes: seq<Node>, root: nat, form: Form, threads: nat, t: nat)
    requires threads > 0 && WellBuilt(nodes) && root < |nodes| && Readable(m, Visited(m.rows, threads)) && t < threads
    requires m.rows > 0
    ensures Readable(m.(rows := Visited(m.rows, threads)), Visited(m.rows, threads))
    ensures Covered(m.rows, threads, t) <= Covered(m.rows, threads, t + 1)
    ensures ThreadCount(m, nodes, root, form, threads, t)
            == CountRows(m.(rows := Visited(m.rows, threads)), nodes, root, form,
                         Covered(m.rows, threads, t), Covered(m.rows, threads, t + 1))
  {
    hide CountRows, Readable, Visited, Covered, Start, End, RoundUp, Overruns;
    var total := m.rows;
    var v := Visited(total, threads);
    VisitedReadable(m, v);
    CoveredStep(total, threads, t);
    if Started(total, threads, t) {
      var end := End(total, threads, t);
      RangeReadable(m, threads, t);
      SameRowsCount(m.(rows := end), m.(rows := v), nodes, root, form, Start(total, threads, t), RoundUp(end));
    } else {
      NothingToCount(m.(rows := v), nodes, root, form, RoundUp(total));
    }
  }

  lemma CoveredStep(total: nat, threads: nat, t: nat)
    requires threads > 0 && total > 0 && t < threads
    ensures Covered(total, threads, t) <= Covered(total, threads, t + 1)
    ensures if Started(total, threads, t) then
              var end := End(total, threads, t);
              Covered(total, threads, t) == Start(total, threads, t) && Covered(total, threads, t + 1) == RoundUp(end)
              && (end == Visited(total, threads) || (RoundUp(end) == end <= Visited(total, threads)))
            else Covered(total, threads, t) == RoundUp(total) == Covered(total, threads, t + 1)
  {
    hide Start, Share;
    StartAfter(total, threads, t);
    StartsAligned(total, threads, t);
    StartsAligned(total, threads, t + 1);
    if Started(total, threads, t) { RangeEnd(total, threads, t); }
    AlignedRounding(Start(total, threads, t), total);
    AlignedRounding(Start(total, threads, t + 1), total);
    AlignedRounding(End(total, threads, t), End(total, threads, t));
    hide RoundUp, Overruns;
  }

  lemma AlignedRounding(x: nat, total: nat)
    ensures x % 64 == 0 ==> RoundUp(x) == x && ((x < RoundUp(total)) <==> (x < total))
  {
  }

  /** The shares of all threads add up to one run over the visited rows. */
  lemma {:induction false} SharesAddUp(m: Table, nodes: seq<Node>, root: nat, form: Form, threads: nat, k: nat)
    requires threads > 0 && WellBuilt(nodes) && root < |nodes| && Readable(m, Visited(m.rows, threads)) && k <= threads
    requires m.rows > 0
    ensures Readable(m.(rows := Visited(m.rows, threads)), Visited(m.rows, threads))
    ensures SumCounts(m, nodes, root, form, threads, k)
            == CountRows(m.(rows := Visited(m.rows, threads)), nodes, root, form, 0, Covered(m.rows, threads, k))
    decreases k
  {
    hide Visited, Covered, ThreadCount, Readable, Satisfies;
    var u := m.(rows := Visited(m.rows, threads));
    VisitedReadable(m, Visited(m.rows, threads));
    NothingCovered(m.rows, threads);
    if k > 0 {
      SharesAddUp(m, nodes, root, form, threads, k - 1);
      OneThread(m, nodes, root, form, threads, k - 1);
      CountSplits(u, nodes, root, form, 0, Covered(m.rows, threads, k - 1), Covered(m.rows, threads, k));
    }
  }

  // ----- the threads -----

  /** What a run needs: a prepared expression over readable memory. */
  ghost predicate RunReady(e: Expression, nodes: seq<Node>, root: nat, m: Table, threads: nat) {
    threads > 0 && Readable(m, Visited(m.rows, threads))
    && Prepared(e, nodes, root, m.(rows := Visited(m.rows, threads)))
  }

  lemma VisitedPrepared(e: Expression, nodes: seq<Node>, root: nat, m: Table, threads: nat)
    requires threads > 0 && Prepared(e, nodes, root, m.(rows := Visited(m.rows, threads)))
    ensures RunReady(e, nodes, root, m, threads)
  {
    var v := Visited(m.rows, threads);
    forall i, x | 0 <= i < v && x in m.fields ensures CellReadable(m, i, x) {
      assert CellReadable(m.(rows := v), i, x);
    }
  }

  lemma WorkerReady(e: Expression, nodes: seq<Node>, root: nat, m: Table, threads: nat, t: nat)
    requires RunReady(e, nodes, root, m, threads) && Started(m.rows, threads, t)
    ensures WellBuilt(nodes) && root < |nodes| && Readable(m, Visited(m.rows, threads))
    ensures Prepared(e, nodes, root, m.(rows := End(m.rows, threads, t)))
    ensures Start(m.rows, threads, t) % 64 == 0
  {
    RangeReadable(m, threads, t);
  }

  /** One thread: its own buffers and scratchpad, cleared once and reused from chunk to chunk.
      `u` is the data as the thread sees it, its rows ending where the thread's range ends. */
  method Worker(e: Expression, d: Memory, start: nat, lanes: nat, ghost u: Table, ghost nodes: seq<Node>,
                ghost root: nat)
    returns (count: nat)
    requires Backs(d, u) && Prepared(e, nodes, root, u) && start % 64 == 0 && start < u.rows
    ensures WellBuilt(nodes) && root < |nodes| && Readable(u, u.rows)
    ensures count == CountRows(u, nodes, root, ModeForm(e.mode), start, RoundUp(u.rows))
  {
    hide Prepared, Readable, CountRows, RoundUp, WellBuilt, Buffers;
    PreparedFacts(e, nodes, root, u);
    NothingToCount(u, nodes, root, ModeForm(e.mode), start);
    NextChunk(start, u.rows);
    var buffers := NewBuffers();
    var scratch := new Word[512](i => 0);
    count := 0;
    var row := start;
    while row < d.rows
      invariant start <= row <= RoundUp(u.rows) && row % 64 == 0
      invariant u.rows <= row ==> row == RoundUp(u.rows)
      invariant scratch !in buffers && Buffers(buffers) && fresh(buffers) && fresh(scratch)
      invariant count == CountRows(u, nodes, root, ModeForm(e.mode), start, row)
      decreases RoundUp(u.rows) - row
    {
      var mask := ProcessChunk(e, d, row, lanes, buffers, scratch, u, nodes, root);
      CountSplits(u, nodes, root, ModeForm(e.mode), start, row, row + 64);
      NextChunk(row, u.rows);
      count := count + PopCount(mask);
      row := row + 64;
    }
  }

  lemma NextChunk(row: nat, rows: nat)
    requires row % 64 == 0 && row < rows
    ensures row + 64 <= RoundUp(rows) && (rows <= row + 64 ==> row + 64 == RoundUp(rows))
  {
  }

  method NewBuffers() returns (buffers: seq<array<Word>>)
    ensures Buffers(buffers) && fresh(buffers)
  {
    buffers := [];
    for f := 0 to 8
      invariant |buffers| == f && fresh(buffers)
      invariant forall g | 0 <= g < f :: buffers[g].Length == 64
      invariant forall g, h | 0 <= g < h < f :: buffers[g] != buffers[h]
    {
      var buffer := new Word[64](i => 0);
      buffers := buffers + [buffer];
    }
  }

  /** Starts the threads over the partition, waits, and sums the result slots. The result is the
      count of one run over the visited rows. */
  method Run(e: Expression, d: Memory, numThreads: int, lanes: nat, ghost m: Table, ghost nodes: seq<Node>,
             ghost root: nat)
    returns (total: nat)
    requires Backs(d, m) && RunReady(e, nodes, root, m, if numThreads <= 0 then 1 else numThreads)
    ensures WellBuilt(nodes) && root < |nodes|
    ensures var v := Visited(m.rows, if numThreads <= 0 then 1 else numThreads);
            Readable(m.(rows := v), v)
            && total == CountRows(m.(rows := v), nodes, root, ModeForm(e.mode), 0, RoundUp(m.rows))
  {
    hide CountRows, Readable, Visited, ThreadCount, Started, Start, End, WellBuilt, Prepared;
    var threads: nat := if numThreads <= 0 then 1 else numThreads;
    RunFacts(e, nodes, root, m, threads);
    if d.rows == 0 { return 0; }
    var results := RunThreads(e, d, threads, lanes, m, nodes, root);
    total := 0;
    for k := 0 to threads
      invariant total == Sum(results[..], k)
    {
      total := total + results[k];
    }
    SlotsSum(m, nodes, root, ModeForm(e.mode), threads, results[..], threads);
    SharesAddUp(m, nodes, root, ModeForm(e.mode), threads, threads);
    NothingCovered(m.rows, threads);
  }

  lemma RunFacts(e: Expression, nodes: seq<Node>, root: nat, m: Table, threads: nat)
    requires RunReady(e, nodes, root, m, threads)
    ensures WellBuilt(nodes) && root < |nodes| && Readable(m, Visited(m.rows, threads))
    ensures Readable(m.(rows := Visited(m.rows, threads)), Visited(m.rows, threads))
    ensures m.rows == 0 ==>
        CountRows(m.(rows := Visited(m.rows, threads)), nodes, root, ModeForm(e.mode), 0, RoundUp(m.rows)) == 0
  {
    VisitedReadable(m, Visited(m.rows, threads));
  }

  /** Starts one thread per range that begins before the last row; each fills its own slot. */
  method RunThreads(e: Expression, d: Memory, threads: nat, lanes: nat, ghost m: Table, ghost nodes: seq<Node>,
                    ghost root: nat)
    returns (results: array<nat>)
    requires threads > 0 && WellBuilt(nodes) && root < |nodes| && Readable(m, Visited(m.rows, threads))
    requires Backs(d, m) && RunReady(e, nodes, root, m, threads) && m.rows > 0
    ensures fresh(results) && results.Length == threads
    ensures forall k | 0 <= k < threads :: results[k] == ThreadCount(m, nodes, root, ModeForm(e.mode), threads, k)
  {
    hide CountRows, Readable, Visited, Started, Start, End, WellBuilt, Prepared, RunReady;
    ghost var form := ModeForm(e.mode);
    results := new nat[threads](i => 0);
    var t := 0;
    while t < threads && Started(d.rows, threads, t)
      invariant t <= threads && results.Length == threads && fresh(results)
      invariant forall k | 0 <= k < t :: results[k] == ThreadCount(m, nodes, root, form, threads, k)
      invariant forall k | t <= k < threads :: results[k] == 0
      decreases threads - t
    {
      WorkerReady(e, nodes, root, m, threads, t);
      StartBeforeEnd(m.rows, threads, t);
      var count := Worker(e, d.(rows := End(d.rows, threads, t)), Start(d.rows, threads, t), lanes,
                          m.(rows := End(m.rows, threads, t)), nodes, root);
      results[t] := count;
      t := t + 1;
    }
    forall k | t <= k < threads ensures ThreadCount(m, nodes, root, form, threads, k) == 0 {
      NotStartedAfter(m.rows, threads, t, k);
    }
  }

  lemma StartBeforeEnd(total: nat, threads: nat, t: nat)
    requires threads > 0 && Started(total, threads, t)
    ensures Start(total, threads, t) < End(total, threads, t)
  {
    hide Start;
  }

  lemma NotStartedAfter(total: nat, threads: nat, t: nat, k: nat)
    requires threads > 0 && t <= k && !Started(total, threads, t)
    ensures !Started(total, threads, k)
  {
    MulMono(Share(total, threads), t, k);
  }

  /** Parallel equals sequential: without overrun the run returns what one pass over the rows counts. */
  lemma ParallelIsSequential(m: Table, nodes: seq<Node>, root: nat, form: Form, threads: nat)
    requires threads > 0 && m.rows > 0 && WellBuilt(nodes) && root < |nodes| && !Overruns(m.rows, threads)
    requires Readable(m, m.rows)
    ensures SumCounts(m, nodes, root, form, threads, threads) == CountRows(m, nodes, root, form, 0, RoundUp(m.rows))
  {
    SharesAddUp(m, nodes, root, form, threads, threads);
    NothingCovered(m.rows, threads);
    assert m.(rows := m.rows) == m;
  }

  /** With overrun the last share reads whole chunks past the last row. The total is then the sequential
      one if and only if the memory after the last row counts as many matches as zero padding would. */
  lemma OverrunAgreesIff(m: Table, nodes: seq<Node>, root: nat, form: Form, threads: nat)
    requires threads > 0 && m.rows > 0 && WellBuilt(nodes) && root < |nodes| && Overruns(m.rows, threads)
    requires Readable(m, m.rows) && Readable(m, RoundUp(m.rows))
    ensures var end := RoundUp(m.rows);
            var past := m.(rows := end);
            Readable(past, end)
            && (SumCounts(m, nodes, root, form, threads, threads) == CountRows(m, nodes, root, form, 0, end)
                <==> CountRows(past, nodes, root, form, m.rows, end) == CountRows(m, nodes, root, form, m.rows, end))
  {
    var past := m.(rows := RoundUp(m.rows));
    assert Visited(m.rows, threads) == RoundUp(m.rows);
    hide CountRows, Readable, Overruns, RoundUp, Covered;
    SharesAddUp(m, nodes, root, form, threads, threads);
    NothingCovered(m.rows, threads);
    CountSplits(m, nodes, root, form, 0, m.rows, past.rows);
    CountSplits(past, nodes, root, form, 0, m.rows, past.rows);
    SameRowsCount(past, m, nodes, root, form, 0, m.rows);
  }

  // ----- schedules -----

  /** A thread's progress: the next row, the matches so far, and whether it has written its slot. */
  datatype Thread = Thread(row: nat, matches: nat, done: bool)

  datatype Threads = Threads(each: seq<Thread>, results: seq<nat>)

  ghost predicate Job(m: Table, nodes: seq<Node>, root: nat, threads: nat) {
    threads > 0 && m.rows > 0 && WellBuilt(nodes) && root < |nodes| && Readable(m, Visited(m.rows, threads))
  }

  /** All result slots start at zero; only the threads whose range begins before the last row run. */
  function Launch(m: Table, threads: nat): Threads
    requires threads > 0
  {
    Threads(seq(threads, t requires t >= 0 => Thread(Start(m.rows, threads, t), 0, !Started(m.rows, threads, t))),
            seq(threads, t => 0))
  }

  /** Thread t counts its next chunk, or writes its slot when its range is finished. */
  function StepThread(m: Table, nodes: seq<Node>, root: nat, form: Form, threads: nat, w: Threads, t: nat): Threads
    requires Job(m, nodes, root, threads) && |w.each| == |w.results| == threads
  {
    if t >= threads || w.each[t].done || !Started(m.rows, threads, t) then w
    else
      RangeReadable(m, threads, t);
      var end := End(m.rows, threads, t);
      var th := w.each[t];
      if th.row < end then
        var found := CountRows(m.(rows := end), nodes, root, form, th.row, th.row + 64);
        w.(each := w.each[t := th.(row := th.row + 64, matches := th.matches + found)])
      else w.(each := w.each[t := th.(done := true)], results := w.results[t := th.matches])
  }

  function RunSchedule(m: Table, nodes: seq<Node>, root: nat, form: Form, threads: nat,
                       schedule: seq<nat>): (w: Threads)
    requires Job(m, nodes, root, threads)
    ensures |w.each| == |w.results| == threads
  {
    if schedule == [] then Launch(m, threads)
    else
      var n := |schedule| - 1;
      StepThread(m, nodes, root, form, threads, RunSchedule(m, nodes, root, form, threads, schedule[..n]), schedule[n])
  }

  /** What stays true of every thread under any interleaving: matches so far plus the rest of its
      range is its share; a finished thread's slot holds its share. */
  ghost predicate ThreadInv(m: Table, nodes: seq<Node>, root: nat, form: Form, threads: nat, w: Threads, t: nat)
    requires Job(m, nodes, root, threads) && |w.each| == |w.results| == threads && t < threads
  {
    if !Started(m.rows, threads, t) then w.each[t].done && w.results[t] == 0
    else if w.each[t].done then w.results[t] == ThreadCount(m, nodes, root, form, threads, t)
    else
      var end := End(m.rows, threads, t);
      Readable(m.(rows := end), end)
      && w.each[t].row % 64 == 0 && Start(m.rows, threads, t) <= w.each[t].row <= RoundUp(end)
      && w.each[t].matches == CountRows(m.(rows := end), nodes, root, form, Start(m.rows, threads, t), w.each[t].row)
  }

  lemma {:induction false} EveryScheduleKeeps(m: Table, nodes: seq<Node>, root: nat, form: Form, threads: nat,
                                              schedule: seq<nat>, t: nat)
    requires Job(m, nodes, root, threads) && t < threads
    ensures ThreadInv(m, nodes, root, form, threads, RunSchedule(m, nodes, root, form, threads, schedule), t)
    decreases |schedule|
  {
    if Started(m.rows, threads, t) { RangeReadable(m, threads, t); }
    if schedule != [] {
      var n := |schedule| - 1;
      EveryScheduleKeeps(m, nodes, root, form, threads, schedule[..n], t);
      StepKeeps(m, nodes, root, form, threads, RunSchedule(m, nodes, root, form, threads, schedule[..n]), schedule[n],
          t);
    } else {
      if Started(m.rows, threads, t) {
        NothingToCount(m.(rows := End(m.rows, threads, t)), nodes, root, form, Start(m.rows, threads, t));
        RangeEnd(m.rows, threads, t);
      }
    }
  }

  lemma StepKeeps(m: Table, nodes: seq<Node>, root: nat, form: Form, threads: nat, w: Threads, s: nat, t: nat)
    requires Job(m, nodes, root, threads) && |w.each| == |w.results| == threads && t < threads
    requires ThreadInv(m, nodes, root, form, threads, w, t)
    ensures ThreadInv(m, nodes, root, form, threads, StepThread(m, nodes, root, form, threads, w, s), t)
  {
    hide CountRows, Readable, Start, End, Started;
    if s == t && Started(m.rows, threads, t) && !w.each[t].done {
      RangeReadable(m, threads, t);
      var end := End(m.rows, threads, t);
      var row := w.each[t].row;
      if row < end {
        CountSplits(m.(rows := end), nodes, root, form, Start(m.rows, threads, t), row, row + 64);
      }
    }
  }

  lemma {:induction false} SlotsSum(m: Table, nodes: seq<Node>, root: nat, form: Form, threads: nat, results: seq<nat>,
                                    k: nat)
    requires Job(m, nodes, root, threads) && |results| == threads && k <= threads
    requires forall t | 0 <= t < threads :: results[t] == ThreadCount(m, nodes, root, form, threads, t)
    ensures Sum(results, k) == SumCounts(m, nodes, root, form, threads, k)
    decreases k
  {
    if k > 0 { SlotsSum(m, nodes, root, form, threads, results, k - 1); }
  }

  function Sum(results: seq<nat>, k: nat): nat
    requires k <= |results|
  {
    if k == 0 then 0 else Sum(results, k - 1) + results[k - 1]
  }

  /** Under every schedule that lets all threads finish, the sum of the result slots is the count of
      one run over the visited rows. */
  lemma AnySchedule(m: Table, nodes: seq<Node>, root: nat, form: Form, threads: nat, schedule: seq<nat>)
    requires Job(m, nodes, root, threads)
    requires forall t | 0 <= t < threads :: RunSchedule(m, nodes, root, form, threads, schedule).each[t].done
    ensures var v := Visited(m.rows, threads);
            Readable(m.(rows := v), v)
            && Sum(RunSchedule(m, nodes, root, form, threads, schedule).results, threads)
               == CountRows(m.(rows := v), nodes, root, form, 0, RoundUp(m.rows))
  {
    hide CountRows, RunSchedule, Readable, Visited;
    var w := RunSchedule(m, nodes, root, form, threads, schedule);
    forall t | 0 <= t < threads ensures w.results[t] == ThreadCount(m, nodes, root, form, threads, t) {
      assert w.each[t].done;
      EveryScheduleKeeps(m, nodes, root, form, threads, schedule, t);
    }
    SlotsSum(m, nodes, root, form, threads, w.results, threads);
    SharesAddUp(m, nodes, root, form, threads, threads);
    NothingCovered(m.rows, threads);
  }

  // ----- every schedule can be completed -----

  /** The steps thread t still has to take: one per chunk left and one to write its slot. */
  function StepsLeft(m: Table, threads: nat, th: Thread, t: nat): nat
    requires threads > 0
  {
    if th.done then 0 else if th.row < End(m.rows, threads, t) then 1 + End(m.rows, threads, t) - th.row else 1
  }

  function AllStepsLeft(m: Table, threads: nat, each: seq<Thread>): nat
    requires threads > 0
  {
    if each == [] then 0
    else AllStepsLeft(m, threads, each[..|each| - 1]) + StepsLeft(m, threads, each[|each| - 1], |each| - 1)
  }

  lemma {:induction false} StepsLeftUpdate(m: Table, threads: nat, each: seq<Thread>, t: nat, th: Thread)
    requires threads > 0 && t < |each|
    ensures AllStepsLeft(m, threads, each[t := th]) + StepsLeft(m, threads, each[t], t)
            == AllStepsLeft(m, threads, each) + StepsLeft(m, threads, th, t)
    decreases |each|
  {
    hide StepsLeft;
    var n := |each| - 1;
    if t < n {
      assert each[t := th][..n] == each[..n][t := th];
      StepsLeftUpdate(m, threads, each[..n], t, th);
    } else {
      assert each[t := th][..n] == each[..n];
    }
  }

  /** Any schedule can be continued until every thread is done, so AnySchedule speaks of real runs. */
  lemma {:induction false} CanFinish(m: Table, nodes: seq<Node>, root: nat, form: Form, threads: nat,
                                     schedule: seq<nat>)
    returns (full: seq<nat>)
    requires Job(m, nodes, root, threads)
    ensures schedule <= full
    ensures forall t | 0 <= t < threads :: RunSchedule(m, nodes, root, form, threads, full).each[t].done
    decreases AllStepsLeft(m, threads, RunSchedule(m, nodes, root, form, threads, schedule).each)
  {
    hide CountRows, Readable, WellBuilt, AllStepsLeft, End;
    var w := RunSchedule(m, nodes, root, form, threads, schedule);
    if t :| 0 <= t < threads && !w.each[t].done {
      EveryScheduleKeeps(m, nodes, root, form, threads, schedule, t);
      assert Started(m.rows, threads, t);
      assert (schedule + [t])[..|schedule|] == schedule;
      var next := RunSchedule(m, nodes, root, form, threads, schedule + [t]);
      assert next == StepThread(m, nodes, root, form, threads, w, t);
      StepsLeftUpdate(m, threads, w.each, t, next.each[t]);
      full := CanFinish(m, nodes, root, form, threads, schedule + [t]);
    } else {
      full := schedule;
    }
  }
}
