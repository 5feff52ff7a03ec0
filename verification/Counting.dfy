// Counting the rows that satisfy an expression over whole chunks, and exactly when that is the number
// of matching rows.
module Counting {
  import opened Words
  import opened Options
  import opened Ir
  import opened Drifts
  import opened SlicedLaw
  import opened Rows

  /** How an expression is evaluated: by the bit-sliced kernel with a carry word, or row by row. */
  datatype Form = Sliced(subCarry: Word) | Scalar

  /** What the kernel says of a row in the given lane of its chunk. */
  predicate Says(form: Form, nodes: seq<Node>, root: nat, row: Row, lane: nat)
    requires WellBuilt(nodes) && root < |nodes|
  {
    match form
    case Sliced(k) => Answer(nodes, root, row, Bit(k, lane))
    case Scalar => Verdict(nodes, root, row, true)
  }

  /** The kernel's mask has row i's bit set. */
  predicate Satisfies(t: Table, nodes: seq<Node>, root: nat, form: Form, i: nat)
    requires Readable(t, t.rows) && WellBuilt(nodes) && root < |nodes|
  {
    Says(form, nodes, root, RowAt(t, i), i % 64)
  }

  /** How many of the rows lo up to hi, padding included, the kernel counts. */
  function CountRows(t: Table, nodes: seq<Node>, root: nat, form: Form, lo: nat, hi: nat): nat
    requires Readable(t, t.rows) && WellBuilt(nodes) && root < |nodes|
  {
    if hi <= lo then 0
    else CountRows(t, nodes, root, form, lo, hi - 1) + Int(Satisfies(t, nodes, root, form, hi - 1))
  }

  lemma {:induction false} CountSplits(t: Table, nodes: seq<Node>, root: nat, form: Form, lo: nat, mid: nat, hi: nat)
    requires Readable(t, t.rows) && WellBuilt(nodes) && root < |nodes| && lo <= mid <= hi
    ensures CountRows(t, nodes, root, form, lo, hi)
            == CountRows(t, nodes, root, form, lo, mid) + CountRows(t, nodes, root, form, mid, hi)
    decreases hi - mid
  {
    hide Satisfies;
    if mid < hi { CountSplits(t, nodes, root, form, lo, mid, hi - 1); }
  }

  /** The population count of a chunk's mask is the number of satisfying rows in the chunk. */
  lemma {:induction false} PopCountsRows(t: Table, nodes: seq<Node>, root: nat, form: Form, start: nat, mask: Word,
                                         k: nat)
    requires Readable(t, t.rows) && WellBuilt(nodes) && root < |nodes| && start % 64 == 0 && k <= 64
    requires forall r | 0 <= r < 64 :: Bit(mask, r) == Says(form, nodes, root, RowAt(t, start + r), r)
    ensures PopUpTo(mask, k) == CountRows(t, nodes, root, form, start, start + k)
  {
    hide Says, RowAt, Bit, Readable;
    if k > 0 {
      PopCountsRows(t, nodes, root, form, start, mask, k - 1);
      assert (start + k - 1) % 64 == k - 1;
      assert Bit(mask, k - 1) == Says(form, nodes, root, RowAt(t, start + (k - 1)), k - 1);
    }
  }

  /** The number of rows a run over whole chunks visits. */
  function RoundUp(n: nat): (m: nat)
    ensures m % 64 == 0 && n <= m < n + 64
  {
    (n + 63) / 64 * 64
  }

  /** The rows that satisfy the expression when SUB is subtraction: the plain row-by-row count. */
  function Matches(t: Table, nodes: seq<Node>, root: nat, n: nat): nat
    requires Readable(t, t.rows) && WellBuilt(nodes) && root < |nodes| && n <= t.rows
  {
    if n == 0 then 0 else Matches(t, nodes, root, n - 1) + Int(Verdict(nodes, root, RowAt(t, n - 1), true))
  }

  // ----- the count of any well-kinded predicate -----

  /** What the kernel says, from true values and drifts only. */
  predicate Judges(form: Form, nodes: seq<Node>, root: nat, row: Row, lane: nat)
    requires WellBuilt(nodes) && root < |nodes|
  {
    match form
    case Sliced(k) => JudgedAnswer(nodes, root, row, Bit(k, lane))
    case Scalar => Verdict(nodes, root, row, true)
  }

  lemma SaysIsJudged(form: Form, nodes: seq<Node>, root: nat, row: Row, lane: nat)
    requires WellBuilt(nodes) && root < |nodes| && WellKinded(nodes, Some(root))
    ensures Says(form, nodes, root, row, lane) == Judges(form, nodes, root, row, lane)
  {
    match form
    case Sliced(k) => AnswerIsJudged(nodes, root, row, Bit(k, lane));
    case Scalar =>
  }

  /** Matching rows among the first n that are not counted. */
  function Missed(t: Table, nodes: seq<Node>, root: nat, form: Form, n: nat): nat
    requires Readable(t, t.rows) && WellBuilt(nodes) && root < |nodes| && n <= t.rows
  {
    if n == 0 then 0
    else
      var row := RowAt(t, n - 1);
      Missed(t, nodes, root, form, n - 1)
      + Int(Verdict(nodes, root, row, true) && !Judges(form, nodes, root, row, (n - 1) % 64))
  }

  /** Rows among the first n that are counted and do not match, or do not exist. */
  function Extra(t: Table, nodes: seq<Node>, root: nat, form: Form, n: nat): nat
    requires Readable(t, t.rows) && WellBuilt(nodes) && root < |nodes|
  {
    if n == 0 then 0
    else
      var row := RowAt(t, n - 1);
      Extra(t, nodes, root, form, n - 1)
      + Int(Judges(form, nodes, root, row, (n - 1) % 64) && (n > t.rows || !Verdict(nodes, root, row, true)))
  }

  /** The count law: the kernel's count is the matching rows, without the missed and with the extra
      ones, for every well-kinded predicate, every carry word and every number of rows. */
  lemma {:induction false} CountLaw(t: Table, nodes: seq<Node>, root: nat, form: Form, n: nat)
    requires Readable(t, t.rows) && WellBuilt(nodes) && root < |nodes| && WellKinded(nodes, Some(root))
    ensures var m := if n < t.rows then n else t.rows;
            CountRows(t, nodes, root, form, 0, n) + Missed(t, nodes, root, form, m)
            == Matches(t, nodes, root, m) + Extra(t, nodes, root, form, n)
  {
    hide Says, Judges, Verdict, RowAt, WellKinded;
    if n > 0 {
      CountLaw(t, nodes, root, form, n - 1);
      SaysIsJudged(form, nodes, root, RowAt(t, n - 1), (n - 1) % 64);
    }
  }

  /** The count over whole chunks is right if and only if as many rows are missed as are counted
      wrongly, padding included. */
  lemma CountRightIff(t: Table, nodes: seq<Node>, root: nat, form: Form)
    requires Readable(t, t.rows) && WellBuilt(nodes) && root < |nodes| && WellKinded(nodes, Some(root))
    ensures CountRows(t, nodes, root, form, 0, RoundUp(t.rows)) == Matches(t, nodes, root, t.rows)
            <==> Missed(t, nodes, root, form, t.rows) == Extra(t, nodes, root, form, RoundUp(t.rows))
  {
    CountLaw(t, nodes, root, form, RoundUp(t.rows));
    hide *;
  }

  // ----- where every row is judged right -----

  /** The scalar kernel, or the bit-sliced one in its fragment when every carry bit is set or every
      compared operand is steady. */
  predicate Exact(nodes: seq<Node>, root: nat, form: Form)
    requires WellBuilt(nodes) && root < |nodes|
  {
    match form
    case Sliced(k) => InFragment(nodes, root) && (k == ALL_ONES || Steady(nodes, root))
    case Scalar => true
  }

  lemma RowExact(t: Table, nodes: seq<Node>, root: nat, form: Form, i: nat)
    requires Readable(t, t.rows) && WellBuilt(nodes) && root < |nodes| && Exact(nodes, root, form)
    ensures Satisfies(t, nodes, root, form, i) == Verdict(nodes, root, RowAt(t, i), true)
  {
    if form.Sliced? { FragmentExact(nodes, root, RowAt(t, i), form.subCarry, i % 64); }
  }

  lemma {:induction false} CountIsMatches(t: Table, nodes: seq<Node>, root: nat, form: Form, n: nat)
    requires Readable(t, t.rows) && WellBuilt(nodes) && root < |nodes| && n <= t.rows && Exact(nodes, root, form)
    ensures CountRows(t, nodes, root, form, 0, n) == Matches(t, nodes, root, n)
  {
    hide Satisfies, Verdict, Exact;
    if n > 0 {
      CountIsMatches(t, nodes, root, form, n - 1);
      RowExact(t, nodes, root, form, n - 1);
    }
  }

  lemma {:induction false} PaddingCounts(t: Table, nodes: seq<Node>, root: nat, form: Form, hi: nat)
    requires Readable(t, t.rows) && WellBuilt(nodes) && root < |nodes| && t.rows <= hi && Exact(nodes, root, form)
    ensures CountRows(t, nodes, root, form, t.rows, hi)
            == if Verdict(nodes, root, ZeroRow(t), true) then hi - t.rows else 0
  {
    hide Satisfies, Verdict, Exact;
    if t.rows < hi {
      PaddingCounts(t, nodes, root, form, hi - 1);
      RowExact(t, nodes, root, form, hi - 1);
      assert RowAt(t, hi - 1) == ZeroRow(t);
    }
  }

  /** The exact count law: whole chunks count the matching rows, plus every padding row when the
      predicate holds of the all-zero row. */
  lemma ExactCount(t: Table, nodes: seq<Node>, root: nat, form: Form)
    requires Readable(t, t.rows) && WellBuilt(nodes) && root < |nodes| && Exact(nodes, root, form)
    ensures CountRows(t, nodes, root, form, 0, RoundUp(t.rows)) ==
            Matches(t, nodes, root, t.rows)
            + if Verdict(nodes, root, ZeroRow(t), true) then RoundUp(t.rows) - t.rows else 0
  {
    hide CountRows, Matches, Verdict, ZeroRow, Exact, Readable;
    CountSplits(t, nodes, root, form, 0, t.rows, RoundUp(t.rows));
    CountIsMatches(t, nodes, root, form, t.rows);
    PaddingCounts(t, nodes, root, form, RoundUp(t.rows));
  }

  /** The count is exact if and only if there is no padding or the all-zero row fails the predicate. */
  lemma CountExactIff(t: Table, nodes: seq<Node>, root: nat, form: Form)
    requires Readable(t, t.rows) && WellBuilt(nodes) && root < |nodes| && Exact(nodes, root, form)
    ensures CountRows(t, nodes, root, form, 0, RoundUp(t.rows)) == Matches(t, nodes, root, t.rows)
            <==> t.rows % 64 == 0 || !Verdict(nodes, root, ZeroRow(t), true)
  {
    hide CountRows, Matches, Verdict, ZeroRow, Exact, Readable;
    ExactCount(t, nodes, root, form);
  }
}
