// Rows as values: what a table, a gathered column and the counts are when the bytes hold given words.
module Layout {
  import opened Words
  import opened Ir
  import opened Rows
  import opened Counting

  /** Every field of row i is stored at its own offset from the row's start. */
  ghost predicate RowStored(t: Table, i: nat, values: Row) {
    values.Keys == t.fields.Keys
    && forall x | x in t.fields :: Stored(t.data, i * t.stride + t.fields[x].offset, values[x])
  }

  /** The table's rows are laid out from the given values. */
  ghost predicate LaidOut(t: Table, values: seq<Row>) {
    |values| == t.rows && forall i | 0 <= i < t.rows :: RowStored(t, i, values[i])
  }

  lemma LaidOutReadable(t: Table, values: seq<Row>)
    requires LaidOut(t, values)
    ensures Readable(t, t.rows)
  {
    forall i, x | 0 <= i < t.rows && x in t.fields ensures CellReadable(t, i, x) {
      assert RowStored(t, i, values[i]);
      assert Stored(t.data, i * t.stride + t.fields[x].offset, values[i][x]);
    }
  }

  /** A field holds what its own eight bytes hold. */
  lemma FieldStored(t: Table, i: nat, x: string, v: Word)
    requires Readable(t, t.rows) && i < t.rows && x in t.fields
    requires Stored(t.data, i * t.stride + t.fields[x].offset, v)
    ensures RowAt(t, i)[x] == v
    ensures forall start: nat, r: nat | start + r == i :: Gathered(t, x, start, r) == v
  {
    assert CellReadable(t, i, x);
    StoredOnce(t.data, i * t.stride + t.fields[x].offset, RowAt(t, i)[x], v);
  }

  /** Two fields of one row each hold their own bytes. */
  lemma TwoFieldsStored(t: Table, i: nat, x: string, y: string, v: Word, w: Word)
    requires Readable(t, t.rows) && i < t.rows && x in t.fields && y in t.fields
    requires Stored(t.data, i * t.stride + t.fields[x].offset, v)
    requires Stored(t.data, i * t.stride + t.fields[y].offset, w)
    ensures RowAt(t, i)[x] == v && RowAt(t, i)[y] == w
  {
    FieldStored(t, i, x, v);
    FieldStored(t, i, y, w);
  }

  /** Rows of a laid-out table are its values, and zeros after the last. */
  lemma RowsAreValues(t: Table, values: seq<Row>, i: nat)
    requires LaidOut(t, values) && Readable(t, t.rows)
    ensures i < t.rows ==> RowAt(t, i) == values[i]
    ensures i >= t.rows ==> RowAt(t, i) == map x | x in t.fields :: 0
  {
    if i < t.rows {
      assert RowStored(t, i, values[i]);
      forall x | x in t.fields ensures RowAt(t, i)[x] == values[i][x] { FieldStored(t, i, x, values[i][x]); }
      assert RowAt(t, i) == values[i];
    }
  }

  /** How many of the first n values satisfy the expression. */
  function ValuesMatching(values: seq<Row>, nodes: seq<Node>, root: nat, n: nat): nat
    requires WellBuilt(nodes) && root < |nodes| && n <= |values|
  {
    if n == 0 then 0
    else ValuesMatching(values, nodes, root, n - 1) + if Verdict(nodes, root, values[n - 1], true) then 1 else 0
  }

  /** The row-by-row count of a laid-out table counts its values. */
  lemma {:induction false} MatchesAreValues(t: Table, values: seq<Row>, nodes: seq<Node>, root: nat, n: nat)
    requires LaidOut(t, values) && Readable(t, t.rows) && WellBuilt(nodes) && root < |nodes| && n <= t.rows
    ensures Matches(t, nodes, root, n) == ValuesMatching(values, nodes, root, n)
    decreases n
  {
    hide Verdict, LaidOut, Readable, RowAt;
    assert |values| == t.rows by { SameLength(t, values); }
    if n > 0 {
      MatchesAreValues(t, values, nodes, root, n - 1);
      RowsAreValues(t, values, n - 1);
    }
  }

  lemma SameLength(t: Table, values: seq<Row>)
    requires LaidOut(t, values)
    ensures |values| == t.rows
  {
  }

  /** How many of the first n values have a field above the threshold. */
  function ValuesAbove(values: seq<Row>, x: string, threshold: Word, n: nat): nat
    requires n <= |values|
  {
    if n == 0 then 0
    else
      var row := values[n - 1];
      ValuesAbove(values, x, threshold, n - 1) + if x in row && row[x] > threshold then 1 else 0
  }

  lemma FieldIsValue(t: Table, values: seq<Row>, x: string, i: nat)
    requires LaidOut(t, values) && Readable(t, t.rows) && x in t.fields && i < t.rows
    ensures x in values[i] && x in RowAt(t, i) && RowAt(t, i)[x] == values[i][x]
  {
    assert RowStored(t, i, values[i]);
    RowsAreValues(t, values, i);
  }

  /** So does the count of rows above a threshold. */
  lemma {:induction false} AboveAreValues(t: Table, values: seq<Row>, x: string, threshold: Word, n: nat)
    requires LaidOut(t, values) && Readable(t, t.rows) && x in t.fields && n <= t.rows
    ensures |values| == t.rows && CountAbove(t, x, threshold, n) == ValuesAbove(values, x, threshold, n)
    decreases n
  {
    hide RowAt, LaidOut, Readable;
    SameLength(t, values);
    if n > 0 {
      AboveAreValues(t, values, x, threshold, n - 1);
      FieldIsValue(t, values, x, n - 1);
    }
  }
}
