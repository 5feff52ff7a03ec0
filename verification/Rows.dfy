// Rows laid out in bytes, the gathering of one field of 64 rows into a column, and the count of the
// rows whose field exceeds a threshold.
module Rows {
  import opened Words
  import opened Ir

  type Byte = b: int | 0 <= b < 256

  /** A registered field. Reads always take eight bytes, whatever the width says. */
  datatype Field = Field(name: string, offset: nat, bitWidth: nat)

  /** `rows` rows of `stride` bytes each, with the fields an expression loads. */
  datatype Table = Table(data: seq<Byte>, stride: nat, rows: nat, fields: map<string, Field>)

  /** Byte k of a number, byte 0 the least significant. */
  function ByteAt(v: nat, k: nat): Byte
    decreases k
  {
    if k == 0 then v % 256 else ByteAt(v / 256, k - 1)
  }

  /** Eight bytes of the data hold v, least significant byte first. */
  ghost predicate Stored(data: seq<Byte>, at: nat, v: Word) {
    at + 8 <= |data| && forall k | 0 <= k < 8 :: data[at + k] == ByteAt(v, k)
  }

  /** The number whose bytes, least significant first, are given. */
  function FromBytes(bytes: seq<Byte>): nat {
    if bytes == [] then 0 else bytes[0] + 256 * FromBytes(bytes[1..])
  }

  function Pow256(n: nat): nat {
    if n == 0 then 1 else 256 * Pow256(n - 1)
  }

  lemma {:induction false} FromBytesHas(bytes: seq<Byte>, k: nat)
    requires k < |bytes|
    ensures FromBytes(bytes) < Pow256(|bytes|) && ByteAt(FromBytes(bytes), k) == bytes[k]
    decreases |bytes|
  {
    if |bytes| > 1 {
      FromBytesHas(bytes[1..], if k > 0 then k - 1 else 0);
    } else {
      assert FromBytes(bytes[1..]) == 0;
    }
    assert FromBytes(bytes) / 256 == FromBytes(bytes[1..]) && FromBytes(bytes) % 256 == bytes[0];
  }

  lemma {:induction false} BytesDetermine(v: nat, w: nat, n: nat)
    requires v < Pow256(n) && w < Pow256(n) && forall k | 0 <= k < n :: ByteAt(v, k) == ByteAt(w, k)
    ensures v == w
  {
    if n > 0 {
      assert ByteAt(v, 0) == ByteAt(w, 0);
      forall k | 0 <= k < n - 1 ensures ByteAt(v / 256, k) == ByteAt(w / 256, k) {
        assert ByteAt(v, k + 1) == ByteAt(w, k + 1);
      }
      BytesDetermine(v / 256, w / 256, n - 1);
    }
  }

  lemma EightBytes()
    ensures Pow256(8) == WORD_MOD
  {
    assert Pow256(4) == 0x1_0000_0000;
  }

  /** At most one word is stored at an address. */
  lemma StoredOnce(data: seq<Byte>, at: nat, v: Word, w: Word)
    requires Stored(data, at, v) && Stored(data, at, w)
    ensures v == w
  {
    EightBytes();
    hide ByteAt, Pow256;
    forall k | 0 <= k < 8 ensures ByteAt(v, k) == ByteAt(w, k) { assert data[at + k] == ByteAt(v, k); }
    BytesDetermine(v, w, 8);
  }

  /** The word stored in eight bytes. */
  function ReadWord(data: seq<Byte>, at: nat): (w: Word)
    requires at + 8 <= |data|
    ensures Stored(data, at, w)
  {
    EightBytesWord(data, at);
    FromBytes(data[at..at + 8])
  }

  lemma EightBytesWord(data: seq<Byte>, at: nat)
    requires at + 8 <= |data|
    ensures FromBytes(data[at..at + 8]) < WORD_MOD && Stored(data, at, FromBytes(data[at..at + 8]))
  {
    EightBytes();
    hide FromBytes, ByteAt, Pow256;
    var bytes := data[at..at + 8];
    FromBytesHas(bytes, 0);
    forall k | 0 <= k < 8 ensures data[at + k] == ByteAt(FromBytes(bytes), k) { FromBytesHas(bytes, k); }
  }

  /** Every read of a loaded field of one of the first n rows stays inside the data. */
  ghost predicate Readable(t: Table, n: nat) {
    forall i, x | 0 <= i < n && x in t.fields :: CellReadable(t, i, x)
  }

  predicate CellReadable(t: Table, i: nat, x: string) {
    x in t.fields && Within(t.data, 0, t.fields[x].offset, t.stride, i)
  }

  /** Row i as the kernels see it: its field values, or zeros past the last row. */
  function RowAt(t: Table, i: nat): Row
    requires Readable(t, t.rows)
  {
    map x | x in t.fields ::
      if i < t.rows then assert CellReadable(t, i, x); Cell(t.data, 0, t.fields[x].offset, t.stride, i) else 0
  }

  /** The all-zero row. */
  function ZeroRow(t: Table): Row {
    map x | x in t.fields :: 0
  }

  // ----- gathering -----

  /** Entry r of the column gathered from the 64 rows at `start`, of which `count` exist. */
  function Gathered(t: Table, x: string, start: nat, r: nat): Word
    requires x in t.fields && Readable(t, t.rows)
  {
    Lookup(RowAt(t, start + r), x)
  }

  /** Copies one field of up to 64 rows into the column, four at a time, and pads with zeros. */
  method GatherField(data: seq<Byte>, base: nat, offset: nat, stride: nat, count: nat, out: array<Word>)
    requires out.Length == 64
    requires forall i | 0 <= i < count && i < 64 :: Within(data, base, offset, stride, i)
    modifies out
    ensures forall i | 0 <= i < 64 :: out[i] == GatheredCell(data, base, offset, stride, count, i)
    ensures forall i | 0 <= i < count && i < 64 :: Stored(data, base + i * stride + offset, out[i])
    ensures forall i | count <= i < 64 :: out[i] == 0
  {
    hide Address, ReadWord, Stored;
    var n := if count < 64 then count else 64;
    var i := 0;
    while i + 4 <= n
      invariant 0 <= i <= n
      invariant forall k | 0 <= k < i :: out[k] == GatheredCell(data, base, offset, stride, count, k)
    {
      var v0 := Cell(data, base, offset, stride, i);
      var v1 := Cell(data, base, offset, stride, i + 1);
      var v2 := Cell(data, base, offset, stride, i + 2);
      var v3 := Cell(data, base, offset, stride, i + 3);
      out[i], out[i + 1], out[i + 2], out[i + 3] := v0, v1, v2, v3;
      i := i + 4;
    }
    while i < n
      invariant 0 <= i <= n
      invariant forall k | 0 <= k < i :: out[k] == GatheredCell(data, base, offset, stride, count, k)
    {
      out[i] := Cell(data, base, offset, stride, i);
      i := i + 1;
    }
    while i < 64
      invariant n <= i <= 64
      invariant forall k | 0 <= k < i :: out[k] == GatheredCell(data, base, offset, stride, count, k)
    {
      out[i] := 0;
      i := i + 1;
    }
  }

  /** The address of a field of the i-th row from a base address. */
  function Address(base: nat, offset: nat, stride: nat, i: nat): nat {
    base + i * stride + offset
  }

  predicate Within(data: seq<Byte>, base: nat, offset: nat, stride: nat, i: nat) {
    Address(base, offset, stride, i) + 8 <= |data|
  }

  function Cell(data: seq<Byte>, base: nat, offset: nat, stride: nat, i: nat): (w: Word)
    requires Within(data, base, offset, stride, i)
    ensures Stored(data, base + i * stride + offset, w)
  {
    ReadWord(data, Address(base, offset, stride, i))
  }

  /** What gathering puts at position i: the field of an existing row, or zero. */
  function GatheredCell(data: seq<Byte>, base: nat, offset: nat, stride: nat, count: nat, i: nat): Word
    requires i < count ==> Within(data, base, offset, stride, i)
  {
    if i < count then Cell(data, base, offset, stride, i) else 0
  }

  /** Addresses counted from a chunk's base are those counted from the table's start. */
  lemma ChunkAddress(start: nat, offset: nat, stride: nat, i: nat)
    ensures Address(start * stride, offset, stride, i) == Address(0, offset, stride, start + i)
  {
  }

  /** Gathering from a chunk's base gives the chunk's part of the field, zero past the last row. */
  lemma GatheredIsColumn(t: Table, x: string, start: nat, count: nat, i: nat)
    requires x in t.fields && Readable(t, t.rows) && i < 64
    requires start <= t.rows && count == if t.rows - start < 64 then t.rows - start else 64
    ensures i < count ==> Within(t.data, start * t.stride, t.fields[x].offset, t.stride, i)
    ensures GatheredCell(t.data, start * t.stride, t.fields[x].offset, t.stride, count, i) == Gathered(t, x, start, i)
  {
    ChunkAddress(start, t.fields[x].offset, t.stride, i);
    if i < count { assert CellReadable(t, start + i, x); }
    hide Address, ReadWord;
  }

  // ----- one field against a threshold -----

  /** Rows whose field exceeds the threshold. */
  function CountAbove(t: Table, x: string, threshold: Word, n: nat): nat
    requires Readable(t, t.rows) && x in t.fields && n <= t.rows
  {
    if n == 0 then 0 else CountAbove(t, x, threshold, n - 1) + Int(RowAt(t, n - 1)[x] > threshold)
  }

  /** The population count of a chunk's comparison mask counts its rows above the threshold;
      padding rows are zero and never exceed an unsigned threshold. */
  lemma {:induction false} PopCountsAbove(t: Table, x: string, threshold: Word, start: nat, mask: Word, k: nat)
    requires Readable(t, t.rows) && x in t.fields && k <= 64 && start <= t.rows
    requires forall r | 0 <= r < 64 :: Bit(mask, r) == (Gathered(t, x, start, r) > threshold)
    ensures CountAbove(t, x, threshold, start) + PopUpTo(mask, k)
            == CountAbove(t, x, threshold, if start + k < t.rows then start + k else t.rows)
  {
    hide Bit, Gathered, Readable, RowAt;
    if k > 0 {
      PopCountsAbove(t, x, threshold, start, mask, k - 1);
      assert Bit(mask, k - 1) == (Gathered(t, x, start, k - 1) > threshold);
      GatheredCounts(t, x, threshold, start, k - 1);
    }
  }

  lemma GatheredCounts(t: Table, x: string, threshold: Word, start: nat, r: nat)
    requires Readable(t, t.rows) && x in t.fields
    ensures if start + r < t.rows
            then CountAbove(t, x, threshold, start + r + 1) ==
                 CountAbove(t, x, threshold, start + r) + Int(Gathered(t, x, start, r) > threshold)
            else !(Gathered(t, x, start, r) > threshold)
  {
    hide ReadWord, Address;
  }
}
