// The planes a batch of 64 rows should have: bit r of a plane belongs to row r.
module Planes {
  import opened Words
  import opened Machine
  import opened Ir

  /** 64 rows and the word that seeds the carries of SUB nodes, one bit per row. */
  datatype Batch = Batch(nodes: seq<Node>, rows: seq<Row>, subCarry: Word)

  ghost predicate Ok(b: Batch) {
    WellBuilt(b.nodes) && |b.rows| == 64
  }

  /** The value of node i on row r. */
  function RowValue(b: Batch, i: nat, r: nat): Word
    requires Ok(b) && i < |b.nodes| && r < 64
  {
    Eval(b.nodes, i, b.rows[r], Bit(b.subCarry, r))
  }

  /** Bit k of node i in every row. */
  function Plane(b: Batch, i: nat, k: nat): (w: Word)
    requires Ok(b) && i < |b.nodes|
    ensures forall r | 0 <= r < 64 :: Bit(w, r) == Bit(RowValue(b, i, r), k)
  {
    Pack(seq(64, r requires 0 <= r < 64 => Bit(RowValue(b, i, r), k)))
  }

  // ----- arithmetic -----

  ghost predicate Adds(b: Batch, i: nat) {
    Ok(b) && i < |b.nodes| && (b.nodes[i].kind == ADD || b.nodes[i].kind == SUB)
    && b.nodes[i].left.Some? && b.nodes[i].right.Some? && b.nodes[i].left.value < |b.nodes|
    && b.nodes[i].right.value < |b.nodes|
  }

  /** What is added to the left operand: the right operand, or its complement for SUB. */
  function Addend(b: Batch, i: nat, r: nat): Word
    requires Adds(b, i) && r < 64
  {
    var v := RowValue(b, b.nodes[i].right.value, r);
    if b.nodes[i].kind == ADD then v else Not(v)
  }

  function CarryIn(b: Batch, i: nat, r: nat): bool
    requires Adds(b, i)
  {
    b.nodes[i].kind == SUB && Bit(b.subCarry, r)
  }

  predicate RowCarry(b: Batch, i: nat, k: nat, r: nat)
    requires Adds(b, i) && r < 64
  {
    Carry(RowValue(b, b.nodes[i].left.value, r), Addend(b, i, r), CarryIn(b, i, r), k)
  }

  /** The carry into bit k of node i in every row. */
  function CarryPlane(b: Batch, i: nat, k: nat): (w: Word)
    requires Adds(b, i)
    ensures forall r | 0 <= r < 64 :: Bit(w, r) == RowCarry(b, i, k, r)
  {
    Pack(seq(64, r requires 0 <= r < 64 => RowCarry(b, i, k, r)))
  }

  function AddendPlane(b: Batch, i: nat, k: nat): Word
    requires Adds(b, i)
  {
    var p := Plane(b, b.nodes[i].right.value, k);
    if b.nodes[i].kind == ADD then p else Not(p)
  }

  lemma AddendBit(b: Batch, i: nat, k: nat, r: nat)
    requires Adds(b, i) && k < 64 && r < 64
    ensures Bit(AddendPlane(b, i, k), r) == Bit(Addend(b, i, r), k)
  {
    var p := Plane(b, b.nodes[i].right.value, k);
    assert Bit(p, r) == Bit(RowValue(b, b.nodes[i].right.value, r), k);
    assert Bit(Not(p), r) == !Bit(p, r);
    hide Plane, RowValue, Bit;
  }

  lemma ValueAdds(b: Batch, i: nat, r: nat)
    requires Adds(b, i) && r < 64
    ensures RowValue(b, i, r) ==
            (RowValue(b, b.nodes[i].left.value, r) + Addend(b, i, r) + Int(CarryIn(b, i, r))) % WORD_MOD
  {
    assert NodeOk(b.nodes[i], i);
  }

  /** The initial carries are the constants the compiler loads. */
  lemma FirstCarry(b: Batch, i: nat)
    requires Adds(b, i)
    ensures CarryPlane(b, i, 0) == if b.nodes[i].kind == ADD then 0 else b.subCarry
  {
    var seed := if b.nodes[i].kind == ADD then 0 else b.subCarry;
    forall r | 0 <= r < 64 ensures Bit(CarryPlane(b, i, 0), r) == Bit(seed, r) {
      ConstantBits(r);
      assert Bit(CarryPlane(b, i, 0), r) == RowCarry(b, i, 0, r);
    }
    WordsEqual(CarryPlane(b, i, 0), seed);
  }

  /** Sixty-four full adders side by side: the sum plane and the next carry plane. */
  lemma FullAdder(b: Batch, i: nat, k: nat)
    requires Adds(b, i) && k < 64
    ensures var x, y, z := Plane(b, b.nodes[i].left.value, k), AddendPlane(b, i, k), CarryPlane(b, i, k);
            Xor(Xor(x, y), z) == Plane(b, i, k) && Or(And(x, y), And(Xor(x, y), z)) == CarryPlane(b, i, k + 1)
  {
    var x, y, z := Plane(b, b.nodes[i].left.value, k), AddendPlane(b, i, k), CarryPlane(b, i, k);
    var sum, carry := Xor(Xor(x, y), z), Or(And(x, y), And(Xor(x, y), z));
    forall r | 0 <= r < 64
      ensures Bit(sum, r) == Bit(Plane(b, i, k), r) && Bit(carry, r) == Bit(CarryPlane(b, i, k + 1), r)
    {
      RowAdder(b, i, k, r);
    }
    WordsEqual(sum, Plane(b, i, k));
    WordsEqual(carry, CarryPlane(b, i, k + 1));
  }

  lemma RowAdder(b: Batch, i: nat, k: nat, r: nat)
    requires Adds(b, i) && k < 64 && r < 64
    ensures var x, y, z := Plane(b, b.nodes[i].left.value, k), AddendPlane(b, i, k), CarryPlane(b, i, k);
            Bit(Plane(b, i, k), r) == ((Bit(x, r) != Bit(y, r)) != Bit(z, r))
            && Bit(CarryPlane(b, i, k + 1), r) == Majority(Bit(x, r), Bit(y, r), Bit(z, r))
  {
    var l, a, c := RowValue(b, b.nodes[i].left.value, r), Addend(b, i, r), CarryIn(b, i, r);
    AddendBit(b, i, k, r);
    ValueAdds(b, i, r);
    SumBit(l, a, c, k);
    WrappedBit(l + a + Int(c), k);
    CarryStep(l, a, c, k);
    assert Bit(Plane(b, i, k), r) == Bit(RowValue(b, i, r), k);
    assert Bit(CarryPlane(b, i, k), r) == RowCarry(b, i, k, r);
    assert Bit(CarryPlane(b, i, k + 1), r) == RowCarry(b, i, k + 1, r);
    assert Bit(Plane(b, b.nodes[i].left.value, k), r) == Bit(l, k);
    hide Plane, CarryPlane, AddendPlane, RowValue, Addend, Bit, Carry;
  }

  /** A constant's pre-sliced plane is its plane in every row. */
  lemma ConstPlane(b: Batch, i: nat, k: nat)
    requires Ok(b) && i < |b.nodes| && b.nodes[i].kind == CONST && k < 64
    ensures ConstPlanes(b.nodes[i].constValue)[k] == Plane(b, i, k)
  {
    var c := b.nodes[i].constValue;
    Pow2Of64();
    AsrBit(c, 64, k);
    var w := ConstPlanes(c)[k];
    forall r | 0 <= r < 64 ensures Bit(w, r) == Bit(Plane(b, i, k), r) {
      ConstantBits(r);
      assert RowValue(b, i, r) == ToWord(c) by { assert NodeOk(b.nodes[i], i); }
    }
    WordsEqual(w, Plane(b, i, k));
  }

  // ----- comparison -----

  /** Rows whose bits from k up make x greater than y, and rows whose bits from k up agree. */
  function GtPlane(b: Batch, x: nat, y: nat, k: nat): (w: Word)
    requires Ok(b) && x < |b.nodes| && y < |b.nodes|
    ensures forall r | 0 <= r < 64 :: Bit(w, r) == (Shr(RowValue(b, x, r), k) > Shr(RowValue(b, y, r), k))
  {
    Pack(seq(64, r requires 0 <= r < 64 => Shr(RowValue(b, x, r), k) > Shr(RowValue(b, y, r), k)))
  }

  function EqPlane(b: Batch, x: nat, y: nat, k: nat): (w: Word)
    requires Ok(b) && x < |b.nodes| && y < |b.nodes|
    ensures forall r | 0 <= r < 64 :: Bit(w, r) == (Shr(RowValue(b, x, r), k) == Shr(RowValue(b, y, r), k))
  {
    Pack(seq(64, r requires 0 <= r < 64 => Shr(RowValue(b, x, r), k) == Shr(RowValue(b, y, r), k)))
  }

  lemma FirstComparison(b: Batch, x: nat, y: nat)
    requires Ok(b) && x < |b.nodes| && y < |b.nodes|
    ensures GtPlane(b, x, y, 64) == 0 && EqPlane(b, x, y, 64) == ALL_ONES
  {
    Pow2Of64();
    forall r | 0 <= r < 64
      ensures Bit(GtPlane(b, x, y, 64), r) == Bit(0, r) && Bit(EqPlane(b, x, y, 64), r) == Bit(ALL_ONES, r)
    {
      ConstantBits(r);
      ShrAll(RowValue(b, x, r), 64);
      ShrAll(RowValue(b, y, r), 64);
      hide RowValue, Shr;
    }
    WordsEqual(GtPlane(b, x, y, 64), 0);
    WordsEqual(EqPlane(b, x, y, 64), ALL_ONES);
  }

  /** One comparator step, most significant bit first. */
  lemma ComparatorStep(b: Batch, x: nat, y: nat, k: nat)
    requires Ok(b) && x < |b.nodes| && y < |b.nodes| && k < 64
    ensures var p, q, gt, eq := Plane(b, x, k), Plane(b, y, k), GtPlane(b, x, y, k + 1), EqPlane(b, x, y, k + 1);
            Or(gt, And(eq, Bic(p, q))) == GtPlane(b, x, y, k) && Bic(eq, Xor(p, q)) == EqPlane(b, x, y, k)
  {
    var p, q, gt, eq := Plane(b, x, k), Plane(b, y, k), GtPlane(b, x, y, k + 1), EqPlane(b, x, y, k + 1);
    var gt', eq' := Or(gt, And(eq, Bic(p, q))), Bic(eq, Xor(p, q));
    forall r | 0 <= r < 64
      ensures Bit(gt', r) == Bit(GtPlane(b, x, y, k), r) && Bit(eq', r) == Bit(EqPlane(b, x, y, k), r)
    {
      var v, w := RowValue(b, x, r), RowValue(b, y, r);
      ShrStep(v, k);
      ShrStep(w, k);
      assert Bit(p, r) == Bit(v, k) && Bit(q, r) == Bit(w, k);
      assert Bit(gt, r) == (Shr(v, k + 1) > Shr(w, k + 1)) && Bit(eq, r) == (Shr(v, k + 1) == Shr(w, k + 1));
      hide RowValue, Shr, Bit, Plane, GtPlane, EqPlane;
    }
    WordsEqual(gt', GtPlane(b, x, y, k));
    WordsEqual(eq', EqPlane(b, x, y, k));
  }
}
