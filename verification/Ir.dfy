// The expression graph: nodes in a bump pool, built children first, and their meaning on one row.
module Ir {
  import opened Words
  import opened Options

  datatype NodeKind = LOAD | CONST | ADD | SUB | GT | LT | EQ | AND | OR | NOT | SELECT | LSL | LSR
  datatype ResultKind = BITPLANE | BITMASK

  /** A pool slot. Pointers to other nodes are positions in the pool. */
  datatype Node = Node(
    kind: NodeKind,
    resultKind: ResultKind,
    fieldName: string,
    constValue: Int64,
    shiftAmount: int,
    left: Option<nat>,
    right: Option<nat>,
    cond: Option<nat>,
    slotId: int,
    fieldIdx: int,
    carryReg: int)

  function Fresh(kind: NodeKind): (n: Node)
    ensures n.kind == kind && Unassigned(n)
  {
    Node(kind, ResultOf(kind), "", 0, 0, None, None, None, -1, -1, -1)
  }

  /** No slot, field index or carry register yet. */
  predicate Unassigned(n: Node) {
    n.slotId == -1 && n.fieldIdx == -1 && n.carryReg == -1
  }

  function ResultOf(kind: NodeKind): ResultKind {
    if kind in {LOAD, CONST, ADD, SUB, LSL, LSR} then BITPLANE else BITMASK
  }

  ghost predicate Below(p: Option<nat>, i: nat) {
    p.Some? ==> p.value < i
  }

  /** What every pool of built nodes satisfies: children are older than their parents. */
  ghost predicate WellBuilt(nodes: seq<Node>) {
    forall i | 0 <= i < |nodes| :: NodeOk(nodes[i], i)
  }

  ghost predicate NodeOk(n: Node, i: nat) {
    Below(n.left, i) && Below(n.right, i) && Below(n.cond, i)
    && n.resultKind == ResultOf(n.kind) && (n.cond.Some? ==> n.kind == SELECT)
  }

  // ----- meaning -----

  type Row = map<string, Word>

  function Lookup(row: Row, name: string): Word {
    if name in row then row[name] else 0
  }

  /** One node's operation on its operand values. */
  function Apply(n: Node, l: Word, r: Word, row: Row, carryIn: bool): Word {
    match n.kind
    case LOAD => Lookup(row, n.fieldName)
    case CONST => ToWord(n.constValue)
    case ADD => (l + r) % WORD_MOD
    case SUB => (l + Not(r) + Int(carryIn)) % WORD_MOD
    case GT => Int(l > r)
    case LT => Int(l < r)
    case EQ => Int(l == r)
    case AND => Int(l == 1 && r == 1)
    case OR => Int(l == 1 || r == 1)
    case _ => 0
  }

  /** The value of node i on a row; masks are 0 or 1. SUB adds the complement and the given
      carry-in, so carry-in 1 is subtraction. NOT, SELECT, LSL and LSR have no meaning here. */
  function Eval(nodes: seq<Node>, i: nat, row: Row, carryIn: bool): Word
    requires WellBuilt(nodes) && i < |nodes|
    decreases i
  {
    assert NodeOk(nodes[i], i);
    var n := nodes[i];
    var l := if n.left.None? then 0 else Eval(nodes, n.left.value, row, carryIn);
    var r := if n.right.None? then 0 else Eval(nodes, n.right.value, row, carryIn);
    Apply(n, l, r, row, carryIn)
  }

  lemma EvalApplies(nodes: seq<Node>, i: nat, row: Row, carryIn: bool)
    requires WellBuilt(nodes) && i < |nodes| && nodes[i].left.Some? && nodes[i].right.Some?
    ensures NodeOk(nodes[i], i)
    ensures var l, r := nodes[i].left.value, nodes[i].right.value;
            Eval(nodes, i, row, carryIn)
            == Apply(nodes[i], Eval(nodes, l, row, carryIn), Eval(nodes, r, row, carryIn), row, carryIn)
  {
    hide Apply;
    assert NodeOk(nodes[i], i);
  }

  /** Whether node i holds of a row. */
  predicate Verdict(nodes: seq<Node>, i: nat, row: Row, carryIn: bool)
    requires WellBuilt(nodes) && i < |nodes|
  {
    Eval(nodes, i, row, carryIn) == 1
  }

  /** With carry-in 1 a SUB node is the difference modulo 2^64; with carry-in 0 it never is. */
  lemma SubtractsIff(nodes: seq<Node>, i: nat, row: Row, carryIn: bool)
    requires WellBuilt(nodes) && i < |nodes| && nodes[i].kind == SUB
    requires nodes[i].left.Some? && nodes[i].right.Some?
    ensures NodeOk(nodes[i], i)
    ensures var l, r := Eval(nodes, nodes[i].left.value, row, carryIn), Eval(nodes, nodes[i].right.value, row, carryIn);
            carryIn <==> Eval(nodes, i, row, carryIn) == (l - r) % WORD_MOD
  {
    assert NodeOk(nodes[i], i);
    var l, r := Eval(nodes, nodes[i].left.value, row, carryIn), Eval(nodes, nodes[i].right.value, row, carryIn);
    ComplementSubtracts(l, r);
  }

  /** No SUB node below i. */
  predicate NoSub(nodes: seq<Node>, i: nat)
    requires WellBuilt(nodes) && i < |nodes|
    decreases i
  {
    assert NodeOk(nodes[i], i);
    var n := nodes[i];
    n.kind != SUB && (n.left.Some? ==> NoSub(nodes, n.left.value)) && (n.right.Some? ==> NoSub(nodes, n.right.value))
  }

  lemma ApplyWithoutSub(n: Node, l: Word, r: Word, row: Row, c: bool, d: bool)
    requires n.kind != SUB
    ensures Apply(n, l, r, row, c) == Apply(n, l, r, row, d)
  {
  }

  lemma {:induction false} CarryIrrelevant(nodes: seq<Node>, i: nat, row: Row, c: bool, d: bool)
    requires WellBuilt(nodes) && i < |nodes| && NoSub(nodes, i)
    ensures Eval(nodes, i, row, c) == Eval(nodes, i, row, d)
    decreases i
  {
    hide Apply;
    assert NodeOk(nodes[i], i);
    var n := nodes[i];
    if n.left.Some? { CarryIrrelevant(nodes, n.left.value, row, c, d); }
    if n.right.Some? { CarryIrrelevant(nodes, n.right.value, row, c, d); }
    var l := if n.left.None? then 0 else Eval(nodes, n.left.value, row, c);
    var r := if n.right.None? then 0 else Eval(nodes, n.right.value, row, c);
    ApplyWithoutSub(n, l, r, row, c, d);
  }

  /** The part of a node that its meaning depends on. */
  predicate SameNode(a: Node, b: Node) {
    a.kind == b.kind && a.resultKind == b.resultKind && a.fieldName == b.fieldName && a.constValue == b.constValue
    && a.left == b.left && a.right == b.right && a.cond == b.cond && a.shiftAmount == b.shiftAmount
  }

  /** Equal up to the metadata the compiler writes. */
  ghost predicate SameGraph(a: seq<Node>, b: seq<Node>) {
    |a| == |b| && forall i | 0 <= i < |a| :: SameNode(a[i], b[i])
  }

  lemma SameGraphItself(nodes: seq<Node>)
    ensures SameGraph(nodes, nodes)
  {
  }

  lemma SameApply(m: Node, n: Node, l: Word, r: Word, row: Row, c: bool)
    requires SameNode(m, n)
    ensures Apply(m, l, r, row, c) == Apply(n, l, r, row, c)
  {
  }

  lemma {:induction false} SameMeaning(a: seq<Node>, b: seq<Node>, i: nat, row: Row, c: bool)
    requires WellBuilt(a) && WellBuilt(b) && i < |a| && i < |b|
    requires forall j | 0 <= j <= i :: SameNode(a[j], b[j])
    ensures Eval(a, i, row, c) == Eval(b, i, row, c)
    decreases i
  {
    hide Apply;
    var m, n := a[i], b[i];
    assert NodeOk(m, i) && SameNode(m, n);
    if m.left.Some? { SameMeaning(a, b, m.left.value, row, c); }
    if m.right.Some? { SameMeaning(a, b, m.right.value, row, c); }
    var l := if m.left.None? then 0 else Eval(a, m.left.value, row, c);
    var r := if m.right.None? then 0 else Eval(a, m.right.value, row, c);
    SameApply(m, n, l, r, row, c);
  }

  // ----- well-kinded expressions -----

  predicate IsComparison(k: NodeKind) {
    k == GT || k == LT || k == EQ
  }

  /** Node i and everything below it is LOAD, CONST, ADD or SUB with both operands present. */
  predicate Arithmetic(nodes: seq<Node>, p: Option<nat>)
    requires WellBuilt(nodes) && Below(p, |nodes|)
    decreases if p.Some? then p.value + 1 else 0
  {
    p.Some? &&
    (assert NodeOk(nodes[p.value], p.value);
     var n := nodes[p.value];
     n.cond.None? &&
     match n.kind
     case LOAD => n.left.None? && n.right.None?
     case CONST => n.left.None? && n.right.None?
     case ADD => Arithmetic(nodes, n.left) && Arithmetic(nodes, n.right)
     case SUB => Arithmetic(nodes, n.left) && Arithmetic(nodes, n.right)
     case _ => false)
  }

  /** A well-kinded predicate: comparisons of arithmetic joined by AND and OR. */
  predicate WellKinded(nodes: seq<Node>, p: Option<nat>)
    requires WellBuilt(nodes) && Below(p, |nodes|)
    decreases if p.Some? then p.value + 1 else 0
  {
    p.Some? &&
    (assert NodeOk(nodes[p.value], p.value);
     var n := nodes[p.value];
     n.cond.None? &&
     match n.kind
     case GT => Arithmetic(nodes, n.left) && Arithmetic(nodes, n.right)
     case LT => Arithmetic(nodes, n.left) && Arithmetic(nodes, n.right)
     case EQ => Arithmetic(nodes, n.left) && Arithmetic(nodes, n.right)
     case AND => WellKinded(nodes, n.left) && WellKinded(nodes, n.right)
     case OR => WellKinded(nodes, n.left) && WellKinded(nodes, n.right)
     case _ => false)
  }

  lemma OperandKinds(nodes: seq<Node>, i: nat)
    requires WellBuilt(nodes) && i < |nodes| && (Arithmetic(nodes, Some(i)) || WellKinded(nodes, Some(i)))
    ensures NodeOk(nodes[i], i)
    ensures var n := nodes[i];
            (if Arithmetic(nodes, Some(i)) then n.kind in {LOAD, CONST, ADD, SUB} else n.kind in {GT, LT, EQ, AND, OR})
            && (n.kind in {LOAD, CONST} ==> n.left.None? && n.right.None?)
            && (n.kind in {ADD, SUB, GT, LT, EQ} ==>
                  n.left.Some? && n.right.Some? && Arithmetic(nodes, n.left) && Arithmetic(nodes, n.right))
            && (n.kind in {AND, OR} ==>
                  n.left.Some? && n.right.Some? && WellKinded(nodes, n.left) && WellKinded(nodes, n.right))
  {
    assert NodeOk(nodes[i], i);
  }

  // ----- the pool and its builders -----

  /** What a two-operand node is on operand values x and y; AND and OR combine verdicts. */
  predicate Means(kind: NodeKind, x: Word, y: Word, carryIn: bool, v: Word) {
    match kind
    case ADD => v == (x + y) % WORD_MOD
    case SUB => v == (if carryIn then x - y else x - y - 1) % WORD_MOD
    case GT => v == if x > y then 1 else 0
    case LT => v == if x < y then 1 else 0
    case EQ => v == if x == y then 1 else 0
    case AND => v == if x == 1 && y == 1 then 1 else 0
    case OR => v == if x == 1 || y == 1 then 1 else 0
    case _ => true
  }

  lemma ApplyMeans(n: Node, x: Word, y: Word, row: Row, c: bool)
    ensures Means(n.kind, x, y, c, Apply(n, x, y, row, c))
  {
    ComplementSubtracts(x, y);
  }

  const MAX_NODES: nat := 128

  class NodePool {
    const storage: array<Node>
    var nextIdx: nat

    ghost predicate Valid()
      reads this, storage
    {
      storage.Length == MAX_NODES && nextIdx <= MAX_NODES && WellBuilt(Nodes())
    }

    function Nodes(): seq<Node>
      reads this, storage
      requires nextIdx <= storage.Length
    {
      storage[..nextIdx]
    }

    constructor ()
      ensures Valid() && fresh(storage) && Nodes() == []
    {
      storage := new Node[MAX_NODES](i => Fresh(LOAD));
      nextIdx := 0;
    }

    /** Takes the next slot and fills it; the pool runs out after 128 nodes. */
    method Build(node: Node) returns (p: Option<nat>)
      requires Valid() && NodeOk(node, nextIdx)
      modifies this, storage
      ensures Valid()
      ensures p == if old(nextIdx) < 128 then Some(old(nextIdx)) else None
      ensures Nodes() == if p.Some? then old(Nodes()) + [node] else old(Nodes())
      ensures p.Some? ==> forall i, row: Row, c: bool | 0 <= i < old(nextIdx) ::
                Eval(Nodes(), i, row, c) == Eval(old(Nodes()), i, row, c)
    {
      if nextIdx >= MAX_NODES { return None; }
      ghost var before := Nodes();
      storage[nextIdx] := node;
      p := Some(nextIdx);
      nextIdx := nextIdx + 1;
      assert Nodes() == before + [node];
      forall i, row: Row, c: bool | 0 <= i < |before| ensures Eval(Nodes(), i, row, c) == Eval(before, i, row, c) {
        SameMeaning(before, Nodes(), i, row, c);
      }
    }

    /** Field names are cut to the 63 characters the node has room for; the node is that field of the row. */
    method Load(name: string) returns (p: Option<nat>)
      requires Valid()
      modifies this, storage
      ensures Valid()
      ensures p == if old(nextIdx) < 128 then Some(old(nextIdx)) else None
      ensures Nodes() ==
              if p.None? then old(Nodes())
              else old(Nodes()) + [Fresh(LOAD).(fieldName := if |name| <= 63 then name else name[..63])]
      ensures p.Some? ==> Nodes()[p.value].kind == LOAD && Nodes()[p.value].resultKind == BITPLANE
      ensures p.Some? ==> forall row: Row, c: bool :: var field := if |name| <= 63 then name else name[..63];
                Eval(Nodes(), p.value, row, c) == if field in row then row[field] else 0
    {
      p := Build(Fresh(LOAD).(fieldName := if |name| <= 63 then name else name[..63]));
    }

    /** The node is the two's-complement word of the constant. */
    method Const(value: Int64) returns (p: Option<nat>)
      requires Valid()
      modifies this, storage
      ensures Valid()
      ensures p == if old(nextIdx) < 128 then Some(old(nextIdx)) else None
      ensures Nodes() == if p.Some? then old(Nodes()) + [Fresh(CONST).(constValue := value)] else old(Nodes())
      ensures p.Some? ==> Nodes()[p.value].kind == CONST && Nodes()[p.value].resultKind == BITPLANE
      ensures p.Some? ==> forall row: Row, c: bool :: Eval(Nodes(), p.value, row, c) == value % WORD_MOD
    {
      p := Build(Fresh(CONST).(constValue := value));
    }

    /** The builders Add, Sub, GT, EQ, And and Or: one node over two operands, with its meaning on every row. */
    method Binary(kind: NodeKind, a: Option<nat>, b: Option<nat>) returns (p: Option<nat>)
      requires Valid() && kind in {ADD, SUB, GT, EQ, AND, OR}
      requires Below(a, nextIdx) && Below(b, nextIdx)
      modifies this, storage
      ensures Valid()
      ensures p == if old(nextIdx) < 128 then Some(old(nextIdx)) else None
      ensures Nodes() == if p.Some? then old(Nodes()) + [Fresh(kind).(left := a, right := b)] else old(Nodes())
      ensures p.Some? ==> Nodes()[p.value].kind == kind
      ensures p.Some? ==> Nodes()[p.value].resultKind == if kind in {ADD, SUB} then BITPLANE else BITMASK
      ensures p.Some? && a.Some? && b.Some? ==>
                forall row: Row, c: bool ::
                  Means(kind, Eval(old(Nodes()), a.value, row, c), Eval(old(Nodes()), b.value, row, c), c,
                        Eval(Nodes(), p.value, row, c))
    {
      hide Apply, Means, Eval, SameGraph;
      ghost var before := Nodes();
      p := Build(Fresh(kind).(left := a, right := b));
      if p.Some? && a.Some? && b.Some? {
        forall row: Row, c: bool
          ensures Means(kind, Eval(before, a.value, row, c), Eval(before, b.value, row, c), c,
                        Eval(Nodes(), p.value, row, c))
        {
          EvalApplies(Nodes(), p.value, row, c);
          ApplyMeans(Nodes()[p.value], Eval(before, a.value, row, c), Eval(before, b.value, row, c), row, c);
        }
      }
    }

    /** LT(a, b) builds GT(b, a); on every row it means a < b. */
    method LessThan(a: Option<nat>, b: Option<nat>) returns (p: Option<nat>)
      requires Valid() && Below(a, nextIdx) && Below(b, nextIdx)
      modifies this, storage
      ensures Valid()
      ensures p == if old(nextIdx) < 128 then Some(old(nextIdx)) else None
      ensures Nodes() == if p.Some? then old(Nodes()) + [Fresh(GT).(left := b, right := a)] else old(Nodes())
      ensures p.Some? && a.Some? && b.Some? ==>
                forall row: Row, c: bool ::
                  Verdict(Nodes(), p.value, row, c) ==
                  (Eval(old(Nodes()), a.value, row, c) < Eval(old(Nodes()), b.value, row, c))
    {
      p := Binary(GT, b, a);
    }

    /** The builders Not, Select, LSL and LSR; they keep the pool well built. */
    method Other(kind: NodeKind, a: Option<nat>, b: Option<nat>, cond: Option<nat>, shift: int) returns (p: Option<nat>)
      requires Valid() && kind in {NOT, SELECT, LSL, LSR}
      requires Below(a, nextIdx) && Below(b, nextIdx) && Below(cond, nextIdx)
      requires (cond.Some? ==> kind == SELECT) && (b.Some? ==> kind == SELECT)
      modifies this, storage
      ensures Valid()
      ensures p == if old(nextIdx) < 128 then Some(old(nextIdx)) else None
      ensures Nodes() ==
              if p.None? then old(Nodes())
              else old(Nodes()) + [Fresh(kind).(left := a, right := b, cond := cond, shiftAmount := shift)]
      ensures p.Some? ==> Nodes()[p.value].kind == kind
      ensures p.Some? ==> Nodes()[p.value].resultKind == if kind in {LSL, LSR} then BITPLANE else BITMASK
    {
      p := Build(Fresh(kind).(left := a, right := b, cond := cond, shiftAmount := shift));
    }

    // The compiler's metadata fields are overwritten in place; the graph itself stays the same.

    method SetFieldIdx(i: nat, v: int)
      requires Valid() && i < nextIdx
      modifies storage
      ensures Valid() && Nodes() == old(Nodes())[i := old(Nodes())[i].(fieldIdx := v)]
    {
      assert NodeOk(Nodes()[i], i);
      storage[i] := storage[i].(fieldIdx := v);
      assert Nodes() == old(Nodes())[i := old(Nodes())[i].(fieldIdx := v)];
    }

    method SetSlotId(i: nat, v: int)
      requires Valid() && i < nextIdx
      modifies storage
      ensures Valid() && Nodes() == old(Nodes())[i := old(Nodes())[i].(slotId := v)]
    {
      assert NodeOk(Nodes()[i], i);
      storage[i] := storage[i].(slotId := v);
      assert Nodes() == old(Nodes())[i := old(Nodes())[i].(slotId := v)];
    }

    method SetCarryReg(i: nat, v: int)
      requires Valid() && i < nextIdx
      modifies storage
      ensures Valid() && Nodes() == old(Nodes())[i := old(Nodes())[i].(carryReg := v)]
    {
      assert NodeOk(Nodes()[i], i);
      storage[i] := storage[i].(carryReg := v);
      assert Nodes() == old(Nodes())[i := old(Nodes())[i].(carryReg := v)];
    }
  }
}
