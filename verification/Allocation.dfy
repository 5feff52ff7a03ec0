// What the compiler hands out before it emits code: field indices, constant planes,
// scratchpad slots and carry registers.
module Allocation {
  import opened Words
  import opened Machine
  import opened Ir
  import opened Analyzer

  const MAX_FIELDS: nat := 8
  const MAX_SLOTS: nat := 8

  /** The distinct field names of the loads, in order of first appearance. */
  function Names(nodes: seq<Node>, loads: seq<nat>): seq<string>
    requires InRange(nodes, loads)
  {
    if loads == [] then []
    else
      var n := |loads| - 1;
      var names := Names(nodes, loads[..n]);
      var name := nodes[loads[n]].fieldName;
      if name in names then names else names + [name]
  }

  /** The names are pairwise distinct and are exactly those of the loads. */
  lemma {:induction false} NamesDistinct(nodes: seq<Node>, loads: seq<nat>)
    requires InRange(nodes, loads)
    ensures Distinct(Names(nodes, loads))
    ensures forall x :: x in Names(nodes, loads) <==> exists k :: 0 <= k < |loads| && nodes[loads[k]].fieldName == x
  {
    if loads != [] {
      var n := |loads| - 1;
      var few := loads[..n];
      NamesDistinct(nodes, few);
      forall x ensures x in Names(nodes, loads) <==> exists k :: 0 <= k < |loads| && nodes[loads[k]].fieldName == x {
        if k :| 0 <= k < |loads| && nodes[loads[k]].fieldName == x {
          assert k < n ==> nodes[few[k]].fieldName == x;
        }
        if k :| 0 <= k < n && nodes[few[k]].fieldName == x {
          assert nodes[loads[k]].fieldName == x;
        }
      }
    }
  }

  lemma {:induction false} NamesGrow(nodes: seq<Node>, loads: seq<nat>, k: nat)
    requires InRange(nodes, loads) && k <= |loads|
    ensures |Names(nodes, loads[..k])| <= |Names(nodes, loads)|
    decreases |loads| - k
  {
    if k < |loads| {
      assert loads[..k + 1][..k] == loads[..k];
      NamesGrow(nodes, loads, k + 1);
    } else {
      assert loads[..k] == loads;
    }
  }

  lemma NamesStep(nodes: seq<Node>, loads: seq<nat>, k: nat)
    requires InRange(nodes, loads) && k < |loads|
    ensures var few, name := Names(nodes, loads[..k]), nodes[loads[k]].fieldName;
            Names(nodes, loads[..k + 1]) == if name in few then few else few + [name]
    ensures |Names(nodes, loads[..k + 1])| <= |Names(nodes, loads)|
  {
    assert loads[..k + 1][..k] == loads[..k];
    NamesGrow(nodes, loads, k + 1);
  }

  /** Every load carries the position of its own name. */
  ghost predicate FieldsBound(nodes: seq<Node>, loads: seq<nat>, names: seq<string>) {
    forall k | 0 <= k < |loads| :: FieldBound(nodes, loads[k], names)
  }

  ghost predicate FieldBound(nodes: seq<Node>, i: nat, names: seq<string>) {
    i < |nodes| && 0 <= nodes[i].fieldIdx < |names| && names[nodes[i].fieldIdx] == nodes[i].fieldName
  }

  /** The index map holds each name at its position. */
  ghost predicate IndexMap(m: map<string, nat>, names: seq<string>) {
    |m| == |names| && (forall x :: x in m <==> x in names) && forall x | x in m :: m[x] < |names| && names[m[x]] == x
  }

  ghost predicate UpToMetadata(pool: NodePool, nodes: seq<Node>)
    reads pool, pool.storage
  {
    pool.Valid() && SameGraph(nodes, pool.Nodes())
  }

  /** Numbers the fields in order of first appearance. With a limit it gives up at the ninth name. */
  method AssignFields(pool: NodePool, loads: seq<nat>, limited: bool, ghost nodes: seq<Node>) returns (ok: bool)
    requires UpToMetadata(pool, nodes) && InRange(nodes, loads) && Distinct(loads)
    modifies pool.storage
    ensures UpToMetadata(pool, nodes)
    ensures ok == (limited ==> |Names(nodes, loads)| <= MAX_FIELDS)
    ensures ok ==> FieldsBound(pool.Nodes(), loads, Names(nodes, loads))
    ensures !ok ==> exists k | 0 <= k < |loads| ::
              |Names(nodes, loads[..k])| == 8 && nodes[loads[k]].fieldName !in Names(nodes, loads[..k])
              && FieldsBound(pool.Nodes(), loads[..k], Names(nodes, loads[..k]))
  {
    hide Names, WellBuilt;
    var fieldToIdx: map<string, nat> := map[];
    var k := 0;
    assert loads[..0] == [] && Names(nodes, loads[..0]) == [] by { NoNames(nodes); }
    while k < |loads|
      invariant k <= |loads| && UpToMetadata(pool, nodes)
      invariant IndexMap(fieldToIdx, Names(nodes, loads[..k]))
      invariant limited ==> |fieldToIdx| <= MAX_FIELDS
      invariant FieldsBound(pool.Nodes(), loads[..k], Names(nodes, loads[..k]))
    {
      var i := loads[k];
      ghost var before, few := pool.Nodes(), Names(nodes, loads[..k]);
      assert SameNode(nodes[i], before[i]);
      NamesStep(nodes, loads, k);
      var name := pool.storage[i].fieldName;
      if name !in fieldToIdx {
        if limited && |fieldToIdx| >= MAX_FIELDS { return false; }
        fieldToIdx := fieldToIdx[name := |fieldToIdx|];
      }
      pool.SetFieldIdx(i, fieldToIdx[name]);
      FieldWritten(before, pool.Nodes(), loads, k, few, Names(nodes, loads[..k + 1]));
      k := k + 1;
    }
    assert loads[..k] == loads;
    ok := true;
  }

  lemma NoNames(nodes: seq<Node>)
    ensures Names(nodes, []) == []
  {
  }

  lemma FieldWritten(before: seq<Node>, after: seq<Node>, loads: seq<nat>, k: nat, few: seq<string>, names: seq<string>)
    requires k < |loads| && Distinct(loads) && few <= names && loads[k] < |before| == |after|
    requires forall i | 0 <= i < |before| && i != loads[k] :: after[i] == before[i]
    requires FieldsBound(before, loads[..k], few) && FieldBound(after, loads[k], names)
    ensures FieldsBound(after, loads[..k + 1], names)
  {
    var more := loads[..k + 1];
    forall l | 0 <= l < |more| ensures FieldBound(after, more[l], names) {
      if l < k {
        assert more[l] == loads[..k][l] && loads[l] != loads[k];
        assert FieldBound(before, loads[..k][l], few);
      }
    }
  }

  // ----- constant planes -----

  /** Planes of constants, made once per value and kept. */
  class ConstPool {
    var pools: map<Int64, array<Word>>

    ghost predicate Valid()
      reads this, set c | c in pools :: pools[c]
    {
      forall c | c in pools :: pools[c].Length == 64 && pools[c][..] == ConstPlanes(c)
    }

    constructor ()
      ensures Valid() && pools == map[]
    {
      pools := map[];
    }

    /** The planes of a constant; the planes handed out before stay where they are. */
    method GetOrCreate(value: Int64) returns (planes: array<Word>)
      requires Valid()
      modifies this
      ensures Valid() && value in pools && planes == pools[value] && planes[..] == ConstPlanes(value)
      ensures forall c | c in old(pools) :: c in pools && pools[c] == old(pools)[c]
      ensures forall c | c in pools :: c in old(pools) || c == value
    {
      if value in pools { return pools[value]; }
      planes := new Word[64];
      for bit := 0 to 64
        invariant forall b | 0 <= b < bit :: planes[b] == ConstPlanes(value)[b]
        invariant pools == old(pools) && fresh(planes) && (forall c | c in pools :: pools[c] != planes) && Valid()
      {
        planes[bit] := if Asr(value, bit) % 2 == 1 then ALL_ONES else 0;
      }
      pools := pools[value := planes];
    }
  }

  // ----- scratchpad slots -----

  class ScratchpadManager {
    const used: array<bool>

    constructor ()
      ensures used.Length == MAX_SLOTS && fresh(used) && forall i | 0 <= i < MAX_SLOTS :: !used[i]
    {
      used := new bool[MAX_SLOTS](i => false);
    }

    /** The lowest free slot, or -1 exactly when all slots are taken. */
    method AllocSlot() returns (id: int)
      requires used.Length == MAX_SLOTS
      modifies used
      ensures -1 <= id < MAX_SLOTS
      ensures id == -1 <==> forall i | 0 <= i < MAX_SLOTS :: old(used[i])
      ensures id >= 0 ==> !old(used[id]) && forall i | 0 <= i < id :: old(used[i])
      ensures forall i | 0 <= i < MAX_SLOTS :: used[i] == (i == id || old(used[i]))
    {
      for i := 0 to MAX_SLOTS
        invariant forall k | 0 <= k < i :: used[k]
        invariant used[..] == old(used[..])
      {
        if !used[i] {
          used[i] := true;
          return i;
        }
      }
      return -1;
    }
  }

  /** Arithmetic nodes own different slots, all within the scratchpad. */
  ghost predicate SlotsBound(nodes: seq<Node>, arith: seq<nat>) {
    InRange(nodes, arith)
    && (forall k | 0 <= k < |arith| :: 0 <= nodes[arith[k]].slotId < MAX_SLOTS)
    && forall k, l | 0 <= k < l < |arith| :: nodes[arith[k]].slotId != nodes[arith[l]].slotId
  }

  /** ADD and SUB nodes own different carry registers. */
  ghost predicate CarriesBound(nodes: seq<Node>, arith: seq<nat>) {
    InRange(nodes, arith)
    && (forall k | 0 <= k < |arith| && Ripples(nodes[arith[k]]) :: 0 <= nodes[arith[k]].carryReg < 8)
    && forall k, l | 0 <= k < l < |arith| && Ripples(nodes[arith[k]]) && Ripples(nodes[arith[l]]) ::
         nodes[arith[k]].carryReg != nodes[arith[l]].carryReg
  }

  /** How many ADD and SUB nodes a list holds. */
  function RippleCount(nodes: seq<Node>, list: seq<nat>): nat
    requires InRange(nodes, list)
  {
    if list == [] then 0
    else
      var n := |list| - 1;
      RippleCount(nodes, list[..n]) + if Ripples(nodes[list[n]]) then 1 else 0
  }

  /** Carry registers are numbered in list order. */
  ghost predicate CarriesNumbered(nodes: seq<Node>, arith: seq<nat>) {
    InRange(nodes, arith)
    && forall k | 0 <= k < |arith| && Ripples(nodes[arith[k]]) ::
         nodes[arith[k]].carryReg == RippleCount(nodes, arith[..k])
  }

  lemma {:induction false} RippleCountGrows(nodes: seq<Node>, list: seq<nat>, k: nat)
    requires InRange(nodes, list) && k < |list|
    ensures RippleCount(nodes, list[..k]) + (if Ripples(nodes[list[k]]) then 1 else 0) <= RippleCount(nodes, list)
    decreases |list|
  {
    var n := |list| - 1;
    if k < n {
      assert list[..n][..k] == list[..k];
      RippleCountGrows(nodes, list[..n], k);
    }
  }

  /** Numbers in order are different, and below eight while fewer than eight have been handed out. */
  lemma NumberedBound(nodes: seq<Node>, arith: seq<nat>)
    requires CarriesNumbered(nodes, arith) && RippleCount(nodes, arith) <= 8
    ensures CarriesBound(nodes, arith)
  {
    forall k | 0 <= k < |arith| && Ripples(nodes[arith[k]]) ensures 0 <= nodes[arith[k]].carryReg < 8 {
      RippleCountGrows(nodes, arith, k);
    }
    forall k, l | 0 <= k < l < |arith| && Ripples(nodes[arith[k]]) && Ripples(nodes[arith[l]])
      ensures nodes[arith[k]].carryReg < nodes[arith[l]].carryReg
    {
      assert arith[..l][..k] == arith[..k];
      RippleCountGrows(nodes, arith[..l], k);
    }
  }

  predicate Ripples(n: Node) {
    n.kind == ADD || n.kind == SUB
  }

  /** Gives every arithmetic node its own slot; fails exactly when there are more than eight. */
  method AssignSlots(pool: NodePool, arith: seq<nat>, ghost nodes: seq<Node>, ghost loads: seq<nat>,
                     ghost names: seq<string>)
    returns (ok: bool)
    requires UpToMetadata(pool, nodes) && InRange(nodes, arith) && Distinct(arith)
    requires FieldsBound(pool.Nodes(), loads, names)
    modifies pool.storage
    ensures UpToMetadata(pool, nodes) && FieldsBound(pool.Nodes(), loads, names)
    ensures ok == (|arith| <= MAX_SLOTS)
    ensures ok ==> SlotsBound(pool.Nodes(), arith)
    ensures forall k | 0 <= k < |arith| && k < 8 :: pool.Nodes()[arith[k]].slotId == k
    ensures !ok ==> |arith| > 8 && pool.Nodes()[arith[8]].slotId == -1
  {
    assert |pool.Nodes()| == |nodes|;
    hide SameGraph, FieldsBound, WellBuilt;
    var manager := new ScratchpadManager();
    var k := 0;
    while k < |arith|
      invariant k <= |arith| && k <= MAX_SLOTS && UpToMetadata(pool, nodes) && |pool.Nodes()| == |nodes|
      invariant FieldsBound(pool.Nodes(), loads, names)
      invariant forall i | 0 <= i < MAX_SLOTS :: manager.used[i] == (i < k)
      invariant forall l | 0 <= l < k :: pool.Nodes()[arith[l]].slotId == l
    {
      var i := arith[k];
      assert k < MAX_SLOTS ==> !manager.used[k];
      var id := manager.AllocSlot();
      assert id >= 0 ==> id == k;
      ghost var before := pool.Nodes();
      assert manager.used as object != pool.storage as object;
      pool.SetSlotId(i, id);
      SlotWritten(nodes, before, i, id, loads, names);
      if id < 0 { return false; }
      k := k + 1;
    }
    ok := true;
  }

  lemma SlotWritten(nodes: seq<Node>, before: seq<Node>, i: nat, id: int, loads: seq<nat>, names: seq<string>)
    requires SameGraph(nodes, before) && FieldsBound(before, loads, names) && i < |before|
    ensures var after := before[i := before[i].(slotId := id)];
            SameGraph(nodes, after) && FieldsBound(after, loads, names)
  {
    var after := before[i := before[i].(slotId := id)];
    assert SameNode(nodes[i], before[i]);
    forall l | 0 <= l < |loads| ensures FieldBound(after, loads[l], names) {
      assert FieldBound(before, loads[l], names);
    }
  }

  /** Gives every ADD and SUB its own carry register. Nodes that got a slot never run out of registers. */
  method AssignCarries(pool: NodePool, arith: seq<nat>, ghost nodes: seq<Node>, ghost loads: seq<nat>,
                       ghost names: seq<string>)
    returns (ok: bool)
    requires UpToMetadata(pool, nodes) && Distinct(arith) && InRange(pool.Nodes(), arith)
    requires SlotsBound(pool.Nodes(), arith) && |arith| <= MAX_SLOTS
    requires FieldsBound(pool.Nodes(), loads, names)
    modifies pool.storage
    ensures ok
    ensures UpToMetadata(pool, nodes) && FieldsBound(pool.Nodes(), loads, names)
    ensures SlotsBound(pool.Nodes(), arith) && CarriesBound(pool.Nodes(), arith)
    ensures CarriesNumbered(pool.Nodes(), arith)
  {
    assert arith[..0] == [];
    NothingNumbered(pool.Nodes());
    hide InRange, Distinct, WellBuilt, SameGraph, CarriesBound, SlotsBound, FieldsBound, CarriesNumbered, RippleCount,
         Ripples;
    var next := 0;
    var k := 0;
    while k < |arith|
      invariant 0 <= next <= k <= |arith| && UpToMetadata(pool, nodes) && InRange(pool.Nodes(), arith)
      invariant FieldsBound(pool.Nodes(), loads, names) && SlotsBound(pool.Nodes(), arith)
      invariant InRange(pool.Nodes(), arith[..k]) && next == RippleCount(pool.Nodes(), arith[..k])
      invariant CarriesNumbered(pool.Nodes(), arith[..k])
    {
      var i := arith[k];
      InRangeAt(pool.Nodes(), arith, k);
      if Ripples(pool.storage[i]) {
        if next >= 8 { return false; }
        ghost var before := pool.Nodes();
        pool.SetCarryReg(i, next);
        next := next + 1;
        CarryWritten(nodes, before, arith, k, loads, names);
      } else {
        NoCarryWritten(pool.Nodes(), arith, k);
      }
      k := k + 1;
    }
    assert arith[..k] == arith;
    NumberedBound(pool.Nodes(), arith);
    ok := true;
  }

  lemma InRangeAt(nodes: seq<Node>, arith: seq<nat>, k: nat)
    requires InRange(nodes, arith) && k < |arith|
    ensures arith[k] < |nodes|
  {
  }

  lemma NothingNumbered(nodes: seq<Node>)
    ensures InRange(nodes, []) && RippleCount(nodes, []) == 0 && CarriesNumbered(nodes, [])
  {
  }

  lemma NoCarryWritten(nodes: seq<Node>, arith: seq<nat>, k: nat)
    requires k < |arith| && InRange(nodes, arith) && !Ripples(nodes[arith[k]])
    requires CarriesNumbered(nodes, arith[..k])
    ensures CarriesNumbered(nodes, arith[..k + 1])
    ensures RippleCount(nodes, arith[..k + 1]) == RippleCount(nodes, arith[..k])
  {
    assert arith[..k + 1][..k] == arith[..k];
    hide RippleCount;
    forall l | 0 <= l < k ensures arith[..k + 1][l] == arith[..k][l] && arith[..k + 1][..l] == arith[..k][..l] {}
  }

  /** The write leaves the graph, the other carries, the slots and the field numbers alone. */
  lemma CarryWritten(nodes: seq<Node>, before: seq<Node>, arith: seq<nat>, k: nat, loads: seq<nat>, names: seq<string>)
    requires k < |arith| <= MAX_SLOTS && Distinct(arith) && SlotsBound(before, arith)
    requires InRange(before, arith) && CarriesNumbered(before, arith[..k])
    requires SameGraph(nodes, before) && FieldsBound(before, loads, names) && Ripples(before[arith[k]])
    ensures var next := RippleCount(before, arith[..k]);
            var after := before[arith[k] := before[arith[k]].(carryReg := next)];
            SameGraph(nodes, after) && FieldsBound(after, loads, names) && SlotsBound(after, arith)
            && InRange(after, arith) && CarriesNumbered(after, arith[..k + 1])
            && RippleCount(after, arith[..k + 1]) == next + 1
  {
    var next := RippleCount(before, arith[..k]);
    CarryElsewhere(nodes, before, arith, arith[k], next, loads, names);
    hide SameGraph, FieldsBound, SlotsBound;
    CarryNumbered(before, arith, k);
  }

  lemma CarryElsewhere(nodes: seq<Node>, before: seq<Node>, arith: seq<nat>, i: nat, v: int, loads: seq<nat>,
                       names: seq<string>)
    requires SameGraph(nodes, before) && FieldsBound(before, loads, names) && SlotsBound(before, arith) && i < |before|
    ensures var after := before[i := before[i].(carryReg := v)];
            SameGraph(nodes, after) && FieldsBound(after, loads, names) && SlotsBound(after, arith)
  {
    var after := before[i := before[i].(carryReg := v)];
    assert SameNode(nodes[i], before[i]);
    forall l | 0 <= l < |loads| ensures FieldBound(after, loads[l], names) {
      assert FieldBound(before, loads[l], names);
    }
  }

  lemma CarryNumbered(before: seq<Node>, arith: seq<nat>, k: nat)
    requires k < |arith| && Distinct(arith) && InRange(before, arith) && CarriesNumbered(before, arith[..k])
    requires Ripples(before[arith[k]])
    ensures var next := RippleCount(before, arith[..k]);
            var after := before[arith[k] := before[arith[k]].(carryReg := next)];
            InRange(after, arith) && CarriesNumbered(after, arith[..k + 1])
            && RippleCount(after, arith[..k + 1]) == next + 1
  {
    var next := RippleCount(before, arith[..k]);
    var after := before[arith[k] := before[arith[k]].(carryReg := next)];
    var longer := arith[..k + 1];
    assert longer[..k] == arith[..k];
    SameRipples(before, after, arith[..k]);
    forall l | 0 <= l <= k && Ripples(after[longer[l]])
      ensures after[longer[l]].carryReg == RippleCount(after, longer[..l])
    {
      assert longer[..l] == arith[..k][..l];
      SameRipples(before, after, longer[..l]);
      if l < k { assert arith[..k][l] == arith[l] && arith[l] != arith[k]; }
    }
  }

  lemma {:induction false} SameRipples(a: seq<Node>, b: seq<Node>, list: seq<nat>)
    requires InRange(a, list) && |a| == |b| && forall i | 0 <= i < |a| :: a[i].kind == b[i].kind
    ensures RippleCount(a, list) == RippleCount(b, list)
    decreases |list|
  {
    if list != [] { SameRipples(a, b, list[..|list| - 1]); }
  }
}
