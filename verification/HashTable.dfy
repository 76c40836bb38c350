/** The kernel's hash map: open addressing with linear probing over 20 slots, and tombstones. */
module HashTable {

  const CAPACITY := 20
  const TOMBSTONE := -1

  /** What a slot points to.  All deleted entries share one node, whose key is -1. */
  datatype Slot = Null | Node(key: int, value: int)

  type Slots = s: seq<Slot> | |s| == CAPACITY witness seq(CAPACITY, _ => Null)

  function HashCode(key: int): int {
    key % CAPACITY
  }

  /** The slot `d` steps along the probe path of `key`, which wraps around. */
  function Probe(key: int, d: nat): (i: int)
    ensures 0 <= i < CAPACITY
  {
    (key + d) % CAPACITY
  }

  /** How many steps the probe path of `key` takes to slot `i`. */
  function Distance(key: int, i: int): (d: nat)
    ensures d < CAPACITY
  {
    (i - key) % CAPACITY
  }

  lemma ProbeDistance(key: int, i: int)
    requires 0 <= i < CAPACITY
    ensures Probe(key, Distance(key, i)) == i
  {
  }

  lemma DistanceProbe(key: int, d: nat)
    requires d < CAPACITY
    ensures Distance(key, Probe(key, d)) == d
  {
  }

  lemma NextProbe(key: int, d: nat)
    ensures (Probe(key, d) + 1) % CAPACITY == Probe(key, d + 1)
    ensures HashCode(key) == Probe(key, 0)
  {
  }

  /** Slot `i` holds the live entry of some key. */
  predicate Live(s: Slots, i: int) {
    0 <= i < CAPACITY && s[i].Node? && s[i].key != TOMBSTONE
  }

  predicate Tomb(s: Slots, i: int) {
    0 <= i < CAPACITY && s[i].Node? && s[i].key == TOMBSTONE
  }

  predicate Holds(s: Slots, i: int, key: int) {
    Live(s, i) && s[i].key == key
  }

  /** No slot before `d` on the probe path of `key` is empty. */
  predicate NoGap(s: Slots, key: int, d: nat) {
    forall e: nat | e < d :: s[Probe(key, e)] != Null
  }

  /** A tombstone comes before the entry of `key` on its probe path. */
  ghost predicate Shadowed(s: Slots, key: int) {
    exists i, e: nat :: Holds(s, i, key) && e < Distance(key, i) && Tomb(s, Probe(key, e))
  }

  ghost predicate Unique(s: Slots) {
    forall i, j | Live(s, i) && Live(s, j) && s[i].key == s[j].key :: i == j
  }

  ghost predicate Reachable(s: Slots) {
    forall i | Live(s, i) :: s[i].key >= 0 && NoGap(s, s[i].key, Distance(s[i].key, i))
  }

  /** The slots hold the entries of the map `m`, and no others. */
  ghost predicate Represents(s: Slots, m: map<int, int>) {
    && (forall i | Live(s, i) :: s[i].key in m && m[s[i].key] == s[i].value)
    && (forall k | k in m :: exists i :: Holds(s, i, k))
  }

  ghost predicate WellFormed(s: Slots, m: map<int, int>) {
    Unique(s) && Reachable(s) && Represents(s, m)
  }

  /** The slots that were never used. */
  function Unused(s: Slots): set<int> {
    set i | 0 <= i < CAPACITY && s[i] == Null
  }

  lemma UnusedAfter(s: Slots, i: int, n: Slot)
    requires 0 <= i < CAPACITY && n != Null
    ensures |Unused(s[i := n])| >= |Unused(s)| - 1
    ensures s[i] != Null ==> Unused(s[i := n]) == Unused(s)
  {
    assert Unused(s[i := n]) == Unused(s) - {i};
  }

  // ----- what adding and deleting do to the slots

  /** Where adding `key` stops: the first slot on its path that is empty, a tombstone, or its own. */
  predicate StopsAt(s: Slots, key: int, d: nat) {
    s[Probe(key, d)] == Null || s[Probe(key, d)].key == key || s[Probe(key, d)].key == TOMBSTONE
  }

  predicate FirstStop(s: Slots, key: int, d: nat) {
    d < CAPACITY && StopsAt(s, key, d) && forall e: nat | e < d :: !StopsAt(s, key, e)
  }

  /** The first stop of the path from step `d` on; CAPACITY if there is none. */
  function FindStop(s: Slots, key: int, d: nat): nat
    decreases CAPACITY - d
  {
    if d >= CAPACITY || StopsAt(s, key, d) then d else FindStop(s, key, d + 1)
  }

  /** The slots after adding, if the search for a stop ends. */
  function AddSlots(s: Slots, key: int, value: int): Slots {
    if FindStop(s, key, 0) < CAPACITY then s[Probe(key, FindStop(s, key, 0)) := Node(key, value)] else s
  }

  lemma {:induction false} FindStopIs(s: Slots, key: int, e: nat, d: nat)
    requires FirstStop(s, key, d) && e <= d
    ensures FindStop(s, key, e) == d
    decreases d - e
  {
    if e < d { FindStopIs(s, key, e + 1, d); }
  }

  lemma {:induction false} FindStopFirst(s: Slots, key: int, e: nat)
    requires forall c: nat | c < e :: !StopsAt(s, key, c)
    ensures FindStop(s, key, e) < CAPACITY ==> FirstStop(s, key, FindStop(s, key, e))
    ensures FindStop(s, key, e) >= CAPACITY ==> forall c: nat | c < CAPACITY :: !StopsAt(s, key, c)
    decreases CAPACITY - e
  {
    if e < CAPACITY && !StopsAt(s, key, e) { FindStopFirst(s, key, e + 1); }
  }

  /** The search of deletion ends at an empty slot or at the entry. */
  predicate EndsAt(s: Slots, key: int, d: nat) {
    s[Probe(key, d)] == Null || s[Probe(key, d)].key == key
  }

  function FindEnd(s: Slots, key: int, d: nat): nat
    decreases CAPACITY - d
  {
    if d >= CAPACITY || EndsAt(s, key, d) then d else FindEnd(s, key, d + 1)
  }

  /** The slots after deleting. */
  function DeleteSlots(s: Slots, key: int): Slots {
    if FindEnd(s, key, 0) < CAPACITY && s[Probe(key, FindEnd(s, key, 0))] != Null
    then s[Probe(key, FindEnd(s, key, 0)) := Node(TOMBSTONE, -1)] else s
  }

  lemma {:induction false} FindEndIs(s: Slots, key: int, e: nat, d: nat)
    requires e <= d < CAPACITY && EndsAt(s, key, d) && forall c: nat | c < d :: !EndsAt(s, key, c)
    ensures FindEnd(s, key, e) == d
    decreases d - e
  {
    if e < d { FindEndIs(s, key, e + 1, d); }
  }

  lemma {:induction false} FindEndFirst(s: Slots, key: int, e: nat)
    requires forall c: nat | c < e :: !EndsAt(s, key, c)
    ensures FindEnd(s, key, e) < CAPACITY ==> EndsAt(s, key, FindEnd(s, key, e))
    ensures forall c: nat | c < FindEnd(s, key, e) && c < CAPACITY :: !EndsAt(s, key, c)
    decreases CAPACITY - e
  {
    if e < CAPACITY && !EndsAt(s, key, e) { FindEndFirst(s, key, e + 1); }
  }

  /** Adding at the first stop is right unless the entry of the key lies behind a tombstone. */
  lemma AddKeeps(s: Slots, m: map<int, int>, key: int, value: int, d: nat)
    requires WellFormed(s, m) && key >= 0 && FirstStop(s, key, d) && !Shadowed(s, key)
    ensures WellFormed(s[Probe(key, d) := Node(key, value)], m[key := value])
    ensures key in m <==> Holds(s, Probe(key, d), key)
  {
    hide Probe, Distance;
    var i := Probe(key, d);
    var t: Slots := s[i := Node(key, value)];
    DistanceProbe(key, d);
    forall j | Holds(s, j, key) ensures j == i {
      ProbeDistance(key, j);
      var e := Distance(key, j);
      assert StopsAt(s, key, e);
      assert NoGap(s, key, e);
      assert !(d < e);
    }
    forall e: nat | e < d ensures s[Probe(key, e)] != Null { assert !StopsAt(s, key, e); }
    forall j | Live(t, j) ensures t[j].key >= 0 && NoGap(t, t[j].key, Distance(t[j].key, j)) {
      if j != i { assert Live(s, j); } else { assert NoGap(s, key, d); }
    }
    var m' := m[key := value];
    forall k | k in m' ensures exists j :: Holds(t, j, k) {
      if k == key {
        assert Holds(t, i, k);
      } else {
        var j :| Holds(s, j, k);
        assert Holds(t, j, k);
      }
    }
    forall j | Live(t, j) ensures t[j].key in m' && m'[t[j].key] == t[j].value {
      if j != i { assert Live(s, j); }
    }
    forall j, l | Live(t, j) && Live(t, l) && t[j].key == t[l].key ensures j == l {
      if j != i && l != i { assert Live(s, j) && Live(s, l); }
    }
  }

  /** Behind a tombstone the key gets a second entry. */
  lemma AddDoubles(s: Slots, m: map<int, int>, key: int, value: int, d: nat)
    requires WellFormed(s, m) && key >= 0 && FirstStop(s, key, d) && Shadowed(s, key)
    ensures !Unique(s[Probe(key, d) := Node(key, value)]) && key in m && Tomb(s, Probe(key, d))
  {
    hide Probe, Distance;
    var i := Probe(key, d);
    var t: Slots := s[i := Node(key, value)];
    var j, e: nat :| Holds(s, j, key) && e < Distance(key, j) && Tomb(s, Probe(key, e));
    assert StopsAt(s, key, e);
    ProbeDistance(key, j);
    DistanceProbe(key, d);
    assert d <= e;
    assert Holds(s, i, key) ==> i == j;
    assert NoGap(s, key, Distance(key, j));
    assert Live(t, i) && Live(t, j);
  }

  /** A tombstone in place of the entry of `key`. */
  lemma DeleteKeeps(s: Slots, m: map<int, int>, key: int, i: int, dummy: int)
    requires WellFormed(s, m) && Holds(s, i, key)
    ensures WellFormed(s[i := Node(TOMBSTONE, dummy)], m - {key}) && key in m && m[key] == s[i].value
  {
    hide Probe, Distance;
    var t: Slots := s[i := Node(TOMBSTONE, dummy)];
    var m' := m - {key};
    forall j | Live(t, j) ensures t[j].key in m' && m'[t[j].key] == t[j].value {
      assert Live(s, j) && Live(s, i);
    }
    forall j | Live(t, j) ensures t[j].key >= 0 && NoGap(t, t[j].key, Distance(t[j].key, j)) {
      assert Live(s, j);
    }
    forall k | k in m' ensures exists j :: Holds(t, j, k) {
      var j :| Holds(s, j, k);
      assert Holds(t, j, k);
    }
    forall j, l | Live(t, j) && Live(t, l) && t[j].key == t[l].key ensures j == l { assert Live(s, j) && Live(s, l); }
  }

  /** A search that has come to an empty slot, or all the way round, has missed nothing. */
  lemma Missed(s: Slots, m: map<int, int>, key: int, d: nat)
    requires WellFormed(s, m) && (d >= CAPACITY || s[Probe(key, d)] == Null)
    requires forall e: nat | e < d && e < CAPACITY :: !Holds(s, Probe(key, e), key)
    ensures key !in m
  {
    hide Probe, Distance;
    forall j | 0 <= j < CAPACITY ensures !Holds(s, j, key) {
      ProbeDistance(key, j);
      var e := Distance(key, j);
      assert Live(s, j) ==> NoGap(s, s[j].key, Distance(s[j].key, j));
    }
  }

  // ----- runs

  datatype Op = Add(key: int, value: int) | Delete(key: int) | Find(key: int)

  function Found(m: map<int, int>, k: int): int {
    if k in m then m[k] else 0
  }

  function Step(op: Op, m: map<int, int>): map<int, int> {
    match op
    case Add(k, v) => m[k := v]
    case Delete(k) => m - {k}
    case Find(_) => m
  }

  /** The map after the operations. */
  function After(ops: seq<Op>, m: map<int, int>): map<int, int> {
    if ops == [] then m else After(ops[1..], Step(ops[0], m))
  }

  /** What the deletions and searches return. */
  function Results(ops: seq<Op>, m: map<int, int>): seq<int> {
    if ops == [] then []
    else (if ops[0].Add? then [] else [Found(m, ops[0].key)]) + Results(ops[1..], Step(ops[0], m))
  }

  function Adds(ops: seq<Op>): nat {
    if ops == [] then 0 else (if ops[0].Add? then 1 else 0) + Adds(ops[1..])
  }

  /** The slots after one operation, and after all of them. */
  function SlotStep(op: Op, s: Slots): Slots {
    match op
    case Add(k, v) => AddSlots(s, k, v)
    case Delete(k) => DeleteSlots(s, k)
    case Find(_) => s
  }

  function SlotsAfter(ops: seq<Op>, s: Slots): Slots {
    if ops == [] then s else SlotsAfter(ops[1..], SlotStep(ops[0], s))
  }

  /** The loop of the operation ends: always for a search, for the others while a slot is unused, and sometimes else. */
  predicate Ends(op: Op, s: Slots) {
    match op
    case Add(k, _) => FindStop(s, k, 0) < CAPACITY
    case Delete(k) => FindEnd(s, k, 0) < CAPACITY
    case Find(_) => true
  }

  /** No key is added while its entry lies behind a tombstone. */
  ghost predicate Safe(op: Op, s: Slots) {
    op.key >= 0 && (op.Add? ==> !Shadowed(s, op.key)) && Ends(op, s)
  }

  /** Every operation is safe in the table it finds. */
  ghost predicate SafeRun(ops: seq<Op>, s: Slots) {
    ops == [] || (Safe(ops[0], s) && SafeRun(ops[1..], SlotStep(ops[0], s)))
  }

  lemma NextOp(ops: seq<Op>, i: nat, m: map<int, int>, s: Slots)
    requires i < |ops|
    ensures SlotsAfter(ops[i..], s) == SlotsAfter(ops[i + 1..], SlotStep(ops[i], s))
    ensures SafeRun(ops[i..], s) <==> Safe(ops[i], s) && SafeRun(ops[i + 1..], SlotStep(ops[i], s))
    ensures After(ops[i..], m) == After(ops[i + 1..], Step(ops[i], m))
    ensures Results(ops[i..], m) == (if ops[i].Add? then [] else [Found(m, ops[i].key)]) + Results(ops[i + 1..], Step(ops[i], m))
  {
    hide Safe, SlotStep, Step, Found;
    assert ops[i..][1..] == ops[i + 1..];
  }

  lemma NothingLeft(m: map<int, int>, s: Slots)
    ensures SlotsAfter([], s) == s && SafeRun([], s) && After([], m) == m && Results([], m) == []
  {
  }

  lemma UnusedEnds(op: Op, s: Slots)
    requires Unused(s) != {}
    ensures Ends(op, s)
  {
    hide Probe, Distance;
    var i :| i in Unused(s);
    ProbeDistance(op.key, i);
    var d := Distance(op.key, i);
    assert StopsAt(s, op.key, d) && EndsAt(s, op.key, d);
    FindStopFirst(s, op.key, 0);
    FindEndFirst(s, op.key, 0);
  }

  /** A safe operation is that of the map; an addition that ends and is not safe never is, for no map. */
  lemma StepKeeps(op: Op, s: Slots, m: map<int, int>)
    requires WellFormed(s, m) && op.key >= 0 && Ends(op, s)
    ensures Safe(op, s) ==> WellFormed(SlotStep(op, s), Step(op, m))
    ensures !Safe(op, s) ==> forall m' :: !WellFormed(SlotStep(op, s), m')
  {
    hide Probe, Distance;
    match op
    case Add(k, v) =>
      FindStopFirst(s, k, 0);
      var d := FindStop(s, k, 0);
      if Shadowed(s, k) { AddDoubles(s, m, k, v, d); } else { AddKeeps(s, m, k, v, d); }
    case Delete(k) =>
      FindEndFirst(s, k, 0);
      var d := FindEnd(s, k, 0);
      if s[Probe(k, d)] == Null {
        NotThere(s, m, k, d);
      } else {
        DeleteKeeps(s, m, k, Probe(k, d), -1);
      }
    case Find(_) =>
  }

  lemma NotThere(s: Slots, m: map<int, int>, key: int, d: nat)
    requires WellFormed(s, m) && key >= 0 && s[Probe(key, d)] == Null && forall c: nat | c < d && c < CAPACITY :: !EndsAt(s, key, c)
    ensures key !in m && m - {key} == m
  {
    hide Probe, Distance;
    forall e: nat | e < d && e < CAPACITY ensures !Holds(s, Probe(key, e), key) { assert !EndsAt(s, key, e); }
    Missed(s, m, key, d);
  }

  /** A discipline that can be followed without looking at the slots: no key is added while it is in the map. */
  predicate Fresh(ops: seq<Op>, m: map<int, int>) {
    ops == [] || (ops[0].key >= 0 && (ops[0].Add? ==> ops[0].key !in m) && Fresh(ops[1..], Step(ops[0], m)))
  }

  /** Such runs are safe while a slot stays unused. */
  lemma {:induction false} FreshIsSafe(ops: seq<Op>, s: Slots, m: map<int, int>)
    requires WellFormed(s, m) && Fresh(ops, m) && Adds(ops) < |Unused(s)|
    ensures SafeRun(ops, s)
    decreases ops
  {
    hide Probe, Distance, WellFormed, Shadowed, Unused, FindStop, FindEnd, StopsAt, EndsAt;
    if ops != [] {
      NotEmpty(s);
      UnusedEnds(ops[0], s);
      AbsentIsClear(s, m, ops[0].key);
      StepKeeps(ops[0], s, m);
      UnusedStep(ops[0], s);
      FreshIsSafe(ops[1..], SlotStep(ops[0], s), Step(ops[0], m));
    }
  }

  lemma NotEmpty(s: Slots)
    requires |Unused(s)| > 0
    ensures Unused(s) != {}
  {
  }

  lemma AbsentIsClear(s: Slots, m: map<int, int>, key: int)
    requires WellFormed(s, m)
    ensures key !in m ==> !Shadowed(s, key)
  {
  }

  lemma UnusedStep(op: Op, s: Slots)
    ensures |Unused(SlotStep(op, s))| >= |Unused(s)| - if op.Add? then 1 else 0
  {
    hide Probe;
    match op
    case Add(k, v) =>
      if FindStop(s, k, 0) < CAPACITY { UnusedAfter(s, Probe(k, FindStop(s, k, 0)), Node(k, v)); }
    case Delete(k) =>
      if FindEnd(s, k, 0) < CAPACITY { UnusedAfter(s, Probe(k, FindEnd(s, k, 0)), Node(TOMBSTONE, -1)); }
    case Find(_) =>
  }

  class HashMap {
    var HashMapSize: int
    const Nodes: array<Slot>
    const DummyNode: Slot
    ghost var Model: map<int, int>

    constructor ()
      ensures Valid() && Model == map[] && fresh(Nodes) && Nodes[..] == EMPTY
    {
      HashMapSize := 0;
      Nodes := new Slot[CAPACITY](_ => Null);
      DummyNode := Node(TOMBSTONE, -1);
      Model := map[];
    }

    ghost predicate Shape()
      reads this
    {
      Nodes.Length == CAPACITY && DummyNode == Node(TOMBSTONE, -1)
    }

    /** The table is the map `Model`. */
    ghost predicate Valid()
      reads this, Nodes
    {
      Shape() && WellFormed(Nodes[..], Model) && HashMapSize == |Model|
    }

    /** Adding, in any table in which the search for a slot ends.  The table goes on being the map exactly when
        the entry of the key does not lie behind a tombstone; otherwise the key is live twice. */
    method AddNode(key: int, value: int)
      requires Shape() && key >= 0 && Ends(Add(key, value), Nodes[..])
      modifies this, Nodes
      ensures Shape() && Nodes[..] == AddSlots(old(Nodes[..]), key, value)
      ensures old(Valid()) && !old(Shadowed(Nodes[..], key)) ==> Valid() && Model == old(Model)[key := value]
      ensures old(Valid()) && old(Shadowed(Nodes[..], key)) ==> !Unique(Nodes[..]) && HashMapSize == old(|Model[key := value]|) + 1
    {
      hide Probe, WellFormed, Shadowed, Unique, FindStop;
      ghost var s: Slots := Nodes[..];
      ghost var last := FindStop(s, key, 0);
      FindStopFirst(s, key, 0);
      var Index := HashCode(key);
      ghost var d: nat := 0;
      NextProbe(key, 0);
      while Nodes[Index] != Null && Nodes[Index].key != key && Nodes[Index].key != TOMBSTONE
        invariant Nodes[..] == s && Model == old(Model) && HashMapSize == old(HashMapSize)
        invariant d <= last && Index == Probe(key, d) && forall e: nat | e < d :: !StopsAt(s, key, e)
        decreases last - d
      {
        assert s[Index] == Nodes[Index];
        NextProbe(key, d);
        Index := Index + 1;
        Index := Index % CAPACITY;
        d := d + 1;
      }
      assert s[Index] == Nodes[Index];
      FindStopIs(s, key, 0, d);
      if WellFormed(s, Model) {
        if Shadowed(s, key) { AddDoubles(s, Model, key, value, d); } else { AddKeeps(s, Model, key, value, d); }
      }
      if Nodes[Index] == Null || Nodes[Index].key == TOMBSTONE {
        HashMapSize := HashMapSize + 1;
      }
      Nodes[Index] := Node(key, value);
      Model := Model[key := value];
      assert Nodes[..] == s[Probe(key, d) := Node(key, value)];
    }

    /** The value of the entry, and the entry is gone; 0 when there is none. */
    method DeleteNode(key: int) returns (r: int)
      requires Shape() && key >= 0 && Ends(Delete(key), Nodes[..])
      modifies this, Nodes
      ensures Shape() && Nodes[..] == DeleteSlots(old(Nodes[..]), key)
      ensures old(Valid()) ==> Valid() && Model == old(Model) - {key} && r == Found(old(Model), key)
    {
      hide Probe, Distance, WellFormed, FindEnd;
      ghost var s: Slots := Nodes[..];
      ghost var last := FindEnd(s, key, 0);
      FindEndFirst(s, key, 0);
      var Index := HashCode(key);
      ghost var d: nat := 0;
      NextProbe(key, 0);
      while Nodes[Index] != Null
        invariant Nodes[..] == s && Model == old(Model) && HashMapSize == old(HashMapSize)
        invariant d <= last < CAPACITY && Index == Probe(key, d) && forall e: nat | e < d :: !EndsAt(s, key, e)
        decreases last - d
      {
        assert s[Index] == Nodes[Index];
        if Nodes[Index].key == key {
          FindEndIs(s, key, 0, d);
          if WellFormed(s, Model) { DeleteKeeps(s, Model, key, Index, -1); }
          var tmp := Nodes[Index];
          Nodes[Index] := DummyNode;
          HashMapSize := HashMapSize - 1;
          Model := Model - {key};
          assert Nodes[..] == s[Index := Node(TOMBSTONE, -1)];
          return tmp.value;
        }
        NextProbe(key, d);
        Index := Index + 1;
        Index := Index % CAPACITY;
        d := d + 1;
      }
      assert s[Index] == Nodes[Index];
      FindEndIs(s, key, 0, d);
      if WellFormed(s, Model) { NotThere(s, Model, key, d); }
      return 0;
    }

    /** The value of the entry; 0 when there is none. */
    method Get(key: int) returns (r: int)
      requires Valid() && key >= 0
      ensures r == if key in Model then Model[key] else 0
    {
      hide Probe, Distance;
      ghost var s: Slots := Nodes[..];
      var Index := HashCode(key);
      var Iterate := 0;
      NextProbe(key, 0);
      while Nodes[Index] != Null
        invariant 0 <= Iterate <= CAPACITY + 1 && Index == Probe(key, Iterate)
        invariant forall e: nat | e < Iterate && e < CAPACITY :: !Holds(s, Probe(key, e), key)
        decreases CAPACITY + 2 - Iterate
      {
        assert s[Index] == Nodes[Index];
        if Iterate > CAPACITY {
          Missed(s, Model, key, Iterate);
          return 0;
        }
        NextProbe(key, Iterate);
        Iterate := Iterate + 1;
        if Nodes[Index].key == key {
          assert Live(s, Index);
          return Nodes[Index].value;
        }
        Index := Index + 1;
        Index := Index % CAPACITY;
      }
      assert s[Index] == Nodes[Index];
      Missed(s, Model, key, Iterate);
      return 0;
    }

    /** Every run whose operations are safe in the tables they find agrees with the map: result by result, and in
        what is left in the table and how many it is. */
    method Run(ops: seq<Op>) returns (results: seq<int>)
      requires Valid() && SafeRun(ops, Nodes[..])
      modifies this, Nodes
      ensures Valid() && results == Results(ops, old(Model)) && Model == After(ops, old(Model))
      ensures Nodes[..] == SlotsAfter(ops, old(Nodes[..]))
    {
      hide WellFormed, Safe, Step, SlotStep, Found, SlotsAfter, SafeRun, After, Results;
      ghost var m0, s0: Slots := Model, Nodes[..];
      results := [];
      assert ops[0..] == ops;
      var i := 0;
      while i < |ops|
        invariant 0 <= i <= |ops| && Valid() && SafeRun(ops[i..], Nodes[..])
        invariant results + Results(ops[i..], Model) == Results(ops, m0) && After(ops[i..], Model) == After(ops, m0)
        invariant SlotsAfter(ops[i..], Nodes[..]) == SlotsAfter(ops, s0)
      {
        NextOp(ops, i, Model, Nodes[..]);
        var r := Apply(ops[i]);
        results := results + r;
        i := i + 1;
      }
      assert ops[i..] == [];
      NothingLeft(Model, Nodes[..]);
    }

    method Apply(op: Op) returns (r: seq<int>)
      requires Valid() && Safe(op, Nodes[..])
      modifies this, Nodes
      ensures Valid() && Model == Step(op, old(Model)) && r == (if op.Add? then [] else [Found(old(Model), op.key)])
      ensures Nodes[..] == SlotStep(op, old(Nodes[..]))
    {
      hide WellFormed, Shadowed, Unique, FindStop, FindEnd, AddSlots, DeleteSlots;
      r := [];
      match op {
        case Add(k, v) => AddNode(k, v);
        case Delete(k) =>
          var x := DeleteNode(k);
          r := [x];
        case Find(k) =>
          var x := Get(k);
          r := [x];
      }
    }

    method Size() returns (n: int)
      requires Valid()
      ensures n == |Model|
    {
      n := HashMapSize;
    }
  }

  lemma ThreeSteps(a: Op, b: Op, c: Op, s: Slots)
    ensures SlotsAfter([a, b, c], s) == SlotStep(c, SlotStep(b, SlotStep(a, s)))
    ensures SafeRun([a, b, c], s) <==> Safe(a, s) && Safe(b, SlotStep(a, s)) && Safe(c, SlotStep(b, SlotStep(a, s)))
  {
    hide SlotStep, Safe, SlotsAfter, SafeRun;
    var ops, s1, s2 := [a, b, c], SlotStep(a, s), SlotStep(b, SlotStep(a, s));
    assert ops[0..] == ops && ops[3..] == [];
    NextOp(ops, 0, map[], s);
    NextOp(ops, 1, map[], s1);
    NextOp(ops, 2, map[], s2);
    NothingLeft(map[], SlotStep(c, s2));
  }

  const EMPTY: Slots := seq(CAPACITY, _ => Null)

  /** Keys 0 and 20 share a path.  Add both to an empty map, delete 0 and add 20 again: every operation ends, all but
      the last are safe, and after it 20 is in the table twice. */
  lemma DoubledKey()
    ensures var s := SlotsAfter([Add(0, 5), Add(20, 7), Delete(0)], EMPTY);
            && SafeRun([Add(0, 5), Add(20, 7), Delete(0)], EMPTY)
            && s == [Node(TOMBSTONE, -1), Node(20, 7)] + seq(18, _ => Null) && WellFormed(s, map[20 := 7])
            && Ends(Add(20, 9), s) && !Safe(Add(20, 9), s) && !Unique(SlotStep(Add(20, 9), s))
  {
    var s1: Slots := [Node(0, 5)] + seq(19, _ => Null);
    var s2: Slots := [Node(0, 5), Node(20, 7)] + seq(18, _ => Null);
    var s3: Slots := [Node(TOMBSTONE, -1), Node(20, 7)] + seq(18, _ => Null);
    assert SlotStep(Add(0, 5), EMPTY) == s1;
    assert SlotStep(Add(20, 7), s1) == s2 by { assert FindStop(s1, 20, 1) == 1; }
    assert SlotStep(Delete(0), s2) == s3;
    assert Safe(Add(0, 5), EMPTY) && Safe(Delete(0), s2);
    assert Safe(Add(20, 7), s1) by { assert forall i | Live(s1, i) :: i == 0; }
    ThreeSteps(Add(0, 5), Add(20, 7), Delete(0), EMPTY);
    assert Holds(s3, 1, 20) && Tomb(s3, Probe(20, 0));
    assert forall i | Live(s3, i) :: i == 1;
    assert NoGap(s3, 20, Distance(20, 1));
    AddDoubles(s3, map[20 := 7], 20, 9, 0);
  }
}
