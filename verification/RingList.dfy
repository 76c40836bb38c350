/** The kernel's intrusive doubly linked rings. */
module RingList {

  class ListHead {
    var next: ListHead
    var prev: ListHead

    /** `list_init`. */
    constructor ()
      ensures Ring([this])
    {
      next := this;
      prev := this;
    }
  }

  ghost predicate Linked(a: ListHead, b: ListHead)
    reads a, b
  {
    a.next == b && b.prev == a
  }

  ghost predicate Distinct(s: seq<ListHead>) {
    forall i, j | 0 <= i < j < |s| :: s[i] != s[j]
  }

  /** Walking `next` from the first node gives `s` and comes back; walking `prev` gives it in reverse. */
  ghost predicate Ring(s: seq<ListHead>)
    reads s
  {
    |s| > 0 && Distinct(s) && (forall i | 0 <= i < |s| - 1 :: Linked(s[i], s[i + 1])) && Linked(s[|s| - 1], s[0])
  }

  /** A ring can be started at any of its nodes. */
  lemma Rotate(s: seq<ListHead>, k: nat)
    requires Ring(s) && k < |s|
    ensures Ring(s[k..] + s[..k])
  {
    var r := s[k..] + s[..k];
    forall i | 0 <= i < |r| - 1 ensures Linked(r[i], r[i + 1]) {
      if i < |s| - k - 1 {
        assert r[i] == s[k + i] && r[i + 1] == s[k + i + 1];
      } else if i == |s| - k - 1 {
        assert r[i] == s[|s| - 1] && r[i + 1] == s[0];
      } else {
        assert r[i] == s[i - (|s| - k)] && r[i + 1] == s[i + 1 - (|s| - k)];
      }
    }
  }

  /** `__list_add`. */
  method Link(add: ListHead, prev: ListHead, next: ListHead)
    requires add != prev && add != next
    modifies add, prev, next
    ensures Linked(prev, add) && Linked(add, next)
    ensures prev != next ==> next.next == old(next.next) && prev.prev == old(prev.prev)
  {
    next.prev := add;
    add.next := next;
    add.prev := prev;
    prev.next := add;
  }

  /** `list_add`: right behind the head. */
  method ListAdd(add: ListHead, head: ListHead, ghost s: seq<ListHead>)
    requires Ring(s) && s[0] == head && add !in s
    modifies add, head, head.next
    ensures Ring([head, add] + s[1..])
  {
    if |s| > 1 { assert Linked(s[0], s[1]); }
    Link(add, head, head.next);
    ghost var r := [head, add] + s[1..];
    forall i | 0 <= i < |r| - 1 ensures Linked(r[i], r[i + 1]) {
      if i >= 2 { assert old(Linked(s[i - 1], s[i])); }
    }
  }

  /** `list_add_tail`: right before the head. */
  method ListAddTail(add: ListHead, head: ListHead, ghost s: seq<ListHead>)
    requires Ring(s) && s[0] == head && add !in s
    modifies add, head, head.prev
    ensures Ring(s + [add])
  {
    ghost var n := |s|;
    Link(add, head.prev, head);
    ghost var r := s + [add];
    forall i | 0 <= i < |r| - 1 ensures Linked(r[i], r[i + 1]) {
      if i < n - 1 { assert old(Linked(s[i], s[i + 1])); }
    }
  }

  /** `__list_del`. */
  method Unlink(prev: ListHead, next: ListHead)
    modifies prev, next
    ensures Linked(prev, next)
    ensures prev != next ==> next.next == old(next.next) && prev.prev == old(prev.prev)
  {
    next.prev := prev;
    prev.next := next;
  }

  /** `list_del`: the others, if any, stay a ring, and the entry keeps its links. */
  method ListDel(entry: ListHead, ghost s: seq<ListHead>, ghost k: nat)
    requires Ring(s) && k < |s| && s[k] == entry
    modifies entry.prev, entry.next
    ensures if |s| == 1 then Ring(s) else Ring(s[..k] + s[k + 1..])
    ensures entry.next == old(entry.next) && entry.prev == old(entry.prev)
  {
    Neighbours(s, k);
    ghost var p, n := entry.prev, entry.next;
    Unlink(entry.prev, entry.next);
    ghost var r := s[..k] + s[k + 1..];
    forall i | 0 <= i < |r| - 1 ensures Linked(r[i], r[i + 1]) {
      if i + 1 < k {
        assert old(Linked(s[i], s[i + 1])) && r[i] == s[i] && r[i + 1] == s[i + 1];
      } else if i + 1 > k {
        assert old(Linked(s[i + 1], s[i + 2])) && r[i] == s[i + 1] && r[i + 1] == s[i + 2];
      } else {
        assert r[i] == p && r[i + 1] == n;
      }
    }
  }

  lemma Neighbours(s: seq<ListHead>, k: nat)
    requires Ring(s) && k < |s|
    ensures s[k].next == s[if k + 1 < |s| then k + 1 else 0] && s[k].prev == s[if k > 0 then k - 1 else |s| - 1]
  {
    if k + 1 < |s| { assert Linked(s[k], s[k + 1]); }
    if k > 0 { assert Linked(s[k - 1], s[k]); }
  }

  /** `list_del_init`: the entry becomes a ring of its own. */
  method ListDelInit(entry: ListHead, ghost s: seq<ListHead>, ghost k: nat)
    requires Ring(s) && k < |s| && s[k] == entry
    modifies entry, entry.prev, entry.next
    ensures (|s| > 1 ==> Ring(s[..k] + s[k + 1..])) && Ring([entry])
  {
    ListDel(entry, s, k);
    ghost var r := s[..k] + s[k + 1..];
    assert entry !in r;
    entry.next := entry;
    entry.prev := entry;
    assert forall i | 0 <= i < |r| - 1 :: Linked(r[i], r[i + 1]);
  }

  /** `list_replace`: `add` takes the place of `was`, also when it is the only one. */
  method ListReplace(was: ListHead, add: ListHead, ghost s: seq<ListHead>, ghost k: nat)
    requires Ring(s) && k < |s| && s[k] == was && add !in s
    modifies add, was, was.next, was.prev
    ensures Ring(s[k := add])
  {
    Neighbours(s, k);
    add.next := was.next;
    add.next.prev := add;
    add.prev := was.prev;
    add.prev.next := add;
    ghost var r := s[k := add];
    forall i | 0 <= i < |r| - 1 ensures Linked(r[i], r[i + 1]) {
      if i != k && i + 1 != k { assert old(Linked(s[i], s[i + 1])); }
    }
  }

  /** `list_splice`: everything of the one ring but its head goes right behind the head of the other. */
  method ListSplice(list: ListHead, head: ListHead, ghost s: seq<ListHead>, ghost t: seq<ListHead>)
    requires Ring(s) && s[0] == list && Ring(t) && t[0] == head && forall x | x in s :: x !in t
    modifies list.next, list.prev, head, head.next
    ensures Ring([head] + s[1..] + t[1..]) && (|s| == 1 ==> Ring(s))
  {
    Neighbours(s, 0);
    Neighbours(t, 0);
    ghost var r := [head] + s[1..] + t[1..];
    Apart(s, t);
    var first := list.next;
    if first != list {
      var last := list.prev;
      var at := head.next;
      first.prev := head;
      head.next := first;
      last.next := at;
      at.prev := last;
      forall i | 0 <= i < |r| - 1 ensures Linked(r[i], r[i + 1]) {
        if i == 0 {
          assert r[i] == head && r[i + 1] == first;
        } else if i < |s| - 1 {
          assert old(Linked(s[i], s[i + 1])) && r[i] == s[i] && r[i + 1] == s[i + 1];
        } else if i == |s| - 1 {
          assert r[i] == last && r[i + 1] == at;
        } else {
          ghost var m := i - (|s| - 1);
          assert old(Linked(t[m], t[m + 1])) && r[i] == t[m] && r[i + 1] == t[m + 1];
        }
      }
      assert |t| > 1 ==> r[|r| - 1] == t[|t| - 1];
      assert |t| == 1 ==> r[|r| - 1] == last && at == head;
    } else {
      assert r == t;
    }
  }

  /** Disjoint rings, joined behind the head of the second, have no node twice. */
  lemma Apart(s: seq<ListHead>, t: seq<ListHead>)
    requires |s| > 0 && |t| > 0 && Distinct(s) && Distinct(t) && forall x | x in s :: x !in t
    ensures forall i, j | 0 <= i < |s| && 0 <= j < |t| :: s[i] != t[j]
    ensures Distinct([t[0]] + s[1..] + t[1..])
  {
    forall i, j | 0 <= i < |s| && 0 <= j < |t| ensures s[i] != t[j] { assert s[i] in s; }
    var r := [t[0]] + s[1..] + t[1..];
    forall i, j | 0 <= i < j < |r| ensures r[i] != r[j] {
      assert r[j] == if j < |s| then s[j] else t[j - (|s| - 1)];
      assert r[i] == if i == 0 then t[0] else if i < |s| then s[i] else t[i - (|s| - 1)];
    }
  }

  // ----- traversal

  /** The nodes of `s` that are not in `dead`, in order. */
  ghost function Kept(s: seq<ListHead>, dead: set<ListHead>): seq<ListHead> {
    if s == [] then [] else Kept(s[..|s| - 1], dead) + if s[|s| - 1] in dead then [] else [s[|s| - 1]]
  }

  lemma {:induction false} KeptAmong(s: seq<ListHead>, dead: set<ListHead>)
    ensures forall x | x in Kept(s, dead) :: x in s
  {
    if s != [] { KeptAmong(s[..|s| - 1], dead); }
  }

  lemma RingIs(s: seq<ListHead>)
    requires Ring(s)
    ensures |s| > 0 && Distinct(s)
  {
  }

  /** What is left when the first `k` nodes of `s` have been visited. */
  ghost function Left(s: seq<ListHead>, dead: set<ListHead>, k: nat): (r: seq<ListHead>)
    requires 1 <= k <= |s|
    ensures forall x | x in r :: x in s
  {
    KeptAmong(s[1..k], dead);
    [s[0]] + Kept(s[1..k], dead) + s[k..]
  }

  lemma LeftStart(s: seq<ListHead>, dead: set<ListHead>)
    requires |s| > 0
    ensures Left(s, dead, 1) == s && Left(s, dead, |s|) == [s[0]] + Kept(s[1..], dead)
  {
    assert s[1..1] == [] && s[1..|s|] == s[1..];
  }

  lemma LeftStep(s: seq<ListHead>, dead: set<ListHead>, k: nat)
    requires 1 <= k < |s|
    ensures var r, n := Left(s, dead, k), 1 + |Kept(s[1..k], dead)|;
            && n < |r| && r[n] == s[k] && (n + 1 < |r| <==> k + 1 < |s|) && (k + 1 < |s| ==> r[n + 1] == s[k + 1]) && r[0] == s[0]
            && Left(s, dead, k + 1) == if s[k] in dead then r[..n] + r[n + 1..] else r
  {
    assert s[1..k + 1][..k - 1] == s[1..k] && s[1..k + 1][k - 1] == s[k];
  }

  /** The body deletes the node the traversal is at. */
  method DeleteVisited(pos: ListHead, dead: set<ListHead>, ghost s: seq<ListHead>, ghost k: nat)
    requires 1 <= k < |s| && Ring(Left(s, dead, k)) && pos == s[k] && pos in dead
    modifies s
    ensures Ring(Left(s, dead, k + 1))
  {
    hide Ring, Left, Kept, Linked, Distinct;
    ghost var r, n := Left(s, dead, k), 1 + |Kept(s[1..k], dead)|;
    LeftStep(s, dead, k);
    Neighbours(r, n);
    assert pos.prev in r && pos.next in r;
    ListDel(pos, r, n);
  }

  /** `list_for_each_safe` with a body that may delete the node it is at: it visits every node there was, once and
      in order, and leaves the ring of the others. */
  method ForEachSafe(head: ListHead, dead: set<ListHead>, ghost s: seq<ListHead>) returns (visited: seq<ListHead>)
    requires Ring(s) && s[0] == head
    modifies s
    ensures visited == s[1..] && Ring([head] + Kept(s[1..], dead))
  {
    hide Ring, Left, Kept, Linked, Distinct;
    RingIs(s);
    Neighbours(s, 0);
    if |s| > 1 { Neighbours(s, 1); }
    LeftStart(s, dead);
    visited := [];
    var pos := head.next;
    var pnext := pos.next;
    ghost var k := 1;
    while pos != head
      invariant 1 <= k <= |s| && pos == (if k < |s| then s[k] else head) && visited == s[1..k]
      invariant Ring(Left(s, dead, k)) && (k < |s| ==> pnext == if k + 1 < |s| then s[k + 1] else head)
      decreases |s| - k
    {
      visited := visited + [pos];
      if pos in dead {
        DeleteVisited(pos, dead, s, k);
      } else {
        LeftStep(s, dead, k);
      }
      pos := pnext;
      k := k + 1;
      if k < |s| {
        LeftStep(s, dead, k);
        Neighbours(Left(s, dead, k), 1 + |Kept(s[1..k], dead)|);
      }
      pnext := pos.next;
    }
  }

  // ----- many rings

  /** Rings that share no node; an empty sequence is a ring that is gone. */
  ghost predicate World(rings: seq<seq<ListHead>>)
    reads Nodes(rings)
  {
    && (forall i | 0 <= i < |rings| :: rings[i] == [] || Ring(rings[i]))
    && Separate(rings)
  }

  ghost predicate Separate(rings: seq<seq<ListHead>>) {
    forall i, j | 0 <= i < |rings| && 0 <= j < |rings| && i != j :: Disjoint(rings[i], rings[j])
  }

  ghost predicate Disjoint(a: seq<ListHead>, b: seq<ListHead>) {
    forall x | x in a :: x !in b
  }

  ghost function Nodes(rings: seq<seq<ListHead>>): set<ListHead> {
    set i, k | 0 <= i < |rings| && 0 <= k < |rings[i]| :: rings[i][k]
  }

  /** One operation; node `k` of ring `i` is `pos`. */
  datatype Op =
    | Add(add: ListHead, pos: ListHead, i: nat, k: nat)
    | AddTail(add: ListHead, pos: ListHead, i: nat, k: nat)
    | Del(pos: ListHead, i: nat, k: nat)
    | DelInit(pos: ListHead, i: nat, k: nat)
    | Replace(add: ListHead, pos: ListHead, i: nat, k: nat)
    | Splice(list: ListHead, j: nat, pos: ListHead, i: nat, k: nat)

  /** The node is in no ring, or in one of its own. */
  ghost predicate Free(rings: seq<seq<ListHead>>, x: ListHead) {
    forall j | 0 <= j < |rings| :: x !in rings[j] || rings[j] == [x]
  }

  /** The operands are where the operation says; nodes to add are free; a ring is spliced into another one. */
  ghost predicate Legal(op: Op, rings: seq<seq<ListHead>>) {
    && op.i < |rings| && op.k < |rings[op.i]| && rings[op.i][op.k] == op.pos
    && (op.Add? || op.AddTail? || op.Replace? ==> Free(rings, op.add) && op.add !in rings[op.i])
    && (op.Splice? ==> op.j < |rings| && op.j != op.i && op.k == 0 && rings[op.j] != [] && rings[op.j][0] == op.list)
  }

  /** Without the ring of one of `x`. */
  function Taken(rings: seq<seq<ListHead>>, x: ListHead): seq<seq<ListHead>> {
    seq(|rings|, j requires 0 <= j < |rings| => if rings[j] == [x] then [] else rings[j])
  }

  function InsertAfter(s: seq<ListHead>, k: nat, x: ListHead): seq<ListHead>
    requires k < |s|
  {
    s[..k + 1] + [x] + s[k + 1..]
  }

  /** Before the first node is behind the last. */
  function InsertBefore(s: seq<ListHead>, k: nat, x: ListHead): seq<ListHead>
    requires k < |s|
  {
    if k == 0 then s + [x] else s[..k] + [x] + s[k..]
  }

  function Remove(s: seq<ListHead>, k: nat): seq<ListHead>
    requires k < |s|
  {
    s[..k] + s[k + 1..]
  }

  /** The operation on sequences. */
  ghost function Step(op: Op, rings: seq<seq<ListHead>>): seq<seq<ListHead>>
    requires Legal(op, rings)
  {
    var s := rings[op.i];
    match op
    case Add(add, _, i, k) => Taken(rings, add)[i := InsertAfter(s, k, add)]
    case AddTail(add, _, i, k) => Taken(rings, add)[i := InsertBefore(s, k, add)]
    case Replace(add, _, i, k) => Taken(rings, add)[i := s[k := add]]
    case Del(_, i, k) => if |s| == 1 then rings else rings[i := Remove(s, k)]
    case DelInit(pos, i, k) => if |s| == 1 then rings else rings[i := Remove(s, k)] + [[pos]]
    case Splice(_, j, _, i, _) => if |rings[j]| == 1 then rings else rings[j := []][i := [s[0]] + rings[j][1..] + s[1..]]
  }

  /** `list_add` behind any node of a ring. */
  method AddAfter(add: ListHead, pos: ListHead, ghost s: seq<ListHead>, ghost k: nat)
    requires Ring(s) && k < |s| && s[k] == pos && add !in s
    modifies add, pos, pos.next
    ensures Ring(InsertAfter(s, k, add))
  {
    hide Ring, InsertAfter;
    ghost var r := s[k..] + s[..k];
    Rotate(s, k);
    ListAdd(add, pos, r);
    ghost var t := [pos, add] + r[1..];
    InsertedAfter(s, k, add);
    if k > 0 { Rotate(t, |t| - k); }
  }

  lemma InsertedAfter(s: seq<ListHead>, k: nat, add: ListHead)
    requires k < |s|
    ensures var t := [s[k], add] + (s[k..] + s[..k])[1..];
            |t| == |s| + 1 && InsertAfter(s, k, add) == if k > 0 then t[|t| - k..] + t[..|t| - k] else t
  {
    assert (s[k..] + s[..k])[1..] == s[k + 1..] + s[..k];
    assert s[..k + 1] == s[..k] + [s[k]];
  }

  /** `list_add_tail` before any node of a ring. */
  method AddBefore(add: ListHead, pos: ListHead, ghost s: seq<ListHead>, ghost k: nat)
    requires Ring(s) && k < |s| && s[k] == pos && add !in s
    modifies add, pos, pos.prev
    ensures Ring(InsertBefore(s, k, add))
  {
    hide Ring;
    ghost var r := s[k..] + s[..k];
    Rotate(s, k);
    ListAddTail(add, pos, r);
    ghost var t := r + [add];
    if k > 0 {
      Rotate(t, |s| - k);
      assert t[|s| - k..] + t[..|s| - k] == InsertBefore(s, k, add);
    } else {
      assert t == InsertBefore(s, k, add);
    }
  }

  /** One ring of a world, and that its nodes are in no other. */
  lemma OneRing(rings: seq<seq<ListHead>>, i: nat)
    requires World(rings) && i < |rings| && rings[i] != []
    ensures Ring(rings[i]) && (forall x | x in rings[i] :: x in Nodes(rings))
    ensures forall j, x | 0 <= j < |rings| && j != i && x in rings[j] :: x !in rings[i]
  {
    forall j, x | 0 <= j < |rings| && j != i && x in rings[j] ensures x !in rings[i] { assert Disjoint(rings[j], rings[i]); }
  }

  /** A ring that takes in only free nodes stays apart from the others. */
  lemma StaySeparate(rings: seq<seq<ListHead>>, next: seq<seq<ListHead>>, i: nat, more: seq<ListHead>)
    requires Separate(rings) && |next| == |rings| && i < |rings|
    requires forall j | 0 <= j < |rings| && j != i :: next[j] == [] || next[j] == rings[j]
    requires forall x | x in next[i] :: x in rings[i] || x in more
    requires forall j, x | 0 <= j < |rings| && j != i && x in more :: x !in next[j]
    ensures Separate(next)
  {
    forall j, l | 0 <= j < |next| && 0 <= l < |next| && j != l ensures Disjoint(next[j], next[l]) {
      assert Disjoint(rings[j], rings[l]);
    }
  }

  /** Ring `i` becomes `r`, and nothing else that is left changes. */
  ghost predicate Becomes(rings: seq<seq<ListHead>>, next: seq<seq<ListHead>>, i: nat, r: seq<ListHead>) {
    |next| == |rings| && i < |rings| && next[i] == r && forall j | 0 <= j < |rings| && j != i :: next[j] == [] || next[j] == rings[j]
  }

  /** Insertion and replacement take one free node in. */
  lemma TakesIn(rings: seq<seq<ListHead>>, i: nat, k: nat, add: ListHead, r: seq<ListHead>, next: seq<seq<ListHead>>)
    requires Separate(rings) && i < |rings| && k < |rings[i]| && Free(rings, add) && add !in rings[i]
    requires r == InsertAfter(rings[i], k, add) || r == InsertBefore(rings[i], k, add) || r == rings[i][k := add]
    requires next == Taken(rings, add)[i := r]
    ensures Becomes(rings, next, i, r) && Separate(next) && forall j | 0 <= j < |rings| && j != i :: add !in next[j]
  {
    hide InsertAfter, InsertBefore;
    Inserted(rings[i], k, add);
    StaySeparate(rings, next, i, [add]);
  }

  /** Insertion or replacement in a world. */
  method ApplyAdd(op: Op, ghost rings: seq<seq<ListHead>>)
    requires World(rings) && Legal(op, rings) && (op.Add? || op.AddTail? || op.Replace?)
    modifies Nodes(rings), op.add
    ensures World(Step(op, rings))
  {
    hide Ring, Taken, InsertAfter, InsertBefore, Separate, Free, Linked, Distinct, Nodes;
    ghost var s := rings[op.i];
    Around(rings, op.i, op.k);
    ghost var next := Step(op, rings);
    match op {
      case Add(add, pos, i, k) =>
        TakesIn(rings, i, k, add, InsertAfter(s, k, add), next);
        AddAfter(add, pos, s, k);
      case AddTail(add, pos, i, k) =>
        TakesIn(rings, i, k, add, InsertBefore(s, k, add), next);
        AddBefore(add, pos, s, k);
      case Replace(add, pos, i, k) =>
        TakesIn(rings, i, k, add, s[k := add], next);
        ListReplace(pos, add, s, k);
    }
    forall j | 0 <= j < |next| && j != op.i && next[j] != [] ensures Ring(next[j]) {
      assert next[j] == rings[j] && old(Ring(rings[j]));
      assert forall x | x in next[j] :: x != op.add && x !in s;
    }
  }

  lemma Removed(rings: seq<seq<ListHead>>, i: nat, k: nat, next: seq<seq<ListHead>>)
    requires Separate(rings) && i < |rings| && k < |rings[i]| && Distinct(rings[i]) && next == rings[i := Remove(rings[i], k)]
    ensures Becomes(rings, next, i, Remove(rings[i], k)) && Separate(next) && Separate(next + [[rings[i][k]]])
    ensures forall j | 0 <= j < |rings| :: rings[i][k] !in next[j]
  {
    var x, s := rings[i][k], rings[i];
    StaySeparate(rings, next, i, []);
    assert x !in Remove(s, k) by { forall l | 0 <= l < |s| - 1 ensures Remove(s, k)[l] != x { assert Remove(s, k)[l] == s[if l < k then l else l + 1]; } }
    forall j | 0 <= j < |rings| ensures x !in next[j] {
      if j != i { assert Disjoint(rings[i], rings[j]) && x in rings[i]; }
    }
    var more := next + [[x]];
    forall j, l | 0 <= j < |more| && 0 <= l < |more| && j != l ensures Disjoint(more[j], more[l]) {
      if j < |next| && l < |next| { assert Disjoint(next[j], next[l]); }
    }
  }

  /** Deletion in a world. */
  method ApplyDel(op: Op, ghost rings: seq<seq<ListHead>>)
    requires World(rings) && Legal(op, rings) && op.Del?
    modifies Nodes(rings)
    ensures World(Step(op, rings))
  {
    hide Ring, Remove, Separate, Linked, Distinct, Nodes;
    ghost var s := rings[op.i];
    Around(rings, op.i, op.k);
    Removed(rings, op.i, op.k, rings[op.i := Remove(s, op.k)]);
    RemoveIs(s, op.k);
    ListDel(op.pos, s, op.k);
    forall j | 0 <= j < |rings| && j != op.i && rings[j] != [] ensures Ring(rings[j]) {
      assert old(Ring(rings[j]));
      assert forall x | x in rings[j] :: x !in s;
    }
  }

  /** Deletion that leaves a ring of one. */
  method ApplyDelInit(op: Op, ghost rings: seq<seq<ListHead>>)
    requires World(rings) && Legal(op, rings) && op.DelInit?
    modifies Nodes(rings)
    ensures World(Step(op, rings))
  {
    hide Ring, Remove, Separate, Linked, Distinct, Nodes;
    ghost var s := rings[op.i];
    Around(rings, op.i, op.k);
    Removed(rings, op.i, op.k, rings[op.i := Remove(s, op.k)]);
    RemoveIs(s, op.k);
    ListDelInit(op.pos, s, op.k);
    assert |s| == 1 ==> s == [op.pos];
    forall j | 0 <= j < |rings| && j != op.i && rings[j] != [] ensures Ring(rings[j]) {
      assert old(Ring(rings[j]));
      assert forall x | x in rings[j] :: x !in s;
    }
  }

  /** A node, its neighbours and its ring. */
  lemma Around(rings: seq<seq<ListHead>>, i: nat, k: nat)
    requires World(rings) && i < |rings| && k < |rings[i]|
    ensures Ring(rings[i]) && Distinct(rings[i]) && rings[i][k] in rings[i] && rings[i][k].next in rings[i] && rings[i][k].prev in rings[i]
    ensures rings[i][k] in Nodes(rings) && rings[i][k].next in Nodes(rings) && rings[i][k].prev in Nodes(rings)
    ensures forall j, x | 0 <= j < |rings| && j != i && x in rings[j] :: x !in rings[i]
  {
    hide Ring, Nodes, Separate;
    OneRing(rings, i);
    RingIs(rings[i]);
    Neighbours(rings[i], k);
  }

  lemma RemoveIs(s: seq<ListHead>, k: nat)
    requires k < |s|
    ensures Remove(s, k) == s[..k] + s[k + 1..]
  {
  }

  lemma Spliced(rings: seq<seq<ListHead>>, i: nat, j: nat, next: seq<seq<ListHead>>)
    requires Separate(rings) && i < |rings| && j < |rings| && i != j && rings[i] != [] && rings[j] != []
    requires next == rings[j := []][i := [rings[i][0]] + rings[j][1..] + rings[i][1..]]
    ensures Becomes(rings, next, i, [rings[i][0]] + rings[j][1..] + rings[i][1..]) && Separate(next)
  {
    forall l, x | 0 <= l < |rings| && l != i && x in rings[j] ensures x !in next[l] { assert Disjoint(rings[j], rings[l]) || l == j; }
    StaySeparate(rings, next, i, rings[j]);
  }

  /** Splicing in a world. */
  method ApplySplice(op: Op, ghost rings: seq<seq<ListHead>>)
    requires World(rings) && Legal(op, rings) && op.Splice?
    modifies Nodes(rings)
    ensures World(Step(op, rings))
  {
    hide Ring, Separate, Linked, Distinct, Nodes;
    ghost var s, t := rings[op.j], rings[op.i];
    Around(rings, op.i, 0);
    Around(rings, op.j, 0);
    ghost var next := rings[op.j := []][op.i := [t[0]] + s[1..] + t[1..]];
    Spliced(rings, op.i, op.j, next);
    ListSplice(op.list, op.pos, s, t);
    forall j | 0 <= j < |rings| && j != op.i && j != op.j && rings[j] != [] ensures Ring(rings[j]) {
      assert old(Ring(rings[j]));
      assert forall x | x in rings[j] :: x !in s && x !in t;
    }
    if |s| == 1 {
      assert [t[0]] + s[1..] + t[1..] == t && s == [op.list];
    }
  }

  /** Any operation in a world: the rings become those of the operation on sequences, and all of them stay rings. */
  method Apply(op: Op, ghost rings: seq<seq<ListHead>>)
    requires World(rings) && Legal(op, rings)
    modifies Nodes(rings), Added([op])
    ensures World(Step(op, rings))
  {
    hide World, Legal, Step;
    assert op in [op];
    match op {
      case Add(_, _, _, _) => ApplyAdd(op, rings);
      case AddTail(_, _, _, _) => ApplyAdd(op, rings);
      case Replace(_, _, _, _) => ApplyAdd(op, rings);
      case Del(_, _, _) => ApplyDel(op, rings);
      case DelInit(_, _, _) => ApplyDelInit(op, rings);
      case Splice(_, _, _, _, _) => ApplySplice(op, rings);
    }
  }

  /** The nodes that operations bring in. */
  function Added(ops: seq<Op>): set<ListHead> {
    set op | op in ops && (op.Add? || op.AddTail? || op.Replace?) :: op.add
  }

  ghost predicate LegalRun(ops: seq<Op>, rings: seq<seq<ListHead>>) {
    ops == [] || (Legal(ops[0], rings) && LegalRun(ops[1..], Step(ops[0], rings)))
  }

  ghost function Steps(ops: seq<Op>, rings: seq<seq<ListHead>>): seq<seq<ListHead>>
    requires LegalRun(ops, rings)
  {
    if ops == [] then rings else Steps(ops[1..], Step(ops[0], rings))
  }

  /** An operation brings in no other nodes. */
  lemma NodesAfter(op: Op, rings: seq<seq<ListHead>>)
    requires Legal(op, rings)
    ensures Nodes(Step(op, rings)) <= Nodes(rings) + Added([op])
  {
    hide Legal, Step, Added;
    var next := Step(op, rings);
    forall x | x in Nodes(next) ensures x in Nodes(rings) + Added([op]) {
      var j, l :| 0 <= j < |next| && 0 <= l < |next[j]| && x == next[j][l];
      FromWhere(op, rings, j, x);
    }
  }

  lemma FromWhere(op: Op, rings: seq<seq<ListHead>>, j: nat, x: ListHead)
    requires Legal(op, rings) && j < |Step(op, rings)| && x in Step(op, rings)[j]
    ensures x in Nodes(rings) || x in Added([op])
  {
    hide Nodes, InsertAfter, InsertBefore, Remove;
    assert op in [op];
    Members(rings);
    if op.Add? || op.AddTail? || op.Replace? {
      Inserted(rings[op.i], op.k, op.add);
    } else if op.Del? || op.DelInit? {
      RemoveIs(rings[op.i], op.k);
      assert op.pos in rings[op.i];
    }
  }

  lemma Members(rings: seq<seq<ListHead>>)
    ensures forall i, y | 0 <= i < |rings| && y in rings[i] :: y in Nodes(rings)
  {
  }

  lemma Inserted(s: seq<ListHead>, k: nat, add: ListHead)
    requires k < |s|
    ensures forall x | x in InsertAfter(s, k, add) :: x in s || x == add
    ensures forall x | x in InsertBefore(s, k, add) :: x in s || x == add
    ensures forall x | x in s[k := add] :: x in s || x == add
  {
    forall x | x in s[k := add] ensures x in s || x == add {
      var l :| 0 <= l < |s| && s[k := add][l] == x;
      assert l != k ==> x == s[l];
    }
  }

  /** Over every sequence of operations the rings stay rings and apart from each other, and are the sequences that
      the operations give. */
  method Run(ops: seq<Op>, ghost rings: seq<seq<ListHead>>)
    requires World(rings) && LegalRun(ops, rings)
    modifies Nodes(rings), Added(ops)
    ensures World(Steps(ops, rings))
  {
    hide World, Legal, Step, Nodes, Added;
    ghost var now := rings;
    var n := 0;
    while n < |ops|
      invariant 0 <= n <= |ops| && World(now) && LegalRun(ops[n..], now) && Steps(ops[n..], now) == Steps(ops, rings)
      invariant Nodes(now) <= Nodes(rings) + Added(ops)
    {
      assert ops[n..][1..] == ops[n + 1..];
      AddedOne(ops, n);
      NodesAfter(ops[n], now);
      Apply(ops[n], now);
      now := Step(ops[n], now);
      n := n + 1;
    }
  }

  lemma AddedOne(ops: seq<Op>, n: nat)
    requires n < |ops|
    ensures Added([ops[n]]) <= Added(ops)
  {
  }
}
