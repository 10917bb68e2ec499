/**
 The circular doubly linked list of kernel/libc++/include/list.hpp.  The ghost field `nodes` is the
 order in which an iteration from `begin()` visits the nodes.
*/
module CircularList {
  import opened DistinctSeq

  class Node<T> {
    var data: T
    var next: Node?<T>
    var prev: Node?<T>

    constructor (data: T)
      ensures this.data == data && next == null && prev == null
    {
      this.data := data;
      next, prev := null, null;
    }
  }

  /** The sequence with its i-th element first. */
  ghost function Fronted<T>(s: seq<T>, i: nat): seq<T>
    requires i < |s|
  {
    [s[i]] + Drop(s, i)
  }

  ghost function Insert<T>(s: seq<T>, i: nat, x: T): seq<T>
    requires i <= |s|
  {
    s[..i] + [x] + s[i..]
  }

  /** `ring` is closed under next and prev. */
  ghost predicate Ring<T>(ring: seq<Node<T>>)
    reads ring
  {
    && ring != [] && Distinct(ring)
    && (forall i, j :: 0 <= i && j == i + 1 && j < |ring| ==> ring[i].next == ring[j] && ring[j].prev == ring[i])
    && ring[|ring| - 1].next == ring[0] && ring[0].prev == ring[|ring| - 1]
  }

  class List<T> {
    const head: Node<T>
    var size: nat
    ghost var nodes: seq<Node<T>>

    ghost predicate Valid()
      reads this, head, nodes
    {
      Ring([head] + nodes) && size == |nodes|
    }

    constructor (blank: T)
      ensures Valid() && nodes == [] && fresh(head)
    {
      head := new Node(blank);
      size := 0;
      nodes := [];
      new;
      head.next := head;
      head.prev := head;
    }

    /** list::push_front: insert(begin(), data). */
    method PushFront(data: T)
      requires Valid()
      modifies this, head, nodes
      ensures Valid() && |nodes| == |old(nodes)| + 1 && nodes[1..] == old(nodes) && fresh(nodes[0])
      ensures nodes[0].data == data && forall n :: n in old(nodes) ==> n.data == old(n.data)
    {
      var wrapper := new Node(data);
      ghost var ring := [head] + nodes;
      RingAt(ring, 0);
      Move(wrapper, head.next, ring, |ring|, if nodes == [] then 0 else 1);
      size := size + 1;
      assert [head] + ([wrapper] + nodes) == Moved(ring, wrapper, |ring|, if nodes == [] then 0 else 1);
      nodes := [wrapper] + nodes;
    }

    /** move(from, begin()) for the i-th node. */
    method MoveToFront(from: Node<T>, ghost i: nat)
      requires Valid() && i < |nodes| && nodes[i] == from
      modifies this`nodes, head, nodes
      ensures Valid() && nodes == Fronted(old(nodes), i)
      ensures forall n :: n in old(nodes) ==> n.data == old(n.data)
    {
      hide Ring, Moved, Fronted;
      ghost var ring := [head] + nodes;
      RingAt(ring, 0);
      assert ring[1] == nodes[0] && ring[i + 1] == from;
      MovedToFront(head, nodes, i);
      FrontedAt(nodes, i, 0);
      assert forall n :: n in nodes ==> n in ring;
      Move(from, head.next, ring, i + 1, 1);
      nodes := Fronted(nodes, i);
    }
  }

  /** The neighbours of the i-th node; the ring closes at its ends. */
  ghost function Succ(n: nat, i: nat): nat
    requires i < n
  {
    if i + 1 < n then i + 1 else 0
  }

  lemma RingAt<T>(ring: seq<Node<T>>, i: nat)
    requires Ring(ring) && i < |ring|
    ensures ring[i].next == ring[Succ(|ring|, i)] && ring[Succ(|ring|, i)].prev == ring[i]
  {
  }

  lemma InsertDistinct<T>(s: seq<T>, i: nat, x: T)
    requires Distinct(s) && i <= |s| && x !in s
    ensures Distinct(Insert(s, i, x))
  {
  }

  /** The first half of list::move: the neighbours of the i-th node skip it. */
  method Unlink<T>(from: Node<T>, ghost ring: seq<Node<T>>, ghost i: nat)
    requires Ring(ring) && 0 < i < |ring| && ring[i] == from
    modifies ring
    ensures Ring(Drop(ring, i))
    ensures forall n :: n in ring ==> n.data == old(n.data)
  {
    RingAt(ring, i - 1);
    RingAt(ring, i);
    ghost var p, q := ring[i - 1], ring[Succ(|ring|, i)];
    assert from.prev == p && from.next == q;
    from.prev.next := from.next;
    from.next.prev := from.prev;
    ghost var t := Drop(ring, i);
    forall k, l | 0 <= k && l == k + 1 && l < |t|
      ensures t[k].next == t[l] && t[l].prev == t[k]
    {
      var k', l' := if k < i then k else k + 1, if l < i then l else l + 1;
      assert t[k] == ring[k'] && t[l] == ring[l'];
    }
  }

  /** The second half of list::move: `from` goes in front of the j-th node. */
  method LinkBefore<T>(from: Node<T>, to: Node<T>, ghost ring: seq<Node<T>>, ghost j: nat)
    requires Ring(ring) && j < |ring| && ring[j] == to && from !in ring
    modifies ring, from
    ensures Ring(Insert(ring, if j == 0 then |ring| else j, from))
    ensures forall n :: n in ring || n == from ==> n.data == old(n.data)
  {
    ghost var h := if j == 0 then |ring| - 1 else j - 1;
    RingAt(ring, h);
    from.prev := to.prev;
    from.next := to;
    to.prev.next := from;
    to.prev := from;
    ghost var pos := h + 1;
    ghost var t := Insert(ring, pos, from);
    InsertDistinct(ring, pos, from);
    forall k, l | 0 <= k && l == k + 1 && l < |t|
      ensures t[k].next == t[l] && t[l].prev == t[k]
    {
      if k < h {
        assert t[k] == ring[k] && t[l] == ring[l];
      } else if k > pos {
        assert t[k] == ring[k - 1] && t[l] == ring[l - 1];
      }
    }
  }

  /** Where the code finds `from`: the i-th node of the ring, or, for i == |ring|, a node in no list. */
  ghost predicate From<T>(ring: seq<Node<T>>, from: Node<T>, i: nat)
    reads from
  {
    if i < |ring| then i > 0 && ring[i] == from
    else i == |ring| && from !in ring && from.next == null && from.prev == null
  }

  ghost function Moved<T>(ring: seq<Node<T>>, from: Node<T>, i: nat, j: nat): seq<Node<T>>
    requires i <= |ring| && j < |ring|
  {
    if i == j then ring
    else
      var rest := if i < |ring| then Drop(ring, i) else ring;
      Insert(rest, if j == 0 then |rest| else if j < i then j else j - 1, from)
  }

  lemma DropAt<T>(ring: seq<Node<T>>, i: nat, j: nat)
    requires Distinct(ring) && i < |ring| && j < |ring| && i != j
    ensures ring[i] !in Drop(ring, i)
    ensures Drop(ring, i)[if j < i then j else j - 1] == ring[j]
  {
  }

  /** Where the k-th element was before the i-th moved to the front. */
  ghost function Origin(i: nat, k: nat): nat {
    if k == 0 then i else if k <= i then k - 1 else k
  }

  lemma FrontedAt<T>(s: seq<T>, i: nat, k: nat)
    requires i < |s| && k < |s|
    ensures Origin(i, k) < |s| && |Fronted(s, i)| == |s| && Fronted(s, i)[k] == s[Origin(i, k)]
  {
  }

  lemma MovedToFront<T>(head: Node<T>, nodes: seq<Node<T>>, i: nat)
    requires i < |nodes|
    ensures Moved([head] + nodes, nodes[i], i + 1, 1) == [head] + Fronted(nodes, i)
  {
    assert Drop([head] + nodes, i + 1) == [head] + Drop(nodes, i);
  }

  /** list::move: `from` is taken out, if it is in a list, and goes in front of the j-th node. */
  method Move<T>(from: Node<T>, to: Node<T>, ghost ring: seq<Node<T>>, ghost i: nat, ghost j: nat)
    requires Ring(ring) && From(ring, from, i) && j < |ring| && ring[j] == to
    modifies ring, from
    ensures Ring(Moved(ring, from, i, j))
    ensures forall n :: n in ring || n == from ==> n.data == old(n.data)
  {
    if from == to {
      return;
    }
    ghost var rest := ring;
    if i < |ring| {
      RingAt(ring, i);
      DropAt(ring, i, j);
    }
    if from.next != null {
      Unlink(from, ring, i);
      rest := Drop(ring, i);
    }
    LinkBefore(from, to, rest, if j < i then j else j - 1);
  }
}
