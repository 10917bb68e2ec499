/**
 The intrusive circular list of kernel/include/list.h.  An entry is an index into the arrays `next` and
 `prev`; a list is a ring of entries that begins with its head.
*/
module ListLinks {
  import opened DistinctSeq
  import opened CircularList
  import opened Options

  ghost predicate Linked(next: seq<nat>, prev: seq<nat>, ring: seq<nat>) {
    && |next| == |prev| && ring != [] && Distinct(ring)
    && (forall i :: 0 <= i < |ring| ==> ring[i] < |next|)
    && (forall i, j :: 0 <= i && j == i + 1 && j < |ring| ==> next[ring[i]] == ring[j] && prev[ring[j]] == ring[i])
    && next[ring[|ring| - 1]] == ring[0] && prev[ring[0]] == ring[|ring| - 1]
  }

  /** The links of its entries are all that a list depends on. */
  lemma LinkedSame(next: seq<nat>, prev: seq<nat>, next': seq<nat>, prev': seq<nat>, ring: seq<nat>)
    requires Linked(next, prev, ring) && |next'| == |prev'| == |next|
    requires forall x :: x in ring ==> next'[x] == next[x] && prev'[x] == prev[x]
    ensures Linked(next', prev', ring)
  {
    assert forall i :: 0 <= i < |ring| ==> ring[i] in ring;
  }

  lemma LinkedAt(next: seq<nat>, prev: seq<nat>, ring: seq<nat>, i: nat)
    requires Linked(next, prev, ring) && i < |ring|
    ensures ring[i] < |next| && next[ring[i]] == ring[Succ(|ring|, i)] && prev[ring[Succ(|ring|, i)]] == ring[i]
  {
  }

  /** The links determine the list. */
  lemma LinkedUnique(next: seq<nat>, prev: seq<nat>, a: seq<nat>, b: seq<nat>)
    requires Linked(next, prev, a) && Linked(next, prev, b) && a[0] == b[0]
    ensures a == b
  {
    if |a| <= |b| {
      NotLonger(next, prev, a, b);
    } else {
      NotLonger(next, prev, b, a);
    }
  }

  lemma NotLonger(next: seq<nat>, prev: seq<nat>, a: seq<nat>, b: seq<nat>)
    requires Linked(next, prev, a) && Linked(next, prev, b) && a[0] == b[0] && |a| <= |b|
    ensures a == b
  {
    SamePrefix(next, prev, a, b, |a| - 1);
    LinkedAt(next, prev, a, |a| - 1);
    LinkedAt(next, prev, b, |a| - 1);
  }

  lemma {:induction false} SamePrefix(next: seq<nat>, prev: seq<nat>, a: seq<nat>, b: seq<nat>, k: nat)
    requires Linked(next, prev, a) && Linked(next, prev, b) && a[0] == b[0] && k < |a| <= |b|
    ensures forall i :: 0 <= i <= k ==> a[i] == b[i]
  {
    if k > 0 {
      SamePrefix(next, prev, a, b, k - 1);
      LinkedAt(next, prev, a, k - 1);
      LinkedAt(next, prev, b, k - 1);
    }
  }

  lemma InsertIs(ring: seq<nat>, i: nat, x: nat)
    requires Distinct(ring) && 0 < i <= |ring| && x !in ring
    ensures var t := Insert(ring, i, x);
            && Distinct(t) && |t| == |ring| + 1 && t[i] == x && (forall k :: 0 <= k < i ==> t[k] == ring[k])
            && (forall k, l :: i <= k < |ring| && l == k + 1 ==> t[l] == ring[k])
  {
  }

  lemma DropIs(ring: seq<nat>, i: nat)
    requires Distinct(ring) && 0 < i < |ring|
    ensures var t := Drop(ring, i);
            && Distinct(t) && |t| == |ring| - 1 && ring[i] !in t && (forall k :: 0 <= k < i ==> t[k] == ring[k])
            && (forall k, l :: i <= k && l == k + 1 && l < |ring| ==> t[k] == ring[l])
  {
  }

  /** `a'` is `a` with two slots changed; they may be the same. */
  ghost predicate Changed(a: seq<nat>, a': seq<nat>, x: nat, v: nat, y: nat, w: nat) {
    && |a'| == |a| && x < |a| && y < |a| && a'[y] == w && (x != y ==> a'[x] == v)
    && forall z :: 0 <= z < |a| && z != x && z != y ==> a'[z] == a[z]
  }

  lemma Added(next: seq<nat>, prev: seq<nat>, next': seq<nat>, prev': seq<nat>, ring: seq<nat>, h: nat, n: nat)
    requires Linked(next, prev, ring) && h < |ring| && n !in ring
    requires Changed(next, next', n, ring[Succ(|ring|, h)], ring[h], n)
    requires Changed(prev, prev', ring[Succ(|ring|, h)], n, n, ring[h])
    ensures Linked(next', prev', Insert(ring, h + 1, n))
  {
    hide Distinct;
    InsertIs(ring, h + 1, n);
    var t := Insert(ring, h + 1, n);
    forall i | 0 <= i < |t|
      ensures t[i] < |next'|
    {
      if i > h + 1 {
        assert t[i] == ring[i - 1];
      }
    }
    forall i, j | 0 <= i && j == i + 1 && j < |t|
      ensures next'[t[i]] == t[j] && prev'[t[j]] == t[i]
    {
      AddedAt(next, prev, next', prev', ring, h, n, i);
    }
    AddedAt(next, prev, next', prev', ring, h, n, |ring|);
  }

  /** The links between two neighbours of the longer ring. */
  lemma AddedAt(next: seq<nat>, prev: seq<nat>, next': seq<nat>, prev': seq<nat>, ring: seq<nat>, h: nat, n: nat, i: nat)
    requires Linked(next, prev, ring) && h < |ring| && n !in ring && i <= |ring|
    requires Changed(next, next', n, ring[Succ(|ring|, h)], ring[h], n)
    requires Changed(prev, prev', ring[Succ(|ring|, h)], n, n, ring[h])
    ensures var t := Insert(ring, h + 1, n); var j := Succ(|t|, i);
            t[i] < |next'| && t[j] < |prev'| && next'[t[i]] == t[j] && prev'[t[j]] == t[i]
  {
    if i < h {
      LinkedAt(next, prev, ring, i);
      assert ring[i] in ring && ring[i + 1] in ring;
    } else if i > h + 1 {
      LinkedAt(next, prev, ring, i - 1);
      assert ring[i - 1] in ring && ring[Succ(|ring|, i - 1)] in ring;
    }
  }

  /** __list_add, list_add, list_add_tail: the entry goes behind the h-th one of the ring. */
  method AddBehind(next: array<nat>, prev: array<nat>, n: nat, p: nat, q: nat, ghost ring: seq<nat>, ghost h: nat)
    requires next != prev && Linked(next[..], prev[..], ring) && n < next.Length && n !in ring
    requires h < |ring| && p == ring[h] && q == ring[Succ(|ring|, h)]
    modifies next, prev
    ensures Linked(next[..], prev[..], Insert(ring, h + 1, n))
    ensures forall x :: 0 <= x < next.Length && x !in ring && x != n ==> next[x] == old(next[x]) && prev[x] == old(prev[x])
  {
    assert p in ring && q in ring;
    prev[q] := n;
    next[n] := q;
    prev[n] := p;
    next[p] := n;
    Added(old(next[..]), old(prev[..]), next[..], prev[..], ring, h, n);
  }

  /** list_add: the entry comes first. */
  method ListAdd(next: array<nat>, prev: array<nat>, n: nat, head: nat, ghost list: seq<nat>)
    requires next != prev && Linked(next[..], prev[..], [head] + list) && n < next.Length && n !in [head] + list
    modifies next, prev
    ensures Linked(next[..], prev[..], [head, n] + list)
    ensures forall x :: 0 <= x < next.Length && x !in [head] + list && x != n ==>
              next[x] == old(next[x]) && prev[x] == old(prev[x])
  {
    LinkedAt(next[..], prev[..], [head] + list, 0);
    AddBehind(next, prev, n, head, next[head], [head] + list, 0);
    assert Insert([head] + list, 1, n) == [head, n] + list;
  }

  /** list_add_tail: the entry comes last. */
  method ListAddTail(next: array<nat>, prev: array<nat>, n: nat, head: nat, ghost list: seq<nat>)
    requires next != prev && Linked(next[..], prev[..], [head] + list) && n < next.Length && n !in [head] + list
    modifies next, prev
    ensures Linked(next[..], prev[..], [head] + (list + [n]))
    ensures forall x :: 0 <= x < next.Length && x !in [head] + list && x != n ==>
              next[x] == old(next[x]) && prev[x] == old(prev[x])
  {
    LinkedAt(next[..], prev[..], [head] + list, |list|);
    AddBehind(next, prev, n, prev[head], head, [head] + list, |list|);
    assert Insert([head] + list, |list| + 1, n) == [head] + (list + [n]);
  }

  lemma Removed(next: seq<nat>, prev: seq<nat>, next': seq<nat>, prev': seq<nat>, ring: seq<nat>, i: nat, n: nat)
    requires Linked(next, prev, ring) && 0 < i < |ring| && ring[i] == n
    requires Changed(next, next', ring[i - 1], ring[Succ(|ring|, i)], n, n)
    requires Changed(prev, prev', ring[Succ(|ring|, i)], ring[i - 1], n, n)
    ensures Linked(next', prev', Drop(ring, i))
  {
    hide Drop;
    DropIs(ring, i);
    var t := Drop(ring, i);
    forall k | 0 <= k < |t|
      ensures t[k] < |next'| && t[k] != n
    {
      assert t[k] in t;
      if k >= i {
        assert t[k] == ring[k + 1];
      }
    }
    forall k, l | 0 <= k && l == k + 1 && l < |t|
      ensures next'[t[k]] == t[l] && prev'[t[l]] == t[k]
    {
      if l < i {
        assert t[k] == ring[k] && t[l] == ring[l] && next[ring[k]] == ring[l];
      } else if k >= i {
        assert t[k] == ring[k + 1] && t[l] == ring[l + 1] && next[ring[k + 1]] == ring[l + 1];
      }
    }
  }

  /** list_remove: the i-th entry of the ring, not its head, leaves it and is linked to itself. */
  method ListRemove(next: array<nat>, prev: array<nat>, n: nat, ghost ring: seq<nat>, ghost i: nat)
    requires next != prev && Linked(next[..], prev[..], ring) && 0 < i < |ring| && ring[i] == n
    modifies next, prev
    ensures n < next.Length == prev.Length && next[n] == prev[n] == n
    ensures Linked(next[..], prev[..], Drop(ring, i))
    ensures forall x :: 0 <= x < next.Length && x !in ring ==> next[x] == old(next[x]) && prev[x] == old(prev[x])
  {
    LinkedAt(next[..], prev[..], ring, i - 1);
    LinkedAt(next[..], prev[..], ring, i);
    assert ring[i - 1] in ring && ring[Succ(|ring|, i)] in ring;
    prev[next[n]] := prev[n];
    next[prev[n]] := next[n];
    prev[n] := n;
    next[n] := n;
    Removed(old(next[..]), old(prev[..]), next[..], prev[..], ring, i, n);
  }

  /** list_pop_head: the first entry, if there is one. */
  method ListPopHead(next: array<nat>, prev: array<nat>, head: nat, ghost list: seq<nat>) returns (r: Option<nat>)
    requires next != prev && Linked(next[..], prev[..], [head] + list)
    modifies next, prev
    ensures list == [] ==> r == None && next[..] == old(next[..]) && prev[..] == old(prev[..])
    ensures list != [] ==> r == Some(list[0]) && Linked(next[..], prev[..], [head] + list[1..])
    ensures forall x :: 0 <= x < next.Length && x !in [head] + list ==> next[x] == old(next[x]) && prev[x] == old(prev[x])
  {
    LinkedAt(next[..], prev[..], [head] + list, 0);
    if next[head] == head {
      return None;
    }
    var first := next[head];
    ListRemove(next, prev, first, [head] + list, 1);
    assert Drop([head] + list, 1) == [head] + list[1..];
    r := Some(first);
  }
}
