/**
 The frame lists of kernel/memory/page.c: every page frame has one record
 in `page_arr`, and a free, a mappable and an occupied list are threaded through the `next` and
 `prev` fields of those records.

 The list operations work in place on the record array and are specified by the sequence of frame
 numbers that the list holds.  The two pop operations leave the outward link of the new end as it
 was, so a list is in general only a `Chain`; `HeadClean` and `TailClean` say which outward link
 is known to be NOPAGE.
*/
module Frames {
  import opened DistinctSeq

  const NOPAGE: nat := 0xFFFF_FFFF

  datatype PageState = PgAvailable | PgKernel | PgDma | PgReserve | PgPool | PgNormal

  datatype Page = Page(state: PageState, next: nat, prev: nat, obj: nat, inuse: nat)

  class PageList {
    var head: nat
    var tail: nat

    constructor ()
      ensures head == NOPAGE && tail == NOPAGE
    {
      head, tail := NOPAGE, NOPAGE;
    }
  }

  // ---------------------------------------------------------------------------------------------
  // The shape of a list
  // ---------------------------------------------------------------------------------------------

  ghost predicate Disjoint(s: seq<nat>, t: seq<nat>) {
    forall f :: f in s ==> f !in t
  }

  /** `head`, `tail` and the links between neighbours are those of the frames `s`. */
  ghost predicate Chain(pages: seq<Page>, head: nat, tail: nat, s: seq<nat>) {
    && Distinct(s)
    && (forall i :: 0 <= i < |s| ==> s[i] < |pages| && s[i] < NOPAGE)
    && head == (if s == [] then NOPAGE else s[0])
    && tail == (if s == [] then NOPAGE else s[|s| - 1])
    && (forall i, j :: 0 <= i && j == i + 1 && j < |s| ==> pages[s[i]].next == s[j] && pages[s[j]].prev == s[i])
  }

  ghost predicate HeadClean(pages: seq<Page>, s: seq<nat>) {
    s != [] ==> s[0] < |pages| && pages[s[0]].prev == NOPAGE
  }

  ghost predicate TailClean(pages: seq<Page>, s: seq<nat>) {
    s != [] ==> s[|s| - 1] < |pages| && pages[s[|s| - 1]].next == NOPAGE
  }

  /** The full doubly linked list: both outward links are NOPAGE. */
  ghost predicate IsList(pages: seq<Page>, head: nat, tail: nat, s: seq<nat>) {
    Chain(pages, head, tail, s) && HeadClean(pages, s) && TailClean(pages, s)
  }

  /** Two record arrays that differ at most in the links of the frames `s` and of `page`. */
  ghost predicate OnlyLinks(p: seq<Page>, q: seq<Page>, s: seq<nat>, page: nat) {
    && |p| == |q|
    && (forall f :: 0 <= f < |p| && f !in s && f != page ==> q[f] == p[f])
    && (forall f :: 0 <= f < |p| ==> q[f] == p[f].(next := q[f].next, prev := q[f].prev))
  }

  lemma ChainDistinct(pages: seq<Page>, head: nat, tail: nat, s: seq<nat>)
    requires Chain(pages, head, tail, s)
    ensures Distinct(s)
  {
  }

  /** What the chain says about its k-th frame. */
  lemma ChainAt(pages: seq<Page>, head: nat, tail: nat, s: seq<nat>, k: nat)
    requires Chain(pages, head, tail, s) && k < |s|
    ensures s[k] < |pages| && s[k] < NOPAGE
    ensures k > 0 ==> pages[s[k]].prev == s[k - 1]
    ensures k < |s| - 1 ==> pages[s[k]].next == s[k + 1]
  {
  }

  /** The outward links of a frame are NOPAGE exactly at the ends. */
  lemma EndsAt(pages: seq<Page>, head: nat, tail: nat, s: seq<nat>, k: nat)
    requires Chain(pages, head, tail, s) && k < |s|
    requires k == 0 ==> HeadClean(pages, s)
    requires k == |s| - 1 ==> TailClean(pages, s)
    ensures s[k] < |pages| && s[k] < NOPAGE
    ensures pages[s[k]].prev == if k > 0 then s[k - 1] else NOPAGE
    ensures pages[s[k]].next == if k < |s| - 1 then s[k + 1] else NOPAGE
    ensures k > 0 ==> s[k - 1] < |pages| && s[k - 1] < NOPAGE && s[k - 1] != s[k]
    ensures k < |s| - 1 ==> s[k + 1] < |pages| && s[k + 1] < NOPAGE && s[k + 1] != s[k]
    ensures 0 < k < |s| - 1 ==> s[k - 1] != s[k + 1]
  {
  }

  /** A chain none of whose links changes is still the same chain. */
  lemma ChainFrame(p: seq<Page>, q: seq<Page>, head: nat, tail: nat, s: seq<nat>)
    requires Chain(p, head, tail, s)
    requires |p| == |q|
    requires forall f :: 0 <= f < |p| && f in s ==> q[f].next == p[f].next && q[f].prev == p[f].prev
    ensures Chain(q, head, tail, s)
    ensures HeadClean(q, s) == HeadClean(p, s) && TailClean(q, s) == TailClean(p, s)
  {
  }

  /** Taking the k-th frame out of a chain, as seen from the frames that stay. */
  lemma UnlinkShape(p: seq<Page>, q: seq<Page>, head: nat, tail: nat, head': nat, tail': nat, s: seq<nat>, k: nat)
    requires Chain(p, head, tail, s) && k < |s| && |q| == |p|
    requires head' == if k > 0 then s[0] else if |s| > 1 then s[1] else NOPAGE
    requires tail' == if k < |s| - 1 then s[|s| - 1] else if |s| > 1 then s[k - 1] else NOPAGE
    requires forall i :: 0 <= i < |s| && i != k && i != k + 1 ==> q[s[i]].prev == p[s[i]].prev
    requires forall i :: 0 <= i < |s| && i != k && i != k - 1 ==> q[s[i]].next == p[s[i]].next
    requires 0 < k < |s| - 1 ==> q[s[k - 1]].next == s[k + 1] && q[s[k + 1]].prev == s[k - 1]
    ensures Chain(q, head', tail', Drop(s, k))
    ensures k > 0 && HeadClean(q, s) ==> HeadClean(q, Drop(s, k))
    ensures k < |s| - 1 && TailClean(q, s) ==> TailClean(q, Drop(s, k))
  {
    var t := Drop(s, k);
    forall i, j | 0 <= i && j == i + 1 && j < |t|
      ensures q[t[i]].next == t[j] && q[t[j]].prev == t[i]
    {
      var i', j' := if i < k then i else i + 1, if j < k then j else j + 1;
      assert t[i] == s[i'] && t[j] == s[j'];
    }
  }

  /** The links determine the contents: one list record can only be one sequence. */
  lemma {:induction false} ListUnique(p: seq<Page>, head: nat, tail: nat, s: seq<nat>, t: seq<nat>)
    requires IsList(p, head, tail, s) && IsList(p, head, tail, t)
    ensures s == t
  {
    var k := 0;
    while k < |s| && k < |t|
      invariant k <= |s| && k <= |t| && s[..k] == t[..k]
      invariant k > 0 ==> s[k - 1] == t[k - 1]
    {
      if k > 0 {
        ChainAt(p, head, tail, s, k - 1);
        ChainAt(p, head, tail, t, k - 1);
      }
      assert s[k] == t[k];
      assert s[..k + 1] == s[..k] + [s[k]] && t[..k + 1] == t[..k] + [t[k]];
      k := k + 1;
    }
    if k > 0 {
      assert p[s[k - 1]].next == p[t[k - 1]].next;
    }
    assert s == s[..k] && t == t[..k];
  }

  // ---------------------------------------------------------------------------------------------
  // The list operations
  // ---------------------------------------------------------------------------------------------

  /** pglist_is_empty */
  method PglistIsEmpty(a: array<Page>, list: PageList, ghost s: seq<nat>) returns (r: bool)
    requires Chain(a[..], list.head, list.tail, s)
    ensures r <==> s == []
  {
    r := list.head == NOPAGE && list.tail == NOPAGE;
  }

  /** pglist_push_head */
  method PglistPushHead(a: array<Page>, list: PageList, page: nat, ghost s: seq<nat>)
    requires Chain(a[..], list.head, list.tail, s)
    requires page < a.Length && page < NOPAGE && page !in s
    modifies a, list
    ensures Chain(a[..], list.head, list.tail, [page] + s)
    ensures HeadClean(a[..], [page] + s)
    ensures TailClean(a[..], [page] + s) == TailClean(old(a[..]), s)
    ensures OnlyLinks(old(a[..]), a[..], s, page)
  {
    a[page] := a[page].(prev := NOPAGE, next := list.head);
    if list.head != NOPAGE {
      a[list.head] := a[list.head].(prev := page);
    }
    list.head := page;
    if list.tail == NOPAGE {
      list.tail := page;
    }
    assert forall i :: 0 < i < |[page] + s| ==> ([page] + s)[i] == s[i - 1];
  }

  /** pglist_push_tail */
  method PglistPushTail(a: array<Page>, list: PageList, page: nat, ghost s: seq<nat>)
    requires Chain(a[..], list.head, list.tail, s)
    requires page < a.Length && page < NOPAGE && page !in s
    modifies a, list
    ensures Chain(a[..], list.head, list.tail, s + [page])
    ensures TailClean(a[..], s + [page])
    ensures HeadClean(a[..], s + [page]) == HeadClean(old(a[..]), s)
    ensures OnlyLinks(old(a[..]), a[..], s, page)
  {
    a[page] := a[page].(prev := list.tail, next := NOPAGE);
    if list.tail != NOPAGE {
      a[list.tail] := a[list.tail].(next := page);
    }
    list.tail := page;
    if list.head == NOPAGE {
      list.head := page;
    }
  }

  /** pglist_pop_head: the new head keeps a `prev` link to the popped frame. */
  method PglistPopHead(a: array<Page>, list: PageList, ghost s: seq<nat>) returns (page: nat)
    requires Chain(a[..], list.head, list.tail, s) && TailClean(a[..], s)
    modifies a, list
    ensures page == if s == [] then NOPAGE else s[0]
    ensures s == [] ==> Chain(a[..], list.head, list.tail, s)
    ensures s != [] ==> Chain(a[..], list.head, list.tail, Drop(s, 0))
    ensures s != [] ==> TailClean(a[..], Drop(s, 0))
    ensures |s| > 1 ==> s[1] < a.Length && a[s[1]].prev == s[0]
    ensures s != [] ==> page < a.Length && a[page] == old(a[..])[page].(next := NOPAGE, prev := NOPAGE)
    ensures forall f :: 0 <= f < a.Length && f != page ==> a[f] == old(a[f])
  {
    page := list.head;
    if page == NOPAGE {
      return;
    }
    ChainAt(a[..], list.head, list.tail, s, 0);
    ghost var p, head, tail := a[..], list.head, list.tail;
    list.head := a[page].next;
    if list.head == NOPAGE {
      list.tail := NOPAGE;
    }
    a[page] := a[page].(next := NOPAGE, prev := NOPAGE);
    UnlinkShape(p, a[..], head, tail, list.head, list.tail, s, 0);
  }

  /** pglist_pop_tail: the new tail keeps a `next` link to the popped frame. */
  method PglistPopTail(a: array<Page>, list: PageList, ghost s: seq<nat>) returns (page: nat)
    requires Chain(a[..], list.head, list.tail, s) && HeadClean(a[..], s)
    modifies a, list
    ensures page == if s == [] then NOPAGE else s[|s| - 1]
    ensures s == [] ==> Chain(a[..], list.head, list.tail, s)
    ensures s != [] ==> Chain(a[..], list.head, list.tail, Drop(s, |s| - 1))
    ensures s != [] ==> HeadClean(a[..], Drop(s, |s| - 1))
    ensures |s| > 1 ==> s[|s| - 2] < a.Length && a[s[|s| - 2]].next == s[|s| - 1]
    ensures s != [] ==> page < a.Length && a[page] == old(a[..])[page].(next := NOPAGE, prev := NOPAGE)
    ensures forall f :: 0 <= f < a.Length && f != page ==> a[f] == old(a[f])
  {
    page := list.tail;
    if page == NOPAGE {
      return;
    }
    ChainAt(a[..], list.head, list.tail, s, |s| - 1);
    ghost var p, head, tail := a[..], list.head, list.tail;
    list.tail := a[page].prev;
    if list.tail == NOPAGE {
      list.head := NOPAGE;
    }
    a[page] := a[page].(next := NOPAGE, prev := NOPAGE);
    UnlinkShape(p, a[..], head, tail, list.head, list.tail, s, |s| - 1);
  }

  /** pglist_remove of the k-th frame; it reads the outward links only at the ends. */
  method PglistRemove(a: array<Page>, list: PageList, page: nat, ghost s: seq<nat>, ghost k: nat)
    requires Chain(a[..], list.head, list.tail, s)
    requires k < |s| && s[k] == page
    requires k == 0 ==> HeadClean(a[..], s)
    requires k == |s| - 1 ==> TailClean(a[..], s)
    modifies a, list
    ensures Chain(a[..], list.head, list.tail, Drop(s, k))
    ensures HeadClean(old(a[..]), s) ==> HeadClean(a[..], Drop(s, k))
    ensures TailClean(old(a[..]), s) ==> TailClean(a[..], Drop(s, k))
    ensures OnlyLinks(old(a[..]), a[..], s, page)
    ensures page < a.Length && a[page].next == NOPAGE && a[page].prev == NOPAGE
  {
    ghost var p, head, tail := a[..], list.head, list.tail;
    var frame := a[page];
    EndsAt(p, head, tail, s, k);
    if frame.prev == NOPAGE {
      list.head := frame.next;
    } else {
      a[frame.prev] := a[frame.prev].(next := frame.next);
    }
    if frame.next == NOPAGE {
      list.tail := frame.prev;
    } else {
      a[frame.next] := a[frame.next].(prev := frame.prev);
    }
    a[page] := a[page].(prev := NOPAGE, next := NOPAGE);
    ghost var q := a[..];
    assert forall f :: 0 <= f < |p| && f != page && f != frame.prev && f != frame.next ==> q[f] == p[f];
    assert k > 0 ==> q[s[k - 1]] == p[s[k - 1]].(next := frame.next);
    assert k < |s| - 1 ==> q[s[k + 1]] == p[s[k + 1]].(prev := frame.prev);
    UnlinkShape(p, a[..], head, tail, list.head, list.tail, s, k);
  }

  // ---------------------------------------------------------------------------------------------
  // What a pop does to a full list
  // ---------------------------------------------------------------------------------------------

  /** The records, the head and the tail that pglist_pop_tail leaves for a non-empty list. */
  ghost function PopTailPages(p: seq<Page>, tail: nat): seq<Page>
    requires tail < |p|
  {
    p[tail := p[tail].(next := NOPAGE, prev := NOPAGE)]
  }

  /**
   A full doubly linked list survives pglist_pop_tail exactly when it had a single frame: with
   two or more, the new tail still points at the popped frame.
  */
  lemma PopTailStrict(p: seq<Page>, head: nat, tail: nat, s: seq<nat>)
    requires IsList(p, head, tail, s) && s != []
    ensures var tail' := p[tail].prev;
            var head' := if tail' == NOPAGE then NOPAGE else head;
            IsList(PopTailPages(p, tail), head', tail', s[..|s| - 1]) <==> |s| == 1
  {
    var t := s[..|s| - 1];
    EndsAt(p, head, tail, s, |s| - 1);
    if |s| > 1 {
      EndsAt(p, head, tail, s, |s| - 2);
      assert t[|t| - 1] == s[|s| - 2];
      assert !TailClean(PopTailPages(p, tail), t);
    }
  }

  /** The records that pglist_pop_head leaves for a non-empty list. */
  ghost function PopHeadPages(p: seq<Page>, head: nat): seq<Page>
    requires head < |p|
  {
    p[head := p[head].(next := NOPAGE, prev := NOPAGE)]
  }

  /** The mirror image: the new head still points back at the popped frame. */
  lemma PopHeadStrict(p: seq<Page>, head: nat, tail: nat, s: seq<nat>)
    requires IsList(p, head, tail, s) && s != []
    ensures var head' := p[head].next;
            var tail' := if head' == NOPAGE then NOPAGE else tail;
            IsList(PopHeadPages(p, head), head', tail', s[1..]) <==> |s| == 1
  {
    var t := s[1..];
    EndsAt(p, head, tail, s, 0);
    if |s| > 1 {
      EndsAt(p, head, tail, s, 1);
      assert t[0] == s[1];
      assert !HeadClean(PopHeadPages(p, head), t);
    }
  }

  /** One such list: frames 0 and 1; after popping frame 1, frame 0 still links to it. */
  lemma PopTailExample()
    ensures var p := [Page(PgAvailable, 1, NOPAGE, 0, 0), Page(PgAvailable, NOPAGE, 0, 0, 0)];
            IsList(p, 0, 1, [0, 1]) && !IsList(PopTailPages(p, 1), 0, 0, [0]) && PopTailPages(p, 1)[0].next == 1
  {
    var p := [Page(PgAvailable, 1, NOPAGE, 0, 0), Page(PgAvailable, NOPAGE, 0, 0, 0)];
    assert PopTailPages(p, 1)[0].next == 1;
    assert !TailClean(PopTailPages(p, 1), [0]);
  }

  /** The same list after popping frame 0: frame 1 still links back to it. */
  lemma PopHeadExample()
    ensures var p := [Page(PgAvailable, 1, NOPAGE, 0, 0), Page(PgAvailable, NOPAGE, 0, 0, 0)];
            IsList(p, 0, 1, [0, 1]) && !IsList(PopHeadPages(p, 0), 1, 1, [1]) && PopHeadPages(p, 0)[1].prev == 0
  {
    var p := [Page(PgAvailable, 1, NOPAGE, 0, 0), Page(PgAvailable, NOPAGE, 0, 0, 0)];
    assert PopHeadPages(p, 0)[1].prev == 0;
    assert !HeadClean(PopHeadPages(p, 0), [1]);
  }
}
