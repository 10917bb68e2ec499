/**
 `frame_alloc` and `frame_release` of kernel/memory/page.c over the three frame lists.

 `AllocStep` and `ReleaseStep` give the effect of one call on the abstract state (the contents of
 the lists and the state of every frame); the methods are proved to have exactly that effect, and
 the properties of runs are proved about the steps.
*/
module FrameAllocator {
  import opened DistinctSeq
  import opened Frames

  // NoFrame: frame_alloc logs and returns 0.  AssertFailed: one of its asserts stops the kernel.
  datatype AllocResult = Frame(pfn: nat) | NoFrame | AssertFailed

  datatype Alloc = Alloc(free: seq<nat>, mappable: seq<nat>, occupied: seq<nat>, state: seq<PageState>)

  ghost predicate OnOccupied(s: PageState) {
    s == PgKernel || s == PgNormal
  }

  ghost predicate Releasable(s: PageState) {
    s == PgKernel || s == PgNormal || s == PgPool
  }

  /** The invariant of the abstract state. */
  ghost predicate Ok(a: Alloc) {
    && Distinct(a.free) && Distinct(a.mappable) && Distinct(a.occupied)
    && Disjoint(a.free, a.mappable) && Disjoint(a.free, a.occupied) && Disjoint(a.mappable, a.occupied)
    && (forall f :: f in a.free ==> f < |a.state| && a.state[f] == PgAvailable)
    && (forall f :: f in a.mappable ==> f < |a.state| && a.state[f] == PgAvailable)
    && (forall f :: f in a.occupied ==> f < |a.state| && OnOccupied(a.state[f]))
    && (forall f :: 0 <= f < |a.state| && OnOccupied(a.state[f]) ==> f in a.occupied)
    && |a.state| <= NOPAGE
  }

  function Last(s: seq<nat>): (r: nat)
    requires s != []
    ensures r in s
  {
    s[|s| - 1]
  }

  function Front(s: seq<nat>): seq<nat>
    requires s != []
  {
    s[..|s| - 1]
  }

  ghost function AllocStep(a: Alloc, want: PageState): (Alloc, AllocResult)
    requires Ok(a)
  {
    if |a.free| + |a.mappable| == 0 then (a, NoFrame)
    else if want == PgKernel || want == PgPool then
      if a.free == [] then (a, AssertFailed)
      else
        var f := Last(a.free);
        var occ := if want == PgKernel then [f] + a.occupied else a.occupied;
        (Alloc(Front(a.free), a.mappable, occ, a.state[f := want]), Frame(f))
    else if want == PgNormal then
      if a.mappable == [] then (a, AssertFailed)
      else
        var f := Last(a.mappable);
        (Alloc(a.free, Front(a.mappable), [f] + a.occupied, a.state[f := want]), Frame(f))
    else (a, AssertFailed)
  }

  /** Releasing a frame that is not handed out moves nothing (the code still bumps its counter). */
  ghost function ReleaseStep(a: Alloc, f: nat): Alloc
    requires Ok(a) && f < |a.state|
  {
    match a.state[f]
    case PgKernel => Alloc([f] + a.free, a.mappable, Remove(a.occupied, f), a.state[f := PgAvailable])
    case PgNormal => Alloc(a.free, [f] + a.mappable, Remove(a.occupied, f), a.state[f := PgAvailable])
    case PgPool => Alloc([f] + a.free, a.mappable, a.occupied, a.state[f := PgAvailable])
    case _ => a
  }

  ghost function StatesOf(pages: seq<Page>): (r: seq<PageState>)
    ensures |r| == |pages| && forall i :: 0 <= i < |pages| ==> r[i] == pages[i].state
  {
    seq(|pages|, i requires 0 <= i < |pages| => pages[i].state)
  }

  lemma PushDistinct(s: seq<nat>, f: nat)
    requires Distinct(s)
    ensures f !in s ==> Distinct([f] + s)
    ensures forall x :: x in [f] + s <==> x == f || x in s
  {
  }

  lemma FrontIs(s: seq<nat>)
    requires Distinct(s) && s != []
    ensures Distinct(Front(s))
    ensures forall x :: x in Front(s) <==> x in s && x != Last(s)
  {
    assert s == Front(s) + [Last(s)];
  }

  /** frame_alloc keeps the invariant of the abstract state. */
  lemma AllocOk(a: Alloc, want: PageState)
    requires Ok(a)
    ensures Ok(AllocStep(a, want).0)
  {
    hide Distinct;
    if a.free != [] && (want == PgKernel || want == PgPool) {
      FrontIs(a.free);
      PushDistinct(a.occupied, Last(a.free));
    }
    if a.mappable != [] && want == PgNormal {
      FrontIs(a.mappable);
      PushDistinct(a.occupied, Last(a.mappable));
    }
  }

  /** The states that can be asked for, and the list of their region: mappable frames lie above 2 GB. */
  predicate Wanted(want: PageState) {
    want == PgKernel || want == PgPool || want == PgNormal
  }

  function Region(a: Alloc, want: PageState): seq<nat> {
    if want == PgNormal then a.mappable else a.free
  }

  /** There is a frame exactly if the list of the region has one; it is the last of that list and of no other. */
  lemma AllocAnswers(a: Alloc, want: PageState)
    requires Ok(a)
    ensures var (b, r) := AllocStep(a, want);
            && (r.Frame? <==> Wanted(want) && Region(a, want) != [])
            && (r == NoFrame <==> a.free == a.mappable == [])
            && (!r.Frame? ==> b == a)
            && (r.Frame? ==>
                  && Region(a, want) == Region(b, want) + [r.pfn]
                  && (want == PgNormal ==> b.free == a.free) && (want != PgNormal ==> b.mappable == a.mappable)
                  && b.occupied == (if want == PgPool then a.occupied else [r.pfn] + a.occupied)
                  && r.pfn < |a.state| == |b.state| && a.state[r.pfn] == PgAvailable && b.state[r.pfn] == want
                  && forall f :: 0 <= f < |a.state| && f != r.pfn ==> b.state[f] == a.state[f])
  {
    hide Distinct;
  }

  /** A frame that is handed out becomes available and the first of the list of its region. */
  lemma ReleaseAnswers(a: Alloc, f: nat)
    requires Ok(a) && f < |a.state|
    ensures var b := ReleaseStep(a, f);
            && |b.state| == |a.state| && (!HandedOut(a, f) ==> b == a)
            && (forall g :: 0 <= g < |a.state| && g != f ==> b.state[g] == a.state[g])
            && (HandedOut(a, f) ==>
                  && b.state[f] == PgAvailable && Region(b, a.state[f]) == [f] + Region(a, a.state[f])
                  && (a.state[f] == PgNormal ==> b.free == a.free) && (a.state[f] != PgNormal ==> b.mappable == a.mappable)
                  && forall g :: g in b.occupied <==> g in a.occupied && g != f)
  {
    hide Distinct, Remove;
    if OnOccupied(a.state[f]) {
      RemoveMembers(a.occupied, f);
    }
  }

  /** A handed-out frame on the occupied list goes to the free or the mappable list. */
  lemma ReleaseOccupiedOk(a: Alloc, f: nat)
    requires Ok(a) && f < |a.state| && OnOccupied(a.state[f])
    ensures Ok(ReleaseStep(a, f))
  {
    hide Distinct, Remove;
    var k :| 0 <= k < |a.occupied| && a.occupied[k] == f;
    RemoveIs(a.occupied, f, k);
    if a.state[f] == PgKernel {
      PushDistinct(a.free, f);
    } else {
      PushDistinct(a.mappable, f);
    }
  }

  /** frame_release keeps the invariant of the abstract state, whatever frame it is given. */
  lemma ReleaseOk(a: Alloc, f: nat)
    requires Ok(a) && f < |a.state|
    ensures Ok(ReleaseStep(a, f))
  {
    hide Distinct, Remove;
    if OnOccupied(a.state[f]) {
      ReleaseOccupiedOk(a, f);
    } else if a.state[f] == PgPool {
      PushDistinct(a.free, f);
    }
  }

  lemma EmptyOk(state: seq<PageState>)
    requires |state| <= NOPAGE && forall f :: 0 <= f < |state| ==> state[f] == PgReserve
    ensures Ok(Alloc([], [], [], state))
  {
  }

  /** Adding a reserved frame to the free or the mappable list keeps the invariant. */
  lemma AddOk(a: Alloc, f: nat, direct: bool)
    requires Ok(a) && f < |a.state| && a.state[f] == PgReserve
    ensures f !in a.free && f !in a.mappable && f !in a.occupied
    ensures Disjoint(a.free, a.mappable) && Disjoint(a.free, a.occupied) && Disjoint(a.mappable, a.occupied)
    ensures Ok(if direct then a.(free := [f] + a.free, state := a.state[f := PgAvailable])
               else a.(mappable := [f] + a.mappable, state := a.state[f := PgAvailable]))
  {
    hide Distinct;
    PushDistinct(a.free, f);
    PushDistinct(a.mappable, f);
  }

  // ---------------------------------------------------------------------------------------------
  // Runs
  // ---------------------------------------------------------------------------------------------

  datatype Op = AllocOp(want: PageState) | ReleaseOp(f: nat)

  ghost function Step(a: Alloc, op: Op): (r: (Alloc, AllocResult))
    requires Ok(a)
    ensures Ok(r.0)
  {
    match op
    case AllocOp(want) => AllocOk(a, want); AllocStep(a, want)
    case ReleaseOp(f) =>
      if f < |a.state| then ReleaseOk(a, f); (ReleaseStep(a, f), NoFrame) else (a, NoFrame)
  }

  ghost function After(a: Alloc, ops: seq<Op>): (r: Alloc)
    requires Ok(a)
    ensures Ok(r)
    decreases |ops|
  {
    if ops == [] then a else After(Step(a, ops[0]).0, ops[1..])
  }

  /** What the k-th operation of a run returns. */
  ghost function ResultAt(a: Alloc, ops: seq<Op>, k: nat): AllocResult
    requires Ok(a) && k < |ops|
    decreases |ops|
  {
    if k == 0 then Step(a, ops[0]).1 else ResultAt(Step(a, ops[0]).0, ops[1..], k - 1)
  }

  ghost predicate HandedOut(a: Alloc, f: nat) {
    f < |a.state| && Releasable(a.state[f])
  }

  /** The frames below 2 GB that the allocator manages, and those above. */
  ghost function DirectFrames(a: Alloc): set<nat> {
    set f | 0 <= f < |a.state| && (f in a.free || a.state[f] == PgKernel || a.state[f] == PgPool)
  }

  ghost function HighFrames(a: Alloc): set<nat> {
    set f | 0 <= f < |a.state| && (f in a.mappable || a.state[f] == PgNormal)
  }

  /** One call hands out only a frame that was not handed out, and takes back only what it is given. */
  lemma StepHandedOut(a: Alloc, op: Op, f: nat)
    requires Ok(a)
    ensures Step(a, op).1 == Frame(f) ==> !HandedOut(a, f) && HandedOut(Step(a, op).0, f)
    ensures HandedOut(a, f) && op != ReleaseOp(f) ==> HandedOut(Step(a, op).0, f)
  {
  }

  /** No frame is lost or changes region: each call permutes the frames below 2 GB, and those above. */
  lemma StepConserves(a: Alloc, op: Op)
    requires Ok(a)
    ensures DirectFrames(Step(a, op).0) == DirectFrames(a) && HighFrames(Step(a, op).0) == HighFrames(a)
    ensures |Step(a, op).0.state| == |a.state|
  {
    hide Distinct;
    match op
    case AllocOp(want) =>
      if a.free != [] {
        FrontIs(a.free);
      }
      if a.mappable != [] {
        FrontIs(a.mappable);
      }
    case ReleaseOp(f) =>
  }

  lemma {:induction false} RunConserves(a: Alloc, ops: seq<Op>)
    requires Ok(a)
    ensures DirectFrames(After(a, ops)) == DirectFrames(a) && HighFrames(After(a, ops)) == HighFrames(a)
    decreases |ops|
  {
    if ops != [] {
      StepConserves(a, ops[0]);
      RunConserves(Step(a, ops[0]).0, ops[1..]);
    }
  }

  /** A frame that is out stays out, and is not handed out again, until it is released. */
  lemma {:induction false} StaysOut(a: Alloc, ops: seq<Op>, f: nat, j: nat)
    requires Ok(a) && HandedOut(a, f) && j < |ops|
    requires forall k :: 0 <= k < j ==> ops[k] != ReleaseOp(f)
    ensures ResultAt(a, ops, j) != Frame(f)
    decreases |ops|
  {
    hide Ok, Step, HandedOut;
    StepHandedOut(a, ops[0], f);
    if j > 0 {
      assert forall k :: 0 <= k < j - 1 ==> ops[1..][k] == ops[k + 1];
      StaysOut(Step(a, ops[0]).0, ops[1..], f, j - 1);
    }
  }

  /** Over any run, a frame handed out twice was released in between. */
  lemma {:induction false} NoDoubleHandOut(a: Alloc, ops: seq<Op>, f: nat, i: nat, j: nat)
    requires Ok(a) && i < j < |ops|
    requires ResultAt(a, ops, i) == Frame(f) && ResultAt(a, ops, j) == Frame(f)
    ensures exists k :: i < k < j && ops[k] == ReleaseOp(f)
    decreases |ops|
  {
    hide Ok, Step, HandedOut;
    if i > 0 {
      NoDoubleHandOut(Step(a, ops[0]).0, ops[1..], f, i - 1, j - 1);
      var k :| i - 1 < k < j - 1 && ops[1..][k] == ReleaseOp(f);
      assert ops[k + 1] == ReleaseOp(f);
    } else {
      StepHandedOut(a, ops[0], f);
      var rest := ops[1..];
      if forall k :: 0 <= k < j - 1 ==> rest[k] != ReleaseOp(f) {
        StaysOut(Step(a, ops[0]).0, rest, f, j - 1);
        assert false;
      } else {
        var k :| 0 <= k < j - 1 && rest[k] == ReleaseOp(f);
        assert ops[k + 1] == ReleaseOp(f);
      }
    }
  }

  // ---------------------------------------------------------------------------------------------
  // Which frame is handed out
  // ---------------------------------------------------------------------------------------------

  function Position(s: seq<nat>, f: nat): nat {
    if s == [] || s[0] == f then 0 else 1 + Position(s[1..], f)
  }

  /**
   When frame `f` was last given back in the run.  For a frame that was not, how far behind the head of its
   list it was before the run: a larger distance is longer ago.
  */
  ghost function GivenBack(a: Alloc, ops: seq<Op>, f: nat): int
    requires Ok(a)
    decreases |ops|
  {
    if ops == [] then -1 - Position(if f in a.free then a.free else a.mappable, f)
    else
      var last := |ops| - 1;
      if ops[last] == ReleaseOp(f) && HandedOut(After(a, ops[..last]), f) then last else GivenBack(a, ops[..last], f)
  }

  lemma {:induction false} GivenBackBefore(a: Alloc, ops: seq<Op>, f: nat)
    requires Ok(a)
    ensures GivenBack(a, ops, f) < |ops|
    decreases |ops|
  {
    if ops != [] {
      GivenBackBefore(a, ops[..|ops| - 1], f);
    }
  }

  lemma {:induction false} PositionIs(s: seq<nat>, i: nat)
    requires Distinct(s) && i < |s|
    ensures Position(s, s[i]) == i
  {
    if i > 0 {
      PositionIs(s[1..], i - 1);
    }
  }

  lemma {:induction false} AfterLast(a: Alloc, ops: seq<Op>)
    requires Ok(a) && ops != []
    ensures After(a, ops) == Step(After(a, ops[..|ops| - 1]), ops[|ops| - 1]).0
    decreases |ops|
  {
    hide Step, Ok;
    if |ops| > 1 {
      var b := Step(a, ops[0]).0;
      AfterLast(b, ops[1..]);
      assert ops[1..][..|ops| - 2] == ops[..|ops| - 1][1..];
    } else {
      assert ops[1..] == [] && ops[..0] == [];
    }
  }

  /** The list is ordered by the time when its frames were given back, the latest first. */
  ghost predicate Queue(a: Alloc, ops: seq<Op>, list: seq<nat>)
    requires Ok(a)
  {
    forall i, j :: 0 <= i < j < |list| ==> GivenBack(a, ops, list[i]) > GivenBack(a, ops, list[j])
  }

  lemma StartQueue(a: Alloc)
    requires Ok(a)
    ensures Queue(a, [], a.free) && Queue(a, [], a.mappable)
  {
    forall i | 0 <= i < |a.free|
      ensures GivenBack(a, [], a.free[i]) == -1 - i
    {
      assert a.free[i] in a.free;
      PositionIs(a.free, i);
    }
    forall i | 0 <= i < |a.mappable|
      ensures GivenBack(a, [], a.mappable[i]) == -1 - i
    {
      assert a.mappable[i] in a.mappable;
      PositionIs(a.mappable, i);
    }
  }

  /** One more call keeps the order of a list that loses its last frame, gets the released one in front, or stays. */
  lemma QueueStep(a: Alloc, ops: seq<Op>, op: Op, list: seq<nat>, list': seq<nat>)
    requires Ok(a) && Queue(a, ops, list)
    requires var b := After(a, ops);
             && (forall f :: f in list ==> !HandedOut(b, f))
             && (list' == list || (list != [] && list' == Front(list))
                 || (op.ReleaseOp? && HandedOut(b, op.f) && list' == [op.f] + list))
    ensures Queue(a, ops + [op], list')
  {
    hide Ok, After, HandedOut;
    var all, n := ops + [op], |ops|;
    assert all[..n] == ops;
    forall i | 0 <= i < |list|
      ensures GivenBack(a, all, list[i]) == GivenBack(a, ops, list[i]) < n
    {
      assert list[i] in list;
      GivenBackBefore(a, ops, list[i]);
    }
    if op.ReleaseOp? && HandedOut(After(a, ops), op.f) {
      assert GivenBack(a, all, op.f) == n;
    }
  }

  /** In every run both lists are queues. */
  lemma {:induction false} ListsAreQueues(a: Alloc, ops: seq<Op>)
    requires Ok(a)
    ensures Queue(a, ops, After(a, ops).free) && Queue(a, ops, After(a, ops).mappable)
    decreases |ops|
  {
    hide Ok, Queue;
    if ops == [] {
      StartQueue(a);
    } else {
      var front, op := ops[..|ops| - 1], ops[|ops| - 1];
      ListsAreQueues(a, front);
      AfterLast(a, ops);
      assert front + [op] == ops;
      var b := After(a, front);
      ListsMove(b, op);
      QueueStep(a, front, op, b.free, After(a, ops).free);
      QueueStep(a, front, op, b.mappable, After(a, ops).mappable);
    }
  }

  /** What one call does to the two lists. */
  lemma ListsMove(b: Alloc, op: Op)
    requires Ok(b)
    ensures var c := Step(b, op).0;
            && (forall f :: f in b.free || f in b.mappable ==> !HandedOut(b, f))
            && (c.free == b.free || (b.free != [] && c.free == Front(b.free))
                || (op.ReleaseOp? && HandedOut(b, op.f) && c.free == [op.f] + b.free))
            && (c.mappable == b.mappable || (b.mappable != [] && c.mappable == Front(b.mappable))
                || (op.ReleaseOp? && HandedOut(b, op.f) && c.mappable == [op.f] + b.mappable))
  {
    hide Distinct, Remove;
  }

  /**
   After any run, an allocation hands out the frame of its region that was given back longest ago: every other
   frame that is available there was given back later.
  */
  lemma LongestFreeFirst(a: Alloc, ops: seq<Op>, want: PageState, f: nat, g: nat)
    requires Ok(a) && Step(After(a, ops), AllocOp(want)).1 == Frame(f)
    requires g in Region(After(a, ops), want) && g != f
    ensures f in Region(After(a, ops), want) && GivenBack(a, ops, f) < GivenBack(a, ops, g)
  {
    hide Distinct, AllocStep;
    var list := Region(After(a, ops), want);
    ListsAreQueues(a, ops);
    AllocAnswers(After(a, ops), want);
    assert list[|list| - 1] == f;
    var i :| 0 <= i < |list| && list[i] == g;
  }

  class FrameTable {
    const pageArr: array<Page>
    const memFree: PageList
    const memOccupied: PageList
    const memMap: PageList
    var memFreeCnt: int
    var memOccupiedCnt: int
    // The contents of the three lists.
    ghost var free: seq<nat>
    ghost var occupied: seq<nat>
    ghost var mappable: seq<nat>

    ghost function Repr(): set<object> {
      {this, pageArr, memFree, memOccupied, memMap}
    }

    ghost function Abs(): Alloc
      reads this, pageArr
    {
      Alloc(free, mappable, occupied, StatesOf(pageArr[..]))
    }

    /** The lists are what the ghost fields say, and only the two stacks may have a stale tail link. */
    ghost predicate ListsOk()
      reads this, pageArr, memFree, memOccupied, memMap
    {
      && pageArr.Length <= NOPAGE
      && memFree != memOccupied && memFree != memMap && memOccupied != memMap
      && Chain(pageArr[..], memFree.head, memFree.tail, free) && HeadClean(pageArr[..], free)
      && Chain(pageArr[..], memMap.head, memMap.tail, mappable) && HeadClean(pageArr[..], mappable)
      && IsList(pageArr[..], memOccupied.head, memOccupied.tail, occupied)
    }

    ghost predicate CountsOk()
      reads this
    {
      memFreeCnt == |free| + |mappable| && memOccupiedCnt == |occupied|
    }

    ghost predicate Valid()
      reads this, pageArr, memFree, memOccupied, memMap
    {
      ListsOk() && CountsOk() && Ok(Abs())
    }

    constructor (frames: nat)
      requires frames <= NOPAGE
      ensures Valid() && fresh(Repr())
      ensures pageArr.Length == frames && free == [] && mappable == [] && occupied == []
    {
      pageArr := new Page[frames](_ => Page(PgReserve, NOPAGE, NOPAGE, 0, 0));
      memFree := new PageList();
      memOccupied := new PageList();
      memMap := new PageList();
      memFreeCnt, memOccupiedCnt := 0, 0;
      free, occupied, mappable := [], [], [];
      new;
      EmptyOk(StatesOf(pageArr[..]));
    }

    ghost predicate ListsApart()
      reads this
    {
      Disjoint(free, mappable) && Disjoint(free, occupied) && Disjoint(mappable, occupied)
    }

    /** The tail of the free list, if there is one, gets the state `want`. */
    method PopFree(want: PageState) returns (f: nat)
      requires ListsOk() && ListsApart()
      modifies pageArr, memFree, this`free
      ensures ListsOk()
      ensures old(free) == [] ==> f == NOPAGE && free == [] && pageArr[..] == old(pageArr[..])
      ensures old(free) != [] ==> f == Last(old(free)) && f < pageArr.Length && free == Front(old(free))
      ensures old(free) != [] ==> pageArr[f] == old(pageArr[..])[f].(state := want, next := NOPAGE, prev := NOPAGE)
      ensures forall g :: 0 <= g < pageArr.Length && g != f ==> pageArr[g] == old(pageArr[g])
    {
      hide Chain, HeadClean, TailClean;
      ghost var s := free;
      f := PglistPopTail(pageArr, memFree, s);
      if f != NOPAGE {
        assert Drop(s, |s| - 1) == Front(s);
        ghost var p := pageArr[..];
        pageArr[f] := pageArr[f].(state := want);
        free := Front(s);
        ChainFrame(p, pageArr[..], memFree.head, memFree.tail, free);
        assert f == Last(s);
      } else {
        assert pageArr[..] == old(pageArr[..]);
      }
      ChainFrame(old(pageArr[..]), pageArr[..], memMap.head, memMap.tail, mappable);
      ChainFrame(old(pageArr[..]), pageArr[..], memOccupied.head, memOccupied.tail, occupied);
    }

    /** The same for the list of freely mappable frames. */
    method PopMap(want: PageState) returns (f: nat)
      requires ListsOk() && ListsApart()
      modifies pageArr, memMap, this`mappable
      ensures ListsOk()
      ensures old(mappable) == [] ==> f == NOPAGE && mappable == [] && pageArr[..] == old(pageArr[..])
      ensures old(mappable) != [] ==> f == Last(old(mappable)) && f < pageArr.Length && mappable == Front(old(mappable))
      ensures old(mappable) != [] ==> pageArr[f] == old(pageArr[..])[f].(state := want, next := NOPAGE, prev := NOPAGE)
      ensures forall g :: 0 <= g < pageArr.Length && g != f ==> pageArr[g] == old(pageArr[g])
    {
      hide Chain, HeadClean, TailClean;
      ghost var s := mappable;
      f := PglistPopTail(pageArr, memMap, s);
      if f != NOPAGE {
        assert Drop(s, |s| - 1) == Front(s);
        ghost var p := pageArr[..];
        pageArr[f] := pageArr[f].(state := want);
        mappable := Front(s);
        ChainFrame(p, pageArr[..], memMap.head, memMap.tail, mappable);
        assert f == Last(s);
      } else {
        assert pageArr[..] == old(pageArr[..]);
      }
      ChainFrame(old(pageArr[..]), pageArr[..], memFree.head, memFree.tail, free);
      ChainFrame(old(pageArr[..]), pageArr[..], memOccupied.head, memOccupied.tail, occupied);
    }

    /** A frame on none of the lists goes to the head of the occupied list. */
    method PushOccupied(f: nat)
      requires ListsOk() && ListsApart()
      requires f < pageArr.Length && f !in free && f !in mappable && f !in occupied
      modifies pageArr, memOccupied, this`occupied
      ensures ListsOk() && occupied == [f] + old(occupied)
      ensures OnlyLinks(old(pageArr[..]), pageArr[..], old(occupied), f)
    {
      hide Chain, HeadClean, TailClean;
      PglistPushHead(pageArr, memOccupied, f, occupied);
      ChainFrame(old(pageArr[..]), pageArr[..], memFree.head, memFree.tail, free);
      ChainFrame(old(pageArr[..]), pageArr[..], memMap.head, memMap.tail, mappable);
      occupied := [f] + occupied;
    }

    /** A frame on none of the lists goes to the head of the free list. */
    method PushFree(f: nat)
      requires ListsOk() && ListsApart()
      requires f < pageArr.Length && f !in free && f !in mappable && f !in occupied
      modifies pageArr, memFree, this`free
      ensures ListsOk() && free == [f] + old(free)
      ensures OnlyLinks(old(pageArr[..]), pageArr[..], old(free), f)
    {
      hide Chain, HeadClean, TailClean;
      PglistPushHead(pageArr, memFree, f, free);
      ChainFrame(old(pageArr[..]), pageArr[..], memOccupied.head, memOccupied.tail, occupied);
      ChainFrame(old(pageArr[..]), pageArr[..], memMap.head, memMap.tail, mappable);
      free := [f] + free;
    }

    /** A frame on none of the lists goes to the head of the list of freely mappable frames. */
    method PushMap(f: nat)
      requires ListsOk() && ListsApart()
      requires f < pageArr.Length && f !in free && f !in mappable && f !in occupied
      modifies pageArr, memMap, this`mappable
      ensures ListsOk() && mappable == [f] + old(mappable)
      ensures OnlyLinks(old(pageArr[..]), pageArr[..], old(mappable), f)
    {
      hide Chain, HeadClean, TailClean;
      PglistPushHead(pageArr, memMap, f, mappable);
      ChainFrame(old(pageArr[..]), pageArr[..], memFree.head, memFree.tail, free);
      ChainFrame(old(pageArr[..]), pageArr[..], memOccupied.head, memOccupied.tail, occupied);
      mappable := [f] + mappable;
    }

    /** A frame leaves the occupied list and becomes available. */
    method RemoveOccupied(f: nat)
      requires ListsOk() && ListsApart() && f in occupied
      modifies pageArr, memOccupied, this`occupied
      ensures ListsOk() && occupied == Remove(old(occupied), f) && |occupied| == |old(occupied)| - 1
      ensures f < pageArr.Length && pageArr[f].state == PgAvailable
      ensures forall g :: 0 <= g < pageArr.Length && g != f ==> pageArr[g].state == old(pageArr[g].state)
      ensures forall g :: 0 <= g < pageArr.Length && g !in old(occupied) ==> pageArr[g] == old(pageArr[g])
    {
      hide Chain, HeadClean, TailClean, Remove, Distinct;
      ghost var k :| 0 <= k < |occupied| && occupied[k] == f;
      ChainDistinct(pageArr[..], memOccupied.head, memOccupied.tail, occupied);
      RemoveIs(occupied, f, k);
      PglistRemove(pageArr, memOccupied, f, occupied, k);
      occupied := Drop(occupied, k);
      ghost var p := pageArr[..];
      pageArr[f] := pageArr[f].(state := PgAvailable);
      ChainFrame(p, pageArr[..], memOccupied.head, memOccupied.tail, occupied);
      ChainFrame(old(pageArr[..]), pageArr[..], memFree.head, memFree.tail, free);
      ChainFrame(old(pageArr[..]), pageArr[..], memMap.head, memMap.tail, mappable);
    }

    /** A pool frame, on none of the lists, becomes available. */
    method FreeUnlisted(f: nat)
      requires ListsOk() && f < pageArr.Length && f !in free && f !in mappable && f !in occupied
      modifies pageArr
      ensures ListsOk() && pageArr[f].state == PgAvailable
      ensures forall g :: 0 <= g < pageArr.Length && g != f ==> pageArr[g] == old(pageArr[g])
    {
      hide Chain, HeadClean, TailClean;
      ghost var p := pageArr[..];
      pageArr[f] := pageArr[f].(state := PgAvailable);
      ChainFrame(p, pageArr[..], memFree.head, memFree.tail, free);
      ChainFrame(p, pageArr[..], memMap.head, memMap.tail, mappable);
      ChainFrame(p, pageArr[..], memOccupied.head, memOccupied.tail, occupied);
    }

    /** The step of page_init for one usable frame above the DMA region. */
    method AddAvailable(f: nat, direct: bool)
      requires Valid() && f < pageArr.Length && pageArr[f].state == PgReserve
      modifies Repr()
      ensures Valid()
      ensures StatesOf(pageArr[..]) == StatesOf(old(pageArr[..]))[f := PgAvailable]
      ensures free == (if direct then [f] + old(free) else old(free))
      ensures mappable == (if direct then old(mappable) else [f] + old(mappable))
      ensures occupied == old(occupied)
    {
      hide Chain, HeadClean, TailClean, Ok;
      AddOk(Abs(), f, direct);
      ghost var p := pageArr[..];
      pageArr[f] := pageArr[f].(state := PgAvailable);
      assert StatesOf(pageArr[..]) == StatesOf(p)[f := PgAvailable];
      ChainFrame(p, pageArr[..], memFree.head, memFree.tail, free);
      ChainFrame(p, pageArr[..], memMap.head, memMap.tail, mappable);
      ChainFrame(p, pageArr[..], memOccupied.head, memOccupied.tail, occupied);
      if direct {
        PushFree(f);
      } else {
        PushMap(f);
      }
      memFreeCnt := memFreeCnt + 1;
      assert StatesOf(pageArr[..]) == StatesOf(p)[f := PgAvailable];
    }

    /** frame_alloc behind its checks: the tail of the list of the region, or NOPAGE. */
    method TakeFrame(want: PageState) returns (f: nat)
      requires ListsOk() && CountsOk() && Ok(Abs()) && Wanted(want)
      modifies Repr()
      ensures ListsOk() && CountsOk()
      ensures Region(old(Abs()), want) == [] ==> f == NOPAGE && Abs() == old(Abs())
      ensures Region(old(Abs()), want) != [] ==>
                && f == Last(Region(old(Abs()), want)) && f < pageArr.Length && f != NOPAGE
                && free == (if want == PgNormal then old(free) else Front(old(free)))
                && mappable == (if want == PgNormal then Front(old(mappable)) else old(mappable))
                && occupied == (if want == PgPool then old(occupied) else [f] + old(occupied))
                && StatesOf(pageArr[..]) == StatesOf(old(pageArr[..]))[f := want]
                && (want == PgPool ==> pageArr[f].next == NOPAGE && pageArr[f].prev == NOPAGE)
      ensures forall g :: 0 <= g < pageArr.Length && old(pageArr[g].state) == PgPool ==> pageArr[g] == old(pageArr[g])
    {
      hide Chain, HeadClean, TailClean, Distinct;
      RegionIs(Abs(), want);
      if want == PgKernel || want == PgPool {
        f := PopFree(want);
      } else {
        f := PopMap(want);
      }
      if f == NOPAGE {
        return;
      }
      memFreeCnt := memFreeCnt - 1;
      if want == PgKernel || want == PgNormal {
        memOccupiedCnt := memOccupiedCnt + 1;
        PushOccupied(f);
      }
      assert StatesOf(pageArr[..]) == StatesOf(old(pageArr[..]))[f := want];
    }

    lemma RegionIs(a: Alloc, want: PageState)
      requires Ok(a)
      ensures Region(a, want) != [] ==>
                var f := Last(Region(a, want));
                f != NOPAGE && f < |a.state| && a.state[f] == PgAvailable && f !in a.occupied
                && (want == PgNormal ==> f !in a.free && f !in Front(a.mappable))
                && (want != PgNormal ==> f !in a.mappable && f !in Front(a.free))
    {
      if Region(a, want) != [] {
        FrontIs(Region(a, want));
      }
    }

    /** frame_alloc */
    method FrameAlloc(want: PageState) returns (r: AllocResult)
      requires Valid()
      modifies Repr()
      ensures Valid()
      ensures (Abs(), r) == AllocStep(old(Abs()), want)
      ensures r.Frame? <==> Wanted(want) && old(if want == PgNormal then mappable else free) != []
      ensures r == NoFrame <==> old(free) == old(mappable) == []
      ensures r.Frame? ==> old(if want == PgNormal then mappable else free) == (if want == PgNormal then mappable else free) + [r.pfn]
      ensures r.Frame? ==> r.pfn < pageArr.Length && pageArr[r.pfn].state == want
      ensures r.Frame? && want == PgPool ==>
                r.pfn < pageArr.Length && pageArr[r.pfn].next == NOPAGE && pageArr[r.pfn].prev == NOPAGE
      ensures forall f :: 0 <= f < pageArr.Length && old(pageArr[f].state) == PgPool ==> pageArr[f] == old(pageArr[f])
    {
      hide Chain, HeadClean, TailClean, Distinct, ListsOk, Ok, AllocStep, Last, Front;
      ghost var a := Abs();
      AllocOk(a, want);
      AllocAnswers(a, want);
      if memFreeCnt == 0 {
        return NoFrame;
      }
      if want != PgKernel && want != PgNormal && want != PgPool {
        return AssertFailed;
      }
      var freeFrame := TakeFrame(want);
      StepTakes(a, Abs(), want, freeFrame);
      if freeFrame == NOPAGE {
        return AssertFailed;
      }
      r := Frame(freeFrame);
    }

    lemma StepTakes(a: Alloc, b: Alloc, want: PageState, f: nat)
      requires Ok(a) && Wanted(want) && |a.free| + |a.mappable| > 0
      requires Region(a, want) != [] ==>
                 && f == Last(Region(a, want)) && f < |a.state| && b.state == a.state[f := want]
                 && b.free == (if want == PgNormal then a.free else Front(a.free))
                 && b.mappable == (if want == PgNormal then Front(a.mappable) else a.mappable)
                 && b.occupied == (if want == PgPool then a.occupied else [f] + a.occupied)
      ensures AllocStep(a, want) == if Region(a, want) == [] then (a, AssertFailed) else (b, Frame(f))
    {
    }

    /**
     frame_release.  The caller's frame must be handed out; otherwise only the free counter moves
     and the counters no longer match the lists.
    */
    method FrameRelease(fn: nat)
      requires Valid() && fn < pageArr.Length
      modifies Repr()
      ensures Valid() <==> Releasable(old(pageArr[fn].state))
      ensures ListsOk() && Ok(Abs()) && Abs() == ReleaseStep(old(Abs()), fn)
      ensures memOccupiedCnt == |occupied|
      ensures memFreeCnt == |old(free)| + |old(mappable)| + 1
      ensures forall f :: 0 <= f < pageArr.Length && f != fn && old(pageArr[f].state) == PgPool ==> pageArr[f] == old(pageArr[f])
    {
      hide Chain, HeadClean, TailClean, Remove, Distinct;
      ReleaseOk(Abs(), fn);
      if pageArr[fn].state == PgKernel {
        memOccupiedCnt := memOccupiedCnt - 1;
        RemoveOccupied(fn);
        PushFree(fn);
      } else if pageArr[fn].state == PgNormal {
        memOccupiedCnt := memOccupiedCnt - 1;
        RemoveOccupied(fn);
        PushMap(fn);
      } else if pageArr[fn].state == PgPool {
        FreeUnlisted(fn);
        PushFree(fn);
      }
      memFreeCnt := memFreeCnt + 1;
      assert StatesOf(pageArr[..]) == ReleaseStep(old(Abs()), fn).state;
    }
  }
}
