/**
 A kernel tree without the second level-3 entry of the top 2 GB, a user space made from it, and one
 kernel mapping that adds the entry: the user space does not see the page.

 Frame 1 is the kernel's root, 0 that of the user space; 2 and 5 are their tables at [511], 3 and 4 the
 common tables of the first half of the top 2 GB; 6 and 7 are free and become tables.
*/
module LateEntry {
  import opened DistinctSeq
  import opened Options
  import opened PageTables
  import opened PageWalk
  import opened UserSpace

  const LATE_PAGE: nat := DIRECT_BASE + 0x4_0000
  const LOW_TABLE := Node(1, 0x7ff_fc00)
  const LATE_TABLE := Node(1, 0x7ff_fe00)

  function One(i: nat, v: nat): (r: seq<nat>)
    requires i < 512
    ensures |r| == 512 && forall j :: 0 <= j < 512 ==> r[j] == if j == i then v else 0
  {
    Zeros()[i := v]
  }

  function Two(i: nat, v: nat, j: nat, w: nat): (r: seq<nat>)
    requires i < j < 512
    ensures |r| == 512 && forall k :: 0 <= k < 512 ==> r[k] == if k == i then v else if k == j then w else 0
  {
    With(One(i, v), j, w)
  }

  function Before(): Memory {
    [One(511, TableEntry(5)), One(511, TableEntry(2)), One(510, TableEntry(3)), One(0, TableEntry(4)), Zeros(),
     One(510, TableEntry(3)), Zeros(), Zeros()]
  }

  function After(): Memory {
    [One(511, TableEntry(5)), One(511, TableEntry(2)), Two(510, TableEntry(3), 511, TableEntry(6)), One(0, TableEntry(4)),
     Two(6, TableEntry(6), 7, TableEntry(7)), One(510, TableEntry(3)), One(0, TableEntry(7)), One(0, 25)]
  }

  lemma WordsBefore(i: nat)
    requires i < 512
    ensures var m := Before();
            && Word(m, 0, i) == (if i == 511 then TableEntry(5) else 0)
            && Word(m, 1, i) == (if i == 511 then TableEntry(2) else 0)
            && Word(m, 2, i) == (if i == 510 then TableEntry(3) else 0)
            && Word(m, 3, i) == (if i == 0 then TableEntry(4) else 0)
            && Word(m, 4, i) == 0
            && Word(m, 5, i) == (if i == 510 then TableEntry(3) else 0)
  {
    hide TableEntry, Zeros, One;
  }

  lemma WordsAfter(i: nat)
    requires i < 512
    ensures var m := After();
            && Word(m, 1, i) == (if i == 511 then TableEntry(2) else 0)
            && Word(m, 2, i) == (if i == 510 then TableEntry(3) else if i == 511 then TableEntry(6) else 0)
            && Word(m, 3, i) == (if i == 0 then TableEntry(4) else 0)
            && Word(m, 4, i) == (if i == 6 then TableEntry(6) else if i == 7 then TableEntry(7) else 0)
            && Word(m, 6, i) == (if i == 0 then TableEntry(7) else 0)
            && Word(m, 7, i) == (if i == 0 then 25 else 0)
  {
    hide TableEntry, Zeros, One, Two;
  }

  /** What the walks find. */
  ghost function UserBefore(n: Node): Option<nat> {
    if n.level >= 4 then Some(1) else if n == Node(3, 511) then Some(TableEntry(5)) else Common3(n)
  }

  ghost function KernelBefore(n: Node): Option<nat> {
    if n.level >= 4 then Some(4097) else if n == Node(3, 511) then Some(TableEntry(2)) else Common3(n)
  }

  ghost function Common3(n: Node): Option<nat> {
    if n == TOP_LOW then Some(TableEntry(3)) else if n == LOW_TABLE then Some(TableEntry(4)) else None
  }

  ghost function KernelAfter(n: Node): Option<nat> {
    if n == TOP_HIGH then Some(TableEntry(6)) else if n == LATE_TABLE then Some(TableEntry(7))
    else if n == Node(0, LATE_PAGE) then Some(25)
    else if n == Node(0, DirectPage(6)) then Some(TableEntry(6))
    else if n == Node(0, DirectPage(7)) then Some(TableEntry(7))
    else KernelBefore(n)
  }

  lemma Facts()
    ensures FrameOf(1) == 0 && FrameOf(4097) == 1 && Present(25) && !Present(0) && Leaf(1) == Some(25)
    ensures forall f :: 0 <= f < 8 ==> Present(TableEntry(f)) && FrameOf(TableEntry(f)) == f
  {
    forall f: nat | f < 8
      ensures Present(TableEntry(f)) && FrameOf(TableEntry(f)) == f
    {
      TableEntryIsCached(f);
    }
  }

  lemma {:induction false} EntriesBefore(n: Node)
    requires IsNode(n)
    ensures Entry(Before(), 0, n) == UserBefore(n) && Entry(Before(), 1, n) == KernelBefore(n)
    decreases 4 - n.level
  {
    hide Word, Before, TableEntry, Present, FrameOf;
    Facts();
    if n.level < 4 {
      UpIsNode(n);
      EntriesBefore(Up(n));
      WordsBefore(n.prefix % 512);
    }
  }

  lemma {:induction false} EntriesAfter(n: Node)
    requires IsNode(n)
    ensures Entry(After(), 1, n) == KernelAfter(n)
    decreases 4 - n.level
  {
    hide Word, After, TableEntry, Present, FrameOf;
    Facts();
    if n.level < 4 {
      UpIsNode(n);
      EntriesAfter(Up(n));
      WordsAfter(n.prefix % 512);
    }
  }

  lemma AllBefore()
    ensures forall n: Node | IsNode(n) :: Entry(Before(), 0, n) == UserBefore(n) && Entry(Before(), 1, n) == KernelBefore(n)
  {
    hide Entry, UserBefore, KernelBefore;
    forall n: Node | IsNode(n)
      ensures Entry(Before(), 0, n) == UserBefore(n) && Entry(Before(), 1, n) == KernelBefore(n)
    {
      EntriesBefore(n);
    }
  }

  lemma AllAfter()
    ensures forall n: Node | IsNode(n) :: Entry(After(), 1, n) == KernelAfter(n)
  {
    hide Entry, KernelAfter;
    forall n: Node | IsNode(n)
      ensures Entry(After(), 1, n) == KernelAfter(n)
    {
      EntriesAfter(n);
    }
  }

  lemma SizesBefore()
    ensures WellSized(Before()) && |Before()| == 8 && Blank(Before(), 6) && Blank(Before(), 7)
  {
    hide TableEntry;
  }

  lemma UserTree()
    ensures Tree(Before(), 0) && !IsTable(Before(), 0, 6) && !IsTable(Before(), 0, 7)
  {
    hide Entry, Before, TableEntry, FrameOf, Present;
    Facts();
    SizesBefore();
    AllBefore();
  }

  lemma KernelTree()
    ensures Tree(Before(), 1) && !IsTable(Before(), 1, 6) && !IsTable(Before(), 1, 7)
  {
    hide Entry, Before, TableEntry, FrameOf, Present;
    Facts();
    SizesBefore();
    AllBefore();
  }

  lemma InvBefore()
    ensures Inv(Before(), 0, [7, 6]) && Inv(Before(), 1, [7, 6])
  {
    hide Before, WellSized, Blank, Tree, IsTable;
    SizesBefore();
    UserTree();
    KernelTree();
  }

  lemma JointBefore()
    ensures Borrowed(Before(), 1) == {TOP_LOW} && Joint(Before(), 0, 1, [7, 6], {TOP_LOW})
  {
    hide Entry, Before, TableEntry, FrameOf, Inv;
    Facts();
    InvBefore();
    AllBefore();
    assert Up(LOW_TABLE) == TOP_LOW;
    assert Under(TOP_LOW, {TOP_LOW}) && Under(LOW_TABLE, {TOP_LOW});
  }

  lemma SeesBefore()
    ensures SeesKernel(Before(), 0, 1)
  {
    hide Entry, Before;
    AllBefore();
  }

  lemma SizesAfter()
    ensures WellSized(After()) && |After()| == 8
    ensures forall f :: f in [0, 3, 5] ==> After()[f] == Before()[f]
  {
    hide TableEntry;
  }

  /** The node whose table is in frame `f`. */
  ghost function NodeOf(f: nat): Node {
    if f == 1 then Node(4, 0) else if f == 2 then Node(3, 511) else if f == 3 then TOP_LOW else if f == 4 then LOW_TABLE
    else if f == 6 then TOP_HIGH else LATE_TABLE
  }

  lemma TableAfter(n: Node)
    requires IsNode(n) && n.level >= 1 && Table(After(), 1, n).Some?
    ensures Table(After(), 1, n).value < 8 && n == NodeOf(Table(After(), 1, n).value)
  {
    hide Entry, After, TableEntry, FrameOf, Present, Leaf;
    Facts();
    EntriesAfter(n);
  }

  lemma InvAfter()
    ensures Inv(After(), 1, [])
  {
    hide Entry, Table, After, WellSized, NodeOf;
    SizesAfter();
    forall n: Node | IsNode(n) && n.level >= 1 && Table(After(), 1, n).Some?
      ensures Table(After(), 1, n).value < 8 && n == NodeOf(Table(After(), 1, n).value)
    {
      TableAfter(n);
    }
  }

  lemma GrownAfter()
    ensures Grown(Before(), After(), 1, [6, 7])
  {
    hide Entry, Before, After, TableEntry, FrameOf, WellSized;
    Facts();
    SizesBefore();
    SizesAfter();
    AllBefore();
    AllAfter();
    assert Table(After(), 1, Node(4, 0)) == Some(1) && Table(After(), 1, Node(3, 511)) == Some(2);
    assert Table(After(), 1, TOP_LOW) == Some(3) && Table(After(), 1, LOW_TABLE) == Some(4);
    assert Table(After(), 1, TOP_HIGH) == Some(6) && Table(After(), 1, LATE_TABLE) == Some(7);
  }

  lemma UpdatedAfter()
    ensures Updated(Before(), After(), 1, [6, 7], LATE_PAGE, 1)
  {
    hide Entry, Before, After, TableEntry;
    Facts();
    AllBefore();
    AllAfter();
  }

  /** The mapping of the late page, which takes frames 6 and 7 for its tables. */
  ghost function Late(): Mapping {
    Mapping(After(), [], [6, 7], LATE_PAGE, 1)
  }

  /** The user space was made while the level-3 entry was missing; the kernel then maps a page below it. */
  lemma LateEntryExample()
    ensures Joint(Before(), 0, 1, [7, 6], Borrowed(Before(), 1)) && SeesKernel(Before(), 0, 1)
    ensures KernelRun(Before(), [7, 6], 1, [Late()]) && EndOf(Before(), [7, 6], [Late()]).0 == After()
    ensures Entry(Before(), 1, TopOf(LATE_PAGE)).None?
    ensures Walk(After(), 1, LATE_PAGE) == Some(25) && Walk(After(), 0, LATE_PAGE) == None
  {
    hide Entry, Before, After, Inv, Joint, Grown, Updated, SeesKernel, Borrowed;
    JointBefore();
    SeesBefore();
    InvAfter();
    GrownAfter();
    UpdatedAfter();
    AllBefore();
    AllAfter();
    assert [Late()][1..] == [];
    LaterSeenIff(Before(), [7, 6], 0, 1, [Late()], LATE_PAGE);
    KernelRunSeen(Before(), [7, 6], 0, 1, {TOP_LOW}, [Late()], LATE_PAGE);
    TopUnder(LATE_PAGE, {TOP_LOW});
  }
}
