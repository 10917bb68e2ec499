/**
 User address spaces of kernel/memory/page.c: `create_user_page` makes a root of its own that refers
 to tables of the kernel's tree, so that the top 2 GB and the PCI window look the same from both.
*/
module UserSpace {
  import opened DistinctSeq
  import opened FrameAllocator
  import opened Frames
  import opened Options
  import opened PageTables
  import opened PageWalk

  // ---------------------------------------------------------------------------------------------
  // Two roots with common tables
  // ---------------------------------------------------------------------------------------------

  /** `n` is one of the level-2 nodes `s` or below one. */
  ghost predicate Under(n: Node, s: set<Node>)
    decreases 2 - n.level
  {
    if n.level >= 2 then n in s else Under(Up(n), s)
  }

  /** The tables at the nodes `s` are common to both trees. */
  ghost predicate Common(m: Memory, a: nat, b: nat, s: set<Node>) {
    forall t: Node :: t in s ==> IsNode(t) && t.level == 2 && Entry(m, a, t).Some? && Entry(m, b, t) == Entry(m, a, t)
  }

  /** Trees that have the tables at and below `s` in common and no others. */
  ghost predicate Joint(m: Memory, a: nat, b: nat, free: seq<nat>, s: set<Node>) {
    && Inv(m, a, free) && Inv(m, b, free) && Common(m, a, b, s)
    && forall x, y | IsNode(x) && IsNode(y) && x.level >= 1 && y.level >= 1 ::
         Table(m, a, x).Some? && Table(m, a, x) == Table(m, b, y) ==> Under(x, s) && Under(y, s)
  }

  lemma {:induction false} UnderSame(m: Memory, a: nat, b: nat, s: set<Node>, n: Node)
    requires Common(m, a, b, s) && IsNode(n) && Under(n, s)
    ensures Entry(m, a, n) == Entry(m, b, n)
    decreases 4 - n.level
  {
    if n.level < 2 {
      UnderSame(m, a, b, s, Up(n));
    }
  }

  /** A table of `b` alone is not touched when the tree of `a` grows. */
  lemma PrivateTable(m0: Memory, m1: Memory, a: nat, b: nat, free: seq<nat>, s: set<Node>, news: seq<nat>, n: Node)
    requires Joint(m0, a, b, free, s) && Grown(m0, m1, a, news) && forall f :: f in news ==> f in free
    requires IsNode(n) && n.level >= 1 && !Under(n, s) && Table(m0, b, n).Some?
    ensures Table(m0, b, n).value < |m0| && !IsTable(m1, a, Table(m0, b, n).value)
    ensures m1[Table(m0, b, n).value] == m0[Table(m0, b, n).value]
  {
    hide Entry;
    var g := Table(m0, b, n).value;
    assert IsTable(m0, b, g);
    forall x: Node | IsNode(x) && x.level >= 1
      ensures Table(m1, a, x) == Some(g) ==> Table(m0, a, x) == Some(g) || g in news
    {
    }
  }

  lemma {:induction false} PrivateSame(m0: Memory, m1: Memory, a: nat, b: nat, free: seq<nat>, s: set<Node>, news: seq<nat>,
                                       n: Node)
    requires Joint(m0, a, b, free, s) && Grown(m0, m1, a, news) && forall f :: f in news ==> f in free
    requires IsNode(n) && (n.level >= 2 || !Under(n, s))
    ensures Entry(m1, b, n) == Entry(m0, b, n)
    decreases 4 - n.level
  {
    if n.level < 4 {
      assert IsNode(Up(n)) && !Under(Up(n), s);
      PrivateSame(m0, m1, a, b, free, s, news, Up(n));
      if Table(m0, b, Up(n)).Some? {
        PrivateTable(m0, m1, a, b, free, s, news, Up(n));
      }
    }
  }

  /** A table of both trees afterwards is a common one. */
  lemma StillApart(m0: Memory, m1: Memory, a: nat, b: nat, free: seq<nat>, s: set<Node>, news: seq<nat>, x: Node, y: Node)
    requires Joint(m0, a, b, free, s) && Grown(m0, m1, a, news) && forall f :: f in news ==> f in free
    requires IsNode(x) && IsNode(y) && x.level >= 1 && y.level >= 1
    requires Table(m1, a, x).Some? && Table(m1, a, x) == Table(m1, b, y)
    ensures Under(y, s)
  {
    if !Under(y, s) {
      PrivateSame(m0, m1, a, b, free, s, news, y);
      PrivateTable(m0, m1, a, b, free, s, news, y);
    }
  }

  lemma StillCommon(m0: Memory, m1: Memory, a: nat, b: nat, free: seq<nat>, s: set<Node>, news: seq<nat>)
    requires Joint(m0, a, b, free, s) && Grown(m0, m1, a, news) && forall f :: f in news ==> f in free
    ensures Common(m1, a, b, s)
  {
    hide Entry, Inv;
    forall t: Node | t in s
      ensures IsNode(t) && t.level == 2 && Entry(m1, a, t).Some? && Entry(m1, b, t) == Entry(m1, a, t)
    {
      PrivateSame(m0, m1, a, b, free, s, news, t);
    }
  }

  lemma StillTree(m0: Memory, m1: Memory, a: nat, b: nat, free: seq<nat>, s: set<Node>, news: seq<nat>, free1: seq<nat>)
    requires Joint(m0, a, b, free, s) && Grown(m0, m1, a, news) && Inv(m1, a, free1)
    requires (forall f :: f in news ==> f in free) && (forall f :: f in free1 ==> f in free)
    requires Common(m1, a, b, s)
    ensures Inv(m1, b, free1)
  {
    hide Entry, Under;
    forall n | IsNode(n) && n.level >= 1
      ensures Under(n, s) ==> Table(m1, b, n) == Table(m1, a, n)
      ensures !Under(n, s) ==> Table(m1, b, n) == Table(m0, b, n)
    {
      if Under(n, s) {
        UnderSame(m1, a, b, s, n);
      } else {
        PrivateSame(m0, m1, a, b, free, s, news, n);
      }
    }
    assert Tree(m1, b) by {
      forall x, y | IsNode(x) && IsNode(y) && x.level >= 1 && y.level >= 1 && Table(m1, b, x).Some? && Table(m1, b, x) == Table(m1, b, y)
        ensures x == y
      {
        if Under(x, s) {
          StillApart(m0, m1, a, b, free, s, news, x, y);
        } else if Under(y, s) {
          StillApart(m0, m1, a, b, free, s, news, y, x);
        }
      }
    }
    forall f | f in free1
      ensures !IsTable(m1, b, f)
    {
      forall n: Node | IsNode(n) && n.level >= 1
        ensures Table(m1, b, n) == Some(f) ==> Table(m1, a, n) == Some(f) || Table(m0, b, n) == Some(f)
      {
      }
    }
  }

  /**
   Growth of one tree, seen from the other: common pages are the same from both roots, and pages of
   its own stay as they were.
  */
  lemma OtherRoot(m0: Memory, m1: Memory, a: nat, b: nat, free: seq<nat>, s: set<Node>, news: seq<nat>, free1: seq<nat>)
    requires Joint(m0, a, b, free, s) && Grown(m0, m1, a, news) && Inv(m1, a, free1) && Popped(free, news, free1)
    ensures Joint(m1, a, b, free1, s)
    ensures forall p :: 0 <= p < PAGES ==>
              Walk(m1, b, p) == if Under(Node(0, p), s) then Walk(m1, a, p) else Walk(m0, b, p)
  {
    hide Entry, Under, Inv, Grown;
    StillCommon(m0, m1, a, b, free, s, news);
    StillTree(m0, m1, a, b, free, s, news, free1);
    forall x, y | IsNode(x) && IsNode(y) && x.level >= 1 && y.level >= 1 && Table(m1, a, x).Some? && Table(m1, a, x) == Table(m1, b, y)
      ensures Under(x, s) && Under(y, s)
    {
      StillApart(m0, m1, a, b, free, s, news, x, y);
      UnderSame(m1, a, b, s, y);
      SameTable(m1, a, free1, x, y);
    }
    forall p | 0 <= p < PAGES
      ensures Walk(m1, b, p) == if Under(Node(0, p), s) then Walk(m1, a, p) else Walk(m0, b, p)
    {
      if Under(Node(0, p), s) {
        UnderSame(m1, a, b, s, Node(0, p));
      } else {
        PrivateSame(m0, m1, a, b, free, s, news, Node(0, p));
      }
    }
  }

  lemma SameTable(m: Memory, a: nat, free: seq<nat>, x: Node, y: Node)
    requires Inv(m, a, free) && IsNode(x) && IsNode(y) && x.level >= 1 && y.level >= 1
    requires Table(m, a, x).Some? && Table(m, a, x) == Table(m, a, y)
    ensures x == y
  {
  }

  // ---------------------------------------------------------------------------------------------
  // The tables of a new user space
  // ---------------------------------------------------------------------------------------------

  // pml, pml_0, pml_511, pml_0_2 and pml_0_2_511
  datatype Five = Five(root: nat, low: nat, high: nat, pci: nat, window: nat)

  const TOP_LOW := Node(2, 511 * 512 + 510)
  const TOP_HIGH := Node(2, 511 * 512 + 511)
  const PCI_HIGH := Node(2, 3)
  const WINDOW := Node(1, 2 * 512 + 511)

  /** mk_page_entry(f, MMU_US | MMU_P | MMU_RW) */
  function UserEntry(f: nat): nat {
    f * 4096 + 7
  }

  lemma UserEntryIs(f: nat)
    ensures Present(UserEntry(f)) && FrameOf(UserEntry(f)) == f && Leaf(UserEntry(f)) == Some(TableEntry(f))
  {
    var v := UserEntry(f);
    Div32(128 * f, v, 7);
    Mod8(512 * f, v, 7);
    Mod2(2048 * f + 3, v);
    Div4096(f, v, 7);
  }

  ghost predicate IsFive(fr: Five, f: nat) {
    f == fr.root || f == fr.low || f == fr.high || f == fr.pci || f == fr.window
  }

  ghost predicate DistinctFive(fr: Five) {
    Distinct([fr.root, fr.low, fr.high, fr.pci, fr.window])
  }

  /** Five frames that are neither tables of the kernel nor free. */
  ghost predicate FreshFive(m: Memory, k: nat, free: seq<nat>, fr: Five) {
    DistinctFive(fr) && forall f: nat :: IsFive(fr, f) ==> f < |m| && !IsTable(m, k, f) && f !in free
  }

  /** The kernel's slot for a node. */
  ghost function Slot(m: Memory, k: nat, n: Node): nat {
    match Table(m, k, Up(n))
    case None => 0
    case Some(f) => Word(m, f, n.prefix % 512)
  }

  ghost predicate HasRow(m: Memory, f: nat) {
    f < |m| && |m[f]| == 512
  }

  /** The five tables as create_user_page writes them, with the words it copies from the kernel's tables in `m`. */
  ghost predicate Built(m: Memory, m': Memory, k: nat, fr: Five) {
    && |m'| == |m| && (forall f :: 0 <= f < |m| && !IsFive(fr, f) ==> m'[f] == m[f])
    && HasRow(m', fr.root) && HasRow(m', fr.low) && HasRow(m', fr.high) && HasRow(m', fr.pci) && HasRow(m', fr.window)
    && (forall i {:trigger m'[fr.root][i]} :: 0 <= i < 512 ==>
          m'[fr.root][i] == if i == 0 then UserEntry(fr.low) else if i == 511 then UserEntry(fr.high) else 0)
    && (forall i {:trigger m'[fr.low][i]} :: 0 <= i < 512 ==>
          m'[fr.low][i] == if i == 2 then UserEntry(fr.pci) else if i == 3 then Slot(m, k, Node(2, i)) else 0)
    && (forall i {:trigger m'[fr.high][i]} :: 0 <= i < 512 ==>
          m'[fr.high][i] == if i >= 510 then Slot(m, k, Node(2, 511 * 512 + i)) else 0)
    && (forall i {:trigger m'[fr.pci][i]} :: 0 <= i < 512 ==>
          m'[fr.pci][i] == if i == 511 then UserEntry(fr.window) else 0)
    && (forall i {:trigger m'[fr.window][i]} :: 0 <= i < 512 ==>
          m'[fr.window][i] == if i >= 224 then Slot(m, k, Node(0, 1535 * 512 + i)) else 0)
  }

  /** The nodes at which the two trees can have common tables. */
  ghost function Borrowed(m: Memory, k: nat): set<Node> {
    set t | t in {PCI_HIGH, TOP_LOW, TOP_HIGH} && Entry(m, k, t).Some?
  }

  ghost predicate Shares(n: Node)
    decreases 2 - n.level
  {
    if n.level >= 2 then n == PCI_HIGH || n == TOP_LOW || n == TOP_HIGH else Shares(Up(n))
  }

  /** What the walk from the new root finds for a node. */
  ghost function View(m: Memory, k: nat, fr: Five, n: Node): Option<nat>
    requires n.level <= 3
  {
    if n == Node(3, 0) then Some(UserEntry(fr.low))
    else if n == Node(3, 511) then Some(UserEntry(fr.high))
    else if n == Node(2, 2) then Some(UserEntry(fr.pci))
    else if n == WINDOW then Some(UserEntry(fr.window))
    else if Shares(n) || (n.level == 0 && Up(n) == WINDOW && n.prefix % 512 >= 224) then Entry(m, k, n)
    else None
  }

  lemma SlotIsEntry(m: Memory, k: nat, n: Node)
    requires n.level <= 3 && Table(m, k, Up(n)).Some?
    ensures Entry(m, k, n) == if Present(Slot(m, k, n)) then Some(Slot(m, k, n)) else None
  {
  }

  /** The kernel's tree is not touched. */
  lemma {:induction false} KernelSame(m: Memory, m': Memory, k: nat, fr: Five, n: Node)
    requires WellSized(m) && Tree(m, k) && Built(m, m', k, fr) && IsNode(n)
    requires forall f: nat :: IsFive(fr, f) ==> !IsTable(m, k, f)
    ensures Entry(m', k, n) == Entry(m, k, n)
    decreases 4 - n.level
  {
    if n.level < 4 {
      assert IsNode(Up(n));
      KernelSame(m, m', k, fr, Up(n));
      if Table(m, k, Up(n)).Some? {
        assert IsTable(m, k, Table(m, k, Up(n)).value);
      }
    }
  }

  ghost predicate KernelReady(m: Memory, k: nat) {
    Entry(m, k, Node(3, 0)).Some? && Entry(m, k, Node(3, 511)).Some? && Entry(m, k, Node(2, 2)).Some? && Entry(m, k, WINDOW).Some?
  }

  lemma BuiltTop(m: Memory, m': Memory, k: nat, fr: Five, i: nat)
    requires Built(m, m', k, fr) && i < 512
    ensures Entry(m', fr.root, Node(3, i)) == View(m, k, fr, Node(3, i))
  {
    assert Up(Node(3, i)) == Node(4, 0) && FrameOf(fr.root * 4096 + 1) == fr.root;
    UserEntryIs(fr.low);
    UserEntryIs(fr.high);
    assert Word(m', fr.root, i) == m'[fr.root][i];
  }

  lemma BuiltSecond(m: Memory, m': Memory, k: nat, fr: Five, q: nat)
    requires Built(m, m', k, fr) && q < Bound(2) && KernelReady(m, k)
    ensures Entry(m', fr.root, Node(2, q)) == View(m, k, fr, Node(2, q))
  {
    var n := Node(2, q);
    BuiltTop(m, m', k, fr, q / 512);
    UserEntryIs(fr.low);
    UserEntryIs(fr.high);
    UserEntryIs(fr.pci);
    assert Up(n) == Node(3, q / 512);
    if q / 512 == 0 {
      assert Word(m', fr.low, q) == m'[fr.low][q];
      if q == 3 {
        SlotIsEntry(m, k, n);
      }
    } else if q / 512 == 511 {
      var i := q - 511 * 512;
      assert Word(m', fr.high, i) == m'[fr.high][i];
      if i >= 510 {
        SlotIsEntry(m, k, n);
      }
    }
  }

  lemma ViewShared(m: Memory, k: nat, fr: Five, n: Node)
    requires n.level <= 2 && Shares(n)
    ensures View(m, k, fr, n) == Entry(m, k, n)
    ensures n.level < 2 ==> Shares(Up(n))
  {
    hide Entry;
    assert Up(WINDOW) == Node(2, 2);
  }

  lemma BuiltFirst(m: Memory, m': Memory, k: nat, fr: Five, q: nat)
    requires WellSized(m) && Tree(m, k) && Built(m, m', k, fr) && q < Bound(1) && KernelReady(m, k)
    requires forall f: nat :: IsFive(fr, f) ==> !IsTable(m, k, f)
    ensures Entry(m', fr.root, Node(1, q)) == View(m, k, fr, Node(1, q))
  {
    hide IsFive, Entry, Built, FrameOf, UserEntry, Word, Tree, WellSized, IsTable, KernelReady;
    var n := Node(1, q);
    BuiltSecond(m, m', k, fr, q / 512);
    assert Up(n) == Node(2, q / 512);
    UserEntryIs(fr.pci);
    UserEntryIs(fr.window);
    if Shares(n) {
      ViewShared(m, k, fr, n);
      ViewShared(m, k, fr, Up(n));
      SharedBelow(m, m', k, fr, n);
    } else {
      Child(m', fr.root, n);
      if q / 512 == 2 {
        PciRow(m', m, k, fr, q % 512);
      }
    }
  }

  lemma PciRow(m': Memory, m: Memory, k: nat, fr: Five, i: nat)
    requires Built(m, m', k, fr) && i < 512
    ensures Word(m', fr.pci, i) == if i == 511 then UserEntry(fr.window) else 0
  {
    assert IsFive(fr, fr.pci);
    assert m'[fr.pci][i] == if i == 511 then UserEntry(fr.window) else 0;
  }

  lemma WindowRow(m': Memory, m: Memory, k: nat, fr: Five, i: nat)
    requires Built(m, m', k, fr) && i < 512
    ensures Word(m', fr.window, i) == if i >= 224 then Slot(m, k, Node(0, 1535 * 512 + i)) else 0
  {
    assert IsFive(fr, fr.window);
    assert m'[fr.window][i] == if i >= 224 then Slot(m, k, Node(0, 1535 * 512 + i)) else 0;
  }

  /** Below a common table both walks read the same words. */
  lemma SharedBelow(m: Memory, m': Memory, k: nat, fr: Five, n: Node)
    requires WellSized(m) && Tree(m, k) && Built(m, m', k, fr) && IsNode(n) && n.level < 2
    requires forall f: nat :: IsFive(fr, f) ==> !IsTable(m, k, f)
    requires Entry(m', fr.root, Up(n)) == Entry(m, k, Up(n))
    ensures Entry(m', fr.root, n) == Entry(m, k, n)
  {
    hide IsFive;
    assert IsNode(Up(n));
    if Table(m, k, Up(n)).Some? {
      var g := Table(m, k, Up(n)).value;
      assert IsTable(m, k, g);
      assert m'[g] == m[g];
    }
  }

  lemma BuiltLeaf(m: Memory, m': Memory, k: nat, fr: Five, p: nat)
    requires WellSized(m) && Tree(m, k) && Built(m, m', k, fr) && p < PAGES && KernelReady(m, k)
    requires forall f: nat :: IsFive(fr, f) ==> !IsTable(m, k, f)
    ensures Entry(m', fr.root, Node(0, p)) == View(m, k, fr, Node(0, p))
  {
    hide IsFive, Entry, Built, FrameOf, UserEntry, Word, Tree, WellSized, IsTable, Slot;
    var n := Node(0, p);
    BuiltFirst(m, m', k, fr, p / 512);
    assert Up(n) == Node(1, p / 512);
    UserEntryIs(fr.window);
    if Shares(n) {
      ViewShared(m, k, fr, n);
      ViewShared(m, k, fr, Up(n));
      SharedBelow(m, m', k, fr, n);
    } else {
      Child(m', fr.root, n);
      if Up(n) == WINDOW {
        WindowRow(m', m, k, fr, p % 512);
        if p % 512 >= 224 {
          HasTable(m, k, WINDOW);
          SlotIsEntry(m, k, n);
        }
      }
    }
  }

  lemma HasTable(m: Memory, k: nat, n: Node)
    requires Entry(m, k, n).Some?
    ensures Table(m, k, n).Some?
  {
  }

  lemma BuiltEntry(m: Memory, m': Memory, k: nat, fr: Five, n: Node)
    requires WellSized(m) && Tree(m, k) && Built(m, m', k, fr) && IsNode(n) && n.level <= 3 && KernelReady(m, k)
    requires forall f: nat :: IsFive(fr, f) ==> !IsTable(m, k, f)
    ensures Entry(m', fr.root, n) == View(m, k, fr, n)
  {
    hide Built, Entry, View;
    if n.level == 3 {
      BuiltTop(m, m', k, fr, n.prefix);
    } else if n.level == 2 {
      BuiltSecond(m, m', k, fr, n.prefix);
    } else if n.level == 1 {
      BuiltFirst(m, m', k, fr, n.prefix);
    } else {
      BuiltLeaf(m, m', k, fr, n.prefix);
    }
  }

  // ---------------------------------------------------------------------------------------------
  // The new tree and the kernel's
  // ---------------------------------------------------------------------------------------------

  /** The nodes at which the new tree has tables of its own. */
  ghost function Own(fr: Five, n: Node): Option<nat> {
    if n == Node(4, 0) then Some(fr.root)
    else if n == Node(3, 0) then Some(fr.low)
    else if n == Node(3, 511) then Some(fr.high)
    else if n == Node(2, 2) then Some(fr.pci)
    else if n == WINDOW then Some(fr.window)
    else None
  }

  lemma BuiltTable(m: Memory, m': Memory, k: nat, fr: Five, n: Node)
    requires WellSized(m) && Tree(m, k) && Built(m, m', k, fr) && IsNode(n) && n.level >= 1 && KernelReady(m, k)
    requires forall f: nat :: IsFive(fr, f) ==> !IsTable(m, k, f)
    ensures Table(m', fr.root, n) == if Own(fr, n).Some? then Own(fr, n) else if Shares(n) then Table(m, k, n) else None
  {
    hide Built, Entry, WellSized, Tree, KernelReady, IsTable, FrameOf, UserEntry;
    if n.level == 4 {
      RootIs(m', fr.root);
    } else {
      BuiltEntry(m, m', k, fr, n);
      UserEntryIs(fr.low);
      UserEntryIs(fr.high);
      UserEntryIs(fr.pci);
      UserEntryIs(fr.window);
    }
  }

  lemma RootIs(m: Memory, root: nat)
    ensures Table(m, root, Node(4, 0)) == Some(root)
  {
    assert FrameOf(root * 4096 + 1) == root;
  }

  lemma OwnIsFive(fr: Five, x: Node, y: Node)
    ensures Own(fr, x).Some? ==> IsFive(fr, Own(fr, x).value)
    ensures DistinctFive(fr) && Own(fr, x).Some? && Own(fr, x) == Own(fr, y) ==> x == y
  {
    if DistinctFive(fr) {
      var l := [fr.root, fr.low, fr.high, fr.pci, fr.window];
      assert l[0] != l[1] && l[0] != l[2] && l[0] != l[3] && l[0] != l[4] && l[1] != l[2] && l[1] != l[3] && l[1] != l[4];
      assert l[2] != l[3] && l[2] != l[4] && l[3] != l[4];
    }
  }

  lemma BuiltTree(m: Memory, m': Memory, k: nat, fr: Five)
    requires WellSized(m) && Tree(m, k) && Built(m, m', k, fr) && KernelReady(m, k) && DistinctFive(fr)
    requires forall f: nat :: IsFive(fr, f) ==> f < |m| && !IsTable(m, k, f)
    ensures Tree(m', fr.root)
  {
    hide Built, Entry, WellSized, KernelReady, IsFive, Own, Table, Shares, DistinctFive, IsTable, Tree;
    assert |m'| == |m| by { BuiltSize(m, m', k, fr); }
    forall n | IsNode(n) && n.level >= 1
      ensures Table(m', fr.root, n) == if Own(fr, n).Some? then Own(fr, n) else if Shares(n) then Table(m, k, n) else None
      ensures Own(fr, n).Some? ==> IsFive(fr, Own(fr, n).value)
    {
      BuiltTable(m, m', k, fr, n);
      OwnIsFive(fr, n, n);
    }
    TreeFrom(m', fr.root, m, k, fr);
  }

  lemma BuiltSize(m: Memory, m': Memory, k: nat, fr: Five)
    requires Built(m, m', k, fr)
    ensures |m'| == |m|
    ensures WellSized(m) ==> WellSized(m')
  {
  }

  lemma TreeFrom(m': Memory, root: nat, m: Memory, k: nat, fr: Five)
    requires Tree(m, k) && DistinctFive(fr) && |m'| == |m|
    requires forall f: nat :: IsFive(fr, f) ==> f < |m| && !IsTable(m, k, f)
    requires forall n | IsNode(n) && n.level >= 1 ::
               Table(m', root, n) == if Own(fr, n).Some? then Own(fr, n) else if Shares(n) then Table(m, k, n) else None
    ensures Tree(m', root)
  {
    hide Entry, IsFive, Own, Table, Shares, DistinctFive;
    forall n | IsNode(n) && n.level >= 1 && Table(m', root, n).Some?
      ensures Table(m', root, n).value < |m'|
      ensures IsFive(fr, Table(m', root, n).value) <==> Own(fr, n).Some?
    {
      OwnIsFive(fr, n, n);
    }
    forall x, y | IsNode(x) && IsNode(y) && x.level >= 1 && y.level >= 1 && Table(m', root, x).Some? && Table(m', root, x) == Table(m', root, y)
      ensures x == y
    {
      OwnIsFive(fr, x, y);
    }
  }

  /** A shared node with a table of the kernel is below a node whose table was present. */
  lemma {:induction false} SharedUnder(m: Memory, k: nat, n: Node)
    requires Shares(n) && Entry(m, k, n).Some?
    ensures Under(n, Borrowed(m, k))
    decreases 2 - n.level
  {
    if n.level < 2 {
      SharedUnder(m, k, Up(n));
    }
  }

  lemma BuiltKernel(m: Memory, m': Memory, k: nat, free: seq<nat>, fr: Five)
    requires Inv(m, k, free) && FreshFive(m, k, free, fr) && Built(m, m', k, fr)
    ensures Inv(m', k, free)
    ensures forall n | IsNode(n) :: Entry(m', k, n) == Entry(m, k, n)
    ensures forall f: nat :: IsTable(m', k, f) <==> IsTable(m, k, f)
  {
    hide Entry;
    BuiltSize(m, m', k, fr);
    forall n | IsNode(n)
      ensures Entry(m', k, n) == Entry(m, k, n)
    {
      KernelSame(m, m', k, fr, n);
    }
    assert forall n | IsNode(n) && n.level >= 1 :: Table(m', k, n) == Table(m, k, n);
  }

  lemma FiveFresh(m: Memory, k: nat, free: seq<nat>, fr: Five)
    requires FreshFive(m, k, free, fr)
    ensures DistinctFive(fr) && forall f: nat :: IsFive(fr, f) ==> f < |m| && !IsTable(m, k, f) && f !in free
  {
  }

  lemma BuiltUser(m: Memory, m': Memory, k: nat, free: seq<nat>, fr: Five)
    requires Inv(m, k, free) && FreshFive(m, k, free, fr) && Built(m, m', k, fr) && KernelReady(m, k)
    ensures Inv(m', fr.root, free)
  {
    hide Entry, Built, KernelReady, Own, Shares, DistinctFive, IsFive;
    FiveFresh(m, k, free, fr);
    BuiltTree(m, m', k, fr);
    BuiltKernel(m, m', k, free, fr);
    forall f | f in free
      ensures !IsTable(m', fr.root, f)
    {
      forall n | IsNode(n) && n.level >= 1
        ensures Table(m', fr.root, n) != Some(f)
      {
        BuiltTable(m, m', k, fr, n);
        OwnIsFive(fr, n, n);
      }
    }
  }

  /** The new tree and the kernel's have the borrowed tables in common and no others. */
  lemma BuiltJoint(m: Memory, m': Memory, k: nat, free: seq<nat>, fr: Five)
    requires Inv(m, k, free) && FreshFive(m, k, free, fr) && Built(m, m', k, fr) && KernelReady(m, k)
    ensures Joint(m', fr.root, k, free, Borrowed(m, k))
  {
    hide Entry, Built, KernelReady, Own, Shares, DistinctFive, IsFive, Inv, Under, View;
    FiveFresh(m, k, free, fr);
    BuiltUser(m, m', k, free, fr);
    BuiltKernel(m, m', k, free, fr);
    InvParts(m, k, free);
    forall t: Node | t in Borrowed(m, k)
      ensures IsNode(t) && t.level == 2 && Entry(m', fr.root, t).Some? && Entry(m', k, t) == Entry(m', fr.root, t)
    {
      BorrowedView(m, k, fr, t);
      BuiltEntry(m, m', k, fr, t);
    }
    forall x, y | IsNode(x) && IsNode(y) && x.level >= 1 && y.level >= 1
                  && Table(m', fr.root, x).Some? && Table(m', fr.root, x) == Table(m', k, y)
      ensures Under(x, Borrowed(m, k)) && Under(y, Borrowed(m, k))
    {
      BuiltTable(m, m', k, fr, x);
      OwnIsFive(fr, x, x);
      assert IsTable(m, k, Table(m', k, y).value);
      assert Table(m, k, x) == Table(m, k, y);
      SameTable(m, k, free, x, y);
      SharedUnder(m, k, x);
    }
  }

  lemma InvParts(m: Memory, k: nat, free: seq<nat>)
    requires Inv(m, k, free)
    ensures WellSized(m) && Tree(m, k)
  {
  }

  lemma BorrowedView(m: Memory, k: nat, fr: Five, t: Node)
    requires t in Borrowed(m, k)
    ensures IsNode(t) && t.level == 2 && Entry(m, k, t).Some? && View(m, k, fr, t) == Entry(m, k, t)
  {
  }

  // ---------------------------------------------------------------------------------------------
  // The pages of a user space
  // ---------------------------------------------------------------------------------------------

  /** The top 2 GB, and the PCI window from 0xbfee0000 up to 4 GB. */
  predicate KernelPage(p: nat) {
    p >= DIRECT_BASE || 0xbfee0 <= p < 0x10_0000
  }

  /** From `root` those pages look as from the kernel's root `k`, and there are no others. */
  ghost predicate SeesKernel(m: Memory, root: nat, k: nat) {
    forall p :: 0 <= p < PAGES ==> Walk(m, root, p) == if KernelPage(p) then Walk(m, k, p) else None
  }

  lemma SeesAt(m: Memory, root: nat, k: nat, f: nat)
    requires SeesKernel(m, root, k) && f < DIRECT_FRAMES
    ensures DirectPage(f) < PAGES && Walk(m, root, DirectPage(f)) == Walk(m, k, DirectPage(f))
  {
    hide Walk;
  }

  lemma PageIsShared(p: nat)
    requires p < PAGES
    ensures Shares(Node(0, p)) <==> p >= DIRECT_BASE || 0xc0000 <= p < 0x10_0000
  {
    var q := p / 512 / 512;
    assert Up(Node(0, p)) == Node(1, p / 512) && Up(Node(1, p / 512)) == Node(2, q);
    assert Shares(Node(0, p)) == Shares(Node(1, p / 512)) == Shares(Node(2, q));
    assert q == p / 0x4_0000;
  }

  lemma PageIsView(m: Memory, k: nat, fr: Five, p: nat)
    requires p < PAGES
    ensures View(m, k, fr, Node(0, p)) == if KernelPage(p) then Walk(m, k, p) else None
  {
    hide Entry, Shares;
    PageIsShared(p);
    assert Up(Node(0, p)) == Node(1, p / 512);
    assert p == p / 512 * 512 + p % 512;
  }

  lemma BuiltSees(m: Memory, m': Memory, k: nat, free: seq<nat>, fr: Five)
    requires Inv(m, k, free) && FreshFive(m, k, free, fr) && Built(m, m', k, fr) && KernelReady(m, k)
    ensures SeesKernel(m', fr.root, k)
  {
    hide Entry, Built, KernelReady, Shares, DistinctFive, IsFive, Inv, View;
    FiveFresh(m, k, free, fr);
    BuiltKernel(m, m', k, free, fr);
    InvParts(m, k, free);
    forall p | 0 <= p < PAGES
      ensures Walk(m', fr.root, p) == if KernelPage(p) then Walk(m', k, p) else None
    {
      BuiltEntry(m, m', k, fr, Node(0, p));
      PageIsView(m, k, fr, p);
    }
  }

  /** The level-1 table above the direct-map page of frame `f`. */
  ghost function DirectTable(f: nat): Node {
    HighNode(DirectPage(f), 1)
  }

  lemma DirectIsShared(f: nat)
    requires f < DIRECT_FRAMES
    ensures IsNode(DirectTable(f)) && DirectTable(f).level == 1 && Shares(DirectTable(f)) && DirectTable(f) != WINDOW
    ensures Up(Node(0, DirectPage(f))) == DirectTable(f)
  {
    DirectNodes(f);
    var n := PtNode(f / 512);
    assert Up(n) == Node(2, n.prefix / 512);
    assert n.prefix / 512 == 0x3_fffe + f / 512 / 512;
    assert DirectPage(f) / 512 == n.prefix;
  }

  ghost predicate SameTops(m0: Memory, m1: Memory, k: nat) {
    forall t: Node :: IsNode(t) && t.level == 2 ==> Entry(m1, k, t) == Entry(m0, k, t)
  }

  /** A mapping that needs no table, made through the new root at a common page. */
  lemma MapOwn(m0: Memory, m1: Memory, root: nat, k: nat, free: seq<nat>, s: set<Node>, page: nat, value: nat)
    requires Joint(m0, root, k, free, s) && SeesKernel(m0, root, k)
    requires Grown(m0, m1, root, []) && Inv(m1, root, free) && Updated(m0, m1, root, [], page, value)
    requires DIRECT_BASE <= page < PAGES && Under(Node(0, page), s)
    ensures Joint(m1, root, k, free, s) && SeesKernel(m1, root, k)
    ensures forall p :: 0 <= p < PAGES ==> Walk(m1, k, p) == if p == page then Leaf(value) else Walk(m0, k, p)
    ensures SameTops(m0, m1, k)
  {
    hide Entry, Joint, Inv, Under;
    PoppedNone(free);
    forall t: Node | IsNode(t) && t.level == 2
      ensures Entry(m1, k, t) == Entry(m0, k, t)
    {
      PrivateSame(m0, m1, root, k, free, s, [], t);
    }
    OtherRoot(m0, m1, root, k, free, s, [], free);
    forall p | 0 <= p < PAGES
      ensures Walk(m1, root, p) == if KernelPage(p) then Walk(m1, k, p) else None
      ensures Walk(m1, k, p) == if p == page then Leaf(value) else Walk(m0, k, p)
    {
      JointWalk(m0, root, k, free, s, p);
    }
  }

  lemma JointWalk(m: Memory, a: nat, b: nat, free: seq<nat>, s: set<Node>, p: nat)
    requires Joint(m, a, b, free, s) && p < PAGES
    ensures Under(Node(0, p), s) ==> Walk(m, a, p) == Walk(m, b, p)
  {
    if Under(Node(0, p), s) {
      UnderSame(m, a, b, s, Node(0, p));
    }
  }

  lemma PoppedNone(free: seq<nat>)
    ensures Popped(free, [], free)
  {
  }

  // ---------------------------------------------------------------------------------------------
  // Allocating the five frames
  // ---------------------------------------------------------------------------------------------

  /** A frame that is no table of the kernel and not free. */
  ghost predicate Outside(m: Memory, k: nat, free: seq<nat>, f: nat) {
    f < |m| && !IsTable(m, k, f) && f !in free
  }

  ghost predicate Subset(s: seq<nat>, t: seq<nat>) {
    forall f :: f in s ==> f in t
  }

  lemma StaysOutside(m: Memory, m1: Memory, k: nat, free: seq<nat>, free1: seq<nat>, news: seq<nat>, f: nat)
    requires Outside(m, k, free, f) && Grown(m, m1, k, news) && Subset(news, free) && Subset(free1, free)
    ensures Outside(m1, k, free1, f)
  {
    hide Entry;
    forall n | IsNode(n) && n.level >= 1
      ensures Table(m1, k, n) != Some(f)
    {
      assert Table(m1, k, n) == Some(f) ==> Table(m, k, n) == Some(f) || f in news;
    }
  }

  lemma PoppedSubset(free: seq<nat>, news: seq<nat>, free1: seq<nat>)
    requires Popped(free, news, free1)
    ensures Subset(news, free) && Subset(free1, free)
  {
  }

  /** Taking a free frame away keeps everything else. */
  lemma TakenOut(m: Memory, k: nat, free: seq<nat>)
    requires Inv(m, k, free) && free != []
    ensures Inv(m, k, Front(free)) && Outside(m, k, Front(free), Last(free)) && Subset(Front(free), free)
    ensures Last(free) < DIRECT_FRAMES
  {
    FrontIs(free);
    assert Blank(m, Last(free));
  }

  lemma MappedUp(m: Memory, k: nat, f: nat, value: nat)
    requires f < DIRECT_FRAMES && Walk(m, k, DirectPage(f)) == Leaf(value) && Present(value)
    ensures Entry(m, k, DirectTable(f)).Some?
  {
    DirectIsShared(f);
    Child(m, k, Node(0, DirectPage(f)));
  }

  ghost predicate Taken(free: seq<nat>, free1: seq<nat>, f: nat) {
    f in free && f !in free1
  }

  /** Every frame taken from the free list is mapped at its direct-map page, and no other page moves. */
  ghost predicate TakesFrames(m: Memory, free: seq<nat>, m1: Memory, free1: seq<nat>, k: nat) {
    forall p :: 0 <= p < PAGES ==>
      Walk(m1, k, p) == if DIRECT_BASE <= p && Taken(free, free1, p - DIRECT_BASE) then Some(TableEntry(p - DIRECT_BASE))
                        else Walk(m, k, p)
  }

  lemma MapsTaken(m: Memory, m1: Memory, k: nat, free: seq<nat>, news: seq<nat>, free1: seq<nat>)
    requires Distinct(free) && free != [] && Last(free) < DIRECT_FRAMES && Popped(Front(free), news, free1)
    requires Updated(m, m1, k, news, DirectPage(Last(free)), UserEntry(Last(free)))
    ensures TakesFrames(m, free, m1, free1, k)
  {
    hide Entry, Walk, TableEntry, UserEntry;
    var f := Last(free);
    UserEntryIs(f);
    FrontIs(free);
    PoppedAre(Front(free), news, free1);
    forall p | 0 <= p < PAGES
      ensures Walk(m1, k, p) == if DIRECT_BASE <= p && Taken(free, free1, p - DIRECT_BASE) then Some(TableEntry(p - DIRECT_BASE))
                                else Walk(m, k, p)
    {
      assert DIRECT_BASE <= p ==> (Taken(free, free1, p - DIRECT_BASE) <==> p == DirectPage(f) || p - DIRECT_BASE in news);
    }
  }

  lemma PoppedAre(free: seq<nat>, news: seq<nat>, free1: seq<nat>)
    requires Distinct(free) && Popped(free, news, free1)
    ensures forall f :: f in news <==> Taken(free, free1, f)
    ensures forall f :: f in free1 ==> f in free
  {
    forall f
      ensures f in news <==> Taken(free, free1, f)
    {
      if f in news {
        var i :| 0 <= i < |news| && news[i] == f;
        assert free[|free| - 1 - i] == f;
      }
      if Taken(free, free1, f) {
        var tail := free[|free1|..];
        assert free == free1 + tail;
        var j :| 0 <= j < |tail| && tail[j] == f;
        assert news[|news| - 1 - j] == f;
      }
    }
  }

  /** kernel_page_alloc(PG_KERNEL): a frame, mapped at its direct-map page in the kernel's tree. */
  method KernelPageAlloc(kernel: Kernel, k: nat) returns (ok: bool, f: nat, ghost news: seq<nat>)
    requires kernel.Valid(k)
    modifies kernel`mem, kernel`heapEnd, kernel.frames.Repr()
    ensures ok ==> kernel.Valid(k) && Outside(kernel.mem, k, kernel.frames.free, f) && f < DIRECT_FRAMES
    ensures ok ==> f in old(kernel.frames.free) && Entry(kernel.mem, k, DirectTable(f)).Some?
    ensures ok ==> Grown(old(kernel.mem), kernel.mem, k, news) && Subset(news, old(kernel.frames.free))
    ensures ok ==> Subset(kernel.frames.free, old(kernel.frames.free))
    ensures ok ==> TakesFrames(old(kernel.mem), old(kernel.frames.free), kernel.mem, kernel.frames.free, k)
    ensures ok ==> Walk(kernel.mem, k, DirectPage(f)) == Some(TableEntry(f))
    ensures |old(kernel.frames.free)| >= 1031 ==> ok && |kernel.frames.free| >= |old(kernel.frames.free)| - 1031
  {
    hide Entry, Inv, Grown, Updated, Popped, Absent, AllocStep, Ok, PageOf, HighNode, FrameTable.Valid, Walk, Subset, Outside;
    ok, f, news := false, 0, [];
    var frames := kernel.frames;
    ghost var m0, free := kernel.mem, frames.free;
    FramesOk(frames);
    AllocKernel(frames.Abs());
    if free != [] {
      TakenOut(m0, k, free);
    }
    var r := frames.FrameAlloc(PgKernel);
    if !r.Frame? {
      return;
    }
    f := r.pfn;
    ghost var free1 := frames.free;
    DirectVirtual(f);
    ghost var nodes := EnoughFrames(m0, k, DirectPage(f));
    ok, news := kernel.SetEntry(k, Virtual(f * 4096), UserEntry(f), true, nodes);
    if ok {
      UserEntryIs(f);
      PoppedSubset(free1, news, frames.free);
      StaysOutside(m0, kernel.mem, k, free1, frames.free, news, f);
      UpdatedAt(m0, kernel.mem, k, news, DirectPage(f), UserEntry(f));
      MappedUp(kernel.mem, k, f, UserEntry(f));
      InvDistinct(m0, k, free);
      MapsTaken(m0, kernel.mem, k, free, news, frames.free);
      SubsetTrans(news, free1, free);
      SubsetTrans(frames.free, free1, free);
    }
  }

  lemma UpdatedAt(m: Memory, m1: Memory, k: nat, news: seq<nat>, page: nat, value: nat)
    requires Updated(m, m1, k, news, page, value) && page < PAGES
    ensures Walk(m1, k, page) == Leaf(value)
  {
    hide Entry;
  }

  lemma InvDistinct(m: Memory, k: nat, free: seq<nat>)
    requires Inv(m, k, free)
    ensures Distinct(free)
  {
  }

  lemma SubsetTrans(a: seq<nat>, b: seq<nat>, c: seq<nat>)
    requires Subset(a, b) && Subset(b, c)
    ensures Subset(a, c)
  {
  }

  /** What the allocation of one more frame leaves as it was. */
  ghost predicate Later(m: Memory, free: seq<nat>, m1: Memory, free1: seq<nat>, k: nat) {
    && (forall f: nat :: Outside(m, k, free, f) ==> Outside(m1, k, free1, f))
    && (forall n: Node :: IsNode(n) && n.level >= 1 && Entry(m, k, n).Some? ==> Entry(m1, k, n).Some?)
    && TakesFrames(m, free, m1, free1, k) && Subset(free1, free)
  }

  lemma GrownLater(m: Memory, free: seq<nat>, m1: Memory, free1: seq<nat>, k: nat, news: seq<nat>)
    requires Grown(m, m1, k, news) && Subset(news, free) && Subset(free1, free)
    requires TakesFrames(m, free, m1, free1, k)
    ensures Later(m, free, m1, free1, k)
  {
    hide Entry, Outside, Subset, TakesFrames;
    forall f: nat | Outside(m, k, free, f)
      ensures Outside(m1, k, free1, f)
    {
      StaysOutside(m, m1, k, free, free1, news, f);
    }
    forall n: Node | IsNode(n) && n.level >= 1 && Entry(m, k, n).Some?
      ensures Entry(m1, k, n).Some?
    {
      GrownEntry(m, m1, k, news, n);
    }
  }

  lemma LaterTrans(m0: Memory, f0: seq<nat>, m1: Memory, f1: seq<nat>, m2: Memory, f2: seq<nat>, k: nat)
    requires Later(m0, f0, m1, f1, k) && Later(m1, f1, m2, f2, k)
    ensures Later(m0, f0, m2, f2, k)
  {
    hide Entry, Outside, Walk, TableEntry;
  }

  /** `f` was free before and is now out and mapped. */
  ghost predicate Obtained(m: Memory, k: nat, free: seq<nat>, f: nat) {
    && Outside(m, k, free, f) && f < DIRECT_FRAMES && Entry(m, k, DirectTable(f)).Some?
    && Walk(m, k, DirectPage(f)) == Some(TableEntry(f))
  }

  lemma StillObtained(m0: Memory, f0: seq<nat>, m1: Memory, f1: seq<nat>, k: nat, f: nat, g: nat)
    requires Later(m0, f0, m1, f1, k) && Obtained(m0, k, f0, f) && g in f0
    ensures Obtained(m1, k, f1, f) && f != g
  {
    hide Entry, DirectTable, Walk, TableEntry;
    DirectIsShared(f);
    assert !Taken(f0, f1, f);
  }

  method AllocOne(kernel: Kernel, k: nat) returns (ok: bool, f: nat)
    requires kernel.Valid(k)
    modifies kernel`mem, kernel`heapEnd, kernel.frames.Repr()
    ensures ok ==> kernel.Valid(k) && Obtained(kernel.mem, k, kernel.frames.free, f) && f in old(kernel.frames.free)
    ensures ok ==> Later(old(kernel.mem), old(kernel.frames.free), kernel.mem, kernel.frames.free, k)
    ensures |old(kernel.frames.free)| >= 1031 ==> ok && |kernel.frames.free| >= |old(kernel.frames.free)| - 1031
  {
    hide Entry, Inv, Grown, Later, FrameTable.Valid, Outside, Subset, TakesFrames, Walk, TableEntry;
    ghost var news;
    ok, f, news := KernelPageAlloc(kernel, k);
    if ok {
      GrownLater(old(kernel.mem), old(kernel.frames.free), kernel.mem, kernel.frames.free, k, news);
    }
  }

  method AllocFive(kernel: Kernel, k: nat) returns (ok: bool, fr: Five)
    requires kernel.Valid(k)
    modifies kernel`mem, kernel`heapEnd, kernel.frames.Repr()
    ensures ok ==> kernel.Valid(k) && DistinctFive(fr)
    ensures ok ==> forall f: nat :: IsFive(fr, f) ==> Obtained(kernel.mem, k, kernel.frames.free, f)
    ensures ok ==> Later(old(kernel.mem), old(kernel.frames.free), kernel.mem, kernel.frames.free, k)
    ensures |old(kernel.frames.free)| >= 5155 ==> ok
  {
    hide Entry, Inv, Later, FrameTable.Valid, Obtained;
    fr := Five(0, 0, 0, 0, 0);
    var root, low, high, pci, window;
    ok, root := AllocOne(kernel, k);
    if !ok {
      return;
    }
    ghost var m1, f1 := kernel.mem, kernel.frames.free;
    ok, low := AllocOne(kernel, k);
    if !ok {
      return;
    }
    ghost var m2, f2 := kernel.mem, kernel.frames.free;
    StillObtained(m1, f1, m2, f2, k, root, low);
    ok, high := AllocOne(kernel, k);
    if !ok {
      return;
    }
    ghost var m3, f3 := kernel.mem, kernel.frames.free;
    StillObtained(m2, f2, m3, f3, k, root, high);
    StillObtained(m2, f2, m3, f3, k, low, high);
    ok, pci := AllocOne(kernel, k);
    if !ok {
      return;
    }
    ghost var m4, f4 := kernel.mem, kernel.frames.free;
    StillObtained(m3, f3, m4, f4, k, root, pci);
    StillObtained(m3, f3, m4, f4, k, low, pci);
    StillObtained(m3, f3, m4, f4, k, high, pci);
    ok, window := AllocOne(kernel, k);
    if !ok {
      return;
    }
    ghost var m5, f5 := kernel.mem, kernel.frames.free;
    StillObtained(m4, f4, m5, f5, k, root, window);
    StillObtained(m4, f4, m5, f5, k, low, window);
    StillObtained(m4, f4, m5, f5, k, high, window);
    StillObtained(m4, f4, m5, f5, k, pci, window);
    fr := Five(root, low, high, pci, window);
    LaterTrans(old(kernel.mem), old(kernel.frames.free), m1, f1, m2, f2, k);
    LaterTrans(old(kernel.mem), old(kernel.frames.free), m2, f2, m3, f3, k);
    LaterTrans(old(kernel.mem), old(kernel.frames.free), m3, f3, m4, f4, k);
    LaterTrans(old(kernel.mem), old(kernel.frames.free), m4, f4, m5, f5, k);
  }

  // ---------------------------------------------------------------------------------------------
  // Writing the five tables
  // ---------------------------------------------------------------------------------------------

  /** The tables of the kernel that create_user_page reads, by following entries without looking at the present bit. */
  datatype Reads = Reads(low: nat, high: nat, pci: nat, window: nat)

  ghost predicate ReadsOk(m: Memory, k: nat, r: Reads) {
    && k < |m| && |m[k]| == 512 && r.low == FrameOf(m[k][0]) && r.high == FrameOf(m[k][511])
    && r.low < |m| && |m[r.low]| == 512 && r.high < |m| && |m[r.high]| == 512 && r.pci == FrameOf(m[r.low][2])
    && r.pci < |m| && |m[r.pci]| == 512 && r.window == FrameOf(m[r.pci][511])
    && r.window < |m| && |m[r.window]| == 512
  }

  lemma TableAt(m: Memory, k: nat, n: Node)
    requires WellSized(m) && Tree(m, k) && IsNode(n) && n.level >= 1 && Entry(m, k, n).Some?
    ensures Table(m, k, n).Some? && Table(m, k, n).value < |m| && |m[Table(m, k, n).value]| == 512
    ensures IsTable(m, k, Table(m, k, n).value)
  {
  }

  lemma ReadsAre(m: Memory, k: nat) returns (r: Reads)
    requires WellSized(m) && Tree(m, k) && KernelReady(m, k)
    ensures ReadsOk(m, k, r)
    ensures Table(m, k, Node(3, 0)) == Some(r.low) && Table(m, k, Node(3, 511)) == Some(r.high)
    ensures Table(m, k, Node(2, 2)) == Some(r.pci) && Table(m, k, WINDOW) == Some(r.window)
    ensures IsTable(m, k, k) && IsTable(m, k, r.low) && IsTable(m, k, r.high) && IsTable(m, k, r.pci) && IsTable(m, k, r.window)
  {
    hide Entry, Tree, WellSized, IsTable;
    RootIs(m, k);
    assert Entry(m, k, Node(4, 0)).Some? by { RootEntry(m, k); }
    TableAt(m, k, Node(4, 0));
    assert Up(Node(3, 0)) == Node(4, 0) == Up(Node(3, 511)) && Up(Node(2, 2)) == Node(3, 0) && Up(WINDOW) == Node(2, 2);
    Child(m, k, Node(3, 0));
    Child(m, k, Node(3, 511));
    TableAt(m, k, Node(3, 0));
    TableAt(m, k, Node(3, 511));
    Child(m, k, Node(2, 2));
    TableAt(m, k, Node(2, 2));
    Child(m, k, WINDOW);
    TableAt(m, k, WINDOW);
    r := Reads(Table(m, k, Node(3, 0)).value, Table(m, k, Node(3, 511)).value, Table(m, k, Node(2, 2)).value, Table(m, k, WINDOW).value);
  }

  lemma RootEntry(m: Memory, k: nat)
    ensures Entry(m, k, Node(4, 0)).Some?
  {
  }

  lemma SlotsAre(m: Memory, k: nat, r: Reads, i: nat)
    requires ReadsOk(m, k, r) && i < 512
    requires Table(m, k, Node(3, 0)) == Some(r.low) && Table(m, k, Node(3, 511)) == Some(r.high) && Table(m, k, WINDOW) == Some(r.window)
    ensures Slot(m, k, Node(2, i)) == m[r.low][i]
    ensures Slot(m, k, Node(2, 511 * 512 + i)) == m[r.high][i]
    ensures Slot(m, k, Node(0, 1535 * 512 + i)) == m[r.window][i]
  {
    hide Entry, Table;
    assert Up(Node(2, i)) == Node(3, 0) && Up(Node(2, 511 * 512 + i)) == Node(3, 511) && Up(Node(0, 1535 * 512 + i)) == WINDOW;
  }

  /** The rows that the writes leave, in terms of the frames read. */
  ghost predicate Rows(m: Memory, m': Memory, fr: Five, r: Reads)
    requires r.low < |m| && |m[r.low]| == 512 && r.high < |m| && |m[r.high]| == 512 && r.window < |m| && |m[r.window]| == 512
  {
    && |m'| == |m| && (forall f :: 0 <= f < |m| && !IsFive(fr, f) ==> m'[f] == m[f])
    && HasRow(m', fr.root) && HasRow(m', fr.low) && HasRow(m', fr.high) && HasRow(m', fr.pci) && HasRow(m', fr.window)
    && m'[fr.root] == Zeros()[0 := UserEntry(fr.low)][511 := UserEntry(fr.high)]
    && m'[fr.low] == Zeros()[3 := m[r.low][3]][2 := UserEntry(fr.pci)]
    && m'[fr.high] == Zeros()[510 := m[r.high][510]][511 := m[r.high][511]]
    && m'[fr.pci] == Zeros()[511 := UserEntry(fr.window)]
    && m'[fr.window] == Zeros()[..224] + m[r.window][224..]
  }

  lemma RowsBuilt(m: Memory, m': Memory, k: nat, fr: Five, r: Reads)
    requires ReadsOk(m, k, r) && Rows(m, m', fr, r)
    requires Table(m, k, Node(3, 0)) == Some(r.low) && Table(m, k, Node(3, 511)) == Some(r.high) && Table(m, k, WINDOW) == Some(r.window)
    ensures Built(m, m', k, fr)
  {
    hide Entry, Table, Slot, IsFive, UserEntry;
    forall i | 0 <= i < 512
      ensures Slot(m, k, Node(2, i)) == m[r.low][i]
      ensures Slot(m, k, Node(2, 511 * 512 + i)) == m[r.high][i]
      ensures Slot(m, k, Node(0, 1535 * 512 + i)) == m[r.window][i]
    {
      SlotsAre(m, k, r, i);
    }
  }

  /** memset of the five frames. */
  method ClearFive(m: Memory, fr: Five) returns (m': Memory)
    requires DistinctFive(fr) && forall f: nat :: IsFive(fr, f) ==> f < |m|
    ensures |m'| == |m| && forall f: nat :: f < |m| ==> m'[f] == if IsFive(fr, f) then Zeros() else m[f]
  {
    FiveApart(fr);
    assert IsFive(fr, fr.root) && IsFive(fr, fr.low) && IsFive(fr, fr.high) && IsFive(fr, fr.pci) && IsFive(fr, fr.window);
    m' := m[fr.root := Zeros()];
    m' := m'[fr.low := Zeros()];
    m' := m'[fr.high := Zeros()];
    m' := m'[fr.pci := Zeros()];
    m' := m'[fr.window := Zeros()];
  }

  /** The writes of create_user_page to the new tables. */
  method WriteTables(kernel: Kernel, k: nat, fr: Five)
    requires WellSized(kernel.mem) && Tree(kernel.mem, k) && KernelReady(kernel.mem, k) && DistinctFive(fr)
    requires forall f: nat :: IsFive(fr, f) ==> f < |kernel.mem| && !IsTable(kernel.mem, k, f)
    modifies kernel`mem
    ensures Built(old(kernel.mem), kernel.mem, k, fr)
  {
    hide Entry, Tree, IsTable, KernelReady, Table, UserEntry, Built, FrameOf, DistinctFive, WellSized, Zeros, Rows;
    ghost var m := kernel.mem;
    ghost var r := ReadsAre(m, k);
    FiveApart(fr);
    var mem := ClearFive(kernel.mem, fr);
    ghost var m0 := mem;
    assert IsFive(fr, fr.root) && IsFive(fr, fr.low) && IsFive(fr, fr.high) && IsFive(fr, fr.pci) && IsFive(fr, fr.window);
    assert forall f: nat :: f in {k, r.low, r.high, r.pci, r.window} ==> !IsFive(fr, f) && f < |m| && mem[f] == m[f];
    var kernelLow, kernelHigh := FrameOf(mem[k][0]), FrameOf(mem[k][511]);
    var kernelPci := FrameOf(mem[kernelLow][2]);
    var kernelWindow := FrameOf(mem[kernelPci][511]);
    assert Reads(kernelLow, kernelHigh, kernelPci, kernelWindow) == r;
    mem := FillTables(mem, fr, kernelLow, kernelHigh, kernelWindow);
    kernel.mem := mem;
    RowsAre(m, m0, mem, fr, r);
    RowsBuilt(m, mem, k, fr, r);
  }

  function With(row: seq<nat>, i: nat, v: nat): seq<nat>
    requires i < |row|
  {
    row[i := v]
  }

  /** The entries, in the order in which the code writes them. */
  method FillTables(m: Memory, fr: Five, low: nat, high: nat, window: nat) returns (mem: Memory)
    requires HasRow(m, low) && HasRow(m, high) && HasRow(m, window) && !IsFive(fr, low) && !IsFive(fr, high) && !IsFive(fr, window)
    requires fr.root != fr.low && fr.root != fr.high && fr.root != fr.pci && fr.root != fr.window
    requires fr.low != fr.high && fr.low != fr.pci && fr.low != fr.window
    requires fr.high != fr.pci && fr.high != fr.window && fr.pci != fr.window
    requires HasRow(m, fr.root) && HasRow(m, fr.low) && HasRow(m, fr.high) && HasRow(m, fr.pci) && HasRow(m, fr.window)
    ensures |mem| == |m| && forall f: nat :: f < |m| && !IsFive(fr, f) ==> mem[f] == m[f]
    ensures mem[fr.root] == With(With(m[fr.root], 0, UserEntry(fr.low)), 511, UserEntry(fr.high))
    ensures mem[fr.low] == With(With(m[fr.low], 3, m[low][3]), 2, UserEntry(fr.pci))
    ensures mem[fr.high] == With(With(m[fr.high], 510, m[high][510]), 511, m[high][511])
    ensures mem[fr.pci] == With(m[fr.pci], 511, UserEntry(fr.window))
    ensures mem[fr.window] == m[fr.window][..224] + m[window][224..]
  {
    hide UserEntry;
    mem := m;
    mem := Put(mem, fr.root, 0, UserEntry(fr.low));
    mem := Put(mem, fr.low, 3, mem[low][3]);
    mem := Put(mem, fr.low, 2, UserEntry(fr.pci));
    mem := Put(mem, fr.pci, 511, UserEntry(fr.window));
    mem := CopyWindow(mem, fr.window, window);
    mem := Put(mem, fr.root, 511, UserEntry(fr.high));
    mem := Put(mem, fr.high, 510, mem[high][510]);
    mem := Put(mem, fr.high, 511, mem[high][511]);
  }

  /** The rows after the writes, from the memory with the five frames cleared. */
  lemma RowsAre(m: Memory, m0: Memory, m': Memory, fr: Five, r: Reads)
    requires |m0| == |m| && forall f: nat :: f < |m| ==> m0[f] == if IsFive(fr, f) then Zeros() else m[f]
    requires forall f: nat :: IsFive(fr, f) ==> f < |m|
    requires r.low < |m| && |m[r.low]| == 512 && r.high < |m| && |m[r.high]| == 512 && r.window < |m| && |m[r.window]| == 512
    requires |m'| == |m| && forall f: nat :: f < |m| && !IsFive(fr, f) ==> m'[f] == m0[f]
    requires fr.root < |m| && fr.low < |m| && fr.high < |m| && fr.pci < |m| && fr.window < |m|
    requires m'[fr.root] == Zeros()[0 := UserEntry(fr.low)][511 := UserEntry(fr.high)]
    requires m'[fr.low] == Zeros()[3 := m[r.low][3]][2 := UserEntry(fr.pci)]
    requires m'[fr.high] == Zeros()[510 := m[r.high][510]][511 := m[r.high][511]]
    requires m'[fr.pci] == Zeros()[511 := UserEntry(fr.window)]
    requires m'[fr.window] == Zeros()[..224] + m[r.window][224..]
    ensures Rows(m, m', fr, r)
  {
    hide UserEntry, Zeros;
  }

  lemma FiveApart(fr: Five)
    requires DistinctFive(fr)
    ensures fr.root != fr.low && fr.root != fr.high && fr.root != fr.pci && fr.root != fr.window
    ensures fr.low != fr.high && fr.low != fr.pci && fr.low != fr.window
    ensures fr.high != fr.pci && fr.high != fr.window && fr.pci != fr.window
  {
    var l := [fr.root, fr.low, fr.high, fr.pci, fr.window];
    assert l[0] != l[1] && l[0] != l[2] && l[0] != l[3] && l[0] != l[4] && l[1] != l[2] && l[1] != l[3] && l[1] != l[4];
    assert l[2] != l[3] && l[2] != l[4] && l[3] != l[4];
  }

  /** The loop that copies the entries of the PCI window. */
  method CopyWindow(m: Memory, to: nat, from: nat) returns (m': Memory)
    requires HasRow(m, to) && HasRow(m, from) && to != from
    ensures m' == m[to := m[to][..224] + m[from][224..]]
  {
    m' := m;
    var i := 224;
    while i < 512
      invariant 224 <= i <= 512 && |m'| == |m| && |m'[to]| == 512
      invariant forall f :: 0 <= f < |m| && f != to ==> m'[f] == m[f]
      invariant forall j :: 0 <= j < 512 ==> m'[to][j] == if 224 <= j < i then m[from][j] else m[to][j]
    {
      m' := Put(m', to, i, m'[from][i]);
      i := i + 1;
    }
    assert m'[to] == m[to][..224] + m[from][224..];
  }

  // ---------------------------------------------------------------------------------------------
  // create_user_page
  // ---------------------------------------------------------------------------------------------

  /** The frame `f` has its level-1 table in the common part of both trees. */
  ghost predicate DirectCommon(m: Memory, root: nat, s: set<Node>, f: nat) {
    && f < DIRECT_FRAMES && Under(DirectTable(f), s) && Entry(m, root, DirectTable(f)).Some?
    && Walk(m, root, DirectPage(f)) == Some(TableEntry(f))
  }

  ghost predicate Made(m: Memory, root: nat, k: nat, free: seq<nat>, s: set<Node>, fr: Five) {
    Joint(m, root, k, free, s) && SeesKernel(m, root, k) && forall f: nat :: IsFive(fr, f) ==> DirectCommon(m, root, s, f)
  }

  lemma MadeBuilt(m: Memory, m': Memory, k: nat, free: seq<nat>, fr: Five)
    requires Inv(m, k, free) && DistinctFive(fr) && Built(m, m', k, fr) && KernelReady(m, k)
    requires forall f: nat :: IsFive(fr, f) ==> Obtained(m, k, free, f)
    ensures Made(m', fr.root, k, free, Borrowed(m, k), fr)
    ensures forall p :: 0 <= p < PAGES ==> Walk(m', k, p) == Walk(m, k, p)
    ensures SameTops(m, m', k)
  {
    hide Entry, Built, KernelReady, DistinctFive, IsFive, Inv, Joint, SeesKernel, DirectTable, Shares, Under, View, Borrowed;
    assert FreshFive(m, k, free, fr);
    BuiltJoint(m, m', k, free, fr);
    BuiltSees(m, m', k, free, fr);
    BuiltKernel(m, m', k, free, fr);
    InvParts(m, k, free);
    forall f: nat | IsFive(fr, f)
      ensures DirectCommon(m', fr.root, Borrowed(m, k), f)
    {
      var n := DirectTable(f);
      DirectIsShared(f);
      SharedUnder(m, k, n);
      ViewShared(m, k, fr, n);
      BuiltEntry(m, m', k, fr, n);
      SeesAt(m', fr.root, k, f);
    }
  }

  /** page_table_set_entry through the new root, for one of its own tables. */
  method MapTable(kernel: Kernel, root: nat, k: nat, f: nat, ghost s: set<Node>, ghost fr: Five)
    requires kernel.frames.Valid() && Made(kernel.mem, root, k, kernel.frames.free, s, fr) && IsFive(fr, f)
    modifies kernel`mem, kernel`heapEnd, kernel.frames.Repr()
    ensures kernel.frames.Valid() && Made(kernel.mem, root, k, kernel.frames.free, s, fr)
    ensures kernel.frames.free == old(kernel.frames.free)
    ensures forall p :: 0 <= p < PAGES ==> Walk(kernel.mem, k, p) == Walk(old(kernel.mem), k, p)
    ensures SameTops(old(kernel.mem), kernel.mem, k)
  {
    hide Entry, Inv, Grown, Updated, Popped, Absent, Ok, SameTops, PageOf, FrameTable.Valid, Walk, SeesKernel, Under, Joint, DirectTable, IsFive;
    ghost var m0, free := kernel.mem, kernel.frames.free;
    assert DirectCommon(m0, root, s, f);
    DirectVirtual(f);
    DirectIsShared(f);
    JointParts(m0, root, k, free, s);
    ghost var nodes := EnoughFrames(m0, root, DirectPage(f));
    CommonTable(m0, root, f);
    ghost var news;
    var ok;
    ok, news := kernel.SetEntry(root, Virtual(f * 4096), UserEntry(f), true, nodes);
    UnderLeaf(f, s);
    UserEntryIs(f);
    SeesAt(m0, root, k, f);
    MapOwn(m0, kernel.mem, root, k, free, s, DirectPage(f), UserEntry(f));
    forall g: nat | IsFive(fr, g)
      ensures DirectCommon(kernel.mem, root, s, g)
    {
      assert DirectCommon(m0, root, s, g);
      DirectIsShared(g);
      SeesAt(m0, root, k, g);
      SeesAt(kernel.mem, root, k, g);
      GrownEntry(m0, kernel.mem, root, [], DirectTable(g));
    }
  }

  lemma JointParts(m: Memory, a: nat, b: nat, free: seq<nat>, s: set<Node>)
    requires Joint(m, a, b, free, s)
    ensures Inv(m, a, free) && Inv(m, b, free)
  {
  }

  lemma CommonTable(m: Memory, root: nat, f: nat)
    requires f < DIRECT_FRAMES && Entry(m, root, DirectTable(f)).Some?
    ensures Table(m, root, HighNode(DirectPage(f), 1)).Some?
  {
  }

  lemma UnderLeaf(f: nat, s: set<Node>)
    requires f < DIRECT_FRAMES && Under(DirectTable(f), s)
    ensures Under(Node(0, DirectPage(f)), s) && DIRECT_BASE <= DirectPage(f) < PAGES
  {
    hide DirectTable;
    DirectIsShared(f);
  }

  lemma ReadyLater(m: Memory, f0: seq<nat>, m1: Memory, f1: seq<nat>, k: nat)
    requires Later(m, f0, m1, f1, k) && Entry(m, k, Node(3, 0)).Some? && Entry(m, k, Node(2, 2)).Some? && Entry(m, k, WINDOW).Some?
    requires Entry(m1, k, Node(3, 511)).Some?
    ensures KernelReady(m1, k)
  {
    hide Entry;
  }

  lemma {:induction false} TopPresent(m: Memory, k: nat, f: nat)
    requires f < DIRECT_FRAMES && Entry(m, k, DirectTable(f)).Some?
    ensures Entry(m, k, Node(3, 511)).Some?
  {
    DirectNodes(f);
    HighIsNode(DirectPage(f), 1);
    HighIsNode(DirectPage(f), 2);
    Child(m, k, DirectTable(f));
    Child(m, k, HighNode(DirectPage(f), 2));
  }

  lemma FiveOutside(m: Memory, k: nat, free: seq<nat>, fr: Five)
    requires forall f: nat :: IsFive(fr, f) ==> Obtained(m, k, free, f)
    ensures forall f: nat :: IsFive(fr, f) ==> f < |m| && !IsTable(m, k, f)
    ensures Entry(m, k, Node(3, 511)).Some?
  {
    hide Entry, DirectTable, IsTable;
    assert IsFive(fr, fr.root);
    TopPresent(m, k, fr.root);
  }

  lemma LaterTakes(m: Memory, f0: seq<nat>, m1: Memory, f1: seq<nat>, k: nat)
    requires Later(m, f0, m1, f1, k)
    ensures TakesFrames(m, f0, m1, f1, k)
  {
  }

  lemma SamePages(m: Memory, f0: seq<nat>, m1: Memory, f1: seq<nat>, m2: Memory, k: nat)
    requires TakesFrames(m, f0, m1, f1, k) && forall p :: 0 <= p < PAGES ==> Walk(m2, k, p) == Walk(m1, k, p)
    ensures TakesFrames(m, f0, m2, f1, k)
  {
    hide Walk, TableEntry, Taken;
  }

  lemma SameBorrowed(m: Memory, m1: Memory, m2: Memory, m3: Memory, m4: Memory, m5: Memory, m6: Memory, k: nat)
    requires SameTops(m, m1, k) && SameTops(m1, m2, k) && SameTops(m2, m3, k) && SameTops(m3, m4, k)
    requires SameTops(m4, m5, k) && SameTops(m5, m6, k)
    ensures Borrowed(m6, k) == Borrowed(m, k)
  {
    hide Entry;
    assert forall t: Node :: t in {PCI_HIGH, TOP_LOW, TOP_HIGH} ==> IsNode(t) && t.level == 2 && Entry(m6, k, t) == Entry(m, k, t);
  }

  lemma MadeParts(m: Memory, root: nat, k: nat, free: seq<nat>, s: set<Node>, fr: Five)
    requires Made(m, root, k, free, s, fr)
    ensures Joint(m, root, k, free, s) && SeesKernel(m, root, k)
  {
  }

  /**
   create_user_page, for a kernel tree with the tables that the code follows without looking: those of
   [0], [0][2] and [0][2][511].  `ok` is false when frame_alloc could not deliver one of the frames; the
   code then goes on with frame 0, and nothing is claimed.  `s` are the tables that both trees use.
  */
  method CreateUserPage(kernel: Kernel, k: nat) returns (ok: bool, root: nat, ghost s: set<Node>)
    requires kernel.Valid(k)
    requires Entry(kernel.mem, k, Node(3, 0)).Some? && Entry(kernel.mem, k, Node(2, 2)).Some? && Entry(kernel.mem, k, WINDOW).Some?
    modifies kernel`mem, kernel`heapEnd, kernel.frames.Repr()
    ensures ok ==> kernel.frames.Valid() && Joint(kernel.mem, root, k, kernel.frames.free, s)
    ensures ok ==> s == Borrowed(kernel.mem, k)
    ensures ok ==> SeesKernel(kernel.mem, root, k)
    ensures ok ==> TakesFrames(old(kernel.mem), old(kernel.frames.free), kernel.mem, kernel.frames.free, k)
    ensures |old(kernel.frames.free)| >= 5155 ==> ok
  {
    hide Entry, Inv, Later, FrameTable.Valid, Obtained, Made, SeesKernel, Built, KernelReady, DistinctFive, Borrowed, Joint, Walk, SameTops, TakesFrames;
    root, s := 0, {};
    var fr;
    ok, fr := AllocFive(kernel, k);
    if !ok {
      return;
    }
    ghost var m, free := kernel.mem, kernel.frames.free;
    assert IsFive(fr, fr.root);
    FiveOutside(m, k, free, fr);
    ReadyLater(old(kernel.mem), old(kernel.frames.free), m, free, k);
    InvParts(m, k, free);
    WriteTables(kernel, k, fr);
    root, s := fr.root, Borrowed(m, k);
    MadeBuilt(m, kernel.mem, k, free, fr);
    LaterTakes(old(kernel.mem), old(kernel.frames.free), m, free, k);
    assert IsFive(fr, fr.high) && IsFive(fr, fr.low) && IsFive(fr, fr.pci) && IsFive(fr, fr.window);
    ghost var m1 := kernel.mem;
    MapTable(kernel, root, k, fr.root, s, fr);
    ghost var m2 := kernel.mem;
    MapTable(kernel, root, k, fr.high, s, fr);
    ghost var m3 := kernel.mem;
    MapTable(kernel, root, k, fr.low, s, fr);
    ghost var m4 := kernel.mem;
    MapTable(kernel, root, k, fr.window, s, fr);
    ghost var m5 := kernel.mem;
    MapTable(kernel, root, k, fr.pci, s, fr);
    SameBorrowed(m, m1, m2, m3, m4, m5, kernel.mem, k);
    MadeParts(kernel.mem, root, k, kernel.frames.free, s, fr);
    SamePages(old(kernel.mem), old(kernel.frames.free), m, free, kernel.mem, k);
  }

  // ---------------------------------------------------------------------------------------------
  // Later mappings
  // ---------------------------------------------------------------------------------------------

  lemma JointSymmetric(m: Memory, a: nat, b: nat, free: seq<nat>, s: set<Node>)
    requires Joint(m, a, b, free, s)
    ensures Joint(m, b, a, free, s)
  {
    hide Entry, Inv, Under;
  }

  /** The shared level-3 entry above a page of the top 2 GB. */
  ghost function TopOf(p: nat): Node {
    if p < DIRECT_BASE + 0x4_0000 then TOP_LOW else TOP_HIGH
  }

  lemma {:induction false} TopUnder(p: nat, s: set<Node>)
    requires DIRECT_BASE <= p < PAGES
    ensures Under(Node(0, p), s) <==> TopOf(p) in s
  {
    var q := p / 512 / 512;
    assert Up(Node(0, p)) == Node(1, p / 512) && Up(Node(1, p / 512)) == Node(2, q);
    assert Under(Node(0, p), s) == Under(Node(1, p / 512), s) == Under(Node(2, q), s);
    assert q == p / 0x4_0000;
    assert Node(2, q) == TopOf(p);
  }

  /**
   Any later mapping through either root, `a`: if both level-3 entries of the top 2 GB are shared, the
   two roots still agree there, and the other root keeps all its own pages.  `news` are the new tables.
  */
  method MapLater(kernel: Kernel, a: nat, b: nat, va: nat, value: nat, autoAlloc: bool, ghost s: set<Node>, ghost nodes: set<Node>)
    returns (ok: bool, ghost news: seq<nat>)
    requires kernel.frames.Valid() && Joint(kernel.mem, a, b, kernel.frames.free, s) && Covers(nodes, PageOf(va))
    modifies kernel`mem, kernel`heapEnd, kernel.frames.Repr()
    ensures |old(kernel.frames.free)| >= |Absent(old(kernel.mem), a, nodes)| ==> ok
    ensures !autoAlloc ==> ok && news == []
    ensures ok ==> kernel.frames.Valid() && Popped(old(kernel.frames.free), news, kernel.frames.free)
    ensures ok && (autoAlloc || Table(old(kernel.mem), a, HighNode(PageOf(va), 1)).Some?) ==>
              Updated(old(kernel.mem), kernel.mem, a, news, PageOf(va), value)
    ensures !autoAlloc && Table(old(kernel.mem), a, HighNode(PageOf(va), 1)).None? ==> kernel.mem == old(kernel.mem)
    ensures ok ==> Joint(kernel.mem, a, b, kernel.frames.free, s) && Joint(kernel.mem, b, a, kernel.frames.free, s)
    ensures ok && TOP_LOW in s && TOP_HIGH in s ==>
              forall p :: DIRECT_BASE <= p < PAGES ==> Walk(kernel.mem, a, p) == Walk(kernel.mem, b, p)
    ensures ok ==> forall p :: 0 <= p < PAGES && !Under(Node(0, p), s) ==> Walk(kernel.mem, b, p) == Walk(old(kernel.mem), b, p)
  {
    hide Entry, Inv, Grown, Updated, Popped, Absent, Ok, PageOf, FrameTable.Valid, Walk, Under, Joint, Covers;
    ghost var m0, free := kernel.mem, kernel.frames.free;
    JointParts(m0, a, b, free, s);
    ok, news := kernel.SetEntry(a, va, value, autoAlloc, nodes);
    if ok {
      OtherRoot(m0, kernel.mem, a, b, free, s, news, kernel.frames.free);
      JointSymmetric(kernel.mem, a, b, kernel.frames.free, s);
      forall p | DIRECT_BASE <= p < PAGES
        ensures Under(Node(0, p), s) <==> TopOf(p) in s
      {
        TopUnder(p, s);
      }
    }
  }

  /**
   The condition is exact: a page of the top 2 GB that is not mapped from `root` and that the kernel maps
   is seen from `root` if and only if the level-3 entry above it is one of the shared ones, `s`.
  */
  lemma KernelMapping(m0: Memory, m1: Memory, root: nat, k: nat, free: seq<nat>, s: set<Node>,
                      news: seq<nat>, free1: seq<nat>, p: nat, value: nat)
    requires Joint(m0, root, k, free, s) && Walk(m0, root, p) == None
    requires Grown(m0, m1, k, news) && Inv(m1, k, free1) && Popped(free, news, free1)
    requires Updated(m0, m1, k, news, p, value) && Present(value) && DIRECT_BASE <= p < PAGES
    ensures Walk(m1, root, p) == Walk(m1, k, p) <==> TopOf(p) in s
  {
    hide Entry, Inv, Grown, Updated, Popped, Under, Joint;
    JointSymmetric(m0, root, k, free, s);
    OtherRoot(m0, m1, k, root, free, s, news, free1);
    TopUnder(p, s);
    UpdatedAt(m0, m1, k, news, p, value);
  }

  /** One mapping made through the kernel's root: the memory and the free frames it leaves. */
  datatype Mapping = Mapping(m: Memory, free: seq<nat>, news: seq<nat>, page: nat, value: nat)

  ghost predicate Maps(m: Memory, free: seq<nat>, k: nat, c: Mapping) {
    Grown(m, c.m, k, c.news) && Inv(c.m, k, c.free) && Popped(free, c.news, c.free) && Updated(m, c.m, k, c.news, c.page, c.value)
  }

  /** Each of `run` is what page_table_set_entry through the kernel's root does to what the one before left. */
  ghost predicate KernelRun(m: Memory, free: seq<nat>, k: nat, run: seq<Mapping>)
    decreases |run|
  {
    run != [] ==> Maps(m, free, k, run[0]) && KernelRun(run[0].m, run[0].free, k, run[1..])
  }

  ghost function EndOf(m: Memory, free: seq<nat>, run: seq<Mapping>): (Memory, seq<nat>) {
    if run == [] then (m, free) else (run[|run| - 1].m, run[|run| - 1].free)
  }

  /**
   After any run of kernel mappings, including those that add level-3 entries, a shared page is the same
   from both roots and any other page is from `root` what it was before the run.
  */
  lemma {:induction false} KernelRunSeen(m: Memory, free: seq<nat>, root: nat, k: nat, s: set<Node>, run: seq<Mapping>, p: nat)
    requires Joint(m, root, k, free, s) && KernelRun(m, free, k, run) && p < PAGES
    ensures var (m', free') := EndOf(m, free, run);
            && Joint(m', root, k, free', s)
            && Walk(m', root, p) == if Under(Node(0, p), s) then Walk(m', k, p) else Walk(m, root, p)
    decreases |run|
  {
    hide Entry, Inv, Grown, Updated, Popped, Under, Joint, Walk;
    JointWalk(m, root, k, free, s, p);
    if run != [] {
      var c := run[0];
      JointSymmetric(m, root, k, free, s);
      OtherRoot(m, c.m, k, root, free, s, c.news, c.free);
      JointSymmetric(c.m, k, root, c.free, s);
      KernelRunSeen(c.m, c.free, root, k, s, run[1..], p);
    }
  }

  /**
   For the set that create_user_page returns: after any later run of kernel mappings, a page of the top
   2 GB that the kernel then has is seen in the space if and only if its level-3 entry was present when the
   space was made.
  */
  lemma LaterSeenIff(m: Memory, free: seq<nat>, root: nat, k: nat, run: seq<Mapping>, p: nat)
    requires Joint(m, root, k, free, Borrowed(m, k)) && SeesKernel(m, root, k) && KernelRun(m, free, k, run)
    requires DIRECT_BASE <= p < PAGES && Walk(EndOf(m, free, run).0, k, p).Some?
    ensures Walk(EndOf(m, free, run).0, root, p) == Walk(EndOf(m, free, run).0, k, p) <==> Entry(m, k, TopOf(p)).Some?
  {
    hide Entry, Joint, KernelRun, Under;
    var s := Borrowed(m, k);
    KernelRunSeen(m, free, root, k, s, run, p);
    TopUnder(p, s);
    if TopOf(p) !in s {
      NoTop(m, k, p);
    }
  }

  lemma NoTop(m: Memory, k: nat, p: nat)
    requires DIRECT_BASE <= p < PAGES && Entry(m, k, TopOf(p)).None?
    ensures Walk(m, k, p) == None
  {
    var q := p / 512 / 512;
    assert q == p / 0x4_0000;
    assert Up(Node(0, p)) == Node(1, p / 512) && Up(Node(1, p / 512)) == Node(2, q) && Node(2, q) == TopOf(p);
    Child(m, k, Node(1, p / 512));
    Child(m, k, Node(0, p));
  }
}
