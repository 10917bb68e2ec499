/**
 `page_table_set_entry` of kernel/memory/page.c.

 `page_table_set_entry` allocates the missing tables on its way down and, for each of them, calls
 itself to map the new table at its direct-map address, which may need further tables.
*/
module PageTables {
  import opened DistinctSeq
  import opened FrameAllocator
  import opened Frames
  import opened Options
  import opened PageWalk

  // ---------------------------------------------------------------------------------------------
  // What a call does to the memory
  // ---------------------------------------------------------------------------------------------

  /** The tables form a tree and every free frame is blank and outside it. */
  ghost predicate Inv(m: Memory, root: nat, free: seq<nat>) {
    && WellSized(m) && Tree(m, root)
    && Distinct(free)
    && (forall f :: f in free ==> Blank(m, f) && !IsTable(m, root, f))
  }

  /** The nodes of `k` that have no table yet. */
  ghost function Absent(m: Memory, root: nat, k: set<Node>): set<Node> {
    set n | n in k && IsNode(n) && n.level >= 1 && Entry(m, root, n).None?
  }

  /** `k` holds every table node above `page` and above every direct-map page. */
  ghost predicate Covers(k: set<Node>, page: nat) {
    && (forall level :: 1 <= level <= 3 ==> HighNode(page, level) in k)
    && (forall f, level :: 0 <= f < DIRECT_FRAMES && 1 <= level <= 3 ==> HighNode(DirectPage(f), level) in k)
  }

  /** Tables are only added, all of them from `news`, and nothing else is written. */
  ghost predicate Grown(m0: Memory, m1: Memory, root: nat, news: seq<nat>) {
    && |m1| == |m0|
    && (forall n | IsNode(n) && n.level >= 1 :: Entry(m0, root, n).Some? ==> Entry(m1, root, n) == Entry(m0, root, n))
    && (forall n | IsNode(n) && n.level >= 1 :: Entry(m1, root, n).Some? && Entry(m0, root, n).None? ==>
          Table(m1, root, n).value in news)
    && (forall f | 0 <= f < |m0| && !IsTable(m1, root, f) :: m1[f] == m0[f])
  }

  /** The walk of a page once the tables `news` are mapped at their direct-map pages. */
  ghost function WithTables(m0: Memory, root: nat, news: seq<nat>, p: nat): Option<nat> {
    if DIRECT_BASE <= p && p - DIRECT_BASE in news then Some(TableEntry(p - DIRECT_BASE)) else Walk(m0, root, p)
  }

  ghost predicate Mapped(m0: Memory, m1: Memory, root: nat, news: seq<nat>) {
    forall p | 0 <= p < PAGES :: Walk(m1, root, p) == WithTables(m0, root, news, p)
  }

  function Leaf(value: nat): Option<nat> {
    if Present(value) then Some(OrCache(value)) else None
  }

  /** The map update: `page` gets `value`, each new table its direct-map entry, and no other page moves. */
  ghost predicate Updated(m0: Memory, m1: Memory, root: nat, news: seq<nat>, page: nat, value: nat) {
    forall p | 0 <= p < PAGES ::
      Walk(m1, root, p) == if p == page then Leaf(value) else WithTables(m0, root, news, p)
  }

  /** `news` are the frames popped one by one from the tail of `free`, leaving `free'`. */
  ghost predicate Popped(free: seq<nat>, news: seq<nat>, free': seq<nat>) {
    && |free| == |free'| + |news|
    && free' == free[..|free'|]
    && forall i :: 0 <= i < |news| ==> news[i] == free[|free| - 1 - i]
  }

  // ---------------------------------------------------------------------------------------------
  // Writing the slot of an absent table
  // ---------------------------------------------------------------------------------------------

  /** The two memories have the same entries, except that node `n` has gained the table `f`. */
  ghost predicate AddsTable(m: Memory, m1: Memory, root: nat, n: Node, f: nat) {
    forall b: Node | IsNode(b) ::
      Entry(m1, root, b) == if b == n then Some(TableEntry(f)) else Entry(m, root, b)
  }

  lemma AddsTableIsTable(m: Memory, m1: Memory, root: nat, n: Node, f: nat, g: nat)
    requires IsNode(n) && 1 <= n.level <= 3 && Entry(m, root, n).None?
    requires AddsTable(m, m1, root, n, f)
    ensures IsTable(m1, root, g) <==> IsTable(m, root, g) || g == f
  {
    hide Entry;
    if IsTable(m1, root, g) {
      var b :| IsNode(b) && b.level >= 1 && Table(m1, root, b) == Some(g);
      assert b == n || Table(m, root, b) == Some(g);
    }
    if IsTable(m, root, g) {
      var b :| IsNode(b) && b.level >= 1 && Table(m, root, b) == Some(g);
      assert Table(m1, root, b) == Some(g);
    }
    assert Table(m1, root, n) == Some(f);
  }

  lemma AddsTableTree(m: Memory, m1: Memory, root: nat, n: Node, f: nat)
    requires Tree(m, root) && |m1| == |m| && f < |m| && !IsTable(m, root, f)
    requires IsNode(n) && 1 <= n.level <= 3 && Entry(m, root, n).None?
    requires AddsTable(m, m1, root, n, f)
    ensures Tree(m1, root)
  {
    hide Entry;
    forall b: Node | IsNode(b) && b.level >= 1
      ensures Table(m1, root, b) == if b == n then Some(f) else Table(m, root, b)
      ensures Table(m, root, b) == Some(f) ==> IsTable(m, root, f)
    {
    }
  }

  lemma AddsTableInv(m: Memory, m1: Memory, root: nat, free: seq<nat>, n: Node, t: nat)
    requires Inv(m, root, free) && free != [] && IsTable(m, root, t) && t < |m|
    requires IsNode(n) && 1 <= n.level <= 3 && Entry(m, root, n).None?
    requires AddsTable(m, m1, root, n, Last(free))
    requires |m1| == |m| && |m1[t]| == 512 && forall g :: 0 <= g < |m| && g != t ==> m1[g] == m[g]
    ensures Inv(m1, root, Front(free)) && Grown(m, m1, root, [Last(free)])
  {
    hide Entry;
    var f := Last(free);
    assert Blank(m, f);
    AddsTableTree(m, m1, root, n, f);
    forall g: nat
      ensures IsTable(m1, root, g) <==> IsTable(m, root, g) || g == f
    {
      AddsTableIsTable(m, m1, root, n, f, g);
    }
    FrontIs(free);
  }

  lemma AbsentSome(m: Memory, root: nat, k: set<Node>, n: Node)
    requires n in k && IsNode(n) && n.level >= 1 && Entry(m, root, n).None?
    ensures |Absent(m, root, k)| >= 1
  {
    assert n in Absent(m, root, k);
  }

  /** One absent node less. */
  lemma AbsentLess(m: Memory, m1: Memory, root: nat, k: set<Node>, n: Node, f: nat)
    requires IsNode(n) && n.level >= 1 && n in k && Entry(m, root, n).None?
    requires AddsTable(m, m1, root, n, f)
    ensures |Absent(m1, root, k)| == |Absent(m, root, k)| - 1
  {
    hide Entry;
    assert n in Absent(m, root, k);
    assert Absent(m1, root, k) == Absent(m, root, k) - {n};
  }

  lemma AddsTableMapped(m: Memory, m1: Memory, root: nat, n: Node, f: nat)
    requires n.level >= 1 && AddsTable(m, m1, root, n, f)
    ensures Mapped(m, m1, root, [])
  {
    hide Entry;
  }

  lemma TableWriteAdds(m: Memory, root: nat, free: seq<nat>, n: Node)
    requires Inv(m, root, free) && free != []
    requires IsNode(n) && 1 <= n.level <= 3
    requires Table(m, root, Up(n)).Some? && Entry(m, root, n).None?
    ensures var f := Last(free); var t := Table(m, root, Up(n)).value;
            && t < |m| && |m[t]| == 512 && f < DIRECT_FRAMES && IsTable(m, root, t)
            && AddsTable(m, Put(m, t, n.prefix % 512, TableEntry(f)), root, n, f)
  {
    hide Entry;
    var f := Last(free);
    assert IsNode(Up(n)) && Blank(m, f);
    var t := Table(m, root, Up(n)).value;
    assert Table(m, root, Up(n)) == Some(t) && IsTable(m, root, t);
    TableEntryIsCached(f);
    forall b: Node | IsNode(b)
      ensures Entry(Put(m, t, n.prefix % 512, TableEntry(f)), root, b) ==
              if b == n then Some(TableEntry(f)) else Entry(m, root, b)
    {
      EntryWrite(m, root, n, TableEntry(f), b);
    }
  }

  /** Giving an absent node the last free frame adds that table and changes no walk. */
  lemma TableWrite(m: Memory, root: nat, free: seq<nat>, n: Node, k: set<Node>)
    requires Inv(m, root, free) && free != []
    requires IsNode(n) && 1 <= n.level <= 3 && n in k
    requires Table(m, root, Up(n)).Some? && Entry(m, root, n).None?
    ensures var f := Last(free); var t := Table(m, root, Up(n)).value;
            t < |m| && |m[t]| == 512 && f < DIRECT_FRAMES &&
            var m1 := Put(m, t, n.prefix % 512, TableEntry(f));
            && Inv(m1, root, Front(free))
            && Grown(m, m1, root, [f]) && Mapped(m, m1, root, [])
            && Entry(m1, root, n) == Some(TableEntry(f))
            && |Absent(m1, root, k)| == |Absent(m, root, k)| - 1
  {
    hide Entry, Absent, Inv, Grown, Mapped, IsTable;
    var f := Last(free);
    TableWriteAdds(m, root, free, n);
    var t := Table(m, root, Up(n)).value;
    var m1 := Put(m, t, n.prefix % 512, TableEntry(f));
    AbsentLess(m, m1, root, k, n, f);
    AddsTableInv(m, m1, root, free, n, t);
    AddsTableMapped(m, m1, root, n, f);
  }

  // ---------------------------------------------------------------------------------------------
  // Writing the slot of a page
  // ---------------------------------------------------------------------------------------------

  /** The two memories have the same entries, except that `page` has the leaf `leaf`. */
  ghost predicate SetsLeaf(m: Memory, m1: Memory, root: nat, page: nat, leaf: Option<nat>) {
    forall b: Node | IsNode(b) ::
      Entry(m1, root, b) == if b == Node(0, page) then leaf else Entry(m, root, b)
  }

  lemma Parity(v: nat, q: nat, r: nat)
    requires v == 2 * q + r
    ensures v % 2 == r % 2
  {
  }

  /** The cache bits do not touch the present bit. */
  lemma OrCachePresent(v: nat)
    ensures Present(OrCache(v)) <==> Present(v)
  {
    Parity(v, 4 * (v / 8), v % 8);
    Parity(OrCache(v), 16 * (v / 32) + 12, v % 8);
  }

  lemma UpOfPage(page: nat)
    requires page < PAGES
    ensures IsNode(Node(0, page)) && IsNode(HighNode(page, 1)) && Up(Node(0, page)) == HighNode(page, 1)
  {
    HighIsNode(page, 0);
    HighIsNode(page, 1);
  }

  lemma TableBounds(m: Memory, root: nat, n: Node)
    requires WellSized(m) && Tree(m, root) && IsNode(n) && n.level >= 1 && Table(m, root, n).Some?
    ensures Table(m, root, n).value < |m| && |m[Table(m, root, n).value]| == 512 && IsTable(m, root, Table(m, root, n).value)
  {
  }

  lemma LeafWriteSets(m: Memory, root: nat, page: nat, value: nat)
    requires WellSized(m) && Tree(m, root) && page < PAGES
    requires Table(m, root, HighNode(page, 1)).Some?
    ensures var t := Table(m, root, HighNode(page, 1)).value;
            && t < |m| && |m[t]| == 512 && IsTable(m, root, t)
            && SetsLeaf(m, Put(m, t, page % 512, OrCache(value)), root, page, Leaf(value))
  {
    hide Entry, OrCache, Present, Tree, WellSized, IsTable;
    var n := Node(0, page);
    OrCachePresent(value);
    UpOfPage(page);
    TableBounds(m, root, Up(n));
    var t := Table(m, root, Up(n)).value;
    forall b: Node | IsNode(b)
      ensures Entry(Put(m, t, page % 512, OrCache(value)), root, b) == if b == n then Leaf(value) else Entry(m, root, b)
    {
      EntryWrite(m, root, n, OrCache(value), b);
    }
  }

  lemma SetsLeafInv(m: Memory, m1: Memory, root: nat, free: seq<nat>, page: nat, leaf: Option<nat>, t: nat)
    requires Inv(m, root, free) && SetsLeaf(m, m1, root, page, leaf)
    requires IsTable(m, root, t) && t < |m|
    requires |m1| == |m| && |m1[t]| == 512 && forall g :: 0 <= g < |m| && g != t ==> m1[g] == m[g]
    ensures Inv(m1, root, free) && Grown(m, m1, root, [])
  {
    hide Entry;
    SameTables(m, m1, root);
  }

  lemma LeafWrite(m: Memory, root: nat, free: seq<nat>, page: nat, value: nat, k: set<Node>)
    requires Inv(m, root, free) && page < PAGES
    requires Table(m, root, HighNode(page, 1)).Some?
    ensures var t := Table(m, root, HighNode(page, 1)).value;
            t < |m| && |m[t]| == 512 &&
            var m1 := Put(m, t, page % 512, OrCache(value));
            && Inv(m1, root, free)
            && Grown(m, m1, root, []) && Updated(m, m1, root, [], page, value)
            && Absent(m1, root, k) == Absent(m, root, k)
  {
    hide Entry, Grown, IsTable, Tree, WellSized;
    LeafWriteSets(m, root, page, value);
    var t := Table(m, root, HighNode(page, 1)).value;
    SetsLeafInv(m, Put(m, t, page % 512, OrCache(value)), root, free, page, Leaf(value), t);
  }

  /** Memories with the same table entries have the same tables. */
  lemma SameTables(m: Memory, m1: Memory, root: nat)
    requires forall b: Node | IsNode(b) && b.level >= 1 :: Entry(m1, root, b) == Entry(m, root, b)
    ensures forall g: nat :: IsTable(m1, root, g) <==> IsTable(m, root, g)
    ensures Tree(m, root) && |m1| == |m| ==> Tree(m1, root)
  {
    hide Entry;
    forall g: nat
      ensures IsTable(m1, root, g) <==> IsTable(m, root, g)
    {
      if IsTable(m1, root, g) {
        var b :| IsNode(b) && b.level >= 1 && Table(m1, root, b) == Some(g);
        assert Table(m, root, b) == Some(g);
      }
      if IsTable(m, root, g) {
        var b :| IsNode(b) && b.level >= 1 && Table(m, root, b) == Some(g);
        assert Table(m1, root, b) == Some(g);
      }
    }
    assert forall b: Node | IsNode(b) && b.level >= 1 :: Table(m1, root, b) == Table(m, root, b);
  }

  // ---------------------------------------------------------------------------------------------
  // Putting steps together
  // ---------------------------------------------------------------------------------------------

  lemma GrownKeeps(a: Memory, b: Memory, root: nat, news: seq<nat>, f: nat)
    requires Grown(a, b, root, news)
    ensures IsTable(a, root, f) ==> IsTable(b, root, f)
  {
    hide Entry;
    if IsTable(a, root, f) {
      var n :| IsNode(n) && n.level >= 1 && Table(a, root, n) == Some(f);
      assert Table(b, root, n) == Some(f);
    }
  }

  lemma GrownTrans(a: Memory, b: Memory, c: Memory, root: nat, n1: seq<nat>, n2: seq<nat>)
    requires Grown(a, b, root, n1) && Grown(b, c, root, n2)
    ensures Grown(a, c, root, n1 + n2)
  {
    hide Entry;
    forall f: nat
      ensures IsTable(b, root, f) ==> IsTable(c, root, f)
    {
      GrownKeeps(b, c, root, n2, f);
    }
  }

  lemma GrownEntry(a: Memory, b: Memory, root: nat, news: seq<nat>, n: Node)
    requires Grown(a, b, root, news) && IsNode(n) && n.level >= 1 && Entry(a, root, n).Some?
    ensures Entry(b, root, n) == Entry(a, root, n)
  {
    hide Entry;
  }

  lemma PoppedOne(free: seq<nat>)
    requires free != []
    ensures Popped(free, [Last(free)], Front(free))
  {
  }

  lemma PoppedLess(a: seq<nat>, news: seq<nat>, b: seq<nat>)
    requires Popped(a, news, b)
    ensures |b| <= |a|
  {
  }

  lemma PoppedTrans(a: seq<nat>, n1: seq<nat>, b: seq<nat>, n2: seq<nat>, c: seq<nat>)
    requires Popped(a, n1, b) && Popped(b, n2, c)
    ensures Popped(a, n1 + n2, c)
  {
  }

  lemma TableEntryIsCached(f: nat)
    ensures OrCache(TableEntry(f)) == TableEntry(f) && Present(TableEntry(f)) && FrameOf(TableEntry(f)) == f
  {
    var v := TableEntry(f);
    Div32(128 * f, v, 31);
    Mod8(512 * f + 3, v, 7);
    Mod2(2048 * f + 15, v);
    Div4096(f, v, 31);
  }

  /** A table is added, and then mapped, together with the tables that this needs. */
  lemma MappedStep(m: Memory, m1: Memory, m2: Memory, root: nat, f: nat, more: seq<nat>)
    requires Mapped(m, m1, root, [])
    requires f < DIRECT_FRAMES && Updated(m1, m2, root, more, DirectPage(f), TableEntry(f))
    ensures Mapped(m, m2, root, [f] + more)
  {
    hide Entry;
    TableEntryIsCached(f);
  }

  lemma MappedTrans(m0: Memory, m1: Memory, m2: Memory, root: nat, n1: seq<nat>, n2: seq<nat>)
    requires Mapped(m0, m1, root, n1) && Mapped(m1, m2, root, n2)
    ensures Mapped(m0, m2, root, n1 + n2)
  {
    hide Entry, TableEntry;
  }

  lemma UpdatedLast(m0: Memory, m: Memory, m1: Memory, root: nat, news: seq<nat>, page: nat, value: nat)
    requires Mapped(m0, m, root, news) && Updated(m, m1, root, [], page, value)
    ensures Updated(m0, m1, root, news, page, value)
  {
    hide Entry;
  }

  lemma Start(m: Memory, root: nat, free: seq<nat>, page: nat)
    requires page < PAGES
    ensures Grown(m, m, root, []) && Mapped(m, m, root, []) && Popped(free, [], free)
    ensures Table(m, root, HighNode(page, 4)) == Some(root)
  {
    assert FrameOf(root * 4096 + 1) == root;
  }

  /** What the loop reads: the slot of the next node down. */
  lemma ReadSlot(m: Memory, root: nat, free: seq<nat>, va: nat, level: nat, pml: nat)
    requires Inv(m, root, free) && 1 <= level <= 4
    requires Table(m, root, HighNode(PageOf(va), level)) == Some(pml)
    ensures pml < |m| && |m[pml]| == 512
    ensures var n := HighNode(PageOf(va), level - 1);
            && IsNode(n) && n.level == level - 1 && Up(n) == HighNode(PageOf(va), level)
            && n.prefix % 512 == PmlOffset(va, level) && (level == 1 ==> n.prefix == PageOf(va))
            && var w := m[pml][PmlOffset(va, level)];
               Entry(m, root, n) == if Present(w) then Some(w) else None
  {
    HighIsNode(PageOf(va), level);
    HighIsNode(PageOf(va), level - 1);
    OffsetIsDigit(va, level);
  }

  /** A page below an absent table has no level-1 table. */
  lemma {:induction false} AbsentBelow(m: Memory, root: nat, page: nat, level: nat)
    requires page < PAGES && 1 <= level <= 3 && Entry(m, root, HighNode(page, level)).None?
    ensures Entry(m, root, HighNode(page, 1)).None?
  {
    if level > 1 {
      HighIsNode(page, level - 1);
      AbsentBelow(m, root, page, level - 1);
    }
  }

  lemma CoversAt(k: set<Node>, page: nat, level: nat)
    requires Covers(k, page) && 1 <= level <= 3
    ensures HighNode(page, level) in k
  {
  }

  lemma CoversDirect(k: set<Node>, page: nat, f: nat)
    requires Covers(k, page) && f < DIRECT_FRAMES
    ensures Covers(k, DirectPage(f))
  {
  }

  lemma FramesOk(frames: FrameTable)
    requires frames.Valid()
    ensures Ok(frames.Abs())
  {
  }

  lemma AllocKernel(a: Alloc)
    requires Ok(a)
    ensures var (a', r) := AllocStep(a, PgKernel);
            if a.free == [] then !r.Frame? else r == Frame(Last(a.free)) && a'.free == Front(a.free)
  {
  }

  /**
   The accounts of the allocating branch: memory `m` with free list `free` gains table `f` and becomes
   `m1`, and the recursive call turns that into `m2` and `free2`.
  */
  lemma Trip(m: Memory, free: seq<nat>, m1: Memory, n: Node, more: seq<nat>, m2: Memory, free2: seq<nat>, root: nat)
    requires free != [] && Last(free) < DIRECT_FRAMES
    requires Grown(m, m1, root, [Last(free)]) && Mapped(m, m1, root, [])
    requires Grown(m1, m2, root, more) && Popped(Front(free), more, free2)
    requires Updated(m1, m2, root, more, DirectPage(Last(free)), TableEntry(Last(free)))
    requires IsNode(n) && n.level >= 1 && Entry(m1, root, n) == Some(TableEntry(Last(free)))
    ensures var news := [Last(free)] + more;
            Grown(m, m2, root, news) && Mapped(m, m2, root, news) && Popped(free, news, free2)
    ensures Entry(m2, root, n) == Some(TableEntry(Last(free)))
    ensures |free2| < |free|
  {
    hide Entry, Grown, Mapped, Updated, Popped;
    var f := Last(free);
    GrownEntry(m1, m2, root, more, n);
    GrownTrans(m, m1, m2, root, [f], more);
    MappedStep(m, m1, m2, root, f, more);
    PoppedOne(free);
    PoppedTrans(free, [f], Front(free), more, free2);
    PoppedLess(Front(free), more, free2);
  }

  /** What one trip adds to the trips before it. */
  lemma Joined(m0: Memory, free0: seq<nat>, n1: seq<nat>, m1: Memory, free1: seq<nat>, n2: seq<nat>, m2: Memory,
               free2: seq<nat>, root: nat)
    requires Grown(m0, m1, root, n1) && Mapped(m0, m1, root, n1) && Popped(free0, n1, free1)
    requires Grown(m1, m2, root, n2) && Mapped(m1, m2, root, n2) && Popped(free1, n2, free2)
    ensures Grown(m0, m2, root, n1 + n2) && Mapped(m0, m2, root, n1 + n2) && Popped(free0, n1 + n2, free2)
  {
    hide Entry, Grown, Mapped, Popped;
    GrownTrans(m0, m1, m2, root, n1, n2);
    MappedTrans(m0, m1, m2, root, n1, n2);
    PoppedTrans(free0, n1, free1, n2, free2);
  }

  // ---------------------------------------------------------------------------------------------
  // How many frames are enough, and why they must be blank
  // ---------------------------------------------------------------------------------------------

  ghost function PtNode(i: nat): Node {
    Node(1, 0x7ff_fc00 + i)
  }

  ghost function PtNodes(n: nat): (r: set<Node>)
    ensures |r| <= n
    ensures forall i | 0 <= i < n :: PtNode(i) in r
  {
    if n == 0 then {} else PtNodes(n - 1) + {PtNode(n - 1)}
  }

  /** The three table nodes above a direct-map page. */
  lemma DirectNodes(f: nat)
    requires f < DIRECT_FRAMES
    ensures HighNode(DirectPage(f), 3) == Node(3, 511)
    ensures HighNode(DirectPage(f), 2) == Node(2, 0x3_fffe + f / 0x4_0000)
    ensures HighNode(DirectPage(f), 1) == PtNode(f / 512)
  {
    assert Prefix(DirectPage(f), 1) == DirectPage(f) / 512 == 0x7ff_fc00 + f / 512;
    assert Prefix(DirectPage(f), 2) == Prefix(DirectPage(f), 1) / 512 == 0x3_fffe + f / 512 / 512;
    assert f / 512 / 512 == f / 0x4_0000;
    assert Prefix(DirectPage(f), 3) == Prefix(DirectPage(f), 2) / 512 == 511;
  }

  /** A thousand and thirty free frames are enough for any call, from any tree. */
  lemma EnoughFrames(m: Memory, root: nat, page: nat) returns (k: set<Node>)
    requires page < PAGES
    ensures Covers(k, page) && |Absent(m, root, k)| <= 1030
  {
    hide Entry, HighNode, PtNodes, PtNode, Absent;
    var path := {HighNode(page, 1), HighNode(page, 2), HighNode(page, 3)};
    var top := {Node(3, 511), Node(2, 0x3_fffe), Node(2, 0x3_ffff)};
    k := path + top + PtNodes(1024);
    assert |path + top| <= 6;
    forall f, level | 0 <= f < DIRECT_FRAMES && 1 <= level <= 3
      ensures HighNode(DirectPage(f), level) in k
    {
      DirectNodeIn(f, level);
    }
    AbsentCount(m, root, k);
  }

  lemma DirectNodeIn(f: nat, level: nat)
    requires f < DIRECT_FRAMES && 1 <= level <= 3
    ensures var top := {Node(3, 511), Node(2, 0x3_fffe), Node(2, 0x3_ffff)};
            HighNode(DirectPage(f), level) in top || HighNode(DirectPage(f), level) in PtNodes(1024)
  {
    hide HighNode, PtNodes;
    DirectNodes(f);
    assert f / 512 < 1024;
    assert PtNode(f / 512) in PtNodes(1024);
    assert f / 0x4_0000 < 2;
  }

  lemma AbsentCount(m: Memory, root: nat, k: set<Node>)
    ensures |Absent(m, root, k)| <= |k|
  {
    hide Entry;
    SubsetCount(Absent(m, root, k), k);
  }

  lemma {:induction false} SubsetCount(a: set<Node>, b: set<Node>)
    requires a <= b
    ensures |a| <= |b|
  {
    assert b == a + (b - a);
    assert a !! b - a;
  }

  /** Seen as a table of that level, the frame leads to no page. */
  ghost predicate MapsNothing(m: Memory, f: nat, level: nat)
    decreases level
  {
    forall i :: 0 <= i < 512 && Present(Word(m, f, i)) ==> level > 1 && MapsNothing(m, FrameOf(Word(m, f, i)), level - 1)
  }

  ghost predicate Below(page: nat, n: Node) {
    n.level <= 4 && HighNode(page, n.level) == n
  }

  ghost function ChildOf(n: Node, i: nat): Node
    requires n.level >= 1
  {
    Node(n.level - 1, n.prefix * 512 + i)
  }

  lemma ChildIs(n: Node, i: nat)
    requires IsNode(n) && n.level >= 1 && i < 512
    ensures IsNode(ChildOf(n, i)) && Up(ChildOf(n, i)) == n && ChildOf(n, i).prefix % 512 == i
    ensures ChildOf(n, i).level == n.level - 1 <= 3
  {
  }

  /** If the table of a node leads nowhere, no page below the node is mapped. */
  lemma {:induction false} NothingBelow(m: Memory, root: nat, n: Node, f: nat, p: nat)
    requires IsNode(n) && n.level >= 1 && Table(m, root, n) == Some(f) && MapsNothing(m, f, n.level)
    requires p < PAGES && Below(p, n)
    ensures Walk(m, root, p) == None
    decreases n.level
  {
    hide Entry, Word, Present, FrameOf;
    var c := HighNode(p, n.level - 1);
    HighIsNode(p, n.level - 1);
    Child(m, root, c);
    var w := Word(m, f, c.prefix % 512);
    if Present(w) {
      TableOf(m, root, c, w);
      NothingBelow(m, root, c, FrameOf(w), p);
    } else {
      AbsentPage(m, root, p, n.level - 1);
    }
  }

  lemma TableOf(m: Memory, root: nat, n: Node, w: nat)
    requires Entry(m, root, n) == Some(w)
    ensures Table(m, root, n) == Some(FrameOf(w))
  {
  }

  /** Otherwise some page below it is. */
  lemma {:induction false} SomethingBelow(m: Memory, root: nat, n: Node, f: nat) returns (p: nat)
    requires IsNode(n) && n.level >= 1 && Table(m, root, n) == Some(f) && !MapsNothing(m, f, n.level)
    ensures p < PAGES && Below(p, n) && Walk(m, root, p).Some?
    decreases n.level
  {
    hide Entry, Word, Present, FrameOf, IsNode, Up;
    var i :| 0 <= i < 512 && Present(Word(m, f, i)) && (n.level == 1 || !MapsNothing(m, FrameOf(Word(m, f, i)), n.level - 1));
    var c, w := ChildOf(n, i), Word(m, f, i);
    ChildIs(n, i);
    Child(m, root, c);
    if n.level == 1 {
      p := c.prefix;
      LeafBelow(c);
    } else {
      TableOf(m, root, c, w);
      p := SomethingBelow(m, root, c, FrameOf(w));
      BelowUp(p, c);
    }
  }

  lemma LeafBelow(c: Node)
    requires IsNode(c) && c.level == 0
    ensures c.prefix < PAGES && Below(c.prefix, c) && Below(c.prefix, Up(c)) && c == Node(0, c.prefix)
  {
    HighIsNode(c.prefix, 0);
  }

  lemma BelowUp(p: nat, c: Node)
    requires p < PAGES && c.level <= 3 && Below(p, c)
    ensures Below(p, Up(c))
  {
    HighIsNode(p, c.level);
  }

  /** Writing the slot of an absent table touches no walk outside it, whatever the new frame holds. */
  lemma {:induction false} OutsideSame(m: Memory, root: nat, n: Node, w: nat, p: nat, level: nat)
    requires Tree(m, root) && WellSized(m) && IsNode(n) && 1 <= n.level <= 3 && Table(m, root, Up(n)).Some?
    requires p < PAGES && !Below(p, n) && level <= 4
    ensures IsNode(Up(n)) && Table(m, root, Up(n)).value < |m|
    ensures Entry(Put(m, Table(m, root, Up(n)).value, n.prefix % 512, w), root, HighNode(p, level))
         == Entry(m, root, HighNode(p, level))
    decreases 4 - level
  {
    var t := Table(m, root, Up(n)).value;
    HighIsNode(p, level);
    if level < 4 {
      OutsideSame(m, root, n, w, p, level + 1);
      HighIsNode(p, level + 1);
      var b := HighNode(p, level);
      if Table(m, root, Up(b)) == Some(t) {
        assert Up(b) == Up(n);
        assert b != n;
      }
    }
  }

  /**
   page_table_set_entry does not clear a table that it allocates.  A new table, of any level, leaves every
   page as it was exactly when the frame that it got happened to lead to no page.
  */
  lemma DirtyTable(m: Memory, root: nat, n: Node, f: nat)
    requires WellSized(m) && Tree(m, root)
    requires IsNode(n) && 1 <= n.level <= 3 && Entry(m, root, n).None? && Table(m, root, Up(n)).Some?
    ensures var t := Table(m, root, Up(n)).value;
            t < |m| && |m[t]| == 512 &&
            var m1 := Put(m, t, n.prefix % 512, TableEntry(f));
            (forall p | 0 <= p < PAGES :: Walk(m1, root, p) == Walk(m, root, p)) <==> MapsNothing(m1, f, n.level)
  {
    hide Entry, MapsNothing, Below, Tree, WellSized, IsNode, Word, Present, FrameOf;
    UpIsNode(n);
    TableBounds(m, root, Up(n));
    var t := Table(m, root, Up(n)).value;
    var m1 := Put(m, t, n.prefix % 512, TableEntry(f));
    TableEntryIsCached(f);
    NewEntry(m, root, n, f);
    TableOf(m1, root, n, TableEntry(f));
    forall p | 0 <= p < PAGES
      ensures !Below(p, n) ==> Walk(m1, root, p) == Walk(m, root, p)
      ensures Below(p, n) ==> Walk(m, root, p) == None
      ensures Below(p, n) && MapsNothing(m1, f, n.level) ==> Walk(m1, root, p) == None
    {
      if !Below(p, n) {
        OutsideSame(m, root, n, TableEntry(f), p, 0);
      } else {
        BelowIs(p, n);
        AbsentPage(m, root, p, n.level);
        if MapsNothing(m1, f, n.level) {
          NothingBelow(m1, root, n, f, p);
        }
      }
    }
    if !MapsNothing(m1, f, n.level) {
      var p := SomethingBelow(m1, root, n, f);
      assert Walk(m1, root, p) != Walk(m, root, p);
    }
  }

  lemma BelowIs(p: nat, n: Node)
    requires Below(p, n)
    ensures HighNode(p, n.level) == n
  {
  }

  lemma UpIsNode(n: Node)
    requires IsNode(n) && n.level <= 3
    ensures IsNode(Up(n)) && Up(n).level == n.level + 1
  {
  }

  lemma NewEntry(m: Memory, root: nat, n: Node, f: nat)
    requires WellSized(m) && Tree(m, root) && IsNode(n) && 1 <= n.level <= 3 && Table(m, root, Up(n)).Some?
    ensures IsNode(Up(n)) && Table(m, root, Up(n)).value < |m| && |m[Table(m, root, Up(n)).value]| == 512
    ensures Entry(Put(m, Table(m, root, Up(n)).value, n.prefix % 512, TableEntry(f)), root, n) == Some(TableEntry(f))
  {
    var t := Table(m, root, Up(n)).value;
    var m1 := Put(m, t, n.prefix % 512, TableEntry(f));
    TableEntryIsCached(f);
    UpKept(m, root, n, TableEntry(f), n.level + 1);
  }

  /** The entries above the slot that is written stay. */
  lemma {:induction false} UpKept(m: Memory, root: nat, n: Node, w: nat, level: nat)
    requires WellSized(m) && Tree(m, root) && IsNode(n) && 1 <= n.level <= 3 && Table(m, root, Up(n)).Some?
    requires n.level < level <= 4
    ensures IsNode(Up(n)) && Table(m, root, Up(n)).value < |m|
    ensures forall b | IsNode(b) && b.level == level ::
              Entry(Put(m, Table(m, root, Up(n)).value, n.prefix % 512, w), root, b) == Entry(m, root, b)
    decreases 4 - level
  {
    forall b | IsNode(b) && b.level == level
      ensures Entry(Put(m, Table(m, root, Up(n)).value, n.prefix % 512, w), root, b) == Entry(m, root, b)
    {
      if level < 4 {
        UpKept(m, root, n, w, level + 1);
        assert IsNode(Up(b)) && Up(b) != Up(n);
      }
    }
  }

  function Zeros(): (r: seq<nat>)
    ensures |r| == 512 && forall i :: 0 <= i < 512 ==> r[i] == 0
  {
    seq(512, _ => 0)
  }

  function Row(v: nat): (r: seq<nat>)
    ensures |r| == 512 && r[0] == v && forall i :: 0 < i < 512 ==> r[i] == 0
  {
    Zeros()[0 := v]
  }

  /** A root with one table of level 3 and one of level 2, and a frame with one present word. */
  function DirtyMemory(): Memory {
    [Row(TableEntry(1)), Row(TableEntry(2)), Zeros(), Row(7)]
  }

  lemma DirtyWords(i: nat)
    requires i < 512
    ensures Word(DirtyMemory(), 0, i) == (if i == 0 then TableEntry(1) else 0)
    ensures Word(DirtyMemory(), 1, i) == (if i == 0 then TableEntry(2) else 0)
    ensures Word(DirtyMemory(), 2, i) == 0 && !Present(0)
  {
    hide TableEntry;
  }

  ghost function DirtyEntry(n: Node): Option<nat> {
    if n.level >= 4 then Some(1)
    else if n == Node(3, 0) then Some(TableEntry(1))
    else if n == Node(2, 0) then Some(TableEntry(2))
    else None
  }

  lemma {:induction false} DirtyMemoryEntry(n: Node)
    requires IsNode(n)
    ensures Entry(DirtyMemory(), 0, n) == DirtyEntry(n)
    decreases 4 - n.level
  {
    hide Word, DirtyMemory, TableEntry, Present, FrameOf;
    TableEntryIsCached(1);
    TableEntryIsCached(2);
    assert FrameOf(1) == 0 by { RootFrame(); }
    if n.level < 4 {
      UpIsNode(n);
      DirtyMemoryEntry(Up(n));
      DirtyWords(n.prefix % 512);
    }
  }

  lemma RootFrame()
    ensures FrameOf(1) == 0
  {
  }

  lemma DirtyMemoryTree()
    ensures WellSized(DirtyMemory()) && Tree(DirtyMemory(), 0)
    ensures Table(DirtyMemory(), 0, Node(2, 0)) == Some(2) && Entry(DirtyMemory(), 0, Node(1, 0)).None?
  {
    hide Entry, FrameOf, TableEntry;
    RootFrame();
    TableEntryIsCached(1);
    TableEntryIsCached(2);
    forall n: Node | IsNode(n)
      ensures Entry(DirtyMemory(), 0, n) == DirtyEntry(n)
    {
      DirtyMemoryEntry(n);
    }
  }

  /** In that memory, giving the absent level-1 table 0 the dirty frame maps page 0. */
  lemma DirtyTableExample()
    ensures var m := DirtyMemory(); var m1 := Put(m, 2, 0, TableEntry(3));
            && WellSized(m) && Tree(m, 0) && Table(m, 0, Node(2, 0)) == Some(2) && Entry(m, 0, Node(1, 0)).None?
            && !MapsNothing(m1, 3, 1) && Walk(m, 0, 0) == None && Walk(m1, 0, 0) != None
  {
    hide Entry, Tree, WellSized, TableEntry, FrameOf;
    DirtyMemoryTree();
    var m1 := Put(DirtyMemory(), 2, 0, TableEntry(3));
    assert Word(m1, 3, 0) == 7 && Present(7);
    TableEntryIsCached(3);
    NewEntry(DirtyMemory(), 0, Node(1, 0), 3);
    TableOf(m1, 0, Node(1, 0), TableEntry(3));
    Child(m1, 0, Node(0, 0));
    AbsentPage(DirtyMemory(), 0, 0, 1);
  }

  // ---------------------------------------------------------------------------------------------
  // The code
  // ---------------------------------------------------------------------------------------------

  class Kernel {
    const frames: FrameTable
    var mem: Memory
    var heapEnd: nat

    constructor (frames: FrameTable, mem: Memory, heapEnd: nat)
      ensures this.frames == frames && this.mem == mem && this.heapEnd == heapEnd
    {
      this.frames, this.mem, this.heapEnd := frames, mem, heapEnd;
    }

    ghost predicate Valid(root: nat)
      reads this, frames, frames.Repr()
    {
      frames.Valid() && Inv(mem, root, frames.free)
    }

    /**
     page_table_set_entry.  `ok` is false when frame_alloc could not deliver: the code then goes on
     with frame 0, and nothing is claimed.  `news` are the frames that became tables, and `k` is any
     set of nodes that covers what may have to be allocated.
    */
    method SetEntry(root: nat, va: nat, value: nat, autoAlloc: bool, ghost k: set<Node>)
      returns (ok: bool, ghost news: seq<nat>)
      requires Valid(root) && Covers(k, PageOf(va))
      modifies this`mem, this`heapEnd, frames.Repr()
      ensures ok ==> Valid(root)
      ensures ok ==> Grown(old(mem), mem, root, news) && Popped(old(frames.free), news, frames.free)
      ensures ok && (autoAlloc || Table(old(mem), root, HighNode(PageOf(va), 1)).Some?) ==>
                Updated(old(mem), mem, root, news, PageOf(va), value)
      ensures ok ==> heapEnd == old(heapEnd) + 4096 * |news|
      ensures !autoAlloc ==> ok && news == []
      ensures !autoAlloc && Table(old(mem), root, HighNode(PageOf(va), 1)).None? ==> mem == old(mem)
      ensures Table(old(mem), root, HighNode(PageOf(va), 1)).Some? ==> ok && news == [] && frames.free == old(frames.free)
      ensures ok ==> |frames.free| - |Absent(mem, root, k)| == |old(frames.free)| - |Absent(old(mem), root, k)|
      ensures |old(frames.free)| >= |Absent(old(mem), root, k)| ==> ok
      decreases |frames.free|, 1
    {
      hide Entry, Inv, Grown, Mapped, Updated, Popped, Absent, AllocStep, Ok, Put, PageOf, PmlOffset, HighNode, FrameTable.Valid;
      hide Covers, Present, FrameOf, TableEntry, OrCache, Virtual;
      var level, pml := 4, root;
      news := [];
      ghost var page := PageOf(va);
      PageBound(va);
      Start(mem, root, frames.free, page);
      while level > 1
        invariant 1 <= level <= 4
        invariant Valid(root)
        invariant Table(mem, root, HighNode(page, level)) == Some(pml)
        invariant Grown(old(mem), mem, root, news) && Mapped(old(mem), mem, root, news)
        invariant Popped(old(frames.free), news, frames.free)
        invariant |frames.free| <= |old(frames.free)|
        invariant heapEnd == old(heapEnd) + 4096 * |news|
        invariant !autoAlloc || Table(old(mem), root, HighNode(page, 1)).Some? ==>
                    news == [] && mem == old(mem) && frames.free == old(frames.free)
        invariant |frames.free| - |Absent(mem, root, k)| == |old(frames.free)| - |Absent(old(mem), root, k)|
      {
        ReadSlot(mem, root, frames.free, va, level, pml);
        ghost var n := HighNode(page, level - 1);
        var pmli := PmlOffset(va, level);
        var pmle := mem[pml][pmli];
        if !Present(pmle) {
          AbsentBelow(mem, root, page, level - 1);
          CoversAt(k, page, level - 1);
          if !autoAlloc {
            return true, [];
          }
          ghost var m, free := mem, frames.free;
          ghost var more;
          ok, pmle, more := NewTable(root, pml, pmli, n, page, k);
          if !ok {
            return false, [];
          }
          Joined(old(mem), old(frames.free), news, m, free, more, mem, frames.free, root);
          news := news + more;
        }
        pml := FrameOf(pmle);
        level := level - 1;
      }
      ReadSlot(mem, root, frames.free, va, 1, pml);
      LeafWrite(mem, root, frames.free, page, value, k);
      ghost var m := mem;
      mem := Put(mem, pml, PmlOffset(va, 1), OrCache(value));
      UpdatedLast(old(mem), m, mem, root, news, page, value);
      GrownTrans(old(mem), m, mem, root, news, []);
      assert news + [] == news;
      ok := true;
    }

    /** The branch that allocates the table of node `n`, in slot `pmli` of table `pml`. */
    method NewTable(root: nat, pml: nat, pmli: nat, ghost n: Node, ghost page: nat, ghost k: set<Node>)
      returns (ok: bool, pmle: nat, ghost news: seq<nat>)
      requires Valid(root) && Covers(k, page) && IsNode(n) && 1 <= n.level <= 3 && n in k
      requires Table(mem, root, Up(n)) == Some(pml) && Entry(mem, root, n).None? && n.prefix % 512 == pmli
      modifies this`mem, this`heapEnd, frames.Repr()
      ensures ok ==> Valid(root) && Entry(mem, root, n) == Some(pmle)
      ensures ok ==> Grown(old(mem), mem, root, news) && Mapped(old(mem), mem, root, news)
      ensures ok ==> Popped(old(frames.free), news, frames.free) && |frames.free| < |old(frames.free)|
      ensures ok ==> heapEnd == old(heapEnd) + 4096 * |news|
      ensures ok ==> |frames.free| - |Absent(mem, root, k)| == |old(frames.free)| - |Absent(old(mem), root, k)|
      ensures |old(frames.free)| >= |Absent(old(mem), root, k)| ==> ok
      decreases |frames.free|, 0
    {
      hide Entry, Inv, Grown, Mapped, Updated, Popped, Absent, AllocStep, Ok, Put, PageOf, HighNode, FrameTable.Valid;
      hide Covers, Present, FrameOf, TableEntry, OrCache, Virtual;
      pmle, news := 0, [];
      ghost var m, free := mem, frames.free;
      FramesOk(frames);
      AllocKernel(frames.Abs());
      if free != [] {
        TableWrite(m, root, free, n, k);
      }
      AbsentSome(mem, root, k, n);
      var r := frames.FrameAlloc(PgKernel);
      if !r.Frame? {
        return false, 0, [];
      }
      var f := r.pfn;
      pmle := TableEntry(f);
      mem := Put(mem, pml, pmli, pmle);
      ghost var m1 := mem;
      DirectVirtual(f);
      CoversDirect(k, page, f);
      ok, news := SetEntry(root, Virtual(pmle), pmle, true, k);
      if !ok {
        return;
      }
      heapEnd := heapEnd + PAGESIZE;
      Trip(m, free, m1, n, news, mem, frames.free, root);
      news := [f] + news;
    }
  }
}
