/**
 The two read-only walks of kernel/memory/page.c: `page_translate`, and `find_virtual_addr`, which
 looks for the least unmapped page by advancing four cursors, one for each level.
*/
module PageSearch {
  import opened Options
  import opened PageWalk

  /** page_translate: the code stops the machine when some level is not present. */
  method PageTranslate(m: Memory, root: nat, vir: nat) returns (r: Option<nat>)
    requires WellSized(m) && Tree(m, root)
    ensures r == match Walk(m, root, PageOf(vir))
                 case None => None
                 case Some(e) => Some(FrameOf(e) * PAGESIZE + vir % PAGESIZE)
  {
    hide Entry, PageOf, PmlOffset, Present, FrameOf, HighNode, Tree, WellSized;
    var level, pml := 4, root;
    ghost var page := PageOf(vir);
    PageBound(vir);
    TopTable(m, root, page);
    while level >= 1
      invariant 0 <= level <= 4
      invariant Table(m, root, HighNode(page, level)) == Some(pml)
    {
      WalkStep(m, root, vir, level, pml);
      var pmle := m[pml][PmlOffset(vir, level)];
      if !Present(pmle) {
        AbsentPage(m, root, page, level - 1);
        return None;
      }
      pml := FrameOf(pmle);
      level := level - 1;
    }
    LeafIs(m, root, page);
    r := Some(pml * PAGESIZE + vir % PAGESIZE);
  }

  lemma TopTable(m: Memory, root: nat, page: nat)
    requires page < PAGES
    ensures Table(m, root, HighNode(page, 4)) == Some(root)
  {
    HighIsNode(page, 4);
    assert FrameOf(root * 4096 + 1) == root;
  }

  /** What one trip through the loop of page_translate reads. */
  lemma WalkStep(m: Memory, root: nat, vir: nat, level: nat, pml: nat)
    requires WellSized(m) && Tree(m, root) && 1 <= level <= 4
    requires Table(m, root, HighNode(PageOf(vir), level)) == Some(pml)
    ensures pml < |m| && |m[pml]| == 512
    ensures var w := m[pml][PmlOffset(vir, level)];
            Entry(m, root, HighNode(PageOf(vir), level - 1)) == if Present(w) then Some(w) else None
  {
    hide PageOf, PmlOffset;
    PageBound(vir);
    HighIsNode(PageOf(vir), level);
    HighIsNode(PageOf(vir), level - 1);
    OffsetIsDigit(vir, level);
  }

  lemma LeafIs(m: Memory, root: nat, page: nat)
    ensures Table(m, root, HighNode(page, 0)) == match Walk(m, root, page) case None => None case Some(e) => Some(FrameOf(e))
  {
  }

  // ---------------------------------------------------------------------------------------------
  // find_virtual_addr
  // ---------------------------------------------------------------------------------------------

  /** The node that the cursors above `level` select; `c[level]` is the index in its table. */
  function Selected(c: seq<nat>, level: nat): Node
    requires |c| == 5 && level <= 4
  {
    Node(level, if level == 4 then 0 else if level == 3 then c[4] else if level == 2 then c[4] * 512 + c[3]
                else if level == 1 then (c[4] * 512 + c[3]) * 512 + c[2]
                else ((c[4] * 512 + c[3]) * 512 + c[2]) * 512 + c[1])
  }

  function PageAt(c: seq<nat>): nat
    requires |c| == 5
  {
    ((c[4] * 512 + c[3]) * 512 + c[2]) * 512 + c[1]
  }

  /** mk_frame */
  function MkFrame(va: nat): (c: seq<nat>)
    ensures |c| == 5 && forall l :: 1 <= l <= 4 ==> c[l] < 512
  {
    [0, PmlOffset(va, 1), PmlOffset(va, 2), PmlOffset(va, 3), PmlOffset(va, 4)]
  }

  /** mk_virtual: there is no sign extension, so the result stays below 2^48. */
  function MkVirtual(c: seq<nat>): nat
    requires |c| == 5
  {
    c[4] * 0x80_0000_0000 + c[3] * 0x4000_0000 + c[2] * 0x20_0000 + c[1] * 0x1000
  }

  const KERNEL_VMA: nat := 0xffff_ffff_8100_0000

  lemma CursorsOf(va: nat)
    ensures PageAt(MkFrame(va)) == PageOf(va)
  {
    var p := PageOf(va);
    OffsetIsDigit(va, 1);
    OffsetIsDigit(va, 2);
    OffsetIsDigit(va, 3);
    OffsetIsDigit(va, 4);
    assert Prefix(p, 1) == p / 512;
    assert Prefix(p, 2) == p / 512 / 512;
    assert Prefix(p, 3) == p / 512 / 512 / 512;
    assert p / 512 / 512 / 512 < 512;
  }

  lemma SelectedUp(c: seq<nat>, level: nat)
    requires |c| == 5 && level <= 3 && c[level + 1] < 512
    ensures Up(Selected(c, level)) == Selected(c, level + 1)
    ensures Selected(c, level).prefix % 512 == c[level + 1]
  {
  }

  /** If the cursors are proper digits, the selected nodes are those above the page they name. */
  lemma SelectedIsHigh(c: seq<nat>, level: nat)
    requires |c| == 5 && level <= 3 && forall l :: 1 <= l <= 4 ==> c[l] < 512
    ensures Selected(c, level) == HighNode(PageAt(c), level)
  {
    if level > 0 {
      SelectedIsHigh(c, level - 1);
      SelectedUp(c, level - 1);
    }
  }

  /** `p` is the least page from `start` on that is not mapped. */
  ghost predicate LeastUnmapped(m: Memory, root: nat, start: nat, p: nat) {
    && start <= p < PAGES && Walk(m, root, p).None?
    && forall q | start <= q < p :: Walk(m, root, q).Some?
  }

  ghost predicate AllMapped(m: Memory, root: nat, start: nat, end: nat) {
    forall q | start <= q < end :: Walk(m, root, q).Some?
  }

  /** `tables[l]` is the table that the cursors select, for every level from `level` up. */
  ghost predicate TablesAt(m: Memory, root: nat, c: seq<nat>, tables: seq<nat>, level: nat) {
    && |c| == 5 && |tables| == 5
    && forall l :: level <= l <= 4 ==> Table(m, root, Selected(c, l)) == Some(tables[l])
  }

  ghost predicate Digits(c: seq<nat>) {
    |c| == 5 && forall l :: 1 <= l <= 4 ==> c[l] < 512
  }

  /** What reading the table at `level` under its cursor says about the node below. */
  lemma ReadCursor(m: Memory, root: nat, c: seq<nat>, tables: seq<nat>, level: nat)
    requires WellSized(m) && Tree(m, root) && Digits(c) && 1 <= level <= 4
    requires TablesAt(m, root, c, tables, level)
    ensures tables[level] < |m| && |m[tables[level]]| == 512
    ensures var w := m[tables[level]][c[level]];
            Entry(m, root, Selected(c, level - 1)) == if Present(w) then Some(w) else None
    ensures PageAt(c) < PAGES
  {
    assert Table(m, root, Selected(c, level)) == Some(tables[level]);
    SelectedUp(c, level - 1);
    assert IsNode(Selected(c, level));
  }

  lemma UnmappedHere(m: Memory, root: nat, c: seq<nat>, level: nat, start: nat)
    requires Digits(c) && level <= 3 && Entry(m, root, Selected(c, level)).None?
    requires start <= PageAt(c) && AllMapped(m, root, start, PageAt(c))
    ensures LeastUnmapped(m, root, start, PageAt(c))
    ensures MkVirtual(c) == PageAt(c) * 4096 && MkVirtual(c) < KERNEL_VMA
  {
    SelectedIsHigh(c, level);
    AbsentPage(m, root, PageAt(c), level);
  }

  lemma NothingMapped(m: Memory, root: nat, start: nat)
    ensures AllMapped(m, root, start, start)
  {
  }

  lemma RootTable(m: Memory, root: nat, c: seq<nat>, tables: seq<nat>)
    requires |c| == 5 && |tables| == 5 && tables[4] == root
    ensures TablesAt(m, root, c, tables, 4)
  {
    assert FrameOf(root * 4096 + 1) == root;
  }

  /** Following a present entry one level down. */
  lemma Descend(m: Memory, root: nat, c: seq<nat>, tables: seq<nat>, level: nat)
    requires WellSized(m) && Tree(m, root) && Digits(c) && 2 <= level <= 4
    requires TablesAt(m, root, c, tables, level)
    ensures tables[level] < |m| && |m[tables[level]]| == 512
    ensures var w := m[tables[level]][c[level]];
            Present(w) ==> TablesAt(m, root, c, tables[level - 1 := FrameOf(w)], level - 1)
  {
    ReadCursor(m, root, c, tables, level);
  }

  /** The next page under the same level-1 table. */
  lemma NextPage(m: Memory, root: nat, c: seq<nat>, tables: seq<nat>)
    requires TablesAt(m, root, c, tables, 1)
    ensures TablesAt(m, root, c[1 := c[1] + 1], tables, 1)
    ensures PageAt(c[1 := c[1] + 1]) == PageAt(c) + 1
  {
    hide Entry;
    forall l | 1 <= l <= 4
      ensures Selected(c[1 := c[1] + 1], l) == Selected(c, l)
    {
    }
  }

  /** The carry names the same page and keeps the tables above it. */
  lemma Carry(m: Memory, root: nat, c: seq<nat>, tables: seq<nat>, level: nat)
    requires |c| == 5 && 1 <= level <= 3 && c[level] == 512
    requires TablesAt(m, root, c, tables, level)
    ensures var c' := c[level := 0][level + 1 := c[level + 1] + 1];
            TablesAt(m, root, c', tables, level + 1) && PageAt(c') == PageAt(c)
  {
    hide Entry;
    var c' := c[level := 0][level + 1 := c[level + 1] + 1];
    forall l | level + 1 <= l <= 4
      ensures Selected(c', l) == Selected(c, l)
    {
    }
  }

  lemma Exhausted(m: Memory, root: nat, c: seq<nat>, start: nat)
    requires |c| == 5 && c[4] == 512 && AllMapped(m, root, start, PageAt(c))
    ensures AllMapped(m, root, start, PAGES)
  {
    assert PageAt(c) >= PAGES;
  }

  lemma PageAtBound(c: seq<nat>)
    requires Digits(c)
    ensures PageAt(c) < PAGES
  {
  }

  lemma OneMoreMapped(m: Memory, root: nat, start: nat, c: seq<nat>)
    requires |c| == 5 && AllMapped(m, root, start, PageAt(c)) && Entry(m, root, Selected(c, 0)).Some?
    ensures AllMapped(m, root, start, PageAt(c) + 1)
  {
    hide Entry;
    var p := PageAt(c);
    assert Selected(c, 0) == Node(0, p);
    forall q | start <= q < p + 1
      ensures Walk(m, root, q).Some?
    {
      assert q < p || q == p;
    }
  }

  /**
   find_virtual_addr.  The result is the address of the least unmapped page from the page of
   `above` on, over all 2^36 pages; 0 stands for none (and is also the address of page 0).
  */
  method FindVirtualAddr(m: Memory, root: nat, above: nat) returns (addr: int)
    requires WellSized(m) && Tree(m, root)
    ensures addr >= 0 && addr % 4096 == 0
    ensures LeastUnmapped(m, root, PageOf(above), addr / 4096) ||
            (addr == 0 && AllMapped(m, root, PageOf(above), PAGES))
  {
    hide Entry, AllMapped, LeastUnmapped, PageOf, PageAt, Selected, MkVirtual, TablesAt, Tree, WellSized;
    var level := 4;
    var c := MkFrame(above);
    var tables: seq<nat> := [0, 0, 0, 0, root];
    ghost var start := PageOf(above);
    CursorsOf(above);
    NothingMapped(m, root, start);
    RootTable(m, root, c, tables);
    while true
      invariant 1 <= level <= 4 && Digits(c) && |tables| == 5
      invariant TablesAt(m, root, c, tables, level)
      invariant start <= PageAt(c) && AllMapped(m, root, start, PageAt(c))
      decreases PAGES - PageAt(c)
    {
      ghost var before := PageAt(c);
      while level > 1
        invariant 1 <= level <= 4 && |tables| == 5 && TablesAt(m, root, c, tables, level)
      {
        ReadCursor(m, root, c, tables, level);
        var entry := m[tables[level]][c[level]];
        if !Present(entry) {
          UnmappedHere(m, root, c, level - 1, start);
          addr := MkVirtual(c);
          return if addr < KERNEL_VMA then addr else 0;
        }
        Descend(m, root, c, tables, level);
        tables := tables[level - 1 := FrameOf(entry)];
        level := level - 1;
      }
      PageAtBound(c);
      while c[level] < 512
        invariant |c| == 5 && |tables| == 5 && level == 1 && c[1] <= 512
        invariant forall l :: 2 <= l <= 4 ==> c[l] < 512
        invariant TablesAt(m, root, c, tables, 1)
        invariant start <= PageAt(c) && AllMapped(m, root, start, PageAt(c))
        invariant before <= PageAt(c) && (c[1] == 512 ==> before < PageAt(c))
        decreases 512 - c[1]
      {
        ReadCursor(m, root, c, tables, 1);
        var entry := m[tables[level]][c[level]];
        if !Present(entry) {
          UnmappedHere(m, root, c, 0, start);
          addr := MkVirtual(c);
          return if addr < KERNEL_VMA then addr else 0;
        }
        OneMoreMapped(m, root, start, c);
        NextPage(m, root, c, tables);
        c := c[level := c[level] + 1];
      }
      while level < 4 && c[level] == 512
        invariant |c| == 5 && 1 <= level <= 4 && c[level] <= 512
        invariant forall l :: 1 <= l <= 4 && l != level ==> c[l] < 512
        invariant level == 4 ==> c[4] < 512
        invariant TablesAt(m, root, c, tables, level)
        invariant start <= PageAt(c) && AllMapped(m, root, start, PageAt(c)) && before < PageAt(c)
        decreases 4 - level
      {
        Carry(m, root, c, tables, level);
        c := c[level := 0];
        level := level + 1;
        c := c[level := c[level] + 1];
        if level == 4 && c[4] == 512 {
          Exhausted(m, root, c, start);
          return 0;
        }
      }
    }
  }
}
