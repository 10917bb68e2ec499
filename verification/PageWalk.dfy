/**
 The four-level page-table walk of kernel/memory/page.c and kernel/include/memory/page.h, on the
 physical memory that the kernel reaches through its direct map (the low 2 GB).  The format is
 that of 4-level paging, section 4.5 of the Intel SDM volume 3A.

 Memory is a sequence of frames of 512 words.  A `Node` names a table (levels 1 to 4) or a page
 (level 0) by the part of the page number that selects it, and `Entry` is the present entry that
 the walk finds for it.
*/
module PageWalk {
  import opened Options

  const PAGESIZE := 4096
  const DIRECT_FRAMES: nat := 0x8_0000          // 2 GB of frames
  const PAGES: nat := 0x10_0000_0000            // 2^36 pages of a 48-bit address
  const DIRECT_BASE: nat := PAGES - DIRECT_FRAMES
  const WORD: nat := 0x1_0000_0000_0000_0000

  type Memory = seq<seq<nat>>

  datatype Node = Node(level: nat, prefix: nat)

  // PRESENT, PTENTRYADDR
  predicate Present(e: nat) {
    e % 2 == 1
  }

  function FrameOf(e: nat): nat {
    e / 4096
  }

  /** `value | MMU_PCD | MMU_PWT`: bits 3 and 4 set. */
  function OrCache(v: nat): nat {
    v / 32 * 32 + 24 + v % 8
  }

  /** The entry that page_table_set_entry makes for a new table: P, RW, US, PWT and PCD. */
  function TableEntry(f: nat): nat {
    f * 4096 + 31
  }

  /** VIRTUAL(x): the direct-map address of a physical address. */
  function Virtual(x: nat): nat {
    (x + 0xffff_ffff_8000_0000) % WORD
  }

  function PageOf(va: nat): nat {
    va / 4096 % PAGES
  }

  /** The page at which the direct map shows frame `f`. */
  function DirectPage(f: nat): nat {
    DIRECT_BASE + f
  }

  /** PMLOFFSET(x, n) */
  function PmlOffset(va: nat, n: nat): (i: nat)
    requires 1 <= n <= 4
    ensures i < 512
  {
    va / (if n == 1 then 0x1000 else if n == 2 then 0x20_0000 else if n == 3 then 0x4000_0000 else 0x80_0000_0000) % 512
  }

  function Bound(level: nat): nat {
    if level == 0 then 0x10_0000_0000 else if level == 1 then 0x800_0000 else if level == 2 then 0x4_0000
    else if level == 3 then 512 else 1
  }

  predicate IsNode(n: Node) {
    n.level <= 4 && n.prefix < Bound(n.level)
  }

  function Up(n: Node): Node {
    Node(n.level + 1, n.prefix / 512)
  }

  function Prefix(page: nat, level: nat): nat {
    if level == 0 then page else Prefix(page, level - 1) / 512
  }

  /** The node at `level` above a page. */
  function HighNode(page: nat, level: nat): Node {
    Node(level, Prefix(page, level))
  }

  function Word(m: Memory, f: nat, i: nat): nat {
    if f < |m| && i < |m[f]| then m[f][i] else 0
  }

  function Put(m: Memory, f: nat, i: nat, w: nat): Memory
    requires f < |m| && i < |m[f]|
  {
    var table: seq<nat> := m[f][i := w];
    m[f := table]
  }

  /** The present entry for a node, if every entry above it is present; the root stands for CR3. */
  function Entry(m: Memory, root: nat, n: Node): Option<nat>
    decreases 4 - n.level
  {
    if n.level >= 4 then Some(root * 4096 + 1)
    else
      match Entry(m, root, Up(n))
      case None => None
      case Some(e) =>
        var w := Word(m, FrameOf(e), n.prefix % 512);
        if Present(w) then Some(w) else None
  }

  /** The frame that holds the table of a node. */
  function Table(m: Memory, root: nat, n: Node): Option<nat> {
    match Entry(m, root, n)
    case None => None
    case Some(e) => Some(FrameOf(e))
  }

  /** The walk of one page: its present leaf entry. */
  function Walk(m: Memory, root: nat, page: nat): Option<nat> {
    Entry(m, root, Node(0, page))
  }

  ghost predicate IsTable(m: Memory, root: nat, f: nat) {
    exists n :: IsNode(n) && n.level >= 1 && Table(m, root, n) == Some(f)
  }

  ghost predicate WellSized(m: Memory) {
    |m| <= DIRECT_FRAMES && forall f :: 0 <= f < |m| ==> |m[f]| == 512
  }

  /** The tables under a root form a tree inside the memory: no frame serves as two tables. */
  ghost predicate Tree(m: Memory, root: nat) {
    && (forall n :: IsNode(n) && n.level >= 1 && Table(m, root, n).Some? ==> Table(m, root, n).value < |m|)
    && (forall a, b | IsNode(a) && IsNode(b) && a.level >= 1 && b.level >= 1 ::
          Table(m, root, a).Some? && Table(m, root, a) == Table(m, root, b) ==> a == b)
  }

  ghost predicate Blank(m: Memory, f: nat) {
    f < |m| && forall i :: 0 <= i < |m[f]| ==> !Present(m[f][i])
  }

  // ---------------------------------------------------------------------------------------------
  // Address arithmetic
  // ---------------------------------------------------------------------------------------------

  lemma Div32(q: nat, v: nat, r: nat)
    requires v == 32 * q + r && r < 32
    ensures v / 32 == q
  {
  }

  lemma Mod8(q: nat, v: nat, r: nat)
    requires v == 8 * q + r && r < 8
    ensures v % 8 == r
  {
  }

  lemma Mod2(q: nat, v: nat)
    requires v == 2 * q + 1
    ensures v % 2 == 1
  {
  }

  lemma Div4096(q: nat, v: nat, r: nat)
    requires v == 4096 * q + r && r < 4096
    ensures v / 4096 == q
  {
  }

  /** The entry of a new table: the frame, and the lowest five bits, P, RW, US, PWT and PCD, and no other. */
  lemma TableEntryBits(f: nat)
    ensures FrameOf(TableEntry(f)) == f && TableEntry(f) % 4096 == 0x1f && Present(TableEntry(f))
  {
    Div4096(f, TableEntry(f), 31);
    Mod2(2048 * f + 15, TableEntry(f));
  }

  /** `OrCache` sets bits 3 and 4 and leaves the three below and all above as they are. */
  lemma OrCacheBits(v: nat)
    ensures OrCache(v) % 8 == v % 8 && OrCache(v) / 8 % 4 == 3 && OrCache(v) / 32 == v / 32
    ensures FrameOf(OrCache(v)) == FrameOf(v)
  {
    hide FrameOf;
    var h, l := v / 32, v % 8;
    Div32(h, OrCache(v), 24 + l);
    Mod8(4 * h + 3, OrCache(v), l);
    Div8(4 * h + 3, OrCache(v), l);
    Frame32(v, h, v % 32);
    Frame32(OrCache(v), h, 24 + l);
  }

  lemma Div8(q: nat, v: nat, r: nat)
    requires v == 8 * q + r && r < 8
    ensures v / 8 == q
  {
  }

  lemma Frame32(v: nat, h: nat, r: nat)
    requires v == 32 * h + r && r < 32
    ensures FrameOf(v) == h / 128
  {
    var q, m := h / 128, h % 128;
    assert h == 128 * q + m;
    Div4096(q, v, 32 * m + r);
  }

  lemma Mod512(h: nat, x: nat)
    ensures (h * 512 + x) % 512 == x % 512
  {
  }

  lemma ModPages(h: nat, x: nat)
    requires x < PAGES
    ensures (h * PAGES + x) % PAGES == x
  {
  }

  /** One level up divides by 512. */
  lemma Shift(va: nat)
    ensures va / 0x20_0000 == va / 4096 / 512
    ensures va / 0x4000_0000 == va / 0x20_0000 / 512
    ensures va / 0x80_0000_0000 == va / 0x4000_0000 / 512
  {
  }

  lemma ShiftPage(q: nat, h: nat, l: nat)
    requires q == h * PAGES + l
    ensures q / 512 == h * 0x800_0000 + l / 512
  {
  }

  lemma ShiftTwice(q: nat, h: nat, l: nat)
    requires q == h * 0x800_0000 + l
    ensures q / 512 == h * 0x4_0000 + l / 512
  {
  }

  lemma ShiftThrice(q: nat, h: nat, l: nat)
    requires q == h * 0x4_0000 + l
    ensures q / 512 == h * 512 + l / 512
  {
  }

  /** Each 9-bit index of PMLOFFSET is the last digit of the prefix one level down. */
  lemma OffsetIsDigit(va: nat, n: nat)
    requires 1 <= n <= 4
    ensures PmlOffset(va, n) == Prefix(PageOf(va), n - 1) % 512
  {
    var q := va / 4096;
    var h, l := q / PAGES, q % PAGES;
    Shift(va);
    ShiftPage(q, h, l);
    ShiftTwice(q / 512, h, l / 512);
    ShiftThrice(q / 512 / 512, h, l / 512 / 512);
    Mod512(h * 0x800_0000, l);
    Mod512(h * 0x4_0000, l / 512);
    Mod512(h * 512, l / 512 / 512);
    Mod512(h, l / 512 / 512 / 512);
    PrefixIs(l);
  }

  lemma PrefixIs(l: nat)
    ensures Prefix(l, 0) == l && Prefix(l, 1) == l / 512 && Prefix(l, 2) == l / 512 / 512
    ensures Prefix(l, 3) == l / 512 / 512 / 512
  {
    assert Prefix(l, 1) == l / 512;
    assert Prefix(l, 2) == Prefix(l, 1) / 512;
    assert Prefix(l, 3) == Prefix(l, 2) / 512;
  }

  lemma HighIsNode(page: nat, level: nat)
    requires page < PAGES && level <= 4
    ensures IsNode(HighNode(page, level))
    ensures level < 4 ==> Up(HighNode(page, level)) == HighNode(page, level + 1)
  {
    if level > 0 {
      HighIsNode(page, level - 1);
    }
  }

  lemma PageBound(va: nat)
    ensures PageOf(va) < PAGES
  {
  }

  /** VIRTUAL does not wrap for an address below 2 GB. */
  lemma VirtualIs(x: nat)
    requires x < 0x8000_0000
    ensures Virtual(x) == x + 0xffff_ffff_8000_0000
  {
  }

  lemma DirectPageOf(f: nat, va: nat, r: nat)
    requires f < DIRECT_FRAMES && va == (0xf_ffff_fff8_0000 + f) * 4096 + r && r < 4096
    ensures PageOf(va) == DirectPage(f)
  {
    Div4096(0xf_ffff_fff8_0000 + f, va, r);
    ModPages(0xffff, DirectPage(f));
  }

  lemma DirectVirtual(f: nat)
    requires f < DIRECT_FRAMES
    ensures PageOf(Virtual(TableEntry(f))) == DirectPage(f)
    ensures PageOf(Virtual(f * 4096)) == DirectPage(f)
  {
    hide Virtual, PageOf;
    VirtualIs(TableEntry(f));
    VirtualIs(f * 4096);
    DirectPageOf(f, Virtual(TableEntry(f)), 31);
    DirectPageOf(f, Virtual(f * 4096), 0);
  }

  /** One step of the walk. */
  lemma Child(m: Memory, root: nat, n: Node)
    requires n.level < 4
    ensures Entry(m, root, n) ==
            match Table(m, root, Up(n))
            case None => None
            case Some(t) => if Present(Word(m, t, n.prefix % 512)) then Some(Word(m, t, n.prefix % 512)) else None
  {
  }

  /** The walk in terms of the address: nine bits for each level from bit 39 down, and the frame of each entry. */
  lemma WalkDigits(m: Memory, root: nat, va: nat)
    ensures var w3 := Word(m, root, va / 0x80_0000_0000 % 512);
            var w2 := Word(m, FrameOf(w3), va / 0x4000_0000 % 512);
            var w1 := Word(m, FrameOf(w2), va / 0x20_0000 % 512);
            var w0 := Word(m, FrameOf(w1), va / 0x1000 % 512);
            Walk(m, root, PageOf(va)) ==
            if Present(w3) && Present(w2) && Present(w1) && Present(w0) then Some(w0) else None
  {
    hide Entry, Word, FrameOf, Present, PageOf, PmlOffset, Prefix;
    var p := PageOf(va);
    PageBound(va);
    OffsetsAre(va);
    TopEntry(m, root, p);
    WalkDown(m, root, va, 4);
    WalkDown(m, root, va, 3);
    WalkDown(m, root, va, 2);
    WalkDown(m, root, va, 1);
    PageNode(p);
  }

  lemma PageNode(p: nat)
    ensures HighNode(p, 0) == Node(0, p)
  {
  }

  lemma OffsetsAre(va: nat)
    ensures PmlOffset(va, 4) == va / 0x80_0000_0000 % 512 && PmlOffset(va, 3) == va / 0x4000_0000 % 512
    ensures PmlOffset(va, 2) == va / 0x20_0000 % 512 && PmlOffset(va, 1) == va / 0x1000 % 512
  {
  }

  lemma TopEntry(m: Memory, root: nat, p: nat)
    ensures Table(m, root, HighNode(p, 4)) == Some(root)
  {
    assert FrameOf(root * 4096 + 1) == root;
  }

  lemma WalkDown(m: Memory, root: nat, va: nat, n: nat)
    requires 1 <= n <= 4
    ensures Entry(m, root, HighNode(PageOf(va), n - 1)) ==
            match Table(m, root, HighNode(PageOf(va), n))
            case None => None
            case Some(t) => if Present(Word(m, t, PmlOffset(va, n))) then Some(Word(m, t, PmlOffset(va, n))) else None
  {
    hide Entry, Word, FrameOf, Present, PageOf, PmlOffset;
    var p := PageOf(va);
    PageBound(va);
    HighIsNode(p, n - 1);
    OffsetIsDigit(va, n);
    Child(m, root, HighNode(p, n - 1));
  }

  /** A page below an absent node is not mapped. */
  lemma {:induction false} AbsentPage(m: Memory, root: nat, page: nat, level: nat)
    requires page < PAGES && level <= 3 && Entry(m, root, HighNode(page, level)).None?
    ensures Walk(m, root, page).None?
  {
    if level > 0 {
      HighIsNode(page, level - 1);
      AbsentPage(m, root, page, level - 1);
    }
  }

  // ---------------------------------------------------------------------------------------------
  // One write
  // ---------------------------------------------------------------------------------------------

  /**
   Writing the slot of one node of a tree changes the walk of that node only, provided it is a
   page, or an absent table that now gets a blank frame.
  */
  lemma {:induction false} EntryWrite(m: Memory, root: nat, n: Node, w: nat, b: Node)
    requires Tree(m, root) && WellSized(m)
    requires IsNode(n) && n.level <= 3 && Table(m, root, Up(n)).Some?
    requires n.level == 0 || b.level >= n.level ||
             (Entry(m, root, n) == None && Present(w) && Blank(m, FrameOf(w)) && !IsTable(m, root, FrameOf(w)))
    requires IsNode(b)
    ensures IsNode(Up(n)) && Table(m, root, Up(n)).value < |m|
    ensures Entry(Put(m, Table(m, root, Up(n)).value, n.prefix % 512, w), root, b) ==
            if b == n then (if Present(w) then Some(w) else None) else Entry(m, root, b)
    decreases 4 - b.level
  {
    assert IsNode(Up(n));
    var t := Table(m, root, Up(n)).value;
    var m' := Put(m, t, n.prefix % 512, w);
    if b.level < 4 {
      assert IsNode(Up(b));
      EntryWrite(m, root, n, w, Up(b));
      if Up(b) == n {
        assert IsTable(m, root, t);
        assert Word(m', FrameOf(w), b.prefix % 512) == Word(m, FrameOf(w), b.prefix % 512);
      } else if Table(m, root, Up(b)) == Some(t) {
        assert Up(b) == Up(n);
      }
    }
  }
}
