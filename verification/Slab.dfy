/**
 The object caches of kernel/memory/slab.c in place: the free objects of a slab are chained through
 their first two bytes in page memory, the head of the chain and the number of objects in use are in
 the record of the page frame, and the partial list is threaded through the same records.

 Page memory is addressed as the direct mapping addresses it, frame number times page size plus offset.
*/
module Slab {
  import opened Bytes
  import opened DistinctSeq
  import opened Frames
  import F = FrameAllocator
  import opened SlabModel

  const NOOBJ: nat := 0xFFFF

  /** The chain that starts at `first` in the page at `base` visits exactly `chain`. */
  ghost predicate ChainIn(mem: seq<byte>, base: nat, first: nat, chain: seq<nat>) {
    && first == (if chain == [] then NOOBJ else chain[0])
    && (forall j :: 0 <= j < |chain| ==> base + chain[j] + 2 <= |mem|)
    && (forall j, k :: 0 <= j && k == j + 1 && k < |chain| ==> U16At(mem, base + chain[j]) == chain[k])
    && (chain != [] ==> U16At(mem, base + chain[|chain| - 1]) == NOOBJ)
  }

  /** The record and the memory of a slab agree with its chain. */
  ghost predicate SlabIn(pages: seq<Page>, mem: seq<byte>, f: nat, chain: seq<nat>, size: nat)
    requires SizeOk(size)
  {
    && f < |pages| && pages[f].state == PgPool
    && pages[f].inuse == PerSlab(size) - |chain|
    && ChainIn(mem, f * PAGE_SIZE, pages[f].obj, chain)
  }

  ghost predicate SlabsIn(pages: seq<Page>, mem: seq<byte>, s: Slabs, size: nat)
    requires SizeOk(size)
  {
    && (forall f :: f in s.chains ==> SlabIn(pages, mem, f, s.chains[f], size))
    && (forall f :: f in s.chains && f !in s.part && f < |pages| ==> pages[f].next == NOPAGE && pages[f].prev == NOPAGE)
  }

  method WriteWord(mem: array<byte>, a: nat, v: nat)
    requires a + 2 <= mem.Length && v <= NOOBJ
    modifies mem
    ensures U16At(mem[..], a) == v
    ensures SameBytes(old(mem[..]), mem[..], a, a + 2)
  {
    mem[a] := (v % 256) as byte;
    mem[a + 1] := (v / 256) as byte;
  }

  // ---------------------------------------------------------------------------------------------
  // Chains in memory
  // ---------------------------------------------------------------------------------------------

  ghost predicate SameBytes(mem: seq<byte>, mem': seq<byte>, from: nat, to: nat) {
    |mem| == |mem'| && forall a :: 0 <= a < |mem| && !(from <= a < to) ==> mem'[a] == mem[a]
  }

  lemma ChainPop(mem: seq<byte>, base: nat, first: nat, chain: seq<nat>)
    requires ChainIn(mem, base, first, chain) && chain != []
    ensures base + first + 2 <= |mem| && first == chain[0]
    ensures ChainIn(mem, base, U16At(mem, base + first), chain[1..])
  {
    hide U16At;
    assert forall j :: 0 <= j < |chain[1..]| ==> chain[1..][j] == chain[j + 1];
  }

  /** Changes outside the page, or in objects that are not on the chain, do not matter to the chain. */
  lemma ChainStays(mem: seq<byte>, mem': seq<byte>, base: nat, first: nat, chain: seq<nat>, from: nat, to: nat)
    requires ChainIn(mem, base, first, chain) && SameBytes(mem, mem', from, to)
    requires forall o :: o in chain ==> base + o + 2 <= from || to <= base + o
    ensures ChainIn(mem', base, first, chain)
  {
    forall j | 0 <= j < |chain|
      ensures base + chain[j] + 2 <= |mem| && U16At(mem', base + chain[j]) == U16At(mem, base + chain[j])
    {
      assert chain[j] in chain;
    }
  }

  lemma ChainPush(mem: seq<byte>, base: nat, first: nat, chain: seq<nat>, off: nat)
    requires ChainIn(mem, base, first, chain) && base + off + 2 <= |mem| && U16At(mem, base + off) == first
    ensures ChainIn(mem, base, off, [off] + chain)
  {
    hide U16At;
    var c := [off] + chain;
    assert forall j :: 0 < j < |c| ==> c[j] == chain[j - 1];
  }

  /** The `j`th object of the page is linked to the next one. */
  ghost predicate LinkedOne(mem: seq<byte>, base: nat, size: nat, j: nat) {
    LinkAt(mem, base, j * size, size)
  }

  ghost predicate LinkAt(mem: seq<byte>, base: nat, off: nat, size: nat) {
    off + size <= PAGE_SIZE && base + off + 2 <= |mem| && U16At(mem, base + off) == off + size
  }

  ghost predicate Linked(mem: seq<byte>, base: nat, size: nat, n: nat) {
    forall j: nat :: j < n ==> LinkedOne(mem, base, size, j)
  }

  lemma LinkedStays(mem: seq<byte>, mem': seq<byte>, base: nat, size: nat, n: nat)
    requires SizeOk(size) && Linked(mem, base, size, n) && SameBytes(mem, mem', base + n * size, base + n * size + 2)
    ensures Linked(mem', base, size, n)
  {
    forall j: nat | j < n
      ensures LinkedOne(mem', base, size, j)
    {
      LinkedOneStays(mem, mem', base, size, j, n);
    }
  }

  lemma LinkedOneStays(mem: seq<byte>, mem': seq<byte>, base: nat, size: nat, j: nat, n: nat)
    requires size >= 2 && j < n && LinkedOne(mem, base, size, j)
    requires SameBytes(mem, mem', base + n * size, base + n * size + 2)
    ensures LinkedOne(mem', base, size, j)
  {
    hide LinkAt, SameBytes;
    EndsBefore(j, n, size);
    LinkStays(mem, mem', base, j * size, size, base + n * size);
  }

  lemma EndsBefore(j: nat, n: nat, size: nat)
    requires j < n
    ensures j * size + size <= n * size
  {
    Scale(j + 1, n, size);
    NextMultiple(j, size);
  }

  lemma LinkStays(mem: seq<byte>, mem': seq<byte>, base: nat, off: nat, size: nat, from: nat)
    requires size >= 2 && LinkAt(mem, base, off, size) && SameBytes(mem, mem', from, from + 2) && base + off + size <= from
    ensures LinkAt(mem', base, off, size)
  {
  }

  lemma NextMultiple(j: nat, size: nat)
    ensures (j + 1) * size == j * size + size
  {
  }

  lemma LinkedNow(mem: seq<byte>, base: nat, size: nat, j: nat)
    requires j * size + size <= PAGE_SIZE && base + j * size + 2 <= |mem| && U16At(mem, base + j * size) == (j + 1) * size
    ensures LinkedOne(mem, base, size, j)
  {
    NextMultiple(j, size);
  }

  lemma AllObjectsAt(size: nat, j: nat)
    requires SizeOk(size) && j < PerSlab(size)
    ensures AllObjects(size)[j] == j * size
  {
  }

  /** What the loop of cache_add_slab has written when it is done. */
  lemma ChainBuilt(mem: seq<byte>, base: nat, size: nat)
    requires SizeOk(size) && base + PAGE_SIZE <= |mem|
    requires var last := PerSlab(size) - 1;
             Linked(mem, base, size, last) && last * size + size <= PAGE_SIZE && U16At(mem, base + last * size) == NOOBJ
    ensures ChainIn(mem, base, 0, AllObjects(size))
  {
    hide U16At, PerSlab;
    var c, last := AllObjects(size), PerSlab(size) - 1;
    AllObjectsAt(size, 0);
    AllObjectsAt(size, last);
    forall j | 0 <= j < |c|
      ensures base + c[j] + 2 <= |mem|
    {
      AllObjectsAt(size, j);
      if j < last {
        assert LinkedOne(mem, base, size, j);
      }
    }
    forall j, k | 0 <= j && k == j + 1 && k < |c|
      ensures U16At(mem, base + c[j]) == c[k]
    {
      AllObjectsAt(size, j);
      AllObjectsAt(size, k);
      assert LinkedOne(mem, base, size, j);
    }
  }

  // ---------------------------------------------------------------------------------------------
  // Records and lists
  // ---------------------------------------------------------------------------------------------

  /** The frame allocator does not look at the records of frames it has handed out to a pool. */
  twostate lemma PoolOnly(t: F.FrameTable)
    requires old(t.Valid()) && unchanged(t) && unchanged(t.memFree) && unchanged(t.memOccupied) && unchanged(t.memMap)
    requires forall f :: 0 <= f < t.pageArr.Length ==>
               t.pageArr[f].state == old(t.pageArr[f].state) && (old(t.pageArr[f].state) != PgPool ==> t.pageArr[f] == old(t.pageArr[f]))
    ensures t.Valid() && t.Abs() == old(t.Abs())
  {
    var p, q := old(t.pageArr[..]), t.pageArr[..];
    assert F.StatesOf(q) == F.StatesOf(p);
    ChainFrame(p, q, t.memFree.head, t.memFree.tail, t.free);
    ChainFrame(p, q, t.memMap.head, t.memMap.tail, t.mappable);
    ChainFrame(p, q, t.memOccupied.head, t.memOccupied.tail, t.occupied);
  }

  lemma TableOk(t: F.FrameTable)
    requires t.Valid()
    ensures t.pageArr.Length <= NOPAGE && F.Ok(t.Abs())
  {
  }

  /** A frame that the allocator hands out to a pool was available. */
  lemma AllocIsNew(a: F.Alloc)
    requires F.Ok(a)
    ensures var (b, r) := F.AllocStep(a, PgPool);
            r.Frame? ==> r.pfn < |a.state| && a.state[r.pfn] == PgAvailable && |b.state| == |a.state| && b.state[r.pfn] == PgPool
  {
  }

  lemma SlabsSame(p: seq<Page>, q: seq<Page>, mem: seq<byte>, s: Slabs, size: nat)
    requires SizeOk(size) && SlabsIn(p, mem, s, size) && |q| == |p|
    requires forall f :: 0 <= f < |p| && p[f].state == PgPool ==> q[f] == p[f]
    ensures SlabsIn(q, mem, s, size)
  {
    hide ChainIn;
  }

  lemma PartIsPool(pages: seq<Page>, mem: seq<byte>, s: Slabs, size: nat)
    requires SizeOk(size) && Ok(s, size) && SlabsIn(pages, mem, s, size)
    ensures forall f :: f in s.part ==> f in s.chains
    ensures forall f :: f in s.chains ==> f < |pages| && pages[f].state == PgPool
  {
  }

  ghost predicate ChainsOk(s: Slabs, size: nat)
    requires SizeOk(size)
  {
    forall f :: f in s.chains ==> ChainOk(s.chains[f], size)
  }

  /** A call changes the records and the page of one slab, and links; the other slabs stay as they are. */
  lemma SlabsChange(p: seq<Page>, q: seq<Page>, mem: seq<byte>, mem': seq<byte>, s: Slabs, t: Slabs, f: nat, size: nat)
    requires SizeOk(size) && ChainsOk(s, size) && SlabsIn(p, mem, s, size) && |q| == |p|
    requires f in t.chains ==> SlabIn(q, mem', f, t.chains[f], size)
    requires forall g :: g in t.chains && g != f ==> g in s.chains && t.chains[g] == s.chains[g]
    requires forall g :: g in s.chains && g != f && g < |p| ==> q[g] == p[g].(next := q[g].next, prev := q[g].prev)
    requires SameBytes(mem, mem', f * PAGE_SIZE, (f + 1) * PAGE_SIZE)
    requires forall g :: g in t.chains && g !in t.part && g < |q| ==> q[g].next == NOPAGE && q[g].prev == NOPAGE
    ensures SlabsIn(q, mem', t, size)
  {
    hide ChainIn, IsObject;
    forall g | g in t.chains && g != f
      ensures SlabIn(q, mem', g, t.chains[g], size)
    {
      var chain := s.chains[g];
      assert SlabIn(p, mem, g, chain, size);
      forall o | o in chain
        ensures g * PAGE_SIZE + o + 2 <= f * PAGE_SIZE || (f + 1) * PAGE_SIZE <= g * PAGE_SIZE + o
      {
        ObjectInside(o, size);
      }
      ChainStays(mem, mem', g * PAGE_SIZE, p[g].obj, chain, f * PAGE_SIZE, (f + 1) * PAGE_SIZE);
    }
  }

  lemma ObjectInside(o: nat, size: nat)
    requires SizeOk(size) && IsObject(o, size)
    ensures o + 2 <= PAGE_SIZE
  {
  }

  class Cache {
    const table: F.FrameTable
    const mem: array<byte>
    const partial: PageList
    const objSize: nat
    var partialCnt: int
    ghost var chains: map<nat, seq<nat>>
    ghost var part: seq<nat>

    ghost function Abs(): Slabs
      reads this
    {
      Slabs(chains, part, partialCnt)
    }

    ghost predicate Sized()
      reads this
    {
      && SizeOk(objSize) && mem.Length == table.pageArr.Length * PAGE_SIZE
      && partial !in table.Repr() && this !in table.Repr() && (mem as object) !in table.Repr()
    }

    ghost predicate Valid()
      reads this, mem, partial, table, table.pageArr, table.memFree, table.memOccupied, table.memMap
    {
      && Sized() && table.Valid() && Ok(Abs(), objSize)
      && SlabsIn(table.pageArr[..], mem[..], Abs(), objSize)
      && IsList(table.pageArr[..], partial.head, partial.tail, part)
    }

    /** cache_init */
    constructor (table: F.FrameTable, mem: array<byte>, objSize: nat)
      requires table.Valid() && SizeOk(objSize) && mem.Length == table.pageArr.Length * PAGE_SIZE
      requires (mem as object) !in table.Repr()
      ensures Valid() && fresh(this) && fresh(partial) && Abs() == Slabs(map[], [], 0)
      ensures this.table == table && this.mem == mem && this.objSize == objSize
    {
      this.table, this.mem, this.objSize := table, mem, objSize;
      partial := new PageList();
      partialCnt := 0;
      chains, part := map[], [];
    }

    /** The loop of cache_add_slab: chain all objects of the page. */
    method FormatSlab(f: nat)
      requires Sized() && f < table.pageArr.Length
      modifies mem
      ensures ChainIn(mem[..], f * PAGE_SIZE, 0, AllObjects(objSize))
      ensures SameBytes(old(mem[..]), mem[..], f * PAGE_SIZE, (f + 1) * PAGE_SIZE)
    {
      hide LinkedOne, U16At, ChainIn, PerSlab;
      var addr, objCnt := f * PAGE_SIZE, PerSlab(objSize);
      PageInside(f, table.pageArr.Length);
      var i := 0;
      while i < objCnt - 1
        invariant 0 <= i <= objCnt - 1
        invariant SameBytes(old(mem[..]), mem[..], addr, addr + PAGE_SIZE)
        invariant Linked(mem[..], addr, objSize, i)
      {
        Multiple(i, objSize);
        Multiple(i + 1, objSize);
        ghost var was := mem[..];
        WriteWord(mem, addr + i * objSize, (i + 1) * objSize);
        LinkedStays(was, mem[..], addr, objSize, i);
        LinkedNow(mem[..], addr, objSize, i);
        i := i + 1;
      }
      Multiple(i, objSize);
      ghost var was := mem[..];
      WriteWord(mem, addr + i * objSize, NOOBJ);
      LinkedStays(was, mem[..], addr, objSize, i);
      ChainBuilt(mem[..], addr, objSize);
    }

    /**
     cache_add_slab.  When the allocator has no frame below 2 GB the code goes on with frame 0 and stops
     at its assertion; `r` is then no Frame.
    */
    method AddSlab() returns (r: F.AllocResult)
      requires Valid()
      modifies this, table.Repr(), partial, mem
      ensures Valid() && (table.Abs(), r) == F.AllocStep(old(table.Abs()), PgPool)
      ensures r.Frame? ==> r.pfn !in old(chains) && Abs() == Grow(old(Abs()), r.pfn, objSize)
      ensures !r.Frame? ==> Abs() == old(Abs())
      ensures if r.Frame? then SameBytes(old(mem[..]), mem[..], r.pfn * PAGE_SIZE, (r.pfn + 1) * PAGE_SIZE)
              else mem[..] == old(mem[..])
    {
      hide Chain, HeadClean, TailClean, ChainIn, F.Ok, F.FrameTable.Valid, IsObject;
      ghost var s, p0, m0 := Abs(), table.pageArr[..], mem[..];
      PartIsPool(p0, m0, s, objSize);
      TableOk(table);
      r := table.FrameAlloc(PgPool);
      ghost var p1 := table.pageArr[..];
      ChainFrame(p0, p1, partial.head, partial.tail, part);
      SlabsSame(p0, p1, m0, s, objSize);
      AllocIsNew(old(table.Abs()));
      if r.Frame? {
        NewSlab(r.pfn);
      }
    }

    ghost predicate PartOk()
      reads this, partial, table, table.pageArr
    {
      && IsList(table.pageArr[..], partial.head, partial.tail, part)
      && forall f :: f in part ==> f < table.pageArr.Length && table.pageArr[f].state == PgPool
    }

    /** A pool frame goes to the end of the partial list. */
    method PushPartial(f: nat)
      requires Sized() && table.Valid() && PartOk()
      requires f < table.pageArr.Length && table.pageArr[f].state == PgPool && f !in part
      modifies this`part, this`partialCnt, table.pageArr, partial
      ensures table.Valid() && table.Abs() == old(table.Abs()) && PartOk() && part == old(part) + [f]
      ensures partialCnt == old(partialCnt) + 1
      ensures OnlyLinks(old(table.pageArr[..]), table.pageArr[..], old(part), f)
    {
      hide Chain, HeadClean, TailClean, F.Ok, F.FrameTable.Valid;
      TableOk(table);
      PglistPushTail(table.pageArr, partial, f, part);
      partialCnt := partialCnt + 1;
      part := part + [f];
      PoolOnly(table);
    }

    /** The k-th slab leaves the partial list. */
    method RemovePartial(f: nat, ghost k: nat)
      requires Sized() && table.Valid() && PartOk() && k < |part| && part[k] == f
      modifies this`part, table.pageArr, partial
      ensures table.Valid() && table.Abs() == old(table.Abs()) && PartOk() && part == Drop(old(part), k)
      ensures OnlyLinks(old(table.pageArr[..]), table.pageArr[..], old(part), f)
      ensures f < table.pageArr.Length && table.pageArr[f].next == NOPAGE && table.pageArr[f].prev == NOPAGE
    {
      hide Chain, HeadClean, TailClean, F.Ok, F.FrameTable.Valid;
      PglistRemove(table.pageArr, partial, f, part, k);
      part := Drop(part, k);
      PoolOnly(table);
    }

    /** The pool frame `f` gets a new head of its chain and a new count; nothing else looks at them. */
    method SetRecord(f: nat, obj: nat, inuse: nat)
      requires Sized() && table.Valid() && PartOk() && f < table.pageArr.Length && table.pageArr[f].state == PgPool
      modifies table.pageArr
      ensures table.Valid() && table.Abs() == old(table.Abs()) && PartOk()
      ensures table.pageArr[..] == old(table.pageArr[..])[f := old(table.pageArr[..])[f].(obj := obj, inuse := inuse)]
    {
      hide Chain, HeadClean, TailClean, F.Ok, F.FrameTable.Valid;
      ghost var p := table.pageArr[..];
      table.pageArr[f] := table.pageArr[f].(obj := obj, inuse := inuse);
      PoolOnly(table);
      ChainFrame(p, table.pageArr[..], partial.head, partial.tail, part);
    }

    /** The frame `f`, just allocated, becomes a slab. */
    method NewSlab(f: nat)
      requires Sized() && table.Valid() && Ok(Abs(), objSize) && SlabsIn(table.pageArr[..], mem[..], Abs(), objSize)
      requires IsList(table.pageArr[..], partial.head, partial.tail, part)
      requires f < table.pageArr.Length && table.pageArr[f].state == PgPool && f !in chains
      modifies this, table.pageArr, partial, mem
      ensures Valid() && Abs() == Grow(old(Abs()), f, objSize) && table.Abs() == old(table.Abs())
      ensures SameBytes(old(mem[..]), mem[..], f * PAGE_SIZE, (f + 1) * PAGE_SIZE)
    {
      hide Chain, HeadClean, TailClean, IsList, ChainIn, F.Ok, F.FrameTable.Valid, IsObject, PerSlab, Live, Ok, ChainOk, AllObjects, Distinct;
      OkParts(Abs(), objSize);
      ghost var s, p0, m0 := Abs(), table.pageArr[..], mem[..];
      PartIsPool(p0, m0, s, objSize);
      GrowOk(s, f, objSize);
      SetRecord(f, 0, 0);
      PushPartial(f);
      FormatSlab(f);
      chains := chains[f := AllObjects(objSize)];
      SlabsChange(p0, table.pageArr[..], m0, mem[..], s, Abs(), f, objSize);
    }

    /** cache_slab_alloc for the first slab of the partial list. */
    method SlabAlloc(slab: nat) returns (ret: nat)
      requires Valid() && part != [] && slab == part[0]
      modifies table.pageArr, this`chains
      ensures table.Valid() && table.Abs() == old(table.Abs()) && PartOk()
      ensures old(chains[slab]) != [] && chains == old(chains)[slab := old(chains[slab])[1..]]
      ensures SlabsIn(table.pageArr[..], mem[..], Abs(), objSize)
      ensures ret == slab * PAGE_SIZE + old(chains[slab])[0]
    {
      hide Chain, HeadClean, TailClean, IsList, ChainIn, F.Ok, F.FrameTable.Valid, IsObject, PerSlab, Live, U16At;
      ghost var s, p0, chain := Abs(), table.pageArr[..], chains[slab];
      assert slab in part;
      PartIsPool(p0, mem[..], s, objSize);
      assert SlabIn(p0, mem[..], slab, chain, objSize);
      ChainPop(mem[..], slab * PAGE_SIZE, p0[slab].obj, chain);
      ret := slab * PAGE_SIZE + table.pageArr[slab].obj;
      SetRecord(slab, U16At(mem[..], ret), table.pageArr[slab].inuse + 1);
      chains := chains[slab := chain[1..]];
      SlabsChange(p0, table.pageArr[..], mem[..], mem[..], s, Abs(), slab, objSize);
    }

    /** A slab without a free object leaves the partial list. */
    method DropFull(slab: nat)
      requires Sized() && table.Valid() && PartOk() && ChainsOk(Abs(), objSize)
      requires SlabsIn(table.pageArr[..], mem[..], Abs(), objSize)
      requires part != [] && slab == part[0] && slab in chains
      modifies this`part, this`partialCnt, table.pageArr, partial
      ensures table.Valid() && table.Abs() == old(table.Abs()) && PartOk()
      ensures SlabsIn(table.pageArr[..], mem[..], Abs(), objSize)
      ensures part == if chains[slab] == [] then old(part)[1..] else old(part)
      ensures partialCnt == if chains[slab] == [] then old(partialCnt) - 1 else old(partialCnt)
    {
      hide Chain, HeadClean, TailClean, IsList, ChainIn, F.Ok, F.FrameTable.Valid, IsObject, PerSlab, Live, U16At, SlabsIn,
        OnlyLinks;
      ghost var s, p := Abs(), table.pageArr[..];
      SlabAt(p, mem[..], s, slab, objSize);
      assert SlabIn(p, mem[..], slab, chains[slab], objSize);
      NoneLeft(p, mem[..], slab, chains[slab], objSize);
      if table.pageArr[slab].obj == NOOBJ {
        RemovePartial(slab, 0);
        assert Drop(s.part, 0) == s.part[1..];
        partialCnt := partialCnt - 1;
        FullGone(p, table.pageArr[..], mem[..], s, Abs(), slab, objSize);
      }
    }

    /** cache_obj_alloc from the slab at the head of the partial list. */
    method TakeObj() returns (ret: nat)
      requires Valid() && part != []
      modifies this, table.pageArr, partial
      ensures Valid() && table.Abs() == old(table.Abs())
      ensures Abs() == Take(old(Abs()), objSize).0
      ensures Take(old(Abs()), objSize).1 == Obj(ret / PAGE_SIZE, ret % PAGE_SIZE)
    {
      hide Chain, HeadClean, TailClean, ChainIn, F.Ok, F.FrameTable.Valid, PerSlab, Live, U16At, SlabIn, SlabsIn, IsObject;
      ghost var s := Abs();
      TakeOk(s, objSize);
      var slab := partial.head;
      HeadIs(table.pageArr[..], partial.head, partial.tail, part);
      ghost var chain := chains[slab];
      assert slab in part && chain[0] in chain;
      ret := SlabAlloc(slab);
      ObjectAt(slab, chain[0], objSize);
      HeadTail(chain);
      assert ChainsOk(Abs(), objSize);
      DropFull(slab);
    }

    /** cache_obj_alloc; `ok` is false if a new slab was needed and there was no frame for it. */
    method ObjAlloc() returns (ok: bool, ret: nat)
      requires Valid()
      modifies this, table.Repr(), partial, mem
      ensures Valid()
      ensures ok <==> old(part) != [] || F.AllocStep(old(table.Abs()), PgPool).1.Frame?
      ensures old(part) != [] ==> table.Abs() == old(table.Abs()) && mem[..] == old(mem[..])
      ensures old(part) != [] ==> (Abs(), Obj(ret / PAGE_SIZE, ret % PAGE_SIZE)) == Take(old(Abs()), objSize)
      ensures old(part) == [] ==> table.Abs() == F.AllocStep(old(table.Abs()), PgPool).0
      ensures old(part) == [] && ok ==>
                var f := F.AllocStep(old(table.Abs()), PgPool).1.pfn;
                f !in old(chains) && SameBytes(old(mem[..]), mem[..], f * PAGE_SIZE, (f + 1) * PAGE_SIZE)
                && (Abs(), Obj(ret / PAGE_SIZE, ret % PAGE_SIZE)) == Take(Refill(old(Abs()), f, objSize), objSize)
      ensures !ok ==> Abs() == old(Abs())
    {
      hide Chain, HeadClean, TailClean, ChainIn, F.Ok, F.FrameTable.Valid, IsObject, PerSlab, Live, U16At;
      ok, ret := true, 0;
      var empty := PglistIsEmpty(table.pageArr, partial, part);
      if empty {
        var r := AddSlab();
        ok := r.Frame?;
        if !ok {
          return;
        }
      }
      ret := TakeObj();
    }

    /** Before the last object of a full slab goes back, the slab joins the partial list. */
    method Reopen(slab: nat)
      requires Sized() && table.Valid() && PartOk()
      requires slab < table.pageArr.Length && table.pageArr[slab].state == PgPool
      requires table.pageArr[slab].obj == NOOBJ ==> slab !in part
      modifies this`part, this`partialCnt, table.pageArr, partial
      ensures table.Valid() && table.Abs() == old(table.Abs()) && PartOk()
      ensures table.pageArr[slab].obj == old(table.pageArr[slab].obj) && table.pageArr[slab].inuse == old(table.pageArr[slab].inuse)
      ensures table.pageArr[slab].state == PgPool
      ensures if old(table.pageArr[slab].obj) == NOOBJ then
                part == old(part) + [slab] && partialCnt == old(partialCnt) + 1
                && OnlyLinks(old(table.pageArr[..]), table.pageArr[..], old(part), slab)
              else part == old(part) && partialCnt == old(partialCnt) && table.pageArr[..] == old(table.pageArr[..])
    {
      hide Chain, HeadClean, TailClean, IsList, F.Ok, F.FrameTable.Valid;
      if table.pageArr[slab].obj == NOOBJ {
        PushPartial(slab);
      }
    }

    /** The end of cache_obj_release: the object becomes the head of the chain of its slab. */
    method ReturnObj(addr: nat)
      requires Valid() && Live(Abs(), Obj(addr / PAGE_SIZE, addr % PAGE_SIZE), objSize)
      requires !Emptying(Abs(), Obj(addr / PAGE_SIZE, addr % PAGE_SIZE), objSize)
      modifies this, table.pageArr, partial, mem
      ensures Valid() && table.Abs() == old(table.Abs())
      ensures Abs() == ReleaseStep(old(Abs()), Obj(addr / PAGE_SIZE, addr % PAGE_SIZE), objSize)
      ensures SameBytes(old(mem[..]), mem[..], addr, addr + 2)
    {
      hide Chain, HeadClean, TailClean, IsList, ChainIn, F.Ok, F.FrameTable.Valid, PerSlab, U16At, IsObject, Ok, Live, SlabIn, SlabsIn,
        ReleaseStep, Emptying, Stranded, SameBytes, OnlyLinks;
      ghost var s, p0, m0 := Abs(), table.pageArr[..], mem[..];
      var slab, off := addr / PAGE_SIZE, addr % PAGE_SIZE;
      ReleaseOk(s, Obj(slab, off), objSize);
      PartIsPool(p0, m0, s, objSize);
      ReturnFacts(p0, m0, s, Obj(slab, off), objSize);
      Reopen(slab);
      ghost var p1 := table.pageArr[..];
      WriteWord(mem, addr, table.pageArr[slab].obj);
      SetRecord(slab, off, table.pageArr[slab].inuse - 1);
      chains := chains[slab := [off] + chains[slab]];
      ReturnDone(p0, p1, table.pageArr[..], m0, mem[..], s, Obj(slab, off), objSize);
    }

    /** The slab whose last object is released leaves the partial list, unless its links look free. */
    method Unlink(slab: nat)
      requires Valid() && slab in chains
      modifies this`part, table.pageArr, partial
      ensures table.Valid() && table.Abs() == old(table.Abs())
      ensures PartOk() && part == if slab in old(part) && old(part) != [slab] then Remove(old(part), slab) else old(part)
      ensures OnlyLinks(old(table.pageArr[..]), table.pageArr[..], old(part), slab)
      ensures slab !in part && slab < table.pageArr.Length ==> table.pageArr[slab].next == NOPAGE && table.pageArr[slab].prev == NOPAGE
    {
      hide Chain, HeadClean, TailClean, IsList, ChainIn, F.Ok, F.FrameTable.Valid, PerSlab, U16At, IsObject;
      PartIsPool(table.pageArr[..], mem[..], Abs(), objSize);
      LooseLinks(table.pageArr[..], partial.head, partial.tail, part, slab);
      if table.pageArr[slab].prev == NOPAGE && table.pageArr[slab].next == NOPAGE {
      } else {
        ghost var k :| 0 <= k < |part| && part[k] == slab;
        RemoveIs(part, slab, k);
        RemovePartial(slab, k);
      }
    }

    /** cache_obj_release of the last object of a slab while `partial_cnt` is at least 5. */
    method ReleaseSlab(slab: nat, ghost o: Obj)
      requires Valid() && Live(Abs(), o, objSize) && o.slab == slab && Emptying(Abs(), o, objSize)
      modifies this, table.Repr(), partial
      ensures Sized() && table.Valid() && table.Abs() == F.ReleaseStep(old(table.Abs()), slab)
      ensures Abs() == ReleaseStep(old(Abs()), o, objSize)
      ensures Valid() <==> !Stranded(old(Abs()), o, objSize)
      ensures Stranded(old(Abs()), o, objSize) ==> partial.head == slab && slab in table.free
    {
      hide Chain, HeadClean, TailClean, IsList, ChainIn, F.Ok, F.FrameTable.Valid, PerSlab, U16At, IsObject, Ok, Live, SlabIn, SlabsIn,
        ReleaseStep, Emptying, OnlyLinks;
      ghost var s, p0 := Abs(), table.pageArr[..];
      ReleaseOk(s, o, objSize);
      PartIsPool(p0, mem[..], s, objSize);
      EmptyFacts(s, o, objSize);
      Unlink(slab);
      ghost var p1, head, tail := table.pageArr[..], partial.head, partial.tail;
      TableOk(table);
      table.FrameRelease(slab);
      PoolReleased(old(table.Abs()), slab);
      chains := chains - {slab};
      if Stranded(s, o, objSize) {
        HeadIs(p1, head, tail, part);
      } else {
        SlabGone(p0, p1, table.pageArr[..], mem[..], s, o, objSize, head, tail);
      }
    }

    /**
     cache_obj_release.  The cache is in order afterwards exactly if no slab was stranded; if one was,
     the head of the partial list is a frame that the allocator considers free.
    */
    method ObjRelease(addr: nat)
      requires Valid() && Live(Abs(), Obj(addr / PAGE_SIZE, addr % PAGE_SIZE), objSize)
      modifies this, table.Repr(), partial, mem
      ensures var o := Obj(addr / PAGE_SIZE, addr % PAGE_SIZE);
              && Abs() == ReleaseStep(old(Abs()), o, objSize) && Sized() && table.Valid()
              && table.Abs() == (if Emptying(old(Abs()), o, objSize) then F.ReleaseStep(old(table.Abs()), o.slab) else old(table.Abs()))
              && (Valid() <==> !Stranded(old(Abs()), o, objSize))
              && (Stranded(old(Abs()), o, objSize) ==> partial.head == o.slab && o.slab in table.free)
      ensures SameBytes(old(mem[..]), mem[..], addr, addr + 2)
    {
      hide Chain, HeadClean, TailClean, IsList, ChainIn, F.Ok, F.FrameTable.Valid, PerSlab, U16At, IsObject;
      ghost var o := Obj(addr / PAGE_SIZE, addr % PAGE_SIZE);
      var slab := addr / PAGE_SIZE;
      PartIsPool(table.pageArr[..], mem[..], Abs(), objSize);
      assert SlabIn(table.pageArr[..], mem[..], slab, chains[slab], objSize);
      TableOk(table);
      if table.pageArr[slab].inuse == 1 && partialCnt >= 5 {
        ReleaseSlab(slab, o);
      } else {
        ReturnObj(addr);
      }
    }
  }

  lemma EmptyFacts(s: Slabs, o: Obj, size: nat)
    requires SizeOk(size) && Ok(s, size) && Live(s, o, size) && Emptying(s, o, size)
    ensures o.slab in s.chains
    ensures ReleaseStep(s, o, size)
         == Slabs(s.chains - {o.slab}, if o.slab in s.part && s.part != [o.slab] then Remove(s.part, o.slab) else s.part, s.cnt)
    ensures Stranded(s, o, size) ==> ReleaseStep(s, o, size).part == [o.slab]
  {
  }

  /** The records after an orderly release: `p1` without the links to the slab, `q` with its frame given back. */
  lemma SlabGone(p: seq<Page>, p1: seq<Page>, q: seq<Page>, mem: seq<byte>, s: Slabs, o: Obj, size: nat, head: nat, tail: nat)
    requires SizeOk(size) && Ok(s, size) && SlabsIn(p, mem, s, size) && Live(s, o, size)
    requires Emptying(s, o, size) && !Stranded(s, o, size)
    requires OnlyLinks(p, p1, s.part, o.slab) && IsList(p1, head, tail, ReleaseStep(s, o, size).part)
    requires |q| == |p| && forall f :: 0 <= f < |p| && f != o.slab && p1[f].state == PgPool ==> q[f] == p1[f]
    ensures SlabsIn(q, mem, ReleaseStep(s, o, size), size) && IsList(q, head, tail, ReleaseStep(s, o, size).part)
  {
    hide ChainIn, IsObject, PerSlab, Chain, HeadClean, TailClean;
    var t := ReleaseStep(s, o, size);
    PartIsPool(p, mem, s, size);
    RemoveMembers(s.part, o.slab);
    assert o.slab !in t.part;
    ChainFrame(p1, q, head, tail, t.part);
    SlabsChange(p, q, mem, mem, s, t, o.slab, size);
  }

  /** Both links of a slab are NOPAGE if it is on no list, and also if it is alone on the partial list. */
  lemma LooseLinks(pages: seq<Page>, head: nat, tail: nat, part: seq<nat>, f: nat)
    requires IsList(pages, head, tail, part) && f < |pages|
    requires f !in part ==> pages[f].next == NOPAGE && pages[f].prev == NOPAGE
    ensures pages[f].next == NOPAGE && pages[f].prev == NOPAGE <==> f !in part || part == [f]
  {
    if f in part {
      var k :| 0 <= k < |part| && part[k] == f;
      EndsAt(pages, head, tail, part, k);
    }
  }

  lemma PoolReleased(a: F.Alloc, f: nat)
    requires F.Ok(a) && f < |a.state| && a.state[f] == PgPool
    ensures f in F.ReleaseStep(a, f).free && F.Releasable(a.state[f])
  {
  }

  /** What the record of the slab says before an object goes back to it. */
  lemma ReturnFacts(pages: seq<Page>, mem: seq<byte>, s: Slabs, o: Obj, size: nat)
    requires SizeOk(size) && |mem| == |pages| * PAGE_SIZE && Ok(s, size) && SlabsIn(pages, mem, s, size) && Live(s, o, size)
    requires !Emptying(s, o, size)
    ensures o.slab in s.chains && o.slab < |pages| && pages[o.slab].state == PgPool
    ensures pages[o.slab].obj <= NOOBJ && pages[o.slab].inuse >= 1
    ensures pages[o.slab].obj == NOOBJ <==> s.chains[o.slab] == []
    ensures o.slab in s.part <==> s.chains[o.slab] != []
    ensures o.slab * PAGE_SIZE + o.off + 2 <= |mem|
    ensures !Stranded(s, o, size)
    ensures ReleaseStep(s, o, size) == Slabs(s.chains[o.slab := [o.off] + s.chains[o.slab]],
                                             if s.chains[o.slab] == [] then s.part + [o.slab] else s.part,
                                             if s.chains[o.slab] == [] then s.cnt + 1 else s.cnt)
  {
    hide ChainIn, IsObject, PerSlab;
    var chain := s.chains[o.slab];
    assert SlabIn(pages, mem, o.slab, chain, size);
    NoneLeft(pages, mem, o.slab, chain, size);
    LiveInUse(chain, size, o.off);
    PageInside(o.slab, |pages|);
    ObjectInside(o.off, size);
    ChainHeadSmall(pages, mem, o.slab, chain, size);
  }

  /** The records and the memory afterwards: `p1` has the new links, `q` also the new record. */
  lemma ReturnDone(p: seq<Page>, p1: seq<Page>, q: seq<Page>, mem: seq<byte>, mem': seq<byte>, s: Slabs, o: Obj, size: nat)
    requires SizeOk(size) && |mem| == |p| * PAGE_SIZE && Ok(s, size) && SlabsIn(p, mem, s, size) && Live(s, o, size)
    requires !Emptying(s, o, size) && o.slab < |p|
    requires if s.chains[o.slab] == [] then OnlyLinks(p, p1, s.part, o.slab) else p1 == p
    requires p[o.slab].inuse >= 1
    requires q == p1[o.slab := p1[o.slab].(obj := o.off, inuse := p1[o.slab].inuse - 1)]
    requires o.slab * PAGE_SIZE + o.off + 2 <= |mem|
    requires SameBytes(mem, mem', o.slab * PAGE_SIZE + o.off, o.slab * PAGE_SIZE + o.off + 2)
    requires U16At(mem', o.slab * PAGE_SIZE + o.off) == p1[o.slab].obj
    ensures SlabsIn(q, mem', ReleaseStep(s, o, size), size)
  {
    hide ChainIn, IsObject, PerSlab, U16At;
    var chain := s.chains[o.slab];
    assert SlabIn(p, mem, o.slab, chain, size);
    assert p1[o.slab].obj == p[o.slab].obj && p1[o.slab].inuse == p[o.slab].inuse && p1[o.slab].state == PgPool;
    ChainReleased(mem, mem', o.slab * PAGE_SIZE, p[o.slab].obj, chain, o.off, size);
    ObjectInside(o.off, size);
    SlabsChange(p, q, mem, mem', s, ReleaseStep(s, o, size), o.slab, size);
  }

  lemma ChainHeadSmall(pages: seq<Page>, mem: seq<byte>, f: nat, chain: seq<nat>, size: nat)
    requires SizeOk(size) && SlabIn(pages, mem, f, chain, size) && ChainOk(chain, size)
    ensures pages[f].obj <= NOOBJ
  {
    if chain != [] {
      assert chain[0] in chain;
    }
  }

  /** Writing the old head of the chain into a live object makes that object the new head. */
  lemma ChainReleased(mem: seq<byte>, mem': seq<byte>, base: nat, first: nat, chain: seq<nat>, off: nat, size: nat)
    requires SizeOk(size) && ChainOk(chain, size) && IsObject(off, size) && off !in chain
    requires ChainIn(mem, base, first, chain) && SameBytes(mem, mem', base + off, base + off + 2)
    requires base + off + 2 <= |mem| && U16At(mem', base + off) == first
    ensures ChainIn(mem', base, off, [off] + chain)
  {
    hide ChainIn, U16At, IsObject;
    forall o | o in chain
      ensures base + o + 2 <= base + off || base + off + 2 <= base + o
    {
      if o < off {
        Apart(o, off, size);
      } else {
        Apart(off, o, size);
      }
    }
    ChainStays(mem, mem', base, first, chain, base + off, base + off + 2);
    ChainPush(mem', base, first, chain, off);
  }

  lemma OkParts(s: Slabs, size: nat)
    requires SizeOk(size) && Ok(s, size)
    ensures ChainsOk(s, size) && forall f :: f in s.part <==> f in s.chains && s.chains[f] != []
  {
  }

  lemma HeadIs(pages: seq<Page>, head: nat, tail: nat, s: seq<nat>)
    requires IsList(pages, head, tail, s) && s != []
    ensures head == s[0]
  {
  }

  /** `obj` is NOOBJ exactly if the slab has no free object. */
  lemma SlabAt(p: seq<Page>, mem: seq<byte>, s: Slabs, f: nat, size: nat)
    requires SizeOk(size) && SlabsIn(p, mem, s, size) && f in s.chains
    ensures SlabIn(p, mem, f, s.chains[f], size)
  {
  }

  /** The first slab of the list leaves it. */
  lemma FullGone(p: seq<Page>, q: seq<Page>, mem: seq<byte>, s: Slabs, t: Slabs, f: nat, size: nat)
    requires SizeOk(size) && ChainsOk(s, size) && SlabsIn(p, mem, s, size)
    requires s.part != [] && f == s.part[0] && t.part == s.part[1..] && t.chains == s.chains
    requires OnlyLinks(p, q, s.part, f) && f < |q| && q[f].next == NOPAGE && q[f].prev == NOPAGE
    ensures SlabsIn(q, mem, t, size)
  {
    hide ChainIn, IsObject, PerSlab, U16At;
    assert s.part == [f] + t.part;
    SlabsChange(p, q, mem, mem, s, t, f, size);
  }

  lemma NoneLeft(pages: seq<Page>, mem: seq<byte>, f: nat, chain: seq<nat>, size: nat)
    requires SizeOk(size) && SlabIn(pages, mem, f, chain, size) && ChainOk(chain, size)
    ensures pages[f].obj == NOOBJ <==> chain == []
  {
    if chain != [] {
      assert chain[0] in chain;
    }
  }

  lemma ObjectAt(slab: nat, off: nat, size: nat)
    requires SizeOk(size) && IsObject(off, size)
    ensures (slab * PAGE_SIZE + off) / PAGE_SIZE == slab && (slab * PAGE_SIZE + off) % PAGE_SIZE == off
  {
  }

  lemma PageInside(f: nat, n: nat)
    requires f < n
    ensures f * PAGE_SIZE + PAGE_SIZE <= n * PAGE_SIZE
  {
  }
}