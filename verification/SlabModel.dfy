/**
 The object caches of kernel/memory/slab.c on values: which slabs a cache has, the free objects of
 each in the order of their chain, and the partial list.  Slabs are one page, as for every object
 size up to a page.

 `AllocStep` and `ReleaseStep` are the effect of one call; module Slab proves that the code on the
 page records and on page memory has exactly that effect.
*/
module SlabModel {
  import opened DistinctSeq
  import opened Frames
  import F = FrameAllocator

  const PAGE_SIZE: nat := 4096

  /** Free objects by slab, the partial list, and `partial_cnt`. */
  datatype Slabs = Slabs(chains: map<nat, seq<nat>>, part: seq<nat>, cnt: int)

  /** An object is a slab and an offset in its page. */
  datatype Obj = Obj(slab: nat, off: nat)

  ghost predicate SizeOk(size: nat) {
    2 <= size <= PAGE_SIZE
  }

  /** How many objects fit a page. */
  function PerSlab(size: nat): (n: nat)
    requires SizeOk(size)
    ensures n >= 1
  {
    PAGE_SIZE / size
  }

  predicate IsObject(off: nat, size: nat)
    requires SizeOk(size)
  {
    off % size == 0 && off + size <= PAGE_SIZE
  }

  /** The chain of a new slab. */
  ghost function AllObjects(size: nat): (s: seq<nat>)
    requires SizeOk(size)
    ensures |s| == PerSlab(size)
  {
    seq(PerSlab(size), i requires 0 <= i < PerSlab(size) => i * size)
  }

  ghost predicate Live(s: Slabs, o: Obj, size: nat)
    requires SizeOk(size)
  {
    o.slab in s.chains && IsObject(o.off, size) && o.off !in s.chains[o.slab]
  }

  ghost function InUse(s: Slabs, slab: nat, size: nat): int
    requires SizeOk(size) && slab in s.chains
  {
    PerSlab(size) - |s.chains[slab]|
  }

  ghost predicate ChainOk(chain: seq<nat>, size: nat)
    requires SizeOk(size)
  {
    Distinct(chain) && forall o :: o in chain ==> IsObject(o, size)
  }

  /** A slab is on the partial list exactly if it has a free object. */
  ghost predicate Ok(s: Slabs, size: nat)
    requires SizeOk(size)
  {
    && Distinct(s.part)
    && (forall f :: f in s.chains ==> ChainOk(s.chains[f], size))
    && (forall f :: f in s.part <==> f in s.chains && s.chains[f] != [])
  }

  // ---------------------------------------------------------------------------------------------
  // Objects of one slab
  // ---------------------------------------------------------------------------------------------

  /** Two objects of a slab do not overlap. */
  lemma Apart(a: nat, b: nat, size: nat)
    requires SizeOk(size) && IsObject(a, size) && IsObject(b, size) && a < b
    ensures a + size <= b
  {
    var i, j := a / size, b / size;
    assert a == i * size && b == j * size;
    assert i < j;
    assert (i + 1) * size <= j * size;
  }

  lemma Exact(i: nat, size: nat, q: nat, r: nat)
    requires 0 < size && q * size + r == i * size && r < size
    ensures q == i && r == 0
  {
    if i > q {
      Scale(q + 1, i, size);
    } else if i < q {
      Scale(i + 1, q, size);
    }
  }

  lemma Multiple(i: nat, size: nat)
    requires SizeOk(size)
    ensures (i * size) % size == 0 && (i * size) / size == i
    ensures i < PerSlab(size) ==> i * size + size <= PAGE_SIZE
  {
    Exact(i, size, (i * size) / size, (i * size) % size);
    if i < PerSlab(size) {
      Scale(i + 1, PerSlab(size), size);
    }
  }

  lemma Scale(i: nat, n: nat, size: nat)
    requires i <= n
    ensures i * size <= n * size
  {
  }

  lemma IndexBound(off: nat, size: nat)
    requires SizeOk(size) && IsObject(off, size)
    ensures off / size < PerSlab(size) && off == (off / size) * size
  {
    var i, q := off / size, PerSlab(size);
    assert off == i * size + off % size;
    if q <= i {
      Scale(q + 1, i + 1, size);
    }
  }

  lemma AllObjectsOk(size: nat)
    requires SizeOk(size)
    ensures ChainOk(AllObjects(size), size)
    ensures forall off: nat :: IsObject(off, size) ==> off in AllObjects(size)
  {
    var s := AllObjects(size);
    forall i | 0 <= i < |s|
      ensures IsObject(s[i], size) && s[i] / size == i
    {
      Multiple(i, size);
    }
    assert Distinct(s) by {
      forall i, j | 0 <= i < j < |s|
        ensures s[i] != s[j]
      {
        assert s[i] / size == i && s[j] / size == j;
      }
    }
    forall off: nat | IsObject(off, size)
      ensures off in s
    {
      IndexBound(off, size);
      assert s[off / size] == off;
    }
  }

  ghost function Indices(chain: seq<nat>, size: nat): (r: seq<nat>)
    requires SizeOk(size)
    ensures |r| == |chain| && forall i :: 0 <= i < |chain| ==> r[i] == chain[i] / size
  {
    seq(|chain|, i requires 0 <= i < |chain| => chain[i] / size)
  }

  /** A chain is never longer than its slab has objects, and shorter if one of them is live. */
  lemma ChainFits(chain: seq<nat>, size: nat)
    requires SizeOk(size) && ChainOk(chain, size)
    ensures |chain| <= PerSlab(size)
  {
    var r := Indices(chain, size);
    forall i | 0 <= i < |r|
      ensures r[i] < PerSlab(size) && chain[i] == r[i] * size
    {
      assert chain[i] in chain;
      IndexBound(chain[i], size);
    }
    Pigeonhole(r, PerSlab(size));
  }

  lemma LiveInUse(chain: seq<nat>, size: nat, off: nat)
    requires SizeOk(size) && ChainOk(chain, size) && IsObject(off, size) && off !in chain
    ensures |chain| < PerSlab(size)
  {
    ChainFits([off] + chain, size);
  }

  /** With one object in use there is one live object. */
  lemma LastLive(chain: seq<nat>, size: nat, a: nat, b: nat)
    requires SizeOk(size) && ChainOk(chain, size) && |chain| + 1 == PerSlab(size)
    requires IsObject(a, size) && a !in chain && IsObject(b, size) && b !in chain
    ensures a == b
  {
    if a != b {
      ChainFits([a, b] + chain, size);
    }
  }

  /** The bytes of two live objects are disjoint. */
  lemma LiveDisjoint(s: Slabs, o: Obj, p: Obj, size: nat, a: nat)
    requires SizeOk(size) && Live(s, o, size) && Live(s, p, size)
    requires o.slab * PAGE_SIZE + o.off <= a < o.slab * PAGE_SIZE + o.off + size
    requires p.slab * PAGE_SIZE + p.off <= a < p.slab * PAGE_SIZE + p.off + size
    ensures o == p
  {
    assert o.slab == a / PAGE_SIZE == p.slab;
    if o.off < p.off {
      Apart(o.off, p.off, size);
    } else if p.off < o.off {
      Apart(p.off, o.off, size);
    }
  }

  // ---------------------------------------------------------------------------------------------
  // One call
  // ---------------------------------------------------------------------------------------------

  /** cache_add_slab with the frame `f`. */
  ghost function Grow(s: Slabs, f: nat, size: nat): Slabs
    requires SizeOk(size)
  {
    Slabs(s.chains[f := AllObjects(size)], s.part + [f], s.cnt + 1)
  }

  /** Taking the first free object of the first slab of the partial list. */
  ghost function Take(s: Slabs, size: nat): (Slabs, Obj)
    requires SizeOk(size) && Ok(s, size) && s.part != []
  {
    var slab := s.part[0];
    var rest := s.chains[slab][1..];
    (Slabs(s.chains[slab := rest], if rest == [] then s.part[1..] else s.part, if rest == [] then s.cnt - 1 else s.cnt),
     Obj(slab, s.chains[slab][0]))
  }

  ghost predicate Emptying(s: Slabs, o: Obj, size: nat)
    requires SizeOk(size) && o.slab in s.chains
  {
    InUse(s, o.slab, size) == 1 && s.cnt >= 5
  }

  /**
   The release that goes wrong: the slab is given back to the frame allocator while it is the only one
   on the partial list.  Its links are both NOPAGE, as those of a slab on no list.
  */
  ghost predicate Stranded(s: Slabs, o: Obj, size: nat)
    requires SizeOk(size) && o.slab in s.chains
  {
    Emptying(s, o, size) && s.part == [o.slab]
  }

  ghost function ReleaseStep(s: Slabs, o: Obj, size: nat): Slabs
    requires SizeOk(size) && Live(s, o, size)
  {
    if Emptying(s, o, size) then
      Slabs(s.chains - {o.slab}, if o.slab in s.part && s.part != [o.slab] then Remove(s.part, o.slab) else s.part, s.cnt)
    else
      Slabs(s.chains[o.slab := [o.off] + s.chains[o.slab]],
            if s.chains[o.slab] == [] then s.part + [o.slab] else s.part,
            if s.chains[o.slab] == [] then s.cnt + 1 else s.cnt)
  }

  lemma GrowOk(s: Slabs, f: nat, size: nat)
    requires SizeOk(size) && Ok(s, size) && f !in s.chains
    ensures Ok(Grow(s, f, size), size)
    ensures forall o: Obj :: Live(Grow(s, f, size), o, size) <==> Live(s, o, size)
  {
    hide IsObject;
    AllObjectsOk(size);
    AddDistinct(s.part, f);
  }

  lemma AddDistinct(s: seq<nat>, x: nat)
    requires Distinct(s) && x !in s
    ensures Distinct(s + [x]) && Distinct([x] + s)
  {
  }

  lemma TakeOk(s: Slabs, size: nat)
    requires SizeOk(size) && Ok(s, size) && s.part != []
    ensures Ok(Take(s, size).0, size)
    ensures !Live(s, Take(s, size).1, size)
    ensures forall o: Obj :: Live(Take(s, size).0, o, size) <==> Live(s, o, size) || o == Take(s, size).1
  {
    hide IsObject;
    var slab := s.part[0];
    assert slab in s.part;
    var chain := s.chains[slab];
    HeadTail(chain);
    HeadTail(s.part);
    assert chain[0] in chain;
  }

  lemma HeadTail(s: seq<nat>)
    requires Distinct(s) && s != []
    ensures Distinct(s[1..]) && forall x :: x in s[1..] <==> x in s && x != s[0]
  {
    assert s == [s[0]] + s[1..];
    assert forall i :: 0 <= i < |s[1..]| ==> s[1..][i] == s[i + 1];
  }

  /** Releasing keeps the cache in order exactly if it does not strand a slab. */
  lemma ReleaseOk(s: Slabs, o: Obj, size: nat)
    requires SizeOk(size) && Ok(s, size) && Live(s, o, size)
    ensures Ok(ReleaseStep(s, o, size), size) <==> !Stranded(s, o, size)
    ensures forall p: Obj :: Live(ReleaseStep(s, o, size), p, size) <==> Live(s, p, size) && p != o
  {
    if Emptying(s, o, size) {
      EmptyingOk(s, o, size);
    } else {
      ReturningOk(s, o, size);
    }
  }

  lemma EmptyingOk(s: Slabs, o: Obj, size: nat)
    requires SizeOk(size) && Ok(s, size) && Live(s, o, size) && Emptying(s, o, size)
    ensures Ok(ReleaseStep(s, o, size), size) <==> !Stranded(s, o, size)
    ensures forall p: Obj :: Live(ReleaseStep(s, o, size), p, size) <==> Live(s, p, size) && p != o
  {
    hide IsObject, Remove, Distinct;
    forall p: Obj | Live(s, p, size) && p.slab == o.slab
      ensures p == o
    {
      LastLive(s.chains[o.slab], size, o.off, p.off);
    }
    if o.slab in s.part {
      assert s.part[0] in s.part;
      var k :| 0 <= k < |s.part| && s.part[k] == o.slab;
      RemoveIs(s.part, o.slab, k);
    }
  }

  lemma ReturningOk(s: Slabs, o: Obj, size: nat)
    requires SizeOk(size) && Ok(s, size) && Live(s, o, size) && !Emptying(s, o, size)
    ensures Ok(ReleaseStep(s, o, size), size) && !Stranded(s, o, size)
    ensures forall p: Obj :: Live(ReleaseStep(s, o, size), p, size) <==> Live(s, p, size) && p != o
  {
    hide IsObject;
    AddDistinct(s.chains[o.slab], o.off);
    if s.chains[o.slab] == [] {
      AddDistinct(s.part, o.slab);
    }
  }

  /** An allocation right after a release returns the same object, if its slab comes first, and undoes it. */
  lemma TakeUndoesRelease(s: Slabs, o: Obj, size: nat)
    requires SizeOk(size) && Ok(s, size) && Live(s, o, size) && !Emptying(s, o, size)
    requires var t := ReleaseStep(s, o, size); t.part != [] && t.part[0] == o.slab
    ensures Ok(ReleaseStep(s, o, size), size) && Take(ReleaseStep(s, o, size), size) == (s, o)
  {
    ReleaseOk(s, o, size);
    var t := ReleaseStep(s, o, size);
    assert t.chains[o.slab][1..] == s.chains[o.slab];
    assert s.part != [] ==> s.part[0] in s.part && t.part[0] == s.part[0];
    assert s.part == [] ==> t.part[1..] == [];
    var u := Take(t, size).0;
    assert u.chains == s.chains;
    assert u.part == s.part && u.cnt == s.cnt;
  }

  /** Otherwise the first slab of the list stays the first: a slab with a free object again comes last. */
  lemma FirstSlabStays(s: Slabs, o: Obj, size: nat)
    requires SizeOk(size) && Ok(s, size) && Live(s, o, size) && !Emptying(s, o, size) && s.part != []
    ensures var t := ReleaseStep(s, o, size);
            && t.part[..|s.part|] == s.part
            && t.part[|s.part|..] == (if s.chains[o.slab] == [] then [o.slab] else [])
            && (o.slab != s.part[0] ==> Ok(t, size) && Take(t, size).1 == Take(s, size).1)
  {
    ReleaseOk(s, o, size);
    assert s.part[0] in s.part;
  }

  /** A release gives the page back exactly if no other object of it is in use and the count is at least five. */
  lemma GivesBackIff(s: Slabs, o: Obj, size: nat)
    requires SizeOk(size) && Ok(s, size) && Live(s, o, size)
    ensures o.slab !in ReleaseStep(s, o, size).chains <==>
            s.cnt >= 5 && forall p: Obj :: Live(s, p, size) && p.slab == o.slab ==> p == o
  {
    hide IsObject;
    if Emptying(s, o, size) {
      forall p: Obj | Live(s, p, size) && p.slab == o.slab
        ensures p == o
      {
        LastLive(s.chains[o.slab], size, o.off, p.off);
      }
    } else if InUse(s, o.slab, size) != 1 {
      var off := AnotherLive(s.chains[o.slab], size, o.off);
      assert Live(s, Obj(o.slab, off), size);
    }
  }

  /** If a slab has not exactly one object in use, it has another one. */
  lemma AnotherLive(chain: seq<nat>, size: nat, off: nat) returns (other: nat)
    requires SizeOk(size) && ChainOk(chain, size) && IsObject(off, size) && off !in chain && PerSlab(size) - |chain| != 1
    ensures IsObject(other, size) && other !in chain && other != off
  {
    hide IsObject;
    AllObjectsOk(size);
    var all, rest := AllObjects(size), chain + [off];
    assert Distinct(rest);
    if forall k :: 0 <= k < |all| ==> all[k] in rest {
      SubsetLength(all, rest);
      forall k | 0 <= k < |rest|
        ensures rest[k] in all
      {
        assert rest[k] in rest;
      }
      SubsetLength(rest, all);
      assert false;
    }
    var k :| 0 <= k < |all| && all[k] !in rest;
    other := all[k];
    assert other in all && off in rest;
    assert forall x :: x in chain ==> x in rest;
  }

  lemma {:induction false} SubsetLength(s: seq<nat>, t: seq<nat>)
    requires Distinct(s) && forall k :: 0 <= k < |s| ==> s[k] in t
    ensures |s| <= |t|
  {
    if s != [] {
      var i :| 0 <= i < |t| && t[i] == s[0];
      var t' := Drop(t, i);
      forall k | 0 <= k < |s[1..]|
        ensures s[1..][k] in t'
      {
        var j :| 0 <= j < |t| && t[j] == s[k + 1];
        assert t'[if j < i then j else j - 1] == t[j];
      }
      SubsetLength(s[1..], t');
    }
  }

  /** What `k` allocations leave of a cache whose only partial slab is new. */
  ghost function TakeTimes(s: Slabs, size: nat, k: nat): Slabs
    requires SizeOk(size)
    decreases k
  {
    if k == 0 || !Ok(s, size) || s.part == [] then s else TakeTimes(Take(s, size).0, size, k - 1)
  }

  /** The objects of a new slab are handed out in the order of their addresses. */
  lemma FreshOrder(s: Slabs, f: nat, size: nat, k: nat)
    requires SizeOk(size) && Ok(s, size) && s.part == [] && f !in s.chains && k < PerSlab(size)
    ensures var t := TakeTimes(Grow(s, f, size), size, k);
            Ok(t, size) && t.part != [] && Take(t, size).1 == Obj(f, k * size)
  {
    hide Ok;
    GrowOk(s, f, size);
    TakesInOrder(Grow(s, f, size), f, size, 0, k);
  }

  lemma {:induction false} TakesInOrder(s: Slabs, f: nat, size: nat, j: nat, k: nat)
    requires SizeOk(size) && Ok(s, size) && s.part == [f] && f in s.chains && j + k < PerSlab(size)
    requires s.chains[f] == AllObjects(size)[j..]
    ensures var t := TakeTimes(s, size, k);
            Ok(t, size) && t.part != [] && Take(t, size).1 == Obj(f, (j + k) * size)
    decreases k
  {
    hide Ok;
    if k > 0 {
      TakeOk(s, size);
      assert AllObjects(size)[j..][1..] == AllObjects(size)[j + 1..];
      TakesInOrder(Take(s, size).0, f, size, j + 1, k - 1);
    }
  }

  // ---------------------------------------------------------------------------------------------
  // partial_cnt
  // ---------------------------------------------------------------------------------------------

  /** A release that takes a slab off the partial list; the code does not count it. */
  ghost predicate Unlinks(s: Slabs, o: Obj, size: nat)
    requires SizeOk(size) && o.slab in s.chains
  {
    Emptying(s, o, size) && o.slab in s.part && s.part != [o.slab]
  }

  /** `partial_cnt` runs ahead of the length of the list by one with every such release, and only then. */
  lemma CountDrifts(s: Slabs, o: Obj, size: nat)
    requires SizeOk(size) && Ok(s, size) && Live(s, o, size)
    ensures var t := ReleaseStep(s, o, size);
            t.cnt - |t.part| == s.cnt - |s.part| + (if Unlinks(s, o, size) then 1 else 0)
  {
    if Unlinks(s, o, size) {
      var k :| 0 <= k < |s.part| && s.part[k] == o.slab;
      RemoveIs(s.part, o.slab, k);
    }
  }

  /** The release with the decrement that the declaration of `partial_cnt` asks for. */
  ghost function CountedRelease(s: Slabs, o: Obj, size: nat): Slabs
    requires SizeOk(size) && Live(s, o, size)
  {
    var t := ReleaseStep(s, o, size);
    if Unlinks(s, o, size) then t.(cnt := t.cnt - 1) else t
  }

  /** With it, the count stays the length of the list, and no slab is ever stranded. */
  lemma CountedNeverStrands(s: Slabs, o: Obj, size: nat)
    requires SizeOk(size) && Ok(s, size) && Live(s, o, size) && s.cnt == |s.part|
    ensures !Stranded(s, o, size)
    ensures var t := CountedRelease(s, o, size); Ok(t, size) && t.cnt == |t.part|
  {
    ReleaseOk(s, o, size);
    CountDrifts(s, o, size);
  }

  // ---------------------------------------------------------------------------------------------
  // Runs
  // ---------------------------------------------------------------------------------------------

  /** `frame` is what the frame allocator hands out if the call has to ask for a page. */
  datatype Op = AllocObj(frame: nat) | ReleaseObj(o: Obj)

  ghost predicate Legal(s: Slabs, op: Op, size: nat)
    requires SizeOk(size)
  {
    match op
    case AllocObj(f) => s.part == [] ==> f !in s.chains
    case ReleaseObj(o) => Live(s, o, size)
  }

  ghost function Refill(s: Slabs, f: nat, size: nat): (t: Slabs)
    requires SizeOk(size) && Ok(s, size) && (s.part == [] ==> f !in s.chains)
    ensures Ok(t, size) && t.part != []
  {
    if s.part == [] then GrowOk(s, f, size); Grow(s, f, size) else s
  }

  ghost function Step(s: Slabs, op: Op, size: nat): Slabs
    requires SizeOk(size) && Ok(s, size) && Legal(s, op, size)
  {
    match op
    case AllocObj(f) => Take(Refill(s, f, size), size).0
    case ReleaseObj(o) => ReleaseStep(s, o, size)
  }

  ghost function Result(s: Slabs, op: Op, size: nat): Obj
    requires SizeOk(size) && Ok(s, size) && Legal(s, op, size) && op.AllocObj?
  {
    Take(Refill(s, op.frame, size), size).1
  }

  /** All calls are legal and none but perhaps the last strands a slab; after that the code is on its own. */
  ghost predicate CanRun(s: Slabs, ops: seq<Op>, size: nat)
    requires SizeOk(size) && Ok(s, size)
    decreases |ops|
  {
    ops != [] ==>
      Legal(s, ops[0], size)
      && (|ops| > 1 ==> Ok(Step(s, ops[0], size), size) && CanRun(Step(s, ops[0], size), ops[1..], size))
  }

  ghost function After(s: Slabs, ops: seq<Op>, size: nat): Slabs
    requires SizeOk(size) && Ok(s, size) && CanRun(s, ops, size)
    decreases |ops|
  {
    if ops == [] then s
    else if |ops| == 1 then Step(s, ops[0], size)
    else After(Step(s, ops[0], size), ops[1..], size)
  }

  /** What the k-th call returns, if it is an allocation. */
  ghost function ResultAt(s: Slabs, ops: seq<Op>, k: nat, size: nat): Obj
    requires SizeOk(size) && Ok(s, size) && CanRun(s, ops, size) && k < |ops| && ops[k].AllocObj?
    decreases |ops|
  {
    if k == 0 then Result(s, ops[0], size) else ResultAt(Step(s, ops[0], size), ops[1..], k - 1, size)
  }

  /** An allocation adds one live object, a release removes the one it is given; nothing else changes. */
  lemma StepLive(s: Slabs, op: Op, size: nat)
    requires SizeOk(size) && Ok(s, size) && Legal(s, op, size)
    ensures op.AllocObj? ==> Ok(Step(s, op, size), size) && !Live(s, Result(s, op, size), size)
    ensures op.ReleaseObj? ==> (Ok(Step(s, op, size), size) <==> !Stranded(s, op.o, size))
    ensures forall p: Obj :: Live(Step(s, op, size), p, size) <==>
              if op.AllocObj? then Live(s, p, size) || p == Result(s, op, size) else Live(s, p, size) && p != op.o
  {
    hide Live, Ok;
    match op
    case AllocObj(f) =>
      if s.part == [] {
        GrowOk(s, f, size);
      }
      TakeOk(Refill(s, f, size), size);
    case ReleaseObj(o) =>
      ReleaseOk(s, o, size);
  }

  lemma {:induction false} StaysLive(s: Slabs, ops: seq<Op>, o: Obj, j: nat, size: nat)
    requires SizeOk(size) && Ok(s, size) && CanRun(s, ops, size) && Live(s, o, size)
    requires j < |ops| && ops[j].AllocObj? && forall k :: 0 <= k < j ==> ops[k] != ReleaseObj(o)
    ensures ResultAt(s, ops, j, size) != o
    decreases |ops|
  {
    hide Live, Ok, Step;
    StepLive(s, ops[0], size);
    if j > 0 {
      assert forall k :: 0 <= k < j - 1 ==> ops[1..][k] == ops[k + 1];
      StaysLive(Step(s, ops[0], size), ops[1..], o, j - 1, size);
    }
  }

  /** Over any run that strands no slab, an object handed out twice was released in between. */
  lemma {:induction false} NoDoubleObject(s: Slabs, ops: seq<Op>, i: nat, j: nat, size: nat)
    requires SizeOk(size) && Ok(s, size) && CanRun(s, ops, size)
    requires i < j < |ops| && ops[i].AllocObj? && ops[j].AllocObj?
    requires ResultAt(s, ops, i, size) == ResultAt(s, ops, j, size)
    ensures exists k :: i < k < j && ops[k] == ReleaseObj(ResultAt(s, ops, i, size))
    decreases |ops|
  {
    hide Live, Ok, Step;
    var rest, t := ops[1..], Step(s, ops[0], size);
    var o := ResultAt(s, ops, i, size);
    assert forall k :: 0 <= k < |rest| ==> rest[k] == ops[k + 1];
    if i > 0 {
      NoDoubleObject(t, rest, i - 1, j - 1, size);
      var k :| i - 1 < k < j - 1 && rest[k] == ReleaseObj(o);
      assert ops[k + 1] == ReleaseObj(o);
    } else {
      StepLive(s, ops[0], size);
      if forall k :: 0 <= k < j - 1 ==> rest[k] != ReleaseObj(o) {
        StaysLive(t, rest, o, j - 1, size);
      } else {
        var k :| 0 <= k < j - 1 && rest[k] == ReleaseObj(o);
        assert ops[k + 1] == ReleaseObj(o);
      }
    }
  }

  // ---------------------------------------------------------------------------------------------
  // partial_cnt over runs
  // ---------------------------------------------------------------------------------------------

  /** How many calls of the run take an empty slab off the partial list. */
  ghost function UnlinksIn(s: Slabs, ops: seq<Op>, size: nat): nat
    requires SizeOk(size) && Ok(s, size) && CanRun(s, ops, size)
    decreases |ops|
  {
    if ops == [] then 0
    else
      (if ops[0].ReleaseObj? && Unlinks(s, ops[0].o, size) then 1 else 0)
      + if |ops| == 1 then 0 else UnlinksIn(Step(s, ops[0], size), ops[1..], size)
  }

  lemma AllocCounts(s: Slabs, f: nat, size: nat)
    requires SizeOk(size) && Ok(s, size) && Legal(s, AllocObj(f), size)
    ensures Step(s, AllocObj(f), size).cnt - |Step(s, AllocObj(f), size).part| == s.cnt - |s.part|
  {
  }

  /** After any run partial_cnt is ahead of the list by the number of empty slabs that were taken off it. */
  lemma {:induction false} RunDrifts(s: Slabs, ops: seq<Op>, size: nat)
    requires SizeOk(size) && Ok(s, size) && CanRun(s, ops, size)
    ensures var t := After(s, ops, size); t.cnt - |t.part| == s.cnt - |s.part| + UnlinksIn(s, ops, size)
    decreases |ops|
  {
    hide Ok, Live, Unlinks;
    if ops != [] {
      if ops[0].AllocObj? {
        AllocCounts(s, ops[0].frame, size);
      } else {
        CountDrifts(s, ops[0].o, size);
      }
      if |ops| > 1 {
        RunDrifts(Step(s, ops[0], size), ops[1..], size);
      }
    }
  }

  /** One call with the counted release. */
  ghost function CountedStep(s: Slabs, op: Op, size: nat): (t: Slabs)
    requires SizeOk(size) && Ok(s, size) && s.cnt == |s.part| && Legal(s, op, size)
    ensures Ok(t, size) && t.cnt == |t.part|
  {
    match op
    case AllocObj(f) => StepLive(s, op, size); AllocCounts(s, f, size); Step(s, op, size)
    case ReleaseObj(o) => CountedNeverStrands(s, o, size); CountedRelease(s, o, size)
  }

  ghost predicate CountedCanRun(s: Slabs, ops: seq<Op>, size: nat)
    requires SizeOk(size) && Ok(s, size) && s.cnt == |s.part|
    decreases |ops|
  {
    ops != [] ==> Legal(s, ops[0], size) && CountedCanRun(CountedStep(s, ops[0], size), ops[1..], size)
  }

  /** The cache before the k-th call of such a run. */
  ghost function CountedAt(s: Slabs, ops: seq<Op>, k: nat, size: nat): (t: Slabs)
    requires SizeOk(size) && Ok(s, size) && s.cnt == |s.part| && CountedCanRun(s, ops, size) && k < |ops|
    ensures Ok(t, size) && t.cnt == |t.part| && Legal(t, ops[k], size)
    decreases |ops|
  {
    if k == 0 then s else CountedAt(CountedStep(s, ops[0], size), ops[1..], k - 1, size)
  }

  /** With the counted release, no release of any run strands a slab. */
  lemma CountedRunNeverStrands(s: Slabs, ops: seq<Op>, k: nat, size: nat)
    requires SizeOk(size) && Ok(s, size) && s.cnt == |s.part| && CountedCanRun(s, ops, size)
    requires k < |ops| && ops[k].ReleaseObj?
    ensures !Stranded(CountedAt(s, ops, k, size), ops[k].o, size)
  {
    hide Ok, CountedStep, CountedAt, Stranded;
    CountedNeverStrands(CountedAt(s, ops, k, size), ops[k].o, size);
  }

  /** What the k-th call of such a run returns, if it is an allocation. */
  ghost function CountedResultAt(s: Slabs, ops: seq<Op>, k: nat, size: nat): Obj
    requires SizeOk(size) && Ok(s, size) && s.cnt == |s.part| && CountedCanRun(s, ops, size)
    requires k < |ops| && ops[k].AllocObj?
  {
    Result(CountedAt(s, ops, k, size), ops[k], size)
  }

  lemma CountedStepLive(s: Slabs, op: Op, size: nat)
    requires SizeOk(size) && Ok(s, size) && s.cnt == |s.part| && Legal(s, op, size)
    ensures op.AllocObj? ==> !Live(s, Result(s, op, size), size)
    ensures forall p: Obj :: Live(CountedStep(s, op, size), p, size) <==>
              if op.AllocObj? then Live(s, p, size) || p == Result(s, op, size) else Live(s, p, size) && p != op.o
  {
    hide Ok, IsObject;
    StepLive(s, op, size);
  }

  lemma {:induction false} CountedStaysLive(s: Slabs, ops: seq<Op>, o: Obj, j: nat, size: nat)
    requires SizeOk(size) && Ok(s, size) && s.cnt == |s.part| && CountedCanRun(s, ops, size) && Live(s, o, size)
    requires j < |ops| && ops[j].AllocObj? && forall k :: 0 <= k < j ==> ops[k] != ReleaseObj(o)
    ensures CountedResultAt(s, ops, j, size) != o
    decreases |ops|
  {
    hide Live, Ok, CountedStep, Result;
    CountedStepLive(s, ops[0], size);
    if j > 0 {
      assert forall k :: 0 <= k < j - 1 ==> ops[1..][k] == ops[k + 1];
      CountedStaysLive(CountedStep(s, ops[0], size), ops[1..], o, j - 1, size);
    }
  }

  /** With the counted release, over every run, an object handed out twice was released in between. */
  lemma {:induction false} CountedNoDoubleObject(s: Slabs, ops: seq<Op>, i: nat, j: nat, size: nat)
    requires SizeOk(size) && Ok(s, size) && s.cnt == |s.part| && CountedCanRun(s, ops, size)
    requires i < j < |ops| && ops[i].AllocObj? && ops[j].AllocObj?
    requires CountedResultAt(s, ops, i, size) == CountedResultAt(s, ops, j, size)
    ensures exists k :: i < k < j && ops[k] == ReleaseObj(CountedResultAt(s, ops, i, size))
    decreases |ops|
  {
    hide Live, Ok, CountedStep, Result;
    var rest, t := ops[1..], CountedStep(s, ops[0], size);
    var o := CountedResultAt(s, ops, i, size);
    assert forall k :: 0 <= k < |rest| ==> rest[k] == ops[k + 1];
    if i > 0 {
      CountedNoDoubleObject(t, rest, i - 1, j - 1, size);
      var k :| i - 1 < k < j - 1 && rest[k] == ReleaseObj(o);
      assert ops[k + 1] == ReleaseObj(o);
    } else {
      CountedStepLive(s, ops[0], size);
      if forall k :: 0 <= k < j - 1 ==> rest[k] != ReleaseObj(o) {
        CountedStaysLive(t, rest, o, j - 1, size);
      } else {
        var k :| 0 <= k < j - 1 && rest[k] == ReleaseObj(o);
        assert ops[k + 1] == ReleaseObj(o);
      }
    }
  }

  // ---------------------------------------------------------------------------------------------
  // Stranding a slab
  // ---------------------------------------------------------------------------------------------

  /** There is a run from `s` to `t`. */
  ghost predicate Reaches(s: Slabs, t: Slabs, size: nat)
    requires SizeOk(size) && Ok(s, size)
  {
    exists ops :: CanRun(s, ops, size) && After(s, ops, size) == t
  }

  lemma {:induction false} RunSnoc(s: Slabs, ops: seq<Op>, op: Op, size: nat)
    requires SizeOk(size) && Ok(s, size) && CanRun(s, ops, size)
    requires Ok(After(s, ops, size), size) && Legal(After(s, ops, size), op, size)
    ensures CanRun(s, ops + [op], size) && After(s, ops + [op], size) == Step(After(s, ops, size), op, size)
    decreases |ops|
  {
    hide Ok, Step, Legal;
    if ops == [] {
      assert ops + [op] == [op];
    } else {
      assert (ops + [op])[1..] == ops[1..] + [op];
      if |ops| == 1 {
        assert (ops + [op])[1..] == [op];
        assert CanRun(Step(s, ops[0], size), [op], size);
      } else {
        RunSnoc(Step(s, ops[0], size), ops[1..], op, size);
      }
    }
  }

  lemma Then(s: Slabs, t: Slabs, op: Op, size: nat)
    requires SizeOk(size) && Ok(s, size) && Reaches(s, t, size) && Ok(t, size) && Legal(t, op, size)
    ensures Reaches(s, Step(t, op, size), size)
  {
    hide Ok, Step, Legal;
    var ops :| CanRun(s, ops, size) && After(s, ops, size) == t;
    RunSnoc(s, ops, op, size);
  }

  lemma TwoObjects()
    ensures AllObjects(2048) == [0, 2048] && PerSlab(2048) == 2 && IsObject(0, 2048) && IsObject(2048, 2048)
  {
  }

  /** Two allocations with an empty partial list and two objects to a slab fill a new slab. */
  lemma FillSlab(s: Slabs, t: Slabs, f: nat) returns (u: Slabs)
    requires Ok(s, 2048) && Ok(t, 2048) && Reaches(s, t, 2048) && t.part == [] && f !in t.chains
    ensures u == Slabs(t.chains[f := []], [], t.cnt) && Ok(u, 2048) && Reaches(s, u, 2048)
  {
    hide Reaches;
    TwoObjects();
    Then(s, t, AllocObj(f), 2048);
    StepLive(t, AllocObj(f), 2048);
    u := Step(t, AllocObj(f), 2048);
    assert u == Slabs(t.chains[f := [2048]], [f], t.cnt + 1);
    Then(s, u, AllocObj(f), 2048);
    StepLive(u, AllocObj(f), 2048);
    u := Step(u, AllocObj(f), 2048);
    assert u == Slabs(t.chains[f := []], [], t.cnt);
  }

  /** Releasing the first object of a full slab puts the slab on the partial list. */
  lemma Reopen(s: Slabs, t: Slabs, f: nat) returns (u: Slabs)
    requires Ok(s, 2048) && Ok(t, 2048) && Reaches(s, t, 2048) && f in t.chains && t.chains[f] == [] && t.cnt < 5
    ensures u == Slabs(t.chains[f := [0]], t.part + [f], t.cnt + 1) && Ok(u, 2048) && Reaches(s, u, 2048)
  {
    hide Reaches;
    TwoObjects();
    Then(s, t, ReleaseObj(Obj(f, 0)), 2048);
    StepLive(t, ReleaseObj(Obj(f, 0)), 2048);
    u := Step(t, ReleaseObj(Obj(f, 0)), 2048);
    assert [0] + t.chains[f] == [0];
  }

  /** Releasing the other one, with a count of five or more, gives the slab back. */
  lemma Close(s: Slabs, t: Slabs, f: nat) returns (u: Slabs)
    requires Ok(s, 2048) && Ok(t, 2048) && Reaches(s, t, 2048) && f in t.chains && t.chains[f] == [0] && t.cnt >= 5
    requires t.part != [] && t.part[0] == f
    ensures u == Slabs(t.chains - {f}, if |t.part| > 1 then t.part[1..] else t.part, t.cnt) && Reaches(s, u, 2048)
    ensures Ok(u, 2048) <==> |t.part| > 1
  {
    hide Reaches;
    TwoObjects();
    var o := Obj(f, 2048);
    Then(s, t, ReleaseObj(o), 2048);
    StepLive(t, ReleaseObj(o), 2048);
    u := Step(t, ReleaseObj(o), 2048);
    assert f in t.part;
    RemoveIs(t.part, f, 0);
    assert Drop(t.part, 0) == t.part[1..];
  }

  lemma FiveFull(s: Slabs) returns (t: Slabs)
    requires s == Slabs(map[], [], 0)
    ensures Ok(s, 2048) && Ok(t, 2048) && Reaches(s, t, 2048)
    ensures t == Slabs(map[1 := [], 2 := [], 3 := [], 4 := [], 5 := []], [], 0)
  {
    hide Reaches, Ok;
    EmptyOk();
    ReachesSelf(s, 2048);
    t := FillSlab(s, s, 1);
    t := FillSlab(s, t, 2);
    t := FillSlab(s, t, 3);
    t := FillSlab(s, t, 4);
    t := FillSlab(s, t, 5);
  }

  lemma EmptyOk()
    ensures Ok(Slabs(map[], [], 0), 2048)
  {
  }

  lemma FivePartial(s: Slabs) returns (t: Slabs)
    requires s == Slabs(map[], [], 0)
    ensures Ok(s, 2048) && Ok(t, 2048) && Reaches(s, t, 2048)
    ensures t == Slabs(map[1 := [0], 2 := [0], 3 := [0], 4 := [0], 5 := [0]], [1, 2, 3, 4, 5], 5)
  {
    hide Reaches, Ok;
    t := FiveFull(s);
    t := Reopen(s, t, 1);
    t := Reopen(s, t, 2);
    t := Reopen(s, t, 3);
    t := Reopen(s, t, 4);
    t := Reopen(s, t, 5);
  }

  /**
   A run from an empty cache that strands a slab: five slabs of two objects are filled, one object of
   each is released, then the other.  The last slab stays at the head of the partial list although its
   frame has been given back.
  */
  lemma StrandingRun(s: Slabs) returns (t: Slabs)
    requires s == Slabs(map[], [], 0)
    ensures Ok(s, 2048) && Reaches(s, t, 2048) && t.part == [5] && 5 !in t.chains && !Ok(t, 2048)
  {
    hide Reaches, Ok;
    t := FivePartial(s);
    t := Close(s, t, 1);
    assert t.part == [2, 3, 4, 5];
    t := Close(s, t, 2);
    assert t.part == [3, 4, 5];
    t := Close(s, t, 3);
    assert t.part == [4, 5];
    t := Close(s, t, 4);
    assert t.part == [5];
    t := Close(s, t, 5);
  }

  lemma ReachesSelf(s: Slabs, size: nat)
    requires SizeOk(size) && Ok(s, size)
    ensures Reaches(s, s, size)
  {
    assert CanRun(s, [], size) && After(s, [], size) == s;
  }
}
