/**
 The sector cache of kernel/libc++/include/lru.hpp and kernel/dev/sata_dev.cpp on values: what one
 `get` does to the cached lines and the disk, and why the cache behind it is a flat disk.
*/
module LruModel {
  import opened Bytes
  import opened DistinctSeq

  const SECTOR_SIZE: nat := 512

  type Sector = s: seq<byte> | |s| == SECTOR_SIZE witness seq(512, _ => 0 as byte)

  /** One cache entry; the pool lists them from the most to the least recently used. */
  datatype Line = Line(key: nat, data: Sector, cnt: nat, dirty: bool)

  type Disk = seq<Sector>

  /** The linear search of LRU::get: the index of a key, or the size of the pool. */
  function Find(lines: seq<Line>, key: nat): (i: nat)
    ensures i <= |lines| && (i < |lines| ==> lines[i].key == key)
    ensures forall j :: 0 <= j < i ==> lines[j].key != key
  {
    if lines == [] || lines[0].key == key then 0 else 1 + Find(lines[1..], key)
  }

  /**
   LRU::get with the swap-out callback: the lines, the disk and the count that the caller sees,
   which is 0 exactly for a line that has just been set up.  `blank` is what a new buffer holds.
  */
  function Get(lines: seq<Line>, disk: Disk, key: nat, setDirty: bool, max: nat, blank: Sector): (seq<Line>, Disk, nat)
    requires max > 0 && forall i :: 0 <= i < |lines| ==> lines[i].key < |disk|
  {
    var i := Find(lines, key);
    if i < |lines| then
      var hit := lines[i];
      ([Line(key, hit.data, hit.cnt + 1, hit.dirty || setDirty)] + Drop(lines, i), disk, hit.cnt)
    else if |lines| < max then ([Line(key, blank, 1, setDirty)] + lines, disk, 0)
    else
      var victim := lines[|lines| - 1];
      ([Line(key, victim.data, 1, setDirty)] + lines[..|lines| - 1],
       if victim.dirty then disk[victim.key := victim.data] else disk, 0)
  }

  /** What a reader of sector `s` should see: the cached line, or else the disk. */
  function Logical(lines: seq<Line>, disk: Disk, s: nat): Sector
    requires s < |disk|
  {
    var i := Find(lines, s);
    if i < |lines| then lines[i].data else disk[s]
  }

  /** How often the entry of a key has been used since it came in; 0 if the key is not cached. */
  function UseCount(lines: seq<Line>, key: nat): nat {
    if Find(lines, key) < |lines| then lines[Find(lines, key)].cnt else 0
  }

  /** A get returns the count before it and adds one; no other key that stays cached is counted. */
  lemma GetCounts(lines: seq<Line>, disk: Disk, key: nat, setDirty: bool, max: nat, blank: Sector, other: nat)
    requires max > 0 && forall i :: 0 <= i < |lines| ==> lines[i].key < |disk|
    requires forall i, j :: 0 <= i < j < |lines| ==> lines[i].key != lines[j].key
    ensures var (l, d, c) := Get(lines, disk, key, setDirty, max, blank);
            && c == UseCount(lines, key) && UseCount(l, key) == c + 1
            && (other != key ==> UseCount(l, other) == UseCount(lines, other) || Find(l, other) == |l|)
  {
    hide Find;
    var l := Get(lines, disk, key, setDirty, max, blank).0;
    FirstLine(l);
    var j := Find(l, other);
    if other != key && j < |l| {
      var k := if Find(lines, key) < |lines| && j > Find(lines, key) then j else j - 1;
      assert lines[k] == l[j];
      FindAt(lines, k);
    }
  }

  lemma FirstLine(lines: seq<Line>)
    ensures lines != [] ==> Find(lines, lines[0].key) == 0
  {
  }

  lemma FindAt(lines: seq<Line>, k: nat)
    requires k < |lines| && forall i, j :: 0 <= i < j < |lines| ==> lines[i].key != lines[j].key
    ensures Find(lines, lines[k].key) == k
  {
  }

  // ---------------------------------------------------------------------------------------------
  // Most recently used first
  // ---------------------------------------------------------------------------------------------

  /** The distinct keys of a history of uses, the latest first. */
  function Mru(uses: seq<nat>): seq<nat> {
    if uses == [] then []
    else [uses[|uses| - 1]] + Remove(Mru(uses[..|uses| - 1]), uses[|uses| - 1])
  }

  function Take(s: seq<nat>, n: nat): seq<nat> {
    if |s| <= n then s else s[..n]
  }

  function Keys(lines: seq<Line>): (r: seq<nat>)
    ensures |r| == |lines| && forall i :: 0 <= i < |r| ==> r[i] == lines[i].key
  {
    seq(|lines|, i requires 0 <= i < |lines| => lines[i].key)
  }

  /** The invariant of the cache between two calls. */
  ghost predicate Inv(lines: seq<Line>, disk: Disk, max: nat, uses: seq<nat>) {
    && |lines| <= max && max > 0
    && Distinct(Keys(lines))
    && (forall i :: 0 <= i < |lines| ==> lines[i].key < |disk| && lines[i].cnt > 0)
    && (forall i :: 0 <= i < |lines| ==> !lines[i].dirty ==> lines[i].data == disk[lines[i].key])
    && Keys(lines) == Take(Mru(uses), max)
  }

  // ---------------------------------------------------------------------------------------------
  // The order of the pool is the order of last use
  // ---------------------------------------------------------------------------------------------

  lemma {:induction false} MruDistinct(uses: seq<nat>)
    ensures Distinct(Mru(uses))
  {
    if uses != [] {
      var front, last := uses[..|uses| - 1], uses[|uses| - 1];
      MruDistinct(front);
      RemoveMembers(Mru(front), last);
      ConsDistinct(last, Remove(Mru(front), last));
    }
  }

  /** Beyond the first `n` keys, removing one does not show. */
  lemma TakeRemove(m: seq<nat>, x: nat, n: nat)
    requires Distinct(m) && n <= |m| && x !in m[..n]
    ensures Take(Remove(m, x), n) == m[..n]
  {
    if x in m {
      var i :| 0 <= i < |m| && m[i] == x;
      assert forall j :: 0 <= j < n ==> m[j] in m[..n];
      assert i >= n;
      RemoveAt(m, i);
    } else {
      RemoveAbsent(m, x);
    }
  }

  /** The keys after a get: the pool keeps the `max` most recently used ones. */
  lemma GetOrder(lines: seq<Line>, disk: Disk, key: nat, setDirty: bool, max: nat, blank: Sector, uses: seq<nat>)
    requires Inv(lines, disk, max, uses)
    ensures Keys(Get(lines, disk, key, setDirty, max, blank).0) == Take(Mru(uses + [key]), max)
  {
    hide Mru, Find;
    var m, k := Mru(uses), Keys(lines);
    MruDistinct(uses);
    MruSnoc(uses, key);
    var i := Find(lines, key);
    var k' := Keys(Get(lines, disk, key, setDirty, max, blank).0);
    if i < |lines| {
      assert k' == [key] + Drop(k, i);
      OrderHit(m, k, i, max);
    } else {
      assert forall j :: 0 <= j < |lines| ==> k[j] != key;
      assert k' == [key] + if |lines| < max then k else k[..max - 1];
      OrderMiss(m, k, key, max);
    }
  }

  /** The i-th of the keys, all from the front of the history, moves to the front. */
  lemma OrderHit(m: seq<nat>, k: seq<nat>, i: nat, max: nat)
    requires Distinct(m) && k == Take(m, max) && i < |k|
    ensures [k[i]] + Drop(k, i) == Take([k[i]] + Remove(m, k[i]), max)
  {
    hide Distinct, Remove;
    RemoveAt(m, i);
    assert Take([k[i]] + Drop(m, i), max) == [k[i]] + Drop(k, i);
  }

  lemma OrderMiss(m: seq<nat>, k: seq<nat>, key: nat, max: nat)
    requires Distinct(m) && k == Take(m, max) && max > 0 && key !in k
    ensures [key] + (if |k| < max then k else k[..max - 1]) == Take([key] + Remove(m, key), max)
  {
    hide Distinct;
    if |k| < max {
      RemoveAbsent(m, key);
    } else {
      assert k[..max - 1] == m[..max - 1];
      TakeRemove(m, key, max - 1);
    }
  }

  lemma MruSnoc(uses: seq<nat>, key: nat)
    ensures Mru(uses + [key]) == [key] + Remove(Mru(uses), key)
  {
    assert (uses + [key])[..|uses|] == uses;
  }

  /** The time of the last use of a key, -1 for a key that was never used. */
  ghost function LastUse(uses: seq<nat>, key: nat): (r: int)
    ensures -1 <= r < |uses| && (r >= 0 ==> uses[r] == key)
    ensures forall i :: r < i < |uses| ==> uses[i] != key
  {
    var last := |uses| - 1;
    if uses == [] then -1 else if uses[last] == key then last else LastUse(uses[..last], key)
  }

  /** The history holds every used key, ordered by last use. */
  lemma {:induction false} MruByLastUse(uses: seq<nat>)
    ensures forall key :: key in Mru(uses) <==> key in uses
    ensures forall i, j :: 0 <= i < j < |Mru(uses)| ==> LastUse(uses, Mru(uses)[i]) > LastUse(uses, Mru(uses)[j])
  {
    if uses != [] {
      hide LastUse, Distinct, Remove;
      var front, last := uses[..|uses| - 1], uses[|uses| - 1];
      MruByLastUse(front);
      MruDistinct(front);
      RemoveMembers(Mru(front), last);
      assert uses == front + [last];
      MruSnoc(front, last);
      var rest := Remove(Mru(front), last);
      LastUseSnoc(front, last, last);
      forall i | 0 <= i < |rest|
        ensures LastUse(uses, rest[i]) == LastUse(front, rest[i]) < |front|
      {
        assert rest[i] in rest;
        LastUseSnoc(front, last, rest[i]);
      }
      forall i, j | 0 <= i < j < |rest|
        ensures LastUse(front, rest[i]) > LastUse(front, rest[j])
      {
        RemoveOrder(Mru(front), last, front, i, j);
      }
    }
  }

  lemma LastUseSnoc(uses: seq<nat>, last: nat, key: nat)
    ensures LastUse(uses + [last], key) == if key == last then |uses| else LastUse(uses, key)
  {
    assert (uses + [last])[..|uses|] == uses;
  }

  /** Removing a key keeps the order of the others. */
  lemma {:induction false} RemoveOrder(m: seq<nat>, x: nat, uses: seq<nat>, i: nat, j: nat)
    requires Distinct(m) && i < j < |Remove(m, x)|
    requires forall a, b :: 0 <= a < b < |m| ==> LastUse(uses, m[a]) > LastUse(uses, m[b])
    ensures LastUse(uses, Remove(m, x)[i]) > LastUse(uses, Remove(m, x)[j])
  {
    if x in m {
      var k :| 0 <= k < |m| && m[k] == x;
      RemoveAt(m, k);
    } else {
      RemoveAbsent(m, x);
    }
  }

  /**
   When the cache is full, a key that is not cached replaces the key of the last line and no other.  Every
   other cached key was used after that key, and every key that is not cached before it.
  */
  lemma VictimIsOldest(lines: seq<Line>, disk: Disk, max: nat, uses: seq<nat>, key: nat, setDirty: bool, blank: Sector)
    requires Inv(lines, disk, max, uses) && |lines| == max && key !in Keys(lines)
    ensures var v := lines[max - 1].key;
            && Keys(Get(lines, disk, key, setDirty, max, blank).0) == [key] + Keys(lines)[..max - 1]
            && LastUse(uses, v) >= 0
            && (forall i :: 0 <= i < max - 1 ==> LastUse(uses, lines[i].key) > LastUse(uses, v))
            && forall k :: k in uses && k !in Keys(lines) ==> LastUse(uses, k) < LastUse(uses, v)
  {
    hide Mru, LastUse, Distinct, Get;
    MissKeys(lines, disk, max, uses, key, setDirty, blank);
    MruByLastUse(uses);
    var m, keys := Mru(uses), Keys(lines);
    assert keys == m[..max];
    assert m[max - 1] in m;
    UsedOnce(uses, m[max - 1]);
    forall k | k in uses && k !in keys
      ensures LastUse(uses, k) < LastUse(uses, m[max - 1])
    {
      var i :| 0 <= i < |m| && m[i] == k;
      NotInFront(m, max, i);
    }
  }

  lemma NotInFront(m: seq<nat>, max: nat, i: nat)
    requires max <= |m| && i < |m|
    ensures i < max ==> m[i] in m[..max]
  {
    if i < max {
      assert m[..max][i] == m[i];
    }
  }

  lemma MissKeys(lines: seq<Line>, disk: Disk, max: nat, uses: seq<nat>, key: nat, setDirty: bool, blank: Sector)
    requires Inv(lines, disk, max, uses) && |lines| == max && key !in Keys(lines)
    ensures Keys(Get(lines, disk, key, setDirty, max, blank).0) == [key] + Keys(lines)[..max - 1]
  {
    hide Mru;
    FoundIsKey(lines, key);
  }

  lemma FoundIsKey(lines: seq<Line>, key: nat)
    ensures Find(lines, key) < |lines| ==> key in Keys(lines)
  {
    var i := Find(lines, key);
    if i < |lines| {
      assert Keys(lines)[i] in Keys(lines);
    }
  }

  lemma UsedOnce(uses: seq<nat>, key: nat)
    requires key in uses
    ensures LastUse(uses, key) >= 0
  {
  }

  // ---------------------------------------------------------------------------------------------
  // The cache in front of the disk is a flat disk
  // ---------------------------------------------------------------------------------------------

  /** The front line with its buffer overwritten. */
  function Patch(lines: seq<Line>, data: Sector): seq<Line>
    requires lines != []
  {
    lines[0 := lines[0].(data := data)]
  }

  lemma LogicalCached(lines: seq<Line>, disk: Disk, s: nat, i: nat)
    requires s < |disk| && Distinct(Keys(lines)) && i < |lines| && lines[i].key == s
    ensures Logical(lines, disk, s) == lines[i].data
  {
    var k := Keys(lines);
    var j := Find(lines, s);
    assert j <= i;
    assert k[j] == k[i];
  }

  lemma LogicalUncached(lines: seq<Line>, disk: Disk, s: nat)
    requires s < |disk| && forall i :: 0 <= i < |lines| ==> lines[i].key != s
    ensures Logical(lines, disk, s) == disk[s]
  {
  }

  lemma GetShape(lines: seq<Line>, disk: Disk, key: nat, setDirty: bool, max: nat, blank: Sector, uses: seq<nat>)
    requires Inv(lines, disk, max, uses) && key < |disk|
    ensures var (l, d, c) := Get(lines, disk, key, setDirty, max, blank);
            && l != [] && l[0].key == key && |d| == |disk| && Distinct(Keys(l)) && |l| <= max
            && (setDirty ==> l[0].dirty) && l[0].cnt == c + 1
  {
    GetOrder(lines, disk, key, setDirty, max, blank, uses);
    MruDistinct(uses + [key]);
  }

  /** A get leaves every other sector as it was, and a hit also the one it gets. */
  lemma GetKeeps(lines: seq<Line>, disk: Disk, key: nat, setDirty: bool, max: nat, blank: Sector, uses: seq<nat>, s: nat)
    requires Inv(lines, disk, max, uses) && key < |disk| && s < |disk|
    ensures var (l, d, c) := Get(lines, disk, key, setDirty, max, blank);
            && |d| == |disk|
            && (s != key ==> Logical(l, d, s) == Logical(lines, disk, s))
            && (c > 0 ==> l[0].data == Logical(lines, disk, key))
            && (c == 0 ==> d[key] == Logical(lines, disk, key))
  {
    hide Mru;
    GetShape(lines, disk, key, setDirty, max, blank, uses);
    var (l, d, c) := Get(lines, disk, key, setDirty, max, blank);
    if s != key {
      WhereGoes(lines, disk, key, setDirty, max, blank, s);
      hide Get, Find;
      var j := Find(lines, s);
      if k :| 0 <= k < |l| && l[k].key == s {
        LogicalCached(l, d, s, k);
      } else {
        LogicalUncached(l, d, s);
      }
    }
  }

  /** After a get, another sector's line is still there, or has been written back. */
  lemma WhereGoes(lines: seq<Line>, disk: Disk, key: nat, setDirty: bool, max: nat, blank: Sector, s: nat)
    requires max > 0 && |lines| <= max && Distinct(Keys(lines)) && s < |disk| && s != key
    requires forall i :: 0 <= i < |lines| ==> lines[i].key < |disk|
    requires forall i :: 0 <= i < |lines| ==> !lines[i].dirty ==> lines[i].data == disk[lines[i].key]
    ensures var (l, d, c) := Get(lines, disk, key, setDirty, max, blank);
            && |d| == |disk|
            && (forall k :: 0 <= k < |l| && l[k].key == s ==> l[k].data == Logical(lines, disk, s))
            && ((forall k :: 0 <= k < |l| ==> l[k].key != s) ==> d[s] == Logical(lines, disk, s))
  {
    hide Find;
    var (l, d, c) := Get(lines, disk, key, setDirty, max, blank);
    var i, j := Find(lines, key), Find(lines, s);
    forall k | 0 <= k < |l| && l[k].key == s
      ensures l[k].data == Logical(lines, disk, s)
    {
      var k' := if i < |lines| && k > i then k else k - 1;
      assert l[k] == lines[k'];
      LogicalCached(lines, disk, s, k');
    }
    var w := if i < |lines| && j > i then j else j + 1;
    assert j < |lines| && w < |l| ==> l[w] == lines[j];
    assert forall k :: 0 <= k < |lines| && k != j ==> Keys(lines)[k] != s;
  }

  /**
   The invariant after a get once the caller has put `data` in the buffer, which it may only do
   freely if the line is dirty.
  */
  lemma AccessInv(lines: seq<Line>, disk: Disk, key: nat, setDirty: bool, max: nat, blank: Sector, uses: seq<nat>,
                  data: Sector)
    requires Inv(lines, disk, max, uses) && key < |disk|
    requires var (l, d, c) := Get(lines, disk, key, setDirty, max, blank);
             l != [] && |d| == |disk| && (l[0].dirty || data == d[key])
    ensures var (l, d, c) := Get(lines, disk, key, setDirty, max, blank);
            Inv(Patch(l, data), d, max, uses + [key])
  {
    hide Mru;
    GetOrder(lines, disk, key, setDirty, max, blank, uses);
    GetShape(lines, disk, key, setDirty, max, blank, uses);
    var (l, d, c) := Get(lines, disk, key, setDirty, max, blank);
    var p := Patch(l, data);
    assert Keys(p) == Keys(l);
    forall i | 0 <= i < |p|
      ensures p[i].key < |d| && p[i].cnt > 0 && (!p[i].dirty ==> p[i].data == d[p[i].key])
    {
      if i > 0 {
        LineFrom(lines, disk, key, setDirty, max, blank, i);
      }
    }
  }

  /** Every line but the front one was there before, and its sector on disk did not change. */
  lemma LineFrom(lines: seq<Line>, disk: Disk, key: nat, setDirty: bool, max: nat, blank: Sector, i: nat)
    requires max > 0 && forall j :: 0 <= j < |lines| ==> lines[j].key < |disk|
    requires Distinct(Keys(lines)) && |lines| <= max
    requires 0 < i < |Get(lines, disk, key, setDirty, max, blank).0|
    ensures var (l, d, c) := Get(lines, disk, key, setDirty, max, blank);
            l[i] in lines && l[i].key < |d| == |disk| && d[l[i].key] == disk[l[i].key]
  {
    var (l, d, c) := Get(lines, disk, key, setDirty, max, blank);
    var h := Find(lines, key);
    if h < |lines| {
      assert l[i] == lines[if i <= h then i - 1 else i];
    } else {
      assert l[i] == lines[i - 1];
      if |lines| == max {
        assert Keys(lines)[i - 1] != Keys(lines)[max - 1];
      }
    }
  }

  /** Overwriting the buffer of the front line changes that sector only. */
  lemma PatchLogical(lines: seq<Line>, disk: Disk, data: Sector, s: nat)
    requires lines != [] && Distinct(Keys(lines)) && s < |disk| && lines[0].key < |disk|
    ensures Logical(Patch(lines, data), disk, s) == if s == lines[0].key then data else Logical(lines, disk, s)
  {
    var p := Patch(lines, data);
    assert Keys(p) == Keys(lines);
    if s == lines[0].key {
      LogicalCached(p, disk, s, 0);
    } else {
      var j := Find(lines, s);
      if j < |lines| {
        LogicalCached(p, disk, s, j);
      } else {
        LogicalUncached(p, disk, s);
      }
    }
  }

  /** The lines after SataDev has fetched a sector for reading. */
  function ReadAccess(lines: seq<Line>, disk: Disk, key: nat, max: nat, blank: Sector): (seq<Line>, Disk)
    requires max > 0 && key < |disk| && forall i :: 0 <= i < |lines| ==> lines[i].key < |disk|
  {
    var (l, d, c) := Get(lines, disk, key, false, max, blank);
    (if c == 0 then Patch(l, d[key]) else l, d)
  }

  /** The lines after SataDev has put `bytes` at `off` in a sector. */
  function WriteAccess(lines: seq<Line>, disk: Disk, key: nat, max: nat, blank: Sector, off: nat, bytes: seq<byte>): (seq<Line>, Disk)
    requires max > 0 && key < |disk| && forall i :: 0 <= i < |lines| ==> lines[i].key < |disk|
    requires off + |bytes| <= SECTOR_SIZE
  {
    var (l, d, c) := Get(lines, disk, key, true, max, blank);
    var base := if c == 0 && |bytes| < SECTOR_SIZE then d[key] else l[0].data;
    (Patch(l, Splice(base, off, bytes)), d)
  }

  function Splice(base: Sector, off: nat, bytes: seq<byte>): Sector
    requires off + |bytes| <= SECTOR_SIZE
  {
    base[..off] + bytes + base[off + |bytes|..]
  }

  /** Reading changes no sector, and finds the sector's logical contents in the front line. */
  lemma ReadIsFlat(lines: seq<Line>, disk: Disk, key: nat, max: nat, blank: Sector, uses: seq<nat>)
    requires Inv(lines, disk, max, uses) && key < |disk|
    ensures var (l, d) := ReadAccess(lines, disk, key, max, blank);
            && |d| == |disk| && l != [] && l[0].key == key && l[0].data == Logical(lines, disk, key)
            && Inv(l, d, max, uses + [key])
            && forall s :: 0 <= s < |disk| ==> Logical(l, d, s) == Logical(lines, disk, s)
  {
    hide Inv, Get, Logical;
    InvKeys(lines, disk, max, uses);
    var (l0, d, c) := Get(lines, disk, key, false, max, blank);
    GetShape(lines, disk, key, false, max, blank, uses);
    GetKeeps(lines, disk, key, false, max, blank, uses, key);
    CleanHit(lines, disk, key, max, blank, uses);
    var data := if c == 0 then d[key] else l0[0].data;
    AccessInv(lines, disk, key, false, max, blank, uses, data);
    assert Patch(l0, l0[0].data) == l0;
    forall s | 0 <= s < |disk|
      ensures Logical(Patch(l0, data), d, s) == Logical(lines, disk, s)
    {
      GetKeeps(lines, disk, key, false, max, blank, uses, s);
      PatchLogical(l0, d, data, s);
    }
  }

  lemma InvKeys(lines: seq<Line>, disk: Disk, max: nat, uses: seq<nat>)
    requires Inv(lines, disk, max, uses)
    ensures max > 0 && forall i :: 0 <= i < |lines| ==> lines[i].key < |disk|
  {
  }

  /** A line that a read hits is dirty or agrees with the disk. */
  lemma CleanHit(lines: seq<Line>, disk: Disk, key: nat, max: nat, blank: Sector, uses: seq<nat>)
    requires Inv(lines, disk, max, uses) && key < |disk|
    ensures var (l, d, c) := Get(lines, disk, key, false, max, blank);
            l != [] && |d| == |disk| && (c > 0 ==> l[0].dirty || l[0].data == d[key])
  {
  }

  /** Writing puts the bytes in their sector and changes no other. */
  lemma WriteIsFlat(lines: seq<Line>, disk: Disk, key: nat, max: nat, blank: Sector, uses: seq<nat>, off: nat, bytes: seq<byte>)
    requires Inv(lines, disk, max, uses) && key < |disk| && off + |bytes| <= SECTOR_SIZE
    ensures var (l, d) := WriteAccess(lines, disk, key, max, blank, off, bytes);
            && |d| == |disk| && Inv(l, d, max, uses + [key])
            && forall s :: 0 <= s < |disk| ==>
                 Logical(l, d, s) ==
                 if s == key then Splice(Logical(lines, disk, key), off, bytes) else Logical(lines, disk, s)
  {
    hide Inv, Get, Logical;
    InvKeys(lines, disk, max, uses);
    var (l0, d, c) := Get(lines, disk, key, true, max, blank);
    GetShape(lines, disk, key, true, max, blank, uses);
    GetKeeps(lines, disk, key, true, max, blank, uses, key);
    var base := if c == 0 && |bytes| < SECTOR_SIZE then d[key] else l0[0].data;
    AccessInv(lines, disk, key, true, max, blank, uses, Splice(base, off, bytes));
    forall s | 0 <= s < |disk|
      ensures Logical(Patch(l0, Splice(base, off, bytes)), d, s) ==
              if s == key then Splice(Logical(lines, disk, key), off, bytes) else Logical(lines, disk, s)
    {
      GetKeeps(lines, disk, key, true, max, blank, uses, s);
      PatchLogical(l0, d, Splice(base, off, bytes), s);
    }
  }

  // ---------------------------------------------------------------------------------------------
  // Runs
  // ---------------------------------------------------------------------------------------------

  /** One trip through the loop of read or write; `blank` is what the buffer of a new entry holds. */
  datatype Op = ReadOp(key: nat, blank: Sector) | WriteOp(key: nat, blank: Sector, off: nat, bytes: seq<byte>)

  ghost predicate OpOk(op: Op, sectors: nat) {
    op.key < sectors && (op.WriteOp? ==> op.off + |op.bytes| <= SECTOR_SIZE)
  }

  ghost predicate OpsOk(ops: seq<Op>, sectors: nat) {
    forall i :: 0 <= i < |ops| ==> OpOk(ops[i], sectors)
  }

  ghost function Step(lines: seq<Line>, disk: Disk, max: nat, op: Op): (seq<Line>, Disk)
    requires max > 0 && OpOk(op, |disk|) && forall i :: 0 <= i < |lines| ==> lines[i].key < |disk|
  {
    match op
    case ReadOp(key, blank) => ReadAccess(lines, disk, key, max, blank)
    case WriteOp(key, blank, off, bytes) => WriteAccess(lines, disk, key, max, blank, off, bytes)
  }

  /** The same on a disk without a cache. */
  ghost function FlatStep(flat: Disk, op: Op): Disk
    requires OpOk(op, |flat|)
  {
    match op
    case ReadOp(_, _) => flat
    case WriteOp(key, _, off, bytes) => flat[key := Splice(flat[key], off, bytes)]
  }

  ghost function Flat(lines: seq<Line>, disk: Disk): (r: Disk)
    ensures |r| == |disk| && forall s :: 0 <= s < |disk| ==> r[s] == Logical(lines, disk, s)
  {
    seq(|disk|, s requires 0 <= s < |disk| => Logical(lines, disk, s))
  }

  /** The sectors that the reads of a run deliver: from the cache, and from the flat disk. */
  ghost function Delivered(lines: seq<Line>, disk: Disk, max: nat, uses: seq<nat>, ops: seq<Op>): seq<Sector>
    requires Inv(lines, disk, max, uses) && OpsOk(ops, |disk|)
    decreases |ops|
  {
    if ops == [] then []
    else
      InvKeys(lines, disk, max, uses);
      StepKeeps(lines, disk, max, uses, ops[0]);
      var (l, d) := Step(lines, disk, max, ops[0]);
      (if ops[0].ReadOp? then [l[0].data] else []) + Delivered(l, d, max, uses + [ops[0].key], ops[1..])
  }

  ghost function FlatDelivered(flat: Disk, ops: seq<Op>): seq<Sector>
    requires OpsOk(ops, |flat|)
    decreases |ops|
  {
    if ops == [] then []
    else (if ops[0].ReadOp? then [flat[ops[0].key]] else []) + FlatDelivered(FlatStep(flat, ops[0]), ops[1..])
  }

  lemma StepKeeps(lines: seq<Line>, disk: Disk, max: nat, uses: seq<nat>, op: Op)
    requires Inv(lines, disk, max, uses) && OpOk(op, |disk|)
    ensures max > 0 && forall i :: 0 <= i < |lines| ==> lines[i].key < |disk|
    ensures var (l, d) := Step(lines, disk, max, op);
            && |d| == |disk| && Inv(l, d, max, uses + [op.key]) && Flat(l, d) == FlatStep(Flat(lines, disk), op)
            && (op.ReadOp? ==> l != [] && l[0].data == Flat(lines, disk)[op.key])
  {
    hide Inv, ReadAccess, WriteAccess, Logical, Splice;
    InvKeys(lines, disk, max, uses);
    match op
    case ReadOp(key, blank) => ReadIsFlat(lines, disk, key, max, blank, uses);
    case WriteOp(key, blank, off, bytes) => WriteIsFlat(lines, disk, key, max, blank, uses, off, bytes);
  }

  /** Any run of reads and writes delivers what a flat disk would. */
  lemma {:induction false} RunIsFlat(lines: seq<Line>, disk: Disk, max: nat, uses: seq<nat>, ops: seq<Op>)
    requires Inv(lines, disk, max, uses) && OpsOk(ops, |disk|)
    ensures Delivered(lines, disk, max, uses, ops) == FlatDelivered(Flat(lines, disk), ops)
    decreases |ops|
  {
    hide Inv, Step, FlatStep, OpOk, Flat;
    if ops != [] {
      StepKeeps(lines, disk, max, uses, ops[0]);
      var (l, d) := Step(lines, disk, max, ops[0]);
      RunIsFlat(l, d, max, uses + [ops[0].key], ops[1..]);
    }
  }

  // ---------------------------------------------------------------------------------------------
  // SataDev::write as it is coded
  // ---------------------------------------------------------------------------------------------

  /** The code copies from the cache to the caller, so the buffer stays what fetching left in it. */
  function CodedWriteAccess(lines: seq<Line>, disk: Disk, key: nat, max: nat, blank: Sector, n: nat): (seq<Line>, Disk)
    requires max > 0 && key < |disk| && forall i :: 0 <= i < |lines| ==> lines[i].key < |disk|
  {
    var (l, d, c) := Get(lines, disk, key, true, max, blank);
    (if c == 0 && n < SECTOR_SIZE then Patch(l, d[key]) else l, d)
  }

  /** What the sector of the front line holds before the copy, on a miss without a read. */
  function Stale(lines: seq<Line>, max: nat, blank: Sector): Sector {
    if |lines| < max || lines == [] then blank else lines[|lines| - 1].data
  }

  /** As coded, a round that does not cover its sector is a read: no sector changes. */
  lemma CodedPartialIsRead(lines: seq<Line>, disk: Disk, key: nat, max: nat, blank: Sector, uses: seq<nat>, n: nat)
    requires Inv(lines, disk, max, uses) && key < |disk|
    ensures var (l, d) := CodedWriteAccess(lines, disk, key, max, blank, n);
            && |d| == |disk| && l != [] && l[0].key == key && Inv(l, d, max, uses + [key])
            && l[0].data == Logical(l, d, key)
            && (n < SECTOR_SIZE || Find(lines, key) < |lines| ==>
                  l[0].data == Logical(lines, disk, key)
                  && forall s :: 0 <= s < |disk| ==> Logical(l, d, s) == Logical(lines, disk, s))
            && forall s :: 0 <= s < |disk| && s != key ==> Logical(l, d, s) == Logical(lines, disk, s)
  {
    hide Inv, Logical, Get;
    InvKeys(lines, disk, max, uses);
    CountIsHit(lines, disk, key, max, blank, uses);
    var (l0, d, c) := Get(lines, disk, key, true, max, blank);
    GetShape(lines, disk, key, true, max, blank, uses);
    GetKeeps(lines, disk, key, true, max, blank, uses, key);
    var data := if c == 0 && n < SECTOR_SIZE then d[key] else l0[0].data;
    AccessInv(lines, disk, key, true, max, blank, uses, data);
    assert Patch(l0, l0[0].data) == l0;
    FrontLogical(Patch(l0, data), d);
    forall s | 0 <= s < |disk|
      ensures n < SECTOR_SIZE || Find(lines, key) < |lines| || s != key ==>
                Logical(Patch(l0, data), d, s) == Logical(lines, disk, s)
    {
      GetKeeps(lines, disk, key, true, max, blank, uses, s);
      PatchLogical(l0, d, data, s);
    }
  }

  lemma FrontLogical(lines: seq<Line>, disk: Disk)
    requires lines != [] && lines[0].key < |disk|
    ensures Logical(lines, disk, lines[0].key) == lines[0].data
  {
  }

  lemma CountIsHit(lines: seq<Line>, disk: Disk, key: nat, max: nat, blank: Sector, uses: seq<nat>)
    requires Inv(lines, disk, max, uses) && key < |disk|
    ensures Get(lines, disk, key, true, max, blank).2 == 0 <==> Find(lines, key) == |lines|
  {
  }

  /**
   As coded, a write stores the bytes exactly when they are there already: in the sector itself,
   or, for a whole sector that is not cached, in the recycled buffer.
  */
  lemma CodedWriteIsFlat(lines: seq<Line>, disk: Disk, key: nat, max: nat, blank: Sector, uses: seq<nat>, off: nat, bytes: seq<byte>)
    requires Inv(lines, disk, max, uses) && key < |disk| && off + |bytes| <= SECTOR_SIZE
    ensures var (l, d) := CodedWriteAccess(lines, disk, key, max, blank, |bytes|);
            |d| == |disk| &&
            (Logical(l, d, key) == Splice(Logical(lines, disk, key), off, bytes) <==>
             bytes == if Find(lines, key) == |lines| && |bytes| == SECTOR_SIZE then Stale(lines, max, blank)
                      else Logical(lines, disk, key)[off..off + |bytes|])
  {
    hide Mru;
    GetShape(lines, disk, key, true, max, blank, uses);
    GetKeeps(lines, disk, key, true, max, blank, uses, key);
    var (l0, d, c) := Get(lines, disk, key, true, max, blank);
    var old_ := Logical(lines, disk, key);
    var now := if c == 0 && |bytes| < SECTOR_SIZE then d[key] else l0[0].data;
    assert Patch(l0, l0[0].data) == l0;
    PatchLogical(l0, d, now, key);
    SpliceSame(old_, off, bytes);
    assert c == 0 <==> Find(lines, key) == |lines|;
  }

  lemma SpliceSame(base: Sector, off: nat, bytes: seq<byte>)
    requires off + |bytes| <= SECTOR_SIZE
    ensures Splice(base, off, bytes) == base <==> bytes == base[off..off + |bytes|]
    ensures |bytes| == SECTOR_SIZE ==> Splice(base, off, bytes) == bytes
  {
    var s := Splice(base, off, bytes);
    assert s[off..off + |bytes|] == bytes;
    if bytes == base[off..off + |bytes|] {
      assert s == base;
    }
  }

  /** Nothing cached, sector 0 all zero: writing a single 1 is lost. */
  lemma CodedWriteExample()
    ensures var zero: Sector := seq(SECTOR_SIZE, _ => 0);
            var (l, d) := CodedWriteAccess([], [zero], 0, 10, zero, 1);
            Inv([], [zero], 10, []) && Logical(l, d, 0) == zero && Splice(zero, 0, [1]) != zero
  {
    var zero: Sector := seq(SECTOR_SIZE, _ => 0);
    assert Mru([]) == [] && Keys([]) == [];
    assert Splice(zero, 0, [1])[0] == 1;
  }

  // ---------------------------------------------------------------------------------------------
  // A whole write as coded: one round for each sector
  // ---------------------------------------------------------------------------------------------

  /** How many bytes of sector `s` are in the range. */
  function Overlap(pos: nat, size: nat, s: nat): nat {
    var from := if pos < s * SECTOR_SIZE then s * SECTOR_SIZE else pos;
    var to := if pos + size < (s + 1) * SECTOR_SIZE then pos + size else (s + 1) * SECTOR_SIZE;
    if from < to then to - from else 0
  }

  /** `k` sectors from `first` on. */
  function Sectors(first: nat, k: nat): seq<nat> {
    if k == 0 then [] else Sectors(first, k - 1) + [first + (k - 1)]
  }

  predicate CanAccess(lines: seq<Line>, disk: Disk, key: nat, max: nat) {
    max > 0 && key < |disk| && forall i :: 0 <= i < |lines| ==> lines[i].key < |disk|
  }

  /** Cache and disk after one round for each of `blanks`, the new buffers that the rounds may get. */
  function AfterRounds(lines: seq<Line>, disk: Disk, max: nat, first: nat, pos: nat, size: nat, blanks: seq<Sector>): (seq<Line>, Disk)
    decreases |blanks|
  {
    if blanks == [] then (lines, disk)
    else
      var k := |blanks| - 1;
      var r := AfterRounds(lines, disk, max, first, pos, size, blanks[..k]);
      if CanAccess(r.0, r.1, first + k, max)
      then CodedWriteAccess(r.0, r.1, first + k, max, blanks[k], Overlap(pos, size, first + k))
      else r
  }

  /** Every round finds the cache in order. */
  lemma {:induction false} RoundsInv(lines: seq<Line>, disk: Disk, max: nat, uses: seq<nat>, first: nat, pos: nat, size: nat,
                                     blanks: seq<Sector>)
    requires Inv(lines, disk, max, uses) && first + |blanks| <= |disk|
    ensures var (l, d) := AfterRounds(lines, disk, max, first, pos, size, blanks);
            |d| == |disk| && Inv(l, d, max, uses + Sectors(first, |blanks|))
    ensures var (l, d) := AfterRounds(lines, disk, max, first, pos, size, blanks);
            first + |blanks| < |disk| ==> CanAccess(l, d, first + |blanks|, max)
    decreases |blanks|
  {
    hide Inv, CodedWriteAccess, Overlap, Sectors;
    NoSectors(uses, first);
    if blanks != [] {
      var k := |blanks| - 1;
      RoundsInv(lines, disk, max, uses, first, pos, size, blanks[..k]);
      var (l, d) := AfterRounds(lines, disk, max, first, pos, size, blanks[..k]);
      CodedPartialIsRead(l, d, first + k, max, blanks[k], uses + Sectors(first, k), Overlap(pos, size, first + k));
      SectorsNext(uses, first, k);
    }
    var (l, d) := AfterRounds(lines, disk, max, first, pos, size, blanks);
    InvKeys(l, d, max, uses + Sectors(first, |blanks|));
  }

  lemma NoSectors(uses: seq<nat>, first: nat)
    ensures uses + Sectors(first, 0) == uses
  {
  }

  lemma SectorsNext(uses: seq<nat>, first: nat, k: nat)
    ensures uses + Sectors(first, k) + [first + k] == uses + Sectors(first, k + 1)
  {
  }

  lemma AfterRoundsStep(lines: seq<Line>, disk: Disk, max: nat, uses: seq<nat>, first: nat, pos: nat, size: nat,
                        blanks: seq<Sector>, blank: Sector)
    requires Inv(lines, disk, max, uses) && first + |blanks| < |disk|
    ensures var (l, d) := AfterRounds(lines, disk, max, first, pos, size, blanks);
            && CanAccess(l, d, first + |blanks|, max)
            && AfterRounds(lines, disk, max, first, pos, size, blanks + [blank])
            == CodedWriteAccess(l, d, first + |blanks|, max, blank, Overlap(pos, size, first + |blanks|))
  {
    hide Inv, CodedWriteAccess, Overlap;
    RoundsInv(lines, disk, max, uses, first, pos, size, blanks);
    assert (blanks + [blank])[..|blanks|] == blanks;
  }

  /** Sectors before and behind the rounds keep their contents. */
  lemma {:induction false} RoundsKeep(lines: seq<Line>, disk: Disk, max: nat, uses: seq<nat>, first: nat, pos: nat, size: nat,
                                      blanks: seq<Sector>, s: nat)
    requires Inv(lines, disk, max, uses) && first + |blanks| <= |disk| && s < |disk|
    requires s < first || s >= first + |blanks|
    ensures var (l, d) := AfterRounds(lines, disk, max, first, pos, size, blanks);
            |d| == |disk| && Logical(l, d, s) == Logical(lines, disk, s)
    decreases |blanks|
  {
    hide Inv, Logical, CodedWriteAccess, Overlap;
    if blanks != [] {
      var k := |blanks| - 1;
      RoundsKeep(lines, disk, max, uses, first, pos, size, blanks[..k], s);
      RoundsInv(lines, disk, max, uses, first, pos, size, blanks[..k]);
      var (l, d) := AfterRounds(lines, disk, max, first, pos, size, blanks[..k]);
      CodedPartialIsRead(l, d, first + k, max, blanks[k], uses + Sectors(first, k), Overlap(pos, size, first + k));
    }
  }

  /** What a round leaves in its sector: what was there, or for a whole sector that is not cached the recycled buffer. */
  lemma RoundHolds(lines: seq<Line>, disk: Disk, key: nat, max: nat, blank: Sector, uses: seq<nat>, n: nat)
    requires Inv(lines, disk, max, uses) && key < |disk|
    ensures max > 0 && forall i :: 0 <= i < |lines| ==> lines[i].key < |disk|
    ensures var (l, d) := CodedWriteAccess(lines, disk, key, max, blank, n);
            |d| == |disk| &&
            Logical(l, d, key) == if n >= SECTOR_SIZE && Find(lines, key) == |lines| then Stale(lines, max, blank)
                                  else Logical(lines, disk, key)
  {
    hide Mru;
    GetShape(lines, disk, key, true, max, blank, uses);
    GetKeeps(lines, disk, key, true, max, blank, uses, key);
    CountIsHit(lines, disk, key, max, blank, uses);
    var (l0, d, c) := Get(lines, disk, key, true, max, blank);
    var now := if c == 0 && n < SECTOR_SIZE then d[key] else l0[0].data;
    assert Patch(l0, l0[0].data) == l0;
    PatchLogical(l0, d, now, key);
  }

  /**
   What the write leaves in its k-th sector: what was there before the write, or, if it covers the sector as
   a whole and the sector is not cached when its round comes, what the buffer held that the round gets.
  */
  lemma {:induction false} SectorHolds(lines: seq<Line>, disk: Disk, max: nat, uses: seq<nat>, first: nat, pos: nat, size: nat,
                                       blanks: seq<Sector>, k: nat)
    requires Inv(lines, disk, max, uses) && k < |blanks| && first + |blanks| <= |disk|
    ensures var s := first + k;
            var (l, d) := AfterRounds(lines, disk, max, first, pos, size, blanks);
            var l0 := AfterRounds(lines, disk, max, first, pos, size, blanks[..k]).0;
            |d| == |disk| &&
            Logical(l, d, s) == if Overlap(pos, size, s) >= SECTOR_SIZE && Find(l0, s) == |l0| then Stale(l0, max, blanks[k])
                                else Logical(lines, disk, s)
    decreases |blanks|
  {
    hide Inv, Logical, CodedWriteAccess, Find, Stale, Overlap;
    var last := |blanks| - 1;
    var s, t := first + k, first + last;
    var front := blanks[..last];
    RoundsInv(lines, disk, max, uses, first, pos, size, front);
    var (l, d) := AfterRounds(lines, disk, max, first, pos, size, front);
    if k < last {
      SectorHolds(lines, disk, max, uses, first, pos, size, front, k);
      assert front[..k] == blanks[..k];
      CodedPartialIsRead(l, d, t, max, blanks[last], uses + Sectors(first, last), Overlap(pos, size, t));
    } else {
      RoundHolds(l, d, t, max, blanks[last], uses + Sectors(first, last), Overlap(pos, size, t));
      RoundsKeep(lines, disk, max, uses, first, pos, size, front, s);
    }
  }
}
