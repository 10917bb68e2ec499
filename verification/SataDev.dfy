/**
 `LRU::get` and `SataDev::read`/`write` (kernel/libc++/include/lru.hpp, kernel/dev/sata_dev.cpp)
 over the pointer list and the cached buffers.  Each access is proved to be the access of LruModel
 on the lines that the list holds, and the device to be a flat disk.
*/
module SataDev {
  import opened Bytes
  import opened DistinctSeq
  import opened LruModel
  import CircularList

  /** _Wrapper: `data` is the kmalloc'ed buffer of one sector. */
  datatype Entry = Entry(key: nat, data: array<byte>, cnt: nat, dirty: bool)

  type Node = CircularList.Node<Entry>

  class Device {
    const pool: CircularList.List<Entry>
    const maxSize: nat
    var disk: Disk
    // The buffers and the lines of the pool, front first, and the sectors in the order of use.
    ghost var bufs: seq<array<byte>>
    ghost var lines: seq<Line>
    ghost var uses: seq<nat>
    // The device, its list, the nodes and the buffers.
    ghost var repr: set<object>

    /** Node `n` holds line `l` in buffer `b`. */
    ghost predicate Holds(n: Node, b: array<byte>, l: Line)
      reads n, b
    {
      && n.data == Entry(l.key, b, l.cnt, l.dirty)
      && b.Length == SECTOR_SIZE && b[..] == l.data
    }

    /** The list is well formed and every entry has a sector buffer of its own. */
    ghost predicate Shape()
      reads `bufs, `lines, `repr, pool, pool.head, pool.nodes, bufs
    {
      && pool.Valid()
      && |pool.nodes| == |bufs| == |lines|
      && this in repr && pool in repr && pool.head in repr
      && (forall i :: 0 <= i < |bufs| ==> pool.nodes[i] in repr && bufs[i] in repr)
      && Distinct(bufs)
      && (forall i :: 0 <= i < |bufs| ==> Holds(pool.nodes[i], bufs[i], lines[i]))
    }

    ghost predicate Valid()
      reads this, pool, pool.head, pool.nodes, bufs
    {
      Shape() && Inv(lines, disk, maxSize, uses)
    }

    constructor (disk: Disk, blank: array<byte>)
      ensures Valid() && this.disk == disk && maxSize == 10 && uses == []
      ensures fresh(repr)
    {
      pool := new CircularList.List(Entry(0, blank, 0, false));
      maxSize := 10;
      this.disk := disk;
      uses, bufs, lines := [], [], [];
      repr := {};
      new;
      repr := {this, pool, pool.head};
      assert Mru([]) == [];
      assert Keys([]) == [];
    }

    /** The linear search of LRU::get; `head` stands for not found. */
    method Search(key: nat) returns (it: Node, ghost i: nat)
      requires Shape()
      ensures i == Find(lines, key)
      ensures it == if i < |lines| then pool.nodes[i] else pool.head
      ensures it == pool.head <==> i == |lines|
    {
      ghost var ring := [pool.head] + pool.nodes;
      i := 0;
      CircularList.RingAt(ring, 0);
      it := pool.head.next;
      while it != pool.head
        invariant 0 <= i <= |lines| && it == (if i < |lines| then pool.nodes[i] else pool.head)
        invariant forall j :: 0 <= j < i ==> lines[j].key != key
        decreases |lines| - i
      {
        assert ring[i + 1] == it;
        assert Holds(pool.nodes[i], bufs[i], lines[i]);
        if it.data.key == key {
          break;
        }
        CircularList.RingAt(ring, i + 1);
        it := it.next;
        i := i + 1;
      }
      if i < |lines| {
        assert ring[i + 1] == it && ring[0] == pool.head;
        assert Holds(pool.nodes[i], bufs[i], lines[i]);
      }
      FindIs(lines, key, i);
    }

    /** The i-th entry moves to the front, with what it holds. */
    method ToFront(it: Node, ghost i: nat)
      requires Shape() && i < |lines| && pool.nodes[i] == it
      modifies this`bufs, this`lines, pool`nodes, pool.head, pool.nodes
      ensures Shape() && lines != [] && pool.nodes[0] == it && bufs[0] == old(bufs)[i]
      ensures lines == CircularList.Fronted(old(lines), i)
    {
      hide CircularList.Ring, CircularList.Fronted;
      FrontedDistinct(bufs, i);
      CircularList.FrontedAt(pool.nodes, i, 0);
      CircularList.FrontedAt(bufs, i, 0);
      CircularList.FrontedAt(lines, i, 0);
      pool.MoveToFront(it, i);
      bufs := CircularList.Fronted(bufs, i);
      lines := CircularList.Fronted(lines, i);
      forall k | 0 <= k < |bufs|
        ensures Holds(pool.nodes[k], bufs[k], lines[k]) && pool.nodes[k] in repr && bufs[k] in repr
      {
        ghost var k' := CircularList.Origin(i, k);
        CircularList.FrontedAt(old(pool.nodes), i, k);
        CircularList.FrontedAt(old(bufs), i, k);
        CircularList.FrontedAt(old(lines), i, k);
        assert old(Holds(pool.nodes[k'], bufs[k'], lines[k']));
        assert pool.nodes[k] in old(pool.nodes);
      }
    }

    /** A key that is not cached while there is room: a new entry at the front. */
    method PushNew(key: nat, setDirty: bool) returns (data: array<byte>, ghost blank: Sector)
      requires Shape()
      modifies this`bufs, this`lines, this`repr, pool, pool.head, pool.nodes
      ensures Shape() && lines == [Line(key, blank, 1, setDirty)] + old(lines)
      ensures data == bufs[0] && fresh(repr - old(repr))
    {
      hide CircularList.Ring, CircularList.List.Valid, Distinct;
      data := new byte[SECTOR_SIZE];
      blank := data[..];
      pool.PushFront(Entry(key, data, 1, setDirty));
      forall j | 0 <= j < |bufs|
        ensures Holds(old(pool.nodes)[j], bufs[j], lines[j]) && old(pool.nodes)[j] in repr && bufs[j] in repr
      {
        assert old(Holds(pool.nodes[j], bufs[j], lines[j]));
      }
      assert Holds(pool.nodes[0], data, Line(key, blank, 1, setDirty));
      ConsDistinct(data, bufs);
      Enter(key, blank, setDirty, data, old(pool.nodes));
    }

    /** The new entry, which the list has already, joins the ghost fields. */
    ghost method Enter(key: nat, blank: Sector, setDirty: bool, data: array<byte>, rest: seq<Node>)
      requires pool.Valid() && pool.nodes != [] && pool.nodes[1..] == rest && |rest| == |bufs| == |lines|
      requires this in repr && pool in repr && pool.head in repr && Distinct([data] + bufs)
      requires forall j :: 0 <= j < |bufs| ==> Holds(rest[j], bufs[j], lines[j]) && rest[j] in repr && bufs[j] in repr
      requires Holds(pool.nodes[0], data, Line(key, blank, 1, setDirty))
      modifies this`bufs, this`lines, this`repr
      ensures Shape() && lines == [Line(key, blank, 1, setDirty)] + old(lines) && bufs == [data] + old(bufs)
      ensures repr == old(repr) + {data, pool.nodes[0]}
    {
      hide CircularList.Ring, CircularList.List.Valid, Distinct;
      ghost var n, b, l := pool.nodes, [data] + bufs, [Line(key, blank, 1, setDirty)] + lines;
      repr := repr + {data, n[0]};
      forall k | 0 < k < |b|
        ensures Holds(n[k], b[k], l[k]) && n[k] in repr && b[k] in repr
      {
        ghost var j := k - 1;
        assert n[k] == n[1..][j] == rest[j];
      }
      bufs, lines := b, l;
    }

    /** Overwrite the bookkeeping of the i-th entry. */
    method SetEntry(it: Node, key: nat, cnt: nat, dirty: bool, ghost i: nat)
      requires Shape() && i < |lines| && pool.nodes[i] == it
      modifies this`lines, it`data
      ensures Shape() && lines == old(lines)[i := Line(key, old(lines)[i].data, cnt, dirty)]
      ensures it.data.data == bufs[i]
    {
      assert Holds(it, bufs[i], lines[i]);
      ghost var ring := [pool.head] + pool.nodes;
      assert ring[i + 1] == it;
      it.data := Entry(key, it.data.data, cnt, dirty);
      lines := lines[i := Line(key, lines[i].data, cnt, dirty)];
    }

    /** LRU::get on a cached key: the entry moves to the front and counts one more use. */
    method Hit(it: Node, setDirty: bool, ghost i: nat) returns (data: array<byte>, cnt: nat)
      requires Shape() && i < |lines| && pool.nodes[i] == it
      modifies this`bufs, this`lines, pool`nodes, pool.head, pool.nodes
      ensures Shape() && lines != [] && data == bufs[0] && cnt == old(lines)[i].cnt
      ensures var hit := old(lines)[i];
              lines == [Line(hit.key, hit.data, hit.cnt + 1, hit.dirty || setDirty)] + Drop(old(lines), i)
    {
      hide CircularList.Ring, Distinct;
      ToFront(it, i);
      assert Holds(it, bufs[0], lines[0]);
      var e := it.data;
      SetEntry(it, e.key, e.cnt + 1, e.dirty || setDirty, 0);
      return it.data.data, e.cnt;
    }

    /** LRU::get when the pool is full: the last entry is written back and reused. */
    method Replace(key: nat, setDirty: bool) returns (data: array<byte>)
      requires Shape() && lines != [] && lines[|lines| - 1].key < |disk|
      modifies this`bufs, this`lines, this`disk, pool`nodes, pool.head, pool.nodes
      ensures Shape() && lines != [] && data == bufs[0]
      ensures var last := |old(lines)| - 1; var victim := old(lines)[last];
              && lines == [Line(key, victim.data, 1, setDirty)] + old(lines)[..last]
              && disk == if victim.dirty then old(disk)[victim.key := victim.data] else old(disk)
    {
      hide Shape;
      ghost var last := |lines| - 1;
      SizeIs();
      var end := Last();
      if end.data.dirty {
        disk := disk[end.data.key := end.data.data[..]];
      }
      SetEntry(end, key, 1, setDirty, last);
      ToFront(end, last);
      FrontBuffer();
      data := end.data.data;
      assert Drop(old(lines)[last := lines[0]], last) == old(lines)[..last];
    }

    /** LRU::get.  `blank` is what the buffer of a new entry holds. */
    method Get(key: nat, setDirty: bool) returns (data: array<byte>, cnt: nat, ghost blank: Sector)
      requires Valid() && key < |disk|
      modifies this`bufs, this`lines, this`disk, this`repr, pool, pool.head, pool.nodes
      ensures Shape() && (lines, disk, cnt) == LruModel.Get(old(lines), old(disk), key, setDirty, maxSize, blank)
      ensures lines != [] && data == bufs[0] && fresh(repr - old(repr))
    {
      hide Shape, Find, Mru;
      SizeIs();
      var it, i := Search(key);
      if it != pool.head {
        blank := lines[i].data;
        data, cnt := Hit(it, setDirty, i);
      } else if pool.size < maxSize {
        data, blank := PushNew(key, setDirty);
        cnt := 0;
      } else {
        blank := lines[|lines| - 1].data;
        data := Replace(key, setDirty);
        cnt := 0;
      }
    }

    /** Put a sector's bytes in the front entry's buffer. */
    method FillFront(data: array<byte>, content: Sector)
      requires Shape() && lines != [] && data == bufs[0]
      modifies this`lines, data
      ensures Shape() && lines == Patch(old(lines), content)
    {
      forall i | 0 <= i < SECTOR_SIZE {
        data[i] := content[i];
      }
      assert data[..] == content;
      lines := Patch(lines, content);
    }

    /** One round of SataDev::read up to the copy: the sector is in the front buffer. */
    method FetchForRead(sector: nat) returns (temp: array<byte>)
      requires Valid() && sector < |disk|
      modifies repr
      ensures Valid() && fresh(repr - old(repr)) && |disk| == |old(disk)|
      ensures forall s :: 0 <= s < |disk| ==> Logical(lines, disk, s) == Logical(old(lines), old(disk), s)
      ensures temp in repr && temp.Length == SECTOR_SIZE && temp[..] == Logical(lines, disk, sector)
      ensures uses == old(uses) + [sector]
    {
      hide Shape, Inv, LruModel.Get, Logical, Patch;
      var cnt;
      ghost var blank;
      FreshKeys();
      InRepr();
      temp, cnt, blank := Get(sector, false);
      ReadIsFlat(old(lines), old(disk), sector, maxSize, blank, old(uses));
      GetShape(old(lines), old(disk), sector, false, maxSize, blank, old(uses));
      FrontBuffer();
      if cnt == 0 {
        // sata_read
        FillFront(temp, disk[sector]);
      }
      assert (lines, disk) == ReadAccess(old(lines), old(disk), sector, maxSize, blank);
      FrontBuffer();
      uses := uses + [sector];
    }

    lemma InRepr()
      requires Shape()
      ensures this in repr && pool in repr && pool.head in repr && forall n :: n in pool.nodes ==> n in repr
    {
    }

    lemma FrontBuffer()
      requires Shape() && lines != []
      ensures bufs != [] && bufs[0] in repr && bufs[0].Length == SECTOR_SIZE && bufs[0][..] == lines[0].data
      ensures pool.nodes != [] && pool.nodes[0].data.data == bufs[0]
    {
      assert Holds(pool.nodes[0], bufs[0], lines[0]);
    }

    /** memcpy(temp + off, buf + from, n) */
    method CopyIn(temp: array<byte>, off: nat, buf: array<byte>, from: nat, n: nat)
      requires Shape() && lines != [] && temp == bufs[0]
      requires off + n <= SECTOR_SIZE && from + n <= buf.Length && buf !in repr
      modifies this`lines, temp
      ensures Shape() && lines == Patch(old(lines), Splice(old(lines)[0].data, off, buf[from..from + n]))
    {
      assert Holds(pool.nodes[0], bufs[0], lines[0]);
      ghost var base := temp[..];
      for i := 0 to n
        invariant forall j :: 0 <= j < SECTOR_SIZE ==> temp[j] == if off <= j < off + i then buf[from + (j - off)] else base[j]
        invariant buf[..] == old(buf[..])
        modifies temp
      {
        temp[off + i] := buf[from + i];
      }
      SpliceIs(temp[..], base, off, buf[from..from + n]);
      lines := Patch(lines, Splice(base, off, buf[from..from + n]));
    }

    /** One round of SataDev::write: `n` bytes of `buf` go to `off` in the sector. */
    method StoreBytes(sector: nat, off: nat, buf: array<byte>, from: nat, n: nat)
      requires Valid() && sector < |disk| && off + n <= SECTOR_SIZE
      requires buf !in repr && from + n <= buf.Length
      modifies repr
      ensures Valid() && fresh(repr - old(repr)) && |disk| == |old(disk)|
      ensures forall s :: 0 <= s < |disk| ==>
                Logical(lines, disk, s) ==
                if s == sector then Splice(Logical(old(lines), old(disk), s), off, buf[from..from + n])
                else Logical(old(lines), old(disk), s)
      ensures uses == old(uses) + [sector]
    {
      hide Shape, Inv, LruModel.Get, Logical, Splice;
      ghost var bytes := buf[from..from + n];
      ghost var blank;
      var cnt, temp;
      FreshKeys();
      InRepr();
      temp, cnt, blank := Get(sector, true);
      ghost var l := lines;
      WriteIsFlat(old(lines), old(disk), sector, maxSize, blank, old(uses), off, bytes);
      GetShape(old(lines), old(disk), sector, true, maxSize, blank, old(uses));
      FrontBuffer();
      if cnt == 0 && n < SECTOR_SIZE {
        // the sector is not written as a whole: sata_read
        FillFront(temp, disk[sector]);
      }
      assert buf[from..from + n] == bytes;
      ghost var l1 := lines;
      CopyIn(temp, off, buf, from, n);
      PatchTwice(l, l1[0].data, Splice(l1[0].data, off, bytes));
      assert (lines, disk) == WriteAccess(old(lines), old(disk), sector, maxSize, blank, off, bytes);
      uses := uses + [sector];
    }

    /** SataDev::read: the bytes of the flat disk, which stays as it is. */
    method Read(buf: array<byte>, pos: nat, size: nat) returns (readCnt: nat)
      requires Valid() && buf !in repr && size <= buf.Length
      requires pos + size <= |disk| * SECTOR_SIZE
      modifies repr, buf
      ensures Valid() && fresh(repr - old(repr)) && |disk| == |old(disk)| && readCnt == size
      ensures forall i :: 0 <= i < size ==> buf[i] == FlatByte(old(lines), old(disk), pos + i)
      ensures forall i :: size <= i < buf.Length ==> buf[i] == old(buf[i])
      ensures forall s :: 0 <= s < |disk| ==> Logical(lines, disk, s) == Logical(old(lines), old(disk), s)
    {
      hide Shape, Inv, Logical;
      readCnt := 0;
      var p, left := pos, size;
      InReprNow();
      while left > 0
        invariant p == pos + readCnt && left == size - readCnt && readCnt <= size
        invariant Valid() && fresh(repr - old(repr)) && |disk| == |old(disk)| && buf !in repr
        invariant forall s :: 0 <= s < |disk| ==> Logical(lines, disk, s) == Logical(old(lines), old(disk), s)
        invariant forall i :: 0 <= i < readCnt ==> buf[i] == FlatByte(old(lines), old(disk), pos + i)
        invariant forall i :: readCnt <= i < buf.Length ==> buf[i] == old(buf[i])
      {
        var roundPos := p / SECTOR_SIZE * SECTOR_SIZE;
        var wasted := p - roundPos;
        var sector := roundPos / SECTOR_SIZE;
        SectorBound(p, |disk|);
        var temp := FetchForRead(sector);
        var n := if left < SECTOR_SIZE - wasted then left else SECTOR_SIZE - wasted;
        InReprNow();
        CopyOut(buf, readCnt, temp, wasted, n);
        forall i | readCnt <= i < readCnt + n
          ensures buf[i] == FlatByte(old(lines), old(disk), pos + i)
        {
          SameSector(p, i - readCnt);
        }
        readCnt := readCnt + n;
        p := p + n;
        left := left - n;
      }
    }

    /** SataDev::write: the bytes land in the flat disk, and only there. */
    method Write(buf: array<byte>, pos: nat, size: nat) returns (writeCnt: nat)
      requires Valid() && buf !in repr && size <= buf.Length
      requires pos + size <= |disk| * SECTOR_SIZE
      modifies repr
      ensures Valid() && fresh(repr - old(repr)) && |disk| == |old(disk)| && writeCnt == size
      ensures forall q :: 0 <= q < |disk| * SECTOR_SIZE ==>
                FlatByte(lines, disk, q) ==
                if pos <= q < pos + size then buf[q - pos] else FlatByte(old(lines), old(disk), q)
    {
      hide Shape, Inv, Logical;
      writeCnt := 0;
      var p, left := pos, size;
      ghost var d := |disk|;
      InReprNow();
      while left > 0
        invariant p == pos + writeCnt && left == size - writeCnt && writeCnt <= size
        invariant Valid() && fresh(repr - old(repr)) && |disk| == d == |old(disk)| && buf !in repr
        invariant buf[..] == old(buf[..])
        invariant forall q :: 0 <= q < d * SECTOR_SIZE ==>
                    FlatByte(lines, disk, q) ==
                    if pos <= q < p then buf[q - pos] else FlatByte(old(lines), old(disk), q)
      {
        var roundPos := p / SECTOR_SIZE * SECTOR_SIZE;
        var wasted := p - roundPos;
        var sector := roundPos / SECTOR_SIZE;
        SectorBound(p, |disk|);
        var n := if left < SECTOR_SIZE - wasted then left else SECTOR_SIZE - wasted;
        ghost var l0, d0 := lines, disk;
        StoreBytes(sector, wasted, buf, writeCnt, n);
        forall q | 0 <= q < d * SECTOR_SIZE
          ensures FlatByte(lines, disk, q) == if p <= q < p + n then buf[q - pos] else FlatByte(l0, d0, q)
        {
          SpliceByte(l0, d0, lines, disk, sector, wasted, buf[writeCnt..writeCnt + n], p, q);
        }
        writeCnt := writeCnt + n;
        p := p + n;
        left := left - n;
      }
    }

    /** One round of SataDev::write as it is coded: the cache is copied to the caller's buffer. */
    method StoreAsCoded(sector: nat, off: nat, buf: array<byte>, from: nat, n: nat) returns (ghost blank: Sector)
      requires Valid() && sector < |disk| && off + n <= SECTOR_SIZE
      requires buf !in repr && from + n <= buf.Length
      modifies repr, buf
      ensures Valid() && fresh(repr - old(repr)) && |disk| == |old(disk)| && uses == old(uses) + [sector]
      ensures (forall i :: 0 <= i < |old(lines)| ==> old(lines)[i].key < |old(disk)|)
              && (lines, disk) == CodedWriteAccess(old(lines), old(disk), sector, maxSize, blank, n)
      ensures n < SECTOR_SIZE ==> forall s :: 0 <= s < |disk| ==> Logical(lines, disk, s) == Logical(old(lines), old(disk), s)
      ensures forall s :: 0 <= s < |disk| && s != sector ==> Logical(lines, disk, s) == Logical(old(lines), old(disk), s)
      ensures forall i :: from <= i < from + n ==> buf[i] == Logical(lines, disk, sector)[off + (i - from)]
      ensures forall i :: 0 <= i < buf.Length && !(from <= i < from + n) ==> buf[i] == old(buf[i])
    {
      hide Shape, Inv, LruModel.Get, Logical, Patch;
      var cnt, temp;
      FreshKeys();
      InRepr();
      temp, cnt, blank := Get(sector, true);
      CodedPartialIsRead(old(lines), old(disk), sector, maxSize, blank, old(uses), n);
      GetShape(old(lines), old(disk), sector, true, maxSize, blank, old(uses));
      FrontBuffer();
      if cnt == 0 && n < SECTOR_SIZE {
        FillFront(temp, disk[sector]);
      }
      FrontBuffer();
      assert (lines, disk) == CodedWriteAccess(old(lines), old(disk), sector, maxSize, blank, n);
      uses := uses + [sector];
      ghost var data := lines[0].data;
      assert temp[..] == data;
      InReprNow();
      CopyOut(buf, from, temp, off, n);
    }

    /**
     SataDev::write as it is coded.  A sector that it does not cover as a whole never changes, and the
     caller's buffer is overwritten with what the flat disk holds there afterwards.  Cache and disk are
     what one round for each sector makes of them; `blanks` are the new buffers that the rounds may get.
    */
    method WriteAsCoded(buf: array<byte>, pos: nat, size: nat) returns (writeCnt: nat, ghost blanks: seq<Sector>)
      requires Valid() && buf !in repr && size <= buf.Length
      requires pos + size <= |disk| * SECTOR_SIZE
      modifies repr, buf
      ensures Valid() && fresh(repr - old(repr)) && |disk| == |old(disk)| && writeCnt == size
      ensures |blanks| == Touched(pos, size) && pos / SECTOR_SIZE + |blanks| <= |old(disk)|
      ensures (lines, disk) == AfterRounds(old(lines), old(disk), maxSize, pos / SECTOR_SIZE, pos, size, blanks)
      ensures forall s :: 0 <= s < |disk| && !Whole(pos, size, s) ==>
                Logical(lines, disk, s) == Logical(old(lines), old(disk), s)
      ensures forall i :: 0 <= i < size ==> buf[i] == FlatByte(lines, disk, pos + i)
      ensures forall i :: size <= i < buf.Length ==> buf[i] == old(buf[i])
    {
      hide Shape, Inv, Logical, CodedWriteAccess, Whole, AfterRounds, Overlap, Touched;
      writeCnt, blanks := 0, [];
      AfterNone(lines, disk, maxSize, uses, pos, size);
      var p, left := pos, size;
      ghost var d := |disk|;
      InReprNow();
      while left > 0
        invariant p == pos + writeCnt && left == size - writeCnt && writeCnt <= size
        invariant Valid() && fresh(repr - old(repr)) && |disk| == d && buf !in repr
        invariant writeCnt > 0 && left > 0 ==> p % SECTOR_SIZE == 0
        invariant |blanks| == Touched(pos, writeCnt) && pos / SECTOR_SIZE + |blanks| <= d
        invariant (lines, disk) == AfterRounds(old(lines), old(disk), maxSize, pos / SECTOR_SIZE, pos, size, blanks)
        invariant forall i :: writeCnt <= i < buf.Length ==> buf[i] == old(buf[i])
        invariant forall s :: 0 <= s < d && !Whole(pos, size, s) ==> Logical(lines, disk, s) == Logical(old(lines), old(disk), s)
        invariant forall i :: 0 <= i < writeCnt ==> buf[i] == FlatByte(lines, disk, pos + i)
      {
        var roundPos := p / SECTOR_SIZE * SECTOR_SIZE;
        var wasted := p - roundPos;
        var sector := roundPos / SECTOR_SIZE;
        SectorBound(p, d);
        var n := if left < SECTOR_SIZE - wasted then left else SECTOR_SIZE - wasted;
        RoundCovers(pos, size, p, n);
        ghost var l0, d0 := lines, disk;
        RoundIs(pos, size, writeCnt, n);
        ghost var blank := StoreAsCoded(sector, wasted, buf, writeCnt, n);
        AfterRoundsStep(old(lines), old(disk), maxSize, old(uses), pos / SECTOR_SIZE, pos, size, blanks, blank);
        blanks := blanks + [blank];
        forall i | 0 <= i < writeCnt + n
          ensures buf[i] == FlatByte(lines, disk, pos + i)
        {
          SectorBound(pos + i, d);
          if i < writeCnt {
            EarlierSector(pos + i, p);
            assert buf[i] == FlatByte(l0, d0, pos + i);
          } else {
            SameSector(p, i - writeCnt);
          }
        }
        writeCnt := writeCnt + n;
        p := p + n;
        left := left - n;
      }
    }

    lemma InReprNow()
      requires Valid()
      ensures this in repr && pool in repr && pool.head in repr
      ensures (forall b :: b in bufs ==> b in repr) && (forall n :: n in pool.nodes ==> n in repr)
    {
    }

    lemma FreshKeys()
      requires Valid()
      ensures maxSize > 0 && forall i :: 0 <= i < |lines| ==> lines[i].key < |disk|
    {
    }

    lemma SizeIs()
      requires Shape()
      ensures pool.size == |lines| == |pool.nodes| == |bufs|
    {
    }

    /** end(), then one step back. */
    method Last() returns (end: Node)
      requires Shape() && lines != []
      ensures |pool.nodes| == |lines| && end == pool.nodes[|lines| - 1]
      ensures var l := lines[|lines| - 1];
              end.data.key == l.key && end.data.dirty == l.dirty && end.data.data.Length == SECTOR_SIZE && end.data.data[..] == l.data
    {
      ghost var ring := [pool.head] + pool.nodes;
      CircularList.RingAt(ring, |lines|);
      end := pool.head.prev;
      assert Holds(end, bufs[|lines| - 1], lines[|lines| - 1]);
    }
  }

  /** The byte at position `p` of the flat disk. */
  ghost function FlatByte(lines: seq<Line>, disk: Disk, p: nat): byte
    requires p < |disk| * SECTOR_SIZE
  {
    SectorBound(p, |disk|);
    Logical(lines, disk, p / SECTOR_SIZE)[p % SECTOR_SIZE]
  }

  /** With nothing cached, byte `p` of the flat disk is byte p % 512 of sector p / 512. */
  lemma FlatDisk(disk: Disk, p: nat)
    requires p < |disk| * 512
    ensures p / 512 < |disk| && FlatByte([], disk, p) == disk[p / 512][p % 512]
  {
    SectorBound(p, |disk|);
  }

  lemma SpliceIs(s: Sector, base: Sector, off: nat, bytes: seq<byte>)
    requires off + |bytes| <= SECTOR_SIZE
    requires forall j :: 0 <= j < SECTOR_SIZE ==> s[j] == if off <= j < off + |bytes| then bytes[j - off] else base[j]
    ensures s == Splice(base, off, bytes)
  {
  }

  lemma PatchTwice(l: seq<Line>, a: Sector, b: Sector)
    requires l != []
    ensures Patch(Patch(l, a), b) == Patch(l, b) && Patch(l, l[0].data) == l
  {
  }

  lemma SectorBound(p: nat, n: nat)
    requires p < n * SECTOR_SIZE
    ensures p / SECTOR_SIZE < n
    ensures p / SECTOR_SIZE * SECTOR_SIZE / SECTOR_SIZE == p / SECTOR_SIZE
    ensures p - p / SECTOR_SIZE * SECTOR_SIZE == p % SECTOR_SIZE
  {
  }

  lemma SameSector(p: nat, i: nat)
    requires p % SECTOR_SIZE + i < SECTOR_SIZE
    ensures (p + i) / SECTOR_SIZE == p / SECTOR_SIZE && (p + i) % SECTOR_SIZE == p % SECTOR_SIZE + i
  {
  }

  /** Sector `s` lies between `pos` and `pos + size`. */
  predicate Whole(pos: nat, size: nat, s: nat) {
    pos <= s * SECTOR_SIZE && (s + 1) * SECTOR_SIZE <= pos + size
  }

  /** A round covers its sector only if the range does; it ends with the sector or with the range. */
  lemma RoundCovers(pos: nat, size: nat, p: nat, n: nat)
    requires pos <= p && p + n <= pos + size
    requires n == SECTOR_SIZE - p % SECTOR_SIZE || (n < SECTOR_SIZE - p % SECTOR_SIZE && p + n == pos + size)
    ensures n >= SECTOR_SIZE ==> Whole(pos, size, p / SECTOR_SIZE)
    ensures p + n < pos + size ==> (p + n) % SECTOR_SIZE == 0
  {
  }

  /** How many sectors a range touches. */
  function Touched(pos: nat, size: nat): nat {
    if size == 0 then 0 else (pos + size - 1) / SECTOR_SIZE + 1 - pos / SECTOR_SIZE
  }

  /** The next round is for the next sector, with the bytes of the range in it. */
  lemma RoundIs(pos: nat, size: nat, done: nat, n: nat)
    requires done < size && (done > 0 ==> (pos + done) % SECTOR_SIZE == 0)
    requires n == if size - done < SECTOR_SIZE - (pos + done) % SECTOR_SIZE then size - done
                  else SECTOR_SIZE - (pos + done) % SECTOR_SIZE
    ensures (pos + done) / SECTOR_SIZE == pos / SECTOR_SIZE + Touched(pos, done)
    ensures Touched(pos, done + n) == Touched(pos, done) + 1
    ensures Overlap(pos, size, (pos + done) / SECTOR_SIZE) == n
  {
    var p := pos + done;
    var s := p / SECTOR_SIZE;
    assert p == s * SECTOR_SIZE + p % SECTOR_SIZE;
    assert (p + n - 1) / SECTOR_SIZE == s;
    assert done > 0 ==> (p - 1) / SECTOR_SIZE == s - 1;
  }

  lemma AfterNone(lines: seq<Line>, disk: Disk, max: nat, uses: seq<nat>, pos: nat, size: nat)
    requires Inv(lines, disk, max, uses) && pos + size <= |disk| * SECTOR_SIZE
    ensures Touched(pos, 0) == 0 && pos / SECTOR_SIZE <= |disk|
    ensures AfterRounds(lines, disk, max, pos / SECTOR_SIZE, pos, size, []) == (lines, disk)
  {
  }

  lemma EarlierSector(q: nat, p: nat)
    requires q < p && p % SECTOR_SIZE == 0
    ensures q / SECTOR_SIZE < p / SECTOR_SIZE
  {
  }

  /** How a write to part of one sector shows at byte `q`. */
  lemma SpliceByte(l0: seq<Line>, d0: Disk, l: seq<Line>, d: Disk, sector: nat, off: nat, bytes: seq<byte>, p: nat, q: nat)
    requires sector < |d0| == |d| && off + |bytes| <= SECTOR_SIZE && p == sector * SECTOR_SIZE + off
    requires forall s :: 0 <= s < |d| ==>
               Logical(l, d, s) == if s == sector then Splice(Logical(l0, d0, s), off, bytes) else Logical(l0, d0, s)
    requires q < |d| * SECTOR_SIZE
    ensures FlatByte(l, d, q) == if p <= q < p + |bytes| then bytes[q - p] else FlatByte(l0, d0, q)
  {
    hide Logical;
    SectorBound(q, |d|);
    if p <= q < p + |bytes| {
      assert q == sector * SECTOR_SIZE + (off + (q - p));
      assert q / SECTOR_SIZE == sector;
    }
  }

  /** memcpy(buf + to, temp + from, n) */
  method CopyOut(buf: array<byte>, to: nat, temp: array<byte>, from: nat, n: nat)
    requires to + n <= buf.Length && from + n <= temp.Length && buf != temp
    modifies buf
    ensures forall i :: to <= i < to + n ==> buf[i] == temp[from + (i - to)]
    ensures forall i :: 0 <= i < buf.Length && !(to <= i < to + n) ==> buf[i] == old(buf[i])
  {
    for i := 0 to n
      invariant forall j :: to <= j < to + i ==> buf[j] == temp[from + (j - to)]
      invariant forall j :: 0 <= j < buf.Length && !(to <= j < to + i) ==> buf[j] == old(buf[j])
    {
      buf[to + i] := temp[from + i];
    }
  }

  lemma FrontedDistinct<T>(s: seq<T>, i: nat)
    requires i < |s| && Distinct(s)
    ensures Distinct(CircularList.Fronted(s, i))
  {
  }

  lemma {:induction false} FindIs(lines: seq<Line>, key: nat, i: nat)
    requires i <= |lines| && forall j :: 0 <= j < i ==> lines[j].key != key
    requires i < |lines| ==> lines[i].key == key
    ensures Find(lines, key) == i
  {
  }
}
