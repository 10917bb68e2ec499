/**
 The block iterator of kernel/fs/ext2/ext2_inode.cpp with its buffers, and `EXT2_File::read` of
 kernel/fs/ext2/ext2_file.cpp on top of it.  The device is the flat array of bytes that SataDev
 implements, and nothing is written, so no buffer is ever dirty.
*/
module Ext2File {
  import opened Bytes
  import opened Ext2Coords

  const BLOCK_SIZE: nat := 1024

  // ---------------------------------------------------------------------------------------------
  // The block map on disk
  // ---------------------------------------------------------------------------------------------

  /** EXT2_FS::block_to_pos */
  function BlockToPos(block: nat): nat {
    if block == 0 then 1024 else (block - 1) * BLOCK_SIZE + 1024
  }

  /** The 256 block numbers in an index block. */
  function IndexBlock(dev: seq<byte>, block: nat): (r: seq<nat>)
    ensures |r| == FAN
  {
    seq(FAN, i requires 0 <= i < FAN => U32At(dev, BlockToPos(block) + 4 * i))
  }

  function EntryOf(table: seq<nat>, i: nat): nat {
    if i < |table| then table[i] else 0
  }

  /** The table at depth `t` under the indexes: the inode's own, or the index block they lead to. */
  function Table(dev: seq<byte>, iblock: seq<nat>, idx: seq<nat>, t: nat): seq<nat>
    requires |idx| == 4 && t <= 3
  {
    if t == 0 then iblock else IndexBlock(dev, EntryOf(Table(dev, iblock, idx, t - 1), idx[t - 1]))
  }

  function BlockOf(dev: seq<byte>, iblock: seq<nat>, c: Coord): nat
    requires |c.idx| == 4 && c.level <= 3
  {
    EntryOf(Table(dev, iblock, c.idx, c.level), c.idx[c.level])
  }

  /** Every index block on the way to a position is allocated; the code asserts this. */
  ghost predicate Reachable(dev: seq<byte>, iblock: seq<nat>, c: Coord)
    requires |c.idx| == 4 && c.level <= 3
  {
    forall t | 0 <= t < c.level :: EntryOf(Table(dev, iblock, c.idx, t), c.idx[t]) != 0
  }

  /**
   The byte that the code takes for offset `q` of the file: where no data block is allocated, one of the
   superblock at 1024.  The map ends at block MAX3.
  */
  function CodedByte(dev: seq<byte>, iblock: seq<nat>, q: nat): byte {
    if q / BLOCK_SIZE >= MAX3 then 0 else
    ByteAt(dev, BlockToPos(BlockOf(dev, iblock, Code(q / BLOCK_SIZE))) + q % BLOCK_SIZE)
  }

  /** The byte at offset `q` of the file: zero where no data block is allocated. */
  ghost function FileByte(dev: seq<byte>, iblock: seq<nat>, q: nat): byte {
    if q / BLOCK_SIZE >= MAX3 || Hole(dev, iblock, q / BLOCK_SIZE) then 0
    else ByteAt(dev, BlockToPos(BlockOf(dev, iblock, Code(q / BLOCK_SIZE))) + q % BLOCK_SIZE)
  }

  /** Block `n` has no index block or no data block. */
  ghost predicate Hole(dev: seq<byte>, iblock: seq<nat>, n: nat)
    requires n < MAX3
  {
    !Reachable(dev, iblock, Code(n)) || BlockOf(dev, iblock, Code(n)) == 0
  }

  /** The code has the right byte there: a data block, or a zero where it looks instead. */
  ghost predicate Backed(dev: seq<byte>, iblock: seq<nat>, q: nat) {
    q / BLOCK_SIZE < MAX3 ==>
      BlockOf(dev, iblock, Code(q / BLOCK_SIZE)) != 0 || ByteAt(dev, 1024 + q % BLOCK_SIZE) == 0
  }

  ghost predicate AllBacked(dev: seq<byte>, iblock: seq<nat>, from: nat, n: nat) {
    forall q: nat :: from <= q < from + n ==> Backed(dev, iblock, q)
  }

  /** `b` are the bytes of the file from offset `from` on. */
  ghost predicate IsContents(dev: seq<byte>, iblock: seq<nat>, from: nat, b: seq<byte>) {
    forall i :: 0 <= i < |b| ==> b[i] == FileByte(dev, iblock, from + i)
  }

  lemma NothingBacked(dev: seq<byte>, iblock: seq<nat>, from: int)
    ensures from >= 0 ==> AllBacked(dev, iblock, from, 0) && IsContents(dev, iblock, from, [])
  {
  }

  lemma CodedByteIff(dev: seq<byte>, iblock: seq<nat>, q: nat)
    requires q / BLOCK_SIZE < MAX3 && Reachable(dev, iblock, Code(q / BLOCK_SIZE))
    ensures CodedByte(dev, iblock, q) == FileByte(dev, iblock, q) <==> Backed(dev, iblock, q)
  {
    hide Code, BlockOf, Reachable;
  }

  /**
   A block whose index blocks are allocated is taken as it is exactly if it has a data block or the device
   bytes 1024 to 2047 are zero.
  */
  lemma HoleIff(dev: seq<byte>, iblock: seq<nat>, n: nat)
    requires n < MAX3 && Reachable(dev, iblock, Code(n))
    ensures (forall q: nat :: q / BLOCK_SIZE == n ==> CodedByte(dev, iblock, q) == FileByte(dev, iblock, q)) <==>
            BlockOf(dev, iblock, Code(n)) != 0 || forall a :: 1024 <= a < 2048 ==> ByteAt(dev, a) == 0
  {
    hide Code, BlockOf, Reachable, CodedByte, FileByte, ByteAt;
    forall q: nat | q / BLOCK_SIZE == n
      ensures CodedByte(dev, iblock, q) == FileByte(dev, iblock, q) <==>
              BlockOf(dev, iblock, Code(n)) != 0 || ByteAt(dev, 1024 + q % BLOCK_SIZE) == 0
    {
      CodedByteIff(dev, iblock, q);
    }
    forall a | 1024 <= a < 2048
      ensures (n * BLOCK_SIZE + (a - 1024)) / BLOCK_SIZE == n && 1024 + (n * BLOCK_SIZE + (a - 1024)) % BLOCK_SIZE == a
      ensures CodedByte(dev, iblock, n * BLOCK_SIZE + (a - 1024)) == FileByte(dev, iblock, n * BLOCK_SIZE + (a - 1024)) <==>
              BlockOf(dev, iblock, Code(n)) != 0 || ByteAt(dev, a) == 0
    {
      InBlock(n, a - 1024);
      CodedByteIff(dev, iblock, n * BLOCK_SIZE + (a - 1024));
    }
  }

  lemma InBlock(n: nat, off: nat)
    requires off < BLOCK_SIZE
    ensures (n * BLOCK_SIZE + off) / BLOCK_SIZE == n && (n * BLOCK_SIZE + off) % BLOCK_SIZE == off
  {
  }

  /** A file of one block with nothing allocated, on a device of ones: its first byte is taken as 1. */
  lemma HoleExample()
    ensures var dev := seq(2048, _ => 1 as byte); var iblock := seq(15, _ => 0 as nat);
            CodedByte(dev, iblock, 0) == 1 && FileByte(dev, iblock, 0) == 0
  {
  }

  // ---------------------------------------------------------------------------------------------
  // Where the format has things
  // ---------------------------------------------------------------------------------------------

  /** Device block `b` occupies the bytes from b * 1024 up to (b + 1) * 1024. */
  lemma BlockPlace(b: nat)
    requires b > 0
    ensures BlockToPos(b) == b * 1024
  {
  }

  /** The i-th number in index block `b`: four bytes, the lowest first. */
  function SlotOf(dev: seq<byte>, b: nat, i: nat): nat {
    var a := b * 1024 + 4 * i;
    ByteAt(dev, a) as nat + 0x100 * ByteAt(dev, a + 1) as nat
    + 0x1_0000 * ByteAt(dev, a + 2) as nat + 0x100_0000 * ByteAt(dev, a + 3) as nat
  }

  /** The device block of block `n` of a file: twelve in the inode, then 256, 256^2 and 256^3 through index blocks. */
  function DataBlock(dev: seq<byte>, iblock: seq<nat>, n: nat): nat
    requires |iblock| == 15
  {
    if n < 12 then iblock[n]
    else if n < 268 then SlotOf(dev, iblock[12], n - 12)
    else if n < 65804 then SlotOf(dev, SlotOf(dev, iblock[13], (n - 268) / 256), (n - 268) % 256)
    else SlotOf(dev, SlotOf(dev, SlotOf(dev, iblock[14], (n - 65804) / 65536), (n - 65804) / 256 % 256), (n - 65804) % 256)
  }

  lemma IndexBlockAt(dev: seq<byte>, b: nat, i: nat)
    requires b > 0 && i < FAN
    ensures EntryOf(IndexBlock(dev, b), i) == SlotOf(dev, b, i)
  {
  }

  /** The map that the iterator follows is that one, where the index blocks are allocated. */
  lemma BlockOfIs(dev: seq<byte>, iblock: seq<nat>, n: nat)
    requires |iblock| == 15 && n < MAX3 && Reachable(dev, iblock, Code(n))
    ensures BlockOf(dev, iblock, Code(n)) == DataBlock(dev, iblock, n)
  {
    hide IndexBlock, SlotOf;
    CodeIsProper(n);
    var c := Code(n);
    assert Table(dev, iblock, c.idx, 0) == iblock;
    if n >= 12 {
      assert EntryOf(iblock, c.idx[0]) != 0;
      IndexBlockAt(dev, iblock[c.idx[0]], c.idx[1]);
      assert Table(dev, iblock, c.idx, 1) == IndexBlock(dev, iblock[c.idx[0]]);
    }
    if n >= 268 {
      assert EntryOf(Table(dev, iblock, c.idx, 1), c.idx[1]) != 0;
      IndexBlockAt(dev, SlotOf(dev, iblock[c.idx[0]], c.idx[1]), c.idx[2]);
      assert Table(dev, iblock, c.idx, 2) == IndexBlock(dev, SlotOf(dev, iblock[c.idx[0]], c.idx[1]));
    }
    if n >= 65804 {
      assert EntryOf(Table(dev, iblock, c.idx, 2), c.idx[2]) != 0;
      IndexBlockAt(dev, SlotOf(dev, SlotOf(dev, iblock[c.idx[0]], c.idx[1]), c.idx[2]), c.idx[3]);
      assert Table(dev, iblock, c.idx, 3) == IndexBlock(dev, SlotOf(dev, SlotOf(dev, iblock[c.idx[0]], c.idx[1]), c.idx[2]));
    }
  }

  /** So a byte of the file lies in its data block, at its offset. */
  lemma FileByteAt(dev: seq<byte>, iblock: seq<nat>, q: nat)
    requires |iblock| == 15 && q / 1024 < MAX3 && Reachable(dev, iblock, Code(q / 1024))
    ensures var b := DataBlock(dev, iblock, q / 1024);
            && (Hole(dev, iblock, q / 1024) <==> b == 0)
            && FileByte(dev, iblock, q) == (if b == 0 then 0 else ByteAt(dev, b * 1024 + q % 1024))
            && (b != 0 ==> CodedByte(dev, iblock, q) == ByteAt(dev, b * 1024 + q % 1024))
  {
    hide Code, BlockOf, Reachable, DataBlock, ByteAt;
    BlockOfIs(dev, iblock, q / 1024);
    var b := DataBlock(dev, iblock, q / 1024);
    if b > 0 {
      BlockPlace(b);
    }
  }

  /** Eight blocks: block 2 is the index block, whose entry 1 is 5, and byte 7 of block 5 is 9. */
  function ExampleDevice(): seq<byte> {
    seq(8192, i => if i == 2 * 1024 + 4 then 5 else if i == 5 * 1024 + 7 then 9 else 0)
  }

  /** Block 13 of the file is entry 1 of the index block in the inode's slot 12. */
  lemma FileExample()
    ensures var dev := ExampleDevice(); var iblock := seq(15, i => if i == 12 then 2 else 0);
            FileByte(dev, iblock, 13 * 1024 + 7) == 9 && FileByte(dev, iblock, 13 * 1024 + 6) == 0
  {
    var dev := ExampleDevice();
    var iblock: seq<nat> := seq(15, i => if i == 12 then 2 else 0);
    hide ExampleDevice, Code, Reachable, FileByte, CodedByte, SlotOf, Table, Hole;
    ExampleReached(dev, iblock);
    FileByteAt(dev, iblock, 13 * 1024 + 7);
    FileByteAt(dev, iblock, 13 * 1024 + 6);
  }

  lemma ExampleReached(dev: seq<byte>, iblock: seq<nat>)
    requires dev == ExampleDevice() && iblock == seq(15, i => if i == 12 then 2 else 0)
    ensures Reachable(dev, iblock, Code(13)) && SlotOf(dev, 2, 1) == 5
    ensures ByteAt(dev, 5 * 1024 + 7) == 9 && ByteAt(dev, 5 * 1024 + 6) == 0
  {
    assert Code(13) == Coord(1, [12, 1, 0, 0]);
    assert Table(dev, iblock, [12, 1, 0, 0], 0) == iblock;
  }

  /** The byte at offset `q` of the file is at its place in its block on the device; holes aside. */
  ghost predicate AtItsPlace(dev: seq<byte>, iblock: seq<nat>, q: nat, v: byte)
    requires |iblock| == 15
  {
    var block := DataBlock(dev, iblock, q / 1024);
    block > 0 ==> block * 1024 + q % 1024 < |dev| && v == dev[block * 1024 + q % 1024]
  }

  ghost predicate FromDevice(dev: seq<byte>, iblock: seq<nat>, from: nat, b: seq<byte>)
    requires |iblock| == 15
  {
    forall i :: 0 <= i < |b| ==> AtItsPlace(dev, iblock, from + i, b[i])
  }

  lemma NothingFromDevice(dev: seq<byte>, iblock: seq<nat>, from: int)
    requires |iblock| == 15
    ensures from >= 0 ==> FromDevice(dev, iblock, from, [])
  {
  }

  lemma DeliveredFromDevice(dev: seq<byte>, iblock: seq<nat>, b: seq<byte>, from: nat, last: nat)
    requires |iblock| == 15 && last < MAX3 && MappedBlocks(dev, iblock, from / BLOCK_SIZE, last)
    requires OnDevice(dev, iblock, from / BLOCK_SIZE, last)
    requires b != [] ==> (from + |b| - 1) / BLOCK_SIZE <= last
    requires forall i :: 0 <= i < |b| ==> b[i] == CodedByte(dev, iblock, from + i)
    ensures FromDevice(dev, iblock, from, b)
  {
    hide Code, Reachable, CodedByte, FileByte, DataBlock, BlockOf;
    forall i | 0 <= i < |b|
      ensures AtItsPlace(dev, iblock, from + i, b[i])
    {
      var n := (from + i) / BLOCK_SIZE;
      Between(from, i, |b|);
      assert Reachable(dev, iblock, Code(n));
      FileByteAt(dev, iblock, from + i);
      BlockOfIs(dev, iblock, n);
      if DataBlock(dev, iblock, n) > 0 {
        BlockPlace(DataBlock(dev, iblock, n));
      }
    }
  }

  /** A table depends only on the indexes above it. */
  lemma {:induction false} TableDepends(dev: seq<byte>, iblock: seq<nat>, a: seq<nat>, b: seq<nat>, t: nat)
    requires |a| == |b| == 4 && t <= 3 && forall u :: 0 <= u < t ==> a[u] == b[u]
    ensures Table(dev, iblock, a, t) == Table(dev, iblock, b, t)
  {
    if t > 0 {
      TableDepends(dev, iblock, a, b, t - 1);
    }
  }

  /** The carry leaves the indexes above the level where it stops. */
  lemma {:induction false} CarryKeeps(idx: seq<nat>, t: nat)
    requires |idx| == 4 && t <= 3
    ensures var (a, p) := Carry(idx, t); forall u :: 0 <= u < p ==> a[u] == idx[u]
    decreases t
  {
    if t > 0 && idx[t] >= Sub(t) {
      CarryKeeps(idx[t - 1 := idx[t - 1] + 1][t := 0], t - 1);
    }
  }

  /** The borrow leaves the indexes from the level where it stops upwards. */
  lemma {:induction false} BorrowKeeps(idx: seq<nat>, t: int)
    requires |idx| == 4 && -1 <= t <= 3
    ensures var (a, p) := Borrow(idx, t); forall u :: 0 <= u <= p ==> a[u] == idx[u]
    decreases t + 1
  {
    if t >= 0 && idx[t] == 0 {
      BorrowKeeps(idx[t := Sub(t) - 1], t - 1);
    }
  }

  /** Indexes beyond the level do not matter. */
  lemma AgreeSame(dev: seq<byte>, iblock: seq<nat>, c: Coord, d: Coord)
    requires Agree(c, d)
    ensures BlockOf(dev, iblock, c) == BlockOf(dev, iblock, d)
    ensures Reachable(dev, iblock, c) <==> Reachable(dev, iblock, d)
  {
    forall t | 0 <= t <= c.level
      ensures Table(dev, iblock, c.idx, t) == Table(dev, iblock, d.idx, t)
    {
      TableDepends(dev, iblock, c.idx, d.idx, t);
    }
  }

  // ---------------------------------------------------------------------------------------------
  // The iterator
  // ---------------------------------------------------------------------------------------------

  /** The index into the inode's own table is one of the level. */
  ghost predicate TopFits(c: Coord) {
    Four(c) && c.idx[0] < 15 && c.level == if c.idx[0] < 12 then 0 else c.idx[0] - 11
  }

  /** The index at the level runs over its table, or under it. */
  ghost predicate Carries(c: Coord)
    requires Four(c)
  {
    c.idx[c.level] + 1 >= Sub(c.level)
  }

  ghost predicate Borrows(c: Coord)
    requires Four(c)
  {
    c.idx[c.level] == 0
  }

  /** getInstance, ++ and -- leave an index into the inode's table that fits the level. */
  lemma GetInstanceFits(n: nat)
    requires n < MAX3
    ensures TopFits(GetInstance(n))
  {
  }

  lemma NextFits(c: Coord)
    requires TopFits(c)
    ensures Next(c).level <= 3 ==> TopFits(Next(c))
    ensures Next(c).level == 4 || Next(c).level == c.level || Next(c).idx[0] != c.idx[0]
  {
    CarryTopIndex(c.idx[c.level := c.idx[c.level] + 1], c.level);
  }

  lemma {:induction false} CarryTopIndex(idx: seq<nat>, t: nat)
    requires |idx| == 4 && t <= 3
    ensures var (a, p) := Carry(idx, t);
            if t > 0 && p == 0 then a[0] == idx[0] + 1 else a[0] == idx[0]
    decreases t
  {
    if t > 0 && idx[t] >= Sub(t) {
      CarryTopIndex(idx[t - 1 := idx[t - 1] + 1][t := 0], t - 1);
    }
  }

  /** What the borrow of operator-- does to the indexes and the level. */
  lemma PrevShape(c: Coord)
    requires TopFits(c) && c.idx[0] > 0
    ensures var (a, t) := Borrow(c.idx, c.level);
            && 0 <= t <= c.level <= 3 && a[t] > 0 && (t < c.level <==> Borrows(c))
            && (t == c.level ==> Prev(c).level == c.level)
            && (forall u :: 0 <= u <= t ==> a[u] == c.idx[u])
            && Prev(c).idx == a[t := a[t] - 1]
            && (if t > 0 then Prev(c).level == c.level && Prev(c).idx[0] == c.idx[0]
                else Prev(c).idx[0] != c.idx[0] &&
                     Prev(c).level == if a[0] - 1 < 12 then 0 else a[0] - 1 - 11)
    ensures Four(c) && Four(Prev(c)) && TopFits(Prev(c))
  {
    BorrowStops(c.idx, c.level);
    BorrowKeeps(c.idx, c.level);
  }

  /** The tables on the way are in their buffers, from allocated index blocks. */
  ghost predicate Holds(dev: seq<byte>, iblock: seq<nat>, bufs: seq<seq<nat>>, idx: seq<nat>, upTo: nat) {
    && |bufs| == |idx| == 4 && upTo <= 3
    && (forall t | 0 <= t <= upTo :: bufs[t] == Table(dev, iblock, idx, t))
    && (forall t | 0 <= t < upTo :: EntryOf(bufs[t], idx[t]) != 0)
  }

  /** Buffers stay right while the indexs above them do. */
  lemma StillHolds(dev: seq<byte>, iblock: seq<nat>, bufs: seq<seq<nat>>, a: seq<nat>, b: seq<nat>,
                   n: nat, upTo: nat)
    requires |bufs| == |a| == |b| == 4 && upTo <= n <= 3
    requires Holds(dev, iblock, bufs, a, n) && forall u :: 0 <= u < upTo ==> a[u] == b[u]
    ensures Holds(dev, iblock, bufs, b, upTo) && (iblock != [] ==> bufs[upTo] != [])
  {
    forall t | 0 <= t <= upTo
      ensures bufs[t] == Table(dev, iblock, b, t)
    {
      TableDepends(dev, iblock, a, b, t);
    }
  }

  /** The inode's own table is always there. */
  lemma HoldsTop(dev: seq<byte>, iblock: seq<nat>, bufs: seq<seq<nat>>, idx: seq<nat>)
    requires |bufs| == |idx| == 4 && bufs[0] == iblock
    ensures Holds(dev, iblock, bufs, idx, 0)
  {
  }

  /** One more index block is read. */
  lemma HoldsNext(dev: seq<byte>, iblock: seq<nat>, bufs: seq<seq<nat>>, idx: seq<nat>, t: nat)
    requires Holds(dev, iblock, bufs, idx, t) && t < 3 && EntryOf(bufs[t], idx[t]) != 0
    ensures Holds(dev, iblock, bufs[t + 1 := IndexBlock(dev, EntryOf(bufs[t], idx[t]))], idx, t + 1)
  {
  }

  /** Each buffer has the numbers of the index block that the one above it names. */
  ghost predicate HasSlots(dev: seq<byte>, bufs: seq<seq<nat>>, idx: seq<nat>, level: nat) {
    |bufs| == |idx| == 4 && level <= 3 &&
    forall t, u :: 0 <= t && u == t + 1 && u <= level ==>
      |bufs[u]| == 256 && forall i :: 0 <= i < 256 ==> bufs[u][i] == SlotOf(dev, EntryOf(bufs[t], idx[t]), i)
  }

  lemma LoadedSlots(dev: seq<byte>, iblock: seq<nat>, bufs: seq<seq<nat>>, idx: seq<nat>, level: nat)
    requires Holds(dev, iblock, bufs, idx, level)
    ensures HasSlots(dev, bufs, idx, level)
  {
    hide IndexBlock, SlotOf;
    forall t, u | 0 <= t && u == t + 1 && u <= level
      ensures |bufs[u]| == 256 && forall i :: 0 <= i < 256 ==> bufs[u][i] == SlotOf(dev, EntryOf(bufs[t], idx[t]), i)
    {
      var b := EntryOf(bufs[t], idx[t]);
      assert bufs[u] == IndexBlock(dev, b);
      forall i | 0 <= i < 256
        ensures bufs[u][i] == SlotOf(dev, b, i)
      {
        IndexBlockAt(dev, b, i);
      }
    }
  }

  /** What is loaded is reachable, and a missing index block is in the way of the position. */
  lemma HoldsReachable(dev: seq<byte>, iblock: seq<nat>, bufs: seq<seq<nat>>, c: Coord, t: nat)
    requires Four(c) && t <= c.level && Holds(dev, iblock, bufs, c.idx, t)
    ensures t == c.level ==> Reachable(dev, iblock, c)
    ensures t < c.level && EntryOf(bufs[t], c.idx[t]) == 0 ==> !Reachable(dev, iblock, c)
  {
  }

  class Iterator {
    const dev: seq<byte>
    const iblock: seq<nat>
    var level: nat
    var indexs: seq<nat>
    var indexCnt: nat
    // block_buf: the inode's table and one buffer for each level; [] is nullptr.
    var bufs: seq<seq<nat>>

    function Position(): Coord
      reads this
    {
      Coord(level, indexs)
    }

    ghost predicate Loaded(upTo: nat)
      reads this
    {
      Holds(dev, iblock, bufs, indexs, upTo)
    }

    /** What getInstance, ++ and -- keep: everything the position needs is loaded, or nothing is. */
    ghost predicate Placed()
      reads this
    {
      && |bufs| == 4 && |iblock| == 15 && TopFits(Position())
      && bufs[0] == iblock && (Loaded(level) || forall t | 1 <= t <= 3 :: bufs[t] == [])
    }

    /** On block `indexCnt`, with nothing left behind beyond the level. */
    ghost predicate Valid()
      reads this
    {
      Placed() && Proper(Position()) && Decode(Position()) == indexCnt
    }

    /** On block `indexCnt` up to the level, as `--` leaves it. */
    ghost predicate Standing()
      reads this
    {
      Placed() && indexCnt < MAX3 && Agree(Position(), Code(indexCnt))
    }

    /** getInstance.  Beyond the bound its third index is too large, and no step or read follows it. */
    constructor (dev: seq<byte>, iblock: seq<nat>, n: nat)
      requires |iblock| == 15 && n < MAX3
      ensures this.dev == dev && this.iblock == iblock
      ensures Placed() && bufs == [iblock, [], [], []]
      ensures Position() == GetInstance(n) && indexCnt == n
      ensures Valid() <==> n < MAX2 + FAN * FAN
      ensures Valid() ==> Position() == Code(n)
      ensures Reachable(dev, iblock, Position()) ==> Valid()
    {
      this.dev, this.iblock := dev, iblock;
      level, indexs := GetInstance(n).level, GetInstance(n).idx;
      indexCnt := n;
      bufs := [iblock, [], [], []];
      new;
      hide Code, Table, Decode;
      GetInstanceFits(n);
      GetInstanceExact(n);
      CodeIsProper(n);
      if n >= MAX2 + FAN * FAN {
        BeyondTable(n);
      }
    }

    /**
     load_buf; false where the code asserts that an index block is allocated, or reads through a null
     buffer or behind a table.
    */
    method LoadBuf(from: nat) returns (ok: bool)
      requires from <= level <= 3 && |bufs| == |indexs| == 4 && (bufs[from] == [] || Loaded(from))
      modifies this`bufs
      ensures |bufs| == 4 && bufs[0] == old(bufs[0])
      ensures if old(bufs)[from] == [] then (ok <==> from == level) && bufs == old(bufs)
              else (ok <==> Reachable(dev, iblock, Position())) && (ok ==> Loaded(level))
      ensures from == level ==> ok
      ensures ok && old(bufs)[from] != [] ==> HasSlots(dev, bufs, indexs, level)
    {
      hide Holds, Reachable, Table, IndexBlock, HasSlots;
      var t := from;
      if bufs[from] != [] {
        HoldsReachable(dev, iblock, bufs, Position(), t);
      }
      while t < level
        invariant from <= t <= level && |bufs| == 4 && bufs[0] == old(bufs[0])
        invariant if old(bufs)[from] == [] then t == from && bufs == old(bufs) else Loaded(t)
        invariant old(bufs)[from] != [] && t == level ==> Reachable(dev, iblock, Position())
      {
        var newBlockPos := EntryOf(bufs[t], indexs[t]);
        if newBlockPos == 0 {
          if old(bufs)[from] != [] {
            HoldsReachable(dev, iblock, bufs, Position(), t);
          }
          return false;
        }
        HoldsNext(dev, iblock, bufs, indexs, t);
        bufs := bufs[t + 1 := IndexBlock(dev, newBlockPos)];
        t := t + 1;
        HoldsReachable(dev, iblock, bufs, Position(), t);
      }
      if old(bufs)[from] != [] {
        LoadedSlots(dev, iblock, bufs, indexs, level);
      }
      ok := true;
    }

    /** The carry loop of operator++. */
    method CarryLoop() returns (t: nat)
      requires |indexs| == 4 && level <= 3 && indexs[level] >= Sub(level)
      modifies this`indexs
      ensures (indexs, t) == Carry(old(indexs), level)
      ensures (t < level || level == 0) && |indexs| == 4 && forall u :: 0 <= u < t ==> indexs[u] == old(indexs)[u]
    {
      CarryKeeps(indexs, level);
      t := level;
      while t > 0 && indexs[t] >= Sub(t)
        invariant |indexs| == 4 && 0 <= t <= level && (t == level ==> indexs[t] >= Sub(t))
        invariant Carry(indexs, t) == Carry(old(indexs), level)
      {
        indexs := indexs[t - 1 := indexs[t - 1] + 1];
        indexs := indexs[t := 0];
        t := t - 1;
      }
    }

    /**
     operator++.  It fails behind the last block; where it changes level or table and an index block is
     not allocated; and where it moves to another table below the inode's and nothing is loaded.
    */
    method Increment() returns (ok: bool)
      requires Placed()
      modifies this
      ensures indexCnt == old(indexCnt) + 1
      ensures ok ==> Placed() && Position() == Next(old(Position()))
      ensures ok && old(Valid()) ==> Valid()
      ensures ok && old(Loaded(level)) ==> Loaded(level)
      ensures var (c, d) := (old(Position()), Next(old(Position())));
              ok <==> d.level <= 3 &&
                      (Carries(c) ==> (old(Loaded(level)) || d.level > c.level) && Reachable(dev, iblock, d))
    {
      hide Carry, Code, Decode, Proper, Table, Reachable, Holds, HasSlots, Agree;
      ghost var c := Position();
      NextFits(c);
      if Valid() {
        DecodeIsInverse(c);
        if indexCnt + 1 < MAX3 {
          NextIsSuccessor(c);
        } else {
          NextAtEnd(c);
        }
      }
      indexCnt := indexCnt + 1;
      indexs := indexs[level := indexs[level] + 1];
      if indexs[level] >= Sub(level) {
        var t := CarryLoop();
        HoldsTop(dev, iblock, bufs, indexs);
        if t == 0 {
          level := level + 1;
          if level == 4 {
            return false;
          }
        }
        if old(Loaded(level)) {
          StillHolds(dev, iblock, bufs, c.idx, indexs, c.level, t);
        }
        ok := LoadBuf(t);
      } else {
        if old(Loaded(level)) {
          StillHolds(dev, iblock, bufs, c.idx, indexs, level, level);
        }
        ok := true;
      }
    }

    /** The borrow loop of operator--. */
    method BorrowLoop() returns (t: int)
      requires |indexs| == 4 && level <= 3
      modifies this`indexs
      ensures (indexs, t) == Borrow(old(indexs), level)
      ensures old(indexs)[level] == 0 <==> t < level
    {
      t := level;
      while t >= 0 && indexs[t] == 0
        invariant |indexs| == 4 && -1 <= t <= level
        invariant if t == level then indexs == old(indexs) else old(indexs)[level] == 0
        invariant Borrow(indexs, t) == Borrow(old(indexs), level)
      {
        indexs := indexs[t := Sub(t) - 1];
        t := t - 1;
      }
    }

    /**
     operator--.  It fails where it moves to another table and an index block is not allocated, and
     where that table is below the inode's and nothing is loaded.
    */
    method Decrement() returns (ok: bool)
      requires Placed() && (indexCnt > 0 ==> indexs[0] > 0)
      modifies this
      ensures indexCnt == if old(indexCnt) == 0 then 0 else old(indexCnt) - 1
      ensures old(indexCnt) == 0 ==> ok && (level, indexs, bufs) == old((level, indexs, bufs))
      ensures ok && old(indexCnt) > 0 ==> Placed() && Position() == Prev(old(Position()))
      ensures ok && old(Standing()) ==> Standing()
      ensures ok && old(Loaded(level)) ==> Loaded(level)
      ensures old(indexCnt) > 0 ==>
                var (c, d) := (old(Position()), Prev(old(Position())));
                Four(d) && (ok <==> (Borrows(c) ==>
                  (old(Loaded(level)) || d.idx[0] != c.idx[0]) && Reachable(dev, iblock, d)))
    {
      hide Borrow, Code, Table, Reachable, Holds, Prev, TopFits, HasSlots, Agree, Decode, Proper;
      if indexCnt == 0 {
        return true;
      }
      ghost var c := Position();
      if Standing() {
        PrevIsPredecessor(c, indexCnt);
      }
      PrevShape(c);
      indexCnt := indexCnt - 1;
      var t := BorrowLoop();
      indexs := indexs[t := indexs[t] - 1];
      HoldsTop(dev, iblock, bufs, indexs);
      if t == 0 {
        level := if indexs[t] < 12 then 0 else indexs[t] - 11;
      }
      if old(Loaded(level)) {
        StillHolds(dev, iblock, bufs, c.idx, indexs, c.level, t);
      }
      ok := LoadBuf(t);
    }

    /** operator* */
    method Deref() returns (ok: bool, block: nat)
      requires Placed()
      modifies this`bufs
      ensures ok <==> old(Loaded(level)) || Reachable(dev, iblock, Position())
      ensures ok ==> Placed() && Loaded(level) && block == BlockOf(dev, iblock, Position())
      ensures ok && old(Valid()) ==> Valid()
      ensures ok && old(Standing()) ==> Standing() && block == BlockOf(dev, iblock, Code(indexCnt))
      ensures ok && old(Standing()) ==> block == DataBlock(dev, iblock, indexCnt)
    {
      hide Code, DataBlock, Holds, Table, Reachable, BlockOf, HasSlots, Proper, Decode, Agree;
      ok, block := true, 0;
      HoldsTop(dev, iblock, bufs, indexs);
      if Loaded(level) {
        HoldsIs(dev, iblock, bufs, Position(), level);
      }
      if bufs[level] == [] {
        ok := LoadBuf(0);
        if !ok {
          return;
        }
      }
      block := EntryOf(bufs[level], indexs[level]);
      HoldsIs(dev, iblock, bufs, Position(), level);
      if Standing() {
        StandsOn(dev, iblock, Position(), indexCnt);
      }
    }
  }

  /** What the loaded buffers say. */
  lemma HoldsIs(dev: seq<byte>, iblock: seq<nat>, bufs: seq<seq<nat>>, c: Coord, level: nat)
    requires Four(c) && level == c.level && iblock != [] && Holds(dev, iblock, bufs, c.idx, level)
    ensures Reachable(dev, iblock, c) && bufs[level] != []
    ensures EntryOf(bufs[level], c.idx[level]) == BlockOf(dev, iblock, c)
  {
    HoldsReachable(dev, iblock, bufs, c, level);
    StillHolds(dev, iblock, bufs, c.idx, c.idx, level, level);
  }

  lemma StandsOn(dev: seq<byte>, iblock: seq<nat>, c: Coord, n: nat)
    requires |iblock| == 15 && n < MAX3 && Agree(c, Code(n)) && Reachable(dev, iblock, c)
    ensures BlockOf(dev, iblock, c) == BlockOf(dev, iblock, Code(n)) == DataBlock(dev, iblock, n)
  {
    hide Code, DataBlock, BlockOf, Reachable;
    AgreeSame(dev, iblock, c, Code(n));
    BlockOfIs(dev, iblock, n);
  }

  /** What is loaded is reachable. */
  lemma LoadedReachable(it: Iterator)
    requires it.level <= 3 && it.Loaded(it.level)
    ensures Reachable(it.dev, it.iblock, it.Position())
  {
    HoldsReachable(it.dev, it.iblock, it.bufs, it.Position(), it.level);
  }

  /** The third index of getInstance leads behind the index block exactly where it is wrong. */
  lemma BeyondTable(n: nat)
    requires MAX2 + FAN * FAN <= n < MAX3
    ensures GetInstance(n).level == 3 && GetInstance(n).idx[2] >= FAN
    ensures forall dev, iblock: seq<nat> :: !Reachable(dev, iblock, GetInstance(n))
  {
    forall dev, iblock: seq<nat>
      ensures !Reachable(dev, iblock, GetInstance(n))
    {
      assert EntryOf(Table(dev, iblock, GetInstance(n).idx, 2), GetInstance(n).idx[2]) == 0;
    }
  }

  // ---------------------------------------------------------------------------------------------
  // Reading a file
  // ---------------------------------------------------------------------------------------------

  const INT_RANGE: nat := 0x1_0000_0000

  /** An int that keeps the low 32 bits. */
  function ToInt(x: int): int {
    var u := x % INT_RANGE;
    if u < 0x8000_0000 then u else u - INT_RANGE
  }

  function ToUnsigned(x: int): nat {
    x % INT_RANGE
  }

  predicate IsInt(x: int) {
    -0x8000_0000 <= x < 0x8000_0000
  }

  /** How much the code sets out to read: the smaller of `len` and what is left, which may be negative. */
  function Wanted(pos: int, size: nat, len: int): int {
    var rest := ToInt(size - pos);
    if len < rest then len else rest
  }

  /** The end of the block that holds offset `q`. */
  function BlockEnd(q: nat): nat {
    (q / BLOCK_SIZE + 1) * BLOCK_SIZE
  }

  /** How much it reads: if that is negative, on to the end of a block at or behind the end of the file. */
  function ReadLen(pos: nat, size: nat, len: int): (r: nat)
    ensures r > 0 <==> Wanted(pos, size, len) != 0
  {
    var m := Wanted(pos, size, len);
    if m >= 0 then m else if pos >= size then BlockEnd(pos) - pos else BlockEnd(size - 1) - pos
  }

  /** A read delivers what is there of what was asked for exactly if neither is negative. */
  lemma ReadLenAsMeant(pos: nat, size: nat, len: int)
    requires IsInt(pos) && IsInt(size)
    ensures ReadLen(pos, size, len) == (if len <= 0 || size <= pos then 0 else Min(len, size - pos)) <==>
            0 <= len && pos <= size
  {
  }

  /** A negative number makes it read to the first end of a block behind the position that is not before the end of the file. */
  lemma ReadLenNegative(pos: nat, size: nat, len: int, n: nat)
    requires IsInt(pos) && IsInt(size) && Wanted(pos, size, len) < 0
    ensures var r := ReadLen(pos, size, len); r > 0 && (pos + r) % 1024 == 0 && pos + r >= size
    ensures 0 < n < ReadLen(pos, size, len) && (pos + n) % 1024 == 0 ==> pos + n < size
  {
    hide BlockEnd, Wanted;
    BlockEndIs(if pos >= size then pos else size - 1, pos + n);
  }

  lemma BlockEndIs(q: nat, x: nat)
    ensures BlockEnd(q) % 1024 == 0 && BlockEnd(q) > q
    ensures x % 1024 == 0 && x < BlockEnd(q) ==> x <= q
  {
  }

  /** Offset 2000 of a file of 1000 bytes: the rest of that block is read. */
  lemma ReadBehindEnd()
    ensures ReadLen(2000, 1000, 10) == 48
  {
  }

  /** Index blocks of blocks `first` to `last` are allocated. */
  ghost predicate MappedBlocks(dev: seq<byte>, iblock: seq<nat>, first: nat, last: nat)
    requires last < MAX3
  {
    forall n | first <= n <= last :: Reachable(dev, iblock, Code(n))
  }

  /** The data blocks that the map gives for them are on the device. */
  ghost predicate OnDevice(dev: seq<byte>, iblock: seq<nat>, first: nat, last: nat)
    requires last < MAX3
  {
    forall n | first <= n <= last && Reachable(dev, iblock, Code(n)) ::
      BlockToPos(BlockOf(dev, iblock, Code(n))) + BLOCK_SIZE <= |dev|
  }

  /** BlockDevice::read */
  method DevRead(dev: seq<byte>, buf: array<byte>, to: nat, pos: nat, n: nat)
    requires to + n <= buf.Length && pos + n <= |dev|
    modifies buf
    ensures forall i :: to <= i < to + n ==> buf[i] == dev[pos + (i - to)]
    ensures forall i :: 0 <= i < buf.Length && !(to <= i < to + n) ==> buf[i] == old(buf[i])
  {
    for j := 0 to n
      invariant forall i :: to <= i < to + j ==> buf[i] == dev[pos + (i - to)]
      invariant forall i :: 0 <= i < buf.Length && !(to <= i < to + j) ==> buf[i] == old(buf[i])
    {
      buf[to + j] := dev[pos + j];
    }
  }

  /** The bytes of one block, as bytes of the file. */
  lemma BlockBytes(dev: seq<byte>, iblock: seq<nat>, n: nat, off: nat, q: nat)
    requires n < MAX3 && off < BLOCK_SIZE && q == n * BLOCK_SIZE + off
    requires BlockToPos(BlockOf(dev, iblock, Code(n))) + BLOCK_SIZE <= |dev|
    ensures q / BLOCK_SIZE == n && q % BLOCK_SIZE == off
    ensures CodedByte(dev, iblock, q) == dev[BlockToPos(BlockOf(dev, iblock, Code(n))) + off]
  {
  }

  /** One device read inside block `n`, which is number `blockN` on the device. */
  method ReadInBlock(dev: seq<byte>, ghost iblock: seq<nat>, ghost n: nat, blockN: nat, off: nat,
                     buf: array<byte>, to: nat, cnt: nat, ghost from: nat)
    requires n < MAX3 && blockN == BlockOf(dev, iblock, Code(n)) && BlockToPos(blockN) + BLOCK_SIZE <= |dev|
    requires off + cnt <= BLOCK_SIZE && to + cnt <= buf.Length && from + to == n * BLOCK_SIZE + off
    modifies buf
    ensures forall i :: to <= i < to + cnt ==>
              buf[i] == CodedByte(dev, iblock, from + i)
    ensures forall i :: 0 <= i < buf.Length && !(to <= i < to + cnt) ==> buf[i] == old(buf[i])
  {
    hide CodedByte, Code, BlockOf, BlockToPos;
    DevRead(dev, buf, to, BlockToPos(blockN) + off, cnt);
    forall i | to <= i < to + cnt
      ensures buf[i] == CodedByte(dev, iblock, from + i)
    {
      BlockBytes(dev, iblock, n, off + (i - to), from + i);
    }
  }

  class File {
    const dev: seq<byte>
    const iblock: seq<nat>
    const size: nat
    var pos: int

    ghost predicate Valid()
      reads this
    {
      |iblock| == 15 && IsInt(size) && IsInt(pos)
    }

    constructor (dev: seq<byte>, iblock: seq<nat>, size: nat)
      requires |iblock| == 15 && IsInt(size)
      ensures this.dev == dev && this.iblock == iblock && this.size == size && pos == 0 && Valid()
    {
      this.dev, this.iblock, this.size := dev, iblock, size;
      pos := 0;
    }

    /** The first `n` bytes from offset `from` on are in the buffer, and the rest of it is as it was. */
    twostate predicate Delivered(buf: array<byte>, from: nat, n: nat)
      reads buf
    {
      && n <= buf.Length
      && (forall i :: 0 <= i < n ==> buf[i] == CodedByte(dev, iblock, from + i))
      && (forall i :: n <= i < buf.Length ==> buf[i] == old(buf[i]))
    }

    /** What a read from `p` needs: room in the buffer for all that is read, and blocks on the device. */
    ghost predicate Fits(bufLen: nat, p: nat, len0: int)
      requires Valid() && IsInt(p) && Wanted(p, size, len0) != 0
      reads this
    {
      ReadLen(p, size, len0) <= bufLen && OnDevice(dev, iblock, p / BLOCK_SIZE, LastBlock(p, size, len0))
    }

    /**
     EXT2_File::read, into a buffer with room for what is read.  It fails where the code asserts that an
     index block is allocated, and where the first block is beyond those that getInstance gets right.
    */
    method Read(buf: array<byte>, len0: int) returns (ok: bool, r: int)
      requires Valid() && IsInt(len0)
      requires Wanted(pos, size, len0) != 0 && pos >= 0 ==> Fits(buf.Length, pos, len0)
      modifies this, buf
      ensures Wanted(old(pos), size, len0) == 0 ==> ok && r == 0 && pos == old(pos) && buf[..] == old(buf[..])
      ensures Wanted(old(pos), size, len0) != 0 ==>
                (ok <==> && 0 <= old(pos) < (MAX2 + FAN * FAN) * BLOCK_SIZE
                         && MappedBlocks(dev, iblock, old(pos) / BLOCK_SIZE, LastBlock(old(pos), size, len0)))
      ensures ok && old(pos) >= 0 ==>
                var n := ReadLen(old(pos), size, len0);
                Delivered(buf, old(pos), n) && r == ToInt(n) && pos == ToInt(old(pos) + n)
      ensures ok && old(pos) >= 0 ==>
                var n := ReadLen(old(pos), size, len0);
                n <= buf.Length && FromDevice(dev, iblock, old(pos), buf[..n]) && (IsContents(dev, iblock, old(pos), buf[..n]) <==> AllBacked(dev, iblock, old(pos), n))
    {
      hide Code, Next, Proper, Decode, Reachable, BlockOf, CodedByte, BlockToPos, ReadLen, LastBlock, Wanted, ToInt,
           ToUnsigned;
      hide Iterator.Valid, Iterator.Placed, Iterator.Loaded, GetInstance, AllBacked, IsContents, FromDevice;
      StartBlock(pos);
      var m := Wanted(pos, size, len0);
      if m == 0 {
        NothingBacked(dev, iblock, pos);
        NothingFromDevice(dev, iblock, pos);
        assert buf[..0] == [];
        return true, 0;
      }
      var (len, p) := (ToUnsigned(m), ToUnsigned(pos));
      var byteInBlock := p % BLOCK_SIZE;
      var nthBlock := p / BLOCK_SIZE;
      var it := new Iterator(dev, iblock, nthBlock);
      var blockN;
      FirstBlock(it, nthBlock);
      if pos >= 0 {
        FirstPart(pos, size, len0);
      }
      ok, blockN := it.Deref();
      if !ok {
        return false, 0;
      }
      var readLen := Min(len, BLOCK_SIZE - byteInBlock);
      ReadInBlock(dev, iblock, nthBlock, blockN, byteInBlock, buf, 0, readLen, pos);
      ok, readLen := ReadOn(it, buf, p, len, len0, readLen);
      if !ok {
        return false, 0;
      }
      LastBlockIs(pos, size, len0);
      DeliveredFromDevice(dev, iblock, buf[..readLen], pos, LastBlock(pos, size, len0));
      RightIff(dev, iblock, buf[..readLen], pos, LastBlock(pos, size, len0));
      pos := ToInt(pos + readLen);
      r := ToInt(readLen);
    }

    /** The loop of EXT2_File::read, after the first `done` bytes. */
    method ReadOn(it: Iterator, buf: array<byte>, p: nat, len: nat, ghost len0: int, done: nat)
      returns (ok: bool, readLen: nat)
      requires Valid() && IsInt(p) && IsInt(len0) && it.dev == dev && it.iblock == iblock
      requires Wanted(p, size, len0) != 0 && len == ToUnsigned(Wanted(p, size, len0)) && Fits(buf.Length, p, len0)
      requires it.Valid() && it.Loaded(it.level) && it.indexCnt == p / BLOCK_SIZE <= LastBlock(p, size, len0)
      requires Reachable(dev, iblock, Code(it.indexCnt))
      requires done == Min(ReadLen(p, size, len0), BLOCK_SIZE - p % BLOCK_SIZE) > 0
      requires done == ReadLen(p, size, len0) ==> it.indexCnt == LastBlock(p, size, len0)
      requires forall i :: 0 <= i < done ==> buf[i] == CodedByte(dev, iblock, p + i)
      modifies it, buf
      ensures ok <==> MappedBlocks(dev, iblock, p / BLOCK_SIZE, LastBlock(p, size, len0))
      ensures ok ==> readLen == ReadLen(p, size, len0)
      ensures ok ==> forall i :: 0 <= i < readLen ==> buf[i] == CodedByte(dev, iblock, p + i)
      ensures ok ==> forall i :: readLen <= i < buf.Length ==> buf[i] == old(buf[i])
    {
      hide Code, Next, Proper, Decode, Reachable, BlockOf, CodedByte, BlockToPos, ReadLen, LastBlock, Wanted, ToInt,
           ToUnsigned;
      hide Iterator.Valid, Iterator.Placed, Iterator.Loaded, GetInstance, IsInt;
      ghost var (n, last) := (ReadLen(p, size, len0), LastBlock(p, size, len0));
      readLen := done;
      GoesOn(p, size, len0, readLen);
      while readLen < len && ToUnsigned(p + readLen) < size
        invariant 0 < readLen <= n
        invariant it.Valid() && it.Loaded(it.level)
        invariant readLen < len && ToUnsigned(p + readLen) < size <==> readLen < n
        invariant readLen < n ==> p + readLen == (it.indexCnt + 1) * BLOCK_SIZE
        invariant p / BLOCK_SIZE <= it.indexCnt <= last && MappedBlocks(dev, iblock, p / BLOCK_SIZE, it.indexCnt)
        invariant readLen == n ==> it.indexCnt == last
        invariant forall i :: 0 <= i < readLen ==> buf[i] == CodedByte(dev, iblock, p + i)
        invariant forall i :: readLen <= i < buf.Length ==> buf[i] == old(buf[i])
      {
        NextPart(p, size, len0, readLen, it.indexCnt + 1);
        var blockN;
        ok, blockN := NextBlockNumber(it);
        if !ok {
          return;
        }
        var thisReadLen := Min(BLOCK_SIZE, len - readLen);
        ReadInBlock(dev, iblock, it.indexCnt, blockN, 0, buf, readLen, thisReadLen, p);
        readLen := readLen + thisReadLen;
        GoesOn(p, size, len0, readLen);
      }
      ok := true;
    }
  }

  /** What the code takes for the file is the file exactly where it is backed. */
  lemma RightIff(dev: seq<byte>, iblock: seq<nat>, b: seq<byte>, from: nat, last: nat)
    requires last < MAX3 && MappedBlocks(dev, iblock, from / BLOCK_SIZE, last)
    requires b != [] ==> (from + |b| - 1) / BLOCK_SIZE <= last
    requires forall i :: 0 <= i < |b| ==> b[i] == CodedByte(dev, iblock, from + i)
    ensures IsContents(dev, iblock, from, b) <==> AllBacked(dev, iblock, from, |b|)
  {
    hide Code, Reachable, CodedByte, FileByte, Backed;
    forall i | 0 <= i < |b|
      ensures b[i] == FileByte(dev, iblock, from + i) <==> Backed(dev, iblock, from + i)
    {
      Between(from, i, |b|);
      assert Reachable(dev, iblock, Code((from + i) / BLOCK_SIZE));
      CodedByteIff(dev, iblock, from + i);
    }
    forall q: nat | from <= q < from + |b|
      ensures b[q - from] == FileByte(dev, iblock, q) <==> Backed(dev, iblock, q)
    {
      assert q == from + (q - from);
    }
    if forall i :: 0 <= i < |b| ==> b[i] == FileByte(dev, iblock, from + i) {
      forall q: nat | from <= q < from + |b|
        ensures Backed(dev, iblock, q)
      {
        assert b[q - from] == FileByte(dev, iblock, from + (q - from));
      }
    }
  }

  lemma Between(from: nat, i: nat, n: nat)
    requires i < n
    ensures from / BLOCK_SIZE <= (from + i) / BLOCK_SIZE <= (from + n - 1) / BLOCK_SIZE
  {
  }

  /** it++ and *it: the next block, if the index blocks above it are allocated. */
  method NextBlockNumber(it: Iterator) returns (ok: bool, blockN: nat)
    requires it.Valid() && it.Loaded(it.level) && it.indexCnt + 1 < MAX3
    modifies it
    ensures ok <==> Reachable(it.dev, it.iblock, Code(old(it.indexCnt) + 1))
    ensures ok ==> it.Valid() && it.Loaded(it.level) && it.indexCnt == old(it.indexCnt) + 1
    ensures ok ==> blockN == BlockOf(it.dev, it.iblock, Code(it.indexCnt))
  {
    hide Code, Next, Proper, Decode, Reachable, BlockOf, Holds, Carries;
    blockN := 0;
    NextPosition(it);
    ok := it.Increment();
    if ok {
      PositionIs(it);
      LoadedReachable(it);
      ok, blockN := it.Deref();
    }
  }

  lemma NextPosition(it: Iterator)
    requires it.Valid() && it.indexCnt + 1 < MAX3
    ensures Next(it.Position()) == Code(it.indexCnt + 1)
  {
    hide Code, Next, Proper, Decode;
    NextIsSuccessor(it.Position());
    DecodeIsInverse(Next(it.Position()));
  }

  /** A new iterator can be followed exactly if it is on its block and the index blocks are there. */
  lemma FirstBlock(it: Iterator, n: nat)
    requires n < MAX3 && it.Placed() && it.Position() == GetInstance(n) && it.indexCnt == n
    requires it.Valid() <==> n < MAX2 + FAN * FAN
    ensures it.Loaded(it.level) || Reachable(it.dev, it.iblock, it.Position()) <==>
            it.Valid() && Reachable(it.dev, it.iblock, Code(n))
  {
    hide Code, Decode, Table, Proper;
    GetInstanceExact(n);
    if it.Loaded(it.level) {
      LoadedReachable(it);
    }
    if n >= MAX2 + FAN * FAN {
      BeyondTable(n);
    }
  }

  function Min(a: int, b: int): int {
    if a < b then a else b
  }

  /** The number of the last block that a read touches. */
  function LastBlock(pos: nat, size: nat, len: int): (r: nat)
    requires IsInt(pos) && IsInt(size) && Wanted(pos, size, len) != 0
    ensures r < MAX3
  {
    (pos + ReadLen(pos, size, len) - 1) / BLOCK_SIZE
  }

  lemma LastBlockIs(pos: nat, size: nat, len: int)
    requires IsInt(pos) && IsInt(size) && Wanted(pos, size, len) != 0
    ensures LastBlock(pos, size, len) == (pos + ReadLen(pos, size, len) - 1) / BLOCK_SIZE
  {
  }

  /** A position as an unsigned number: a negative one is beyond what getInstance gets right. */
  lemma StartBlock(pos: int)
    requires IsInt(pos)
    ensures ToInt(pos) == pos && ToInt(0) == 0
    ensures var p := ToUnsigned(pos);
            && p / BLOCK_SIZE < MAX3 && (pos >= 0 ==> p == pos)
            && (p / BLOCK_SIZE < MAX2 + FAN * FAN <==> 0 <= pos < (MAX2 + FAN * FAN) * BLOCK_SIZE)
  {
  }

  /** The first block: in unsigned arithmetic the read is what `ReadLen` says. */
  lemma FirstPart(pos: nat, size: nat, len: int)
    requires IsInt(pos) && IsInt(size) && IsInt(len) && Wanted(pos, size, len) != 0
    ensures var n := ReadLen(pos, size, len); var b := BLOCK_SIZE - pos % BLOCK_SIZE;
            && 0 < Min(ToUnsigned(Wanted(pos, size, len)), b) == Min(n, b)
            && pos / BLOCK_SIZE <= LastBlock(pos, size, len)
            && (n <= b ==> pos / BLOCK_SIZE == LastBlock(pos, size, len))
  {
  }

  /** After `done` bytes the loop goes on exactly if fewer than `ReadLen` are read. */
  lemma GoesOn(pos: nat, size: nat, len: int, done: nat)
    requires IsInt(pos) && IsInt(size) && IsInt(len) && Wanted(pos, size, len) != 0
    requires var n := ReadLen(pos, size, len);
             Min(n, BLOCK_SIZE - pos % BLOCK_SIZE) <= done <= n && (done < n ==> (pos + done) % BLOCK_SIZE == 0)
    ensures done < ToUnsigned(Wanted(pos, size, len)) && ToUnsigned(pos + done) < size <==>
            done < ReadLen(pos, size, len)
  {
    hide ToUnsigned, BlockEnd;
    var m := Wanted(pos, size, len);
    WantedIs(pos, size, len);
    if m > 0 {
      GoesOnFront(pos, size, m, done);
    } else {
      GoesOnEnd(pos, size, m, done);
    }
  }

  lemma WantedIs(pos: nat, size: nat, len: int)
    requires IsInt(pos) && IsInt(size) && IsInt(len)
    ensures IsInt(Wanted(pos, size, len)) && Wanted(pos, size, len) <= size - pos
  {
  }

  lemma GoesOnFront(pos: nat, size: nat, m: nat, done: nat)
    requires IsInt(size) && pos + m <= size && done <= m
    ensures done < ToUnsigned(m) && ToUnsigned(pos + done) < size <==> done < m
  {
    assert ToUnsigned(m) == m && ToUnsigned(pos + done) == pos + done;
  }

  /** The same for a negative number, where the end of a block is what stops it. */
  lemma GoesOnEnd(pos: nat, size: nat, m: int, done: nat)
    requires IsInt(pos) && IsInt(size) && IsInt(m) && m < 0
    requires var n := (if pos >= size then BlockEnd(pos) else BlockEnd(size - 1)) - pos;
             && Min(n, BLOCK_SIZE - pos % BLOCK_SIZE) <= done <= n && (done < n ==> (pos + done) % BLOCK_SIZE == 0)
    ensures var n := (if pos >= size then BlockEnd(pos) else BlockEnd(size - 1)) - pos;
            done < ToUnsigned(m) && ToUnsigned(pos + done) < size <==> done < n
  {
    assert ToUnsigned(m) == m + INT_RANGE;
    assert ToUnsigned(pos + done) == pos + done;
  }

  /** What is asked for as an unsigned number is not less than what is read. */
  lemma UnsignedLen(pos: nat, size: nat, len: int)
    requires IsInt(pos) && IsInt(size) && IsInt(len) && Wanted(pos, size, len) != 0
    ensures var (m, n) := (Wanted(pos, size, len), ReadLen(pos, size, len));
            n <= ToUnsigned(m) && (m > 0 ==> ToUnsigned(m) == n) && (m < 0 ==> (pos + n) % BLOCK_SIZE == 0)
  {
  }

  /** One more round, with block `k`. */
  lemma NextPart(pos: nat, size: nat, len: int, done: nat, k: nat)
    requires IsInt(pos) && IsInt(size) && IsInt(len) && Wanted(pos, size, len) != 0
    requires done < ReadLen(pos, size, len) && pos + done == k * BLOCK_SIZE
    ensures var n := ReadLen(pos, size, len);
            var part := Min(BLOCK_SIZE, ToUnsigned(Wanted(pos, size, len)) - done);
            && 0 < part <= n - done && k <= LastBlock(pos, size, len)
            && (if done + part < n then pos + done + part == (k + 1) * BLOCK_SIZE
                else k == LastBlock(pos, size, len))
  {
    hide Wanted, ReadLen, ToUnsigned;
    UnsignedLen(pos, size, len);
    hide IsInt;
  }

  lemma PositionIs(it: Iterator)
    requires it.Valid()
    ensures it.indexCnt < MAX3 && it.Position() == Code(it.indexCnt)
  {
    DecodeIsInverse(it.Position());
  }
}
