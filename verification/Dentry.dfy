/**
 Directory blocks of kernel/fs/ext2/ext2_dentry.cpp: `write_children` prints the entries of a directory
 into one block, `load_children` reads them back.
*/
module Dentry {
  import opened Bytes

  const NAME_LEN: nat := 255
  const HEADER: nat := 8
  // sizeof(DirEntry): the name array is padded to a multiple of four.
  const RECORD: nat := 264

  datatype Entry = Entry(inode: nat, kind: byte, name: seq<byte>)

  /** What the fields of an entry can hold; `strcpy` ends a name at its first zero byte. */
  ghost predicate EntryOk(e: Entry) {
    e.inode < 0x1_0000_0000 && |e.name| <= NAME_LEN && forall i :: 0 <= i < |e.name| ==> e.name[i] != 0
  }

  /** cal_name_len */
  function CalNameLen(s: nat): (r: nat)
    ensures s <= r < s + 4 && r % 4 == 0
  {
    if s % 4 == 0 then s else 4 - s % 4 + s
  }

  const U16_RANGE: nat := 0x1_0000

  /** The record length that write_children gives to an entry at offset `at`, in 16 bits; only the last one fills the block. */
  function RecLen(e: Entry, last: bool, at: nat, size: nat): (r: nat)
    ensures last || |e.name| <= NAME_LEN ==> r < U16_RANGE
    ensures last && at < size < U16_RANGE ==> r == size - at
  {
    if last then (size - at) % U16_RANGE else HEADER + CalNameLen(|e.name|)
  }

  /** `new_disk_entry` as it is in memory; what lies behind it on the stack is unknown (`junk`). */
  function Record(e: Entry, rec: nat, junk: seq<byte>): (r: seq<byte>)
    requires EntryOk(e)
    ensures |r| == RECORD - 1 + |junk|
  {
    U32(e.inode) + U16(rec) + [|e.name| as byte, e.kind] + e.name + seq(NAME_LEN - |e.name|, _ => 0 as byte) + junk
  }

  /** Every entry but the last is followed by room for another. */
  ghost predicate Room(list: seq<Entry>, at: nat, size: nat) {
    list != [] && at < size && (|list| > 1 ==> Room(list[1..], at + HEADER + CalNameLen(|list[0].name|), size))
  }

  /** The last entry has what is left of the block; its header and its name fit. */
  ghost predicate LastFits(list: seq<Entry>, at: nat, size: nat)
    requires list != []
  {
    if |list| == 1 then at + HEADER + |list[0].name| <= size
    else LastFits(list[1..], at + HEADER + CalNameLen(|list[0].name|), size)
  }

  ghost predicate EntriesOk(list: seq<Entry>) {
    forall e :: e in list ==> EntryOk(e)
  }

  /** What is written from offset `at` on. */
  ghost function Printed(list: seq<Entry>, at: nat, size: nat, junk: seq<byte>): (r: seq<byte>)
    requires EntriesOk(list) && |junk| >= U16_RANGE
    ensures Room(list, at, size) && size < U16_RANGE ==> |r| == size - at
    decreases |list|
  {
    if list == [] then []
    else
      RestOk(list);
      var rec := RecLen(list[0], |list| == 1, at, size);
      Record(list[0], rec, junk)[..rec] + Printed(list[1..], at + rec, size, junk)
  }

  lemma RestOk(list: seq<Entry>)
    requires EntriesOk(list) && list != []
    ensures EntryOk(list[0]) && |list[0].name| <= NAME_LEN && EntriesOk(list[1..])
  {
    assert list[0] in list;
    assert forall e :: e in list[1..] ==> e in list;
  }

  /** Inode, record length, length of the name, kind, and the name: the layout on disk. */
  lemma DiskExample()
    ensures var e := Entry(0x0403_0201, 7, [65, 66]);
            && EntryOk(e) && Record(e, 12, [])[..10] == [1, 2, 3, 4, 12, 0, 2, 7, 65, 66]
            && EntryAt([1, 2, 3, 4, 12, 0, 2, 7, 65, 66], 0) == e
  {
    LittleEndian();
    var e := Entry(0x0403_0201, 7, [65, 66]);
    assert U16(12) == [12, 0];
    var mem: seq<byte> := [1, 2, 3, 4, 12, 0, 2, 7, 65, 66];
    assert ByteAt(mem, 8) == 65 && ByteAt(mem, 9) == 66 && ByteAt(mem, 6) == 2;
    assert EntryAt(mem, 0).name == [65, 66];
    assert U32At(mem, 0) == 0x0403_0201;
  }

  lemma PrintedStep(list: seq<Entry>, at: nat, size: nat, junk: seq<byte>)
    requires EntriesOk(list) && |junk| >= U16_RANGE && list != []
    ensures EntryOk(list[0]) && |list[0].name| <= NAME_LEN && EntriesOk(list[1..])
    ensures var rec := RecLen(list[0], |list| == 1, at, size);
            rec <= RECORD - 1 + |junk|
            && Printed(list, at, size, junk) == Record(list[0], rec, junk)[..rec] + Printed(list[1..], at + rec, size, junk)
  {
    RestOk(list);
  }

  lemma PrintedNone(at: nat, size: nat, junk: seq<byte>)
    requires |junk| >= U16_RANGE
    ensures Printed([], at, size, junk) == []
  {
  }

  /** The entry that load_children sees at `at`. */
  function EntryAt(mem: seq<byte>, at: nat): Entry {
    Entry(U32At(mem, at), ByteAt(mem, at + 7),
          seq(ByteAt(mem, at + 6) as nat, i requires 0 <= i => ByteAt(mem, at + HEADER + i)))
  }

  /** The loop of load_children on the block in memory and what follows it; `size` is the size of the directory. */
  function Parsed(mem: seq<byte>, at: nat, size: nat): seq<Entry>
    decreases size - at
  {
    if at >= size || U16At(mem, at + 4) == 0 then []
    else [EntryAt(mem, at)] + Parsed(mem, at + U16At(mem, at + 4), size)
  }

  lemma RecordBytes(e: Entry, rec: nat, junk: seq<byte>)
    requires EntryOk(e)
    ensures var r := Record(e, rec, junk);
            r[..4] == U32(e.inode) && r[4..6] == U16(rec) && r[6] == |e.name| as byte && r[7] == e.kind
            && r[HEADER..HEADER + |e.name|] == e.name
  {
    hide U16, U32;
    var h := U32(e.inode) + U16(rec) + [|e.name| as byte, e.kind];
    var t := seq(NAME_LEN - |e.name|, _ => 0 as byte) + junk;
    assert Record(e, rec, junk) == h + e.name + t;
    assert |h| == HEADER;
    assert h[..4] == U32(e.inode) && h[4..6] == U16(rec);
    assert (h + e.name + t)[..HEADER] == h;
  }

  lemma Numbers(mem: seq<byte>, at: nat, part: seq<byte>)
    requires at + |part| <= |mem| && mem[at..at + |part|] == part
    ensures |part| == 2 ==> U16At(mem, at) == U16At(part, 0)
    ensures |part| == 4 ==> U32At(mem, at) == U32At(part, 0)
  {
    assert forall i :: 0 <= i < |part| ==> mem[at + i] == part[i];
  }

  lemma RecordAt(e: Entry, rec: nat, junk: seq<byte>, n: nat, mem: seq<byte>, at: nat)
    requires EntryOk(e) && rec < 0x1_0000 && HEADER + |e.name| <= n <= RECORD - 1 + |junk|
    requires at + n <= |mem| && mem[at..at + n] == Record(e, rec, junk)[..n]
    ensures EntryAt(mem, at) == e && U16At(mem, at + 4) == rec
  {
    hide U16, U32, U16At, U32At, Record;
    var r := Record(e, rec, junk);
    RecordBytes(e, rec, junk);
    forall i | 0 <= i < n
      ensures mem[at + i] == r[i]
    {
      assert mem[at..at + n][i] == r[..n][i];
    }
    assert mem[at..at + 4] == r[..4] == U32(e.inode);
    assert mem[at + 4..at + 6] == r[4..6] == U16(rec);
    Numbers(mem, at, U32(e.inode));
    Numbers(mem, at + 4, U16(rec));
    forall i | 0 <= i < |e.name|
      ensures ByteAt(mem, at + HEADER + i) == e.name[i]
    {
      assert r[HEADER..HEADER + |e.name|][i] == r[HEADER + i];
    }
    assert EntryAt(mem, at).name == e.name;
  }

  /** The first entry of what was printed is read back if its name was printed whole. */
  lemma FirstRead(list: seq<Entry>, at: nat, size: nat, junk: seq<byte>, mem: seq<byte>)
    requires Room(list, at, size) && EntriesOk(list) && |junk| >= U16_RANGE && size < U16_RANGE
    requires size <= |mem| && mem[at..size] == Printed(list, at, size, junk)
    requires |list| == 1 ==> LastFits(list, at, size)
    ensures U16At(mem, at + 4) == RecLen(list[0], |list| == 1, at, size) > 0 && at < size
    ensures Parsed(mem, at, size) == [list[0]] + Parsed(mem, at + RecLen(list[0], |list| == 1, at, size), size)
    ensures |list| > 1 ==>
              var at' := at + RecLen(list[0], false, at, size);
              EntriesOk(list[1..]) && at' <= size && mem[at'..size] == Printed(list[1..], at', size, junk)
  {
    hide Record, EntryAt, U16At, EntryOk, EntriesOk, Printed;
    PrintedStep(list, at, size, junk);
    var e, last := list[0], |list| == 1;
    var rec := RecLen(e, last, at, size);
    var whole, first := mem[at..size], Record(e, rec, junk)[..rec];
    assert whole[..rec] == first && mem[at..at + rec] == whole[..rec];
    RecordAt(e, rec, junk, rec, mem, at);
    if !last {
      assert mem[at + rec..size] == whole[rec..] == Printed(list[1..], at + rec, size, junk);
    }
  }

  /** What was printed is read back, whatever is in memory behind the block and behind the printed record. */
  lemma {:induction false} RoundTripFrom(list: seq<Entry>, at: nat, size: nat, junk: seq<byte>, mem: seq<byte>)
    requires Room(list, at, size) && LastFits(list, at, size) && EntriesOk(list) && |junk| >= U16_RANGE && size < U16_RANGE
    requires size <= |mem| && mem[at..size] == Printed(list, at, size, junk)
    ensures Parsed(mem, at, size) == list
    decreases |list|
  {
    hide Printed, EntriesOk;
    FirstRead(list, at, size, junk, mem);
    if |list| > 1 {
      RoundTripFrom(list[1..], at + RecLen(list[0], false, at, size), size, junk, mem);
    } else {
      assert Parsed(mem, size, size) == [];
    }
    assert list == [list[0]] + list[1..];
  }

  /** The rec_len fields that the parser meets. */
  ghost function RecLens(mem: seq<byte>, at: nat, size: nat): seq<nat>
    decreases size - at
  {
    if at >= size || U16At(mem, at + 4) == 0 then []
    else [U16At(mem, at + 4)] + RecLens(mem, at + U16At(mem, at + 4), size)
  }

  ghost function Sum(s: seq<nat>): nat {
    if s == [] then 0 else s[0] + Sum(s[1..])
  }

  /** In a printed block there is one rec_len for each entry, and they sum to the block size. */
  lemma {:induction false} RecLensSum(list: seq<Entry>, at: nat, size: nat, junk: seq<byte>, mem: seq<byte>)
    requires Room(list, at, size) && LastFits(list, at, size) && EntriesOk(list) && |junk| >= U16_RANGE && size < U16_RANGE
    requires size <= |mem| && mem[at..size] == Printed(list, at, size, junk)
    ensures |RecLens(mem, at, size)| == |list| && Sum(RecLens(mem, at, size)) == size - at
    decreases |list|
  {
    hide Printed, EntriesOk, Parsed, U16At;
    FirstRead(list, at, size, junk, mem);
    var rec := RecLen(list[0], |list| == 1, at, size);
    if |list| > 1 {
      RecLensSum(list[1..], at + rec, size, junk, mem);
    } else {
      assert RecLens(mem, size, size) == [];
    }
    assert RecLens(mem, at, size)[1..] == RecLens(mem, at + rec, size);
  }

  // ---------------------------------------------------------------------------------------------
  // A last entry that does not fit
  // ---------------------------------------------------------------------------------------------

  ghost function LastAt(list: seq<Entry>, at: nat): nat
    requires list != []
  {
    if |list| == 1 then at else LastAt(list[1..], at + HEADER + CalNameLen(|list[0].name|))
  }

  /** The position of a byte of the record of `e` that is not among the first `k` and that matters. */
  ghost function Spoiled(e: Entry, k: nat): (j: nat)
    requires k < HEADER + |e.name|
    ensures k <= j < HEADER + |e.name| || j == 7 >= k
  {
    if k < HEADER then 7 else HEADER + |e.name| - 1
  }

  /** Bytes behind the block that complete the record, but for one byte. */
  ghost function Behind(e: Entry, k: nat): (r: seq<byte>)
    requires EntryOk(e) && k < HEADER + |e.name|
    ensures |r| == RECORD - 1 - k
  {
    var full := Record(e, k, []);
    var j := Spoiled(e, k);
    full[k..][j - k := if full[j] == 0 then 1 else 0]
  }

  lemma JunkBehind(e: Entry, rec: nat, junk: seq<byte>)
    requires EntryOk(e)
    ensures Record(e, rec, junk) == Record(e, rec, []) + junk
  {
    hide U16, U32, EntryOk;
  }

  lemma SpoiledRead(e: Entry, k: nat, junk: seq<byte>, mem: seq<byte>, at: nat)
    requires EntryOk(e) && 0 < k < HEADER + |e.name|
    requires at + RECORD - 1 <= |mem|
    requires mem[at..at + k] == Record(e, k, junk)[..k] && mem[at + k..at + RECORD - 1] == Behind(e, k)
    ensures EntryAt(mem, at) != e && U16At(mem, at + 4) == k
  {
    hide U16, U32, Record, EntryOk;
    JunkBehind(e, k, junk);
    RecordBytes(e, k, []);
    var full, j := Record(e, k, []), Spoiled(e, k);
    forall i | 0 <= i < RECORD - 1
      ensures mem[at + i] == if i == j then (if full[j] == 0 then 1 else 0) else full[i]
    {
      if i < k {
        assert mem[at + i] == mem[at..at + k][i] == full[i];
      } else {
        assert mem[at + i] == mem[at + k..at + RECORD - 1][i - k];
      }
    }
    assert mem[at + 4] == full[4] && mem[at + 5] == full[5];
    assert mem[at + 4..at + 6] == [full[4], full[5]] == full[4..6];
    Numbers(mem, at + 4, U16(k));
    if j == 7 {
      assert EntryAt(mem, at).kind != e.kind;
    } else {
      var i := |e.name| - 1;
      assert full[j] == full[HEADER..HEADER + |e.name|][i] == e.name[i];
      assert mem[at + j] == ByteAt(mem, at + HEADER + i);
      NameDiffers(mem, at, e, i);
    }
  }

  lemma NameDiffers(mem: seq<byte>, at: nat, e: Entry, i: nat)
    requires i < |e.name| && ByteAt(mem, at + 6) as nat == |e.name| && ByteAt(mem, at + HEADER + i) != e.name[i]
    ensures EntryAt(mem, at) != e
  {
    assert EntryAt(mem, at).name[i] == ByteAt(mem, at + HEADER + i);
  }

  lemma {:induction false} TruncatedFrom(list: seq<Entry>, at: nat, size: nat, junk: seq<byte>, mem: seq<byte>)
    requires Room(list, at, size) && !LastFits(list, at, size) && EntriesOk(list) && |junk| >= U16_RANGE && size < U16_RANGE
    requires size <= |mem| && mem[at..size] == Printed(list, at, size, junk)
    requires LastAt(list, at) < size && size - LastAt(list, at) < HEADER + |list[|list| - 1].name| && EntryOk(list[|list| - 1])
    requires mem[size..] == Behind(list[|list| - 1], size - LastAt(list, at))
    ensures Parsed(mem, at, size) != list
    decreases |list|
  {
    hide Printed, Record, Behind, EntryAt, EntryOk;
    if |list| == 1 {
      PrintedOne(list, at, size, junk);
      var k := size - at;
      assert mem[at + k..at + RECORD - 1] == mem[size..];
      SpoiledRead(list[0], k, junk, mem, at);
      assert Parsed(mem, at, size)[0] == EntryAt(mem, at);
    } else {
      FirstRead(list, at, size, junk, mem);
      var rest, at' := list[1..], at + RecLen(list[0], false, at, size);
      assert rest[|rest| - 1] == list[|list| - 1];
      TruncatedFrom(rest, at', size, junk, mem);
      assert Parsed(mem, at, size)[1..] == Parsed(mem, at', size);
    }
  }

  lemma PrintedOne(list: seq<Entry>, at: nat, size: nat, junk: seq<byte>)
    requires Room(list, at, size) && EntriesOk(list) && |junk| >= U16_RANGE && |list| == 1 && size < U16_RANGE
    ensures EntryOk(list[0]) && Printed(list, at, size, junk) == Record(list[0], size - at, junk)[..size - at]
  {
    hide Record, EntryOk, EntriesOk;
    PrintedStep(list, at, size, junk);
    PrintedNone(size, size, junk);
    assert list[1..] == [];
  }

  lemma {:induction false} LastAtIs(list: seq<Entry>, at: nat, size: nat)
    requires Room(list, at, size)
    ensures LastAt(list, at) < size
    ensures LastFits(list, at, size) <==> LastAt(list, at) + HEADER + |list[|list| - 1].name| <= size
    decreases |list|
  {
    if |list| > 1 {
      LastAtIs(list[1..], at + HEADER + CalNameLen(|list[0].name|), size);
    }
  }

  /**
   A directory that write_children prints into one block is read back, whatever lies behind the block,
   exactly if the last entry fits what the others leave of the block; the code does not look.
  */
  lemma ReadsBackIff(list: seq<Entry>, size: nat, junk: seq<byte>)
    requires Room(list, 0, size) && EntriesOk(list) && |junk| >= U16_RANGE && size < U16_RANGE
    ensures (forall behind: seq<byte> :: Parsed(Printed(list, 0, size, junk) + behind, 0, size) == list) <==> LastFits(list, 0, size)
  {
    hide Parsed, Printed, Room, LastFits, LastAt, EntriesOk;
    var p := Printed(list, 0, size, junk);
    PrintedSize(list, size, junk);
    if LastFits(list, 0, size) {
      forall behind: seq<byte>
        ensures Parsed(p + behind, 0, size) == list
      {
        assert (p + behind)[0..size] == p;
        RoundTripFrom(list, 0, size, junk, p + behind);
      }
    } else {
      LastAtIs(list, 0, size);
      LastOk(list);
      var behind := Behind(list[|list| - 1], size - LastAt(list, 0));
      assert (p + behind)[0..size] == p && (p + behind)[size..] == behind;
      TruncatedFrom(list, 0, size, junk, p + behind);
      assert Parsed(p + behind, 0, size) != list;
    }
  }

  lemma PrintedSize(list: seq<Entry>, size: nat, junk: seq<byte>)
    requires Room(list, 0, size) && EntriesOk(list) && |junk| >= U16_RANGE && size < U16_RANGE
    ensures |Printed(list, 0, size, junk)| == size && list != []
  {
  }

  lemma LastOk(list: seq<Entry>)
    requires EntriesOk(list) && list != []
    ensures EntryOk(list[|list| - 1])
  {
  }

  // ---------------------------------------------------------------------------------------------
  // Several blocks
  // ---------------------------------------------------------------------------------------------

  /** Where the loop of load_children stops in one block. */
  function Consumed(mem: seq<byte>, at: nat, size: nat): (r: nat)
    ensures r >= at
    decreases size - at
  {
    if at >= size || U16At(mem, at + 4) == 0 then at else Consumed(mem, at + U16At(mem, at + 4), size)
  }

  /** The outer loop: what is left of the directory's size decides when a block is done, not the end of the block. */
  function ParsedBlocks(blocks: seq<seq<byte>>, behind: seq<byte>, size: nat): seq<Entry> {
    if blocks == [] then []
    else
      var used := Consumed(blocks[0] + behind, 0, size);
      Parsed(blocks[0] + behind, 0, size) + ParsedBlocks(blocks[1..], behind, if used < size then size - used else 0)
  }

  /** The entries of each block by itself. */
  ghost function EachBlock(blocks: seq<seq<byte>>): seq<Entry> {
    if blocks == [] then [] else Parsed(blocks[0], 0, |blocks[0]|) + EachBlock(blocks[1..])
  }

  /** Records fill the block exactly, and lie inside it. */
  ghost predicate Filled(block: seq<byte>, at: nat)
    decreases |block| - at
  {
    at == |block|
    || (at + HEADER <= |block| && U16At(block, at + 4) > 0 && at + HEADER + ByteAt(block, at + 6) as nat <= |block|
        && Filled(block, at + U16At(block, at + 4)))
  }

  ghost predicate AllFilled(blocks: seq<seq<byte>>, size: nat) {
    if blocks == [] then size == 0
    else |blocks[0]| <= size && Filled(blocks[0], 0) && AllFilled(blocks[1..], size - |blocks[0]|)
  }

  /** Inside a filled block the loop reads the block; at its end it goes on if the size is not reached. */
  lemma {:induction false} ParsedFilled(block: seq<byte>, behind: seq<byte>, at: nat, size: nat)
    requires Filled(block, at) && |block| <= size
    ensures Parsed(block + behind, at, size) == Parsed(block, at, |block|) + Parsed(block + behind, |block|, size)
    ensures Consumed(block + behind, at, size) == Consumed(block + behind, |block|, size)
    decreases |block| - at
  {
    hide U16At, U32At, ByteAt;
    if at < |block| {
      SameRecord(block, behind, at);
      ParsedFilled(block, behind, at + U16At(block, at + 4), size);
    }
  }

  lemma SameRecord(block: seq<byte>, behind: seq<byte>, at: nat)
    requires at + HEADER + ByteAt(block, at + 6) as nat <= |block|
    ensures U16At(block + behind, at + 4) == U16At(block, at + 4) && EntryAt(block + behind, at) == EntryAt(block, at)
  {
    var mem := block + behind;
    assert forall j :: at <= j < at + HEADER + ByteAt(block, at + 6) as nat ==> ByteAt(mem, j) == ByteAt(block, j);
    assert EntryAt(mem, at).name == EntryAt(block, at).name;
  }

  lemma OneBlock(block: seq<byte>, behind: seq<byte>, size: nat)
    requires Filled(block, 0) && |block| <= size && (|block| < size ==> U16At(behind, 4) == 0)
    ensures Parsed(block + behind, 0, size) == Parsed(block, 0, |block|) && Consumed(block + behind, 0, size) == |block|
  {
    hide U16At;
    ParsedFilled(block, behind, 0, size);
    BehindBlock(block, behind);
    assert Parsed(block, 0, |block|) + [] == Parsed(block, 0, |block|);
  }

  /**
   A directory of filled blocks is read block by block if it has one block, or if the memory behind the
   buffer happens to hold a zero where the next record length would be: only that stops the inner loop at
   the end of a block before the last.
  */
  lemma {:induction false} BlockByBlock(blocks: seq<seq<byte>>, behind: seq<byte>, size: nat)
    requires AllFilled(blocks, size) && (|blocks| > 1 ==> U16At(behind, 4) == 0)
    ensures ParsedBlocks(blocks, behind, size) == EachBlock(blocks)
  {
    hide U16At, Parsed, Consumed, Filled;
    if blocks != [] {
      OneBlock(blocks[0], behind, size);
      BlockByBlock(blocks[1..], behind, size - |blocks[0]|);
    }
  }

  /** Otherwise, with more than one block, the entry after those of the first block is taken from behind the buffer. */
  lemma RunsPastBlock(block: seq<byte>, behind: seq<byte>, size: nat)
    requires Filled(block, 0) && |block| < size && U16At(behind, 4) != 0
    ensures Parsed(block, 0, |block|) + [EntryAt(behind, 0)] <= Parsed(block + behind, 0, size)
  {
    hide U32At, ByteAt;
    ParsedFilled(block, behind, 0, size);
    BehindBlock(block, behind);
    var mem, n := block + behind, |block|;
    assert Parsed(mem, n, size) == [EntryAt(behind, 0)] + Parsed(mem, n + U16At(behind, 4), size);
  }

  /** An empty entry for inode `v`, one byte long: what may happen to lie behind the buffer. */
  function Stray(v: byte): seq<byte> {
    [v, 0, 0, 0, 1, 0, 0, 0]
  }

  lemma StrayIs(v: byte)
    ensures EntryAt(Stray(v), 0) == Entry(v as nat, 0, []) && U16At(Stray(v), 4) == 1
  {
  }

  /**
   A directory of filled blocks is read as it is on disk, whatever lies behind the buffer, exactly if the
   first block holds all of it.
  */
  lemma ReadsBlocksIff(blocks: seq<seq<byte>>, size: nat)
    requires AllFilled(blocks, size) && blocks != []
    ensures (forall behind: seq<byte> :: ParsedBlocks(blocks, behind, size) == EachBlock(blocks)) <==>
            size == |blocks[0]|
  {
    hide Parsed, Consumed, Filled;
    if size == |blocks[0]| {
      forall behind: seq<byte>
        ensures ParsedBlocks(blocks, behind, size) == EachBlock(blocks)
      {
        OneBlock(blocks[0], behind, size);
        NothingLeft(blocks[1..], behind);
      }
    } else {
      var next := EachBlock(blocks[1..]);
      var v: byte := if next != [] && next[0].inode == 0 then 1 else 0;
      var behind := Stray(v);
      StrayIs(v);
      RunsPastBlock(blocks[0], behind, size);
      var k := |Parsed(blocks[0], 0, |blocks[0]|)|;
      assert ParsedBlocks(blocks, behind, size)[k] == EntryAt(behind, 0);
      assert next != [] ==> EachBlock(blocks)[k] == next[0];
      assert ParsedBlocks(blocks, behind, size) != EachBlock(blocks);
    }
  }

  /** Once the size is reached, no block gives an entry. */
  lemma {:induction false} NothingLeft(blocks: seq<seq<byte>>, behind: seq<byte>)
    requires AllFilled(blocks, 0)
    ensures ParsedBlocks(blocks, behind, 0) == EachBlock(blocks) == []
  {
    if blocks != [] {
      NothingLeft(blocks[1..], behind);
    }
  }

  /** Two blocks with one entry each: the second entry read is not the one on disk. */
  lemma TwoBlocksExample()
    ensures var block: seq<byte> := [5, 0, 0, 0, 8, 0, 0, 2];
            && AllFilled([block, block], 16)
            && EachBlock([block, block]) == [Entry(5, 2, []), Entry(5, 2, [])]
            && |ParsedBlocks([block, block], Stray(1), 16)| > 1
            && ParsedBlocks([block, block], Stray(1), 16)[1] == Entry(1, 0, [])
  {
    var block: seq<byte> := [5, 0, 0, 0, 8, 0, 0, 2];
    assert U16At(block, 4) == 8 && EntryAt(block, 0) == Entry(5, 2, []);
    assert Filled(block, 8);
    assert [block, block][1..] == [block] && [block][1..] == [];
    assert AllFilled([block], 8);
    assert Parsed(block, 8, 8) == [];
    assert EachBlock([block]) == Parsed(block, 0, 8);
    StrayIs(1);
    RunsPastBlock(block, Stray(1), 16);
  }

  lemma BehindBlock(block: seq<byte>, behind: seq<byte>)
    ensures EntryAt(block + behind, |block|) == EntryAt(behind, 0) && U16At(block + behind, |block| + 4) == U16At(behind, 4)
  {
    var mem, n := block + behind, |block|;
    assert forall i: nat :: ByteAt(mem, n + i) == ByteAt(behind, i);
    assert EntryAt(mem, n).name == EntryAt(behind, 0).name;
  }

  // ---------------------------------------------------------------------------------------------
  // The code
  // ---------------------------------------------------------------------------------------------

  /** write_children: what goes to the file; `junk` is what lies behind the record on the stack. */
  method WriteChildren(children: seq<Entry>, size: nat, junk: seq<byte>) returns (written: seq<byte>)
    requires EntriesOk(children) && |junk| >= U16_RANGE
    ensures written == Printed(children, 0, size, junk)
  {
    hide Record, EntryOk, Printed, EntriesOk;
    written := [];
    var allLength: nat, cnt: nat := 0, 0;
    assert children[0..] == children;
    while cnt < |children|
      invariant 0 <= cnt <= |children| && EntriesOk(children[cnt..])
      invariant Printed(children, 0, size, junk) == written + Printed(children[cnt..], allLength, size, junk)
    {
      var e := children[cnt];
      ghost var rest := children[cnt..];
      assert rest[0] == e && rest[1..] == children[cnt + 1..];
      PrintedStep(rest, allLength, size, junk);
      var recLen := if cnt == |children| - 1 then (size - allLength) % U16_RANGE else HEADER + CalNameLen(|e.name|);
      written := written + Record(e, recLen, junk)[..recLen];
      cnt := cnt + 1;
      allLength := allLength + recLen;
    }
    assert children[cnt..] == [];
    PrintedNone(allLength, size, junk);
    assert written + [] == written;
  }

  /**
   load_children of a directory of `size` bytes: every block is read into the same buffer, and `behind` is
   what follows the buffer in memory.
  */
  method LoadChildren(blocks: seq<seq<byte>>, behind: seq<byte>, size: nat) returns (children: seq<Entry>)
    ensures children == ParsedBlocks(blocks, behind, size)
  {
    hide Parsed, Consumed;
    children := [];
    var allLength, i := 0, 0;
    assert blocks[0..] == blocks;
    while i < |blocks|
      invariant 0 <= i <= |blocks|
      invariant ParsedBlocks(blocks, behind, size) ==
                children + ParsedBlocks(blocks[i..], behind, if allLength < size then size - allLength else 0)
    {
      ghost var rest := blocks[i..];
      assert rest[0] == blocks[i] && rest[1..] == blocks[i + 1..];
      var found, used := LoadBlock(blocks[i] + behind, if allLength < size then size - allLength else 0);
      children := children + found;
      allLength := allLength + used;
      i := i + 1;
    }
    assert blocks[i..] == [];
  }

  /** The inner loop, for one block. */
  method LoadBlock(mem: seq<byte>, size: nat) returns (children: seq<Entry>, pos: nat)
    ensures children == Parsed(mem, 0, size) && pos == Consumed(mem, 0, size)
  {
    children, pos := [], 0;
    while pos < size
      invariant Parsed(mem, 0, size) == children + Parsed(mem, pos, size)
      invariant Consumed(mem, 0, size) == Consumed(mem, pos, size)
      decreases size - pos
    {
      var recLen := U16At(mem, pos + 4);
      if recLen == 0 {
        break;
      }
      children := children + [EntryAt(mem, pos)];
      pos := pos + recLen;
    }
  }
}
