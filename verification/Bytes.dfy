/** Bytes of memory, of the disk and of messages; numbers are little-endian. */
module Bytes {
  newtype byte = x: int | 0 <= x < 256

  function ByteAt(mem: seq<byte>, p: nat): byte {
    if p < |mem| then mem[p] else 0
  }

  function U16At(mem: seq<byte>, p: nat): nat {
    ByteAt(mem, p) as nat + 0x100 * ByteAt(mem, p + 1) as nat
  }

  function U32At(mem: seq<byte>, p: nat): nat {
    ByteAt(mem, p) as nat + 0x100 * ByteAt(mem, p + 1) as nat + 0x1_0000 * ByteAt(mem, p + 2) as nat +
    0x100_0000 * ByteAt(mem, p + 3) as nat
  }

  function U16(v: nat): (r: seq<byte>)
    ensures |r| == 2
    ensures v < 0x1_0000 ==> U16At(r, 0) == v
  {
    [(v % 256) as byte, (v / 256 % 256) as byte]
  }

  function U32(v: nat): (r: seq<byte>)
    ensures |r| == 4
    ensures v < 0x1_0000_0000 ==> U32At(r, 0) == v
  {
    var (w, x, y) := (v / 0x100, v / 0x100 / 0x100, v / 0x100 / 0x100 / 0x100);
    Digits(v);
    [(v % 0x100) as byte, (w % 0x100) as byte, (x % 0x100) as byte, (y % 0x100) as byte]
  }

  lemma Digits(v: nat)
    ensures var (w, x, y) := (v / 0x100, v / 0x100 / 0x100, v / 0x100 / 0x100 / 0x100);
            v == v % 0x100 + 0x100 * (w % 0x100) + 0x1_0000 * (x % 0x100) + 0x100_0000 * y
            && (v < 0x1_0000_0000 ==> y < 0x100)
  {
  }

  /** The lowest byte comes first. */
  lemma LittleEndian()
    ensures U16At([1, 2], 0) == 0x0201 && U16(0x0201) == [1, 2]
    ensures U32At([1, 2, 3, 4], 0) == 0x0403_0201 && U32(0x0403_0201) == [1, 2, 3, 4]
  {
  }
}
