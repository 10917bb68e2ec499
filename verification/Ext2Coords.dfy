/**
 Where the ext2 iterator of kernel/fs/ext2/ext2_inode.cpp stands: a level and one index for each
 level of indirection, as a mixed-radix code of the block number.  Blocks are 1024 bytes, so an
 index block holds 256 block numbers, which is also the number that the code has built in.
*/
module Ext2Coords {
  const DIRECT: nat := 12
  const FAN: nat := 256
  const MAX1: nat := 268              // 12 + 256
  const MAX2: nat := 65804            // ... + 256^2
  const MAX3: nat := 16843020         // ... + 256^3

  /** `level` and `indexs`; the indexes beyond the level are not part of the position. */
  datatype Coord = Coord(level: nat, idx: seq<nat>)

  ghost predicate Four(c: Coord) {
    |c.idx| == 4 && c.level <= 3
  }

  // sub_blocks_in_block
  function Sub(t: nat): nat {
    if t == 0 then DIRECT else FAN
  }

  /** The position of block `n`. */
  function Code(n: nat): (c: Coord)
    requires n < MAX3
    ensures |c.idx| == 4 && c.level <= 3
  {
    if n < DIRECT then Coord(0, [n, 0, 0, 0])
    else if n < MAX1 then Coord(1, [12, n - DIRECT, 0, 0])
    else if n < MAX2 then Coord(2, [13, (n - MAX1) / FAN, (n - MAX1) % FAN, 0])
    else Coord(3, [14, (n - MAX2) / (FAN * FAN), (n - MAX2) / FAN % FAN, (n - MAX2) % FAN])
  }

  /** getInstance as coded: the third index at level 3 is not reduced modulo 256. */
  function GetInstance(n: nat): (c: Coord)
    requires n < MAX3
    ensures |c.idx| == 4 && c.level <= 3
  {
    if n < DIRECT then Coord(0, [n, 0, 0, 0])
    else if n < MAX1 then Coord(1, [12, n - DIRECT, 0, 0])
    else if n < MAX2 then Coord(2, [13, (n - MAX1) / FAN, (n - MAX1) % FAN, 0])
    else Coord(3, [14, (n - MAX2) / (FAN * FAN), (n - MAX2) / FAN, (n - MAX2) % FAN])
  }

  /** The positions that an iterator may take, with nothing left behind beyond the level. */
  ghost predicate Proper(c: Coord) {
    && |c.idx| == 4
    && match c.level
       case 0 => c.idx[0] < DIRECT && c.idx[1..] == [0, 0, 0]
       case 1 => c.idx[0] == 12 && c.idx[1] < FAN && c.idx[2..] == [0, 0]
       case 2 => c.idx[0] == 13 && c.idx[1] < FAN && c.idx[2] < FAN && c.idx[3] == 0
       case 3 => c.idx[0] == 14 && c.idx[1] < FAN && c.idx[2] < FAN && c.idx[3] < FAN
       case _ => false
  }

  function Decode(c: Coord): nat
    requires Four(c)
  {
    if c.level == 0 then c.idx[0]
    else if c.level == 1 then DIRECT + c.idx[1]
    else if c.level == 2 then MAX1 + c.idx[1] * FAN + c.idx[2]
    else MAX2 + (c.idx[1] * FAN + c.idx[2]) * FAN + c.idx[3]
  }

  /** Two positions are the same up to their common level. */
  ghost predicate Agree(c: Coord, d: Coord) {
    Four(c) && Four(d) && c.level == d.level && forall t :: 0 <= t <= c.level ==> c.idx[t] == d.idx[t]
  }

  /** The carry loop of operator++, from level `t` down. */
  function Carry(idx: seq<nat>, t: nat): (r: (seq<nat>, nat))
    requires |idx| == 4 && t <= 3
    ensures |r.0| == 4 && r.1 <= t
    decreases t
  {
    if t > 0 && idx[t] >= Sub(t) then Carry(idx[t - 1 := idx[t - 1] + 1][t := 0], t - 1) else (idx, t)
  }

  /** operator++ on the position. */
  function Next(c: Coord): (r: Coord)
    requires Four(c)
    ensures |r.idx| == 4
  {
    var idx := c.idx[c.level := c.idx[c.level] + 1];
    if idx[c.level] >= Sub(c.level) then
      var (idx', t) := Carry(idx, c.level);
      Coord(if t == 0 then c.level + 1 else c.level, idx')
    else Coord(c.level, idx)
  }

  /** The borrow loop of operator--, from level `t` down; -1 if every index was zero. */
  function Borrow(idx: seq<nat>, t: int): (r: (seq<nat>, int))
    requires |idx| == 4 && -1 <= t <= 3
    ensures |r.0| == 4 && -1 <= r.1 <= t && (r.1 >= 0 ==> r.0[r.1] > 0)
    decreases t + 1
  {
    if t >= 0 && idx[t] == 0 then Borrow(idx[t := Sub(t) - 1], t - 1) else (idx, t)
  }

  /** operator-- on the position of a block other than the first. */
  function Prev(c: Coord): (r: Coord)
    requires Four(c) && c.idx[0] > 0
    ensures |r.idx| == 4
  {
    var (idx, t) := Borrow(c.idx, c.level);
    BorrowStops(c.idx, c.level);
    var idx' := idx[t := idx[t] - 1];
    Coord(if t != 0 then c.level else if idx'[0] < 12 then 0 else idx'[0] - 11, idx')
  }

  lemma {:induction false} BorrowStops(idx: seq<nat>, t: int)
    requires |idx| == 4 && 0 <= t <= 3 && idx[0] > 0
    ensures Borrow(idx, t).1 >= 0
    decreases t
  {
    if t > 0 && idx[t] == 0 {
      BorrowStops(idx[t := Sub(t) - 1], t - 1);
    }
  }

  // ---------------------------------------------------------------------------------------------
  // The code is bijective
  // ---------------------------------------------------------------------------------------------

  lemma CodeIsProper(n: nat)
    requires n < MAX3
    ensures Proper(Code(n)) && Decode(Code(n)) == n
  {
    if n >= MAX2 {
      var m := n - MAX2;
      assert m / (FAN * FAN) == m / FAN / FAN;
      assert m / FAN == m / FAN / FAN * FAN + m / FAN % FAN;
      assert m == m / FAN * FAN + m % FAN;
    }
  }

  lemma DecodeIsInverse(c: Coord)
    requires Proper(c)
    ensures Four(c) && Decode(c) < MAX3 && Code(Decode(c)) == c
  {
    if c.level == 3 {
      var m := Decode(c) - MAX2;
      Split(c.idx[1] * FAN + c.idx[2], c.idx[3], m);
      Split(c.idx[1], c.idx[2], m / FAN);
      assert m / (FAN * FAN) == m / FAN / FAN;
      assert Code(Decode(c)).idx == c.idx;
    } else if c.level == 2 {
      Split(c.idx[1], c.idx[2], Decode(c) - MAX1);
      assert Code(Decode(c)).idx == c.idx;
    } else {
      assert Code(Decode(c)).idx == c.idx;
    }
  }

  lemma Split(q: nat, r: nat, m: nat)
    requires r < FAN && m == q * FAN + r
    ensures m / FAN == q && m % FAN == r
  {
  }

  /** getInstance gives the code of its block exactly below 12 + 256 + 65536 + 65536. */
  lemma GetInstanceExact(n: nat)
    requires n < MAX3
    ensures GetInstance(n) == Code(n) <==> n < MAX2 + FAN * FAN
  {
    if n >= MAX2 {
      var m := n - MAX2;
      assert m / FAN % FAN == m / FAN <==> m / FAN < FAN;
      if m / FAN != m / FAN % FAN {
        assert GetInstance(n).idx[2] != Code(n).idx[2];
      }
    }
  }

  // ---------------------------------------------------------------------------------------------
  // operator++
  // ---------------------------------------------------------------------------------------------

  lemma CarryStep(idx: seq<nat>, t: nat)
    requires |idx| == 4 && 0 < t <= 3
    ensures Carry(idx, t) ==
            if idx[t] >= FAN then Carry(idx[t - 1 := idx[t - 1] + 1][t := 0], t - 1) else (idx, t)
  {
  }

  lemma CarryTop(idx: seq<nat>)
    requires |idx| == 4
    ensures Carry(idx, 0) == (idx, 0)
  {
  }

  /** On a proper position, operator++ goes to the next block, across every level boundary. */
  lemma NextIsSuccessor(c: Coord)
    requires Proper(c) && Decode(c) + 1 < MAX3
    ensures Proper(Next(c)) && Decode(Next(c)) == Decode(c) + 1
  {
    hide Carry;
    var l := c.level;
    var a := c.idx[l := c.idx[l] + 1];
    CarryTop(a);
    if l == 1 {
      CarryStep(a, 1);
      CarryTop([13, 0, 0, 0]);
      assert a[1] == FAN ==> a[0 := 13][1 := 0] == [13, 0, 0, 0];
    } else if l == 2 {
      NextAtTwo(c, a);
    } else if l == 3 {
      NextAtThree(c, a);
    }
  }

  lemma NextAtTwo(c: Coord, a: seq<nat>)
    requires Proper(c) && c.level == 2 && a == c.idx[2 := c.idx[2] + 1]
    ensures Proper(Next(c)) && Decode(Next(c)) == Decode(c) + 1
  {
    hide Carry;
    CarryStep(a, 2);
    var b: seq<nat> := [13, c.idx[1] + 1, 0, 0];
    CarryStep(b, 1);
    CarryTop([14, 0, 0, 0]);
    assert a[2] == FAN ==> a[1 := a[1] + 1][2 := 0] == b;
    assert b[1] == FAN ==> b[0 := 14][1 := 0] == [14, 0, 0, 0];
  }

  lemma NextAtThree(c: Coord, a: seq<nat>)
    requires Proper(c) && c.level == 3 && a == c.idx[3 := c.idx[3] + 1]
    requires Decode(c) + 1 < MAX3
    ensures Proper(Next(c)) && Decode(Next(c)) == Decode(c) + 1
  {
    hide Carry;
    CarryStep(a, 3);
    var b: seq<nat> := [14, c.idx[1], c.idx[2] + 1, 0];
    CarryStep(b, 2);
    var d: seq<nat> := [14, c.idx[1] + 1, 0, 0];
    CarryStep(d, 1);
    assert a[3] == FAN ==> a[2 := a[2] + 1][3 := 0] == b;
    assert b[2] == FAN ==> b[1 := b[1] + 1][2 := 0] == d;
  }

  /** Past the last block that triple indirection reaches, the level becomes 4 (the code asserts). */
  lemma NextAtEnd(c: Coord)
    requires Proper(c) && Decode(c) + 1 == MAX3
    ensures Next(c).level == 4
  {
    hide Carry;
    var a: seq<nat> := [14, 255, 255, 256];
    assert c.idx[3 := c.idx[3] + 1] == a;
    CarryStep(a, 3);
    assert a[2 := a[2] + 1][3 := 0] == [14, 255, 256, 0];
    CarryStep([14, 255, 256, 0], 2);
    assert [14, 255, 256, 0][1 := 256][2 := 0] == [14, 256, 0, 0];
    CarryStep([14, 256, 0, 0], 1);
    assert [14, 256, 0, 0][0 := 15][1 := 0] == [15, 0, 0, 0];
    CarryTop([15, 0, 0, 0]);
  }

  function NextN(c: Coord, k: nat): (r: Coord)
    requires Four(c)
    ensures |r.idx| == 4
  {
    if k == 0 then c else var p := NextN(c, k - 1); if p.level <= 3 then Next(p) else p
  }

  /** `k` steps forward from block `n` reach block `n + k`. */
  lemma {:induction false} Forward(n: nat, k: nat)
    requires n + k < MAX3
    ensures NextN(Code(n), k) == Code(n + k)
  {
    hide Code, Next, Decode, Proper;
    if k > 0 {
      Forward(n, k - 1);
      var c := Code(n + k - 1);
      CodeIsProper(n + k - 1);
      NextIsSuccessor(c);
      DecodeIsInverse(Next(c));
    }
  }

  // ---------------------------------------------------------------------------------------------
  // operator--
  // ---------------------------------------------------------------------------------------------

  lemma BorrowStep(idx: seq<nat>, t: nat)
    requires |idx| == 4 && t <= 3
    ensures Borrow(idx, t) == if idx[t] == 0 then Borrow(idx[t := Sub(t) - 1], t - 1) else (idx, t)
  {
  }

  /** operator-- goes to the previous block, whatever is left behind beyond the level. */
  lemma PrevIsPredecessor(c: Coord, n: nat)
    requires 0 < n < MAX3 && Agree(c, Code(n))
    ensures c.idx[0] > 0 && Agree(Prev(c), Code(n - 1))
  {
    hide Borrow;
    CodeIsProper(n);
    var d := Code(n);
    assert forall t :: 0 <= t <= c.level ==> c.idx[t] == d.idx[t];
    var a := c.idx;
    BorrowStep(a, c.level);
    if c.level == 1 {
      BorrowStep(a[1 := 255], 0);
    } else if c.level == 2 {
      var b := a[2 := 255];
      BorrowStep(b, 1);
      BorrowStep(b[1 := 255], 0);
      PrevAtTwo(c, n);
    } else if c.level == 3 {
      var b := a[3 := 255];
      BorrowStep(b, 2);
      BorrowStep(b[2 := 255], 1);
      BorrowStep(b[2 := 255][1 := 255], 0);
      PrevAtThree(c, n);
    }
  }

  /** The digits of the block before, at level 2. */
  lemma PrevAtTwo(c: Coord, n: nat)
    requires MAX1 <= n < MAX2 && Agree(c, Code(n))
    ensures var d := Code(n - 1); var (i, j) := (c.idx[1], c.idx[2]);
            if j > 0 then d.level == 2 && d.idx == [13, i, j - 1, 0]
            else if i > 0 then d.level == 2 && d.idx == [13, i - 1, 255, 0]
            else d == Coord(1, [12, 255, 0, 0])
  {
    var m := n - MAX1;
    assert c.idx[1] == m / FAN && c.idx[2] == m % FAN;
    if m > 0 {
      if m % FAN > 0 {
        Split(m / FAN, m % FAN - 1, m - 1);
      } else {
        Split(m / FAN - 1, 255, m - 1);
      }
    }
  }

  lemma PrevAtThree(c: Coord, n: nat)
    requires MAX2 <= n < MAX3 && Agree(c, Code(n))
    ensures var d := Code(n - 1); var (h, i, j) := (c.idx[1], c.idx[2], c.idx[3]);
            if j > 0 then d.level == 3 && d.idx == [14, h, i, j - 1]
            else if i > 0 then d.level == 3 && d.idx == [14, h, i - 1, 255]
            else if h > 0 then d.level == 3 && d.idx == [14, h - 1, 255, 255]
            else d == Coord(2, [13, 255, 255, 0])
  {
    var m := n - MAX2;
    var q := m / FAN;
    assert m / (FAN * FAN) == q / FAN;
    assert c.idx[1] == q / FAN && c.idx[2] == q % FAN && c.idx[3] == m % FAN;
    if m > 0 {
      assert (m - 1) / (FAN * FAN) == (m - 1) / FAN / FAN;
      if m % FAN > 0 {
        Split(q, m % FAN - 1, m - 1);
      } else {
        Split(q - 1, 255, m - 1);
        if q % FAN > 0 {
          Split(q / FAN, q % FAN - 1, q - 1);
        } else {
          Split(q / FAN - 1, 255, q - 1);
        }
      }
    }
  }

  /** `k` steps back from block `n` reach block `n - k`, up to the level. */
  lemma {:induction false} Backward(c: Coord, n: nat, k: nat) returns (r: Coord)
    requires k <= n < MAX3 && Agree(c, Code(n))
    ensures Agree(r, Code(n - k)) && r == PrevN(c, k)
  {
    hide Code, Prev;
    r := c;
    if k > 0 {
      var p := Backward(c, n, k - 1);
      PrevIsPredecessor(p, n - (k - 1));
      r := Prev(p);
    }
  }

  function PrevN(c: Coord, k: nat): (r: Coord)
    requires Four(c)
    ensures |r.idx| == 4
  {
    if k == 0 then c
    else var p := PrevN(c, k - 1); if p.level <= 3 && p.idx[0] > 0 then Prev(p) else p
  }

  // ---------------------------------------------------------------------------------------------
  // What -- leaves behind
  // ---------------------------------------------------------------------------------------------

  /**
   After operator-- an index beyond the level may be left at 255.  operator++ from such a position
   is right exactly when it stays on the level or finds a zero where the next level starts.
  */
  lemma NextAfterStale(c: Coord, n: nat)
    requires n + 1 < MAX3 && Agree(c, Code(n))
    ensures Agree(Next(c), Code(n + 1)) <==>
            Code(n + 1).level == Code(n).level || c.idx[Code(n + 1).level] == 0
  {
    hide Carry, Code, Decode;
    var d := Code(n);
    CodeIsProper(n);
    NextIsSuccessor(d);
    DecodeIsInverse(Next(d));
    var l := c.level;
    CarryAgrees(c.idx[l := c.idx[l] + 1], d.idx[l := d.idx[l] + 1], l, l);
    assert Next(c).level == Next(d).level;
    assert forall t :: 0 <= t <= l ==> Next(c).idx[t] == Next(d).idx[t];
    assert forall t :: l < t < 4 ==> Next(c).idx[t] == c.idx[t] && Next(d).idx[t] == d.idx[t];
    assert forall t :: l < t < 4 ==> d.idx[t] == 0;
    assert l <= Next(d).level <= l + 1;
  }

  /** The carry reads and writes only the indexes up to the level. */
  lemma {:induction false} CarryAgrees(a: seq<nat>, b: seq<nat>, t: nat, l: nat)
    requires |a| == |b| == 4 && t <= l <= 3 && forall u :: 0 <= u <= l ==> a[u] == b[u]
    ensures var (a', p) := Carry(a, t); var (b', q) := Carry(b, t);
            && p == q
            && (forall u :: 0 <= u <= l ==> a'[u] == b'[u])
            && (forall u :: l < u < 4 ==> a'[u] == a[u] && b'[u] == b[u])
    decreases t
  {
    if t > 0 && a[t] >= Sub(t) {
      CarryAgrees(a[t - 1 := a[t - 1] + 1][t := 0], b[t - 1 := b[t - 1] + 1][t := 0], t - 1, l);
    }
  }

  /** Block 12, one step back and one step forward: the code lands on block 12 + 255. */
  lemma StaleExample()
    ensures Agree(Next(Prev(Code(12))), Code(267))
  {
    var a: seq<nat> := [12, 0, 0, 0];
    assert Code(12) == Coord(1, a);
    assert Borrow(a, 1) == Borrow(a[1 := 255], 0) == (a[1 := 255], 0);
    assert Prev(Code(12)) == Coord(0, [11, 255, 0, 0]);
    assert Carry([12, 255, 0, 0], 0) == ([12, 255, 0, 0], 0);
    assert Next(Coord(0, [11, 255, 0, 0])) == Coord(1, [12, 255, 0, 0]);
  }
}
