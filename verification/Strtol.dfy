/**
 `strtol` of kernel/libc/stdlib/strtol.c for 64-bit `long`.  A string is the bytes before its final zero
 byte; `ByteAt` gives the zero byte behind them.
*/
module Strtol {
  import opened Bytes
  import opened Options

  const LONG_MAX: nat := 0x7fff_ffff_ffff_ffff
  const LONG_MIN: int := -0x8000_0000_0000_0000
  const ULONG: nat := 0x1_0000_0000_0000_0000

  predicate IsSpace(c: byte) {
    c == 32 || 9 <= c <= 13
  }

  /** The value of a digit or letter; 36 for anything else. */
  function Digit(c: byte): (d: nat)
    ensures d <= 36
  {
    if 48 <= c <= 57 then c as nat - 48
    else if 65 <= c <= 90 then c as nat - 55
    else if 97 <= c <= 122 then c as nat - 87
    else 36
  }

  predicate BaseOk(base: int) {
    base == 0 || 2 <= base <= 36
  }

  // ---------------------------------------------------------------------------------------------
  // What the parts of the string are
  // ---------------------------------------------------------------------------------------------

  ghost function Blanks(s: seq<byte>, p: nat): (r: nat)
    ensures r >= p && !IsSpace(ByteAt(s, r))
    ensures forall i :: p <= i < r ==> IsSpace(ByteAt(s, i))
    decreases |s| - p
  {
    if p < |s| && IsSpace(s[p]) then Blanks(s, p + 1) else p
  }

  ghost function Signed(s: seq<byte>): (bool, nat) {
    var p := Blanks(s, 0);
    if ByteAt(s, p) == 45 then (true, p + 1) else if ByteAt(s, p) == 43 then (false, p + 1) else (false, p)
  }

  ghost predicate HexPrefix(s: seq<byte>, p: nat) {
    ByteAt(s, p) == 48 && (ByteAt(s, p + 1) == 120 || ByteAt(s, p + 1) == 88)
  }

  /** Where the digits start and in which base, as the code decides it: any 0x counts as a prefix. */
  ghost function Body(s: seq<byte>, p: nat, base: int): (r: (nat, int))
    requires BaseOk(base)
    ensures 2 <= r.1 <= 36
  {
    if (base == 0 || base == 16) && HexPrefix(s, p) then (p + 2, 16)
    else if base == 0 then (p, if ByteAt(s, p) == 48 then 8 else 10)
    else (p, base)
  }

  /** The same as section 7.22.1.4 of C11 has it: 0x is a prefix only in front of a hexadecimal digit. */
  ghost function StandardBody(s: seq<byte>, p: nat, base: int): (r: (nat, int))
    requires BaseOk(base)
    ensures 2 <= r.1 <= 36
  {
    if (base == 0 || base == 16) && HexPrefix(s, p) && Digit(ByteAt(s, p + 2)) < 16 then (p + 2, 16)
    else if base == 0 then (p, if ByteAt(s, p) == 48 then 8 else 10)
    else (p, base)
  }

  /** The end of the longest run of digits of the base. */
  ghost function RunEnd(s: seq<byte>, p: nat, base: int): (r: nat)
    requires base <= 36
    ensures r >= p && Digit(ByteAt(s, r)) >= base
    ensures forall i :: p <= i < r ==> Digit(ByteAt(s, i)) < base
    decreases |s| - p
  {
    if p < |s| && Digit(ByteAt(s, p)) < base then RunEnd(s, p + 1, base) else p
  }

  /** The number that the digits from `p` to `e` stand for. */
  ghost function Value(s: seq<byte>, p: nat, e: nat, base: int): nat
    requires base >= 0
  {
    if e <= p then 0 else Value(s, p, e - 1, base) * base + Digit(ByteAt(s, e - 1))
  }

  ghost function Clamp(neg: bool, v: nat): int {
    if neg then (if v > -LONG_MIN then LONG_MIN else 0 - v) else if v > LONG_MAX then LONG_MAX else v
  }

  /** The result for digits from `p` on: their value, clamped, and where they end; or nothing. */
  ghost function Converted(s: seq<byte>, neg: bool, p: nat, base: int): (int, nat)
    requires 2 <= base <= 36
  {
    var e := RunEnd(s, p, base);
    if e == p then (0, 0) else (Clamp(neg, Value(s, p, e, base)), e)
  }

  // ---------------------------------------------------------------------------------------------
  // The code
  // ---------------------------------------------------------------------------------------------

  /** The bits of an unsigned long as a long. */
  function ToLong(x: nat): int
    requires x < ULONG
  {
    if x > LONG_MAX then x - ULONG else x
  }

  /** `end` is None if the base is refused; `*endptr` is then not written. */
  method Strtol(s: seq<byte>, base: int) returns (value: int, end: Option<nat>)
    ensures !BaseOk(base) ==> value == 0 && end == None
    ensures BaseOk(base) ==>
              var (neg, p) := Signed(s);
              var (q, b) := Body(s, p, base);
              (value, end) == (Converted(s, neg, q, b).0, Some(Converted(s, neg, q, b).1))
  {
    hide Blanks, RunEnd, Value, Clamp, ByteAt, IsSpace, Digit;
    if base < 0 || base == 1 || base > 36 {
      return 0, None;
    }
    var p := SkipBlanks(s);
    var neg := false;
    if ByteAt(s, p) == 45 {
      neg, p := true, p + 1;
    } else if ByteAt(s, p) == 43 {
      p := p + 1;
    }
    assert (neg, p) == Signed(s);
    var b := base;
    if (b == 0 || b == 16) && ByteAt(s, p) == 48 && (ByteAt(s, p + 1) == 120 || ByteAt(s, p + 1) == 88) {
      p := p + 2;
      b := 16;
    }
    if b == 0 {
      b := if ByteAt(s, p) == 48 then 8 else 10;
    }
    assert (p, b) == Body(s, Signed(s).1, base);
    value, end := Digits(s, neg, p, b);
  }

  method SkipBlanks(s: seq<byte>) returns (p: nat)
    ensures p == Blanks(s, 0)
  {
    p := 0;
    while IsSpace(ByteAt(s, p))
      invariant Blanks(s, 0) == Blanks(s, p)
      decreases |s| - p
    {
      p := p + 1;
    }
  }

  /** The digit loop and the end of strtol. */
  method Digits(s: seq<byte>, neg: bool, p: nat, base: int) returns (value: int, end: Option<nat>)
    requires 2 <= base <= 36
    ensures (value, end) == (Converted(s, neg, p, base).0, Some(Converted(s, neg, p, base).1))
  {
    hide Value, RunEnd, Digit, Appended, CutLim, CutOff;
    var limit := if neg then -LONG_MIN else LONG_MAX;
    var cutlim, cutoff := CutLim(limit, base), CutOff(limit, base);
    var acc, any, i := 0, 0, p;
    NoDigits(s, p, base);
    while true
      invariant p <= i && 0 <= acc <= limit && -1 <= any <= 1
      invariant RunEnd(s, p, base) == RunEnd(s, i, base)
      invariant any == 0 <==> i == p
      invariant any >= 0 ==> acc == Value(s, p, i, base)
      invariant any < 0 ==> Value(s, p, i, base) > limit
      decreases |s| - i
    {
      var c := Digit(ByteAt(s, i));
      NextDigit(s, p, i, base);
      if c == 36 || c >= base {
        break;
      }
      Cutoff(acc, c, base, limit);
      if any < 0 || acc > cutoff || (acc == cutoff && c > cutlim) {
        any := -1;
        Grows(Value(s, p, i, base), c, base, limit);
      } else {
        any := 1;
        acc := Append(acc, base, c);
      }
      i := i + 1;
    }
    if any < 0 {
      acc := if neg then -LONG_MIN else LONG_MAX;
    } else if neg {
      acc := (ULONG - acc) % ULONG;
    }
    value := ToLong(acc);
    end := Some(if any != 0 then i else 0);
  }

  function CutOff(limit: nat, base: nat): nat
    requires base > 0
  {
    limit / base
  }

  function CutLim(limit: nat, base: nat): nat
    requires base > 0
  {
    limit % base
  }

  /** The test against `cutoff` and `cutlim` is exact: it holds if and only if the next digit would pass the limit. */
  lemma Cutoff(acc: nat, c: nat, base: nat, limit: nat)
    requires 2 <= base && c < base
    ensures acc > CutOff(limit, base) || (acc == CutOff(limit, base) && c > CutLim(limit, base)) <==> Appended(acc, base, c) > limit
  {
    var q, r := limit / base, limit % base;
    assert limit == q * base + r;
    if acc > q {
      assert acc * base >= (q + 1) * base;
    } else if acc < q {
      assert (acc + 1) * base <= q * base;
    }
  }

  /** A number with one more digit. */
  function Appended(acc: nat, base: nat, c: nat): nat {
    acc * base + c
  }

  method Append(acc: nat, base: nat, c: nat) returns (r: nat)
    ensures r == Appended(acc, base, c)
  {
    r := acc * base;
    r := r + c;
  }

  lemma Grows(v: nat, c: nat, base: nat, limit: nat)
    requires base >= 2
    ensures v > limit ==> Appended(v, base, c) > limit
  {
  }

  lemma NoDigits(s: seq<byte>, p: nat, base: int)
    requires 2 <= base <= 36
    ensures Value(s, p, p, base) == 0
  {
  }

  lemma NextDigit(s: seq<byte>, p: nat, i: nat, base: int)
    requires 2 <= base <= 36 && p <= i
    ensures Digit(ByteAt(s, i)) < base ==> i < |s| && RunEnd(s, i, base) == RunEnd(s, i + 1, base)
    ensures Digit(ByteAt(s, i)) >= base ==> RunEnd(s, i, base) == i
    ensures Value(s, p, i + 1, base) == Appended(Value(s, p, i, base), base, Digit(ByteAt(s, i)))
  {
  }

  // ---------------------------------------------------------------------------------------------
  // Against the standard
  // ---------------------------------------------------------------------------------------------

  /** 0x without a hexadecimal digit behind it. */
  ghost predicate Dangling(s: seq<byte>, p: nat, base: int) {
    (base == 0 || base == 16) && HexPrefix(s, p) && Digit(ByteAt(s, p + 2)) >= 16
  }

  /**
   The code returns the value and the end that the standard asks for exactly if there is no dangling 0x;
   then it stores the start of the string where the standard wants the end of the 0.
  */
  lemma StandardIff(s: seq<byte>, base: int)
    requires BaseOk(base)
    ensures var (neg, p) := Signed(s);
            var (q, b) := Body(s, p, base);
            var (q', b') := StandardBody(s, p, base);
            Converted(s, neg, q, b) == Converted(s, neg, q', b') <==> !Dangling(s, p, base)
  {
    hide Digit, Value;
    var (neg, p) := Signed(s);
    if Dangling(s, p, base) {
      var b := StandardBody(s, p, base).1;
      assert Digit(48) == 0 && Digit(120) == 33 && Digit(88) == 33 by { DigitsOf0x(); }
      assert RunEnd(s, p + 2, 16) == p + 2;
      assert RunEnd(s, p + 1, b) == p + 1;
      assert RunEnd(s, p, b) == p + 1;
    }
  }

  lemma DigitsOf0x()
    ensures Digit(48) == 0 && Digit(120) == 33 && Digit(88) == 33
  {
  }

  /** A number in range is returned exactly. */
  lemma InRangeExact(s: seq<byte>, neg: bool, p: nat, base: int)
    requires 2 <= base <= 36 && RunEnd(s, p, base) > p
    ensures var v := Value(s, p, RunEnd(s, p, base), base);
            var number: int := if neg then 0 - v else v;
            Converted(s, neg, p, base).0 == number <==> LONG_MIN <= number <= LONG_MAX
  {
  }

  /** The number that the digits of a string stand for, with its sign. */
  ghost function Number(s: seq<byte>, neg: bool, p: nat, base: int): int
    requires 2 <= base <= 36
  {
    var v := Value(s, p, RunEnd(s, p, base), base);
    if neg then 0 - v else v
  }

  /** The result is the long that is nearest to the number. */
  lemma NearestLong(s: seq<byte>, neg: bool, p: nat, base: int, other: int)
    requires 2 <= base <= 36 && RunEnd(s, p, base) > p && LONG_MIN <= other <= LONG_MAX
    ensures var (r, n) := (Converted(s, neg, p, base).0, Number(s, neg, p, base));
            LONG_MIN <= r <= LONG_MAX && Distance(r, n) <= Distance(other, n)
  {
  }

  function Distance(x: int, y: int): nat {
    if x < y then y - x else x - y
  }

  /** Without a digit where the digits should start the result is 0, and the end is the start of the string. */
  lemma NothingRead(s: seq<byte>, base: int)
    requires BaseOk(base)
    ensures var (neg, p) := Signed(s); var (q, b) := Body(s, p, base);
            Converted(s, neg, q, b) == (0, 0) <==> Digit(ByteAt(s, q)) >= b
  {
    hide Digit, Value;
    var (neg, p) := Signed(s);
    var (q, b) := Body(s, p, base);
    if Digit(ByteAt(s, q)) >= b {
      NextDigit(s, q, q, b);
    }
  }

  /** Space, tab, line feed, vertical tab, form feed and carriage return are the blanks. */
  lemma SpaceIff(c: byte)
    ensures IsSpace(c) <==> c == 32 || c == 9 || c == 10 || c == 11 || c == 12 || c == 13
  {
  }

  // ---------------------------------------------------------------------------------------------
  // Printing and parsing
  // ---------------------------------------------------------------------------------------------

  // "0" to "9", then "a" to "z" and "A" to "Z".
  const LOWER: seq<byte> :=
    [48, 49, 50, 51, 52, 53, 54, 55, 56, 57,
     97, 98, 99, 100, 101, 102, 103, 104, 105, 106, 107, 108, 109, 110, 111, 112, 113, 114, 115, 116, 117, 118, 119, 120, 121, 122]
  const UPPER: seq<byte> :=
    [48, 49, 50, 51, 52, 53, 54, 55, 56, 57,
     65, 66, 67, 68, 69, 70, 71, 72, 73, 74, 75, 76, 77, 78, 79, 80, 81, 82, 83, 84, 85, 86, 87, 88, 89, 90]

  /** Every digit, small or capital, has its place in the alphabet as its value, and nothing else is a digit. */
  lemma DigitIff(c: byte, d: nat)
    requires d < 36
    ensures |LOWER| == |UPPER| == 36
    ensures Digit(c) == d <==> c == LOWER[d] || c == UPPER[d]
  {
    hide LOWER, UPPER;
    LowerAt(d);
    UpperAt(d);
  }

  lemma LowerAt(d: nat)
    requires d < 36
    ensures |LOWER| == 36 && LOWER[d] as nat == if d < 10 then 48 + d else 87 + d
  {
  }

  lemma UpperAt(d: nat)
    requires d < 36
    ensures |UPPER| == 36 && UPPER[d] as nat == if d < 10 then 48 + d else 55 + d
  {
  }

  /** The numeral of a number, the highest digit first; a digit is capital where `capital` says so. */
  function Numeral(v: nat, base: nat, capital: nat -> bool): (r: seq<byte>)
    requires 2 <= base <= 36
    ensures r != []
  {
    var digit := [if capital(v) then UPPER[v % base] else LOWER[v % base]];
    if v < base then digit else Numeral(v / base, base, capital) + digit
  }

  /** In a string that continues with the numeral and then with no digit, the digits are read as the number. */
  lemma {:induction false} NumeralRead(s: seq<byte>, p: nat, v: nat, base: nat, capital: nat -> bool)
    requires 2 <= base <= 36
    requires var r := Numeral(v, base, capital); p + |r| <= |s| && s[p..p + |r|] == r
    ensures var e := p + |Numeral(v, base, capital)|;
            && (forall i :: p <= i < e ==> Digit(ByteAt(s, i)) < base)
            && Value(s, p, e, base) == v
            && (v > 0 ==> Digit(ByteAt(s, p)) > 0)
    decreases v
  {
    hide Digit, Value, Numeral, Appended;
    var r := Numeral(v, base, capital);
    var e := p + |r|;
    Remainder(v, base);
    NumeralStep(v, base, capital);
    assert s[e - 1] == r[|r| - 1];
    ValueStep(s, p, e, base);
    if v >= base {
      var front := Numeral(v / base, base, capital);
      assert s[p..p + |front|] == front;
      NumeralRead(s, p, v / base, base, capital);
    }
  }

  lemma NumeralStep(v: nat, base: nat, capital: nat -> bool)
    requires 2 <= base <= 36
    ensures var r := Numeral(v, base, capital);
            && Digit(r[|r| - 1]) == v % base < base
            && r[..|r| - 1] == if v < base then [] else Numeral(v / base, base, capital)
  {
    hide Digit, LOWER, UPPER;
    Remainder(v, base);
    var r := Numeral(v, base, capital);
    DigitIff(r[|r| - 1], v % base);
  }

  lemma Remainder(v: nat, base: nat)
    requires base >= 2
    ensures v % base < base && Appended(v / base, base, v % base) == v
    ensures if v < base then v / base == 0 && v % base == v else 0 < v / base < v
  {
  }

  lemma ValueStep(s: seq<byte>, p: nat, e: nat, base: nat)
    requires p < e
    ensures Value(s, p, e, base) == Appended(Value(s, p, e - 1, base), base, Digit(ByteAt(s, e - 1)))
    ensures Value(s, p, p, base) == 0
  {
  }

  lemma {:induction false} RunEndIs(s: seq<byte>, p: nat, e: nat, base: int)
    requires p <= e <= |s| && base <= 36 && Digit(ByteAt(s, e)) >= base
    requires forall i :: p <= i < e ==> Digit(ByteAt(s, i)) < base
    ensures RunEnd(s, p, base) == e
    decreases e - p
  {
    hide Digit;
    if p < e {
      RunEndIs(s, p + 1, e, base);
    }
  }

  /** A numeral as it may be given: blanks, a sign, for base 0 or 16 perhaps 0x, for base 0 a 0 for octal, and the digits. */
  datatype Written = Written(blanks: seq<byte>, sign: seq<byte>, prefix: seq<byte>, v: nat, radix: nat, capital: nat -> bool)

  ghost predicate WrittenFor(w: Written, base: int) {
    && (forall i :: 0 <= i < |w.blanks| ==> w.blanks[i] in {9, 10, 11, 12, 13, 32})
    && (w.sign == [] || w.sign == [43] || w.sign == [45])
    && (if w.prefix == [] then w.radix == (if base == 0 then 10 else base) && 2 <= w.radix <= 36
        else if w.prefix == [48] then w.radix == 8 && base == 0
        else w.radix == 16 && (base == 0 || base == 16) && (w.prefix == [48, 120] || w.prefix == [48, 88]))
  }

  ghost function Text(w: Written): seq<byte>
    requires 2 <= w.radix <= 36
  {
    w.blanks + w.sign + w.prefix + Numeral(w.v, w.radix, w.capital)
  }

  ghost function Meant(w: Written): int {
    if w.sign == [45] then 0 - w.v else w.v
  }

  /**
   A number of any size that is printed in base 2 to 36 and then parsed gives the number again, or the end of
   the range of long on its side if it is outside; the end is behind the last digit.
  */
  lemma PrintParse(w: Written, base: int, rest: seq<byte>)
    requires BaseOk(base) && WrittenFor(w, base)
    requires Digit(ByteAt(rest, 0)) >= w.radix && ByteAt(rest, 0) != 120 && ByteAt(rest, 0) != 88
    ensures var s := Text(w) + rest; var (neg, p) := Signed(s); var (q, b) := Body(s, p, base);
            Converted(s, neg, q, b) ==
            (if Meant(w) > LONG_MAX then LONG_MAX else if Meant(w) < LONG_MIN then LONG_MIN else Meant(w), |Text(w)|)
  {
    hide Numeral, Digit, Value, Text, Signed, Body, HexPrefix, RunEnd;
    var s := Text(w) + rest;
    var p := |w.blanks| + |w.sign|;
    var q, e := p + |w.prefix|, |Text(w)|;
    TextParts(w, rest);
    NumeralRead(s, q, w.v, w.radix, w.capital);
    SignRead(w, rest);
    assert ByteAt(s, e) == ByteAt(rest, 0);
    BodyRead(w, base, rest);
    var b := Body(s, p, base).1;
    if w.prefix == [48] {
      OctalRead(s, p, q, e, w.v);
    } else if b == w.radix {
      RunEndIs(s, q, e, b);
    } else {
      ZeroRead(s, q, w, rest);
    }
  }

  /** Blanks and sign are what they are written as. */
  lemma SignRead(w: Written, rest: seq<byte>)
    requires 2 <= w.radix <= 36
    requires forall i :: 0 <= i < |w.blanks| ==> w.blanks[i] in {9, 10, 11, 12, 13, 32}
    requires w.sign == [] || w.sign == [43] || w.sign == [45]
    requires w.prefix == [] || w.prefix[0] == 48
    ensures Signed(Text(w) + rest) == (w.sign == [45], |w.blanks| + |w.sign|)
  {
    hide Numeral, Digit, Value, Text;
    var s := Text(w) + rest;
    var n, p := |w.blanks|, |w.blanks| + |w.sign|;
    TextParts(w, rest);
    NumeralRead(s, p + |w.prefix|, w.v, w.radix, w.capital);
    assert Digit(ByteAt(s, p)) < 36 by {
      DigitIff(48, 0);
      assert w.prefix != [] ==> s[p] == s[p..p + |w.prefix|][0];
    }
    DigitIsNoSign(ByteAt(s, p));
    assert w.sign != [] ==> s[n] == s[n..p][0];
    forall i | 0 <= i < n
      ensures IsSpace(ByteAt(s, i))
    {
      assert s[i] == s[..n][i];
    }
    BlanksRead(s, 0, n);
  }

  lemma DigitIsNoSign(c: byte)
    requires Digit(c) < 36
    ensures !IsSpace(c) && c != 43 && c != 45
  {
  }

  lemma {:induction false} BlanksRead(s: seq<byte>, p: nat, e: nat)
    requires p <= e <= |s| && !IsSpace(ByteAt(s, e)) && forall i :: p <= i < e ==> IsSpace(ByteAt(s, i))
    ensures Blanks(s, p) == e
    decreases e - p
  {
    hide IsSpace;
    if p < e {
      BlanksRead(s, p + 1, e);
    }
  }

  /** So is the base; a zero for base 0 counts as octal. */
  lemma BodyRead(w: Written, base: int, rest: seq<byte>)
    requires BaseOk(base) && WrittenFor(w, base) && ByteAt(rest, 0) != 120 && ByteAt(rest, 0) != 88
    ensures var (q, b) := Body(Text(w) + rest, |w.blanks| + |w.sign|, base);
            && q == |w.blanks| + |w.sign| + (if w.prefix == [48] then 0 else |w.prefix|)
            && (b == w.radix || (b == 8 && w.prefix == [] && w.radix == 10 && w.v == 0))
  {
    hide Numeral, Digit, Value, Text;
    var s := Text(w) + rest;
    var p := |w.blanks| + |w.sign|;
    var q := p + |w.prefix|;
    TextParts(w, rest);
    NumeralRead(s, q, w.v, w.radix, w.capital);
    if w.prefix == [] {
      DigitIff(48, 0);
      if w.v == 0 {
        ZeroNumeral(w.radix, w.capital);
        assert ByteAt(s, p + 1) == ByteAt(rest, 0);
      }
    } else if w.prefix == [48] {
      assert s[p] == s[p..q][0];
      NumeralDigit(s, q, w.v, w.radix, w.capital);
    } else {
      assert s[p] == s[p..q][0] && s[p + 1] == s[p..q][1];
    }
  }

  /** A digit below 8 is no x. */
  lemma NumeralDigit(s: seq<byte>, q: nat, v: nat, base: nat, capital: nat -> bool)
    requires 2 <= base <= 8
    requires var r := Numeral(v, base, capital); q + |r| <= |s| && s[q..q + |r|] == r
    ensures ByteAt(s, q) != 120 && ByteAt(s, q) != 88
  {
    hide Numeral, Digit, Value;
    NumeralRead(s, q, v, base, capital);
    DigitsOf0x();
  }

  /** The zero in front of an octal numeral is read with it and changes nothing. */
  lemma OctalRead(s: seq<byte>, p: nat, q: nat, e: nat, v: nat)
    requires q == p + 1 && q < e <= |s| && s[p..q] == [48] && Value(s, q, e, 8) == v && Digit(ByteAt(s, e)) >= 8
    requires forall i :: q <= i < e ==> Digit(ByteAt(s, i)) < 8
    ensures RunEnd(s, p, 8) == e && Value(s, p, e, 8) == v
  {
    hide Digit, Value;
    DigitIff(48, 0);
    assert s[p] == s[p..q][0];
    RunEndIs(s, p, e, 8);
    LeadingZero(s, p, e, 8);
  }

  lemma {:induction false} LeadingZero(s: seq<byte>, p: nat, e: nat, base: nat)
    requires p < e && Digit(ByteAt(s, p)) == 0
    ensures Value(s, p, e, base) == Value(s, p + 1, e, base)
    decreases e
  {
    hide Digit;
    if e > p + 1 {
      LeadingZero(s, p, e - 1, base);
    } else {
      assert Value(s, p, p, base) == 0 == Value(s, p + 1, p + 1, base);
    }
  }

  lemma ZeroNumeral(base: nat, capital: nat -> bool)
    requires 2 <= base <= 36
    ensures Numeral(0, base, capital) == [48]
  {
    DigitIff(48, 0);
  }

  lemma ZeroRead(s: seq<byte>, q: nat, w: Written, rest: seq<byte>)
    requires w.v == 0 && w.radix == 10 && q + 1 <= |s| && s[q..q + |Numeral(0, 10, w.capital)|] == Numeral(0, 10, w.capital)
    requires q + |Numeral(0, 10, w.capital)| <= |s| && Digit(ByteAt(s, q + |Numeral(0, 10, w.capital)|)) >= 10
    ensures |Numeral(0, 10, w.capital)| == 1 && RunEnd(s, q, 8) == q + 1 && Value(s, q, q + 1, 8) == 0
  {
    hide Digit, Numeral;
    ZeroNumeral(10, w.capital);
    DigitIff(48, 0);
    assert s[q] == 48;
    RunEndIs(s, q, q + 1, 8);
    ValueStep(s, q, q + 1, 8);
  }

  /** Where the parts of the text are. */
  lemma TextParts(w: Written, rest: seq<byte>)
    requires 2 <= w.radix <= 36
    ensures var s := Text(w) + rest; var p := |w.blanks| + |w.sign|; var q := p + |w.prefix|;
            && s[..|w.blanks|] == w.blanks && s[|w.blanks|..p] == w.sign && s[p..q] == w.prefix
            && q + |Numeral(w.v, w.radix, w.capital)| == |Text(w)| <= |s|
            && s[q..|Text(w)|] == Numeral(w.v, w.radix, w.capital) && s[|Text(w)|..] == rest
  {
    hide Numeral;
  }
}
