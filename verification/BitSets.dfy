/** Bit sets in an unsigned 32-bit word, and counting their members without a loop. A word is the
    natural number it stands for; the bitwise operators are defined digit by digit, so the masks
    of the source can be read as repeated hexadecimal digits of any number. */
module BitSets {

  const WORD := 0x1_0000_0000

  predicate Bit(x: nat, n: nat)
    decreases n
  {
    if n == 0 then x % 2 == 1 else Bit(x / 2, n - 1)
  }

  function Pow2(n: nat): (p: nat)
    ensures p > 0
  {
    if n == 0 then 1 else 2 * Pow2(n - 1)
  }

  function And(x: nat, m: nat): nat {
    if x == 0 || m == 0 then 0
    else (if x % 2 == 1 && m % 2 == 1 then 1 else 0) + 2 * And(x / 2, m / 2)
  }

  function Or(x: nat, m: nat): nat {
    if x == 0 then m else if m == 0 then x
    else (if x % 2 == 1 || m % 2 == 1 then 1 else 0) + 2 * Or(x / 2, m / 2)
  }

  /** ~m in a word. */
  function Not(m: nat): nat
    requires m < WORD
  {
    WORD - 1 - m
  }

  // ---------------------------------------------------------------- the macros

  function BitGet(i: nat, n: nat): bool
    requires n < 32
  {
    And(i, Pow2(n)) != 0
  }

  function HexDigitBitCount(x: nat): int {
    x - And(x / 2, 0x77777777) - And(x / 4, 0x33333333) - And(x / 8, 0x11111111)
  }

  function BitCount(i: nat): int
    requires i < WORD
  {
    var h := HexDigitBitCount(i);
    if h < 0 then 0  // never, see `NothingWraps`
    else And(h + h / 16, 0x0f0f0f0f) % 255
  }

  // ---------------------------------------------------------------- one hexadecimal digit

  function PopCount(x: nat): nat {
    if x == 0 then 0 else x % 2 + PopCount(x / 2)
  }

  /** The number d written n times in hexadecimal. */
  function Repeat(d: nat, n: nat): nat {
    if n == 0 then 0 else d + 16 * Repeat(d, n - 1)
  }

  lemma AndPush(x: nat, m: nat, b: nat, c: nat)
    requires b < 2 && c < 2
    ensures And(b + 2 * x, c + 2 * m) == (if b == 1 && c == 1 then 1 else 0) + 2 * And(x, m)
  {
    assert (b + 2 * x) / 2 == x && (c + 2 * m) / 2 == m;
  }

  /** The four binary digits of the last hexadecimal digit. */
  lemma Split16(x: nat) returns (b0: nat, b1: nat, b2: nat, b3: nat)
    ensures b0 < 2 && b1 < 2 && b2 < 2 && b3 < 2
    ensures x == b0 + 2 * (b1 + 2 * (b2 + 2 * (b3 + 2 * (x / 16))))
    ensures x % 16 == b0 + 2 * (b1 + 2 * (b2 + 2 * b3))
  {
    b0, b1, b2, b3 := x % 2, x / 2 % 2, x / 4 % 2, x / 8 % 2;
    assert x / 4 == x / 2 / 2 && x / 8 == x / 4 / 2 && x / 16 == x / 8 / 2;
    assert x == b0 + 2 * (x / 2) && x / 2 == b1 + 2 * (x / 4);
    assert x / 4 == b2 + 2 * (x / 8) && x / 8 == b3 + 2 * (x / 16);
  }

  /** And works on each hexadecimal digit by itself. */
  lemma AndNibble(x: nat, m: nat)
    ensures And(x, m) == And(x % 16, m % 16) + 16 * And(x / 16, m / 16)
  {
    var b0, b1, b2, b3 := Split16(x);
    var c0, c1, c2, c3 := Split16(m);
    hide And;
    var y, n := x / 16, m / 16;
    AndPush(b1 + 2 * (b2 + 2 * (b3 + 2 * y)), c1 + 2 * (c2 + 2 * (c3 + 2 * n)), b0, c0);
    AndPush(b2 + 2 * (b3 + 2 * y), c2 + 2 * (c3 + 2 * n), b1, c1);
    AndPush(b3 + 2 * y, c3 + 2 * n, b2, c2);
    AndPush(y, n, b3, c3);
    AndPush(b1 + 2 * (b2 + 2 * b3), c1 + 2 * (c2 + 2 * c3), b0, c0);
    AndPush(b2 + 2 * b3, c2 + 2 * c3, b1, c1);
    AndPush(b3, c3, b2, c2);
    AndPush(0, 0, b3, c3);
    NoBits();
  }

  lemma NoBits()
    ensures And(0, 0) == 0
  {
  }

  /** A mask of trailing ones keeps that many binary digits of a hexadecimal digit. */
  lemma AndOnes(v: nat)
    requires v < 16
    ensures And(v, 1) == v % 2 && And(v, 3) == v % 4 && And(v, 7) == v % 8 && And(v, 15) == v
  {
    var b0, b1, b2, b3 := Split16(v);
    hide And;
    assert v == b0 + 2 * (b1 + 2 * (b2 + 2 * b3));
    AndOnesOfBits(b0, b1, b2, b3);
  }

  lemma AndOnesOfBits(b0: nat, b1: nat, b2: nat, b3: nat)
    requires b0 < 2 && b1 < 2 && b2 < 2 && b3 < 2
    ensures
      var v := b0 + 2 * (b1 + 2 * (b2 + 2 * b3));
      && And(v, 1) == b0 && And(v, 3) == b0 + 2 * b1
      && And(v, 7) == b0 + 2 * (b1 + 2 * b2) && And(v, 15) == v
  {
    hide And;
    OnesStep(b1 + 2 * (b2 + 2 * b3), b0);
    OnesStep(b2 + 2 * b3, b1);
    OnesStep(b3, b2);
    OnesStep(0, b3);
    Zeroes(b1 + 2 * (b2 + 2 * b3), b2 + 2 * b3, b3);
  }

  lemma OnesStep(x: nat, b: nat)
    requires b < 2
    ensures And(b + 2 * x, 1) == b + 2 * And(x, 0)
    ensures And(b + 2 * x, 3) == b + 2 * And(x, 1)
    ensures And(b + 2 * x, 7) == b + 2 * And(x, 3)
    ensures And(b + 2 * x, 15) == b + 2 * And(x, 7)
  {
    AndPush(x, 0, b, 1);
    AndPush(x, 1, b, 1);
    AndPush(x, 3, b, 1);
    AndPush(x, 7, b, 1);
  }

  lemma Zeroes(x: nat, y: nat, z: nat)
    ensures And(x, 0) == And(y, 0) == And(z, 0) == And(0, 0) == 0
    ensures And(0, 1) == And(0, 3) == And(0, 7) == 0
  {
  }

  // ---------------------------------------------------------------- counting in hexadecimal digits

  lemma LastDigit(d: nat, rest: nat)
    requires d < 16
    ensures (d + 16 * rest) % 16 == d && (d + 16 * rest) / 16 == rest
  {
  }

  lemma RepeatStep(d: nat, n: nat)
    requires d < 16 && n > 0
    ensures Repeat(d, n) % 16 == d && Repeat(d, n) / 16 == Repeat(d, n - 1)
  {
    LastDigit(d, Repeat(d, n - 1));
  }

  lemma Masks()
    ensures Repeat(7, 8) == 0x77777777 && Repeat(3, 8) == 0x33333333 && Repeat(1, 8) == 0x11111111
  {
    assert Repeat(7, 2) == 0x77 && Repeat(3, 2) == 0x33 && Repeat(1, 2) == 0x11;
    assert Repeat(7, 4) == 0x7777 && Repeat(3, 4) == 0x3333 && Repeat(1, 4) == 0x1111;
    assert Repeat(7, 6) == 0x777777 && Repeat(3, 6) == 0x333333 && Repeat(1, 6) == 0x111111;
  }

  /** The number of ones of each of the last n hexadecimal digits, written in hexadecimal. */
  function NibbleCounts(x: nat, n: nat): (h: nat) {
    if n == 0 then 0 else PopCount(x % 16) + 16 * NibbleCounts(x / 16, n - 1)
  }

  /** The digit that a shift leaves behind, with bits of the digit before it on top. */
  lemma ShiftByOne(r: nat, p: nat, c: nat)
    requires r < 16 && c < 2
    ensures
      var y := (r + 16 * (c + 2 * p)) / 2;
      y % 16 == r / 2 + 8 * c && y / 16 == p && y % 16 % 8 == r / 2
  {
    assert (r + 16 * (c + 2 * p)) / 2 == (r / 2 + 8 * c) + 16 * p;
    LastDigit(r / 2 + 8 * c, p);
  }

  lemma ShiftByTwo(r: nat, p: nat, c: nat)
    requires r < 16 && c < 4
    ensures
      var y := (r + 16 * (c + 4 * p)) / 4;
      y % 16 == r / 4 + 4 * c && y / 16 == p && y % 16 % 4 == r / 4
  {
    assert (r + 16 * (c + 4 * p)) / 4 == (r / 4 + 4 * c) + 16 * p;
    LastDigit(r / 4 + 4 * c, p);
  }

  lemma ShiftByThree(r: nat, p: nat, c: nat)
    requires r < 16 && c < 8
    ensures
      var y := (r + 16 * (c + 8 * p)) / 8;
      y % 16 == r / 8 + 2 * c && y / 16 == p && y % 16 % 2 == r / 8
  {
    assert (r + 16 * (c + 8 * p)) / 8 == (r / 8 + 2 * c) + 16 * p;
    LastDigit(r / 8 + 2 * c, p);
  }

  lemma MaskDigit(x: nat, d: nat, n: nat)
    requires n > 0 && d < 16
    ensures And(x, Repeat(d, n)) == And(x % 16, d) + 16 * And(x / 16, Repeat(d, n - 1))
  {
    AndNibble(x, Repeat(d, n));
    RepeatStep(d, n);
  }

  /** The masked shift of one digit, and of the digits before it. */
  lemma MaskedShift(x: nat, n: nat)
    requires n > 0
    ensures And(x / 2, Repeat(7, n)) == x % 16 / 2 + 16 * And(x / 16 / 2, Repeat(7, n - 1))
    ensures And(x / 4, Repeat(3, n)) == x % 16 / 4 + 16 * And(x / 16 / 4, Repeat(3, n - 1))
    ensures And(x / 8, Repeat(1, n)) == x % 16 / 8 + 16 * And(x / 16 / 8, Repeat(1, n - 1))
  {
    hide And, Repeat;
    var r, q := x % 16, x / 16;
    assert x == r + 16 * q;
    MaskDigit(x / 2, 7, n);
    ShiftByOne(r, q / 2, q % 2);
    AndOnes(x / 2 % 16);
    MaskDigit(x / 4, 3, n);
    ShiftByTwo(r, q / 4, q % 4);
    AndOnes(x / 4 % 16);
    MaskDigit(x / 8, 1, n);
    ShiftByThree(r, q / 8, q % 8);
    AndOnes(x / 8 % 16);
  }

  lemma PopPush(x: nat, b: nat)
    requires b < 2
    ensures PopCount(b + 2 * x) == b + PopCount(x)
  {
    assert (b + 2 * x) / 2 == x && (b + 2 * x) % 2 == b;
  }

  lemma NibblePopCount(v: nat)
    requires v < 16
    ensures v - v / 2 - v / 4 - v / 8 == PopCount(v) <= 4
  {
    var b0, b1, b2, b3 := Split16(v);
    hide PopCount;
    assert v == b0 + 2 * (b1 + 2 * (b2 + 2 * b3));
    NibbleOfBits(b0, b1, b2, b3);
    NibbleShifts(b0, b1, b2, b3);
  }

  lemma NibbleShifts(b0: nat, b1: nat, b2: nat, b3: nat)
    requires b0 < 2 && b1 < 2 && b2 < 2 && b3 < 2
    ensures
      var v := b0 + 2 * (b1 + 2 * (b2 + 2 * b3));
      v - v / 2 - v / 4 - v / 8 == b0 + b1 + b2 + b3
  {
    var v := b0 + 2 * b1 + 4 * b2 + 8 * b3;
    assert v / 2 == b1 + 2 * b2 + 4 * b3;
    assert v / 4 == b2 + 2 * b3;
    assert v / 8 == b3;
  }

  lemma NibbleOfBits(b0: nat, b1: nat, b2: nat, b3: nat)
    requires b0 < 2 && b1 < 2 && b2 < 2 && b3 < 2
    ensures PopCount(b0 + 2 * (b1 + 2 * (b2 + 2 * b3))) == b0 + b1 + b2 + b3
  {
    assert PopCount(0) == 0;
    PopPush(0, b3);
    hide PopCount;
    PopPush(b3, b2);
    PopPush(b2 + 2 * b3, b1);
    PopPush(b1 + 2 * (b2 + 2 * b3), b0);
  }

  /** Subtracting the three masked shifts leaves in every digit the number of its ones. */
  lemma {:induction false} DigitBitCounts(x: nat, n: nat)
    requires x < Pow16(n)
    ensures
      x - And(x / 2, Repeat(7, n)) - And(x / 4, Repeat(3, n)) - And(x / 8, Repeat(1, n))
        == NibbleCounts(x, n)
    decreases n
  {
    if n == 0 {
      Zeroes(0, 0, 0);
    } else {
      DigitBitCounts(x / 16, n - 1);
      MaskedShift(x, n);
      NibblePopCount(x % 16);
      hide And, Repeat, PopCount;
    }
  }

  function Pow16(n: nat): (p: nat)
    ensures p > 0
  {
    if n == 0 then 1 else 16 * Pow16(n - 1)
  }

  // ---------------------------------------------------------------- counting in bytes

  /** The number 0x0f0f0f0f with n bytes. */
  function LowNibbles(n: nat): nat { if n == 0 then 0 else 15 + 256 * LowNibbles(n - 1) }

  /** The number of ones of each of the last n bytes, written as a numeral to the base 256. */
  function ByteCounts(x: nat, n: nat): nat {
    if n == 0 then 0 else PopCount(x % 256) + 256 * ByteCounts(x / 256, n - 1)
  }

  lemma AndByte(x: nat, n: nat)
    requires n > 0
    ensures And(x, LowNibbles(n)) == x % 16 + 256 * And(x / 256, LowNibbles(n - 1))
  {
    var m := LowNibbles(n - 1);
    assert LowNibbles(n) == 15 + 16 * (0 + 16 * m);
    LastDigit(15, 0 + 16 * m);
    LastDigit(0, m);
    AndNibble(x, LowNibbles(n));
    AndOnes(x % 16);
    AndNibble(x / 16, 16 * m);
    assert And(x / 16 % 16, 0) == 0;
    assert x / 16 / 16 == x / 256;
  }

  /** The ones of a number are those of its last hexadecimal digit and of the rest. */
  lemma PopCountSplit(x: nat)
    ensures PopCount(x) == PopCount(x % 16) + PopCount(x / 16)
  {
    hide PopCount;
    var b0, b1, b2, b3 := Split16(x);
    NibbleOfBits(b0, b1, b2, b3);
    PopOfBits(b0, b1, b2, b3, x / 16);
  }

  lemma PopOfBits(b0: nat, b1: nat, b2: nat, b3: nat, y: nat)
    requires b0 < 2 && b1 < 2 && b2 < 2 && b3 < 2
    ensures PopCount(b0 + 2 * (b1 + 2 * (b2 + 2 * (b3 + 2 * y)))) == b0 + b1 + b2 + b3 + PopCount(y)
  {
    hide PopCount;
    PopPush(y, b3);
    PopPush(b3 + 2 * y, b2);
    PopPush(b2 + 2 * (b3 + 2 * y), b1);
    PopPush(b1 + 2 * (b2 + 2 * (b3 + 2 * y)), b0);
  }

  lemma PopCountSplitByte(x: nat)
    ensures PopCount(x % 256) == PopCount(x % 16) + PopCount(x / 16 % 16)
    ensures PopCount(x) == PopCount(x % 256) + PopCount(x / 256)
  {
    hide PopCount;
    ByteDigits(x);
    PopCountSplit(x);
    PopCountSplit(x / 16);
    PopCountSplit(x % 256);
  }

  lemma ByteDigits(x: nat)
    ensures x % 256 % 16 == x % 16 && x % 256 / 16 == x / 16 % 16 && x / 16 / 16 == x / 256
  {
    var d, e, q := x % 16, x / 16 % 16, x / 16 / 16;
    BytesOfDigits(d, e, q);
    LastDigit(d, e);
  }

  lemma BytesOfDigits(d: nat, e: nat, q: nat)
    requires d < 16 && e < 16
    ensures (d + 16 * (e + 16 * q)) % 256 == d + 16 * e && (d + 16 * (e + 16 * q)) / 256 == q
  {
  }

  /** Adding the digit counts to themselves, moved by one digit, leaves in the low digit of every
      byte the number of ones of the byte: with at most four ones to a digit, nothing carries. */
  lemma {:induction false} ByteSums(x: nat, n: nat)
    ensures
      var h := NibbleCounts(x, 2 * n);
      And(h + h / 16, LowNibbles(n)) == ByteCounts(x, n)
    decreases n
  {
    if n > 0 {
      hide *;
      ByteSums(x / 256, n - 1);
      ByteSum(x, 2 * n);
      var h, h' := NibbleCounts(x, 2 * n), NibbleCounts(x / 256, 2 * (n - 1));
      OneMoreByte(x, n, h + h / 16, h' + h' / 16);
    } else {
      assert NibbleCounts(x, 0) == 0;
    }
  }

  lemma OneMoreByte(x: nat, n: nat, v: nat, v': nat)
    requires n > 0 && v % 16 == PopCount(x % 256) && v / 256 == v'
    requires And(v', LowNibbles(n - 1)) == ByteCounts(x / 256, n - 1)
    ensures And(v, LowNibbles(n)) == ByteCounts(x, n)
  {
    hide And, PopCount, LowNibbles;
    AndByte(v, n);
  }

  lemma ByteSum(x: nat, n: nat)
    requires n >= 2
    ensures
      var h, h' := NibbleCounts(x, n), NibbleCounts(x / 256, n - 2);
      && (h + h / 16) % 16 == PopCount(x % 256)
      && (h + h / 16) / 256 == h' + h' / 16
  {
    hide PopCount, NibbleCounts;
    PopCountSplitByte(x);
    TwoNibbles(x, n);
    NibblePopCount(x % 16);
    NibblePopCount(x / 16 % 16);
    NextCount(x / 256, n - 2);
    NoCarry(PopCount(x % 16), PopCount(x / 16 % 16), NibbleCounts(x / 256, n - 2));
  }

  lemma TwoNibbles(x: nat, n: nat)
    requires n >= 2
    ensures NibbleCounts(x, n) ==
      PopCount(x % 16) + 16 * (PopCount(x / 16 % 16) + 16 * NibbleCounts(x / 256, n - 2))
  {
    assert NibbleCounts(x, n) == PopCount(x % 16) + 16 * NibbleCounts(x / 16, n - 1);
    assert NibbleCounts(x / 16, n - 1) ==
      PopCount(x / 16 % 16) + 16 * NibbleCounts(x / 16 / 16, n - 2);
    assert x / 16 / 16 == x / 256;
  }

  lemma NextCount(x: nat, n: nat)
    ensures NibbleCounts(x, n) % 16 <= 4
  {
    if n > 0 {
      NibblePopCount(x % 16);
      LastDigit(PopCount(x % 16), NibbleCounts(x / 16, n - 1));
    }
  }

  lemma NoCarry(p0: nat, p1: nat, h': nat)
    requires p0 <= 4 && p1 <= 4 && h' % 16 <= 4
    ensures
      var h := p0 + 16 * (p1 + 16 * h');
      (h + h / 16) % 16 == p0 + p1 && (h + h / 16) / 256 == h' + h' / 16
  {
    var h := p0 + 16 * (p1 + 16 * h');
    var q0, h'' := h' % 16, h' / 16;
    LastDigit(p0, p1 + 16 * h');
    var rest := (p1 + q0) + 16 * (h'' + h');
    assert h' == q0 + 16 * h'';
    assert h + h / 16 == (p0 + p1) + 16 * rest;
    LastDigit(p0 + p1, rest);
    LastDigit(p1 + q0, h'' + h');
    assert (h + h / 16) / 256 == (h + h / 16) / 16 / 16;
  }

  // ---------------------------------------------------------------- casting out 255s

  /** The numeral with the given digits to the base 256, last digit first. */
  function Numeral(digits: seq<nat>): nat {
    if digits == [] then 0 else digits[0] + 256 * Numeral(digits[1..])
  }

  function Sum(digits: seq<nat>): nat {
    if digits == [] then 0 else digits[0] + Sum(digits[1..])
  }

  /** A numeral to the base 256 exceeds the sum of its digits by a multiple of 255. */
  lemma {:induction false} NumeralMinusSum(digits: seq<nat>) returns (q: nat)
    ensures Numeral(digits) == 255 * q + Sum(digits)
  {
    if digits == [] {
      q := 0;
    } else {
      var r := NumeralMinusSum(digits[1..]);
      q := 256 * r + Sum(digits[1..]);
    }
  }

  lemma {:induction false} CastOut(q: nat, s: nat)
    ensures (255 * q + s) % 255 == s % 255
  {
    if q > 0 {
      CastOut(q - 1, s);
      assert (255 * q + s) == (255 * (q - 1) + s) + 255;
    }
  }

  /** So modulo 255 it is the sum of its digits. */
  lemma {:induction false} NumeralMod255(digits: seq<nat>)
    ensures Numeral(digits) % 255 == Sum(digits) % 255
  {
    var q := NumeralMinusSum(digits);
    hide Numeral, Sum;
    CastOut(q, Sum(digits));
  }

  function BytePops(x: nat, n: nat): seq<nat> {
    if n == 0 then [] else [PopCount(x % 256)] + BytePops(x / 256, n - 1)
  }

  lemma {:induction false} ByteCountsNumeral(x: nat, n: nat)
    requires x < Pow16(2 * n)
    ensures ByteCounts(x, n) == Numeral(BytePops(x, n))
    ensures Sum(BytePops(x, n)) == PopCount(x)
    decreases n
  {
    if n > 0 {
      assert Pow16(2 * n) == 16 * Pow16(2 * n - 1) == 256 * Pow16(2 * (n - 1));
      ByteCountsNumeral(x / 256, n - 1);
      PopCountSplitByte(x);
      assert BytePops(x, n)[1..] == BytePops(x / 256, n - 1);
    }
  }

  lemma PopCountBound(x: nat, n: nat)
    requires x < Pow16(n)
    ensures PopCount(x) <= 4 * n
  {
    if n > 0 {
      PopCountBound(x / 16, n - 1);
      PopCountSplit(x);
      NibblePopCount(x % 16);
    }
  }

  lemma WordSize()
    ensures Pow16(8) == WORD && LowNibbles(4) == 0x0f0f0f0f
  {
    assert Pow16(2) == 256;
    assert Pow16(4) == 0x1_0000;
    assert Pow16(6) == 0x100_0000;
    assert LowNibbles(2) == 0x0f0f;
  }

  lemma NibbleCountsBound(x: nat, n: nat)
    ensures NibbleCounts(x, n) <= Repeat(4, n)
  {
    if n > 0 {
      NibbleCountsBound(x / 16, n - 1);
      NibblePopCount(x % 16);
    }
  }

  lemma CountsFit()
    ensures Repeat(4, 8) + Repeat(4, 8) / 16 < WORD
  {
    assert Repeat(4, 2) == 0x44;
    assert Repeat(4, 4) == 0x4444;
    assert Repeat(4, 6) == 0x444444;
  }

  /** The digit counts of a word are those of its eight hexadecimal digits. */
  lemma WordNibbles(i: nat)
    requires i < WORD
    ensures HexDigitBitCount(i) == NibbleCounts(i, 8)
  {
    WordSize();
    Masks();
    hide And, NibbleCounts, Repeat, Pow16, LowNibbles;
    DigitBitCounts(i, 8);
  }

  lemma WordBytes(i: nat)
    requires i < WORD
    ensures
      var h := NibbleCounts(i, 8);
      And(h + h / 16, 0x0f0f0f0f) == ByteCounts(i, 4)
  {
    WordSize();
    hide *;
    ByteSums(i, 4);
  }

  lemma WordCount(i: nat)
    requires i < WORD
    ensures ByteCounts(i, 4) % 255 == PopCount(i)
  {
    WordSize();
    hide *;
    ByteCountsNumeral(i, 4);
    NumeralMod255(BytePops(i, 4));
    PopCountBound(i, 8);
    assert PopCount(i) % 255 == PopCount(i);
  }

  /** On every 32-bit word the unsigned arithmetic of the macro stays within the word. */
  lemma NothingWraps(i: nat)
    requires i < WORD
    ensures 0 <= HexDigitBitCount(i) <= HexDigitBitCount(i) + HexDigitBitCount(i) / 16 < WORD
  {
    hide *;
    CountsFit();
    WordNibbles(i);
    NibbleCountsBound(i, 8);
  }

  /** The formula counts the ones of every 32-bit word. */
  lemma {:induction false} BitCountIsPopCount(i: nat)
    requires i < WORD
    ensures BitCount(i) == PopCount(i)
  {
    hide And, PopCount, NibbleCounts, ByteCounts, HexDigitBitCount;
    WordNibbles(i);
    WordBytes(i);
    WordCount(i);
  }

  // ---------------------------------------------------------------- the set in a word

  /** The members of the set a word stands for. */
  ghost function Members(x: nat): set<nat> {
    set n | 0 <= n < 32 && Bit(x, n)
  }

  lemma {:induction false} BitOfAnd(x: nat, m: nat, n: nat)
    ensures Bit(And(x, m), n) <==> Bit(x, n) && Bit(m, n)
    decreases n
  {
    if x == 0 || m == 0 {
      NoBit(n);
    } else if n > 0 {
      BitOfAnd(x / 2, m / 2, n - 1);
    }
  }

  lemma {:induction false} NoBit(n: nat)
    ensures !Bit(0, n)
    decreases n
  {
    if n > 0 { NoBit(n - 1); }
  }

  lemma {:induction false} BitOfOr(x: nat, m: nat, n: nat)
    ensures Bit(Or(x, m), n) <==> Bit(x, n) || Bit(m, n)
    decreases n
  {
    if x == 0 || m == 0 {
      NoBit(n);
    } else if n > 0 {
      BitOfOr(x / 2, m / 2, n - 1);
    }
  }

  lemma {:induction false} BitOfPow2(k: nat, n: nat)
    ensures Bit(Pow2(k), n) <==> n == k
    decreases n
  {
    if k == 0 {
      if n > 0 { NoBit(n - 1); }
    } else if n > 0 {
      assert Pow2(k) / 2 == Pow2(k - 1);
      BitOfPow2(k - 1, n - 1);
    }
  }

  /** Complement within w bits. */
  lemma {:induction false} BitOfComplement(m: nat, w: nat, n: nat)
    requires m < Pow2(w) && n < w
    ensures Bit(Pow2(w) - 1 - m, n) <==> !Bit(m, n)
    decreases n
  {
    assert (Pow2(w) - 1 - m) / 2 == Pow2(w - 1) - 1 - m / 2;
    if n > 0 {
      BitOfComplement(m / 2, w - 1, n - 1);
    }
  }

  lemma {:induction false} OrBound(x: nat, m: nat, w: nat)
    requires x < Pow2(w) && m < Pow2(w)
    ensures Or(x, m) < Pow2(w)
    decreases w
  {
    if x != 0 && m != 0 {
      OrBound(x / 2, m / 2, w - 1);
    }
  }

  lemma {:induction false} AndBound(x: nat, m: nat)
    ensures And(x, m) <= x
  {
    if x != 0 && m != 0 { AndBound(x / 2, m / 2); }
  }

  lemma {:induction false} Pow2Grows(k: nat, w: nat)
    requires k < w
    ensures 2 * Pow2(k) <= Pow2(w)
    decreases w
  {
    if k < w - 1 { Pow2Grows(k, w - 1); }
  }

  lemma {:induction false} AndPow2(x: nat, k: nat)
    ensures And(x, Pow2(k)) == if Bit(x, k) then Pow2(k) else 0
    decreases k
  {
    if x == 0 {
      NoBit(k);
    } else if k > 0 {
      assert Pow2(k) / 2 == Pow2(k - 1) && Pow2(k) % 2 == 0;
      AndPow2(x / 2, k - 1);
    } else {
      assert And(x / 2, 0) == 0;
    }
  }

  /** The sum of the powers of two whose bits are set. */
  function SumOfBits(x: nat, w: nat): nat {
    if w == 0 then 0 else SumOfBits(x, w - 1) + if Bit(x, w - 1) then Pow2(w - 1) else 0
  }

  lemma {:induction false} SumFromBelow(x: nat, w: nat)
    requires w > 0
    ensures SumOfBits(x, w) == x % 2 + 2 * SumOfBits(x / 2, w - 1)
    decreases w
  {
    if w > 1 { SumFromBelow(x, w - 1); }
  }

  /** A word is the sum of 2 to the n over the members n of its set. */
  lemma {:induction false} BitsMakeUpWord(x: nat, w: nat)
    requires x < Pow2(w)
    ensures SumOfBits(x, w) == x
    decreases w
  {
    if w > 0 {
      SumFromBelow(x, w);
      BitsMakeUpWord(x / 2, w - 1);
    }
  }

  /** GPR_BITGET asks for membership. */
  lemma BitGetIsMember(i: nat, n: nat)
    requires n < 32
    ensures BitGet(i, n) <==> n in Members(i)
  {
    AndPow2(i, n);
  }

  function CountBelow(x: nat, w: nat): nat {
    if w == 0 then 0 else CountBelow(x, w - 1) + if Bit(x, w - 1) then 1 else 0
  }

  lemma {:induction false} CountFromBelow(x: nat, w: nat)
    requires w > 0
    ensures CountBelow(x, w) == x % 2 + CountBelow(x / 2, w - 1)
    decreases w
  {
    if w > 1 { CountFromBelow(x, w - 1); }
  }

  lemma {:induction false} PopCountCounts(x: nat, w: nat)
    requires x < Pow2(w)
    ensures PopCount(x) == CountBelow(x, w)
    decreases w
  {
    if w > 0 {
      CountFromBelow(x, w);
      PopCountCounts(x / 2, w - 1);
    }
  }

  ghost function Below(x: nat, w: nat): set<nat> {
    set n | 0 <= n < w && Bit(x, n)
  }

  lemma {:induction false} BelowSize(x: nat, w: nat)
    ensures |Below(x, w)| == CountBelow(x, w)
  {
    if w > 0 {
      BelowSize(x, w - 1);
      assert Below(x, w) == Below(x, w - 1) + if Bit(x, w - 1) then {w - 1} else {};
    }
  }

  /** GPR_BITCOUNT is the size of the set, for every word. */
  lemma BitCountIsSize(i: nat)
    requires i < WORD
    ensures BitCount(i) == |Members(i)|
  {
    BitCountIsPopCount(i);
    WordPow();
    PopCountCounts(i, 32);
    BelowSize(i, 32);
    assert Members(i) == Below(i, 32);
  }

  lemma MembersOfSet(i: nat, n: nat)
    requires i < WORD && n < 32
    ensures Or(i, Pow2(n)) < WORD && Members(Or(i, Pow2(n))) == Members(i) + {n}
  {
    WordPow();
    Pow2Grows(n, 32);
    OrBound(i, Pow2(n), 32);
    forall k: nat | k < 32
      ensures Bit(Or(i, Pow2(n)), k) <==> Bit(i, k) || k == n
    {
      BitOfOr(i, Pow2(n), k);
      BitOfPow2(n, k);
    }
  }

  lemma MembersOfClear(i: nat, n: nat)
    requires i < WORD && n < 32
    ensures Pow2(n) < WORD
    ensures And(i, Not(Pow2(n))) < WORD && Members(And(i, Not(Pow2(n)))) == Members(i) - {n}
  {
    WordPow();
    Pow2Grows(n, 32);
    AndBound(i, Not(Pow2(n)));
    forall k: nat | k < 32
      ensures Bit(And(i, Not(Pow2(n))), k) <==> Bit(i, k) && k != n
    {
      BitOfAnd(i, Not(Pow2(n)), k);
      BitOfComplement(Pow2(n), 32, k);
      BitOfPow2(n, k);
    }
  }

  datatype Op = Set(n: nat) | Clear(n: nat)

  /** The set after some insertions and removals. */
  ghost function Result(start: set<nat>, ops: seq<Op>): set<nat> {
    if ops == [] then start
    else
      var before := Result(start, ops[..|ops| - 1]);
      match ops[|ops| - 1]
      case Set(n) => before + {n}
      case Clear(n) => before - {n}
  }

  /** A word that is changed through a pointer. */
  class Cell {
    var word: nat

    ghost predicate Valid()
      reads this
    {
      word < WORD
    }

    constructor ()
      ensures Valid() && word == 0 && Members(word) == {}
    {
      word := 0;
      assert forall n: nat :: !Bit(0, n) by {
        forall n: nat ensures !Bit(0, n) { NoBit(n); }
      }
    }

    // GPR_BITSET
    method Insert(n: nat)
      requires Valid() && n < 32
      modifies this
      ensures Valid() && word == Or(old(word), Pow2(n))
      ensures Members(word) == old(Members(word)) + {n}
    {
      MembersOfSet(word, n);
      word := Or(word, Pow2(n));
    }

    // GPR_BITCLEAR
    method Remove(n: nat)
      requires Valid() && n < 32
      modifies this
      ensures Valid() && Members(word) == old(Members(word)) - {n}
    {
      MembersOfClear(word, n);
      word := And(word, Not(Pow2(n)));
    }

    /** After any sequence of operations the word stands for the set they describe, every query
        agrees with it, and the count is its size. */
    method Apply(ops: seq<Op>)
      requires Valid() && forall k | 0 <= k < |ops| :: ops[k].n < 32
      modifies this
      ensures Valid() && Members(word) == Result(old(Members(word)), ops)
      ensures BitCount(word) == |Result(old(Members(word)), ops)|
      ensures forall n: nat | n < 32 :: BitGet(word, n) <==> n in Result(old(Members(word)), ops)
    {
      hide Members, BitCount, BitGet;
      for k := 0 to |ops|
        invariant Valid() && Members(word) == Result(old(Members(word)), ops[..k])
      {
        assert ops[..k + 1][..k] == ops[..k];
        match ops[k]
        case Set(n) => Insert(n);
        case Clear(n) => Remove(n);
      }
      assert ops[..|ops|] == ops;
      BitCountIsSize(word);
      forall n: nat | n < 32
        ensures BitGet(word, n) <==> n in Members(word)
      {
        BitGetIsMember(word, n);
      }
    }
  }

  lemma WordPow()
    ensures Pow2(32) == WORD
  {
    assert Pow2(6) == 64;
    assert Pow2(12) == 0x1000;
    assert Pow2(18) == 0x40000;
    assert Pow2(24) == 0x1000000;
    assert Pow2(30) == 0x40000000;
  }
}
