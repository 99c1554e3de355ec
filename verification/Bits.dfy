/** The bit scans that walk the masks of the trie, on 32-bit words. */
module Bits {
  import opened ByteTables
  import opened Packing

  /** The table of 32 bit numbers. */
  function Lsb32Table(i: nat): nat
    requires i < 32
  {
    match i
    case 0 => 0 case 1 => 1 case 2 => 28 case 3 => 2
    case 4 => 29 case 5 => 14 case 6 => 24 case 7 => 3
    case 8 => 30 case 9 => 22 case 10 => 20 case 11 => 15
    case 12 => 25 case 13 => 17 case 14 => 4 case 15 => 8
    case 16 => 31 case 17 => 27 case 18 => 13 case 19 => 23
    case 20 => 21 case 21 => 19 case 22 => 16 case 23 => 7
    case 24 => 26 case 25 => 12 case 26 => 18 case 27 => 6
    case 28 => 11 case 29 => 5 case 30 => 10 case _ => 9
  }

  /** The lowest bit of `b`, alone. */
  function LowBit(b: bv32): bv32 {
    b & (0 - b)
  }

  /** Where the table has the entry for a power of two: the top five bits of a 32-bit
      multiplication by a de Bruijn number. */
  function Index(power: nat): (i: nat)
    ensures i < 32
  {
    power * 0x077C_B531 % 0x1_0000_0000 / 0x800_0000
  }

  function Lsb(b: bv32): nat {
    Lsb32Table(Index(LowBit(b) as nat))
  }

  predicate Bit(b: bv32, i: nat) {
    if i == 0 then b & 1 == 1 else Bit(b >> 1, i - 1)
  }

  function Power(k: nat): bv32 {
    if k == 0 then 1 else Power(k - 1) << 1
  }

  function TrailingZeros(b: bv32): nat
    requires b != 0
    decreases b
  {
    if b & 1 == 1 then 0 else HalfSmaller(b); 1 + TrailingZeros(b >> 1)
  }

  lemma HalfSmaller(b: bv32)
    requires b != 0 && b & 1 != 1
    ensures 0 < b >> 1 < b
  {
  }

  lemma {:induction false} TrailingZerosBits(b: bv32, j: nat)
    requires b != 0
    ensures Bit(b, TrailingZeros(b)) && (j < TrailingZeros(b) ==> !Bit(b, j))
    decreases b
  {
    if b & 1 != 1 {
      HalfSmaller(b);
      var half := b >> 1;
      TrailingZerosBits(half, if j > 0 then j - 1 else 0);
      assert TrailingZeros(b) == 1 + TrailingZeros(half);
    }
  }

  lemma LowBitOdd(b: bv32)
    requires b & 1 == 1
    ensures b & (0 - b) == 1
  {
  }

  lemma LowBitEven(b: bv32, c: bv32)
    requires b & 1 != 1 && c == b >> 1
    ensures b & (0 - b) == (c & (0 - c)) << 1
  {
  }

  lemma LowBitNonZero(b: bv32)
    requires b != 0
    ensures b & (0 - b) != 0
  {
  }

  lemma {:induction false} LowBitIsPower(b: bv32)
    requires b != 0
    ensures LowBit(b) == Power(TrailingZeros(b))
    decreases b
  {
    if b & 1 == 1 {
      LowBitOdd(b);
    } else {
      HalfSmaller(b);
      LowBitIsPower(b >> 1);
      LowBitStep(b, b >> 1);
    }
  }

  lemma {:induction false} LowBitStep(b: bv32, c: bv32)
    requires b != 0 && b & 1 != 1 && c == b >> 1 && c != 0 && LowBit(c) == Power(TrailingZeros(c))
    ensures LowBit(b) == Power(TrailingZeros(b))
  {
    LowBitEven(b, c);
    assert TrailingZeros(b) == 1 + TrailingZeros(c);
  }

  lemma Powers()
    ensures Power(0) == 0x1 && Power(1) == 0x2 && Power(2) == 0x4 && Power(3) == 0x8
    ensures Power(4) == 0x10 && Power(5) == 0x20 && Power(6) == 0x40 && Power(7) == 0x80
    ensures Power(8) == 0x100 && Power(9) == 0x200 && Power(10) == 0x400 && Power(11) == 0x800
    ensures Power(12) == 0x1000 && Power(13) == 0x2000 && Power(14) == 0x4000 && Power(15) == 0x8000
    ensures Power(16) == 0x10000 && Power(17) == 0x20000 && Power(18) == 0x40000 && Power(19) == 0x80000
    ensures Power(20) == 0x100000 && Power(21) == 0x200000 && Power(22) == 0x400000 && Power(23) == 0x800000
    ensures Power(24) == 0x1000000 && Power(25) == 0x2000000 && Power(26) == 0x4000000 && Power(27) == 0x8000000
    ensures Power(28) == 0x10000000 && Power(29) == 0x20000000 && Power(30) == 0x40000000 && Power(31) == 0x80000000
    ensures Power(32) == 0
  {
  }

  lemma Rows0()
    ensures Lsb32Table(Index(0x1)) == 0 && Lsb32Table(Index(0x2)) == 1
    ensures Lsb32Table(Index(0x4)) == 2 && Lsb32Table(Index(0x8)) == 3
  {
  }

  lemma Rows4()
    ensures Lsb32Table(Index(0x10)) == 4 && Lsb32Table(Index(0x20)) == 5
    ensures Lsb32Table(Index(0x40)) == 6 && Lsb32Table(Index(0x80)) == 7
  {
  }

  lemma Rows8()
    ensures Lsb32Table(Index(0x100)) == 8 && Lsb32Table(Index(0x200)) == 9
    ensures Lsb32Table(Index(0x400)) == 10 && Lsb32Table(Index(0x800)) == 11
  {
  }

  lemma Rows12()
    ensures Lsb32Table(Index(0x1000)) == 12 && Lsb32Table(Index(0x2000)) == 13
    ensures Lsb32Table(Index(0x4000)) == 14 && Lsb32Table(Index(0x8000)) == 15
  {
  }

  lemma Rows16()
    ensures Lsb32Table(Index(0x10000)) == 16 && Lsb32Table(Index(0x20000)) == 17
    ensures Lsb32Table(Index(0x40000)) == 18 && Lsb32Table(Index(0x80000)) == 19
  {
  }

  lemma Rows20()
    ensures Lsb32Table(Index(0x100000)) == 20 && Lsb32Table(Index(0x200000)) == 21
    ensures Lsb32Table(Index(0x400000)) == 22 && Lsb32Table(Index(0x800000)) == 23
  {
  }

  lemma Rows24()
    ensures Lsb32Table(Index(0x1000000)) == 24 && Lsb32Table(Index(0x2000000)) == 25
    ensures Lsb32Table(Index(0x4000000)) == 26 && Lsb32Table(Index(0x8000000)) == 27
  {
  }

  lemma Rows28()
    ensures Lsb32Table(Index(0x10000000)) == 28 && Lsb32Table(Index(0x20000000)) == 29
    ensures Lsb32Table(Index(0x40000000)) == 30 && Lsb32Table(Index(0x80000000)) == 31
  {
  }

  lemma {:induction false} Table0(k: nat)
    requires 0 <= k < 8
    ensures Lsb32Table(Index(Power(k) as nat)) == k
  {
    Powers();
    Rows0();
    Rows4();
    assert (0x1 as bv32) as nat == 0x1 && (0x2 as bv32) as nat == 0x2 && (0x4 as bv32) as nat == 0x4 &&
           (0x8 as bv32) as nat == 0x8 && (0x10 as bv32) as nat == 0x10 && (0x20 as bv32) as nat == 0x20 &&
           (0x40 as bv32) as nat == 0x40 && (0x80 as bv32) as nat == 0x80;
  }

  lemma {:induction false} Table8(k: nat)
    requires 8 <= k < 16
    ensures Lsb32Table(Index(Power(k) as nat)) == k
  {
    Powers();
    Rows8();
    Rows12();
    assert (0x100 as bv32) as nat == 0x100 && (0x200 as bv32) as nat == 0x200 && (0x400 as bv32) as nat == 0x400 &&
           (0x800 as bv32) as nat == 0x800 && (0x1000 as bv32) as nat == 0x1000 && (0x2000 as bv32) as nat == 0x2000 &&
           (0x4000 as bv32) as nat == 0x4000 && (0x8000 as bv32) as nat == 0x8000;
  }

  lemma {:induction false} Table16(k: nat)
    requires 16 <= k < 24
    ensures Lsb32Table(Index(Power(k) as nat)) == k
  {
    Powers();
    Rows16();
    Rows20();
    assert (0x10000 as bv32) as nat == 0x10000 && (0x20000 as bv32) as nat == 0x20000 &&
           (0x40000 as bv32) as nat == 0x40000 && (0x80000 as bv32) as nat == 0x80000 &&
           (0x100000 as bv32) as nat == 0x100000 && (0x200000 as bv32) as nat == 0x200000 &&
           (0x400000 as bv32) as nat == 0x400000 && (0x800000 as bv32) as nat == 0x800000;
  }

  lemma {:induction false} Table24(k: nat)
    requires 24 <= k < 32
    ensures Lsb32Table(Index(Power(k) as nat)) == k
  {
    Powers();
    Rows24();
    Rows28();
    assert (0x1000000 as bv32) as nat == 0x1000000 && (0x2000000 as bv32) as nat == 0x2000000 &&
           (0x4000000 as bv32) as nat == 0x4000000 && (0x8000000 as bv32) as nat == 0x8000000 &&
           (0x10000000 as bv32) as nat == 0x10000000 && (0x20000000 as bv32) as nat == 0x20000000 &&
           (0x40000000 as bv32) as nat == 0x40000000 && (0x80000000 as bv32) as nat == 0x80000000;
  }

  lemma {:induction false} PowerZero(k: nat)
    requires k >= 32
    ensures Power(k) == 0
  {
    if k == 32 {
      Powers();
    } else {
      PowerZero(k - 1);
    }
  }

  /** The table undoes the multiplication for every power of two. */
  lemma {:induction false} PowerTable(k: nat)
    requires k < 32
    ensures Lsb32Table(Index(Power(k) as nat)) == k
  {
    if k < 8 { Table0(k); } else if k < 16 { Table8(k); } else if k < 24 { Table16(k); } else { Table24(k); }
  }

  /** For every non-zero word the scan gives the index of its lowest bit. */
  lemma {:induction false} LsbExact(b: bv32)
    requires b != 0
    ensures Lsb(b) < 32 && Bit(b, Lsb(b)) && forall j: nat :: j < Lsb(b) ==> !Bit(b, j)
  {
    var k := TrailingZeros(b);
    LowBitIsPower(b);
    TrailingZerosBits(b, 0);
    forall j: nat | j < k ensures !Bit(b, j) { TrailingZerosBits(b, j); }
    LowBitNonZero(b);
    if k >= 32 { PowerZero(k); }
    PowerTable(k);
  }

  // ----- bits of combined words -----

  lemma {:induction false} ZeroBit(i: nat)
    ensures !Bit(0, i)
  {
    if i > 0 { ZeroBit(i - 1); }
  }

  lemma AndOne(a: bv32, b: bv32)
    ensures (a & b) & 1 == 1 <==> a & 1 == 1 && b & 1 == 1
  {
  }

  lemma ShiftAnd(a: bv32, b: bv32)
    ensures (a & b) >> 1 == (a >> 1) & (b >> 1)
  {
  }

  /** Reading a number digit by digit, whatever numbers and digits are. */
  predicate Digit<T>(odd: T -> bool, half: T -> T, x: T, j: nat) {
    if j == 0 then odd(x) else Digit(odd, half, half(x), j - 1)
  }

  ghost predicate Splits<T(!new)>(odd: T -> bool, half: T -> T, and: (T, T) -> T) {
    forall x, y :: SplitsAt(odd, half, and, x, y)
  }

  predicate SplitsAt<T(==)>(odd: T -> bool, half: T -> T, and: (T, T) -> T, x: T, y: T) {
    half(and(x, y)) == and(half(x), half(y)) && (odd(and(x, y)) <==> odd(x) && odd(y))
  }

  lemma {:induction false} CommonDigit<T(!new)>(odd: T -> bool, half: T -> T, and: (T, T) -> T, a: T, b: T, j: nat)
    requires Splits(odd, half, and)
    ensures Digit(odd, half, and(a, b), j) <==> Digit(odd, half, a, j) && Digit(odd, half, b, j)
    decreases j
  {
    assert SplitsAt(odd, half, and, a, b);
    if j > 0 { CommonDigit(odd, half, and, half(a), half(b), j - 1); }
  }

  predicate Odd(b: bv32) { b & 1 == 1 }

  function Half(b: bv32): bv32 { b >> 1 }

  function And(a: bv32, b: bv32): bv32 { a & b }

  lemma {:induction false} BitIsDigit(b: bv32, j: nat)
    ensures Bit(b, j) <==> Digit(Odd, Half, b, j)
    decreases j
  {
    if j > 0 { BitIsDigit(b >> 1, j - 1); }
  }

  lemma AndHalves(x: bv32, y: bv32)
    ensures Half(And(x, y)) == And(Half(x), Half(y)) && (Odd(And(x, y)) <==> Odd(x) && Odd(y))
  {
    AndOne(x, y);
    ShiftAnd(x, y);
  }

  lemma AndSplits()
    ensures Splits(Odd, Half, And)
  {
    forall x, y ensures SplitsAt(Odd, Half, And, x, y) { AndHalves(x, y); }
  }

  lemma {:induction false} AndDigits(a: bv32, b: bv32, j: nat)
    ensures Digit(Odd, Half, And(a, b), j) <==> Digit(Odd, Half, a, j) && Digit(Odd, Half, b, j)
  {
    AndSplits();
    CommonDigit(Odd, Half, And, a, b, j);
  }

  lemma AndBits(a: bv32, b: bv32, j: nat)
    ensures Bit(a & b, j) <==> Bit(a, j) && Bit(b, j)
  {
    AndDigits(a, b, j);
    BitIsDigit(a, j);
    BitIsDigit(b, j);
    BitIsDigit(And(a, b), j);
  }

  lemma HalfOfDouble(p: bv32)
    ensures p & 0x8000_0000 == 0 ==> (p << 1) >> 1 == p && ((p << 1) | 1) >> 1 == p
    ensures (p << 1) & 1 != 1 && ((p << 1) | 1) & 1 == 1
  {
  }

  /** The word with the lowest `n` bits set. */
  function LowBits(n: nat): bv32 {
    if n == 0 then 0 else (LowBits(n - 1) << 1) | 1
  }

  lemma LowBitsRows()
    ensures LowBits(0) == 0x0 && LowBits(1) == 0x1 && LowBits(2) == 0x3 && LowBits(3) == 0x7
    ensures LowBits(4) == 0xf && LowBits(5) == 0x1f && LowBits(6) == 0x3f && LowBits(7) == 0x7f
    ensures LowBits(8) == 0xff && LowBits(9) == 0x1ff && LowBits(10) == 0x3ff && LowBits(11) == 0x7ff
    ensures LowBits(12) == 0xfff && LowBits(13) == 0x1fff && LowBits(14) == 0x3fff && LowBits(15) == 0x7fff
    ensures LowBits(16) == 0xffff && LowBits(17) == 0x1ffff && LowBits(18) == 0x3ffff && LowBits(19) == 0x7ffff
    ensures LowBits(20) == 0xfffff && LowBits(21) == 0x1fffff && LowBits(22) == 0x3fffff && LowBits(23) == 0x7fffff
    ensures LowBits(24) == 0xffffff && LowBits(25) == 0x1ffffff && LowBits(26) == 0x3ffffff && LowBits(27) == 0x7ffffff
    ensures LowBits(28) == 0xfffffff && LowBits(29) == 0x1fffffff && LowBits(30) == 0x3fffffff &&
            LowBits(31) == 0x7fffffff
    ensures LowBits(32) == 0xffffffff
  {
  }

  lemma {:induction false} LowBitsTop(n: nat)
    requires n < 32
    ensures LowBits(n) & 0x8000_0000 == 0
  {
    LowBitsRows();
  }

  lemma {:induction false} LowBitsExact(n: nat, j: nat)
    requires n <= 32
    ensures Bit(LowBits(n), j) <==> j < n
    decreases n
  {
    if n == 0 {
      ZeroBit(j);
    } else {
      LowBitsTop(n - 1);
      HalfOfDouble(LowBits(n - 1));
      if j > 0 { LowBitsExact(n - 1, j - 1); }
    }
  }

  lemma Cleared(x: bv32)
    ensures (x << 1) >> 1 == x & 0x7FFF_FFFF && (x << 1) & 1 != 1
  {
  }

  lemma DoubleBits(x: bv32, j: nat)
    requires j < 32
    ensures Bit(x << 1, j) <==> j > 0 && Bit(x, j - 1)
  {
    Cleared(x);
    if j > 0 {
      AndBits(x, 0x7FFF_FFFF, j - 1);
      LowBitsRows();
      LowBitsExact(31, j - 1);
    }
  }

  lemma OneHalved()
    ensures (1 as bv32) >> 1 == 0
  {
  }

  lemma {:induction false} OneBits(j: nat)
    ensures Bit(1, j) <==> j == 0
  {
    if j > 0 {
      OneHalved();
      ZeroBit(j - 1);
    }
  }

  lemma {:induction false} PowerBits(k: nat, j: nat)
    requires k < 32 && j < 32
    ensures Bit(Power(k), j) <==> j == k
    decreases k
  {
    if k == 0 {
      OneBits(j);
    } else {
      DoubleBits(Power(k - 1), j);
      if j > 0 { PowerBits(k - 1, j - 1); }
    }
  }

  lemma OnlyBit(i: nat) returns (p: bv32)
    requires i < 32
    ensures p == Power(i) && forall j: nat :: j < 32 ==> (Bit(p, j) <==> j == i)
  {
    p := Power(i);
    forall j: nat | j < 32 ensures Bit(p, j) <==> j == i { PowerBits(i, j); }
  }

  lemma {:induction false} BitPower(b: bv32, i: nat)
    requires i < 32
    ensures Bit(b, i) <==> b & Power(i) != 0
  {
    var p := OnlyBit(i);
    CommonBit(b, p, i, b & p);
  }

  lemma CommonBit(b: bv32, p: bv32, i: nat, c: bv32)
    requires i < 32 && c == b & p && forall j: nat :: j < 32 ==> (Bit(p, j) <==> j == i)
    ensures Bit(b, i) <==> c != 0
  {
    AndBits(b, p, i);
    if c == 0 {
      ZeroBit(i);
    } else {
      LsbExact(c);
      AndBits(b, p, Lsb(c));
    }
  }

  // ----- reversing a word -----

  /** The reversed byte, from the table of 256 bytes. */
  function ReversedByte(x: bv8): bv8 {
    ByteOf(ReversedRow(x), x)
  }

  function ReversedRow(x: bv8): bv64 {
    if x & 0x80 == 0 then
      if x & 0x40 == 0 then
        if x & 0x20 == 0 then
          if x & 0x10 == 0 then
            if x & 0x08 == 0 then 0x008040c020a060e0 else 0x109050d030b070f0
          else
            if x & 0x08 == 0 then 0x088848c828a868e8 else 0x189858d838b878f8
        else
          if x & 0x10 == 0 then
            if x & 0x08 == 0 then 0x048444c424a464e4 else 0x149454d434b474f4
          else
            if x & 0x08 == 0 then 0x0c8c4ccc2cac6cec else 0x1c9c5cdc3cbc7cfc
      else
        if x & 0x20 == 0 then
          if x & 0x10 == 0 then
            if x & 0x08 == 0 then 0x028242c222a262e2 else 0x129252d232b272f2
          else
            if x & 0x08 == 0 then 0x0a8a4aca2aaa6aea else 0x1a9a5ada3aba7afa
        else
          if x & 0x10 == 0 then
            if x & 0x08 == 0 then 0x068646c626a666e6 else 0x169656d636b676f6
          else
            if x & 0x08 == 0 then 0x0e8e4ece2eae6eee else 0x1e9e5ede3ebe7efe
    else
      if x & 0x40 == 0 then
        if x & 0x20 == 0 then
          if x & 0x10 == 0 then
            if x & 0x08 == 0 then 0x018141c121a161e1 else 0x119151d131b171f1
          else
            if x & 0x08 == 0 then 0x098949c929a969e9 else 0x199959d939b979f9
        else
          if x & 0x10 == 0 then
            if x & 0x08 == 0 then 0x058545c525a565e5 else 0x159555d535b575f5
          else
            if x & 0x08 == 0 then 0x0d8d4dcd2dad6ded else 0x1d9d5ddd3dbd7dfd
      else
        if x & 0x20 == 0 then
          if x & 0x10 == 0 then
            if x & 0x08 == 0 then 0x038343c323a363e3 else 0x139353d333b373f3
          else
            if x & 0x08 == 0 then 0x0b8b4bcb2bab6beb else 0x1b9b5bdb3bbb7bfb
        else
          if x & 0x10 == 0 then
            if x & 0x08 == 0 then 0x078747c727a767e7 else 0x179757d737b777f7
          else
            if x & 0x08 == 0 then 0x0f8f4fcf2faf6fef else 0x1f9f5fdf3fbf7fff
  }

  function Bitrev(b: bv32): bv32 {
    ((ReversedByte((b & 0xff) as bv8) as bv32) << 24) | ((ReversedByte(((b >> 8) & 0xff) as bv8) as bv32) << 16)
    | ((ReversedByte(((b >> 16) & 0xff) as bv8) as bv32) << 8) | (ReversedByte(((b >> 24) & 0xff) as bv8) as bv32)
  }

  /** The highest set bit. */
  function Msb(b: bv32): int {
    31 - Lsb(Bitrev(b))
  }

  lemma ReversedByteExact(x: bv8)
    ensures var y := (x >> 4) | (x << 4);
            var z := ((y & 0xcc) >> 2) | ((y & 0x33) << 2);
            ReversedByte(x) == ((z & 0xaa) >> 1) | ((z & 0x55) << 1)
  {
  }

  lemma BitrevRows0(b: bv32)
    ensures Bitrev(b) & 0x1 != 0 <==> b & 0x80000000 != 0
    ensures Bitrev(b) & 0x2 != 0 <==> b & 0x40000000 != 0
    ensures Bitrev(b) & 0x4 != 0 <==> b & 0x20000000 != 0
    ensures Bitrev(b) & 0x8 != 0 <==> b & 0x10000000 != 0
  {
    ReversedByteExact((b & 0xff) as bv8);
    ReversedByteExact(((b >> 8) & 0xff) as bv8);
    ReversedByteExact(((b >> 16) & 0xff) as bv8);
    ReversedByteExact(((b >> 24) & 0xff) as bv8);
  }

  lemma BitrevRows4(b: bv32)
    ensures Bitrev(b) & 0x10 != 0 <==> b & 0x8000000 != 0
    ensures Bitrev(b) & 0x20 != 0 <==> b & 0x4000000 != 0
    ensures Bitrev(b) & 0x40 != 0 <==> b & 0x2000000 != 0
    ensures Bitrev(b) & 0x80 != 0 <==> b & 0x1000000 != 0
  {
    ReversedByteExact((b & 0xff) as bv8);
    ReversedByteExact(((b >> 8) & 0xff) as bv8);
    ReversedByteExact(((b >> 16) & 0xff) as bv8);
    ReversedByteExact(((b >> 24) & 0xff) as bv8);
  }

  lemma BitrevRows8(b: bv32)
    ensures Bitrev(b) & 0x100 != 0 <==> b & 0x800000 != 0
    ensures Bitrev(b) & 0x200 != 0 <==> b & 0x400000 != 0
    ensures Bitrev(b) & 0x400 != 0 <==> b & 0x200000 != 0
    ensures Bitrev(b) & 0x800 != 0 <==> b & 0x100000 != 0
  {
    ReversedByteExact((b & 0xff) as bv8);
    ReversedByteExact(((b >> 8) & 0xff) as bv8);
    ReversedByteExact(((b >> 16) & 0xff) as bv8);
    ReversedByteExact(((b >> 24) & 0xff) as bv8);
  }

  lemma BitrevRows12(b: bv32)
    ensures Bitrev(b) & 0x1000 != 0 <==> b & 0x80000 != 0
    ensures Bitrev(b) & 0x2000 != 0 <==> b & 0x40000 != 0
    ensures Bitrev(b) & 0x4000 != 0 <==> b & 0x20000 != 0
    ensures Bitrev(b) & 0x8000 != 0 <==> b & 0x10000 != 0
  {
    ReversedByteExact((b & 0xff) as bv8);
    ReversedByteExact(((b >> 8) & 0xff) as bv8);
    ReversedByteExact(((b >> 16) & 0xff) as bv8);
    ReversedByteExact(((b >> 24) & 0xff) as bv8);
  }

  lemma BitrevRows16(b: bv32)
    ensures Bitrev(b) & 0x10000 != 0 <==> b & 0x8000 != 0
    ensures Bitrev(b) & 0x20000 != 0 <==> b & 0x4000 != 0
    ensures Bitrev(b) & 0x40000 != 0 <==> b & 0x2000 != 0
    ensures Bitrev(b) & 0x80000 != 0 <==> b & 0x1000 != 0
  {
    ReversedByteExact((b & 0xff) as bv8);
    ReversedByteExact(((b >> 8) & 0xff) as bv8);
    ReversedByteExact(((b >> 16) & 0xff) as bv8);
    ReversedByteExact(((b >> 24) & 0xff) as bv8);
  }

  lemma BitrevRows20(b: bv32)
    ensures Bitrev(b) & 0x100000 != 0 <==> b & 0x800 != 0
    ensures Bitrev(b) & 0x200000 != 0 <==> b & 0x400 != 0
    ensures Bitrev(b) & 0x400000 != 0 <==> b & 0x200 != 0
    ensures Bitrev(b) & 0x800000 != 0 <==> b & 0x100 != 0
  {
    ReversedByteExact((b & 0xff) as bv8);
    ReversedByteExact(((b >> 8) & 0xff) as bv8);
    ReversedByteExact(((b >> 16) & 0xff) as bv8);
    ReversedByteExact(((b >> 24) & 0xff) as bv8);
  }

  lemma BitrevRows24(b: bv32)
    ensures Bitrev(b) & 0x1000000 != 0 <==> b & 0x80 != 0
    ensures Bitrev(b) & 0x2000000 != 0 <==> b & 0x40 != 0
    ensures Bitrev(b) & 0x4000000 != 0 <==> b & 0x20 != 0
    ensures Bitrev(b) & 0x8000000 != 0 <==> b & 0x10 != 0
  {
    ReversedByteExact((b & 0xff) as bv8);
    ReversedByteExact(((b >> 8) & 0xff) as bv8);
    ReversedByteExact(((b >> 16) & 0xff) as bv8);
    ReversedByteExact(((b >> 24) & 0xff) as bv8);
  }

  lemma BitrevRows28(b: bv32)
    ensures Bitrev(b) & 0x10000000 != 0 <==> b & 0x8 != 0
    ensures Bitrev(b) & 0x20000000 != 0 <==> b & 0x4 != 0
    ensures Bitrev(b) & 0x40000000 != 0 <==> b & 0x2 != 0
    ensures Bitrev(b) & 0x80000000 != 0 <==> b & 0x1 != 0
  {
    ReversedByteExact((b & 0xff) as bv8);
    ReversedByteExact(((b >> 8) & 0xff) as bv8);
    ReversedByteExact(((b >> 16) & 0xff) as bv8);
    ReversedByteExact(((b >> 24) & 0xff) as bv8);
  }

  lemma Bitrev0(b: bv32, j: nat)
    requires 0 <= j < 4
    ensures Bitrev(b) & Power(j) != 0 <==> b & Power(31 - j) != 0
  {
    Powers();
    BitrevRows0(b);
  }

  lemma Bitrev4(b: bv32, j: nat)
    requires 4 <= j < 8
    ensures Bitrev(b) & Power(j) != 0 <==> b & Power(31 - j) != 0
  {
    Powers();
    BitrevRows4(b);
  }

  lemma Bitrev8(b: bv32, j: nat)
    requires 8 <= j < 12
    ensures Bitrev(b) & Power(j) != 0 <==> b & Power(31 - j) != 0
  {
    Powers();
    BitrevRows8(b);
  }

  lemma Bitrev12(b: bv32, j: nat)
    requires 12 <= j < 16
    ensures Bitrev(b) & Power(j) != 0 <==> b & Power(31 - j) != 0
  {
    Powers();
    BitrevRows12(b);
  }

  lemma Bitrev16(b: bv32, j: nat)
    requires 16 <= j < 20
    ensures Bitrev(b) & Power(j) != 0 <==> b & Power(31 - j) != 0
  {
    Powers();
    BitrevRows16(b);
  }

  lemma Bitrev20(b: bv32, j: nat)
    requires 20 <= j < 24
    ensures Bitrev(b) & Power(j) != 0 <==> b & Power(31 - j) != 0
  {
    Powers();
    BitrevRows20(b);
  }

  lemma Bitrev24(b: bv32, j: nat)
    requires 24 <= j < 28
    ensures Bitrev(b) & Power(j) != 0 <==> b & Power(31 - j) != 0
  {
    Powers();
    BitrevRows24(b);
  }

  lemma Bitrev28(b: bv32, j: nat)
    requires 28 <= j < 32
    ensures Bitrev(b) & Power(j) != 0 <==> b & Power(31 - j) != 0
  {
    Powers();
    BitrevRows28(b);
  }

  lemma BitrevRow(b: bv32, j: nat)
    requires j < 32
    ensures Bitrev(b) & Power(j) != 0 <==> b & Power(31 - j) != 0
  {
    if j < 16 {
      if j < 4 { Bitrev0(b, j); } else if j < 8 { Bitrev4(b, j); } else if j < 12 { Bitrev8(b, j); }
      else { Bitrev12(b, j); }
    } else {
      if j < 20 { Bitrev16(b, j); } else if j < 24 { Bitrev20(b, j); } else if j < 28 { Bitrev24(b, j); }
      else { Bitrev28(b, j); }
    }
  }

  lemma {:induction false} BitrevExact(b: bv32, j: nat)
    requires j < 32
    ensures Bit(Bitrev(b), j) <==> Bit(b, 31 - j)
  {
    BitPower(Bitrev(b), j);
    BitPower(b, 31 - j);
    BitrevRow(b, j);
  }

  lemma ReversedNonZero(b: bv32)
    requires b != 0
    ensures Bitrev(b) != 0
  {
    LsbExact(b);
    BitrevExact(b, 31 - Lsb(b));
  }

  /** For every non-zero word the backward scan gives the index of its highest bit. */
  lemma {:induction false} MsbExact(b: bv32)
    requires b != 0
    ensures 0 <= Msb(b) < 32 && Bit(b, Msb(b)) && forall j: nat :: Msb(b) < j < 32 ==> !Bit(b, j)
  {
    ReversedNonZero(b);
    LsbExact(Bitrev(b));
    BitrevExact(b, Lsb(Bitrev(b)));
    forall j: nat | Msb(b) < j < 32 ensures !Bit(b, j) {
      BitrevExact(b, 31 - j);
    }
  }

  // ----- the words that mask out slots -----

  /** What masks out the slots up to `i`. */
  function Above(i: nat): bv32
    requires i < 32
  {
    (0xFFFF_FFFF << i) << 1
  }

  /** What masks out the slots from `i` on. */
  function Below(i: nat): bv32
    requires i < 32
  {
    (0xFFFF_FFFF >> (31 - i)) >> 1
  }

  lemma Above0(i: nat)
    requires 0 <= i < 8
    ensures Above(i) == if i == 0 then 0xFFFF_FFFE else Above(i - 1) << 1
  {
  }

  lemma Above8(i: nat)
    requires 8 <= i < 16
    ensures Above(i) == if i == 0 then 0xFFFF_FFFE else Above(i - 1) << 1
  {
  }

  lemma Above16(i: nat)
    requires 16 <= i < 24
    ensures Above(i) == if i == 0 then 0xFFFF_FFFE else Above(i - 1) << 1
  {
  }

  lemma Above24(i: nat)
    requires 24 <= i < 32
    ensures Above(i) == if i == 0 then 0xFFFF_FFFE else Above(i - 1) << 1
  {
  }

  lemma {:induction false} Below0(i: nat)
    requires 0 <= i < 8
    ensures Below(i) == LowBits(i)
  {
    LowBitsRows();
  }

  lemma {:induction false} Below8(i: nat)
    requires 8 <= i < 16
    ensures Below(i) == LowBits(i)
  {
    LowBitsRows();
  }

  lemma {:induction false} Below16(i: nat)
    requires 16 <= i < 24
    ensures Below(i) == LowBits(i)
  {
    LowBitsRows();
  }

  lemma {:induction false} Below24(i: nat)
    requires 24 <= i < 32
    ensures Below(i) == LowBits(i)
  {
    LowBitsRows();
  }

  lemma AboveStep(i: nat)
    requires i < 32
    ensures Above(i) == if i == 0 then 0xFFFF_FFFE else Above(i - 1) << 1
  {
    if i < 8 { Above0(i); } else if i < 16 { Above8(i); } else if i < 24 { Above16(i); } else { Above24(i); }
  }

  lemma {:induction false} AboveBits(i: nat, j: nat)
    requires i < 32 && j < 32
    ensures Bit(Above(i), j) <==> i < j
    decreases i
  {
    AboveStep(i);
    if i == 0 {
      assert (0xFFFF_FFFF as bv32) << 1 == 0xFFFF_FFFE;
      DoubleBits(0xFFFF_FFFF, j);
      if j > 0 { AllBits(j - 1); }
    } else {
      DoubleBits(Above(i - 1), j);
      if j > 0 { AboveBits(i - 1, j - 1); }
    }
  }

  lemma {:induction false} AllBits(j: nat)
    requires j < 32
    ensures Bit(0xFFFF_FFFF, j)
  {
    LowBitsRows();
    LowBitsExact(32, j);
  }

  lemma {:induction false} BelowBits(i: nat, j: nat)
    requires i < 32 && j < 32
    ensures Bit(Below(i), j) <==> j < i
  {
    if i < 8 { Below0(i); } else if i < 16 { Below8(i); } else if i < 24 { Below16(i); } else { Below24(i); }
    LowBitsExact(i, j);
  }

  // ----- the scans of the trie -----

  /** The slots of a mask word. */
  ghost function Members(w: bv32): set<nat> {
    set i: nat | i < SLOTS && Bit(w, i)
  }

  /** The slots that two mask words share. */
  lemma MembersAnd(w: bv32, x: bv32)
    ensures Members(w & x) == Members(w) * Members(x)
  {
    forall j: nat | j < SLOTS ensures Bit(w & x, j) <==> Bit(w, j) && Bit(x, j) { AndBits(w, x, j); }
  }

  lemma AboveWord(i: nat) returns (x: bv32)
    requires i < SLOTS
    ensures x == Above(i) && forall j: nat :: j < SLOTS ==> (Bit(x, j) <==> i < j)
  {
    x := Above(i);
    forall j: nat | j < SLOTS ensures Bit(x, j) <==> i < j { AboveBits(i, j); }
  }

  lemma MembersAbove(w: bv32, i: nat)
    requires i < SLOTS
    ensures Members(w & Above(i)) == set j: nat | j in Members(w) && i < j
  {
    var x := AboveWord(i);
    MembersAnd(w, x);
    assert forall j: nat :: j in Members(x) <==> i < j < SLOTS;
  }

  lemma BelowWord(i: nat) returns (x: bv32)
    requires i < SLOTS
    ensures x == Below(i) && forall j: nat :: j < SLOTS ==> (Bit(x, j) <==> j < i)
  {
    x := Below(i);
    forall j: nat | j < SLOTS ensures Bit(x, j) <==> j < i { BelowBits(i, j); }
  }

  lemma MembersBelow(w: bv32, i: nat)
    requires i < SLOTS
    ensures Members(w & Below(i)) == set j: nat | j in Members(w) && j < i
  {
    var x := BelowWord(i);
    MembersAnd(w, x);
    assert forall j: nat :: j in Members(x) <==> j < i;
  }

  /** The scans give the least and the greatest member. */
  lemma ScanMembers(b: bv32)
    ensures b == 0 ==> Members(b) == {}
    ensures b != 0 ==> Lsb(b) in Members(b) && forall j: nat :: j in Members(b) ==> Lsb(b) <= j
    ensures b != 0 ==> Msb(b) in Members(b) && forall j: nat :: j in Members(b) ==> j <= Msb(b)
  {
    if b == 0 {
      forall j: nat ensures !Bit(b, j) { ZeroBit(j); }
    } else {
      LsbExact(b);
      MsbExact(b);
    }
  }

  /** Scanning what is left of a mask word above slot `i` finds the next slot in use. */
  lemma {:induction false} NextSlotIsLsb(w: bv32, i: nat)
    requires i < SLOTS
    ensures var rest := w & Above(i);
            NextSlot(Members(w), i + 1) == if rest == 0 then SLOTS else Lsb(rest)
  {
    MembersAbove(w, i);
    ScanMembers(w & Above(i));
    MinIsNext(Members(w), i);
  }

  lemma MinIsNext(mask: set<nat>, i: nat)
    requires i < SLOTS && forall j: nat :: j in mask ==> j < SLOTS
    ensures var s, rest := NextSlot(mask, i + 1), set j: nat | j in mask && i < j;
            if s == SLOTS then rest == {} else s in rest && forall j: nat :: j in rest ==> s <= j
  {
  }

  /** Scanning what is left of it below slot `i`, backwards, finds the previous slot in use. */
  lemma {:induction false} PreviousSlotIsMsb(w: bv32, i: nat)
    requires i < SLOTS
    ensures var rest := w & Below(i);
            PreviousSlot(Members(w), i) == if rest == 0 then SLOTS else Msb(rest)
  {
    MembersBelow(w, i);
    ScanMembers(w & Below(i));
    MaxIsPrevious(Members(w), i);
  }

  lemma {:induction false} MaxIsPrevious(mask: set<nat>, i: nat)
    requires i <= SLOTS && forall j: nat :: j in mask ==> j < SLOTS
    ensures var s, rest := PreviousSlot(mask, i), set j: nat | j in mask && j < i;
            if s == SLOTS then rest == {} else s in rest && forall j: nat :: j in rest ==> j <= s
  {
  }

  /** A descent goes to the first slot of a node, or back to its last one. */
  lemma EndSlots(w: bv32)
    requires w != 0
    ensures NextSlot(Members(w), 0) == Lsb(w) && PreviousSlot(Members(w), SLOTS) == Msb(w)
  {
    ScanMembers(w);
    assert NextSlot(Members(w), 0) in Members(w) && PreviousSlot(Members(w), SLOTS) in Members(w);
  }
}
