/** The byte tables and the field arithmetic of AES. */
module AesField {

  import opened ByteTables

  /** The S-box, its table read eight bytes at a time. */
  function Sbox(x: bv8): bv8 {
    ByteOf(SboxRow(x), x)
  }

  function SboxRow(x: bv8): bv64 {
    if x & 0x80 == 0 then
      if x & 0x40 == 0 then
        if x & 0x20 == 0 then
          if x & 0x10 == 0 then
            if x & 0x08 == 0 then 0x637c777bf26b6fc5 else 0x3001672bfed7ab76
          else
            if x & 0x08 == 0 then 0xca82c97dfa5947f0 else 0xadd4a2af9ca472c0
        else
          if x & 0x10 == 0 then
            if x & 0x08 == 0 then 0xb7fd9326363ff7cc else 0x34a5e5f171d83115
          else
            if x & 0x08 == 0 then 0x04c723c31896059a else 0x071280e2eb27b275
      else
        if x & 0x20 == 0 then
          if x & 0x10 == 0 then
            if x & 0x08 == 0 then 0x09832c1a1b6e5aa0 else 0x523bd6b329e32f84
          else
            if x & 0x08 == 0 then 0x53d100ed20fcb15b else 0x6acbbe394a4c58cf
        else
          if x & 0x10 == 0 then
            if x & 0x08 == 0 then 0xd0efaafb434d3385 else 0x45f9027f503c9fa8
          else
            if x & 0x08 == 0 then 0x51a3408f929d38f5 else 0xbcb6da2110fff3d2
    else
      if x & 0x40 == 0 then
        if x & 0x20 == 0 then
          if x & 0x10 == 0 then
            if x & 0x08 == 0 then 0xcd0c13ec5f974417 else 0xc4a77e3d645d1973
          else
            if x & 0x08 == 0 then 0x60814fdc222a9088 else 0x46eeb814de5e0bdb
        else
          if x & 0x10 == 0 then
            if x & 0x08 == 0 then 0xe0323a0a4906245c else 0xc2d3ac629195e479
          else
            if x & 0x08 == 0 then 0xe7c8376d8dd54ea9 else 0x6c56f4ea657aae08
      else
        if x & 0x20 == 0 then
          if x & 0x10 == 0 then
            if x & 0x08 == 0 then 0xba78252e1ca6b4c6 else 0xe8dd741f4bbd8b8a
          else
            if x & 0x08 == 0 then 0x703eb5664803f60e else 0x613557b986c11d9e
        else
          if x & 0x10 == 0 then
            if x & 0x08 == 0 then 0xe1f8981169d98e94 else 0x9b1e87e9ce5528df
          else
            if x & 0x08 == 0 then 0x8ca1890dbfe64268 else 0x41992d0fb054bb16
  }

  /** The inverse S-box. */
  function Rsbox(x: bv8): bv8 {
    ByteOf(RsboxRow(x), x)
  }

  function RsboxRow(x: bv8): bv64 {
    if x & 0x80 == 0 then
      if x & 0x40 == 0 then
        if x & 0x20 == 0 then
          if x & 0x10 == 0 then
            if x & 0x08 == 0 then 0x52096ad53036a538 else 0xbf40a39e81f3d7fb
          else
            if x & 0x08 == 0 then 0x7ce339829b2fff87 else 0x348e4344c4dee9cb
        else
          if x & 0x10 == 0 then
            if x & 0x08 == 0 then 0x547b9432a6c2233d else 0xee4c950b42fac34e
          else
            if x & 0x08 == 0 then 0x082ea16628d924b2 else 0x765ba2496d8bd125
      else
        if x & 0x20 == 0 then
          if x & 0x10 == 0 then
            if x & 0x08 == 0 then 0x72f8f66486689816 else 0xd4a45ccc5d65b692
          else
            if x & 0x08 == 0 then 0x6c704850fdedb9da else 0x5e154657a78d9d84
        else
          if x & 0x10 == 0 then
            if x & 0x08 == 0 then 0x90d8ab008cbcd30a else 0xf7e45805b8b34506
          else
            if x & 0x08 == 0 then 0xd02c1e8fca3f0f02 else 0xc1afbd0301138a6b
    else
      if x & 0x40 == 0 then
        if x & 0x20 == 0 then
          if x & 0x10 == 0 then
            if x & 0x08 == 0 then 0x3a9111414f67dcea else 0x97f2cfcef0b4e673
          else
            if x & 0x08 == 0 then 0x96ac7422e7ad3585 else 0xe2f937e81c75df6e
        else
          if x & 0x10 == 0 then
            if x & 0x08 == 0 then 0x47f11a711d29c589 else 0x6fb7620eaa18be1b
          else
            if x & 0x08 == 0 then 0xfc563e4bc6d27920 else 0x9adbc0fe78cd5af4
      else
        if x & 0x20 == 0 then
          if x & 0x10 == 0 then
            if x & 0x08 == 0 then 0x1fdda8338807c731 else 0xb11210592780ec5f
          else
            if x & 0x08 == 0 then 0x60517fa919b54a0d else 0x2de57a9f93c99cef
        else
          if x & 0x10 == 0 then
            if x & 0x08 == 0 then 0xa0e03b4dae2af5b0 else 0xc8ebbb3c83539961
          else
            if x & 0x08 == 0 then 0x172b047eba77d626 else 0xe169146355210c7d
  }

  /** The tables are inverse to each other. */
  lemma SboxRoundTrip(x: bv8)
    ensures Rsbox(Sbox(x)) == x
  {
  }

  lemma RsboxRoundTrip(x: bv8)
    ensures Sbox(Rsbox(x)) == x
  {
  }

  // ----- the field, section 4.2 of FIPS 197 -----

  function Xor(a: bv8, b: bv8): bv8 {
    a ^ b
  }

  /** Multiplication by x modulo x^8 + x^4 + x^3 + x + 1. */
  function Xtime(b: bv8): bv8 {
    if b & 0x80 == 0 then b << 1 else (b << 1) ^ 0x1b
  }

  /** The product of two bytes: the sum of the multiples of `a` by the powers of x in `b`. */
  function Times(a: bv8, b: bv8): bv8
    decreases b
  {
    if b == 0 then 0 else Xor(if b & 1 == 0 then 0 else a, Times(Xtime(a), b >> 1))
  }

  lemma XtimeSum(a: bv8, b: bv8)
    ensures Xtime(Xor(a, b)) == Xor(Xtime(a), Xtime(b))
  {
    if a & 0x80 == 0 {
      if b & 0x80 == 0 { } else { }
    } else {
      if b & 0x80 == 0 { } else { }
    }
  }

  lemma XorCommutes(a: bv8, b: bv8)
    ensures Xor(a, b) == Xor(b, a)
  {
  }

  lemma XorAssociates(a: bv8, b: bv8, c: bv8)
    ensures Xor(Xor(a, b), c) == Xor(a, Xor(b, c))
  {
  }

  lemma XorCancels(a: bv8, b: bv8)
    ensures Xor(Xor(a, a), b) == b
  {
  }

  lemma XorSwaps(p: bv8, q: bv8, r: bv8, s: bv8)
    ensures Xor(Xor(p, q), Xor(r, s)) == Xor(Xor(p, r), Xor(q, s))
  {
    XorAssociates(p, q, Xor(r, s));
    XorAssociates(q, r, s);
    XorCommutes(q, r);
    XorAssociates(r, q, s);
    XorAssociates(p, r, Xor(q, s));
  }

  function Multiple(a: bv8, bit: bv8): bv8 {
    if bit == 0 then 0 else a
  }

  lemma TimesStep(a: bv8, b: bv8)
    ensures Times(a, b) == Xor(Multiple(a, b & 1), Times(Xtime(a), b >> 1))
  {
  }

  lemma MultipleSum(a: bv8, c: bv8, bit: bv8)
    ensures Multiple(Xor(a, c), bit) == Xor(Multiple(a, bit), Multiple(c, bit))
  {
  }

  lemma {:induction false} TimesSum(a: bv8, c: bv8, b: bv8)
    ensures Times(Xor(a, c), b) == Xor(Times(a, b), Times(c, b))
    decreases b
  {
    if b == 0 {
      assert Xor(0, 0) == 0;
    } else {
      TimesStep(a, b);
      TimesStep(c, b);
      TimesStep(Xor(a, c), b);
      XtimeSum(a, c);
      MultipleSum(a, c, b & 1);
      TimesSum(Xtime(a), Xtime(c), b >> 1);
      XorSwaps(Multiple(a, b & 1), Multiple(c, b & 1), Times(Xtime(a), b >> 1), Times(Xtime(c), b >> 1));
    }
  }

  // ----- what the tables are, section 5.1.1 of FIPS 197 -----

  function Affine(x: bv8): bv8 {
    x ^ x.RotateLeft(1) ^ x.RotateLeft(2) ^ x.RotateLeft(3) ^ x.RotateLeft(4) ^ 0x63
  }

  function AffineInverse(s: bv8): bv8 {
    s.RotateLeft(1) ^ s.RotateLeft(3) ^ s.RotateLeft(6) ^ 0x05
  }

  lemma AffineRoundTrip(s: bv8)
    ensures Affine(AffineInverse(s)) == s
  {
  }

  lemma ShiftSteps(b: bv8)
    ensures (b >> 1) >> 1 == b >> 2 && (b >> 2) >> 1 == b >> 3 && (b >> 3) >> 1 == b >> 4
    ensures (b >> 4) >> 1 == b >> 5 && (b >> 5) >> 1 == b >> 6 && (b >> 6) >> 1 == b >> 7 && (b >> 7) >> 1 == 0
  {
  }

  /** A product, bit by bit. */
  lemma {:induction false} TimesBits(a: bv8, b: bv8)
    ensures var a1 := Xtime(a); var a2 := Xtime(a1); var a3 := Xtime(a2); var a4 := Xtime(a3);
            var a5 := Xtime(a4); var a6 := Xtime(a5); var a7 := Xtime(a6);
            Times(a, b) == Xor(Multiple(a, b & 1), Xor(Multiple(a1, (b >> 1) & 1), Xor(Multiple(a2, (b >> 2) & 1),
              Xor(Multiple(a3, (b >> 3) & 1), Xor(Multiple(a4, (b >> 4) & 1), Xor(Multiple(a5, (b >> 5) & 1),
                Xor(Multiple(a6, (b >> 6) & 1), Xor(Multiple(a7, (b >> 7) & 1), 0))))))))
  {
    ShiftSteps(b);
    var a1 := Xtime(a);
    var a2 := Xtime(a1);
    var a3 := Xtime(a2);
    var a4 := Xtime(a3);
    var a5 := Xtime(a4);
    var a6 := Xtime(a5);
    var a7 := Xtime(a6);
    TimesStep(a, b);
    TimesStep(a1, b >> 1);
    TimesStep(a2, b >> 2);
    TimesStep(a3, b >> 3);
    TimesStep(a4, b >> 4);
    TimesStep(a5, b >> 5);
    TimesStep(a6, b >> 6);
    TimesStep(a7, b >> 7);
  }

  lemma {:induction false} SboxLow(x: bv8)
    requires x < 128
    ensures x != 0 ==> Times(x, AffineInverse(Sbox(x))) == 1
  {
    TimesBits(x, AffineInverse(Sbox(x)));
  }

  lemma {:induction false} SboxHigh(x: bv8)
    requires x >= 128
    ensures Times(x, AffineInverse(Sbox(x))) == 1
  {
    TimesBits(x, AffineInverse(Sbox(x)));
  }

  /** The S-box maps zero to the constant, and every other byte to the affine image of its inverse. */
  lemma SboxMeaning(x: bv8) returns (y: bv8)
    ensures Sbox(x) == Affine(y)
    ensures x == 0 ==> y == 0
    ensures x != 0 ==> Times(x, y) == 1
  {
    y := AffineInverse(Sbox(x));
    AffineRoundTrip(Sbox(x));
    if x < 128 { SboxLow(x); } else { SboxHigh(x); }
  }

  // ----- how the code multiplies -----

  /** By x: without a branch. */
  function XtimeCode(x: bv8): bv8 {
    (x << 1) ^ (((x >> 7) & 1) * 0x1b)
  }

  lemma XtimeExact(x: bv8)
    ensures XtimeCode(x) == Xtime(x)
  {
  }

  /** By a byte of five bits. */
  function Multiply(x: bv8, y: bv8): bv8 {
    var x1 := XtimeCode(x);
    var x2 := XtimeCode(x1);
    var x3 := XtimeCode(x2);
    var x4 := XtimeCode(x3);
    ((y & 1) * x) ^ (((y >> 1) & 1) * x1) ^ (((y >> 2) & 1) * x2) ^ (((y >> 3) & 1) * x3) ^ (((y >> 4) & 1) * x4)
  }

  lemma XtimesExact(x: bv8)
    ensures XtimeCode(x) == Xtime(x)
    ensures XtimeCode(XtimeCode(x)) == Xtime(Xtime(x))
    ensures XtimeCode(XtimeCode(XtimeCode(x))) == Xtime(Xtime(Xtime(x)))
    ensures XtimeCode(XtimeCode(XtimeCode(XtimeCode(x)))) == Xtime(Xtime(Xtime(Xtime(x))))
  {
    XtimeExact(x);
    XtimeExact(Xtime(x));
    XtimeExact(Xtime(Xtime(x)));
    XtimeExact(Xtime(Xtime(Xtime(x))));
  }

  lemma {:induction false} Multiply9(x: bv8)
    ensures Multiply(x, 0x09) == Times(x, 0x09)
  {
    XtimesExact(x);
    TimesBits(x, 0x09);
  }

  lemma {:induction false} Multiply11(x: bv8)
    ensures Multiply(x, 0x0b) == Times(x, 0x0b)
  {
    XtimesExact(x);
    TimesBits(x, 0x0b);
  }

  lemma {:induction false} Multiply13(x: bv8)
    ensures Multiply(x, 0x0d) == Times(x, 0x0d)
  {
    XtimesExact(x);
    TimesBits(x, 0x0d);
  }

  lemma {:induction false} Multiply14(x: bv8)
    ensures Multiply(x, 0x0e) == Times(x, 0x0e)
  {
    XtimesExact(x);
    TimesBits(x, 0x0e);
  }

  /** The code's product is that of the field, for the factors it is used with. */
  lemma {:induction false} MultiplyExact(x: bv8, y: bv8)
    requires y in [0x09, 0x0b, 0x0d, 0x0e]
    ensures Multiply(x, y) == Times(x, y)
  {
    Multiply9(x);
    Multiply11(x);
    Multiply13(x);
    Multiply14(x);
  }

  // ----- columns, sections 5.1.3 and 5.3.3 of FIPS 197 -----

  function Sum(a: bv8, b: bv8, c: bv8, d: bv8): bv8 {
    Xor(Xor(a, b), Xor(c, d))
  }

  type Column = (bv8, bv8, bv8, bv8)

  function MixByte(a: bv8, b: bv8, c: bv8, d: bv8): bv8 {
    Sum(Times(a, 2), Times(b, 3), c, d)
  }

  function MixColumn(s: Column): Column {
    (MixByte(s.0, s.1, s.2, s.3), MixByte(s.1, s.2, s.3, s.0), MixByte(s.2, s.3, s.0, s.1), MixByte(s.3, s.0, s.1, s.2))
  }

  function InvMixByte(a: bv8, b: bv8, c: bv8, d: bv8): bv8 {
    Sum(Times(a, 0x0e), Times(b, 0x0b), Times(c, 0x0d), Times(d, 0x09))
  }

  function InvMixColumn(s: Column): Column {
    (InvMixByte(s.0, s.1, s.2, s.3), InvMixByte(s.1, s.2, s.3, s.0),
     InvMixByte(s.2, s.3, s.0, s.1), InvMixByte(s.3, s.0, s.1, s.2))
  }

  lemma SumAdds(a: Column, b: Column)
    ensures Xor(Sum(a.0, a.1, a.2, a.3), Sum(b.0, b.1, b.2, b.3))
         == Sum(Xor(a.0, b.0), Xor(a.1, b.1), Xor(a.2, b.2), Xor(a.3, b.3))
  {
    XorSwaps(Xor(a.0, a.1), Xor(a.2, a.3), Xor(b.0, b.1), Xor(b.2, b.3));
    XorSwaps(a.0, a.1, b.0, b.1);
    XorSwaps(a.2, a.3, b.2, b.3);
  }

  /** A sum of four sums, by rows or by columns. */
  lemma SumTransposes(a: Column, b: Column, c: Column, d: Column)
    ensures Sum(Sum(a.0, a.1, a.2, a.3), Sum(b.0, b.1, b.2, b.3), Sum(c.0, c.1, c.2, c.3), Sum(d.0, d.1, d.2, d.3))
         == Sum(Sum(a.0, b.0, c.0, d.0), Sum(a.1, b.1, c.1, d.1), Sum(a.2, b.2, c.2, d.2), Sum(a.3, b.3, c.3, d.3))
  {
    var ab := (Xor(a.0, b.0), Xor(a.1, b.1), Xor(a.2, b.2), Xor(a.3, b.3));
    var cd := (Xor(c.0, d.0), Xor(c.1, d.1), Xor(c.2, d.2), Xor(c.3, d.3));
    SumAdds(a, b);
    SumAdds(c, d);
    SumAdds(ab, cd);
  }

  lemma {:induction false} TimesOfSum(a: bv8, b: bv8, c: bv8, d: bv8, y: bv8)
    ensures Times(Sum(a, b, c, d), y) == Sum(Times(a, y), Times(b, y), Times(c, y), Times(d, y))
  {
    TimesSum(Xor(a, b), Xor(c, d), y);
    TimesSum(a, b, y);
    TimesSum(c, d, y);
  }

  /** Mixing by bytes with a coefficient for each place. */
  lemma {:induction false} MixTimes(a: bv8, b: bv8, c: bv8, d: bv8, y: bv8)
    ensures Times(MixByte(a, b, c, d), y) == Sum(Times(Times(a, 2), y), Times(Times(b, 3), y), Times(c, y), Times(d, y))
  {
    TimesOfSum(Times(a, 2), Times(b, 3), c, d, y);
  }

  lemma SumRotates(a: bv8, b: bv8, c: bv8, d: bv8)
    ensures Sum(a, b, c, d) == Sum(d, a, b, c)
  {
    XorCommutes(Xor(a, b), Xor(c, d));
    XorCommutes(c, d);
    XorAssociates(d, c, Xor(a, b));
    XorCommutes(c, Xor(a, b));
    XorAssociates(a, b, c);
    XorAssociates(d, a, Xor(b, c));
  }

  // The coefficients of the matrix product, each a fact about a single byte.

  lemma {:induction false} Times2(a: bv8)
    ensures Times(a, 2) == Xtime(a)
  {
    TimesBits(a, 2);
  }

  lemma {:induction false} Times3(a: bv8)
    ensures Times(a, 3) == Xor(a, Xtime(a))
  {
    TimesBits(a, 3);
  }

  lemma {:induction false} Coefficient0(a: bv8)
    ensures Sum(Times(Times(a, 2), 0x0e), Times(a, 0x0b), Times(a, 0x0d), Times(Times(a, 3), 0x09)) == a
  {
    Times2(a);
    Times3(a);
    TimesBits(Xtime(a), 0x0e);
    TimesBits(a, 0x0b);
    TimesBits(a, 0x0d);
    TimesBits(Xor(a, Xtime(a)), 0x09);
  }

  lemma {:induction false} Coefficient1(a: bv8)
    ensures Sum(Times(Times(a, 3), 0x0e), Times(Times(a, 2), 0x0b), Times(a, 0x0d), Times(a, 0x09)) == 0
  {
    Times2(a);
    Times3(a);
    TimesBits(Xor(a, Xtime(a)), 0x0e);
    TimesBits(Xtime(a), 0x0b);
    TimesBits(a, 0x0d);
    TimesBits(a, 0x09);
  }

  lemma {:induction false} Coefficient2(a: bv8)
    ensures Sum(Times(a, 0x0e), Times(Times(a, 3), 0x0b), Times(Times(a, 2), 0x0d), Times(a, 0x09)) == 0
  {
    Times2(a);
    Times3(a);
    TimesBits(a, 0x0e);
    TimesBits(Xor(a, Xtime(a)), 0x0b);
    TimesBits(Xtime(a), 0x0d);
    TimesBits(a, 0x09);
  }

  lemma {:induction false} Coefficient3(a: bv8)
    ensures Sum(Times(a, 0x0e), Times(a, 0x0b), Times(Times(a, 3), 0x0d), Times(Times(a, 2), 0x09)) == 0
  {
    Times2(a);
    Times3(a);
    TimesBits(a, 0x0e);
    TimesBits(a, 0x0b);
    TimesBits(Xor(a, Xtime(a)), 0x0d);
    TimesBits(Xtime(a), 0x09);
  }

  /** One byte of a column mixed there and back. */
  lemma InvMixOfMix(a: bv8, b: bv8, c: bv8, d: bv8)
    ensures InvMixByte(MixByte(a, b, c, d), MixByte(b, c, d, a), MixByte(c, d, a, b), MixByte(d, a, b, c)) == a
  {
    MixTimes(a, b, c, d, 0x0e);
    MixTimes(b, c, d, a, 0x0b);
    MixTimes(c, d, a, b, 0x0d);
    MixTimes(d, a, b, c, 0x09);
    // Each row is rotated so that the terms of `a` stand first.
    var r0 := (Times(Times(a, 2), 0x0e), Times(Times(b, 3), 0x0e), Times(c, 0x0e), Times(d, 0x0e));
    var r1 := (Times(a, 0x0b), Times(Times(b, 2), 0x0b), Times(Times(c, 3), 0x0b), Times(d, 0x0b));
    var r2 := (Times(a, 0x0d), Times(b, 0x0d), Times(Times(c, 2), 0x0d), Times(Times(d, 3), 0x0d));
    var r3 := (Times(Times(a, 3), 0x09), Times(b, 0x09), Times(c, 0x09), Times(Times(d, 2), 0x09));
    SumRotates(r1.1, r1.2, r1.3, r1.0);
    SumRotates(r2.2, r2.3, r2.0, r2.1);
    SumRotates(r2.1, r2.2, r2.3, r2.0);
    SumRotates(r3.3, r3.0, r3.1, r3.2);
    SumRotates(r3.2, r3.3, r3.0, r3.1);
    SumRotates(r3.1, r3.2, r3.3, r3.0);
    SumTransposes(r0, r1, r2, r3);
    Coefficient0(a);
    Coefficient1(b);
    Coefficient2(c);
    Coefficient3(d);
    assert Sum(a, 0, 0, 0) == a;
  }

  /** Unmixing undoes mixing. */
  lemma InvMixRoundTrip(s: Column)
    ensures InvMixColumn(MixColumn(s)) == s
  {
    InvMixOfMix(s.0, s.1, s.2, s.3);
    InvMixOfMix(s.1, s.2, s.3, s.0);
    InvMixOfMix(s.2, s.3, s.0, s.1);
    InvMixOfMix(s.3, s.0, s.1, s.2);
  }

  /** Multiples by 2 and 3 may be taken first or last. */
  lemma {:induction false} XtimeTimes(a: bv8, x: bv8)
    ensures Xtime(Times(a, x)) == Times(Xtime(a), x)
    decreases x
  {
    if x == 0 {
      assert Xtime(0) == 0;
    } else {
      TimesStep(a, x);
      TimesStep(Xtime(a), x);
      XtimeSum(Multiple(a, x & 1), Times(Xtime(a), x >> 1));
      XtimeTimes(Xtime(a), x >> 1);
      XtimeMultiple(a, x & 1);
    }
  }

  lemma XtimeMultiple(a: bv8, bit: bv8)
    ensures Xtime(Multiple(a, bit)) == Multiple(Xtime(a), bit)
  {
    assert Xtime(0) == 0;
  }

  lemma {:induction false} Times2Last(a: bv8, x: bv8)
    ensures Times(Times(a, x), 2) == Times(Times(a, 2), x)
  {
    Times2(a);
    Times2(Times(a, x));
    XtimeTimes(a, x);
  }

  lemma {:induction false} Times3Last(a: bv8, x: bv8)
    ensures Times(Times(a, x), 3) == Times(Times(a, 3), x)
  {
    Times3(a);
    Times3(Times(a, x));
    XtimeTimes(a, x);
    TimesSum(a, Xtime(a), x);
  }

  lemma SumSwaps(a: bv8, b: bv8, c: bv8, d: bv8)
    ensures Sum(a, b, c, d) == Sum(a, d, c, b)
  {
    XorCommutes(c, d);
    XorSwaps(a, b, d, c);
    XorCommutes(b, c);
  }

  /** The double of what unmixing gives in one place. */
  lemma {:induction false} InvTimes2(a: bv8, b: bv8, c: bv8, d: bv8)
    ensures Times(InvMixByte(a, b, c, d), 2)
         == Sum(Times(Times(a, 2), 0x0e), Times(Times(b, 2), 0x0b), Times(Times(c, 2), 0x0d), Times(Times(d, 2), 0x09))
  {
    TimesOfSum(Times(a, 0x0e), Times(b, 0x0b), Times(c, 0x0d), Times(d, 0x09), 2);
    Times2Last(a, 0x0e);
    Times2Last(b, 0x0b);
    Times2Last(c, 0x0d);
    Times2Last(d, 0x09);
  }

  lemma {:induction false} InvTimes3(a: bv8, b: bv8, c: bv8, d: bv8)
    ensures Times(InvMixByte(a, b, c, d), 3)
         == Sum(Times(Times(a, 3), 0x0e), Times(Times(b, 3), 0x0b), Times(Times(c, 3), 0x0d), Times(Times(d, 3), 0x09))
  {
    TimesOfSum(Times(a, 0x0e), Times(b, 0x0b), Times(c, 0x0d), Times(d, 0x09), 3);
    Times3Last(a, 0x0e);
    Times3Last(b, 0x0b);
    Times3Last(c, 0x0d);
    Times3Last(d, 0x09);
  }

  /** One byte of a column unmixed and mixed again. */
  lemma {:induction false} MixOfInvMix(a: bv8, b: bv8, c: bv8, d: bv8)
    ensures MixByte(InvMixByte(a, b, c, d), InvMixByte(b, c, d, a), InvMixByte(c, d, a, b), InvMixByte(d, a, b, c)) == a
  {
    InvTimes2(a, b, c, d);
    InvTimes3(b, c, d, a);
    var r0 := (Times(Times(a, 2), 0x0e), Times(Times(b, 2), 0x0b), Times(Times(c, 2), 0x0d), Times(Times(d, 2), 0x09));
    var r1 := (Times(Times(a, 3), 0x09), Times(Times(b, 3), 0x0e), Times(Times(c, 3), 0x0b), Times(Times(d, 3), 0x0d));
    var r2 := (Times(a, 0x0d), Times(b, 0x09), Times(c, 0x0e), Times(d, 0x0b));
    var r3 := (Times(a, 0x0b), Times(b, 0x0d), Times(c, 0x09), Times(d, 0x0e));
    SumRotates(r1.1, r1.2, r1.3, r1.0);
    SumRotates(r2.2, r2.3, r2.0, r2.1);
    SumRotates(r2.1, r2.2, r2.3, r2.0);
    SumRotates(r3.3, r3.0, r3.1, r3.2);
    SumRotates(r3.2, r3.3, r3.0, r3.1);
    SumRotates(r3.1, r3.2, r3.3, r3.0);
    SumSwaps(Sum(r0.0, r0.1, r0.2, r0.3), Sum(r1.0, r1.1, r1.2, r1.3),
             Sum(r2.0, r2.1, r2.2, r2.3), Sum(r3.0, r3.1, r3.2, r3.3));
    SumTransposes(r0, r3, r2, r1);
    MixedCoefficients(a, b, c, d);
    assert Sum(a, 0, 0, 0) == a;
  }

  /** The coefficients in the order in which they come when unmixing is first. */
  lemma {:induction false} MixedCoefficients(a: bv8, b: bv8, c: bv8, d: bv8)
    ensures Sum(Times(Times(a, 2), 0x0e), Times(a, 0x0b), Times(a, 0x0d), Times(Times(a, 3), 0x09)) == a
    ensures Sum(Times(Times(b, 2), 0x0b), Times(b, 0x0d), Times(b, 0x09), Times(Times(b, 3), 0x0e)) == 0
    ensures Sum(Times(Times(c, 2), 0x0d), Times(c, 0x09), Times(c, 0x0e), Times(Times(c, 3), 0x0b)) == 0
    ensures Sum(Times(Times(d, 2), 0x09), Times(d, 0x0e), Times(d, 0x0b), Times(Times(d, 3), 0x0d)) == 0
  {
    Coefficient0(a);
    Coefficient1(b);
    SumRotates(Times(Times(b, 2), 0x0b), Times(b, 0x0d), Times(b, 0x09), Times(Times(b, 3), 0x0e));
    Coefficient2(c);
    SumRotates(Times(Times(c, 2), 0x0d), Times(c, 0x09), Times(c, 0x0e), Times(Times(c, 3), 0x0b));
    SumRotates(Times(Times(c, 3), 0x0b), Times(Times(c, 2), 0x0d), Times(c, 0x09), Times(c, 0x0e));
    Coefficient3(d);
    SumRotates(Times(d, 0x0e), Times(d, 0x0b), Times(Times(d, 3), 0x0d), Times(Times(d, 2), 0x09));
  }

  /** Mixing undoes unmixing. */
  lemma MixRoundTrip(s: Column)
    ensures MixColumn(InvMixColumn(s)) == s
  {
    MixOfInvMix(s.0, s.1, s.2, s.3);
    MixOfInvMix(s.1, s.2, s.3, s.0);
    MixOfInvMix(s.2, s.3, s.0, s.1);
    MixOfInvMix(s.3, s.0, s.1, s.2);
  }

  // ----- how the code mixes -----

  /** One byte of a column, from it, the one below and the sum of all. */
  function MixCode(a: bv8, b: bv8, all: bv8): bv8 {
    Xor(a, Xor(XtimeCode(Xor(a, b)), all))
  }

  lemma MixCodeExact(a: bv8, b: bv8, c: bv8, d: bv8)
    ensures MixCode(a, b, Sum(a, b, c, d)) == MixByte(a, b, c, d)
  {
    var t, r := Xor(Xtime(a), Xtime(b)), Xor(b, Xor(c, d));
    XtimeExact(Xor(a, b));
    XtimeSum(a, b);
    XorAssociates(a, b, Xor(c, d));
    XorAssociates(a, t, Xor(a, r));
    XorSwaps(a, t, a, r);
    XorCancels(a, Xor(t, r));
    XorAssociates(Xtime(a), Xtime(b), r);
    XorAssociates(Xtime(b), b, Xor(c, d));
    XorCommutes(Xtime(b), b);
    XorAssociates(Xtime(a), Xor(b, Xtime(b)), Xor(c, d));
    Times2(a);
    Times3(b);
  }
}
