/** The AES-256 block cipher as FIPS 197 describes it, its inverse, and cipher block chaining. */
module AesCipher {
  import opened AesField

  const BLOCK: nat := 16

  /** Sixteen bytes, column by column. */
  type Block = s: seq<bv8> | |s| == 16 witness seq(16, _ => 0)

  /** The expanded key: one block for each round, and one more. */
  type Schedule = w: seq<bv8> | |w| == 240 witness seq(240, _ => 0)

  /** The number of rounds. */
  function Nr(w: Schedule): (n: nat)
    ensures n == 14
  {
    |w| / BLOCK - 1
  }

  // ----- sections 5.1 and 5.3 of FIPS 197 -----

  function Mapped(s: Block, f: bv8 -> bv8): Block {
    seq(BLOCK, i requires 0 <= i < BLOCK => f(s[i]))
  }

  function SubBytes(s: Block): Block {
    Mapped(s, Sbox)
  }

  function InvSubBytes(s: Block): Block {
    Mapped(s, Rsbox)
  }

  /** Where byte `i`, in column `i / 4` and row `i % 4`, comes from when rows rotate to the left by
      their numbers. */
  function RotatedFrom(i: nat): (k: nat)
    requires i < BLOCK
    ensures k < BLOCK
  {
    4 * ((i / 4 + i % 4) % 4) + i % 4
  }

  function ShiftRows(s: Block): Block {
    seq(BLOCK, i requires 0 <= i < BLOCK => s[RotatedFrom(i)])
  }

  /** And when they rotate to the right. */
  function RotatedTo(i: nat): (k: nat)
    requires i < BLOCK
    ensures k < BLOCK
  {
    4 * ((i / 4 + 4 - i % 4) % 4) + i % 4
  }

  function InvShiftRows(s: Block): Block {
    seq(BLOCK, i requires 0 <= i < BLOCK => s[RotatedTo(i)])
  }

  function ColumnOf(s: Block, c: nat): Column
    requires c < 4
  {
    (s[4 * c], s[4 * c + 1], s[4 * c + 2], s[4 * c + 3])
  }

  function Bytes(c: Column): (r: seq<bv8>)
    ensures |r| == 4
  {
    [c.0, c.1, c.2, c.3]
  }

  function ByColumns(s: Block, f: Column -> Column): Block {
    Bytes(f(ColumnOf(s, 0))) + Bytes(f(ColumnOf(s, 1))) + Bytes(f(ColumnOf(s, 2))) + Bytes(f(ColumnOf(s, 3)))
  }

  function MixColumns(s: Block): Block {
    ByColumns(s, MixColumn)
  }

  function InvMixColumns(s: Block): Block {
    ByColumns(s, InvMixColumn)
  }

  function XorBlocks(a: Block, b: Block): Block {
    seq(BLOCK, i requires 0 <= i < BLOCK => Xor(a[i], b[i]))
  }

  function RoundKey(w: Schedule, round: nat): Block
    requires round <= Nr(w)
  {
    w[BLOCK * round..BLOCK * round + BLOCK]
  }

  function AddRoundKey(s: Block, w: Schedule, round: nat): Block
    requires round <= Nr(w)
  {
    XorBlocks(s, RoundKey(w, round))
  }

  function MixedRound(w: Schedule, s: Block, n: nat): Block
    requires n <= Nr(w)
  {
    AddRoundKey(MixColumns(ShiftRows(SubBytes(s))), w, n)
  }

  function LastRound(w: Schedule, s: Block): Block {
    AddRoundKey(ShiftRows(SubBytes(s)), w, Nr(w))
  }

  /** The state before round `n`. */
  function Rounds(w: Schedule, s: Block, n: nat): Block
    requires 0 < n <= Nr(w)
  {
    if n == 1 then AddRoundKey(s, w, 0) else MixedRound(w, Rounds(w, s, n - 1), n - 1)
  }

  function Cipher(w: Schedule, s: Block): Block {
    LastRound(w, Rounds(w, s, Nr(w)))
  }

  function InvMixedRound(w: Schedule, s: Block, n: nat): Block
    requires n <= Nr(w)
  {
    InvMixColumns(AddRoundKey(InvSubBytes(InvShiftRows(s)), w, n))
  }

  function InvFirstRound(w: Schedule, s: Block): Block {
    AddRoundKey(InvSubBytes(InvShiftRows(s)), w, 0)
  }

  /** The state of the inverse cipher after `k` rounds. */
  function InvRounds(w: Schedule, s: Block, k: nat): Block
    requires k < Nr(w)
  {
    if k == 0 then AddRoundKey(s, w, Nr(w)) else InvMixedRound(w, InvRounds(w, s, k - 1), Nr(w) - k)
  }

  function InvCipher(w: Schedule, s: Block): Block {
    InvFirstRound(w, InvRounds(w, s, Nr(w) - 1))
  }

  // ----- a round, byte by byte -----

  function BlockOf(c0: Column, c1: Column, c2: Column, c3: Column): Block {
    Bytes(c0) + Bytes(c1) + Bytes(c2) + Bytes(c3)
  }

  lemma {:induction false} BlockIs(t: Block, c0: Column, c1: Column, c2: Column, c3: Column)
    requires ColumnOf(t, 0) == c0 && ColumnOf(t, 1) == c1 && ColumnOf(t, 2) == c2 && ColumnOf(t, 3) == c3
    ensures t == BlockOf(c0, c1, c2, c3)
  {
    SameColumns(t, BlockOf(c0, c1, c2, c3));
  }

  lemma {:induction false} ColumnsAre(c0: Column, c1: Column, c2: Column, c3: Column)
    ensures var t := BlockOf(c0, c1, c2, c3);
            ColumnOf(t, 0) == c0 && ColumnOf(t, 1) == c1 && ColumnOf(t, 2) == c2 && ColumnOf(t, 3) == c3
  {
  }

  /** A column with each byte looked up, section 5.1.1 of FIPS 197. */
  function LookedUp(c: Column): Column {
    (Sbox(c.0), Sbox(c.1), Sbox(c.2), Sbox(c.3))
  }

  /** Section 5.1.3 and 5.1.4: each byte twice itself, three times the next one, the other two and that of the key. */
  function MixedWith(a: bv8, b: bv8, d: bv8, e: bv8, k: Column): Column {
    (Xor(Xor(Xor(Xtime(a), Xor(b, Xtime(b))), Xor(d, e)), k.0),
     Xor(Xor(Xor(Xtime(b), Xor(d, Xtime(d))), Xor(e, a)), k.1),
     Xor(Xor(Xor(Xtime(d), Xor(e, Xtime(e))), Xor(a, b)), k.2),
     Xor(Xor(Xor(Xtime(e), Xor(a, Xtime(a))), Xor(b, d)), k.3))
  }

  function Added(a: Column, b: Column): Column {
    (Xor(a.0, b.0), Xor(a.1, b.1), Xor(a.2, b.2), Xor(a.3, b.3))
  }

  lemma {:induction false} MixedAdded(a: bv8, b: bv8, d: bv8, e: bv8, k: Column)
    ensures MixedWith(a, b, d, e, k) == Added(MixColumn((a, b, d, e)), k)
  {
    MixByteIs(a, b, d, e);
    MixByteIs(b, d, e, a);
    MixByteIs(d, e, a, b);
    MixByteIs(e, a, b, d);
  }

  lemma {:induction false} MixByteIs(a: bv8, b: bv8, c: bv8, d: bv8)
    ensures MixByte(a, b, c, d) == Xor(Xor(Xtime(a), Xor(b, Xtime(b))), Xor(c, d))
  {
    Times2(a);
    Times3(b);
  }

  lemma {:induction false} SubstitutedColumns(c0: Column, c1: Column, c2: Column, c3: Column)
    ensures SubBytes(BlockOf(c0, c1, c2, c3)) == BlockOf(LookedUp(c0), LookedUp(c1), LookedUp(c2), LookedUp(c3))
  {
    BlockIs(SubBytes(BlockOf(c0, c1, c2, c3)), LookedUp(c0), LookedUp(c1), LookedUp(c2), LookedUp(c3));
  }

  /** Section 5.1.2: row `r` of a column comes from the column `r` further on. */
  lemma {:induction false} ShiftedColumns(c0: Column, c1: Column, c2: Column, c3: Column)
    ensures ShiftRows(BlockOf(c0, c1, c2, c3))
         == BlockOf((c0.0, c1.1, c2.2, c3.3), (c1.0, c2.1, c3.2, c0.3),
                    (c2.0, c3.1, c0.2, c1.3), (c3.0, c0.1, c1.2, c2.3))
  {
    BlockIs(ShiftRows(BlockOf(c0, c1, c2, c3)), (c0.0, c1.1, c2.2, c3.3), (c1.0, c2.1, c3.2, c0.3),
            (c2.0, c3.1, c0.2, c1.3), (c3.0, c0.1, c1.2, c2.3));
  }

  lemma {:induction false} AddedColumns(t: Block, w: Schedule, n: nat, k0: Column, k1: Column, k2: Column, k3: Column)
    requires n <= 14 && RoundKey(w, n) == BlockOf(k0, k1, k2, k3)
    ensures AddRoundKey(t, w, n) == BlockOf(Added(ColumnOf(t, 0), k0), Added(ColumnOf(t, 1), k1),
                                            Added(ColumnOf(t, 2), k2), Added(ColumnOf(t, 3), k3))
  {
    BlockIs(AddRoundKey(t, w, n), Added(ColumnOf(t, 0), k0), Added(ColumnOf(t, 1), k1),
            Added(ColumnOf(t, 2), k2), Added(ColumnOf(t, 3), k3));
  }

  /** A round, column by column: `z` has the bytes that come from the table, and `k` the key of the round. */
  lemma {:induction false} RoundIs(w: Schedule, n: nat, s0: Column, s1: Column, s2: Column, s3: Column,
                                   k0: Column, k1: Column, k2: Column, k3: Column)
    requires n <= 14 && RoundKey(w, n) == BlockOf(k0, k1, k2, k3)
    ensures var z0, z1, z2, z3 := LookedUp(s0), LookedUp(s1), LookedUp(s2), LookedUp(s3);
            MixedRound(w, BlockOf(s0, s1, s2, s3), n)
            == BlockOf(MixedWith(z0.0, z1.1, z2.2, z3.3, k0), MixedWith(z1.0, z2.1, z3.2, z0.3, k1),
                       MixedWith(z2.0, z3.1, z0.2, z1.3, k2), MixedWith(z3.0, z0.1, z1.2, z2.3, k3))
  {
    SubstitutedColumns(s0, s1, s2, s3);
    var z0, z1, z2, z3 := LookedUp(s0), LookedUp(s1), LookedUp(s2), LookedUp(s3);
    MixedIs(w, n, z0, z1, z2, z3, k0, k1, k2, k3);
  }

  lemma {:induction false} MixedIs(w: Schedule, n: nat, z0: Column, z1: Column, z2: Column, z3: Column,
                                   k0: Column, k1: Column, k2: Column, k3: Column)
    requires n <= 14 && RoundKey(w, n) == BlockOf(k0, k1, k2, k3)
    ensures AddRoundKey(MixColumns(ShiftRows(BlockOf(z0, z1, z2, z3))), w, n)
         == BlockOf(MixedWith(z0.0, z1.1, z2.2, z3.3, k0), MixedWith(z1.0, z2.1, z3.2, z0.3, k1),
                    MixedWith(z2.0, z3.1, z0.2, z1.3, k2), MixedWith(z3.0, z0.1, z1.2, z2.3, k3))
  {
    ShiftedColumns(z0, z1, z2, z3);
    var u := ShiftRows(BlockOf(z0, z1, z2, z3));
    ColumnMapped(u, MixColumn, 0);
    ColumnMapped(u, MixColumn, 1);
    ColumnMapped(u, MixColumn, 2);
    ColumnMapped(u, MixColumn, 3);
    AddedColumns(MixColumns(u), w, n, k0, k1, k2, k3);
    MixedAdded(z0.0, z1.1, z2.2, z3.3, k0);
    MixedAdded(z1.0, z2.1, z3.2, z0.3, k1);
    MixedAdded(z2.0, z3.1, z0.2, z1.3, k2);
    MixedAdded(z3.0, z0.1, z1.2, z2.3, k3);
  }

  /** The last round, which does not mix. */
  lemma {:induction false} LastRoundIs(w: Schedule, s0: Column, s1: Column, s2: Column, s3: Column,
                                       k0: Column, k1: Column, k2: Column, k3: Column)
    requires RoundKey(w, 14) == BlockOf(k0, k1, k2, k3)
    ensures var z0, z1, z2, z3 := LookedUp(s0), LookedUp(s1), LookedUp(s2), LookedUp(s3);
            LastRound(w, BlockOf(s0, s1, s2, s3))
            == BlockOf(Added((z0.0, z1.1, z2.2, z3.3), k0), Added((z1.0, z2.1, z3.2, z0.3), k1),
                       Added((z2.0, z3.1, z0.2, z1.3), k2), Added((z3.0, z0.1, z1.2, z2.3), k3))
  {
    SubstitutedColumns(s0, s1, s2, s3);
    ShiftedAdded(w, LookedUp(s0), LookedUp(s1), LookedUp(s2), LookedUp(s3), k0, k1, k2, k3);
  }

  lemma {:induction false} ShiftedAdded(w: Schedule, z0: Column, z1: Column, z2: Column, z3: Column,
                                        k0: Column, k1: Column, k2: Column, k3: Column)
    requires RoundKey(w, 14) == BlockOf(k0, k1, k2, k3)
    ensures AddRoundKey(ShiftRows(BlockOf(z0, z1, z2, z3)), w, 14)
         == BlockOf(Added((z0.0, z1.1, z2.2, z3.3), k0), Added((z1.0, z2.1, z3.2, z0.3), k1),
                    Added((z2.0, z3.1, z0.2, z1.3), k2), Added((z3.0, z0.1, z1.2, z2.3), k3))
  {
    ShiftedColumns(z0, z1, z2, z3);
    var c0, c1 := (z0.0, z1.1, z2.2, z3.3), (z1.0, z2.1, z3.2, z0.3);
    var c2, c3 := (z2.0, z3.1, z0.2, z1.3), (z3.0, z0.1, z1.2, z2.3);
    ColumnsAre(c0, c1, c2, c3);
    AddedColumns(BlockOf(c0, c1, c2, c3), w, 14, k0, k1, k2, k3);
  }

  // ----- each step is undone -----

  lemma SubBytesUndone(s: Block)
    ensures InvSubBytes(SubBytes(s)) == s
  {
    forall i: nat | i < BLOCK ensures InvSubBytes(SubBytes(s))[i] == s[i] {
      SboxRoundTrip(s[i]);
    }
  }

  lemma RotationsUndone(i: nat)
    requires i < BLOCK
    ensures RotatedFrom(RotatedTo(i)) == i
  {
    var c, r := i / 4, i % 4;
    var k := RotatedTo(i);
    assert k / 4 == (c + 4 - r) % 4 && k % 4 == r;
    assert (k / 4 + r) % 4 == c;
  }

  lemma ShiftRowsUndone(s: Block)
    ensures InvShiftRows(ShiftRows(s)) == s
  {
    forall i: nat | i < BLOCK ensures InvShiftRows(ShiftRows(s))[i] == s[i] {
      RotationsUndone(i);
    }
  }

  lemma ColumnMapped(s: Block, f: Column -> Column, c: nat)
    requires c < 4
    ensures ColumnOf(ByColumns(s, f), c) == f(ColumnOf(s, c))
  {
    if c == 0 { } else if c == 1 { } else if c == 2 { } else { }
  }

  lemma SameColumns(s: Block, t: Block)
    requires forall c: nat :: c < 4 ==> ColumnOf(s, c) == ColumnOf(t, c)
    ensures s == t
  {
    forall i: nat | i < BLOCK ensures s[i] == t[i] {
      var c := i / 4;
      assert i == 4 * c || i == 4 * c + 1 || i == 4 * c + 2 || i == 4 * c + 3;
      assert ColumnOf(s, c) == ColumnOf(t, c);
    }
  }

  lemma {:induction false} ColumnsUndone(s: Block, f: Column -> Column, g: Column -> Column)
    requires forall c: Column :: g(f(c)) == c
    ensures ByColumns(ByColumns(s, f), g) == s
  {
    var m := ByColumns(s, f);
    forall c: nat | c < 4 ensures ColumnOf(ByColumns(m, g), c) == ColumnOf(s, c) {
      ColumnMapped(s, f, c);
      ColumnMapped(m, g, c);
    }
    SameColumns(ByColumns(m, g), s);
  }

  lemma MixColumnsUndone(s: Block)
    ensures InvMixColumns(MixColumns(s)) == s
  {
    forall c: Column ensures InvMixColumn(MixColumn(c)) == c { InvMixRoundTrip(c); }
    ColumnsUndone(s, MixColumn, InvMixColumn);
  }

  lemma XorUndone(a: Block, b: Block)
    ensures XorBlocks(XorBlocks(a, b), b) == a
  {
    forall i: nat | i < BLOCK ensures Xor(Xor(a[i], b[i]), b[i]) == a[i] {
      XorTwice(a[i], b[i]);
    }
  }

  lemma XorTwice(a: bv8, b: bv8)
    ensures Xor(Xor(a, b), b) == a
  {
  }

  lemma SubstitutionUndone(s: Block)
    ensures InvSubBytes(InvShiftRows(ShiftRows(SubBytes(s)))) == s
  {
    ShiftRowsUndone(SubBytes(s));
    SubBytesUndone(s);
  }

  lemma MixedRoundUndone(w: Schedule, s: Block, n: nat)
    requires n <= Nr(w)
    ensures InvMixColumns(AddRoundKey(AddRoundKey(MixColumns(s), w, n), w, n)) == s
  {
    XorUndone(MixColumns(s), RoundKey(w, n));
    MixColumnsUndone(s);
  }

  /** If `u'` is what a round was about to be mixed from, undoing the round gives what the one
      before it was about to be mixed from. */
  lemma RoundUndone(w: Schedule, r: Block, r': Block, u: Block, u': Block, n: nat)
    requires n <= Nr(w)
    requires r' == MixedRound(w, r, n) && u' == ShiftRows(SubBytes(r')) && u == InvMixedRound(w, u', n)
    ensures u == ShiftRows(SubBytes(r))
  {
    SubstitutionUndone(r');
    MixedRoundUndone(w, ShiftRows(SubBytes(r)), n);
  }

  lemma LastRoundUndone(w: Schedule, r: Block, c: Block, u: Block)
    requires c == LastRound(w, r) && u == AddRoundKey(c, w, Nr(w))
    ensures u == ShiftRows(SubBytes(r))
  {
    XorUndone(ShiftRows(SubBytes(r)), RoundKey(w, Nr(w)));
  }

  lemma FirstRoundUndone(w: Schedule, s: Block, r: Block, u: Block, d: Block)
    requires r == AddRoundKey(s, w, 0) && u == ShiftRows(SubBytes(r)) && d == InvFirstRound(w, u)
    ensures d == s
  {
    SubstitutionUndone(r);
    XorUndone(s, RoundKey(w, 0));
  }

  lemma {:induction false} RoundsStart(w: Schedule, s: Block)
    ensures Rounds(w, s, 1) == AddRoundKey(s, w, 0)
  {
  }

  lemma RoundsStep(w: Schedule, s: Block, x: Block, n: nat)
    requires 0 < n < Nr(w) && x == Rounds(w, s, n)
    ensures MixedRound(w, x, n) == Rounds(w, s, n + 1)
  {
  }

  lemma {:induction false} CipherIsLast(w: Schedule, s: Block, x: Block, n: nat)
    requires n == Nr(w) && x == Rounds(w, s, n)
    ensures LastRound(w, x) == Cipher(w, s)
  {
  }

  lemma {:induction false} InvRoundsStart(w: Schedule, c: Block)
    ensures InvRounds(w, c, 0) == AddRoundKey(c, w, Nr(w))
  {
  }

  lemma InvRoundsStep(w: Schedule, c: Block, x: Block, k: nat, n: nat)
    requires 0 < k < Nr(w) && x == InvRounds(w, c, k - 1) && n == Nr(w) - k
    ensures InvMixedRound(w, x, n) == InvRounds(w, c, k)
  {
  }

  lemma {:induction false} InvCipherIsFirst(w: Schedule, c: Block, x: Block, k: nat)
    requires k == Nr(w) - 1 && x == InvRounds(w, c, k)
    ensures InvFirstRound(w, x) == InvCipher(w, c)
  {
  }

  /** After `k` rounds the inverse cipher is back before the mixing of round `Nr - k`. */
  lemma {:induction false} RoundsUndone(w: Schedule, s: Block, k: nat)
    requires k < Nr(w)
    ensures InvRounds(w, Cipher(w, s), k) == ShiftRows(SubBytes(Rounds(w, s, Nr(w) - k)))
  {
    var c := Cipher(w, s);
    var n := Nr(w) - k;
    if k == 0 {
      InvRoundsStart(w, c);
      LastRoundUndone(w, Rounds(w, s, n), c, InvRounds(w, c, k));
    } else {
      RoundsUndone(w, s, k - 1);
      RoundsStep(w, s, Rounds(w, s, n), n);
      InvRoundsStep(w, c, InvRounds(w, c, k - 1), k, n);
      RoundUndone(w, Rounds(w, s, n), Rounds(w, s, n + 1), InvRounds(w, c, k), InvRounds(w, c, k - 1), n);
    }
  }

  /** Deciphering undoes ciphering, under any expanded key. */
  lemma CipherUndone(w: Schedule, s: Block)
    ensures InvCipher(w, Cipher(w, s)) == s
  {
    var c := Cipher(w, s);
    RoundsUndone(w, s, Nr(w) - 1);
    RoundsStart(w, s);
    FirstRoundUndone(w, s, Rounds(w, s, 1), InvRounds(w, c, Nr(w) - 1), InvCipher(w, c));
  }

  // ----- and the other way round -----

  lemma SubBytesRedone(s: Block)
    ensures SubBytes(InvSubBytes(s)) == s
  {
    forall i: nat | i < BLOCK ensures SubBytes(InvSubBytes(s))[i] == s[i] {
      RsboxRoundTrip(s[i]);
    }
  }

  lemma RotationsRedone(i: nat)
    requires i < BLOCK
    ensures RotatedTo(RotatedFrom(i)) == i
  {
    var c, r := i / 4, i % 4;
    var k := RotatedFrom(i);
    assert k / 4 == (c + r) % 4 && k % 4 == r;
    assert (k / 4 + 4 - r) % 4 == c;
  }

  lemma ShiftRowsRedone(s: Block)
    ensures ShiftRows(InvShiftRows(s)) == s
  {
    forall i: nat | i < BLOCK ensures ShiftRows(InvShiftRows(s))[i] == s[i] {
      RotationsRedone(i);
    }
  }

  lemma MixColumnsRedone(s: Block)
    ensures MixColumns(InvMixColumns(s)) == s
  {
    forall c: Column ensures MixColumn(InvMixColumn(c)) == c { MixRoundTrip(c); }
    ColumnsUndone(s, InvMixColumn, MixColumn);
  }

  lemma SubstitutionRedone(s: Block)
    ensures ShiftRows(SubBytes(InvSubBytes(InvShiftRows(s)))) == s
  {
    SubBytesRedone(InvShiftRows(s));
    ShiftRowsRedone(s);
  }

  /** A round after its inverse: `r` is what the inverse of round `n` made of `u`. */
  lemma RoundRedone(w: Schedule, u: Block, r: Block, n: nat)
    requires n <= Nr(w) && r == InvMixedRound(w, u, n)
    ensures AddRoundKey(MixColumns(r), w, n) == InvSubBytes(InvShiftRows(u))
  {
    var t := InvSubBytes(InvShiftRows(u));
    MixColumnsRedone(AddRoundKey(t, w, n));
    XorUndone(t, RoundKey(w, n));
  }

  /** Before round `Nr - k` the cipher is where its inverse was after `k` rounds and half of one. */
  lemma {:induction false} RoundsRedone(w: Schedule, c: Block, k: nat)
    requires k < Nr(w)
    ensures Rounds(w, InvCipher(w, c), Nr(w) - k) == InvSubBytes(InvShiftRows(InvRounds(w, c, k)))
    decreases Nr(w) - k
  {
    var s, n := InvCipher(w, c), Nr(w) - k;
    var u := InvRounds(w, c, k);
    if n == 1 {
      RoundsStart(w, s);
      InvCipherIsFirst(w, c, u, k);
      XorUndone(InvSubBytes(InvShiftRows(u)), RoundKey(w, 0));
    } else {
      RoundsRedone(w, c, k + 1);
      InvRoundsStep(w, c, u, k + 1, n - 1);
      RoundsStep(w, s, Rounds(w, s, n - 1), n - 1);
      RoundAgain(w, u, Rounds(w, s, n - 1), n - 1);
    }
  }

  /** The round whose inverse was done on `u`, from where that left off. */
  lemma RoundAgain(w: Schedule, u: Block, x: Block, n: nat)
    requires n <= Nr(w) && x == InvSubBytes(InvShiftRows(InvMixedRound(w, u, n)))
    ensures MixedRound(w, x, n) == InvSubBytes(InvShiftRows(u))
  {
    SubstitutionRedone(InvMixedRound(w, u, n));
    RoundRedone(w, u, InvMixedRound(w, u, n), n);
  }

  /** Ciphering undoes deciphering, under any expanded key. */
  lemma CipherRedone(w: Schedule, c: Block)
    ensures Cipher(w, InvCipher(w, c)) == c
  {
    var s, u := InvCipher(w, c), InvRounds(w, c, 0);
    RoundsRedone(w, c, 0);
    CipherIsLast(w, s, Rounds(w, s, Nr(w)), Nr(w));
    InvRoundsStart(w, c);
    SubstitutionRedone(u);
    XorUndone(c, RoundKey(w, Nr(w)));
  }

  // ----- key expansion, section 5.2 of FIPS 197 -----

  /** The round constant of round `i`. */
  function Rcon(i: nat): bv8
    requires i > 0
  {
    if i == 1 then 1 else Xtime(Rcon(i - 1))
  }

  function XorWords(a: seq<bv8>, b: seq<bv8>): (r: seq<bv8>)
    requires |a| == |b| == 4
    ensures |r| == 4
  {
    [Xor(a[0], b[0]), Xor(a[1], b[1]), Xor(a[2], b[2]), Xor(a[3], b[3])]
  }

  function SubWord(a: seq<bv8>): (r: seq<bv8>)
    requires |a| == 4
    ensures |r| == 4
  {
    [Sbox(a[0]), Sbox(a[1]), Sbox(a[2]), Sbox(a[3])]
  }

  function RotWord(a: seq<bv8>): (r: seq<bv8>)
    requires |a| == 4
    ensures |r| == 4
  {
    [a[1], a[2], a[3], a[0]]
  }

  function Word(key: seq<bv8>, i: nat): (r: seq<bv8>)
    requires |key| == 32
    ensures |r| == 4
  {
    if i < 8 then key[4 * i..4 * i + 4]
    else
      var temp := Word(key, i - 1);
      XorWords(Word(key, i - 8),
               if i % 8 == 0 then XorWords(SubWord(RotWord(temp)), [Rcon(i / 8), 0, 0, 0])
               else if i % 8 == 4 then SubWord(temp)
               else temp)
  }
}
