/** AES-256 with cipher block chaining, as it works in place on its state and its buffers. */
module Aes256 {
  import opened AesField
  import opened AesCipher
  import Cbc = CipherChaining

  const NK: nat := 8
  const NB: nat := 4
  const NR: nat := 14

  /** The table of round constants. */
  function RconTable(i: nat): bv8
    requires 0 < i < 11
  {
    match i
    case 1 => 0x01 case 2 => 0x02 case 3 => 0x04 case 4 => 0x08 case 5 => 0x10
    case 6 => 0x20 case 7 => 0x40 case 8 => 0x80 case 9 => 0x1b case _ => 0x36
  }

  /** The table holds the powers of x. */
  lemma {:induction false} RconExact(i: nat)
    requires 0 < i < 11
    ensures RconTable(i) == Rcon(i)
  {
    if i > 1 { RconExact(i - 1); }
  }

  // ----- the cipher, its inverse and addition on all sequences; the blocks are what matters -----

  function Enc(w: Schedule): seq<bv8> -> seq<bv8> {
    s => if |s| == BLOCK then Cipher(w, s) else s
  }

  function Dec(w: Schedule): seq<bv8> -> seq<bv8> {
    s => if |s| == BLOCK then InvCipher(w, s) else s
  }

  function Add(a: seq<bv8>, b: seq<bv8>): seq<bv8> {
    if |a| == |b| == BLOCK then XorBlocks(a, b) else a
  }

  lemma CipherSound(w: Schedule)
    ensures Cbc.Sound(Enc(w), Dec(w), Add)
  {
    forall x ensures Dec(w)(Enc(w)(x)) == x {
      if |x| == BLOCK { CipherUndone(w, x); }
    }
    forall x, y ensures Add(Add(x, y), y) == x {
      if |x| == |y| == BLOCK { XorUndone(x, y); }
    }
  }

  /** `c` is the encrypted text of `p`, and `iv'` what the initial vector becomes. */
  ghost predicate CbcEncrypts(w: Schedule, iv: Block, p: seq<bv8>, c: seq<bv8>, iv': Block) {
    && |p| % BLOCK == 0 && |c| == |p|
    && Cbc.Blocks(c) == Cbc.Encrypted(Enc(w), Add, iv, Cbc.Blocks(p)) && iv' == Cbc.NextIv(iv, Cbc.Blocks(c))
  }

  ghost predicate CbcDecrypts(w: Schedule, iv: Block, c: seq<bv8>, p: seq<bv8>, iv': Block) {
    && |c| % BLOCK == 0 && |p| == |c|
    && Cbc.Blocks(p) == Cbc.Decrypted(Dec(w), Add, iv, Cbc.Blocks(c)) && iv' == Cbc.NextIv(iv, Cbc.Blocks(c))
  }

  /** From the same initial vector decryption gives back what was encrypted, and both sides go on
      with the same initial vector. */
  lemma CbcRoundTrip(w: Schedule, iv: Block, p: seq<bv8>, c: seq<bv8>, iv1: Block, q: seq<bv8>, iv2: Block)
    requires CbcEncrypts(w, iv, p, c, iv1) && CbcDecrypts(w, iv, c, q, iv2)
    ensures q == p && iv1 == iv2
  {
    CipherSound(w);
    Cbc.RoundTrip(Enc(w), Dec(w), Add, iv, Cbc.Blocks(p));
    Cbc.BlocksInjective(p, q);
  }

  /** A text may be encrypted in parts by successive calls, and so decrypted. */
  lemma CbcInParts(w: Schedule, iv: Block, p: seq<bv8>, c: seq<bv8>, iv1: Block, q: seq<bv8>, d: seq<bv8>, iv2: Block)
    ensures CbcEncrypts(w, iv, p, c, iv1) && CbcEncrypts(w, iv1, q, d, iv2) ==> CbcEncrypts(w, iv, p + q, c + d, iv2)
    ensures CbcDecrypts(w, iv, p, c, iv1) && CbcDecrypts(w, iv1, q, d, iv2) ==> CbcDecrypts(w, iv, p + q, c + d, iv2)
  {
    if CbcEncrypts(w, iv, p, c, iv1) && CbcEncrypts(w, iv1, q, d, iv2) {
      Cbc.BlocksOfSum(p, q);
      Cbc.BlocksOfSum(c, d);
      Cbc.EncryptedInParts(Enc(w), Add, iv, Cbc.Blocks(p), Cbc.Blocks(q));
    }
    if CbcDecrypts(w, iv, p, c, iv1) && CbcDecrypts(w, iv1, q, d, iv2) {
      Cbc.BlocksOfSum(p, q);
      Cbc.BlocksOfSum(c, d);
      Cbc.DecryptedInParts(Dec(w), Add, iv, Cbc.Blocks(p), Cbc.Blocks(q));
    }
  }

  // ----- the state, changed in place -----

  /** Byte `(column, row)` comes before byte `(j, i)` when the state is gone through row by row. */
  predicate Before(k: nat, i: nat, j: nat) {
    k % 4 < i || (k % 4 == i && k / 4 < j)
  }

  class Aes256 {
    const roundKey: array<bv8>
    const iv: array<bv8>
    const state: array<bv8>

    ghost predicate Valid()
      reads this
    {
      && roundKey.Length == 240 && iv.Length == BLOCK && state.Length == BLOCK
      && roundKey != iv && roundKey != state && iv != state
    }

    ghost function Schedule(): AesCipher.Schedule
      requires Valid()
      reads this, roundKey
    {
      roundKey[..]
    }

    method AddRoundKey(round: nat)
      requires Valid() && round <= NR
      modifies state
      ensures state[..] == AesCipher.AddRoundKey(old(state[..]), Schedule(), round)
    {
      for i := 0 to 4
        invariant forall k: nat :: k < BLOCK ==>
          state[k] == if k < 4 * i then Xor(old(state[k]), roundKey[BLOCK * round + k]) else old(state[k])
      {
        for j := 0 to 4
          invariant forall k: nat :: k < BLOCK ==>
            state[k] == if k < 4 * i + j then Xor(old(state[k]), roundKey[BLOCK * round + k]) else old(state[k])
        {
          state[4 * i + j] := Xor(state[4 * i + j], roundKey[round * NB * 4 + i * NB + j]);
        }
      }
    }

    /** Replaces every byte by what a table has for it. */
    method Substitute(table: bv8 -> bv8)
      requires Valid()
      modifies state
      ensures state[..] == Mapped(old(state[..]), table)
    {
      for i := 0 to 4
        invariant forall k: nat :: k < BLOCK ==>
                  state[k] == if Before(k, i, 0) then table(old(state[k])) else old(state[k])
      {
        for j := 0 to 4
          invariant forall k: nat :: k < BLOCK ==>
                    state[k] == if Before(k, i, j) then table(old(state[k])) else old(state[k])
        {
          state[4 * j + i] := table(state[4 * j + i]);
        }
      }
    }

    method SubBytes()
      requires Valid()
      modifies state
      ensures state[..] == AesCipher.SubBytes(old(state[..]))
    {
      Substitute(Sbox);
    }

    method InvSubBytes()
      requires Valid()
      modifies state
      ensures state[..] == AesCipher.InvSubBytes(old(state[..]))
    {
      Substitute(Rsbox);
    }

    /** Row 1 by one column to the left. */
    method RotateRow1()
      requires Valid()
      modifies state
      ensures state[1] == old(state[5])
      ensures state[5] == old(state[9])
      ensures state[9] == old(state[13])
      ensures state[13] == old(state[1])
      ensures forall k: nat :: k < BLOCK && k % 4 != 1 ==> state[k] == old(state[k])
    {
      var temp := state[1];
      state[1] := state[5];
      state[5] := state[9];
      state[9] := state[13];
      state[13] := temp;
    }

    /** Row 2 by two columns. */
    method RotateRow2()
      requires Valid()
      modifies state
      ensures state[2] == old(state[10])
      ensures state[10] == old(state[2])
      ensures state[6] == old(state[14])
      ensures state[14] == old(state[6])
      ensures forall k: nat :: k < BLOCK && k % 4 != 2 ==> state[k] == old(state[k])
    {
      var temp := state[2];
      state[2] := state[10];
      state[10] := temp;
      temp := state[6];
      state[6] := state[14];
      state[14] := temp;
    }

    /** Row 3 by three columns to the left. */
    method RotateRow3()
      requires Valid()
      modifies state
      ensures state[3] == old(state[15])
      ensures state[15] == old(state[11])
      ensures state[11] == old(state[7])
      ensures state[7] == old(state[3])
      ensures forall k: nat :: k < BLOCK && k % 4 != 3 ==> state[k] == old(state[k])
    {
      var temp := state[3];
      state[3] := state[15];
      state[15] := state[11];
      state[11] := state[7];
      state[7] := temp;
    }

    /** Row 1 by one column to the right. */
    method RotateBackRow1()
      requires Valid()
      modifies state
      ensures state[5] == old(state[1])
      ensures state[9] == old(state[5])
      ensures state[13] == old(state[9])
      ensures state[1] == old(state[13])
      ensures forall k: nat :: k < BLOCK && k % 4 != 1 ==> state[k] == old(state[k])
    {
      var temp := state[13];
      state[13] := state[9];
      state[9] := state[5];
      state[5] := state[1];
      state[1] := temp;
    }

    /** Row 3 by three columns to the right. */
    method RotateBackRow3()
      requires Valid()
      modifies state
      ensures state[15] == old(state[3])
      ensures state[11] == old(state[15])
      ensures state[7] == old(state[11])
      ensures state[3] == old(state[7])
      ensures forall k: nat :: k < BLOCK && k % 4 != 3 ==> state[k] == old(state[k])
    {
      var temp := state[3];
      state[3] := state[7];
      state[7] := state[11];
      state[11] := state[15];
      state[15] := temp;
    }

    method ShiftRows()
      requires Valid()
      modifies state
      ensures state[..] == AesCipher.ShiftRows(old(state[..]))
    {
      RotateRow1();
      RotateRow2();
      RotateRow3();
      RowsShifted(old(state[..]), state[..]);
    }

    method InvShiftRows()
      requires Valid()
      modifies state
      ensures state[..] == AesCipher.InvShiftRows(old(state[..]))
    {
      RotateBackRow1();
      RotateRow2();
      RotateBackRow3();
      RowsShiftedBack(old(state[..]), state[..]);
    }

    /** Mixes one column; only its first byte is still needed once it has changed. */
    method MixColumn(i: nat)
      requires Valid() && i < 4
      modifies state
      ensures ColumnOf(state[..], i) == AesField.MixColumn(ColumnOf(old(state[..]), i))
      ensures forall c: nat :: c < 4 && c != i ==> ColumnOf(state[..], c) == ColumnOf(old(state[..]), c)
    {
      var t := state[4 * i];
      var tmp := Xor(Xor(Xor(state[4 * i], state[4 * i + 1]), state[4 * i + 2]), state[4 * i + 3]);
      ghost var was := state[..];
      MixCodeColumn(ColumnOf(was, i));
      state[4 * i] := MixCode(state[4 * i], state[4 * i + 1], tmp);
      state[4 * i + 1] := MixCode(state[4 * i + 1], state[4 * i + 2], tmp);
      state[4 * i + 2] := MixCode(state[4 * i + 2], state[4 * i + 3], tmp);
      state[4 * i + 3] := MixCode(state[4 * i + 3], t, tmp);
      assert ColumnOf(state[..], i) == AesField.MixColumn(ColumnOf(was, i));
    }

    method MixColumns()
      requires Valid()
      modifies state
      ensures state[..] == AesCipher.MixColumns(old(state[..]))
    {
      ghost var s0 := state[..];
      for i := 0 to 4
        invariant forall c: nat :: c < 4 ==>
          ColumnOf(state[..], c) == if c < i then AesField.MixColumn(ColumnOf(s0, c)) else ColumnOf(s0, c)
      {
        MixColumn(i);
      }
      ColumnsDone(s0, state[..], AesField.MixColumn);
    }

    method InvMixColumn(i: nat)
      requires Valid() && i < 4
      modifies state
      ensures ColumnOf(state[..], i) == AesField.InvMixColumn(ColumnOf(old(state[..]), i))
      ensures forall c: nat :: c < 4 && c != i ==> ColumnOf(state[..], c) == ColumnOf(old(state[..]), c)
    {
      var a, b, c, d := state[4 * i], state[4 * i + 1], state[4 * i + 2], state[4 * i + 3];
      InvCodeColumn((a, b, c, d));
      StoreColumn(i, (InvCode(a, 0x0e, b, 0x0b, c, 0x0d, d, 0x09), InvCode(a, 0x09, b, 0x0e, c, 0x0b, d, 0x0d),
                      InvCode(a, 0x0d, b, 0x09, c, 0x0e, d, 0x0b), InvCode(a, 0x0b, b, 0x0d, c, 0x09, d, 0x0e)));
    }

    method StoreColumn(i: nat, s: Column)
      requires Valid() && i < 4
      modifies state
      ensures ColumnOf(state[..], i) == s
      ensures forall c: nat :: c < 4 && c != i ==> ColumnOf(state[..], c) == ColumnOf(old(state[..]), c)
    {
      state[4 * i] := s.0;
      state[4 * i + 1] := s.1;
      state[4 * i + 2] := s.2;
      state[4 * i + 3] := s.3;
    }

    method InvMixColumns()
      requires Valid()
      modifies state
      ensures state[..] == AesCipher.InvMixColumns(old(state[..]))
    {
      ghost var s0 := state[..];
      for i := 0 to 4
        invariant forall c: nat :: c < 4 ==>
          ColumnOf(state[..], c) == if c < i then AesField.InvMixColumn(ColumnOf(s0, c)) else ColumnOf(s0, c)
      {
        InvMixColumn(i);
      }
      ColumnsDone(s0, state[..], AesField.InvMixColumn);
    }

    // ----- one block -----

    method LoadState(block: array<bv8>, at: nat)
      requires Valid() && at + BLOCK <= block.Length && block != state
      modifies state
      ensures state[..] == block[at..at + BLOCK]
    {
      for i := 0 to BLOCK
        invariant forall k: nat :: k < i ==> state[k] == block[at + k]
      {
        state[i] := block[at + i];
      }
    }

    method StoreState(block: array<bv8>, at: nat)
      requires Valid() && at + BLOCK <= block.Length && block != state
      modifies block
      ensures block[..] == old(block[..at]) + state[..] + old(block[at + BLOCK..])
    {
      for i := 0 to BLOCK
        invariant forall k: nat :: k < block.Length ==>
                  block[k] == if at <= k < at + i then state[k - at] else old(block[k])
      {
        block[at + i] := state[i];
      }
    }

    method MixedRound(round: nat, ghost w: AesCipher.Schedule)
      requires Valid() && round <= NR && w == Schedule()
      modifies state
      ensures state[..] == AesCipher.MixedRound(w, old(state[..]), round) && w == Schedule()
    {
      SubBytes();
      ShiftRows();
      MixColumns();
      AddRoundKey(round);
    }

    method LastRound(ghost w: AesCipher.Schedule)
      requires Valid() && w == Schedule()
      modifies state
      ensures state[..] == AesCipher.LastRound(w, old(state[..]))
    {
      SubBytes();
      ShiftRows();
      AddRoundKey(NR);
    }

    /** The state is that before round `n` of ciphering `s`. */
    ghost predicate AtRound(w: AesCipher.Schedule, s: Block, n: nat)
      requires 0 < n <= Nr(w)
      reads this, state, roundKey
    {
      Valid() && Schedule() == w && state[..] == Rounds(w, s, n)
    }

    method NextRound(round: nat, ghost w: AesCipher.Schedule, ghost s: Block) returns (next: nat)
      requires 0 < round < NR && AtRound(w, s, round)
      modifies state
      ensures next == round + 1 && AtRound(w, s, next)
    {
      RoundsStep(w, s, state[..], round);
      MixedRound(round, w);
      next := round + 1;
    }

    method FirstKey(ghost w: AesCipher.Schedule)
      requires Valid() && Schedule() == w
      modifies state
      ensures AtRound(w, old(state[..]), 1)
    {
      RoundsStart(w, state[..]);
      AddRoundKey(0);
    }

    method FinishRounds(ghost w: AesCipher.Schedule, ghost s: Block, ghost n: nat)
      requires n == NR && AtRound(w, s, n)
      modifies state
      ensures state[..] == Cipher(w, s)
    {
      CipherIsLast(w, s, state[..], n);
      LastRound(w);
    }

    method EncryptState(ghost w: AesCipher.Schedule)
      requires Valid() && Schedule() == w
      modifies state
      ensures state[..] == Cipher(w, old(state[..]))
    {
      ghost var s: Block := state[..];
      FirstKey(w);
      var round := 1;
      while round < NR
        invariant 0 < round <= NR && AtRound(w, s, round)
      {
        round := NextRound(round, w, s);
      }
      FinishRounds(w, s, round);
    }

    method InvMixedRound(round: nat, ghost w: AesCipher.Schedule)
      requires Valid() && round <= NR && w == Schedule()
      modifies state
      ensures state[..] == AesCipher.InvMixedRound(w, old(state[..]), round) && w == Schedule()
    {
      InvShiftRows();
      InvSubBytes();
      AddRoundKey(round);
      InvMixColumns();
    }

    method InvFirstRound(ghost w: AesCipher.Schedule)
      requires Valid() && w == Schedule()
      modifies state
      ensures state[..] == AesCipher.InvFirstRound(w, old(state[..]))
    {
      InvShiftRows();
      InvSubBytes();
      AddRoundKey(0);
    }

    /** The state is that after `k` rounds of deciphering `s`. */
    ghost predicate AfterRounds(w: AesCipher.Schedule, s: Block, k: nat)
      reads this, state, roundKey
    {
      Valid() && Schedule() == w && k < Nr(w) && state[..] == InvRounds(w, s, k)
    }

    method LastKey(ghost w: AesCipher.Schedule)
      requires Valid() && Schedule() == w
      modifies state
      ensures AfterRounds(w, old(state[..]), 0)
    {
      InvRoundsStart(w, state[..]);
      AddRoundKey(NR);
    }

    method NextInvRound(round: nat, ghost w: AesCipher.Schedule, ghost s: Block, ghost k: nat) returns (ghost k': nat)
      requires 0 < round && k + round == NR - 1 && AfterRounds(w, s, k)
      modifies state
      ensures k' == k + 1 && AfterRounds(w, s, k')
    {
      k' := k + 1;
      InvRoundsStep(w, s, state[..], k + 1, round);
      InvMixedRound(round, w);
    }

    method FinishInvRounds(ghost w: AesCipher.Schedule, ghost s: Block, ghost k: nat)
      requires k == NR - 1 && AfterRounds(w, s, k)
      modifies state
      ensures state[..] == InvCipher(w, s)
    {
      InvCipherIsFirst(w, s, state[..], k);
      InvFirstRound(w);
    }

    /** The mixing rounds, from `last` down to 1. */
    method UndoRounds(last: nat, ghost w: AesCipher.Schedule, ghost s: Block, ghost k0: nat)
      requires k0 + last == NR - 1 && AfterRounds(w, s, k0)
      modifies state
      ensures state[..] == InvCipher(w, s)
    {
      var round := last;
      ghost var k := k0;
      while round > 0
        invariant k + round == NR - 1 && AfterRounds(w, s, k)
      {
        k := NextInvRound(round, w, s, k);
        round := round - 1;
      }
      FinishInvRounds(w, s, k);
    }

    method DecryptState(ghost w: AesCipher.Schedule)
      requires Valid() && Schedule() == w
      modifies state
      ensures state[..] == InvCipher(w, old(state[..]))
    {
      ghost var s: Block := state[..];
      LastKey(w);
      UndoRounds(NR - 1, w, s, 0);
    }

    method EncryptBlock(block: array<bv8>, at: nat, ghost w: AesCipher.Schedule)
      requires Valid() && Schedule() == w && at + BLOCK <= block.Length && block != state && block != roundKey
      modifies state, block
      ensures Schedule() == w
      ensures block[..] == old(block[..at]) + Cipher(w, old(block[at..at + BLOCK])) + old(block[at + BLOCK..])
    {
      LoadState(block, at);
      EncryptState(w);
      StoreState(block, at);
    }

    method DecryptBlock(block: array<bv8>, at: nat, ghost w: AesCipher.Schedule)
      requires Valid() && Schedule() == w && at + BLOCK <= block.Length && block != state && block != roundKey
      modifies state, block
      ensures Schedule() == w
      ensures block[..] == old(block[..at]) + InvCipher(w, old(block[at..at + BLOCK])) + old(block[at + BLOCK..])
    {
      LoadState(block, at);
      DecryptState(w);
      StoreState(block, at);
    }

    // ----- the key -----

    static method StoreWord(w: array<bv8>, i: nat, word: seq<bv8>)
      requires w.Length == 240 && i < 60 && |word| == 4
      modifies w
      ensures w[..] == old(w[..4 * i]) + word + old(w[4 * i + 4..])
    {
      w[4 * i], w[4 * i + 1], w[4 * i + 2], w[4 * i + 3] := word[0], word[1], word[2], word[3];
    }

    /** Word `i`, from the one before and the one a key length before. */
    static method ExpandWord(w: array<bv8>, i: nat, ghost key: seq<bv8>)
      requires |key| == 32 && w.Length == 240 && NK <= i < 60 && ExpandedTo(key, w[..], i)
      modifies w
      ensures ExpandedTo(key, w[..], i + 1)
    {
      var k := (i - 1) * 4;
      var temp := w[k..k + 4];
      if i % NK == 0 {
        temp := XorWords(SubWord(RotWord(temp)), [RconTable(i / NK), 0, 0, 0]);
      }
      if i % NK == 4 {
        temp := SubWord(temp);
      }
      k := (i - NK) * 4;
      var word := XorWords(w[k..k + 4], temp);
      NextWord(key, w[..], i, temp, word);
      ExpandStep(key, w[..], i, word);
      StoreWord(w, i, word);
    }

    static method KeyExpansion(key: seq<bv8>, w: array<bv8>)
      requires |key| == 32 && w.Length == 240
      modifies w
      ensures ExpandedTo(key, w[..], 60)
      ensures forall i: nat, k: nat :: i < 60 && k < 4 ==> ByteExpanded(key, w[..], i, k)
    {
      for i := 0 to NK
        invariant ExpandedTo(key, w[..], i)
      {
        ExpandStep(key, w[..], i, key[4 * i..4 * i + 4]);
        StoreWord(w, i, key[4 * i..4 * i + 4]);
      }
      for i := NK to NB * (NR + 1)
        invariant ExpandedTo(key, w[..], i)
      {
        ExpandWord(w, i, key);
      }
      AllBytesExpanded(key, w[..]);
    }

    constructor (key: seq<bv8>)
      requires |key| == 32
      ensures Valid() && fresh(roundKey) && fresh(iv) && fresh(state)
      ensures ExpandedTo(key, Schedule(), 60) && iv[..] == Zeros()
      ensures forall i: nat, k: nat :: i < 60 && k < 4 ==> ByteExpanded(key, Schedule(), i, k)
    {
      roundKey, iv, state := new bv8[240], new bv8[BLOCK](_ => 0), new bv8[BLOCK];
      new;
      assert iv[..] == Zeros();
      KeyExpansion(key, roundKey);
    }

    method SetIv(block: seq<bv8>)
      requires Valid() && |block| == BLOCK
      modifies iv
      ensures iv[..] == block
    {
      for i := 0 to BLOCK
        invariant iv[..i] == block[..i]
      {
        iv[i] := block[i];
      }
    }

    // ----- chaining -----

    static method XorWithIv(buf: array<bv8>, at: nat, from: array<bv8>, fromAt: nat)
      requires at + BLOCK <= buf.Length && fromAt + BLOCK <= from.Length
      requires from == buf ==> fromAt + BLOCK <= at
      modifies buf
      ensures buf[..] == old(buf[..at]) + XorBlocks(old(buf[at..at + BLOCK]), old(from[fromAt..fromAt + BLOCK])) +
              old(buf[at + BLOCK..])
    {
      ghost var b, v := buf[at..at + BLOCK], from[fromAt..fromAt + BLOCK];
      for i := 0 to BLOCK
        invariant forall k: nat :: k < buf.Length ==>
          buf[k] == if at <= k < at + i then Xor(b[k - at], v[k - at]) else old(buf[k])
      {
        buf[at + i] := Xor(buf[at + i], from[fromAt + i]);
      }
    }

    // The cipher under the key and the addition of blocks are parameters of what follows: how they
    // come about does not matter to chaining.

    method AddVector(buf: array<bv8>, i: nat, from: array<bv8>, at: nat, ghost o: Operations)
      returns (next: nat, ghost x: seq<bv8>)
      requires i + BLOCK <= buf.Length && at + BLOCK <= from.Length && (from == buf ==> at + BLOCK <= i)
      requires o.Added()
      modifies buf
      ensures next == i + BLOCK && |x| == BLOCK && x == o.add(old(buf[i..i + BLOCK]), old(from[at..at + BLOCK]))
      ensures buf[..] == old(buf[..i]) + x + old(buf[i + BLOCK..])
    {
      ghost var b, v := buf[i..i + BLOCK], from[at..at + BLOCK];
      next := i + BLOCK;
      XorWithIv(buf, i, from, at);
      assert o.AddedAt(b, v);
      x := XorBlocks(b, v);
    }

    method EncryptAt(buf: array<bv8>, i: nat, ghost o: Operations, ghost w: AesCipher.Schedule)
      returns (ghost y: seq<bv8>)
      requires Valid() && Schedule() == w && o.Keyed(w) && buf != roundKey && buf != state && i + BLOCK <= buf.Length
      modifies buf, state
      ensures Schedule() == w
      ensures |y| == BLOCK && y == o.enc(old(buf[i..i + BLOCK])) && buf[..] == old(buf[..i]) + y + old(buf[i + BLOCK..])
    {
      ghost var x: Block := buf[i..i + BLOCK];
      y := Encrypted(o, w, x);
      EncryptBlock(buf, i, w);
    }

    method DecryptAt(buf: array<bv8>, i: nat, ghost o: Operations, ghost w: AesCipher.Schedule)
      returns (ghost y: seq<bv8>)
      requires Valid() && Schedule() == w && o.Keyed(w) && buf != roundKey && buf != state && i + BLOCK <= buf.Length
      modifies buf, state
      ensures Schedule() == w
      ensures |y| == BLOCK && y == o.dec(old(buf[i..i + BLOCK])) && buf[..] == old(buf[..i]) + y + old(buf[i + BLOCK..])
    {
      ghost var x: Block := buf[i..i + BLOCK];
      y := Decrypted(o, w, x);
      DecryptBlock(buf, i, w);
    }

    /** Adds the vector to one block and encrypts it. */
    method EncryptNext(buf: array<bv8>, i: nat, from: array<bv8>, at: nat,
                       ghost o: Operations, ghost iv0: seq<bv8>, ghost p: seq<bv8>) returns (next: nat)
      requires Valid() && o.Keyed(Schedule()) && o.Added() && buf != roundKey && buf != state
      requires i + BLOCK <= buf.Length && at + BLOCK <= from.Length && (from == buf ==> at + BLOCK <= i)
      requires Cbc.EncryptedTo(o.enc, o.add, iv0, p, buf[..], from[at..at + BLOCK], i)
      modifies buf, state
      ensures next == i + BLOCK && o.Keyed(Schedule())
      ensures Cbc.EncryptedTo(o.enc, o.add, iv0, p, buf[..], buf[i..next], next)
    {
      ghost var s, v := buf[..], from[at..at + BLOCK];
      ghost var x;
      next, x := AddVector(buf, i, from, at, o);
      ghost var t := buf[..];
      assert t[i..next] == x;
      ghost var y := EncryptAt(buf, i, o, Schedule());
      PutTwice(s, x, t, y, buf[..], i, next);
      Cbc.EncryptedStep(o.enc, o.add, iv0, p, s, v, i, buf[..], y, next);
    }

    /** Encrypts a buffer of whole blocks in place.  The vector to add next stays where it is: in the
        object at first, and then in the buffer, where the last block was encrypted to. */
    method CbcEncryptWith(buf: array<bv8>, ghost o: Operations)
      requires Valid() && o.Keyed(Schedule()) && o.Added()
      requires buf.Length % BLOCK == 0 && buf != roundKey && buf != iv && buf != state
      modifies buf, iv, state
      ensures Cbc.EncryptedTo(o.enc, o.add, old(iv[..]), old(buf[..]), buf[..], iv[..], buf.Length)
    {
      ghost var iv0, p := iv[..], buf[..];
      var from, at: nat, i: nat := iv, 0, 0;
      assert iv[0..BLOCK] == iv0;
      while i < buf.Length
        invariant i % BLOCK == 0 && i <= buf.Length == |p| && o.Keyed(Schedule())
        invariant from in {iv, buf} && at + BLOCK <= from.Length && (from == buf ==> at + BLOCK <= i)
        invariant Cbc.EncryptedTo(o.enc, o.add, iv0, p, buf[..], from[at..at + BLOCK], i)
        modifies buf, state
      {
        var next := EncryptNext(buf, i, from, at, o, iv0, p);
        from, at, i := buf, i, next;
      }
      SetIv(from[at..at + BLOCK]);
    }

    method CbcEncrypt(buf: array<bv8>)
      requires Valid() && buf.Length % BLOCK == 0 && buf != roundKey && buf != iv && buf != state
      modifies buf, iv, state
      ensures Schedule() == old(Schedule())
      ensures CbcEncrypts(old(Schedule()), old(iv[..]), old(buf[..]), buf[..], iv[..])
    {
      ghost var w, iv0, p := Schedule(), iv[..], buf[..];
      ghost var o := AesOperations(w);
      CbcEncryptWith(buf, o);
      AllEncrypted(o, w, iv0, p, buf[..], iv[..]);
    }

    /** Decrypts one block and adds the vector, which becomes the block as it was. */
    method DecryptNext(buf: array<bv8>, i: nat, ghost o: Operations, ghost iv0: seq<bv8>, ghost c: seq<bv8>)
      returns (next: nat)
      requires Valid() && o.Keyed(Schedule()) && o.Added() && buf != roundKey && buf != state && buf != iv
      requires i + BLOCK <= buf.Length && Cbc.DecryptedTo(o.dec, o.add, iv0, c, buf[..], iv[..], i)
      modifies buf, state, iv
      ensures next == i + BLOCK && o.Keyed(Schedule())
      ensures Cbc.DecryptedTo(o.dec, o.add, iv0, c, buf[..], iv[..], next)
    {
      ghost var s, v := buf[..], iv[..];
      var nextIv := buf[i..i + BLOCK];
      ghost var d := DecryptAt(buf, i, o, Schedule());
      ghost var t := buf[..];
      assert t[i..i + BLOCK] == d && iv[0..BLOCK] == v;
      ghost var y;
      next, y := AddVector(buf, i, iv, 0, o);
      PutTwice(s, d, t, y, buf[..], i, next);
      Cbc.DecryptedStep(o.dec, o.add, iv0, c, s, v, i, buf[..], y, next);
      SetIv(nextIv);
    }

    method CbcDecryptWith(buf: array<bv8>, ghost o: Operations)
      requires Valid() && o.Keyed(Schedule()) && o.Added()
      requires buf.Length % BLOCK == 0 && buf != roundKey && buf != iv && buf != state
      modifies buf, iv, state
      ensures Cbc.DecryptedTo(o.dec, o.add, old(iv[..]), old(buf[..]), buf[..], iv[..], buf.Length)
    {
      ghost var iv0, c := iv[..], buf[..];
      var i: nat := 0;
      while i < buf.Length
        invariant i % BLOCK == 0 && i <= buf.Length == |c| && o.Keyed(Schedule())
        invariant Cbc.DecryptedTo(o.dec, o.add, iv0, c, buf[..], iv[..], i)
      {
        i := DecryptNext(buf, i, o, iv0, c);
      }
    }

    /** Decrypts a buffer of whole blocks in place. */
    method CbcDecrypt(buf: array<bv8>)
      requires Valid() && buf.Length % BLOCK == 0 && buf != roundKey && buf != iv && buf != state
      modifies buf, iv, state
      ensures Schedule() == old(Schedule())
      ensures CbcDecrypts(old(Schedule()), old(iv[..]), old(buf[..]), buf[..], iv[..])
    {
      ghost var w, iv0, c := Schedule(), iv[..], buf[..];
      ghost var o := AesOperations(w);
      CbcDecryptWith(buf, o);
      AllDecrypted(o, w, iv0, c, buf[..], iv[..]);
    }
  }

  /** A cipher, its inverse and the addition of blocks. */
  datatype Operations = Operations(enc: seq<bv8> -> seq<bv8>, dec: seq<bv8> -> seq<bv8>,
                                   add: (seq<bv8>, seq<bv8>) -> seq<bv8>)
  {
    ghost predicate KeyedAt(w: Schedule, x: seq<bv8>) {
      |x| == BLOCK ==> enc(x) == Cipher(w, x) && dec(x) == InvCipher(w, x)
    }

    ghost predicate Keyed(w: Schedule) {
      forall x: seq<bv8> {:trigger KeyedAt(w, x)} :: KeyedAt(w, x)
    }

    ghost predicate AddedAt(x: seq<bv8>, y: seq<bv8>) {
      |x| == |y| == BLOCK ==> add(x, y) == XorBlocks(x, y)
    }

    ghost predicate Added() {
      forall x: seq<bv8>, y: seq<bv8> {:trigger AddedAt(x, y)} :: AddedAt(x, y)
    }
  }

  lemma Encrypted(o: Operations, w: Schedule, x: Block) returns (y: seq<bv8>)
    requires o.Keyed(w)
    ensures y == o.enc(x) == Cipher(w, x)
  {
    assert o.KeyedAt(w, x);
    y := Cipher(w, x);
  }

  lemma Decrypted(o: Operations, w: Schedule, x: Block) returns (y: seq<bv8>)
    requires o.Keyed(w)
    ensures y == o.dec(x) == InvCipher(w, x)
  {
    assert o.KeyedAt(w, x);
    y := InvCipher(w, x);
  }

  /** Chaining with these operations is chaining with AES under the expanded key `w`. */
  ghost predicate ChainsAes(o: Operations, w: Schedule) {
    forall iv: seq<bv8>, t: seq<seq<bv8>> {:trigger ChainsAesAt(o, w, iv, t)} :: ChainsAesAt(o, w, iv, t)
  }

  ghost predicate ChainsAesAt(o: Operations, w: Schedule, iv: seq<bv8>, t: seq<seq<bv8>>) {
    && Cbc.Encrypted(o.enc, o.add, iv, t) == Cbc.Encrypted(Enc(w), Add, iv, t)
    && Cbc.Decrypted(o.dec, o.add, iv, t) == Cbc.Decrypted(Dec(w), Add, iv, t)
  }

  lemma AesOperations(w: Schedule) returns (o: Operations)
    ensures o.Keyed(w) && o.Added() && ChainsAes(o, w)
  {
    o := Operations(Enc(w), Dec(w), Add);
  }

  lemma AllEncrypted(o: Operations, w: Schedule, iv: Block, p: seq<bv8>, c: seq<bv8>, iv': Block)
    requires ChainsAes(o, w) && Cbc.EncryptedTo(o.enc, o.add, iv, p, c, iv', |p|)
    ensures CbcEncrypts(w, iv, p, c, iv')
  {
    assert ChainsAesAt(o, w, iv, Cbc.Blocks(p));
    assert c[..|p|] == c && p[..|p|] == p;
  }

  lemma AllDecrypted(o: Operations, w: Schedule, iv: Block, c: seq<bv8>, p: seq<bv8>, iv': Block)
    requires ChainsAes(o, w) && Cbc.DecryptedTo(o.dec, o.add, iv, c, p, iv', |c|)
    ensures CbcDecrypts(w, iv, c, p, iv')
  {
    assert ChainsAesAt(o, w, iv, Cbc.Blocks(c));
    assert p[..|c|] == p && c[..|c|] == c;
  }

  function Zeros(): Block {
    seq(BLOCK, _ => 0)
  }

  /** The first `n` words of the expanded key. */
  ghost predicate ExpandedTo(key: seq<bv8>, w: seq<bv8>, n: nat)
    requires |key| == 32 && |w| == 240 && n <= 60
  {
    forall j: nat :: j < n ==> WordIs(key, w, j)
  }

  ghost predicate WordIs(key: seq<bv8>, w: seq<bv8>, j: nat)
    requires |key| == 32 && |w| == 240 && j < 60
  {
    w[4 * j..4 * j + 4] == Word(key, j)
  }

  /** Byte `k` of word `i` of the expanded key, section 5.2 of FIPS 197 on bytes: that of the key, or that of the word
      eight before plus that of the last word; every eighth word the last one is turned to the left, looked up and
      has a power of x added, and half-way between it is looked up. */
  ghost predicate ByteExpanded(key: seq<bv8>, w: seq<bv8>, i: nat, k: nat)
    requires |key| == 32 && |w| == 240 && i < 60 && k < 4
  {
    w[4 * i + k] ==
    if i < 8 then key[4 * i + k]
    else ExpandedByte(i, k, w[4 * (i - 8) + k], w[4 * (i - 1) + k], w[4 * (i - 1) + (k + 1) % 4])
  }

  /** From the byte eight words before, that of the last word and the next one of that. */
  function ExpandedByte(i: nat, k: nat, before: bv8, last: bv8, turned: bv8): bv8
    requires i >= 8
  {
    Xor(before,
        if i % 8 == 0 then Xor(Sbox(turned), if k == 0 then PowerOfX(i / 8 - 1) else 0)
        else if i % 8 == 4 then Sbox(last) else last)
  }

  function PowerOfX(n: nat): bv8 {
    match n
    case 0 => 0x01 case 1 => 0x02 case 2 => 0x04 case 3 => 0x08 case 4 => 0x10 case 5 => 0x20 case _ => 0x40
  }

  lemma {:induction false} AllBytesExpanded(key: seq<bv8>, w: seq<bv8>)
    requires |key| == 32 && |w| == 240 && ExpandedTo(key, w, 60)
    ensures forall i: nat, k: nat :: i < 60 && k < 4 ==> ByteExpanded(key, w, i, k)
  {
    forall i: nat, k: nat | i < 60 && k < 4 ensures ByteExpanded(key, w, i, k) { ByteOfWord(key, w, i, k); }
  }

  lemma {:induction false} ByteOfWord(key: seq<bv8>, w: seq<bv8>, i: nat, k: nat)
    requires |key| == 32 && |w| == 240 && ExpandedTo(key, w, 60) && i < 60 && k < 4
    ensures ByteExpanded(key, w, i, k)
  {
    WordByte(key, w, i, k);
    if i >= 8 {
      WordByte(key, w, i - 8, k);
      WordByte(key, w, i - 1, k);
      WordByte(key, w, i - 1, (k + 1) % 4);
      NextByte(key, i, k, w[4 * (i - 8) + k], w[4 * (i - 1) + k], w[4 * (i - 1) + (k + 1) % 4]);
    }
  }

  lemma {:induction false} WordByte(key: seq<bv8>, w: seq<bv8>, i: nat, k: nat)
    requires |key| == 32 && |w| == 240 && ExpandedTo(key, w, 60) && i < 60 && k < 4
    ensures w[4 * i + k] == Word(key, i)[k]
  {
    assert WordIs(key, w, i);
    assert w[4 * i + k] == w[4 * i..4 * i + 4][k];
  }

  lemma {:induction false} NextByte(key: seq<bv8>, i: nat, k: nat, b: bv8, l: bv8, t: bv8)
    requires |key| == 32 && 8 <= i < 60 && k < 4
    requires b == Word(key, i - 8)[k] && l == Word(key, i - 1)[k] && t == Word(key, i - 1)[(k + 1) % 4]
    ensures Word(key, i)[k] == ExpandedByte(i, k, b, l, t)
  {
    var last, before := Word(key, i - 1), Word(key, i - 8);
    NextWordIs(key, i, last, before);
    XorWordsByte(before, Temp(last, i), k);
    TempByte(last, i, k);
  }

  lemma XorWordsByte(a: seq<bv8>, b: seq<bv8>, k: nat)
    requires |a| == |b| == 4 && k < 4
    ensures XorWords(a, b)[k] == Xor(a[k], b[k])
  {
    if k == 0 { } else if k == 1 { } else if k == 2 { } else { }
  }

  /** What is added to the word eight before. */
  function Temp(last: seq<bv8>, i: nat): (t: seq<bv8>)
    requires |last| == 4 && 8 <= i
    ensures |t| == 4
  {
    if i % 8 == 0 then XorWords(SubWord(RotWord(last)), [Rcon(i / 8), 0, 0, 0])
    else if i % 8 == 4 then SubWord(last)
    else last
  }

  lemma {:induction false} NextWordIs(key: seq<bv8>, i: nat, last: seq<bv8>, before: seq<bv8>)
    requires |key| == 32 && 8 <= i < 60 && last == Word(key, i - 1) && before == Word(key, i - 8)
    ensures Word(key, i) == XorWords(before, Temp(last, i))
  {
  }

  lemma {:induction false} TempByte(last: seq<bv8>, i: nat, k: nat)
    requires |last| == 4 && 8 <= i < 60 && k < 4
    ensures Temp(last, i)[k] ==
            if i % 8 == 0 then Xor(Sbox(last[(k + 1) % 4]), if k == 0 then PowerOfX(i / 8 - 1) else 0)
            else if i % 8 == 4 then Sbox(last[k])
            else last[k]
  {
    if i % 8 == 0 {
      RconExact(i / 8);
      TurnedByte(last, PowerOfX(i / 8 - 1), k);
    }
  }

  lemma {:induction false} TurnedByte(last: seq<bv8>, c: bv8, k: nat)
    requires |last| == 4 && k < 4
    ensures XorWords(SubWord(RotWord(last)), [c, 0, 0, 0])[k] == Xor(Sbox(last[(k + 1) % 4]), if k == 0 then c else 0)
  {
    if k == 0 { } else if k == 1 { } else if k == 2 { } else { }
  }

  lemma {:induction false} ExpandStep(key: seq<bv8>, w: seq<bv8>, i: nat, word: seq<bv8>)
    requires |key| == 32 && |w| == 240 && i < 60 && ExpandedTo(key, w, i) && word == Word(key, i)
    ensures ExpandedTo(key, w[..4 * i] + word + w[4 * i + 4..], i + 1)
  {
    var w' := w[..4 * i] + word + w[4 * i + 4..];
    forall j: nat | j < i + 1 ensures WordIs(key, w', j) {
      if j < i {
        assert WordIs(key, w, j);
        assert w'[4 * j..4 * j + 4] == w[4 * j..4 * j + 4];
      } else {
        assert w'[4 * i..4 * i + 4] == word;
      }
    }
  }

  /** The next word, from the one before and the one a key length before. */
  lemma {:induction false} NextWord(key: seq<bv8>, w: seq<bv8>, i: nat, temp: seq<bv8>, word: seq<bv8>)
    requires |key| == 32 && |w| == 240 && NK <= i < 60 && ExpandedTo(key, w, i)
    requires temp == var last := w[4 * (i - 1)..4 * (i - 1) + 4];
                     if i % 8 == 0 then XorWords(SubWord(RotWord(last)), [RconTable(i / 8), 0, 0, 0])
                     else if i % 8 == 4 then SubWord(last) else last
    requires |temp| == 4 && word == XorWords(w[4 * (i - NK)..4 * (i - NK) + 4], temp)
    ensures word == Word(key, i)
  {
    assert WordIs(key, w, i - 1) && WordIs(key, w, i - NK);
    RconExact(i / 8);
  }

  /** A block put in place of another, and then another in place of that. */
  lemma PutTwice<T>(s: seq<T>, x: seq<T>, t: seq<T>, y: seq<T>, u: seq<T>, i: nat, next: nat)
    requires next == i + |x| == i + |y| <= |s|
    requires t == s[..i] + x + s[next..] && u == t[..i] + y + t[next..]
    ensures t[i..next] == x && u == s[..i] + y + s[next..]
  {
    assert t[..i] == s[..i] && t[next..] == s[next..];
  }

  /** A byte of a column, from all bytes and their factors. */
  function InvCode(a: bv8, ka: bv8, b: bv8, kb: bv8, c: bv8, kc: bv8, d: bv8, kd: bv8): bv8 {
    Xor(Xor(Xor(Multiply(a, ka), Multiply(b, kb)), Multiply(c, kc)), Multiply(d, kd))
  }

  lemma {:induction false} InvCodeExact(a: bv8, ka: bv8, b: bv8, kb: bv8, c: bv8, kc: bv8, d: bv8, kd: bv8)
    requires ka in [0x09, 0x0b, 0x0d, 0x0e] && kb in [0x09, 0x0b, 0x0d, 0x0e]
    requires kc in [0x09, 0x0b, 0x0d, 0x0e] && kd in [0x09, 0x0b, 0x0d, 0x0e]
    ensures InvCode(a, ka, b, kb, c, kc, d, kd) == Sum(Times(a, ka), Times(b, kb), Times(c, kc), Times(d, kd))
  {
    MultiplyExact(a, ka);
    MultiplyExact(b, kb);
    MultiplyExact(c, kc);
    MultiplyExact(d, kd);
    XorAssociates(Xor(Times(a, ka), Times(b, kb)), Times(c, kc), Times(d, kd));
  }

  lemma InvCodeColumn(s: Column)
    ensures AesField.InvMixColumn(s) ==
      (InvCode(s.0, 0x0e, s.1, 0x0b, s.2, 0x0d, s.3, 0x09), InvCode(s.0, 0x09, s.1, 0x0e, s.2, 0x0b, s.3, 0x0d),
       InvCode(s.0, 0x0d, s.1, 0x09, s.2, 0x0e, s.3, 0x0b), InvCode(s.0, 0x0b, s.1, 0x0d, s.2, 0x09, s.3, 0x0e))
  {
    InvCodeExact(s.0, 0x0e, s.1, 0x0b, s.2, 0x0d, s.3, 0x09);
    InvCodeExact(s.0, 0x09, s.1, 0x0e, s.2, 0x0b, s.3, 0x0d);
    InvCodeExact(s.0, 0x0d, s.1, 0x09, s.2, 0x0e, s.3, 0x0b);
    InvCodeExact(s.0, 0x0b, s.1, 0x0d, s.2, 0x09, s.3, 0x0e);
    SumRotates(Times(s.1, 0x0e), Times(s.2, 0x0b), Times(s.3, 0x0d), Times(s.0, 0x09));
    SumRotates(Times(s.2, 0x0e), Times(s.3, 0x0b), Times(s.0, 0x0d), Times(s.1, 0x09));
    SumRotates(Times(s.1, 0x09), Times(s.2, 0x0e), Times(s.3, 0x0b), Times(s.0, 0x0d));
    SumRotates(Times(s.3, 0x0e), Times(s.0, 0x0b), Times(s.1, 0x0d), Times(s.2, 0x09));
    SumRotates(Times(s.2, 0x09), Times(s.3, 0x0e), Times(s.0, 0x0b), Times(s.1, 0x0d));
    SumRotates(Times(s.1, 0x0d), Times(s.2, 0x09), Times(s.3, 0x0e), Times(s.0, 0x0b));
  }

  lemma MixCodeColumn(s: Column)
    ensures var all := Xor(Xor(Xor(s.0, s.1), s.2), s.3);
            AesField.MixColumn(s) == (MixCode(s.0, s.1, all), MixCode(s.1, s.2, all),
                                         MixCode(s.2, s.3, all), MixCode(s.3, s.0, all))
  {
    XorAssociates(Xor(s.0, s.1), s.2, s.3);
    SumRotates(s.1, s.2, s.3, s.0);
    SumRotates(s.2, s.3, s.0, s.1);
    SumRotates(s.3, s.0, s.1, s.2);
    MixCodeExact(s.0, s.1, s.2, s.3);
    MixCodeExact(s.1, s.2, s.3, s.0);
    MixCodeExact(s.2, s.3, s.0, s.1);
    MixCodeExact(s.3, s.0, s.1, s.2);
  }

  lemma ColumnsDone(s: Block, t: Block, f: Column -> Column)
    requires forall c: nat :: c < 4 ==> ColumnOf(t, c) == f(ColumnOf(s, c))
    ensures t == ByColumns(s, f)
  {
    forall c: nat | c < 4 ensures ColumnOf(t, c) == ColumnOf(ByColumns(s, f), c) {
      ColumnMapped(s, f, c);
    }
    SameColumns(t, ByColumns(s, f));
  }

  lemma RotatedFromAt()
    ensures RotatedFrom(0) == 0 && RotatedFrom(1) == 5 && RotatedFrom(2) == 10 && RotatedFrom(3) == 15
    ensures RotatedFrom(4) == 4 && RotatedFrom(5) == 9 && RotatedFrom(6) == 14 && RotatedFrom(7) == 3
    ensures RotatedFrom(8) == 8 && RotatedFrom(9) == 13 && RotatedFrom(10) == 2 && RotatedFrom(11) == 7
    ensures RotatedFrom(12) == 12 && RotatedFrom(13) == 1 && RotatedFrom(14) == 6 && RotatedFrom(15) == 11
  {
  }

  lemma RowsShifted(s: Block, t: Block)
    requires t[0] == s[0] && t[1] == s[5] && t[2] == s[10] && t[3] == s[15]
    requires t[4] == s[4] && t[5] == s[9] && t[6] == s[14] && t[7] == s[3]
    requires t[8] == s[8] && t[9] == s[13] && t[10] == s[2] && t[11] == s[7]
    requires t[12] == s[12] && t[13] == s[1] && t[14] == s[6] && t[15] == s[11]
    ensures t == AesCipher.ShiftRows(s)
  {
    RotatedFromAt();
    forall i: nat | i < BLOCK ensures t[i] == s[RotatedFrom(i)] {
      assert i in [0, 1, 2, 3, 4, 5, 6, 7, 8, 9, 10, 11, 12, 13, 14, 15];
    }
  }

  lemma RotatedToAt()
    ensures RotatedTo(0) == 0 && RotatedTo(1) == 13 && RotatedTo(2) == 10 && RotatedTo(3) == 7
    ensures RotatedTo(4) == 4 && RotatedTo(5) == 1 && RotatedTo(6) == 14 && RotatedTo(7) == 11
    ensures RotatedTo(8) == 8 && RotatedTo(9) == 5 && RotatedTo(10) == 2 && RotatedTo(11) == 15
    ensures RotatedTo(12) == 12 && RotatedTo(13) == 9 && RotatedTo(14) == 6 && RotatedTo(15) == 3
  {
  }

  lemma RowsShiftedBack(s: Block, t: Block)
    requires t[0] == s[0] && t[1] == s[13] && t[2] == s[10] && t[3] == s[7]
    requires t[4] == s[4] && t[5] == s[1] && t[6] == s[14] && t[7] == s[11]
    requires t[8] == s[8] && t[9] == s[5] && t[10] == s[2] && t[11] == s[15]
    requires t[12] == s[12] && t[13] == s[9] && t[14] == s[6] && t[15] == s[3]
    ensures t == AesCipher.InvShiftRows(s)
  {
    RotatedToAt();
    forall i: nat | i < BLOCK ensures t[i] == s[RotatedTo(i)] {
      assert i in [0, 1, 2, 3, 4, 5, 6, 7, 8, 9, 10, 11, 12, 13, 14, 15];
    }
  }
}
