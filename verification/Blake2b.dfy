/** BLAKE2b over an unknown compression function: the streaming interface against the one-shot
    description in section 3.3 of RFC 7693. */
module Blake2b {
  import opened ByteTables

  const BLOCKBYTES: nat := 128
  const OUTBYTES: nat := 64
  const KEYBYTES: nat := 64
  const WORD: nat := 0x1_0000_0000_0000_0000
  const ALL_ONES: nat := WORD - 1

  /** A chaining value: eight words. */
  type Chain = h: seq<bv64> | |h| == 8 witness [0, 0, 0, 0, 0, 0, 0, 0]

  /** Chaining value, message block, both counter words and both flag words to the next
      chaining value. */
  type Compression = (Chain, seq<bv8>, nat, nat, nat, nat) -> Chain

  function IV(): Chain {
    [0x6a09e667f3bcc908, 0xbb67ae8584caa73b, 0x3c6ef372fe94f82b, 0xa54ff53a5f1d36f1,
     0x510e527fade682d1, 0x9b05688c2b3e6c1f, 0x1f83d9abfb41bd6b, 0x5be0cd19137e2179]
  }

  function Zeros(n: nat): (z: seq<bv8>)
    ensures |z| == n
  {
    seq(n, _ => 0)
  }

  /** `s` with zeros up to a whole block. */
  function Pad(s: seq<bv8>): (b: seq<bv8>)
    requires |s| <= BLOCKBYTES
    ensures |b| == BLOCKBYTES
  {
    s + Zeros(BLOCKBYTES - |s|)
  }

  /** Byte `j` of a number, byte 0 being the lowest. */
  function NumberByte(n: nat, j: nat): (x: nat)
    ensures x < 256
  {
    n / Pow256(j) % 256
  }

  function WordNumber(w: bv64): nat {
    w as int
  }

  function ByteNumber(b: bv8): nat {
    b as int
  }

  function StoreByte(w: bv64, j: nat): (b: bv8)
    ensures ByteNumber(b) == NumberByte(WordNumber(w), j)
  {
    ToByte(NumberByte(WordNumber(w), j))
  }

  /** A word as eight bytes, the low one first. */
  function StoreWord(w: bv64): (s: seq<bv8>)
    ensures |s| == 8
  {
    seq(8, j requires 0 <= j < 8 => StoreByte(w, j))
  }

  function LoadWord(s: seq<bv8>): bv64
    requires |s| == 8
  {
    (s[0] as bv64) | ((s[1] as bv64) << 8) | ((s[2] as bv64) << 16) | ((s[3] as bv64) << 24)
    | ((s[4] as bv64) << 32) | ((s[5] as bv64) << 40) | ((s[6] as bv64) << 48) | ((s[7] as bv64) << 56)
  }

  function LoadWords(s: seq<bv8>): (words: seq<bv64>)
    requires |s| == 64
    ensures |words| == 8
  {
    seq(8, i requires 0 <= i < 8 => LoadWord(s[8 * i..8 * i + 8]))
  }

  function StoreWords(h: seq<bv64>): (s: seq<bv8>)
    ensures |s| == 8 * |h|
  {
    if h == [] then [] else StoreWord(h[0]) + StoreWords(h[1..])
  }

  /** Byte `j` of word `i` goes to byte `8 * i + j`. */
  lemma {:induction false} StoredBytes(h: seq<bv64>, i: nat, j: nat)
    requires i < |h| && j < 8
    ensures ByteNumber(StoreWords(h)[8 * i + j]) == WordNumber(h[i]) / Pow256(j) % 256
  {
    if i == 0 {
      assert StoreWords(h)[j] == StoreWord(h[0])[j];
    } else {
      StoredBytes(h[1..], i - 1, j);
      assert StoreWords(h)[8 * i + j] == StoreWords(h[1..])[8 * (i - 1) + j];
    }
  }

  lemma {:induction false} StoredAt(h: seq<bv64>, n: nat)
    requires n < 8 * |h|
    ensures ByteNumber(StoreWords(h)[n]) == WordNumber(h[n / 8]) / Pow256(n % 8) % 256
  {
    StoredBytes(h, n / 8, n % 8);
  }

  /** `x` is the square root of `p`, in units of 2^-64 and rounded down. */
  predicate IsRoot(x: nat, p: nat) {
    x * x <= p * 0x1_0000_0000_0000_0000_0000_0000_0000_0000 < (x + 1) * (x + 1)
  }

  /** The words of IV are the leading 64 bits of the fractions of the square roots of the first eight primes. */
  lemma {:induction false} RootFractions(i: nat, p: nat, root: nat)
    requires i < 8 && (p, root) == [(2, 1), (3, 1), (5, 2), (7, 2), (11, 3), (13, 3), (17, 4), (19, 4)][i]
    ensures IsRoot(root * 0x1_0000_0000_0000_0000 + WordNumber(IV()[i]), p)
  {
    Roots();
    if i == 0 {
      IVNumber(0, 0x6a09e667f3bcc908);
    } else if i == 1 {
      IVNumber(1, 0xbb67ae8584caa73b);
    } else if i == 2 {
      IVNumber(2, 0x3c6ef372fe94f82b);
    } else if i == 3 {
      IVNumber(3, 0xa54ff53a5f1d36f1);
    } else if i == 4 {
      IVNumber(4, 0x510e527fade682d1);
    } else if i == 5 {
      IVNumber(5, 0x9b05688c2b3e6c1f);
    } else if i == 6 {
      IVNumber(6, 0x1f83d9abfb41bd6b);
    } else {
      IVNumber(7, 0x5be0cd19137e2179);
    }
  }

  lemma Roots()
    ensures IsRoot(0x16a09e667f3bcc908, 2)
    ensures IsRoot(0x1bb67ae8584caa73b, 3)
    ensures IsRoot(0x23c6ef372fe94f82b, 5)
    ensures IsRoot(0x2a54ff53a5f1d36f1, 7)
    ensures IsRoot(0x3510e527fade682d1, 11)
    ensures IsRoot(0x39b05688c2b3e6c1f, 13)
    ensures IsRoot(0x41f83d9abfb41bd6b, 17)
    ensures IsRoot(0x45be0cd19137e2179, 19)
  {
  }

  lemma IVNumber(i: nat, n: nat)
    requires i < 8
    requires n == [0x6a09e667f3bcc908, 0xbb67ae8584caa73b, 0x3c6ef372fe94f82b, 0xa54ff53a5f1d36f1,
                   0x510e527fade682d1, 0x9b05688c2b3e6c1f, 0x1f83d9abfb41bd6b, 0x5be0cd19137e2179][i]
    ensures WordNumber(IV()[i]) == n
  {
    if i == 0 { } else if i == 1 { } else if i == 2 { } else if i == 3 { }
    else if i == 4 { } else if i == 5 { } else if i == 6 { } else { }
  }

  // ----- section 3.3 of RFC 7693 -----

  /** The data blocks of a message. */
  function MessageBlocks(message: seq<bv8>): (d: seq<seq<bv8>>) {
    if message == [] then []
    else if |message| <= BLOCKBYTES then [Pad(message)]
    else [message[..BLOCKBYTES]] + MessageBlocks(message[BLOCKBYTES..])
  }

  function DataBlocks(key: seq<bv8>, message: seq<bv8>): (d: seq<seq<bv8>>)
    requires |key| <= KEYBYTES
    ensures |d| > 0
  {
    if key == [] && message == [] then [Zeros(BLOCKBYTES)]
    else (if key == [] then [] else [Pad(key)]) + MessageBlocks(message)
  }

  /** The compression of one block with a two-word offset counter and a final-block flag. */
  function Compress(c: Compression, h: Chain, block: seq<bv8>, t: nat, last: bool): Chain {
    c(h, block, t % WORD, t / WORD % WORD, if last then ALL_ONES else 0, 0)
  }

  /** The chaining value after the first `n` blocks, none of them the last. */
  function Chained(c: Compression, h: Chain, d: seq<seq<bv8>>, n: nat): Chain
    requires n <= |d|
  {
    if n == 0 then h else Compress(c, Chained(c, h, d, n - 1), d[n - 1], n * BLOCKBYTES, false)
  }

  function StartValue(keyLength: nat, hashLength: nat): Chain
    requires keyLength < 256 && hashLength < 256
  {
    IV()[0 := IV()[0] ^ 0x01010000 ^ (((keyLength as bv8) as bv64) << 8) ^ ((hashLength as bv8) as bv64)]
  }

  /** The hash of a message under a key, which may be empty, `hashLength` bytes long. */
  function Digest(c: Compression, hashLength: nat, key: seq<bv8>, message: seq<bv8>): seq<bv8>
    requires |key| <= KEYBYTES && hashLength <= OUTBYTES
  {
    var d := DataBlocks(key, message);
    var h := Chained(c, StartValue(|key|, hashLength), d, |d| - 1);
    var total := if key == [] then |message| else |message| + BLOCKBYTES;
    StoreWords(Compress(c, h, d[|d| - 1], total, true))[..hashLength]
  }

  // ----- what has been absorbed -----

  /** How many blocks have been compressed after `n` bytes: the last non-empty one waits. */
  function Full(n: nat): (k: nat)
    ensures n == 0 ==> k == 0
    ensures n > 0 ==> k * BLOCKBYTES < n <= (k + 1) * BLOCKBYTES
  {
    if n == 0 then 0 else (n - 1) / BLOCKBYTES
  }

  function Block(data: seq<bv8>, i: nat): seq<bv8>
    requires (i + 1) * BLOCKBYTES <= |data|
  {
    data[i * BLOCKBYTES..(i + 1) * BLOCKBYTES]
  }

  /** The chaining value after `n` blocks of the byte string `data`. */
  function Absorb(c: Compression, h: Chain, data: seq<bv8>, n: nat): Chain
    requires n * BLOCKBYTES <= |data|
  {
    if n == 0 then h else Compress(c, Absorb(c, h, data, n - 1), Block(data, n - 1), n * BLOCKBYTES, false)
  }

  lemma {:induction false} AbsorbMore(c: Compression, h: Chain, data: seq<bv8>, more: seq<bv8>, n: nat)
    requires n * BLOCKBYTES <= |data|
    ensures Absorb(c, h, data + more, n) == Absorb(c, h, data, n)
  {
    if n > 0 {
      AbsorbMore(c, h, data, more, n - 1);
      assert Block(data + more, n - 1) == Block(data, n - 1);
    }
  }

  /** What is hashed, the key block first. */
  function Keyed(key: seq<bv8>, message: seq<bv8>): seq<bv8>
    requires |key| <= KEYBYTES
  {
    (if key == [] then [] else Pad(key)) + message
  }

  /** All blocks of `data` but the last are whole; the last is padded. */
  lemma {:induction false} MessageBlocksAt(data: seq<bv8>)
    requires data != []
    ensures var d, k := MessageBlocks(data), Full(|data|);
            |d| == k + 1 && d[k] == Pad(data[k * BLOCKBYTES..])
            && forall i: nat :: i < k ==> d[i] == Block(data, i)
  {
    var d, k := MessageBlocks(data), Full(|data|);
    if |data| <= BLOCKBYTES {
      assert data[0..] == data;
    } else {
      var rest := data[BLOCKBYTES..];
      MessageBlocksAt(rest);
      assert Full(|rest|) == k - 1 && rest[(k - 1) * BLOCKBYTES..] == data[k * BLOCKBYTES..];
      forall i: nat | i < k ensures d[i] == Block(data, i) {
        if i > 0 { assert Block(rest, i - 1) == Block(data, i); }
      }
    }
  }

  /** The data blocks of a keyed message are the blocks of the key block and the message in one
      string. */
  lemma DataBlocksAt(key: seq<bv8>, message: seq<bv8>)
    requires |key| <= KEYBYTES
    ensures var d, data := DataBlocks(key, message), Keyed(key, message); var k := Full(|data|);
            |d| == k + 1 && d[k] == Pad(data[k * BLOCKBYTES..])
            && forall i: nat :: i < k ==> d[i] == Block(data, i)
  {
    var d, data := DataBlocks(key, message), Keyed(key, message);
    if key == [] {
      assert data == message;
      if message != [] { MessageBlocksAt(message); assert d == MessageBlocks(message); }
      else { assert data[0..] == [] && Pad([]) == Zeros(BLOCKBYTES); }
    } else {
      MessageBlocksAt(data);
      if message == [] {
        assert data == Pad(key) && data + Zeros(0) == data;
        assert MessageBlocks(data) == [Pad(key)];
      } else {
        assert data[..BLOCKBYTES] == Pad(key) && data[BLOCKBYTES..] == message;
      }
      assert d == MessageBlocks(data);
    }
  }

  lemma {:induction false} ChainedAbsorb(c: Compression, h: Chain, d: seq<seq<bv8>>, data: seq<bv8>, n: nat)
    requires n <= |d| && n * BLOCKBYTES <= |data|
    requires forall i: nat :: i < n ==> d[i] == Block(data, i)
    ensures Chained(c, h, d, n) == Absorb(c, h, data, n)
  {
    if n > 0 {
      ChainedAbsorb(c, h, d, data, n - 1);
    }
  }

  /** The hash, computed on the key block and the message in one string. */
  lemma DigestAbsorb(c: Compression, hashLength: nat, key: seq<bv8>, message: seq<bv8>)
    requires |key| <= KEYBYTES && hashLength <= OUTBYTES
    ensures var data := Keyed(key, message); var k := Full(|data|);
            var h := Absorb(c, StartValue(|key|, hashLength), data, k);
            Digest(c, hashLength, key, message)
            == StoreWords(Compress(c, h, Pad(data[k * BLOCKBYTES..]), |data|, true))[..hashLength]
  {
    var data := Keyed(key, message);
    DataBlocksAt(key, message);
    assert |data| == if key == [] then |message| else |message| + BLOCKBYTES;
    ChainedAbsorb(c, StartValue(|key|, hashLength), DataBlocks(key, message), data, Full(|data|));
  }

  // ----- the whole hash, spelled out -----

  /** The byte at `pos` of what is hashed: the key with zeros up to 128 bytes, unless it is empty, the message, and
      zeros. */
  ghost function TextByte(key: seq<bv8>, message: seq<bv8>, pos: nat): bv8 {
    var start := if key == [] then 0 else 128;
    if pos < start then if pos < |key| then key[pos] else 0
    else if pos - start < |message| then message[pos - start] else 0
  }

  lemma {:induction false} KeyedByte(key: seq<bv8>, message: seq<bv8>, pos: nat)
    requires |key| <= KEYBYTES && pos < |Keyed(key, message)|
    ensures Keyed(key, message)[pos] == TextByte(key, message, pos)
  {
  }

  /** Block `b` is the `i`-th 128 bytes of what is hashed. */
  ghost predicate BlockIs(key: seq<bv8>, message: seq<bv8>, i: nat, b: seq<bv8>) {
    |b| == 128 && forall j: nat :: j < 128 ==> b[j] == TextByte(key, message, 128 * i + j)
  }

  lemma {:induction false} BlocksSpelled(key: seq<bv8>, message: seq<bv8>, i: nat)
    requires |key| <= KEYBYTES && i < |DataBlocks(key, message)|
    ensures BlockIs(key, message, i, DataBlocks(key, message)[i])
  {
    DataBlocksAt(key, message);
    var d, data := DataBlocks(key, message), Keyed(key, message);
    forall j: nat | j < 128 ensures |d[i]| == 128 && d[i][j] == TextByte(key, message, 128 * i + j) {
      if 128 * i + j < |data| { KeyedByte(key, message, 128 * i + j); }
    }
  }

  /** The next chaining value after a block up to which there are `n` bytes, of which it is the last or not. */
  ghost predicate StepIs(c: Compression, h: Chain, block: seq<bv8>, n: nat, last: bool, h': Chain) {
    h' == c(h, block, n % 0x1_0000_0000_0000_0000, n / 0x1_0000_0000_0000_0000 % 0x1_0000_0000_0000_0000,
            if last then 0xffff_ffff_ffff_ffff else 0, 0)
  }

  lemma StepSpelled(c: Compression, h: Chain, block: seq<bv8>, n: nat, last: bool)
    ensures StepIs(c, h, block, n, last, Compress(c, h, block, n, last))
  {
  }

  /** Each chaining value comes from the one before, the next block and the number of bytes so far. */
  ghost predicate StepsAre(c: Compression, blocks: seq<seq<bv8>>, hs: seq<Chain>) {
    && |hs| == |blocks|
    && forall i: nat {:trigger blocks[i]} :: i < |blocks| - 1 ==>
         StepIs(c, hs[i], blocks[i], 128 * (i + 1), false, hs[i + 1])
  }

  /** The first chaining value: IV with the length of the hash, the length of the key and two ones mixed in. */
  ghost predicate StartIs(keyLength: nat, hashLength: nat, h: Chain) {
    && h[0] == 0x6a09e667f3bcc908 ^ 0x01010000 ^ ((keyLength % 256) as bv64 << 8) ^ ((hashLength % 256) as bv64)
    && forall i: nat :: 0 < i < 8 ==> h[i] == IV()[i]
  }

  /** The bytes of the hash: the low bytes of each word first. */
  ghost predicate BytesAre(last: Chain, d: seq<bv8>) {
    |d| <= 64 && forall n: nat :: n < |d| ==> ByteNumber(d[n]) == WordNumber(last[n / 8]) / Pow256(n % 8) % 256
  }

  lemma {:induction false} ChainSpelled(c: Compression, start: Chain, blocks: seq<seq<bv8>>) returns (hs: seq<Chain>)
    requires blocks != []
    ensures StepsAre(c, blocks, hs) && hs[0] == start && hs[|blocks| - 1] == Chained(c, start, blocks, |blocks| - 1)
  {
    hs := Chains(c, start, blocks);
    forall i: nat {:trigger blocks[i]} | i < |blocks| - 1
      ensures StepIs(c, hs[i], blocks[i], 128 * (i + 1), false, hs[i + 1])
    {
      NextChain(c, start, blocks, i);
    }
  }

  ghost function Chains(c: Compression, start: Chain, blocks: seq<seq<bv8>>): (hs: seq<Chain>)
    ensures |hs| == |blocks| && forall i: nat :: i < |hs| ==> hs[i] == Chained(c, start, blocks, i)
  {
    seq(|blocks|, i requires 0 <= i < |blocks| => Chained(c, start, blocks, i))
  }

  lemma {:induction false} NextChain(c: Compression, start: Chain, blocks: seq<seq<bv8>>, i: nat)
    requires i < |blocks|
    ensures StepIs(c, Chained(c, start, blocks, i), blocks[i], 128 * (i + 1), false, Chained(c, start, blocks, i + 1))
  {
    assert (i + 1) * BLOCKBYTES == 128 * (i + 1);
    StepSpelled(c, Chained(c, start, blocks, i), blocks[i], 128 * (i + 1), false);
  }

  /** Section 3.3 of RFC 7693 without its functions: the blocks of 128 bytes, the chaining values, the last of them
      made with the number of all bytes and the final flag, and the bytes of that. */
  lemma {:induction false} DigestSpelled(c: Compression, hashLength: nat, key: seq<bv8>, message: seq<bv8>)
    returns (blocks: seq<seq<bv8>>, hs: seq<Chain>, last: Chain)
    requires |key| <= 64 && 0 < hashLength <= 64
    ensures var total := |message| + if key == [] then 0 else 128; var k := |blocks| - 1;
            && 0 <= k && (128 * k < total <= 128 * (k + 1) || (total == 0 && k == 0))
            && StepsAre(c, blocks, hs) && StartIs(|key|, hashLength, hs[0])
            && StepIs(c, hs[k], blocks[k], total, true, last)
    ensures forall i: nat :: i < |blocks| ==> BlockIs(key, message, i, blocks[i])
    ensures |Digest(c, hashLength, key, message)| == hashLength && BytesAre(last, Digest(c, hashLength, key, message))
  {
    BlockCount(key, message);
    blocks := DataBlocks(key, message);
    hs := ChainSpelled(c, StartValue(|key|, hashLength), blocks);
    last := LastSpelled(c, hashLength, key, message);
    AllBlocksSpelled(key, message);
    StartSpelled(|key|, hashLength);
  }

  lemma {:induction false} LastSpelled(c: Compression, hashLength: nat, key: seq<bv8>, message: seq<bv8>)
    returns (last: Chain)
    requires |key| <= 64 && 0 < hashLength <= 64
    ensures var d := DataBlocks(key, message);
            StepIs(c, Chained(c, StartValue(|key|, hashLength), d, |d| - 1), d[|d| - 1],
                   |message| + if key == [] then 0 else 128, true, last)
    ensures |Digest(c, hashLength, key, message)| == hashLength && BytesAre(last, Digest(c, hashLength, key, message))
  {
    var d, total := DataBlocks(key, message), |message| + if key == [] then 0 else 128;
    var h := Chained(c, StartValue(|key|, hashLength), d, |d| - 1);
    last := Compress(c, h, d[|d| - 1], total, true);
    StepSpelled(c, h, d[|d| - 1], total, true);
    BytesSpelled(last, hashLength);
    DigestIs(c, hashLength, key, message, last);
  }

  lemma {:induction false} DigestIs(c: Compression, hashLength: nat, key: seq<bv8>, message: seq<bv8>, last: Chain)
    requires |key| <= 64 && 0 < hashLength <= 64
    requires var d := DataBlocks(key, message);
             last == Compress(c, Chained(c, StartValue(|key|, hashLength), d, |d| - 1), d[|d| - 1],
                              |message| + if key == [] then 0 else 128, true)
    ensures Digest(c, hashLength, key, message) == StoreWords(last)[..hashLength]
  {
  }

  lemma {:induction false} AllBlocksSpelled(key: seq<bv8>, message: seq<bv8>)
    requires |key| <= 64
    ensures forall i: nat :: i < |DataBlocks(key, message)| ==> BlockIs(key, message, i, DataBlocks(key, message)[i])
  {
    var blocks := DataBlocks(key, message);
    forall i: nat | i < |blocks| ensures BlockIs(key, message, i, blocks[i]) { BlocksSpelled(key, message, i); }
  }

  lemma {:induction false} BlockCount(key: seq<bv8>, message: seq<bv8>)
    requires |key| <= 64
    ensures var total, k := |message| + if key == [] then 0 else 128, |DataBlocks(key, message)| - 1;
            128 * k < total <= 128 * (k + 1) || (total == 0 && k == 0)
  {
    DataBlocksAt(key, message);
  }

  lemma {:induction false} BytesSpelled(last: Chain, n: nat)
    requires n <= 64
    ensures BytesAre(last, StoreWords(last)[..n])
  {
    forall q: nat | q < n
      ensures ByteNumber(StoreWords(last)[..n][q]) == WordNumber(last[q / 8]) / Pow256(q % 8) % 256
    {
      StoredAt(last, q);
    }
  }

  lemma StartSpelled(keyLength: nat, hashLength: nat)
    requires keyLength <= 64 && hashLength <= 64
    ensures StartIs(keyLength, hashLength, StartValue(keyLength, hashLength))
  {
    NarrowWide(keyLength);
    NarrowWide(hashLength);
  }

  lemma NarrowWide(n: nat)
    requires n < 256
    ensures (n as bv8) as bv64 == n as bv64
  {
  }

  // ----- the streaming state -----

  /** The parameter block for sequential hashing: digest length, key length, fanout, depth, and
      the rest zero. */
  function ParamBlock(hashLength: nat, keyLength: nat): (p: seq<bv8>)
    requires hashLength < 256 && keyLength < 256
    ensures |p| == 64
  {
    [hashLength as bv8, keyLength as bv8, 1, 1] + Zeros(60)
  }

  lemma ParamWord(nn: bv8, kk: bv8)
    ensures LoadWord([nn, kk, 1, 1, 0, 0, 0, 0]) == 0x01010000 ^ ((kk as bv64) << 8) ^ (nn as bv64)
  {
  }

  lemma XorShift(x: bv64, nn: bv64, kk: bv64)
    ensures x ^ (0x01010000 ^ kk ^ nn) == x ^ 0x01010000 ^ kk ^ nn
  {
  }

  /** The words of the parameter block turn IV into the starting value of the RFC. */
  lemma ParamStart(hashLength: nat, keyLength: nat, h: seq<bv64>)
    requires hashLength < 256 && keyLength < 256 && |h| == 8
    requires forall i: nat :: i < 8 ==> h[i] == IV()[i] ^ LoadWords(ParamBlock(hashLength, keyLength))[i]
    ensures h == StartValue(keyLength, hashLength)
  {
    var p := ParamBlock(hashLength, keyLength);
    var nn, kk := hashLength as bv8, keyLength as bv8;
    assert p[0..8] == [nn, kk, 1, 1, 0, 0, 0, 0];
    ParamWord(nn, kk);
    XorShift(IV()[0], nn as bv64, (kk as bv64) << 8);
    forall i: nat | 0 < i < 8 ensures h[i] == IV()[i] {
      assert p[8 * i..8 * i + 8] == [0, 0, 0, 0, 0, 0, 0, 0];
    }
  }

  class State {
    const c: Compression
    var h: Chain
    var t: (nat, nat)
    var f: (nat, nat)
    const buf: array<bv8>
    var buflen: nat
    var outlen: nat
    var lastNode: bool

    constructor (c: Compression)
      ensures this.c == c && fresh(buf) && buf.Length == BLOCKBYTES
    {
      this.c := c;
      h, t, f, buflen, outlen, lastNode := IV(), (0, 0), (0, 0), 0, 0, false;
      buf := new bv8[BLOCKBYTES];
    }

    /** Everything of `data` has gone in since the chaining value was `start`. */
    ghost predicate Absorbed(start: Chain, data: seq<bv8>)
      reads this, buf
    {
      && buf.Length == BLOCKBYTES
      && buflen == |data| - Full(|data|) * BLOCKBYTES
      && buf[..buflen] == data[Full(|data|) * BLOCKBYTES..]
      && InChain(start, data, Full(|data|) * BLOCKBYTES)
    }

    /** The first `n` bytes of `data`, whole blocks, have been compressed. */
    ghost predicate InChain(start: Chain, data: seq<bv8>, n: nat)
      reads this
    {
      && n <= |data| && n % BLOCKBYTES == 0
      && h == Absorb(c, start, data, n / BLOCKBYTES)
      && t == (n % WORD, n / WORD % WORD) && f == (0, 0) && !lastNode
    }

    method IncrementCounter(inc: nat, ghost n: nat)
      requires t == (n % WORD, n / WORD % WORD) && inc < WORD
      modifies `t
      ensures t == ((n + inc) % WORD, (n + inc) / WORD % WORD)
    {
      var low := (t.0 + inc) % WORD;
      t := (low, (t.1 + if low < inc then 1 else 0) % WORD);
      CounterStep(n, inc);
    }

    method CompressBlock(block: seq<bv8>)
      modifies `h
      ensures h == c(old(h), block, t.0, t.1, f.0, f.1)
    {
      h := c(h, block, t.0, t.1, f.0, f.1);
    }

    /** One more block goes into the chain. */
    method NextBlock(block: seq<bv8>, ghost start: Chain, ghost data: seq<bv8>, ghost n: nat)
      requires InChain(start, data, n) && n + BLOCKBYTES <= |data| && block == data[n..n + BLOCKBYTES]
      modifies `h, `t
      ensures InChain(start, data, n + BLOCKBYTES)
    {
      IncrementCounter(BLOCKBYTES, n);
      CompressBlock(block);
      assert block == Block(data, n / BLOCKBYTES);
      assert (n + BLOCKBYTES) / BLOCKBYTES == n / BLOCKBYTES + 1;
    }

    /** `n` bytes of `data` have been compressed, and the next ones, up to `m`, are in the buffer. */
    ghost predicate Holding(start: Chain, data: seq<bv8>, n: nat, m: nat)
      reads this, buf
    {
      && buf.Length == BLOCKBYTES && InChain(start, data, n)
      && n <= m <= |data| && buflen == m - n <= BLOCKBYTES && buf[..buflen] == data[n..m]
    }

    /** Fills the buffer from `data[m..]` and compresses it. */
    method FillBlock(first: seq<bv8>, ghost start: Chain, ghost data: seq<bv8>, ghost n: nat, ghost m: nat)
      requires Holding(start, data, n, m) && |first| == BLOCKBYTES - buflen
      requires m + |first| <= |data| && first == data[m..m + |first|]
      modifies `h, `t, `buflen, buf
      ensures Holding(start, data, n + BLOCKBYTES, n + BLOCKBYTES)
    {
      var left := buflen;
      buflen := 0;
      CopyIn(left, first);
      assert buf[..] == data[n..m] + first == data[n..n + BLOCKBYTES];
      NextBlock(buf[..], start, data, n);
    }

    /** Takes more input; the last non-empty block waits in the buffer. */
    method Update(input: seq<bv8>, ghost start: Chain, ghost data: seq<bv8>)
      requires Absorbed(start, data)
      modifies `h, `t, `buflen, buf
      ensures Absorbed(start, data + input)
    {
      if |input| == 0 {
        assert data + input == data;
        return;
      }
      ghost var all := data + input;
      ghost var n, m := MoreToCome(start, data, input);
      var pos := 0;
      var fill := BLOCKBYTES - buflen;
      if |input| > fill {
        pos := UpdateBlocks(input, start, data, n);
        n, m := |data| + pos, |data| + pos;
      }
      Piece(data, input, pos, |input| - pos);
      KeepRest(input[pos..], start, all, n, m);
    }

    /** Compresses the buffer and then whole blocks, as long as more input is left. */
    method UpdateBlocks(input: seq<bv8>, ghost start: Chain, ghost data: seq<bv8>, ghost n0: nat) returns (pos: nat)
      requires Holding(start, data + input, n0, |data|) && |input| > BLOCKBYTES - buflen
      modifies `h, `t, `buflen, buf
      ensures pos < |input| <= pos + BLOCKBYTES
      ensures Holding(start, data + input, |data| + pos, |data| + pos)
    {
      ghost var all := data + input;
      var fill := BLOCKBYTES - buflen;
      FirstPiece(data, input, fill);
      FillBlock(input[..fill], start, all, n0, |data|);
      pos := fill;
      var inlen := |input| - fill;
      while inlen > BLOCKBYTES
        invariant pos + inlen == |input| && inlen > 0
        invariant Holding(start, all, |data| + pos, |data| + pos)
        modifies `h, `t
        decreases inlen
      {
        WholeBlock(input, pos, start, data);
        pos, inlen := pos + BLOCKBYTES, inlen - BLOCKBYTES;
      }
    }

    /** Compresses a block straight from the input. */
    method WholeBlock(input: seq<bv8>, pos: nat, ghost start: Chain, ghost data: seq<bv8>)
      requires pos + BLOCKBYTES <= |input| && Holding(start, data + input, |data| + pos, |data| + pos)
      modifies `h, `t
      ensures Holding(start, data + input, |data| + pos + BLOCKBYTES, |data| + pos + BLOCKBYTES)
    {
      Piece(data, input, pos, BLOCKBYTES);
      NextBlock(input[pos..pos + BLOCKBYTES], start, data + input, |data| + pos);
    }

    lemma MoreToCome(start: Chain, data: seq<bv8>, input: seq<bv8>) returns (n: nat, m: nat)
      requires Absorbed(start, data)
      ensures Holding(start, data + input, n, m) && m == |data|
    {
      n, m := Full(|data|) * BLOCKBYTES, |data|;
      AbsorbMore(c, start, data, input, n / BLOCKBYTES);
      assert (data + input)[n..m] == data[n..];
    }

    /** Keeps the rest of the input, not more than a block with what is there. */
    method KeepRest(rest: seq<bv8>, ghost start: Chain, ghost all: seq<bv8>, ghost n: nat, ghost m: nat)
      requires Holding(start, all, n, m) && m + |rest| == |all| && all[m..m + |rest|] == rest &&
               0 < |rest| <= BLOCKBYTES - buflen
      modifies `buflen, buf
      ensures Absorbed(start, all)
    {
      CopyIn(buflen, rest);
      buflen := buflen + |rest|;
      assert n == Full(|all|) * BLOCKBYTES;
      assert buf[..buflen] == all[n..m] + rest == all[n..];
    }

    /** Puts `s` into the buffer from `at` on. */
    method CopyIn(at: nat, s: seq<bv8>)
      requires at + |s| <= buf.Length
      modifies buf
      ensures buf[..] == old(buf[..at]) + s + old(buf[at + |s|..])
    {
      for i := 0 to |s|
        invariant forall k: nat :: k < buf.Length ==> buf[k] == if at <= k < at + i then s[k - at] else old(buf[k])
      {
        buf[at + i] := s[i];
      }
    }

    // ----- setting up -----

    method InitParam(hashLength: nat, keyLength: nat)
      requires hashLength < 256 && keyLength < 256 && buf.Length == BLOCKBYTES
      modifies this, buf
      ensures Absorbed(StartValue(keyLength, hashLength), []) && outlen == hashLength
    {
      h, t, f, buflen, lastNode := IV(), (0, 0), (0, 0), 0, false;
      XorParam(LoadWords(ParamBlock(hashLength, keyLength)));
      outlen := hashLength;
      ParamStart(hashLength, keyLength, h);
    }

    method XorParam(words: seq<bv64>)
      requires |words| == 8
      modifies `h
      ensures forall i: nat :: i < 8 ==> h[i] == old(h)[i] ^ words[i]
    {
      for i := 0 to 8
        invariant forall k: nat :: k < 8 ==> h[k] == if k < i then old(h)[k] ^ words[k] else old(h)[k]
      {
        h := h[i := h[i] ^ words[i]];
      }
    }

    /** Starts hashing without a key; -1 if the length of the hash is not acceptable. */
    method Init(hashLength: nat) returns (r: int)
      requires buf.Length == BLOCKBYTES
      modifies this, buf
      ensures r == if 0 < hashLength <= OUTBYTES then 0 else -1
      ensures r == 0 ==> Absorbed(StartValue(0, hashLength), Keyed([], [])) && outlen == hashLength
      ensures r == -1 ==> unchanged(this) && unchanged(buf)
    {
      if hashLength == 0 || hashLength > OUTBYTES { return -1; }
      InitParam(hashLength, 0);
      assert Keyed([], []) == [];
      return 0;
    }

    /** Starts hashing under a key, which goes in as a block of its own. */
    method InitKey(hashLength: nat, key: seq<bv8>) returns (r: int)
      requires buf.Length == BLOCKBYTES
      modifies this, buf
      ensures r == if 0 < hashLength <= OUTBYTES && 0 < |key| <= KEYBYTES then 0 else -1
      ensures r == 0 ==> Absorbed(StartValue(|key|, hashLength), Keyed(key, [])) && outlen == hashLength
      ensures r == -1 ==> unchanged(this) && unchanged(buf)
    {
      if hashLength == 0 || hashLength > OUTBYTES { return -1; }
      if |key| == 0 || |key| > KEYBYTES { return -1; }
      InitParam(hashLength, |key|);
      Update(Pad(key), StartValue(|key|, hashLength), []);
      assert Keyed(key, []) == [] + Pad(key);
      return 0;
    }

    // ----- the end -----

    /** Writes the hash of all that was absorbed to the front of `out`; -1 if `out` is too short or
        this was done before. */
    method Final(out: array<bv8>, ghost key: seq<bv8>, ghost message: seq<bv8>) returns (r: int)
      requires |key| <= KEYBYTES && outlen <= OUTBYTES && out != buf && buf.Length == BLOCKBYTES
      requires f.0 == 0 ==> Absorbed(StartValue(|key|, outlen), Keyed(key, message))
      modifies this, buf, out
      ensures outlen == old(outlen)
      ensures r == if old(outlen) <= out.Length && old(f.0) == 0 then 0 else -1
      ensures r == -1 ==> unchanged(this) && unchanged(buf) && unchanged(out)
      ensures r == 0 ==> f.0 != 0 && out[..] == Digest(c, outlen, key, message) + old(out[outlen..])
      ensures r == 0 ==> forall n: nat :: n < outlen ==>
                ByteNumber(out[n]) == WordNumber(h[n / 8]) / Pow256(n % 8) % 256
    {
      if out.Length < outlen { return -1; }
      if f.0 != 0 { return -1; }
      FinishChain(StartValue(|key|, outlen), Keyed(key, message));
      DigestAbsorb(c, outlen, key, message);
      CopyOut(out, StoreWords(h), outlen);
      forall n: nat | n < outlen ensures ByteNumber(out[n]) == WordNumber(h[n / 8]) / Pow256(n % 8) % 256 {
        assert out[n] == out[..][n];
        StoredAt(h, n);
      }
      return 0;
    }

    /** Compresses the waiting block as the last one. */
    method FinishChain(ghost start: Chain, ghost data: seq<bv8>)
      requires Absorbed(start, data)
      modifies `h, `t, `f, buf
      ensures h == Compress(c, Absorb(c, start, data, Full(|data|)), Pad(data[Full(|data|) * BLOCKBYTES..]),
                            |data|, true)
      ensures f.0 != 0
    {
      ghost var n := Full(|data|) * BLOCKBYTES;
      IncrementCounter(buflen, n);
      f := (ALL_ONES, if lastNode then ALL_ONES else f.1);
      PadBuffer(data[n..]);
      CompressBlock(buf[..]);
    }

    static method CopyOut(out: array<bv8>, buffer: seq<bv8>, n: nat)
      requires n <= |buffer| && n <= out.Length
      modifies out
      ensures out[..] == buffer[..n] + old(out[n..])
    {
      for i := 0 to n
        invariant forall k: nat :: k < out.Length ==> out[k] == if k < i then buffer[k] else old(out[k])
      {
        out[i] := buffer[i];
      }
    }

    /** Zeros behind what is in the buffer. */
    method PadBuffer(ghost rest: seq<bv8>)
      requires buf.Length == BLOCKBYTES && buflen == |rest| <= BLOCKBYTES && buf[..buflen] == rest
      modifies buf
      ensures buf[..] == Pad(rest)
    {
      CopyIn(buflen, Zeros(BLOCKBYTES - buflen));
    }
  }

  /** The one-shot interface: -1 if a length is not acceptable. */
  method Blake2b(c: Compression, out: array<bv8>, input: seq<bv8>, key: seq<bv8>) returns (r: int)
    modifies out
    ensures r == if 0 < out.Length <= OUTBYTES && |key| <= KEYBYTES then 0 else -1
    ensures r == 0 ==> out[..] == Digest(c, out.Length, key, input)
    ensures r == -1 ==> unchanged(out)
  {
    var outlen := out.Length;
    if outlen == 0 || outlen > OUTBYTES { return -1; }
    if |key| > KEYBYTES { return -1; }
    var state := Start(c, outlen, key);
    state.Update(input, StartValue(|key|, outlen), Keyed(key, []));
    assert Keyed(key, []) + input == Keyed(key, input);
    var done := state.Final(out, key, input);
    assert out[..] == Digest(c, outlen, key, input);
    return 0;
  }

  /** A state ready for input, with or without a key. */
  method Start(c: Compression, outlen: nat, key: seq<bv8>) returns (state: State)
    requires 0 < outlen <= OUTBYTES && |key| <= KEYBYTES
    ensures fresh(state) && fresh(state.buf) && state.c == c && state.outlen == outlen
    ensures state.Absorbed(StartValue(|key|, outlen), Keyed(key, []))
  {
    state := new State(c);
    if |key| > 0 {
      var r := state.InitKey(outlen, key);
    } else {
      var r := state.Init(outlen);
      assert key == [];
    }
  }

  function Concat(pieces: seq<seq<bv8>>): seq<bv8> {
    if pieces == [] then [] else Concat(pieces[..|pieces| - 1]) + pieces[|pieces| - 1]
  }

  lemma ConcatStep(pieces: seq<seq<bv8>>, i: nat, key: seq<bv8>)
    requires i < |pieces| && |key| <= KEYBYTES
    ensures Keyed(key, Concat(pieces[..i])) + pieces[i] == Keyed(key, Concat(pieces[..i + 1]))
  {
    assert pieces[..i + 1][..i] == pieces[..i];
  }

  /** However a message is cut into pieces, empty ones too, the hash is that of the whole. */
  method HashInPieces(c: Compression, out: array<bv8>, pieces: seq<seq<bv8>>, key: seq<bv8>)
    requires 0 < out.Length <= OUTBYTES && |key| <= KEYBYTES
    modifies out
    ensures out[..] == Digest(c, out.Length, key, Concat(pieces))
  {
    var state := Start(c, out.Length, key);
    ghost var start := StartValue(|key|, out.Length);
    for i := 0 to |pieces|
      invariant fresh(state) && fresh(state.buf) && state.c == c && state.outlen == out.Length
      invariant state.Absorbed(start, Keyed(key, Concat(pieces[..i])))
      modifies state, state.buf
    {
      ConcatStep(pieces, i, key);
      state.Update(pieces[i], start, Keyed(key, Concat(pieces[..i])));
    }
    assert pieces[..|pieces|] == pieces;
    var done := state.Final(out, key, Concat(pieces));
  }

  lemma Piece(data: seq<bv8>, input: seq<bv8>, pos: nat, n: nat)
    requires pos + n <= |input|
    ensures (data + input)[|data| + pos..|data| + pos + n] == input[pos..pos + n]
  {
  }

  lemma FirstPiece(data: seq<bv8>, input: seq<bv8>, n: nat)
    requires n <= |input|
    ensures (data + input)[|data|..|data| + n] == input[..n]
  {
  }

  lemma CounterStep(n: nat, inc: nat)
    requires inc < WORD
    ensures (n + inc) % WORD == (n % WORD + inc) % WORD
    ensures (n + inc) / WORD % WORD == (n / WORD % WORD + if (n + inc) % WORD < inc then 1 else 0) % WORD
  {
    var high, low := n / WORD, n % WORD;
    assert n == high * WORD + low;
    if low + inc < WORD {
      DivMod(n + inc, high, low + inc);
    } else {
      DivMod(n + inc, high + 1, low + inc - WORD);
      DivMod(low + inc, 1, low + inc - WORD);
    }
  }

  lemma DivMod(n: nat, q: nat, r: nat)
    requires n == q * WORD + r && r < WORD
    ensures n / WORD == q && n % WORD == r
  {
  }
}
