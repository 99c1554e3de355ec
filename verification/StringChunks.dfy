/** Names as they are written: seven characters to an integer cell, with a mark on all but the last. */
module StringChunks {
  import opened ByteTables
  import opened Options

  type Byte = x: int | 0 <= x < 256

  type Text = seq<Byte>

  const CHUNK: nat := 7

  predicate ValidChar(ch: Byte) {
    1 <= ch <= 127
  }

  /** A text that can be read back. */
  predicate Readable(s: Text) {
    s != [] && AllValid(s)
  }

  predicate AllValid(s: Text) {
    forall k: nat :: k < |s| ==> ValidChar(s[k])
  }

  /** The first `n` characters, missing ones as zeros, as one number. */
  function Number(s: Text, n: nat): nat {
    if n == 0 then 0 else 256 * Number(s, n - 1) + if n - 1 < |s| then s[n - 1] else 0
  }

  /** The value of the cell for at most seven characters. */
  function Chunk(s: Text, more: bool): int {
    32 * Number(s, CHUNK) + if more then 1 else 0
  }

  /** The `k`-th character of a cell's value: shifts round down, also for negative values. */
  function CharAt(v: int, k: nat): Byte
    requires k < CHUNK
  {
    v / 32 / Pow256(CHUNK - 1 - k) % 256
  }

  lemma {:induction false} NumberSplit(s: Text, n: nat, m: nat)
    requires m <= n
    ensures Number(s, n) / Pow256(n - m) == Number(s, m)
    decreases n - m
  {
    if m < n {
      NumberSplit(s, n, m + 1);
      var x, p := Number(s, n), Pow256(n - m - 1);
      assert x / (256 * p) == x / p / 256 by { DivDiv(x, p); }
    }
  }

  lemma DivDiv(x: nat, p: nat)
    requires p > 0
    ensures x / (256 * p) == x / p / 256
  {
    var q, r := x / p, x % p;
    var d, e := q / 256, q % 256;
    assert x == p * q + r && q == 256 * d + e;
    assert p * q == 256 * p * d + p * e by { Distribute(p, d, e); }
    assert p * e + r < 256 * p by { Times(p, e, r); }
    Quotient(x, 256 * p, d, p * e + r);
  }

  lemma Distribute(p: nat, d: nat, e: nat)
    ensures p * (256 * d + e) == 256 * p * d + p * e
  {
  }

  lemma Times(p: nat, e: nat, r: nat)
    requires e < 256 && r < p
    ensures p * e + r < 256 * p
  {
    assert p * e <= p * 255;
  }

  lemma Quotient(x: nat, p: nat, d: nat, r: nat)
    requires p > 0 && x == p * d + r && r < p
    ensures x / p == d
  {
    Bigger(p, d, x / p);
    Bigger(p, x / p, d);
    assert x == p * (x / p) + x % p;
  }

  lemma Bigger(p: nat, d: nat, e: nat)
    ensures d < e ==> p * e >= p * d + p
  {
    if d < e { assert p * e - p * d - p == p * (e - d - 1) >= 0; }
  }

  /** A cell has the characters it was made of, and zeros behind them. */
  lemma ChunkChars(s: Text, more: bool, k: nat)
    requires |s| <= CHUNK && k < CHUNK
    ensures CharAt(Chunk(s, more), k) == if k < |s| then s[k] else 0
  {
    assert Chunk(s, more) / 32 == Number(s, CHUNK);
    NumberSplit(s, CHUNK, k + 1);
  }

  // ----- encoding -----

  /** The value for the characters of `str` from `from` to before `to`, at most seven. */
  method EncodeStr(str: Text, from: nat, to: nat, hasMore: bool) returns (v: int)
    requires from <= |str| && from <= to <= from + CHUNK
    ensures v == Chunk(str[from..if to < |str| then to else |str|], hasMore)
  {
    var end := if to > |str| then |str| else to;
    ghost var s := str[from..end];
    v := 0;
    for i := from to end
      invariant v == Placed(CHUNK - (i - from), Number(s, i - from))
    {
      // The bits are apart from those set before, so setting them is adding.
      assert s[i - from] == str[i];
      EncodeStep(CHUNK - (i - from) - 1, Number(s, i - from), str[i]);
      v := v + Placed(CHUNK - 1 - (i - from), str[i]);
    }
    NumberPadded(s, |s|);
    if hasMore {
      v := v + 1;
    }
  }

  /** `x` shifted to the place before the last `n` characters. */
  function Placed(n: nat, x: nat): nat {
    32 * (Pow256(n) * x)
  }

  lemma EncodeStep(n: nat, x: nat, ch: nat)
    ensures Placed(n + 1, x) + Placed(n, ch) == Placed(n, 256 * x + ch)
  {
    var p := Pow256(n);
    assert 256 * p * x + p * ch == p * (256 * x + ch) by { Regroup(p, x, ch); }
  }

  lemma Regroup(p: nat, x: nat, ch: nat)
    ensures 256 * p * x + p * ch == p * (256 * x + ch)
  {
  }

  lemma {:induction false} NumberPadded(s: Text, n: nat)
    requires |s| <= n <= CHUNK
    ensures 32 * Number(s, CHUNK) == Placed(CHUNK - n, Number(s, n))
    decreases CHUNK - n
  {
    if n < CHUNK {
      NumberPadded(s, n + 1);
      EncodeStep(CHUNK - n - 1, Number(s, n), 0);
    }
  }

  /** The cells for a text. */
  function Encoded(s: Text): (vs: seq<int>) {
    if s == [] then [] else if |s| <= CHUNK then [Chunk(s, false)] else [Chunk(s[..CHUNK], true)] + Encoded(s[CHUNK..])
  }

  // ----- decoding -----

  function LowFive(v: int): nat {
    v % 32
  }

  /** The seven characters of a cell's value, zeros among them. */
  function AllChars(v: int): (t: Text)
    ensures |t| == CHUNK && forall k: nat :: k < CHUNK ==> t[k] == CharAt(v, k)
  {
    seq(CHUNK, k requires 0 <= k < CHUNK => CharAt(v, k))
  }

  /** How many characters there are before the first zero, from the `k`-th on. */
  function CharCount(t: Text, k: nat): (n: nat)
    requires k <= |t|
    ensures k <= n <= |t|
    ensures forall j: nat :: k <= j < n ==> t[j] != 0
    ensures n < |t| ==> t[n] == 0
    decreases |t| - k
  {
    if k == |t| || t[k] == 0 then k else CharCount(t, k + 1)
  }

  /** What comes before the first zero. */
  function BeforeZero(t: Text): (s: Text)
    ensures |s| <= |t|
  {
    t[..CharCount(t, 0)]
  }

  /** What a cell means as characters. */
  function Meaning(v: int): Text {
    BeforeZero(AllChars(v))
  }

  predicate IsChunk(v: int) {
    LowFive(v) <= 1 && AllValid(Meaning(v))
  }

  /** Byte `k` of the seven above the low five bits, counted from the highest. */
  function ByteOf(v: int, k: nat): nat
    requires k < 7
  {
    v / 32 / Pow256(6 - k) % 256
  }

  /** `n` characters and then, unless all seven bytes are taken, a zero. */
  predicate Characters(v: int, n: nat) {
    && n <= 7
    && (forall k: nat :: k < n ==> 1 <= ByteOf(v, k) <= 127)
    && (n < 7 ==> ByteOf(v, n) == 0)
  }

  /** Characters in a row are what the cell means. */
  lemma {:induction false} MeaningExactly(v: int, n: nat)
    requires Characters(v, n)
    ensures |Meaning(v)| == n
    ensures forall k: nat :: k < n ==> Meaning(v)[k] == ByteOf(v, k)
  {
    BytesAreChars(v);
    assert CharCount(AllChars(v), 0) == n;
  }

  lemma BytesAreChars(v: int)
    ensures forall k: nat :: k < 7 ==> AllChars(v)[k] == ByteOf(v, k)
  {
    forall k: nat | k < 7 ensures AllChars(v)[k] == ByteOf(v, k) {
      assert CharAt(v, k) == ByteOf(v, k);
    }
  }

  /** An integer stands for characters exactly if its low five bits are 0 or 1 and the bytes above them, from the
      highest on, are 1 to 127 up to the first that is 0. */
  lemma {:induction false} ChunkExactly(v: int)
    ensures IsChunk(v) <==> v % 32 < 2 && exists n: nat :: Characters(v, n)
  {
    if IsChunk(v) {
      BytesAreChars(v);
      var n := |Meaning(v)|;
      forall k: nat | k < n ensures 1 <= ByteOf(v, k) <= 127 {
        assert ValidChar(Meaning(v)[k]);
      }
      assert Characters(v, n);
    }
    if n: nat :| Characters(v, n) {
      MeaningExactly(v, n);
    }
  }

  method IsCharChunk(v: int) returns (r: bool)
    ensures r == IsChunk(v)
  {
    if LowFive(v) != 0 && LowFive(v) != 1 {
      return false;
    }
    ghost var t := AllChars(v);
    for i := 0 to CHUNK
      invariant CharCount(t, 0) == CharCount(t, i)
      invariant forall k: nat :: k < i ==> ValidChar(t[k])
    {
      var ch := CharAt(v, i);
      if ch == 0 {
        return true;
      }
      if !ValidChar(ch) {
        assert CharCount(t, i) >= i + 1 && Meaning(v)[i] == t[i];
        return false;
      }
    }
    r := true;
  }

  method AsCharChunk(v: int) returns (s: Text)
    ensures s == Meaning(v)
  {
    s := [];
    ghost var t := AllChars(v);
    for i := 0 to CHUNK
      invariant CharCount(t, 0) == CharCount(t, i) && s == t[..i]
    {
      var ch := CharAt(v, i);
      if ch == 0 {
        return;
      }
      assert t[..i + 1] == t[..i] + [t[i]];
      s := s + [ch];
    }
  }

  /** A text read from the cells at `at` on, and where it ends; nothing if a cell is missing or is no chunk. */
  function ReadText(vs: seq<Option<int>>, at: nat): (r: Option<(Text, nat)>)
    requires at <= |vs|
    ensures r.Some? ==> at < r.value.1 <= |vs|
    decreases |vs| - at
  {
    if at == |vs| || vs[at] == None || !IsChunk(vs[at].value) then None
    else if LowFive(vs[at].value) == 0 then Some((Meaning(vs[at].value), at + 1))
    else match ReadText(vs, at + 1)
      case None => None
      case Some(r) => Some((Meaning(vs[at].value) + r.0, r.1))
  }

  lemma {:induction false} CountToZero(s: Text, t: Text, k: nat)
    requires k <= |s| <= |t| && s == t[..|s|] && (|s| < |t| ==> t[|s|] == 0)
    ensures CharCount(t, k) <= |s|
    ensures AllValid(s) ==> CharCount(t, k) == |s|
    decreases |s| - k
  {
    if k < |s| && t[k] != 0 {
      CountToZero(s, t, k + 1);
    } else if k < |s| {
      assert s[k] == 0;
    }
  }

  /** Reading up to the first zero gives the characters if they are valid, else fewer or some that are not. */
  lemma PaddedMeaning(s: Text, t: Text)
    requires |s| <= |t| && s == t[..|s|] && (|s| < |t| ==> t[|s|] == 0)
    ensures |BeforeZero(t)| <= |s|
    ensures AllValid(s) ==> BeforeZero(t) == s
    ensures !AllValid(s) && AllValid(BeforeZero(t)) ==> |BeforeZero(t)| < |s|
  {
    CountToZero(s, t, 0);
    if |BeforeZero(t)| == |s| { assert BeforeZero(t) == s; }
  }

  lemma ChunkPadded(s: Text, more: bool)
    requires |s| <= CHUNK
    ensures var t := AllChars(Chunk(s, more)); s == t[..|s|] && (|s| < |t| ==> t[|s|] == 0)
    ensures LowFive(Chunk(s, more)) == if more then 1 else 0
  {
    forall k: nat | k < CHUNK ensures CharAt(Chunk(s, more), k) ==
      if k < |s| then s[k] else 0 { ChunkChars(s, more, k); }
  }

  lemma ChunkMeaning(s: Text, more: bool)
    requires s != [] && |s| <= CHUNK
    ensures LowFive(Chunk(s, more)) == if more then 1 else 0
    ensures |Meaning(Chunk(s, more))| <= |s|
    ensures Readable(s) ==> IsChunk(Chunk(s, more)) && Meaning(Chunk(s, more)) == s
    ensures !Readable(s) && IsChunk(Chunk(s, more)) ==> |Meaning(Chunk(s, more))| < |s|
  {
    ChunkPadded(s, more);
    PaddedMeaning(s, AllChars(Chunk(s, more)));
  }

  ghost predicate HasAt(vs: seq<Option<int>>, at: nat, cells: seq<int>) {
    at + |cells| <= |vs| && forall k: nat :: k < |cells| ==> vs[at + k] == Some(cells[k])
  }

  lemma ReadableParts(s: Text, a: Text, b: Text)
    requires s == a + b && a != [] && b != []
    ensures Readable(s) <==> Readable(a) && Readable(b)
  {
    if AllValid(s) {
      forall k: nat | k < |a| ensures ValidChar(a[k]) { assert a[k] == s[k]; }
      forall k: nat | k < |b| ensures ValidChar(b[k]) { assert b[k] == s[|a| + k]; }
    }
  }

  /** A text is read back exactly, and nothing after it, if and only if it is not empty and all its
      characters are from 1 to 127; otherwise reading fails or gives a shorter text. */
  lemma {:induction false} ReadBack(s: Text, vs: seq<Option<int>>, at: nat)
    requires s != [] && HasAt(vs, at, Encoded(s))
    ensures Readable(s) ==> ReadText(vs, at) == Some((s, at + |Encoded(s)|))
    ensures !Readable(s) ==> ReadText(vs, at) == None || |ReadText(vs, at).value.0| < |s|
    decreases |s|
  {
    var e := Encoded(s);
    assert vs[at + 0] == Some(e[0]);
    if |s| <= CHUNK {
      ChunkMeaning(s, false);
    } else {
      var a, b := s[..CHUNK], s[CHUNK..];
      ChunkMeaning(a, true);
      forall k: nat | k < |Encoded(b)| ensures vs[at + 1 + k] == Some(Encoded(b)[k]) {
        assert vs[at + (k + 1)] == Some(e[k + 1]);
      }
      ReadBack(b, vs, at + 1);
      ReadableParts(s, a, b);
    }
  }

  /** Two names that are written and not read back: a byte above 127 is refused, and a zero ends the
      name before its time. */
  lemma {:induction false} NotReadBack()
    ensures |Encoded([200])| == 1 && ReadText([Some(Encoded([200])[0])], 0) == None
    ensures |Encoded([97, 0, 98])| == 1 && ReadText([Some(Encoded([97, 0, 98])[0])], 0) == Some(([97], 1))
  {
    OneChunk([200], 200);
    OneChunk([97, 0, 98], 97);
    ZeroEnds([97, 0, 98]);
  }

  /** Eight letters take two cells: seven from bit 53 down and the mark that more follows, and one with zeros
      behind it and no mark. */
  lemma {:induction false} EightLetters()
    ensures Encoded([97, 98, 99, 100, 101, 102, 103, 104]) == [0xc2c4c6c8caccce1, 0xd00000000000000]
  {
    var s: Text := [97, 98, 99, 100, 101, 102, 103, 104];
    assert s[..CHUNK] == [97, 98, 99, 100, 101, 102, 103] && s[CHUNK..] == [104];
    SevenLetters();
    OneLetter();
  }

  lemma {:induction false} SevenLetters()
    ensures Chunk([97, 98, 99, 100, 101, 102, 103], true) == 0xc2c4c6c8caccce1
  {
    SevenNumber([97, 98, 99, 100, 101, 102, 103]);
  }

  lemma {:induction false} OneLetter()
    ensures Encoded([104]) == [0xd00000000000000]
  {
    SevenNumber([104]);
    assert Encoded([104]) == [Chunk([104], false)];
  }

  lemma {:induction false} SevenNumber(s: Text)
    requires 0 < |s| <= 7
    ensures var c: nat -> int := k => if 0 <= k < |s| then s[k] as int else 0;
            Number(s, 7) == c(6) + 0x100 * c(5) + 0x1_0000 * c(4) + 0x100_0000 * c(3) + 0x1_0000_0000 * c(2)
                            + 0x100_0000_0000 * c(1) + 0x1_0000_0000_0000 * c(0)
  {
    assert Number(s, 2) == 256 * Number(s, 1) + if 1 < |s| then s[1] else 0;
    assert Number(s, 4) == 256 * Number(s, 3) + if 3 < |s| then s[3] else 0;
    assert Number(s, 6) == 256 * Number(s, 5) + if 5 < |s| then s[5] else 0;
  }

  /** The least and the greatest character that are read back, and the next one, which is not. */
  lemma {:induction false} CharacterBounds()
    ensures |Encoded([1, 127])| == 1 && ReadText([Some(Encoded([1, 127])[0])], 0) == Some(([1, 127], 1))
    ensures |Encoded([128])| == 1 && ReadText([Some(Encoded([128])[0])], 0) == None
  {
    OneChunk([1, 127], 1);
    OneChunk([128], 128);
    ReadBack([1, 127], [Some(Encoded([1, 127])[0])], 0);
  }

  /** A name of one cell begins with its first character. */
  lemma {:induction false} OneChunk(s: Text, first: Byte)
    requires 0 < |s| <= CHUNK && s[0] == first != 0
    ensures Encoded(s) == [Chunk(s, false)] && LowFive(Chunk(s, false)) == 0
    ensures Meaning(Chunk(s, false)) != [] && Meaning(Chunk(s, false))[0] == first
  {
    ChunkPadded(s, false);
    var t := AllChars(Chunk(s, false));
    assert t[0] == t[..|s|][0];
  }

  lemma {:induction false} ZeroEnds(s: Text)
    requires 1 < |s| <= CHUNK && s[0] != 0 && s[1] == 0
    ensures Meaning(Chunk(s, false)) == [s[0]]
  {
    ChunkPadded(s, false);
    var t := AllChars(Chunk(s, false));
    assert t[0] == t[..|s|][0] && t[1] == t[..|s|][1];
    assert CharCount(t, 0) == CharCount(t, 1) == 1;
  }
}
