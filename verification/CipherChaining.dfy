/** Cipher block chaining, section 6.2 of NIST SP 800-38A, over any block cipher. */
module CipherChaining {

  /** A block cipher with its inverse, and a way of adding blocks that undoes itself. */
  ghost predicate Sound<B(!new)>(enc: B -> B, dec: B -> B, add: (B, B) -> B) {
    && (forall x: B :: dec(enc(x)) == x)
    && (forall x: B, y: B :: add(add(x, y), y) == x)
  }

  /** The initial vector for what follows: the last block, if there is one. */
  function NextIv<B>(iv: B, c: seq<B>): B {
    if c == [] then iv else c[|c| - 1]
  }

  function Encrypted<B>(enc: B -> B, add: (B, B) -> B, iv: B, p: seq<B>): (c: seq<B>)
    ensures |c| == |p|
  {
    if p == [] then [] else
      var n := |p| - 1;
      var c := Encrypted(enc, add, iv, p[..n]);
      c + [enc(add(p[n], NextIv(iv, c)))]
  }

  function Decrypted<B>(dec: B -> B, add: (B, B) -> B, iv: B, c: seq<B>): (p: seq<B>)
    ensures |p| == |c|
  {
    if c == [] then [] else
      var n := |c| - 1;
      Decrypted(dec, add, iv, c[..n]) + [add(dec(c[n]), NextIv(iv, c[..n]))]
  }

  /** Decrypting from the same initial vector undoes encrypting. */
  lemma {:induction false} RoundTrip<B(!new)>(enc: B -> B, dec: B -> B, add: (B, B) -> B, iv: B, p: seq<B>)
    requires Sound(enc, dec, add)
    ensures Decrypted(dec, add, iv, Encrypted(enc, add, iv, p)) == p
  {
    if p != [] {
      var n := |p| - 1;
      RoundTrip(enc, dec, add, iv, p[..n]);
      assert Encrypted(enc, add, iv, p)[..n] == Encrypted(enc, add, iv, p[..n]);
    }
  }

  /** A text may be encrypted in parts, each from where the one before ended. */
  lemma {:induction false} EncryptedInParts<B>(enc: B -> B, add: (B, B) -> B, iv: B, p: seq<B>, q: seq<B>)
    ensures var c := Encrypted(enc, add, iv, p);
            var d := Encrypted(enc, add, NextIv(iv, c), q);
            Encrypted(enc, add, iv, p + q) == c + d && NextIv(iv, c + d) == NextIv(NextIv(iv, c), d)
  {
    if q == [] {
      assert p + q == p;
    } else {
      var n := |q| - 1;
      EncryptedInParts(enc, add, iv, p, q[..n]);
      assert (p + q)[..|p| + n] == p + q[..n] && (p + q)[|p| + n] == q[n];
      var c := Encrypted(enc, add, iv, p);
      var d := Encrypted(enc, add, NextIv(iv, c), q[..n]);
      var x := enc(add(q[n], NextIv(NextIv(iv, c), d)));
      assert Encrypted(enc, add, iv, p + q) == (c + d) + [x];
      assert (c + d) + [x] == c + (d + [x]);
    }
  }

  /** And decrypted. */
  lemma {:induction false} DecryptedInParts<B>(dec: B -> B, add: (B, B) -> B, iv: B, c: seq<B>, d: seq<B>)
    ensures Decrypted(dec, add, iv, c + d) == Decrypted(dec, add, iv, c) + Decrypted(dec, add, NextIv(iv, c), d)
    ensures NextIv(iv, c + d) == NextIv(NextIv(iv, c), d)
  {
    if d == [] {
      assert c + d == c;
    } else {
      var n := |d| - 1;
      DecryptedInParts(dec, add, iv, c, d[..n]);
      assert (c + d)[..|c| + n] == c + d[..n];
    }
  }

  // ----- texts as blocks -----

  const SIZE: nat := 16

  function Blocks<T>(s: seq<T>): (b: seq<seq<T>>)
    requires |s| % SIZE == 0
    ensures |b| == |s| / SIZE
  {
    if s == [] then [] else
      var n := |s| - SIZE;
      Blocks(s[..n]) + [s[n..]]
  }

  lemma {:induction false} BlocksInjective<T>(s: seq<T>, t: seq<T>)
    requires |s| % SIZE == 0 && |t| % SIZE == 0 && Blocks(s) == Blocks(t)
    ensures s == t
  {
    if s == [] {
    } else {
      var n := |s| - SIZE;
      assert |t| == |s|;
      assert Blocks(s)[..|Blocks(s)| - 1] == Blocks(s[..n]) && Blocks(t)[..|Blocks(t)| - 1] == Blocks(t[..n]);
      assert Blocks(s)[|Blocks(s)| - 1] == s[n..] && Blocks(t)[|Blocks(t)| - 1] == t[n..];
      BlocksInjective(s[..n], t[..n]);
      assert s == s[..n] + s[n..] && t == t[..n] + t[n..];
    }
  }

  lemma {:induction false} BlocksOfSum<T>(s: seq<T>, t: seq<T>)
    requires |s| % SIZE == 0 && |t| % SIZE == 0
    ensures |s + t| % SIZE == 0 && Blocks(s + t) == Blocks(s) + Blocks(t)
    decreases |t|
  {
    if t == [] {
      assert s + t == s;
    } else {
      var n := |t| - SIZE;
      assert (s + t)[..|s| + n] == s + t[..n] && (s + t)[|s| + n..] == t[n..];
      BlocksOfSum(s, t[..n]);
    }
  }

  lemma BlocksMore<T>(s: seq<T>, i: nat, next: nat)
    requires next == i + SIZE <= |s| && i % SIZE == 0
    ensures next % SIZE == 0 && Blocks(s[..next]) == Blocks(s[..i]) + [s[i..next]]
  {
    var t := s[..next];
    assert t[..i] == s[..i] && t[i..] == s[i..next];
  }

  // ----- block by block, in place -----

  /** The first `i` of `p` have been encrypted to those of `s`, and `v` is the vector for the next. */
  ghost predicate EncryptedTo<T>(enc: seq<T> -> seq<T>, add: (seq<T>, seq<T>) -> seq<T>, iv: seq<T>,
                                 p: seq<T>, s: seq<T>, v: seq<T>, i: nat) {
    && |s| == |p| && i <= |p| && i % SIZE == 0 && s[i..] == p[i..]
    && Blocks(s[..i]) == Encrypted(enc, add, iv, Blocks(p[..i]))
    && v == NextIv(iv, Blocks(s[..i]))
  }

  lemma EncryptedStep<T>(enc: seq<T> -> seq<T>, add: (seq<T>, seq<T>) -> seq<T>, iv: seq<T>,
                         p: seq<T>, s: seq<T>, v: seq<T>, i: nat, s': seq<T>, y: seq<T>, next: nat)
    requires EncryptedTo(enc, add, iv, p, s, v, i) && next == i + SIZE <= |p|
    requires y == enc(add(s[i..next], v)) && |y| == SIZE && s' == s[..i] + y + s[next..]
    ensures EncryptedTo(enc, add, iv, p, s', y, next) && s'[i..next] == y
  {
    BlocksMore(s', i, next);
    BlocksMore(p, i, next);
    assert s'[..i] == s[..i] && s'[i..next] == y && s[i..next] == p[i..next];
    var pb, x := Blocks(p[..i]), p[i..next];
    assert (pb + [x])[..|pb|] == pb;
  }

  /** The first `i` of `c` have been decrypted to those of `s`, and `v` is the vector for the next. */
  ghost predicate DecryptedTo<T>(dec: seq<T> -> seq<T>, add: (seq<T>, seq<T>) -> seq<T>, iv: seq<T>,
                                 c: seq<T>, s: seq<T>, v: seq<T>, i: nat) {
    && |s| == |c| && i <= |c| && i % SIZE == 0 && s[i..] == c[i..]
    && Blocks(s[..i]) == Decrypted(dec, add, iv, Blocks(c[..i]))
    && v == NextIv(iv, Blocks(c[..i]))
  }

  lemma DecryptedStep<T>(dec: seq<T> -> seq<T>, add: (seq<T>, seq<T>) -> seq<T>, iv: seq<T>,
                         c: seq<T>, s: seq<T>, v: seq<T>, i: nat, s': seq<T>, y: seq<T>, next: nat)
    requires DecryptedTo(dec, add, iv, c, s, v, i) && next == i + SIZE <= |c|
    requires y == add(dec(s[i..next]), v) && |y| == SIZE && s' == s[..i] + y + s[next..]
    ensures DecryptedTo(dec, add, iv, c, s', s[i..next], next)
  {
    BlocksMore(s', i, next);
    BlocksMore(c, i, next);
    assert s'[..i] == s[..i] && s'[i..next] == y && s[i..next] == c[i..next];
    var cb, x := Blocks(c[..i]), c[i..next];
    assert (cb + [x])[..|cb|] == cb;
  }
}
