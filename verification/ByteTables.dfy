/** Tables of 256 bytes, kept as 32 words of eight bytes. */
module ByteTables {

  /** The byte of `w` that the low three bits of `n` select, the highest byte first. */
  function ByteOf(w: bv64, n: bv8): bv8 {
    var half := if n & 4 == 0 then w >> 32 else w;
    var pair := if n & 2 == 0 then half >> 16 else half;
    var byte := if n & 1 == 0 then pair >> 8 else pair;
    (byte & 0xff) as bv8
  }

  /** A number as a byte, put together from its two halves. */
  function ToByte(x: nat): (b: bv8)
    requires x < 256
    ensures b as int == x
  {
    NibbleAgain(x / 16);
    NibbleAgain(x % 16);
    var h, l := (x / 16) as bv4, (x % 16) as bv4;
    Joined(h, l);
    ((h as bv8) << 4) | (l as bv8)
  }

  lemma NibbleAgain(x: nat)
    requires x < 16
    ensures (x as bv4) as int == x
  {
  }

  lemma Joined(h: bv4, l: bv4)
    ensures (((h as bv8) << 4) | (l as bv8)) as int == 16 * (h as int) + (l as int)
  {
  }

  /** The weight of a byte with `n` bytes below it. */
  function Pow256(n: nat): (p: nat)
    ensures p > 0
  {
    if n == 0 then 1 else 256 * Pow256(n - 1)
  }

  lemma {:induction false} Pow256Values()
    ensures Pow256(0) == 1 && Pow256(1) == 0x100 && Pow256(2) == 0x1_0000 && Pow256(3) == 0x100_0000
    ensures Pow256(4) == 0x1_0000_0000 && Pow256(5) == 0x100_0000_0000
    ensures Pow256(6) == 0x1_0000_0000_0000 && Pow256(7) == 0x100_0000_0000_0000
  {
    assert Pow256(2) == 256 * Pow256(1);
    assert Pow256(4) == 256 * Pow256(3) && Pow256(3) == 256 * Pow256(2);
    assert Pow256(6) == 256 * Pow256(5) && Pow256(5) == 256 * Pow256(4);
  }
}
