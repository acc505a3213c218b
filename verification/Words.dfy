/** 64-bit words: exclusive or as a group, rotation and odd multiplication as bijections. Each step on a word is a
    named function and each law about it stands alone, so that longer laws follow by rewriting with these. */
module Words {

  function Xor(x: bv64, y: bv64): bv64 { x ^ y }

  function Rotl(x: bv64, k: bv7): bv64
    requires 0 < k < 64
  {
    (x << k) | (x >> (64 - k))
  }

  /** Rotated, a word is multiplied by a power of two, and what that carries out of it comes back in below. */
  lemma RotatedBy5(x: bv64)
    ensures Rotl(x, 5) == x * 0x20 + x / 0x0800_0000_0000_0000
  {
  }

  lemma RotatedBy7(x: bv64)
    ensures Rotl(x, 7) == x * 0x80 + x / 0x0200_0000_0000_0000
  {
  }

  lemma RotatedBy45(x: bv64)
    ensures Rotl(x, 45) == x * 0x2000_0000_0000 + x / 0x8_0000
  {
  }

  lemma XorIs(x: bv64, y: bv64)
    ensures Xor(x, y) == x ^ y
  {
  }

  lemma XorCommutes(x: bv64, y: bv64)
    ensures Xor(x, y) == Xor(y, x)
  {
  }

  lemma XorLeft(x: bv64, y: bv64, z: bv64)
    ensures Xor(x ^ y, z) == x ^ y ^ z
  {
  }

  lemma XorRight(x: bv64, y: bv64, z: bv64)
    ensures Xor(x, y ^ z) == x ^ y ^ z
  {
  }

  lemma XorAssociates(x: bv64, y: bv64, z: bv64)
    ensures Xor(Xor(x, y), z) == Xor(x, Xor(y, z))
  {
    XorIs(x, y);
    XorIs(y, z);
    XorLeft(x, y, z);
    XorRight(x, y, z);
  }

  lemma XorTwice(x: bv64, y: bv64)
    ensures Xor(x, x ^ y) == y
  {
  }

  lemma XorCancels(x: bv64, y: bv64)
    ensures Xor(x, Xor(x, y)) == y
    ensures Xor(Xor(y, x), x) == y
  {
    XorIs(x, y);
    XorTwice(x, y);
    XorCommutes(x, y);
    XorCommutes(x, Xor(x, y));
  }
}
