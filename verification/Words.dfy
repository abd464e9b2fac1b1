/**
 Unsigned machine words as numbers, and their bitwise exclusive or.

 Every width the source uses (8, 32 and 64 bits) is a range of natural numbers.  Shifts right are
 divisions, masks are remainders, and exclusive or is defined bit by bit, so that it is one operation on
 all widths; `XorFits` says that it never leaves the width of its operands.
 */
module Words {

  const TWO32: nat := 0x1_0000_0000

  type byte = b: int | 0 <= b < 256
  type word = w: int | 0 <= w < 0x1_0000_0000

  /** `x ^ y` */
  function Xor(x: nat, y: nat): nat
    decreases x + y
  {
    if x == 0 then y
    else if y == 0 then x
    else (if x % 2 != y % 2 then 1 else 0) + 2 * Xor(x / 2, y / 2)
  }

  /** `x >> 8 * k` */
  function Shr(x: nat, k: nat): nat {
    if k == 0 then x else Shr(x / 256, k - 1)
  }

  /** `(x >> 8 * k) & 0xff` */
  function ByteAt(x: nat, k: nat): byte {
    Shr(x, k) % 256
  }

  function Pow2(n: nat): (p: nat)
    ensures p > 0
  {
    if n == 0 then 1 else 2 * Pow2(n - 1)
  }

  // ---------------------------------------------------------------------------------------------
  // Exclusive or is addition in a vector space over GF(2)
  // ---------------------------------------------------------------------------------------------

  lemma XorHalf(x: nat, y: nat)
    ensures Xor(x, y) / 2 == Xor(x / 2, y / 2)
    ensures (Xor(x, y) % 2 == 1) == ((x % 2 == 1) != (y % 2 == 1))
  {
  }

  lemma {:induction false} XorComm(x: nat, y: nat)
    ensures Xor(x, y) == Xor(y, x)
    decreases x + y
  {
    if x != 0 && y != 0 { XorComm(x / 2, y / 2); }
  }

  lemma {:induction false} XorZero(x: nat)
    ensures Xor(x, x) == 0 && Xor(x, 0) == x && Xor(0, x) == x
  {
    if x != 0 { XorZero(x / 2); }
  }

  lemma {:induction false} XorAssoc(x: nat, y: nat, z: nat)
    ensures Xor(Xor(x, y), z) == Xor(x, Xor(y, z))
    decreases x + y + z
  {
    if x != 0 && y != 0 && z != 0 {
      XorAssoc(x / 2, y / 2, z / 2);
      XorHalf(x, y);
      XorHalf(y, z);
      XorHalf(Xor(x, y), z);
      XorHalf(x, Xor(y, z));
    }
  }

  lemma XorSwap(a: nat, b: nat, c: nat, d: nat)
    ensures Xor(Xor(a, b), Xor(c, d)) == Xor(Xor(a, c), Xor(b, d))
  {
    hide Xor;
    XorAssoc(a, b, Xor(c, d));
    XorAssoc(b, c, d);
    XorComm(b, c);
    XorAssoc(c, b, d);
    XorAssoc(a, c, Xor(b, d));
  }

  lemma XorCancels(x: nat, y: nat, z: nat)
    requires Xor(x, z) == Xor(y, z)
    ensures x == y
  {
    hide Xor;
    XorAssoc(x, z, z);
    XorAssoc(y, z, z);
    XorZero(x);
    XorZero(y);
    XorZero(z);
  }

  lemma {:induction false} XorFits(x: nat, y: nat, n: nat)
    requires x < Pow2(n) && y < Pow2(n)
    ensures Xor(x, y) < Pow2(n)
  {
    if n > 0 { XorFits(x / 2, y / 2, n - 1); }
  }

  lemma Word32()
    ensures Pow2(32) == TWO32 && Pow2(8) == 256
  {
    assert Pow2(8) == 256;
    assert Pow2(16) == 0x1_0000;
    assert Pow2(24) == 0x100_0000;
  }

  /** Exclusive or with a number that has only low bits acts on the low end alone. */
  lemma {:induction false} XorDisjoint(h: nat, b: nat, n: nat)
    requires b < Pow2(n)
    ensures Xor(Pow2(n) * h, b) == Pow2(n) * h + b
  {
    if n > 0 {
      var q := Pow2(n - 1) * h;
      assert Pow2(n) * h == 2 * q;
      XorDisjoint(h, b / 2, n - 1);
      XorHalf(2 * q, b);
    }
  }

  // ---------------------------------------------------------------------------------------------
  // Bytes of a word
  // ---------------------------------------------------------------------------------------------

  lemma EightHalves(x: nat)
    ensures x / 2 / 2 / 2 / 2 / 2 / 2 / 2 / 2 == x / 256
  {
  }

  lemma XorHalves(x: nat, y: nat, n: nat)
    ensures Halves(Xor(x, y), n) == Xor(Halves(x, n), Halves(y, n))
    decreases n
  {
    if n > 0 {
      XorHalf(x, y);
      XorHalves(x / 2, y / 2, n - 1);
    }
  }

  /** `x >> n` */
  function Halves(x: nat, n: nat): nat
    decreases n
  {
    if n == 0 then x else Halves(x / 2, n - 1)
  }

  lemma ByteHalves(x: nat)
    ensures Halves(x, 8) == x / 256
  {
    assert Halves(x, 8) == Halves(x / 2 / 2, 6) == Halves(x / 2 / 2 / 2 / 2, 4);
    EightHalves(x);
  }

  /** Exclusive or works byte by byte. */
  lemma XorByte(x: nat, y: nat)
    ensures Xor(x, y) / 256 == Xor(x / 256, y / 256)
    ensures Xor(x, y) % 256 == Xor(x % 256, y % 256)
  {
    hide Xor;
    XorHalves(x, y, 8);
    ByteHalves(x);
    ByteHalves(y);
    ByteHalves(Xor(x, y));
    SplitByte(x);
    SplitByte(y);
    XorSwap(256 * (x / 256), x % 256, 256 * (y / 256), y % 256);
    var h, l := Xor(x / 256, y / 256), Xor(x % 256, y % 256);
    Word32();
    XorFits(x % 256, y % 256, 8);
    XorScale(x / 256, y / 256);
    XorDisjoint(h, l, 8);
    assert Xor(x, y) == 256 * h + l;
  }

  lemma XorDouble(x: nat, y: nat)
    ensures Xor(2 * x, 2 * y) == 2 * Xor(x, y)
  {
  }

  lemma XorScale(x: nat, y: nat)
    ensures Xor(256 * x, 256 * y) == 256 * Xor(x, y)
  {
    hide Xor;
    XorDouble(x, y);
    XorDouble(2 * x, 2 * y);
    XorDouble(4 * x, 4 * y);
    XorDouble(8 * x, 8 * y);
    XorDouble(16 * x, 16 * y);
    XorDouble(32 * x, 32 * y);
    XorDouble(64 * x, 64 * y);
    XorDouble(128 * x, 128 * y);
  }

  lemma SplitByte(x: nat)
    ensures x == Xor(256 * (x / 256), x % 256)
  {
    Word32();
    XorDisjoint(x / 256, x % 256, 8);
  }

  lemma SplitBit(x: nat)
    ensures x == Xor(x % 2, x - x % 2)
  {
    XorDisjoint(x / 2, x % 2, 1);
    XorComm(2 * (x / 2), x % 2);
  }

  lemma {:induction false} XorByteAt(x: nat, y: nat, k: nat)
    ensures ByteAt(Xor(x, y), k) == Xor(ByteAt(x, k), ByteAt(y, k))
    decreases k
  {
    XorByte(x, y);
    if k > 0 { XorByteAt(x / 256, y / 256, k - 1); }
  }
}
