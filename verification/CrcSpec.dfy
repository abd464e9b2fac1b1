/**
 What a reflected 32-bit CRC is, before any table or instruction is used to compute it.

 The reference is schoolbook long division of polynomials over GF(2) (`LongDivide`).  The dividend is the
 message, bits of each byte taken least significant first, followed by 32 zeros, with the initial value
 added to its leading 32 coefficients.  The one-bit shift register of the source (`Step`) is proved to
 leave that remainder; the rest of the module is the algebra that the fast routines rely on.
 */
module CrcSpec {
  import opened Words

  /** The Castagnoli polynomial of section 12.1 of RFC 3720, reflected. */
  const CASTAGNOLI: word := 0x82f63b78

  /** The polynomial of section 8 of RFC 1952, reflected. */
  const IEEE: word := 0xedb88320

  const ONES: word := 0xffff_ffff

  // ---------------------------------------------------------------------------------------------
  // The reference: long division of coefficient sequences, highest power first
  // ---------------------------------------------------------------------------------------------

  predicate Bit(x: nat, k: nat)
    decreases k
  {
    if k == 0 then x % 2 == 1 else Bit(x / 2, k - 1)
  }

  /** The low `n` bits of `x`, least significant first: the order in which reflected words list powers. */
  function BitsOf(x: nat, n: nat): (bits: seq<bool>)
    ensures |bits| == n
  {
    seq(n, k requires 0 <= k < n => Bit(x, k))
  }

  /** The bit stream that a CRC divides: first byte first, low bit first. */
  function MessageBits(bytes: seq<byte>): (bits: seq<bool>)
    ensures |bits| == 8 * |bytes|
  {
    if bytes == [] then [] else BitsOf(bytes[0], 8) + MessageBits(bytes[1..])
  }

  /** Adds the 32 coefficients of `x` to the leading 32 of `t`. */
  function AddLeading(t: seq<bool>, x: word): (r: seq<bool>)
    requires |t| >= 32
    ensures |r| == |t|
  {
    seq(|t|, k requires 0 <= k < |t| => if k < 32 then t[k] != Bit(x, k) else t[k])
  }

  /** Long division by x^32 + poly: the remainder of the polynomial with coefficients `t`. */
  function LongDivide(poly: word, t: seq<bool>): (r: seq<bool>)
    requires |t| >= 32
    ensures |r| == 32
    decreases |t|
  {
    if |t| == 32 then t
    else if t[0] then LongDivide(poly, AddLeading(t[1..], poly))
    else LongDivide(poly, t[1..])
  }

  function Zeros(n: nat): (z: seq<bool>)
    ensures |z| == n
  {
    seq(n, _ => false)
  }

  function Dividend(initial: word, bits: seq<bool>): (t: seq<bool>)
    ensures |t| == |bits| + 32
  {
    AddLeading(bits + Zeros(32), initial)
  }

  // ---------------------------------------------------------------------------------------------
  // The shift register
  // ---------------------------------------------------------------------------------------------

  /** One iteration of the innermost loop of the table generators. */
  function Step(poly: word, x: word): word {
    if x % 2 == 1 then XorWord(poly, x / 2) else x / 2
  }

  function XorWord(x: word, y: word): word {
    Word32();
    XorFits(x, y, 32);
    Xor(x, y)
  }

  function Steps(poly: word, n: nat, x: word): word {
    if n == 0 then x else Step(poly, Steps(poly, n - 1, x))
  }

  function FeedBits(poly: word, c: word, bits: seq<bool>): word
    decreases |bits|
  {
    if bits == [] then c
    else FeedBits(poly, Step(poly, XorWord(c, if bits[0] then 1 else 0)), bits[1..])
  }

  function Feed(poly: word, c: word, bytes: seq<byte>): word {
    FeedBits(poly, c, MessageBits(bytes))
  }

  /** The CRC of `bytes`, continuing from the CRC `crc` of what came before (0 for a whole message). */
  function Crc(poly: word, crc: word, bytes: seq<byte>): word {
    XorWord(Feed(poly, XorWord(crc, ONES), bytes), ONES)
  }

  // ---------------------------------------------------------------------------------------------
  // The register leaves the remainder
  // ---------------------------------------------------------------------------------------------

  lemma {:induction false} XorBit(x: nat, y: nat, k: nat)
    ensures Bit(Xor(x, y), k) == (Bit(x, k) != Bit(y, k))
    decreases k
  {
    XorHalf(x, y);
    if k > 0 { XorBit(x / 2, y / 2, k - 1); }
  }

  lemma {:induction false} NoBit(x: nat, k: nat)
    requires x < Pow2(k)
    ensures !Bit(x, k)
    decreases k
  {
    if k > 0 { NoBit(x / 2, k - 1); }
  }

  lemma StepBit(poly: word, x: word, k: nat)
    requires k < 32
    ensures Bit(Step(poly, x), k) == ((k < 31 && Bit(x, k + 1)) != (x % 2 == 1 && Bit(poly, k)))
  {
    hide Xor;
    if k == 31 {
      Word32();
      NoBit(x / 2, 31);
    }
    XorBit(poly, x / 2, k);
  }

  lemma DividendBit(initial: word, bits: seq<bool>, k: nat)
    requires k < |bits| + 32
    ensures Dividend(initial, bits)[k]
         == ((k < |bits| && bits[k]) != (k < 32 && Bit(initial, k)))
  {
  }

  /** Bringing down the next coefficient of the dividend is one step of the register. */
  lemma DivideOne(poly: word, c: word, bits: seq<bool>)
    requires bits != []
    ensures var t := Dividend(c, bits);
            var c' := Step(poly, XorWord(c, if bits[0] then 1 else 0));
            (if t[0] then AddLeading(t[1..], poly) else t[1..]) == Dividend(c', bits[1..])
  {
    hide Xor;
    var t := Dividend(c, bits);
    var x := XorWord(c, if bits[0] then 1 else 0);
    var c' := Step(poly, x);
    var next := if t[0] then AddLeading(t[1..], poly) else t[1..];
    forall k | 0 <= k < |next|
      ensures next[k] == Dividend(c', bits[1..])[k]
    {
      DividendBit(c, bits, 0);
      DividendBit(c, bits, k + 1);
      DividendBit(c', bits[1..], k);
      XorBit(c, if bits[0] then 1 else 0, 0);
      XorBit(c, if bits[0] then 1 else 0, k + 1);
      assert !Bit(1, k + 1) && !Bit(0, k + 1) by {
        NoBitOfOne(k + 1);
      }
      if k < 32 { StepBit(poly, x, k); }
    }
  }

  lemma {:induction false} NoBitOfOne(k: nat)
    requires k > 0
    ensures !Bit(1, k) && !Bit(0, k)
  {
    if k > 1 { NoBitOfOne(k - 1); }
    assert Bit(1, k) == Bit(1 / 2, k - 1) && Bit(0, k) == Bit(0 / 2, k - 1);
    assert !Bit(0, k - 1) by { if k == 1 { assert !Bit(0, 0); } }
  }

  lemma {:induction false} RegisterIsRemainder(poly: word, c: word, bits: seq<bool>)
    ensures BitsOf(FeedBits(poly, c, bits), 32) == LongDivide(poly, Dividend(c, bits))
    decreases |bits|
  {
    if bits == [] {
      forall k | 0 <= k < 32
        ensures Dividend(c, [])[k] == BitsOf(c, 32)[k]
      {
        DividendBit(c, [], k);
      }
      assert Dividend(c, []) == BitsOf(c, 32);
    } else {
      DivideOne(poly, c, bits);
      RegisterIsRemainder(poly, Step(poly, XorWord(c, if bits[0] then 1 else 0)), bits[1..]);
    }
  }

  /**
   The CRC of a message, complemented, is the remainder of its bits and 32 zeros, divided by
   x^32 + poly, when the complement of the previous CRC is added to the leading coefficients.
   */
  lemma CrcIsRemainder(poly: word, crc: word, bytes: seq<byte>)
    ensures BitsOf(XorWord(Crc(poly, crc, bytes), ONES), 32)
         == LongDivide(poly, Dividend(XorWord(crc, ONES), MessageBits(bytes)))
  {
    hide Xor;
    var c := XorWord(crc, ONES);
    var r := Feed(poly, c, bytes);
    XorAssoc(r, ONES, ONES);
    XorZero(ONES);
    XorZero(r);
    RegisterIsRemainder(poly, c, MessageBits(bytes));
  }

  /** A word is known by its 32 coefficients, so `CrcIsRemainder` leaves no freedom. */
  lemma {:induction false} BitsDetermine(x: nat, y: nat, n: nat)
    requires x < Pow2(n) && y < Pow2(n) && BitsOf(x, n) == BitsOf(y, n)
    ensures x == y
  {
    if n > 0 {
      assert Bit(x, 0) == BitsOf(x, n)[0] == BitsOf(y, n)[0] == Bit(y, 0);
      forall k: nat | k < n - 1
        ensures Bit(x / 2, k) == Bit(y / 2, k)
      {
        assert Bit(x, k + 1) == BitsOf(x, n)[k + 1] == BitsOf(y, n)[k + 1] == Bit(y, k + 1);
      }
      assert BitsOf(x / 2, n - 1) == BitsOf(y / 2, n - 1);
      BitsDetermine(x / 2, y / 2, n - 1);
    }
  }
}
