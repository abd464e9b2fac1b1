/**
 What the two CRCs are in the numbers of their standards: the powers of both polynomials, and the check
 value that catalogues of CRCs give for the nine ASCII digits "123456789".

 Every other contract about checksums is told through the polynomials and `Crc`; these fix both.
 */
module CheckValues {
  import opened Words
  import opened CrcSpec
  import opened CrcAlgebra
  import opened Crc32Table

  // ---------------------------------------------------------------------------------------------
  // The polynomials
  // ---------------------------------------------------------------------------------------------

  /** A coefficient is one four places down in a sixteenth of the word. */
  lemma BitInNibble(x: nat, k: nat)
    ensures Bit(x, k + 4) == Bit(x / 16, k)
  {
    assert Bit(x, k + 4) == Bit(x / 2, k + 3) == Bit(x / 2 / 2, k + 2) == Bit(x / 2 / 2 / 2, k + 1);
    assert x / 2 / 2 / 2 / 2 == x / 16;
  }

  lemma FourBits(x: nat)
    ensures Bit(x, 0) == (x % 2 == 1) && Bit(x, 1) == (x / 2 % 2 == 1)
    ensures Bit(x, 2) == (x / 4 % 2 == 1) && Bit(x, 3) == (x / 8 % 2 == 1)
  {
    assert Bit(x, 2) == Bit(x / 2, 1) == Bit(x / 2 / 2, 0) && x / 2 / 2 == x / 4;
    assert Bit(x, 3) == Bit(x / 2, 2) == Bit(x / 2 / 2, 1) == Bit(x / 2 / 2 / 2, 0) && x / 2 / 2 / 2 == x / 8;
  }

  /** The 32 coefficients of a word, nibble by nibble, lowest bit first. */
  lemma NibbleBits(x: word, n: seq<nat>)
    requires |n| == 8 && n[0] == x && forall i :: 0 <= i < 7 ==> n[i + 1] == n[i] / 16
    ensures forall i, k :: 0 <= i < 8 && 0 <= k < 4 ==> Bit(x, 4 * i + k) == Bit(n[i], k)
  {
    hide Bit;
    NibbleBitsTo(x, n, 7);
  }

  lemma {:induction false} NibbleBitsTo(x: word, n: seq<nat>, j: nat)
    requires |n| == 8 && j < 8 && n[0] == x && forall i :: 0 <= i < 7 ==> n[i + 1] == n[i] / 16
    ensures forall k: nat :: Bit(x, 4 * j + k) == Bit(n[j], k)
    ensures forall i, k :: 0 <= i <= j && 0 <= k < 4 ==> Bit(x, 4 * i + k) == Bit(n[i], k)
  {
    hide Bit;
    if j > 0 {
      NibbleBitsTo(x, n, j - 1);
      forall k: nat ensures Bit(x, 4 * j + k) == Bit(n[j], k) {
        assert 4 * j + k == 4 * (j - 1) + (k + 4);
        BitInNibble(n[j - 1], k);
      }
    }
  }

  /** The powers below x^32 of the polynomial in section 12.1 of RFC 3720.  Reflected, bit k stands for x^(31 - k). */
  lemma CastagnoliPowers()
    ensures forall k: nat | k < 32 ::
      Bit(CASTAGNOLI, k) <==> 31 - k in {28, 27, 26, 25, 23, 22, 20, 19, 18, 14, 13, 11, 10, 9, 8, 6, 0}
  {
    hide Bit;
    var n := [0x82f63b78, 0x82f63b7, 0x82f63b, 0x82f63, 0x82f6, 0x82f, 0x82, 0x8];
    NibbleBits(CASTAGNOLI, n);
    FourBits(n[0]);
    FourBits(n[1]);
    FourBits(n[2]);
    FourBits(n[3]);
    FourBits(n[4]);
    FourBits(n[5]);
    FourBits(n[6]);
    FourBits(n[7]);
    forall k: nat | k < 32
      ensures Bit(CASTAGNOLI, k) <==> 31 - k in {28, 27, 26, 25, 23, 22, 20, 19, 18, 14, 13, 11, 10, 9, 8, 6, 0}
    {
      assert Bit(CASTAGNOLI, 4 * (k / 4) + k % 4) == Bit(n[k / 4], k % 4);
    }
  }

  /** The powers below x^32 of the polynomial in section 8 of RFC 1952. */
  lemma IeeePowers()
    ensures forall k: nat | k < 32 ::
      Bit(IEEE, k) <==> 31 - k in {26, 23, 22, 16, 12, 11, 10, 8, 7, 5, 4, 2, 1, 0}
  {
    hide Bit;
    var n := [0xedb88320, 0xedb8832, 0xedb883, 0xedb88, 0xedb8, 0xedb, 0xed, 0xe];
    NibbleBits(IEEE, n);
    FourBits(n[0]);
    FourBits(n[1]);
    FourBits(n[2]);
    FourBits(n[3]);
    FourBits(n[4]);
    FourBits(n[5]);
    FourBits(n[6]);
    FourBits(n[7]);
    forall k: nat | k < 32
      ensures Bit(IEEE, k) <==> 31 - k in {26, 23, 22, 16, 12, 11, 10, 8, 7, 5, 4, 2, 1, 0}
    {
      assert Bit(IEEE, 4 * (k / 4) + k % 4) == Bit(n[k / 4], k % 4);
    }
  }

  // ---------------------------------------------------------------------------------------------
  // The check values
  // ---------------------------------------------------------------------------------------------

  /** "123456789" */
  const CHECK: seq<byte> := [0x31, 0x32, 0x33, 0x34, 0x35, 0x36, 0x37, 0x38, 0x39]

  const DIGITS: seq<Literal> :=
    [Literal(0x31), Literal(0x32), Literal(0x33), Literal(0x34), Literal(0x35), Literal(0x36), Literal(0x37),
     Literal(0x38), Literal(0x39)]

  /** The register, as literals, after feeding a byte. */
  function FeedLiteral(poly: Literal, c: Literal, b: Literal): Literal {
    var x := Add(c, b);
    StepLiteral(poly, StepLiteral(poly, StepLiteral(poly, StepLiteral(poly,
      StepLiteral(poly, StepLiteral(poly, StepLiteral(poly, StepLiteral(poly, x))))))))
  }

  lemma EightSteps(poly: word, x: word)
    ensures Steps(poly, 8, x)
         == Step(poly, Step(poly, Step(poly, Step(poly, Step(poly, Step(poly, Step(poly, Step(poly, x))))))))
  {
    hide Step;
    assert Steps(poly, 2, x) == Step(poly, Step(poly, Steps(poly, 0, x)));
    assert Steps(poly, 4, x) == Step(poly, Step(poly, Steps(poly, 2, x)));
    assert Steps(poly, 6, x) == Step(poly, Step(poly, Steps(poly, 4, x)));
    assert Steps(poly, 8, x) == Step(poly, Step(poly, Steps(poly, 6, x)));
  }

  lemma FeedLiteralIs(poly: Literal, c: Literal, b: Literal)
    requires Value(b) < 256
    ensures Value(FeedLiteral(poly, c, b)) == Feed(Value(poly), Value(c), [Value(b)])
  {
    hide Value, StepLiteral, Step, Steps, Add, Xor, Feed;
    FeedByte(Value(poly), Value(c), Value(b));
    ValueOfAdd(c, b);
    var x0 := Add(c, b);
    EightSteps(Value(poly), Value(x0));
    var x1 := StepLiteral(poly, x0);
    var x2 := StepLiteral(poly, x1);
    var x3 := StepLiteral(poly, x2);
    var x4 := StepLiteral(poly, x3);
    var x5 := StepLiteral(poly, x4);
    var x6 := StepLiteral(poly, x5);
    var x7 := StepLiteral(poly, x6);
    StepValue(poly, x0);
    StepValue(poly, x1);
    StepValue(poly, x2);
    StepValue(poly, x3);
    StepValue(poly, x4);
    StepValue(poly, x5);
    StepValue(poly, x6);
    StepValue(poly, x7);
  }

  /** The registers `c` are those that a message leaves, byte by byte. */
  lemma {:induction false} RegistersAre(poly: Literal, c: seq<Literal>, digits: seq<Literal>, bytes: seq<byte>)
    requires |c| == |digits| + 1 && |digits| == |bytes|
    requires forall k :: 0 <= k < |bytes| ==> Value(digits[k]) == bytes[k]
    requires forall k :: 0 <= k < |bytes| ==> c[k + 1] == FeedLiteral(poly, c[k], digits[k])
    ensures Feed(Value(poly), Value(c[0]), bytes) == Value(c[|bytes|])
    decreases |bytes|
  {
    hide Value, FeedLiteral, Feed;
    if bytes == [] {
      FeedNothing(Value(poly), Value(c[0]));
    } else {
      FeedLiteralIs(poly, c[0], digits[0]);
      assert c[1] == FeedLiteral(poly, c[0], digits[0]);
      RegistersAre(poly, c[1..], digits[1..], bytes[1..]);
      FeedConcat(Value(poly), Value(c[0]), [bytes[0]], bytes[1..]);
      assert [bytes[0]] + bytes[1..] == bytes;
    }
  }

  lemma SmallLiteral(a: Literal)
    requires a.u >> 8 == 0
    ensures Value(a) == LowByte(a)
  {
    hide Value, LowByte;
    ReadBytes(a, Literal(0), Literal(0), Literal(0));
    NothingLow();
  }

  lemma NothingLow()
    ensures LowByte(Literal(0)) == 0
  {}

  lemma DigitsAre()
    ensures forall k :: 0 <= k < 9 ==> Value(DIGITS[k]) == CHECK[k]
  {
    hide Value;
    SmallLiteral(Literal(0x31));
    SmallLiteral(Literal(0x32));
    SmallLiteral(Literal(0x33));
    SmallLiteral(Literal(0x34));
    SmallLiteral(Literal(0x35));
    SmallLiteral(Literal(0x36));
    SmallLiteral(Literal(0x37));
    SmallLiteral(Literal(0x38));
    SmallLiteral(Literal(0x39));
  }

  lemma OnesAre()
    ensures Value(Literal(0xffff_ffff)) == ONES
  {
    hide Value;
    ReadBytes(Literal(0xffff_ffff), Literal(0xff_ffff), Literal(0xffff), Literal(0xff));
  }

  const POLY_C := Literal(0x82f63b78)

  lemma ValueOfPolyC()
    ensures Value(POLY_C) == CASTAGNOLI
  {
    hide Value;
    ReadBytes(POLY_C, Literal(0x82f63b), Literal(0x82f6), Literal(0x82));
  }

  /** The CRC whose complement is the register `last`. */
  lemma CheckIs(poly: Literal, c: seq<Literal>, crc: Literal)
    requires |c| == 10 && c[0] == Literal(0xffff_ffff) && crc == Add(c[9], Literal(0xffff_ffff))
    requires forall k :: 0 <= k < 9 ==> c[k + 1] == FeedLiteral(poly, c[k], DIGITS[k])
    ensures Crc(Value(poly), 0, CHECK) == Value(crc)
  {
    hide Value, FeedLiteral, Feed, Add, Xor;
    DigitsAre();
    OnesAre();
    XorZero(ONES);
    RegistersAre(poly, c, DIGITS, CHECK);
    ValueOfAdd(c[9], Literal(0xffff_ffff));
  }

  /** What the register holds before the first digit and after each. */
  const REGISTERS_C: seq<Literal> :=
    [Literal(0xffffffff), Literal(0x6f0a661c), Literal(0x8caa3b9f), Literal(0xef84d04d),
     Literal(0x9c50b11), Literal(0xe72edcca), Literal(0xbeca8e79), Literal(0xedbd6815),
     Literal(0x9f787f65), Literal(0x1cf96d7c)]

  lemma CastagnoliCheckFirst()
    ensures REGISTERS_C[1] == FeedLiteral(POLY_C, REGISTERS_C[0], DIGITS[0])
    ensures REGISTERS_C[2] == FeedLiteral(POLY_C, REGISTERS_C[1], DIGITS[1])
    ensures REGISTERS_C[3] == FeedLiteral(POLY_C, REGISTERS_C[2], DIGITS[2])
  {}

  lemma CastagnoliCheckMiddle()
    ensures REGISTERS_C[4] == FeedLiteral(POLY_C, REGISTERS_C[3], DIGITS[3])
    ensures REGISTERS_C[5] == FeedLiteral(POLY_C, REGISTERS_C[4], DIGITS[4])
    ensures REGISTERS_C[6] == FeedLiteral(POLY_C, REGISTERS_C[5], DIGITS[5])
  {}

  lemma CastagnoliCheckLast()
    ensures REGISTERS_C[7] == FeedLiteral(POLY_C, REGISTERS_C[6], DIGITS[6])
    ensures REGISTERS_C[8] == FeedLiteral(POLY_C, REGISTERS_C[7], DIGITS[7])
    ensures REGISTERS_C[9] == FeedLiteral(POLY_C, REGISTERS_C[8], DIGITS[8])
  {}

  /** The check value of CRC-32C. */
  lemma CastagnoliCheck()
    ensures Crc(CASTAGNOLI, 0, CHECK) == 0xe3069283
  {
    hide Value, FeedLiteral, Crc;
    CastagnoliCheckFirst();
    CastagnoliCheckMiddle();
    CastagnoliCheckLast();
    ValueOfPolyC();
    CheckIs(POLY_C, REGISTERS_C, Literal(0xe3069283));
    ReadBytes(Literal(0xe3069283), Literal(0xe30692), Literal(0xe306), Literal(0xe3));
  }

  /** What the register holds before the first digit and after each. */
  const REGISTERS: seq<Literal> :=
    [Literal(0xffffffff), Literal(0x7c231048), Literal(0xb0acbb32), Literal(0x77b79c2d),
     Literal(0x641c1f5c), Literal(0x340ac5e3), Literal(0xf68d2c9e), Literal(0xaffc9660),
     Literal(0x651f2550), Literal(0x340bc6d9)]

  lemma IeeeCheckFirst()
    ensures REGISTERS[1] == FeedLiteral(POLY, REGISTERS[0], DIGITS[0])
    ensures REGISTERS[2] == FeedLiteral(POLY, REGISTERS[1], DIGITS[1])
    ensures REGISTERS[3] == FeedLiteral(POLY, REGISTERS[2], DIGITS[2])
  {}

  lemma IeeeCheckMiddle()
    ensures REGISTERS[4] == FeedLiteral(POLY, REGISTERS[3], DIGITS[3])
    ensures REGISTERS[5] == FeedLiteral(POLY, REGISTERS[4], DIGITS[4])
    ensures REGISTERS[6] == FeedLiteral(POLY, REGISTERS[5], DIGITS[5])
  {}

  lemma IeeeCheckLast()
    ensures REGISTERS[7] == FeedLiteral(POLY, REGISTERS[6], DIGITS[6])
    ensures REGISTERS[8] == FeedLiteral(POLY, REGISTERS[7], DIGITS[7])
    ensures REGISTERS[9] == FeedLiteral(POLY, REGISTERS[8], DIGITS[8])
  {}

  /** The check value of the CRC of RFC 1952. */
  lemma IeeeCheck()
    ensures Crc(IEEE, 0, CHECK) == 0xcbf43926
  {
    hide Value, FeedLiteral, Crc;
    IeeeCheckFirst();
    IeeeCheckMiddle();
    IeeeCheckLast();
    ValueOfPoly();
    CheckIs(POLY, REGISTERS, Literal(0xcbf43926));
    ReadBytes(Literal(0xcbf43926), Literal(0xcbf439), Literal(0xcbf4), Literal(0xcb));
  }
}
