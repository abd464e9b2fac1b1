/**
 The literal table of the byte-at-a-time CRC-32, and the proof that each of its 256 entries is the one
 that section 8 of RFC 1952 computes.

 The entries are 32-bit literals, in rows of 16; `Value` reads one as a number.  The table is linear, so
 the proof needs one entry per power of two; every other entry is an exclusive or of two earlier ones.
 */
module Crc32Table {
  import opened Words
  import opened CrcSpec
  import opened CrcAlgebra

  const ROW_0: seq<bv32> := [
    0x00000000, 0x77073096, 0xee0e612c, 0x990951ba, 0x076dc419, 0x706af48f, 0xe963a535, 0x9e6495a3,
    0x0edb8832, 0x79dcb8a4, 0xe0d5e91e, 0x97d2d988, 0x09b64c2b, 0x7eb17cbd, 0xe7b82d07, 0x90bf1d91
  ]
  const ROW_1: seq<bv32> := [
    0x1db71064, 0x6ab020f2, 0xf3b97148, 0x84be41de, 0x1adad47d, 0x6ddde4eb, 0xf4d4b551, 0x83d385c7,
    0x136c9856, 0x646ba8c0, 0xfd62f97a, 0x8a65c9ec, 0x14015c4f, 0x63066cd9, 0xfa0f3d63, 0x8d080df5
  ]
  const ROW_2: seq<bv32> := [
    0x3b6e20c8, 0x4c69105e, 0xd56041e4, 0xa2677172, 0x3c03e4d1, 0x4b04d447, 0xd20d85fd, 0xa50ab56b,
    0x35b5a8fa, 0x42b2986c, 0xdbbbc9d6, 0xacbcf940, 0x32d86ce3, 0x45df5c75, 0xdcd60dcf, 0xabd13d59
  ]
  const ROW_3: seq<bv32> := [
    0x26d930ac, 0x51de003a, 0xc8d75180, 0xbfd06116, 0x21b4f4b5, 0x56b3c423, 0xcfba9599, 0xb8bda50f,
    0x2802b89e, 0x5f058808, 0xc60cd9b2, 0xb10be924, 0x2f6f7c87, 0x58684c11, 0xc1611dab, 0xb6662d3d
  ]
  const ROW_4: seq<bv32> := [
    0x76dc4190, 0x01db7106, 0x98d220bc, 0xefd5102a, 0x71b18589, 0x06b6b51f, 0x9fbfe4a5, 0xe8b8d433,
    0x7807c9a2, 0x0f00f934, 0x9609a88e, 0xe10e9818, 0x7f6a0dbb, 0x086d3d2d, 0x91646c97, 0xe6635c01
  ]
  const ROW_5: seq<bv32> := [
    0x6b6b51f4, 0x1c6c6162, 0x856530d8, 0xf262004e, 0x6c0695ed, 0x1b01a57b, 0x8208f4c1, 0xf50fc457,
    0x65b0d9c6, 0x12b7e950, 0x8bbeb8ea, 0xfcb9887c, 0x62dd1ddf, 0x15da2d49, 0x8cd37cf3, 0xfbd44c65
  ]
  const ROW_6: seq<bv32> := [
    0x4db26158, 0x3ab551ce, 0xa3bc0074, 0xd4bb30e2, 0x4adfa541, 0x3dd895d7, 0xa4d1c46d, 0xd3d6f4fb,
    0x4369e96a, 0x346ed9fc, 0xad678846, 0xda60b8d0, 0x44042d73, 0x33031de5, 0xaa0a4c5f, 0xdd0d7cc9
  ]
  const ROW_7: seq<bv32> := [
    0x5005713c, 0x270241aa, 0xbe0b1010, 0xc90c2086, 0x5768b525, 0x206f85b3, 0xb966d409, 0xce61e49f,
    0x5edef90e, 0x29d9c998, 0xb0d09822, 0xc7d7a8b4, 0x59b33d17, 0x2eb40d81, 0xb7bd5c3b, 0xc0ba6cad
  ]
  const ROW_8: seq<bv32> := [
    0xedb88320, 0x9abfb3b6, 0x03b6e20c, 0x74b1d29a, 0xead54739, 0x9dd277af, 0x04db2615, 0x73dc1683,
    0xe3630b12, 0x94643b84, 0x0d6d6a3e, 0x7a6a5aa8, 0xe40ecf0b, 0x9309ff9d, 0x0a00ae27, 0x7d079eb1
  ]
  const ROW_9: seq<bv32> := [
    0xf00f9344, 0x8708a3d2, 0x1e01f268, 0x6906c2fe, 0xf762575d, 0x806567cb, 0x196c3671, 0x6e6b06e7,
    0xfed41b76, 0x89d32be0, 0x10da7a5a, 0x67dd4acc, 0xf9b9df6f, 0x8ebeeff9, 0x17b7be43, 0x60b08ed5
  ]
  const ROW_A: seq<bv32> := [
    0xd6d6a3e8, 0xa1d1937e, 0x38d8c2c4, 0x4fdff252, 0xd1bb67f1, 0xa6bc5767, 0x3fb506dd, 0x48b2364b,
    0xd80d2bda, 0xaf0a1b4c, 0x36034af6, 0x41047a60, 0xdf60efc3, 0xa867df55, 0x316e8eef, 0x4669be79
  ]
  const ROW_B: seq<bv32> := [
    0xcb61b38c, 0xbc66831a, 0x256fd2a0, 0x5268e236, 0xcc0c7795, 0xbb0b4703, 0x220216b9, 0x5505262f,
    0xc5ba3bbe, 0xb2bd0b28, 0x2bb45a92, 0x5cb36a04, 0xc2d7ffa7, 0xb5d0cf31, 0x2cd99e8b, 0x5bdeae1d
  ]
  const ROW_C: seq<bv32> := [
    0x9b64c2b0, 0xec63f226, 0x756aa39c, 0x026d930a, 0x9c0906a9, 0xeb0e363f, 0x72076785, 0x05005713,
    0x95bf4a82, 0xe2b87a14, 0x7bb12bae, 0x0cb61b38, 0x92d28e9b, 0xe5d5be0d, 0x7cdcefb7, 0x0bdbdf21
  ]
  const ROW_D: seq<bv32> := [
    0x86d3d2d4, 0xf1d4e242, 0x68ddb3f8, 0x1fda836e, 0x81be16cd, 0xf6b9265b, 0x6fb077e1, 0x18b74777,
    0x88085ae6, 0xff0f6a70, 0x66063bca, 0x11010b5c, 0x8f659eff, 0xf862ae69, 0x616bffd3, 0x166ccf45
  ]
  const ROW_E: seq<bv32> := [
    0xa00ae278, 0xd70dd2ee, 0x4e048354, 0x3903b3c2, 0xa7672661, 0xd06016f7, 0x4969474d, 0x3e6e77db,
    0xaed16a4a, 0xd9d65adc, 0x40df0b66, 0x37d83bf0, 0xa9bcae53, 0xdebb9ec5, 0x47b2cf7f, 0x30b5ffe9
  ]
  const ROW_F: seq<bv32> := [
    0xbdbdf21c, 0xcabac28a, 0x53b39330, 0x24b4a3a6, 0xbad03605, 0xcdd70693, 0x54de5729, 0x23d967bf,
    0xb3667a2e, 0xc4614ab8, 0x5d681b02, 0x2a6f2b94, 0xb40bbe37, 0xc30c8ea1, 0x5a05df1b, 0x2d02ef8d
  ]

  function Row(r: nat): (row: seq<bv32>)
    requires r < 16
    ensures |row| == 16
  {
    [ROW_0, ROW_1, ROW_2, ROW_3, ROW_4, ROW_5, ROW_6, ROW_7,
     ROW_8, ROW_9, ROW_A, ROW_B, ROW_C, ROW_D, ROW_E, ROW_F][r]
  }

  /** A 32-bit literal.  The datatype keeps the solver from reasoning about its bits separately. */
  datatype Literal = Literal(u: bv32)

  const POLY := Literal(0xedb88320)

  predicate Odd(a: Literal) { a.u & 1 == 1 }
  function Half(a: Literal): Literal { Literal(a.u >> 1) }
  function Add(a: Literal, b: Literal): Literal { Literal(a.u ^ b.u) }

  /** The number that the low `n` bits of a literal spell. */
  function Low(a: Literal, n: nat): (x: nat)
    ensures x < Pow2(n)
    decreases n
  {
    if n == 0 then 0 else (if Odd(a) then 1 else 0) + 2 * Low(Half(a), n - 1)
  }

  function Value(a: Literal): word {
    Word32();
    Low(a, 32)
  }

  function Entry(i: byte): Literal {
    Literal(Row(i / 16)[i % 16])
  }

  /** `crc32_tab [i]` */
  function Crc32Tab(i: byte): word {
    Value(Entry(i))
  }

  // ---------------------------------------------------------------------------------------------
  // Reading literals as numbers
  // ---------------------------------------------------------------------------------------------

  lemma UnfoldHalf(a: Literal)
    ensures Half(a).u == a.u >> 1
  {
  }

  lemma UnfoldOdd(a: Literal)
    ensures Odd(a) == (a.u & 1 == 1)
  {
  }

  lemma UnfoldAdd(a: Literal, b: Literal)
    ensures Add(a, b).u == a.u ^ b.u
  {
  }

  lemma Same(a: Literal, b: Literal)
    requires a.u == b.u
    ensures a == b
  {
  }

  // Intermediate literals are parameters because the solver does not find equalities between compound
  // bit-vector terms on its own.
  lemma AddHalf(a: Literal, b: Literal, c: Literal, x: Literal, y: Literal, h: Literal, s: Literal)
    requires c == Add(a, b) && x == Half(a) && y == Half(b) && h == Half(c) && s == Add(x, y)
    ensures h == s && Odd(c) == (Odd(a) != Odd(b))
  {
    hide *;
    UnfoldHalf(a);
    UnfoldHalf(b);
    UnfoldHalf(c);
    UnfoldOdd(a);
    UnfoldOdd(b);
    UnfoldOdd(c);
    UnfoldAdd(a, b);
    UnfoldAdd(x, y);
    AddHalf32(a.u, b.u, c.u, x.u, y.u, h.u, s.u);
    Same(h, s);
  }

  lemma AddHalf32(a: bv32, b: bv32, c: bv32, x: bv32, y: bv32, h: bv32, s: bv32)
    requires c == a ^ b && x == a >> 1 && y == b >> 1 && h == c >> 1 && s == x ^ y
    ensures h == s && (c & 1 == 1) == ((a & 1 == 1) != (b & 1 == 1))
  {
  }

  lemma LowHalf(a: Literal, n: nat)
    requires n > 0
    ensures Low(a, n) / 2 == Low(Half(a), n - 1) && (Low(a, n) % 2 == 1) == Odd(a)
  {
    hide Odd, Half;
  }

  lemma LowNothing(a: Literal)
    ensures Low(a, 0) == 0
  {
  }

  lemma {:induction false} LowOfAdd(a: Literal, b: Literal, n: nat)
    ensures Low(Add(a, b), n) == Xor(Low(a, n), Low(b, n))
    decreases n
  {
    hide Add, Half, Odd, Xor, Low;
    if n == 0 {
      XorZero(0);
      LowNothing(a);
      LowNothing(b);
      LowNothing(Add(a, b));
    } else {
      AddHalf(a, b, Add(a, b), Half(a), Half(b), Half(Add(a, b)), Add(Half(a), Half(b)));
      LowOfAdd(Half(a), Half(b), n - 1);
      LowHalf(a, n);
      LowHalf(b, n);
      LowHalf(Add(a, b), n);
      XorHalf(Low(a, n), Low(b, n));
    }
  }

  lemma ValueOfAdd(a: Literal, b: Literal)
    ensures Value(Add(a, b)) == XorWord(Value(a), Value(b))
  {
    hide Add, Xor;
    LowOfAdd(a, b, 32);
  }

  function Shifted(a: Literal, n: nat): Literal
    decreases n
  {
    if n == 0 then a else Shifted(Half(a), n - 1)
  }

  lemma {:induction false} ShiftedAdd(a: Literal, m: nat, n: nat)
    ensures Shifted(a, m + n) == Shifted(Shifted(a, m), n)
    decreases m
  {
    hide Odd, Half;
    if m > 0 { ShiftedAdd(Half(a), m - 1, n); }
  }

  lemma {:induction false} LowOneMore(a: Literal, n: nat)
    ensures Low(a, n + 1) == Low(a, n) + (if Odd(Shifted(a, n)) then Pow2(n) else 0)
    decreases n
  {
    hide Odd, Half;
    if n > 0 { LowOneMore(Half(a), n - 1); }
  }

  lemma ShiftedByte(a: Literal, b: Literal)
    requires b == Shifted(a, 8)
    ensures b.u == a.u >> 8
  {
    hide Odd, Half;
    assert Shifted(a, 8) == Shifted(Half(Half(a)), 6) == Shifted(Half(Half(Half(Half(a)))), 4);
    var c, d := Half(a), Half(Half(a));
    var e, f := Half(d), Half(Half(d));
    var g, h := Half(f), Half(Half(f));
    EightHalfs(a, c, d, e, f, g, h, Half(h), b);
  }

  lemma EightHalfs(a: Literal, b: Literal, c: Literal, d: Literal, e: Literal,
                   f: Literal, g: Literal, h: Literal, i: Literal)
    requires b == Half(a) && c == Half(b) && d == Half(c) && e == Half(d)
    requires f == Half(e) && g == Half(f) && h == Half(g) && i == Half(h)
    ensures i.u == a.u >> 8
  {
    hide *;
    UnfoldHalf(a);
    UnfoldHalf(b);
    UnfoldHalf(c);
    UnfoldHalf(d);
    UnfoldHalf(e);
    UnfoldHalf(f);
    UnfoldHalf(g);
    UnfoldHalf(h);
    EightHalfs32(a.u, b.u, c.u, d.u, e.u, f.u, g.u, h.u, i.u);
  }

  lemma EightHalfs32(a: bv32, b: bv32, c: bv32, d: bv32, e: bv32, f: bv32, g: bv32, h: bv32, i: bv32)
    requires b == a >> 1 && c == b >> 1 && d == c >> 1 && e == d >> 1
    requires f == e >> 1 && g == f >> 1 && h == g >> 1 && i == h >> 1
    ensures i == a >> 8
  {
  }

  /** After 32 shifts nothing is left, so a halved literal has 31 bits. */
  lemma HalfFits(a: Literal)
    ensures Low(Half(a), 32) == Low(Half(a), 31)
  {
    hide *;
    ShiftedOnce(a, 31);
    LowOneMore(Half(a), 31);
    ShiftedAdd(a, 8, 24);
    ShiftedAdd(Shifted(a, 8), 8, 16);
    ShiftedAdd(Shifted(Shifted(a, 8), 8), 8, 8);
    var b := Shifted(a, 8);
    var c := Shifted(b, 8);
    var d := Shifted(c, 8);
    NothingLeft(a, b, c, d, Shifted(d, 8));
    OddZero(Shifted(d, 8));
  }

  lemma ShiftedOnce(a: Literal, n: nat)
    ensures Shifted(a, n + 1) == Shifted(Half(a), n)
  {
  }

  lemma NothingLeft(a: Literal, b: Literal, c: Literal, d: Literal, e: Literal)
    requires b == Shifted(a, 8) && c == Shifted(b, 8) && d == Shifted(c, 8) && e == Shifted(d, 8)
    ensures e.u == 0
  {
    hide *;
    ShiftedByte(a, b);
    ShiftedByte(b, c);
    ShiftedByte(c, d);
    ShiftedByte(d, e);
    ShiftedOut(a, b, c, d, e);
  }

  lemma ShiftedOut(a: Literal, b: Literal, c: Literal, d: Literal, e: Literal)
    requires b.u == a.u >> 8 && c.u == b.u >> 8 && d.u == c.u >> 8 && e.u == d.u >> 8
    ensures e.u == 0
  {
  }

  lemma OddZero(e: Literal)
    requires e.u == 0
    ensures !Odd(e)
  {
  }

  lemma ValueHalf(a: Literal)
    ensures Value(a) == (if Odd(a) then 1 else 0) + 2 * Value(Half(a))
  {
    hide Odd, Half;
    HalfFits(a);
  }

  function StepLiteral(poly: Literal, a: Literal): Literal {
    if Odd(a) then Add(poly, Half(a)) else Half(a)
  }

  lemma StepValue(poly: Literal, a: Literal)
    ensures Value(StepLiteral(poly, a)) == Step(Value(poly), Value(a))
  {
    hide Xor, Odd, Half, Add, Low, Value;
    ValueHalf(a);
    ValueOfAdd(poly, Half(a));
  }

  function Digit(odd: bool): nat {
    if odd then 1 else 0
  }

  lemma LowUnfold(a: Literal, n: nat)
    requires n > 0
    ensures Low(a, n) == Digit(Odd(a)) + 2 * Low(Half(a), n - 1)
  {}

  lemma Double(p: nat, x: nat)
    ensures 2 * p * x == 2 * (p * x)
  {}

  lemma {:induction false} LowConcat(a: Literal, m: nat, n: nat)
    ensures Low(a, m + n) == Low(a, m) + Pow2(m) * Low(Shifted(a, m), n)
    decreases m
  {
    hide Odd, Half, Low;
    if m == 0 {
      LowNothing(a);
    } else {
      LowConcat(Half(a), m - 1, n);
      LowUnfold(a, m + n);
      LowUnfold(a, m);
      Double(Pow2(m - 1), Low(Shifted(a, m), n));
    }
  }

  /** One of the low eight bits. */
  predicate Has(a: Literal, k: nat)
    requires k < 8
  {
    if k == 0 then a.u & 1 != 0 else if k == 1 then a.u & 2 != 0 else if k == 2 then a.u & 4 != 0
    else if k == 3 then a.u & 8 != 0 else if k == 4 then a.u & 16 != 0 else if k == 5 then a.u & 32 != 0
    else if k == 6 then a.u & 64 != 0 else a.u & 128 != 0
  }

  /** The number that the low eight bits spell, told from the bits themselves. */
  function LowByte(a: Literal): nat {
    Digit(Has(a, 0)) + 2 * Digit(Has(a, 1)) + 4 * Digit(Has(a, 2)) + 8 * Digit(Has(a, 3))
    + 16 * Digit(Has(a, 4)) + 32 * Digit(Has(a, 5)) + 64 * Digit(Has(a, 6)) + 128 * Digit(Has(a, 7))
  }

  lemma LowNibble(a: Literal, b: Literal, c: Literal, d: Literal, e: Literal, n: nat)
    requires b == Half(a) && c == Half(b) && d == Half(c) && e == Half(d)
    ensures Low(a, n + 4) == Digit(Odd(a)) + 2 * Digit(Odd(b)) + 4 * Digit(Odd(c)) + 8 * Digit(Odd(d)) + 16 * Low(e, n)
  {
    hide *;
    LowUnfold(a, n + 4);
    LowUnfold(b, n + 3);
    LowUnfold(c, n + 2);
    LowUnfold(d, n + 1);
  }

  lemma UnfoldHas(a: Literal)
    ensures Has(a, 0) == (a.u & 1 != 0) && Has(a, 1) == (a.u & 2 != 0)
    ensures Has(a, 2) == (a.u & 4 != 0) && Has(a, 3) == (a.u & 8 != 0)
    ensures Has(a, 4) == (a.u & 16 != 0) && Has(a, 5) == (a.u & 32 != 0)
    ensures Has(a, 6) == (a.u & 64 != 0) && Has(a, 7) == (a.u & 128 != 0)
  {}

  lemma OddHas(a: Literal, b: Literal, c: Literal, d: Literal, e: Literal, f: Literal, g: Literal, h: Literal)
    requires b == Half(a) && c == Half(b) && d == Half(c) && e == Half(d)
    requires f == Half(e) && g == Half(f) && h == Half(g)
    ensures Odd(a) == Has(a, 0) && Odd(b) == Has(a, 1) && Odd(c) == Has(a, 2) && Odd(d) == Has(a, 3)
    ensures Odd(e) == Has(a, 4) && Odd(f) == Has(a, 5) && Odd(g) == Has(a, 6) && Odd(h) == Has(a, 7)
  {
    hide *;
    UnfoldHalf(a);
    UnfoldHalf(b);
    UnfoldHalf(c);
    UnfoldHalf(d);
    UnfoldHalf(e);
    UnfoldHalf(f);
    UnfoldHalf(g);
    UnfoldOdd(a);
    UnfoldOdd(b);
    UnfoldOdd(c);
    UnfoldOdd(d);
    UnfoldOdd(e);
    UnfoldOdd(f);
    UnfoldOdd(g);
    UnfoldOdd(h);
    UnfoldHas(a);
    OddHas32(a.u, b.u, c.u, d.u, e.u, f.u, g.u, h.u);
  }

  lemma OddHas32(a: bv32, b: bv32, c: bv32, d: bv32, e: bv32, f: bv32, g: bv32, h: bv32)
    requires b == a >> 1 && c == b >> 1 && d == c >> 1 && e == d >> 1
    requires f == e >> 1 && g == f >> 1 && h == g >> 1
    ensures (a & 1 == 1) == (a & 1 != 0) && (b & 1 == 1) == (a & 2 != 0)
    ensures (c & 1 == 1) == (a & 4 != 0) && (d & 1 == 1) == (a & 8 != 0)
    ensures (e & 1 == 1) == (a & 16 != 0) && (f & 1 == 1) == (a & 32 != 0)
    ensures (g & 1 == 1) == (a & 64 != 0) && (h & 1 == 1) == (a & 128 != 0)
  {}

  lemma LowOfHalves(a: Literal, b: Literal, c: Literal, d: Literal,
                    e: Literal, f: Literal, g: Literal, h: Literal, i: Literal)
    requires b == Half(a) && c == Half(b) && d == Half(c) && e == Half(d)
    requires f == Half(e) && g == Half(f) && h == Half(g) && i == Half(h)
    ensures Low(a, 8) == Digit(Odd(a)) + 2 * Digit(Odd(b)) + 4 * Digit(Odd(c)) + 8 * Digit(Odd(d))
                         + 16 * Digit(Odd(e)) + 32 * Digit(Odd(f)) + 64 * Digit(Odd(g)) + 128 * Digit(Odd(h))
  {
    hide *;
    LowNibble(a, b, c, d, e, 4);
    LowNibble(e, f, g, h, i, 0);
    LowNothing(i);
  }

  lemma UnfoldLowByte(a: Literal)
    ensures LowByte(a) == Digit(Has(a, 0)) + 2 * Digit(Has(a, 1)) + 4 * Digit(Has(a, 2)) + 8 * Digit(Has(a, 3))
                          + 16 * Digit(Has(a, 4)) + 32 * Digit(Has(a, 5)) + 64 * Digit(Has(a, 6))
                          + 128 * Digit(Has(a, 7))
  {
    hide Digit, Has;
  }

  lemma LowByteIs(a: Literal)
    ensures Low(a, 8) == LowByte(a)
  {
    hide *;
    UnfoldLowByte(a);
    var b := Half(a);
    var c := Half(b);
    var d := Half(c);
    var e := Half(d);
    var f := Half(e);
    var g := Half(f);
    var h := Half(g);
    LowOfHalves(a, b, c, d, e, f, g, h, Half(h));
    OddHas(a, b, c, d, e, f, g, h);
  }

  /** A literal is read byte by byte: `b`, `c` and `d` are what is left of `a` after one, two and three of them. */
  lemma ReadBytes(a: Literal, b: Literal, c: Literal, d: Literal)
    requires b.u == a.u >> 8 && c.u == b.u >> 8 && d.u == c.u >> 8
    ensures Value(a) == LowByte(a) + 256 * (LowByte(b) + 256 * (LowByte(c) + 256 * LowByte(d)))
  {
    hide Low, Shifted, LowByte;
    Word32();
    ReadByte(a, b, 24);
    ReadByte(b, c, 16);
    ReadByte(c, d, 8);
    LowByteIs(a);
    LowByteIs(b);
    LowByteIs(c);
    LowByteIs(d);
  }

  lemma ReadByte(a: Literal, b: Literal, n: nat)
    requires b.u == a.u >> 8
    ensures Low(a, 8 + n) == Low(a, 8) + 256 * Low(b, n)
  {
    hide Low, Shifted;
    Word32();
    LowConcat(a, 8, n);
    ShiftedByte(a, Shifted(a, 8));
    Same(b, Shifted(a, 8));
  }

  lemma ValueOfPoly()
    ensures Value(POLY) == IEEE
  {
    hide Value;
    ReadBytes(POLY, Literal(0xedb883), Literal(0xedb8), Literal(0xed));
  }

  // ---------------------------------------------------------------------------------------------
  // Every entry
  // ---------------------------------------------------------------------------------------------

  predicate Right(i: byte) {
    Crc32Tab(i) == Steps(IEEE, 8, i)
  }

  /** The entry of half an index is one step further on. */
  lemma HalfEntry(i: byte)
    requires 0 < 2 * i < 256 && Right(2 * i)
    requires Entry(i) == StepLiteral(POLY, Entry(2 * i))
    ensures Right(i)
  {
    hide Entry, StepLiteral, Value, Steps;
    StepValue(POLY, Entry(2 * i));
    ValueOfPoly();
    StepsAdd(IEEE, 8, 1, 2 * i);
    StepsAdd(IEEE, 1, 8, 2 * i);
    OneStep(2 * i);
    OneStep(Steps(IEEE, 8, 2 * i));
  }

  lemma OneStep(x: word)
    ensures Steps(IEEE, 1, x) == Step(IEEE, x)
  {
    hide Step;
    assert Steps(IEEE, 1, x) == Step(IEEE, Steps(IEEE, 0, x));
  }

  lemma TopEntry()
    ensures Right(128)
  {
    hide Xor, Low;
    ValueOfPoly();
    StepsAdd(IEEE, 1, 7, 128);
    StepsOfClear(IEEE, 128, 7);
    assert Halves(128, 7) == Halves(32, 5) == Halves(8, 3) == 1;
    assert Pow2(7) == 128;
    OneStep(1);
    XorZero(IEEE);
  }

  lemma FirstEntry()
    ensures Right(0)
  {
    StepsOfZero(IEEE, 8);
    var z := Entry(0);
    assert Half(z) == z;
    LowOfZero(z, 32);
  }

  lemma {:induction false} LowOfZero(z: Literal, n: nat)
    requires Half(z) == z && !Odd(z)
    ensures Low(z, n) == 0
  {
    hide Half, Odd;
    if n > 0 { LowOfZero(z, n - 1); }
  }

  lemma Powers()
    ensures Right(1) && Right(2) && Right(4) && Right(8) && Right(16) && Right(32) && Right(64) && Right(128)
  {
    hide Right;
    PowerLiterals();
    TopEntry();
    HalfEntry(64);
    HalfEntry(32);
    HalfEntry(16);
    HalfEntry(8);
    HalfEntry(4);
    HalfEntry(2);
    HalfEntry(1);
  }

  lemma PowerLiterals()
    ensures Entry(64) == StepLiteral(POLY, Entry(128)) && Entry(32) == StepLiteral(POLY, Entry(64))
    ensures Entry(16) == StepLiteral(POLY, Entry(32)) && Entry(8) == StepLiteral(POLY, Entry(16))
    ensures Entry(4) == StepLiteral(POLY, Entry(8)) && Entry(2) == StepLiteral(POLY, Entry(4))
    ensures Entry(1) == StepLiteral(POLY, Entry(2))
  {
  }

  /** The entry at i + j is right when those at i and j are, where i is a multiple of 2^k above j. */
  lemma SumEntry(k: nat, i: byte, j: byte)
    requires i + j < 256 && j < Pow2(k) && i % Pow2(k) == 0
    requires Right(i) && Right(j)
    requires Entry(i + j) == Add(Entry(i), Entry(j))
    ensures Right(i + j)
  {
    hide Entry, Add, Value, Steps, Xor;
    assert i == Pow2(k) * (i / Pow2(k));
    XorDisjoint(i / Pow2(k), j, k);
    ValueOfAdd(Entry(i), Entry(j));
    StepsLinear(IEEE, 8, i, j);
  }

  lemma FirstRowLiterals()
    ensures Entry(3) == Add(Entry(2), Entry(1))
    ensures Entry(5) == Add(Entry(4), Entry(1))
    ensures Entry(6) == Add(Entry(4), Entry(2))
    ensures Entry(7) == Add(Entry(4), Entry(3))
    ensures Entry(9) == Add(Entry(8), Entry(1))
    ensures Entry(10) == Add(Entry(8), Entry(2))
    ensures Entry(11) == Add(Entry(8), Entry(3))
    ensures Entry(12) == Add(Entry(8), Entry(4))
    ensures Entry(13) == Add(Entry(8), Entry(5))
    ensures Entry(14) == Add(Entry(8), Entry(6))
    ensures Entry(15) == Add(Entry(8), Entry(7))
  {
  }

  lemma FirstRow()
    ensures Right(1) && Right(2) && Right(3) && Right(4) && Right(5) && Right(6) && Right(7) && Right(8)
         && Right(9) && Right(10) && Right(11) && Right(12) && Right(13) && Right(14) && Right(15)
  {
    hide Right, Entry, Add;
    Powers();
    FirstRowLiterals();
    PowerValues();
    SumEntry(1, 2, 1);
    SumEntry(2, 4, 1);
    SumEntry(2, 4, 2);
    SumEntry(2, 4, 3);
    SumEntry(3, 8, 1);
    SumEntry(3, 8, 2);
    SumEntry(3, 8, 3);
    SumEntry(3, 8, 4);
    SumEntry(3, 8, 5);
    SumEntry(3, 8, 6);
    SumEntry(3, 8, 7);
  }

  lemma FirstColumnLiterals()
    ensures Entry(48) == Add(Entry(32), Entry(16))
    ensures Entry(80) == Add(Entry(64), Entry(16))
    ensures Entry(96) == Add(Entry(64), Entry(32))
    ensures Entry(112) == Add(Entry(64), Entry(48))
    ensures Entry(144) == Add(Entry(128), Entry(16))
    ensures Entry(160) == Add(Entry(128), Entry(32))
    ensures Entry(176) == Add(Entry(128), Entry(48))
    ensures Entry(192) == Add(Entry(128), Entry(64))
    ensures Entry(208) == Add(Entry(128), Entry(80))
    ensures Entry(224) == Add(Entry(128), Entry(96))
    ensures Entry(240) == Add(Entry(128), Entry(112))
  {
  }

  lemma FirstColumn()
    ensures Right(16) && Right(32) && Right(48) && Right(64) && Right(80) && Right(96) && Right(112) && Right(128)
         && Right(144) && Right(160) && Right(176) && Right(192) && Right(208) && Right(224) && Right(240)
  {
    hide Right, Entry, Add;
    Powers();
    FirstColumnLiterals();
    PowerValues();
    SumEntry(5, 32, 16);
    SumEntry(6, 64, 16);
    SumEntry(6, 64, 32);
    SumEntry(6, 64, 48);
    SumEntry(7, 128, 16);
    SumEntry(7, 128, 32);
    SumEntry(7, 128, 48);
    SumEntry(7, 128, 64);
    SumEntry(7, 128, 80);
    SumEntry(7, 128, 96);
    SumEntry(7, 128, 112);
  }

  lemma PowerValues()
    ensures Pow2(1) == 2 && Pow2(2) == 4 && Pow2(3) == 8 && Pow2(4) == 16
    ensures Pow2(5) == 32 && Pow2(6) == 64 && Pow2(7) == 128
  {
  }

  /** The literal at `j` is the first of its row plus the one above it in the first row. */
  predicate SumsTo(row: seq<bv32>, j: nat)
    requires |row| == 16 && j < 16
  {
    row[j] == row[0] ^ ROW_0[j]
  }

  predicate Sums(row: seq<bv32>)
    requires |row| == 16
  {
    && SumsTo(row, 0) && SumsTo(row, 1) && SumsTo(row, 2) && SumsTo(row, 3)
    && SumsTo(row, 4) && SumsTo(row, 5) && SumsTo(row, 6) && SumsTo(row, 7)
    && SumsTo(row, 8) && SumsTo(row, 9) && SumsTo(row, 10) && SumsTo(row, 11)
    && SumsTo(row, 12) && SumsTo(row, 13) && SumsTo(row, 14) && SumsTo(row, 15)
  }

  lemma UpperRowsSum()
    ensures Sums(ROW_1) && Sums(ROW_2) && Sums(ROW_3) && Sums(ROW_4)
    ensures Sums(ROW_5) && Sums(ROW_6) && Sums(ROW_7)
  {}

  lemma LowerRowsSum()
    ensures Sums(ROW_8) && Sums(ROW_9) && Sums(ROW_A) && Sums(ROW_B)
    ensures Sums(ROW_C) && Sums(ROW_D) && Sums(ROW_E) && Sums(ROW_F)
  {}

  lemma SumsAt(row: seq<bv32>, j: nat)
    requires |row| == 16 && j < 16 && Sums(row)
    ensures SumsTo(row, j)
  {
    hide SumsTo;
  }

  lemma RowSums(r: nat)
    requires 0 < r < 16
    ensures Sums(Row(r))
  {
    hide Sums;
    UpperRowsSum();
    LowerRowsSum();
  }

  lemma EntrySum(r: nat, j: nat)
    requires 0 < r < 16 && j < 16
    ensures Entry(16 * r + j) == Add(Entry(16 * r), Entry(j))
  {
    hide Sums, Row;
    RowSums(r);
    SumsAt(Row(r), j);
    FirstRowIs();
    Position(r, j);
    Position(r, 0);
    Position(0, j);
  }

  lemma FirstRowIs()
    ensures Row(0) == ROW_0
  {}

  lemma Position(r: nat, j: nat)
    requires r < 16 && j < 16
    ensures (16 * r + j) / 16 == r && (16 * r + j) % 16 == j
  {}

  lemma FirstRowAt(j: byte)
    requires j < 16
    ensures Right(j)
  {
    hide Right;
    FirstEntry();
    FirstRow();
  }

  lemma FirstColumnAt(r: byte)
    requires r < 16
    ensures Right(16 * r)
  {
    hide Right;
    FirstEntry();
    FirstColumn();
  }

  lemma EveryEntry(i: byte)
    ensures Right(i)
  {
    hide Right, Entry, Add;
    var r, j: byte := i / 16, i % 16;
    FirstRowAt(j);
    FirstColumnAt(r);
    if r > 0 {
      EntrySum(r, j);
      PowerValues();
      SumEntry(4, 16 * r, j);
    }
  }

  /** The literal table holds, for every index, eight steps of the register. */
  lemma TableIsRight(i: byte)
    ensures Crc32Tab(i) == Steps(IEEE, 8, i)
  {
    hide Crc32Tab, Steps;
    EveryEntry(i);
  }
}
