/**
 The algebra of the shift register: it is linear over GF(2), it is a bijection, and feeding messages
 composes.  Every fast routine of the source is an instance of these laws.
 */
module CrcAlgebra {
  import opened Words
  import opened CrcSpec

  // ---------------------------------------------------------------------------------------------
  // Linearity and injectivity
  // ---------------------------------------------------------------------------------------------

  lemma StepLinear(poly: word, x: word, y: word)
    ensures Step(poly, XorWord(x, y)) == XorWord(Step(poly, x), Step(poly, y))
  {
    hide Xor;
    XorHalf(x, y);
    XorZero(poly);
    XorZero(x / 2);
    XorZero(Xor(x / 2, y / 2));
    XorAssoc(poly, x / 2, y / 2);
    XorSwap(x / 2, 0, poly, y / 2);
    XorZero(y / 2);
    XorZero(Xor(poly, y / 2));
    XorComm(x / 2, poly);
    XorAssoc(x / 2, poly, y / 2);
    XorSwap(poly, x / 2, poly, y / 2);
  }

  lemma {:induction false} StepsLinear(poly: word, n: nat, x: word, y: word)
    ensures Steps(poly, n, XorWord(x, y)) == XorWord(Steps(poly, n, x), Steps(poly, n, y))
  {
    hide Xor, Step;
    if n > 0 {
      StepsLinear(poly, n - 1, x, y);
      StepLinear(poly, Steps(poly, n - 1, x), Steps(poly, n - 1, y));
    }
  }

  lemma {:induction false} StepsAdd(poly: word, m: nat, n: nat, x: word)
    ensures Steps(poly, m + n, x) == Steps(poly, m, Steps(poly, n, x))
    decreases m
  {
    hide Xor, Step;
    if m > 0 { StepsAdd(poly, m - 1, n, x); }
  }

  lemma {:induction false} StepsOfZero(poly: word, n: nat)
    ensures Steps(poly, n, 0) == 0
  {
    if n > 0 { StepsOfZero(poly, n - 1); }
  }

  /** Reflected polynomials have their top bit set, so a step can be undone. */
  lemma StepInjective(poly: word, x: word, y: word)
    requires poly >= 0x8000_0000
    requires Step(poly, x) == Step(poly, y)
    ensures x == y
  {
    hide Xor;
    Word32();
    assert Pow2(31) == 0x8000_0000;
    TopBit(poly);
    NoBit(x / 2, 31);
    NoBit(y / 2, 31);
    XorBit(poly, x / 2, 31);
    XorBit(poly, y / 2, 31);
    XorComm(poly, x / 2);
    XorComm(poly, y / 2);
    if x % 2 == 1 && y % 2 == 1 { XorCancels(x / 2, y / 2, poly); }
  }

  lemma TopBit(x: word)
    requires x >= 0x8000_0000
    ensures Bit(x, 31)
  {
    Word32();
    assert 2 * Pow2(31) == Pow2(32);
    TopBitAt(x, 31);
  }

  lemma {:induction false} TopBitAt(x: nat, k: nat)
    requires Pow2(k) <= x < 2 * Pow2(k)
    ensures Bit(x, k)
    decreases k
  {
    if k > 0 { TopBitAt(x / 2, k - 1); }
  }

  lemma {:induction false} StepsInjective(poly: word, n: nat, x: word, y: word)
    requires poly >= 0x8000_0000
    requires Steps(poly, n, x) == Steps(poly, n, y)
    ensures x == y
  {
    hide Xor, Step;
    if n > 0 {
      StepInjective(poly, Steps(poly, n - 1, x), Steps(poly, n - 1, y));
      StepsInjective(poly, n - 1, x, y);
    }
  }

  // ---------------------------------------------------------------------------------------------
  // Feeding a byte at a time
  // ---------------------------------------------------------------------------------------------

  lemma {:induction false} FeedBitsConcat(poly: word, c: word, a: seq<bool>, b: seq<bool>)
    ensures FeedBits(poly, c, a + b) == FeedBits(poly, FeedBits(poly, c, a), b)
    decreases |a|
  {
    hide Xor, Step;
    if a == [] {
      assert a + b == b;
    } else {
      assert (a + b)[1..] == a[1..] + b;
      FeedBitsConcat(poly, Step(poly, XorWord(c, if a[0] then 1 else 0)), a[1..], b);
    }
  }

  lemma {:induction false} MessageBitsConcat(a: seq<byte>, b: seq<byte>)
    ensures MessageBits(a + b) == MessageBits(a) + MessageBits(b)
  {
    if a == [] {
      assert a + b == b;
    } else {
      assert (a + b)[1..] == a[1..] + b;
      MessageBitsConcat(a[1..], b);
    }
  }

  lemma FeedConcat(poly: word, c: word, a: seq<byte>, b: seq<byte>)
    ensures Feed(poly, c, a + b) == Feed(poly, Feed(poly, c, a), b)
  {
    MessageBitsConcat(a, b);
    FeedBitsConcat(poly, c, MessageBits(a), MessageBits(b));
  }

  lemma FeedNothing(poly: word, c: word)
    ensures Feed(poly, c, []) == c
  {
  }

  /** Bits that are fed one at a time may be added to the register all at once. */
  lemma {:induction false} FeedBitsAtOnce(poly: word, c: word, x: word, n: nat)
    requires x < Pow2(n)
    ensures FeedBits(poly, c, BitsOf(x, n)) == Steps(poly, n, XorWord(c, x))
    decreases n
  {
    hide Xor, Step, Pow2, BitsOf;
    FirstBit(x, n);
    if n == 0 {
      XorZero(c);
    } else {
      var low: word := x % 2;
      FeedBitsAtOnce(poly, Step(poly, XorWord(c, low)), x / 2, n - 1);
      var high: word := x - x % 2;
      SplitBit(x);
      XorAssoc(c, low, high);
      StepLinear(poly, XorWord(c, low), high);
      StepOfEven(poly, high);
      StepsAdd(poly, n - 1, 1, XorWord(c, x));
      assert Steps(poly, 1, XorWord(c, x)) == Step(poly, Steps(poly, 0, XorWord(c, x)));
    }
  }

  lemma FirstBit(x: nat, n: nat)
    requires x < Pow2(n)
    ensures n == 0 ==> x == 0 && BitsOf(x, n) == []
    ensures n > 0 ==> x / 2 < Pow2(n - 1) && BitsOf(x, n) == [x % 2 == 1] + BitsOf(x / 2, n - 1)
  {}

  lemma StepOfEven(poly: word, x: word)
    requires x % 2 == 0
    ensures Step(poly, x) == x / 2
  {
  }

  lemma FeedByte(poly: word, c: word, b: byte)
    ensures Feed(poly, c, [b]) == Steps(poly, 8, XorWord(c, b))
  {
    hide Xor, Step, Steps;
    Word32();
    assert MessageBits([b]) == BitsOf(b, 8);
    FeedBitsAtOnce(poly, c, b, 8);
  }

  lemma {:induction false} StepsOfClear(poly: word, x: word, n: nat)
    requires Halves(x, n) * Pow2(n) == x
    ensures Steps(poly, n, x) == Halves(x, n)
  {
    hide Xor, Pow2;
    if n > 0 {
      ClearLowBit(Halves(x, n), n);
      StepsOfClear(poly, x / 2, n - 1);
      StepsAdd(poly, n - 1, 1, x);
      assert Steps(poly, 1, x) == Step(poly, Steps(poly, 0, x)) == x / 2;
    }
  }

  lemma ClearLowBit(h: nat, n: nat)
    requires n > 0
    ensures h * Pow2(n) == 2 * (h * Pow2(n - 1))
  {
    var p := Pow2(n - 1);
    assert h * (2 * p) == 2 * (h * p);
  }

  /** A word whose low byte is clear moves down one byte in eight steps. */
  lemma ByteDown(poly: word, h: nat)
    requires 256 * h < 0x1_0000_0000
    ensures Steps(poly, 8, 256 * h) == h
  {
    ByteHalves(256 * h);
    Word32();
    StepsOfClear(poly, 256 * h, 8);
  }

  /** The byte-at-a-time table law, with `Steps(poly, 8, _)` in the place of the table. */
  lemma TableLaw(poly: word, c: word, b: byte)
    ensures var i: byte := XorWord(c, b) % 256;
            Feed(poly, c, [b]) == XorWord(Steps(poly, 8, i), c / 256)
  {
    hide Xor, Step, Steps;
    FeedByte(poly, c, b);
    var x := XorWord(c, b);
    var i: byte := x % 256;
    XorByte(c, b);
    XorZero(c / 256);
    assert x / 256 == c / 256;
    SplitByte(x);
    XorComm(256 * (x / 256), i);
    StepsLinear(poly, 8, i, 256 * (x / 256));
    ByteDown(poly, x / 256);
  }

  // ---------------------------------------------------------------------------------------------
  // Feeding in pieces
  // ---------------------------------------------------------------------------------------------

  lemma {:induction false} FeedLinear(poly: word, x: word, y: word, s: seq<byte>)
    ensures Feed(poly, XorWord(x, y), s) == XorWord(Steps(poly, 8 * |s|, x), Feed(poly, y, s))
    decreases |s|
  {
    hide Xor, Step, Steps;
    if s == [] {
      FeedNothing(poly, XorWord(x, y));
      FeedNothing(poly, y);
      NoSteps(poly, x);
    } else {
      var r := s[1..];
      assert s == [s[0]] + r;
      FeedConcat(poly, XorWord(x, y), [s[0]], r);
      FeedConcat(poly, y, [s[0]], r);
      FeedByte(poly, XorWord(x, y), s[0]);
      FeedByte(poly, y, s[0]);
      XorAssoc(x, y, s[0]);
      StepsLinear(poly, 8, x, XorWord(y, s[0]));
      FeedLinear(poly, Steps(poly, 8, x), Steps(poly, 8, XorWord(y, s[0])), r);
      StepsAdd(poly, 8 * |r|, 8, x);
    }
  }

  lemma NoSteps(poly: word, x: word)
    ensures Steps(poly, 0, x) == x
  {
  }

  /** The combination law: a prefix contributes its own CRC, moved over the length of the suffix. */
  lemma Combine(poly: word, c: word, a: seq<byte>, b: seq<byte>)
    ensures Feed(poly, c, a + b) == XorWord(Steps(poly, 8 * |b|, Feed(poly, c, a)), Feed(poly, 0, b))
  {
    hide Xor, Step, Steps;
    FeedConcat(poly, c, a, b);
    XorZero(Feed(poly, c, a));
    FeedLinear(poly, Feed(poly, c, a), 0, b);
  }

  function ZeroBytes(n: nat): (z: seq<byte>)
    ensures |z| == n
  {
    seq(n, _ => 0)
  }

  /** Moving a register over `n` bytes is feeding it `n` zero bytes. */
  lemma {:induction false} ZerosAreSteps(poly: word, c: word, n: nat)
    ensures Feed(poly, c, ZeroBytes(n)) == Steps(poly, 8 * n, c)
  {
    hide Xor, Step, Steps;
    if n == 0 {
      FeedNothing(poly, c);
      NoSteps(poly, c);
    } else {
      assert ZeroBytes(n) == ZeroBytes(n - 1) + [0];
      FeedConcat(poly, c, ZeroBytes(n - 1), [0]);
      ZerosAreSteps(poly, c, n - 1);
      FeedByte(poly, Steps(poly, 8 * (n - 1), c), 0);
      XorZero(Steps(poly, 8 * (n - 1), c));
      StepsAdd(poly, 8, 8 * (n - 1), c);
    }
  }

  /** One byte of a register, looked up on its own, and the rest of it one byte further on. */
  lemma PeelByte(poly: word, n: nat, c: word)
    requires n > 0
    ensures Steps(poly, 8 * n, c) == XorWord(Steps(poly, 8 * n, c % 256), Steps(poly, 8 * (n - 1), c / 256))
  {
    hide Xor, Step, Steps;
    SplitByte(c);
    XorComm(256 * (c / 256), c % 256);
    StepsLinear(poly, 8 * n, c % 256, 256 * (c / 256));
    StepsAdd(poly, 8 * (n - 1), 8, 256 * (c / 256));
    ByteDown(poly, c / 256);
  }

  lemma FeedPeel(poly: word, c: word, s: seq<byte>)
    requires s != []
    ensures var i: byte := XorWord(c, s[0]) % 256;
            Feed(poly, c, s) == XorWord(Steps(poly, 8 * |s|, i), Feed(poly, c / 256, s[1..]))
  {
    hide Xor, Step, Steps;
    var i: byte := XorWord(c, s[0]) % 256;
    assert s == [s[0]] + s[1..];
    FeedConcat(poly, c, [s[0]], s[1..]);
    TableLaw(poly, c, s[0]);
    FeedLinear(poly, Steps(poly, 8, i), c / 256, s[1..]);
    StepsAdd(poly, 8 * |s[1..]|, 8, i);
  }

  // ---------------------------------------------------------------------------------------------
  // Error detection
  // ---------------------------------------------------------------------------------------------

  /** The number whose bits are `w`, least significant first. */
  function NumberOf(w: seq<bool>): (x: nat)
    ensures x < Pow2(|w|)
  {
    if w == [] then 0 else (if w[0] then 1 else 0) + 2 * NumberOf(w[1..])
  }

  lemma {:induction false} NumberOfBits(w: seq<bool>)
    ensures BitsOf(NumberOf(w), |w|) == w
  {
    hide BitsOf, Pow2;
    FirstBit(NumberOf(w), |w|);
    if w != [] {
      NumberOfBits(w[1..]);
      assert NumberOf(w) % 2 == (if w[0] then 1 else 0) && NumberOf(w) / 2 == NumberOf(w[1..]);
      assert w == [w[0]] + w[1..];
    }
  }

  lemma {:induction false} FeedBitsInjective(poly: word, x: word, y: word, bits: seq<bool>)
    requires poly >= 0x8000_0000
    requires FeedBits(poly, x, bits) == FeedBits(poly, y, bits)
    ensures x == y
    decreases |bits|
  {
    hide Xor, Step;
    if bits != [] {
      var b: word := if bits[0] then 1 else 0;
      FeedBitsInjective(poly, Step(poly, XorWord(x, b)), Step(poly, XorWord(y, b)), bits[1..]);
      StepInjective(poly, XorWord(x, b), XorWord(y, b));
      XorCancels(x, y, b);
    }
  }

  /** Up to 32 bits leave different registers whenever they differ. */
  lemma ShortBitsInjective(poly: word, c: word, w: seq<bool>, w': seq<bool>)
    requires poly >= 0x8000_0000
    requires |w| == |w'| <= 32
    requires FeedBits(poly, c, w) == FeedBits(poly, c, w')
    ensures w == w'
  {
    hide Xor, Step, Steps;
    Pow2Grows(|w|, 32);
    Word32();
    var x, x' := NumberOf(w), NumberOf(w');
    NumberOfBits(w);
    NumberOfBits(w');
    FeedBitsAtOnce(poly, c, x, |w|);
    FeedBitsAtOnce(poly, c, x', |w|);
    StepsInjective(poly, |w|, XorWord(c, x), XorWord(c, x'));
    XorComm(c, x);
    XorComm(c, x');
    XorCancels(x, x', c);
  }

  lemma {:induction false} Pow2Grows(m: nat, n: nat)
    requires m <= n
    ensures Pow2(m) <= Pow2(n)
  {
    if m < n { Pow2Grows(m, n - 1); }
  }

  /**
   Every burst error is detected: two messages whose bit streams differ only inside one window of at
   most 32 bits, wherever it starts, have different CRCs.
   */
  lemma BurstDetected(poly: word, crc: word, m: seq<byte>, m': seq<byte>,
                      before: seq<bool>, burst: seq<bool>, burst': seq<bool>, after: seq<bool>)
    requires poly >= 0x8000_0000
    requires MessageBits(m) == before + burst + after && MessageBits(m') == before + burst' + after
    requires |burst| == |burst'| <= 32 && burst != burst'
    ensures Crc(poly, crc, m) != Crc(poly, crc, m')
  {
    hide Xor, Step, Steps;
    if Crc(poly, crc, m) == Crc(poly, crc, m') {
      var i := XorWord(crc, ONES);
      var c := FeedBits(poly, i, before);
      XorCancels(Feed(poly, i, m), Feed(poly, i, m'), ONES);
      FeedBitsConcat(poly, i, before + burst, after);
      FeedBitsConcat(poly, i, before, burst);
      FeedBitsConcat(poly, i, before + burst', after);
      FeedBitsConcat(poly, i, before, burst');
      FeedBitsInjective(poly, FeedBits(poly, c, burst), FeedBits(poly, c, burst'), after);
      ShortBitsInjective(poly, c, burst, burst');
    }
  }

  /** In particular, a change confined to any four consecutive bytes always changes the CRC. */
  lemma FourBytesDetected(poly: word, crc: word, before: seq<byte>, s: seq<byte>, s': seq<byte>, after: seq<byte>)
    requires poly >= 0x8000_0000
    requires |s| == |s'| <= 4 && s != s'
    ensures Crc(poly, crc, before + s + after) != Crc(poly, crc, before + s' + after)
  {
    hide Xor, Step, Steps, FeedBits;
    MessageBitsConcat(before + s, after);
    MessageBitsConcat(before, s);
    MessageBitsConcat(before + s', after);
    MessageBitsConcat(before, s');
    if MessageBits(s) == MessageBits(s') { MessageBitsInjective(s, s'); }
    BurstDetected(poly, crc, before + s + after, before + s' + after,
                  MessageBits(before), MessageBits(s), MessageBits(s'), MessageBits(after));
  }

  lemma {:induction false} MessageBitsInjective(s: seq<byte>, t: seq<byte>)
    requires |s| == |t| && MessageBits(s) == MessageBits(t)
    ensures s == t
  {
    if s != [] {
      assert BitsOf(s[0], 8) == MessageBits(s)[..8] == MessageBits(t)[..8] == BitsOf(t[0], 8);
      assert MessageBits(s[1..]) == MessageBits(s)[8..] == MessageBits(t)[8..] == MessageBits(t[1..]);
      Word32();
      BitsDetermine(s[0], t[0], 8);
      MessageBitsInjective(s[1..], t[1..]);
      assert s == [s[0]] + s[1..] && t == [t[0]] + t[1..];
    }
  }
}
