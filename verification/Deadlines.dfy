/**
 The arithmetic of the framerate limiter, over exact integers and fractions.

 The source keeps the ticks of a frame as an integer part and a fraction (`modf`), multiplies both by a
 frame counter, and compares with a performance counter.  Here the target rate is a fraction, so nothing
 is rounded except where the source itself truncates.
 */
module Deadlines {

  type pos = n: int | n > 0 witness 1

  /** Frames per second: num / den; not positive when the limiter is off. */
  datatype Rate = Rate(num: int, den: pos) {
    predicate Positive() { num > 0 }
  }

  predicate SameRate(a: Rate, b: Rate) {
    a.num * b.den == b.num * a.den
  }

  /** Two rates are the same if they are the same number. */
  lemma SameRateIsEquality(a: Rate, b: Rate)
    ensures SameRate(a, b) <==> a.num as real / a.den as real == b.num as real / b.den as real
  {
    var x, y := a.num as real / a.den as real, b.num as real / b.den as real;
    assert (a.num * b.den) as real == x * a.den as real * b.den as real;
    assert (b.num * a.den) as real == y * b.den as real * a.den as real;
  }

  /** The integer part of the ticks per frame at counter frequency `f`. */
  function WholeTicks(f: nat, rate: Rate): nat
    requires rate.Positive()
  {
    f * rate.den / rate.num
  }

  /** The fraction of a tick that is left, over `rate.num`. */
  function Fraction(f: nat, rate: Rate): nat
    requires rate.Positive()
  {
    f * rate.den % rate.num
  }

  lemma SameRateSameSign(a: Rate, b: Rate)
    requires a.Positive() && SameRate(a, b)
    ensures b.Positive()
  {
    Scale(1, a.num, b.den);
    Spread(a.den, b.num);
  }

  lemma Monotone(a: int, b: int, c: nat)
    requires a <= b
    ensures a * c <= b * c
  {
    assert (b - a) * c >= 0;
  }

  /** What the limiter counts from: the ticks per frame, possibly corrected, and the fraction dropped. */
  datatype Timing = Timing(start: int, ticks: int, fraction: nat, whole: nat)

  /** The deadline of frame `n` before sub-tick accumulation. */
  function Coarse(t: Timing, n: nat): int {
    n * t.ticks + t.start
  }

  /** The whole ticks that the dropped fractions have added up to by frame `n`. */
  function SubTicks(t: Timing, n: nat): int
    requires t.whole > 0
  {
    t.fraction * n / t.whole
  }

  lemma SubTicksCount(t: Timing, n: nat)
    requires t.whole > 0
    ensures SubTicks(t, n) >= 0
  {
    Monotone(0, t.fraction, n);
  }

  /** The deadline of frame `n`. */
  function Deadline(t: Timing, n: nat): int
    requires t.whole > 0
  {
    Coarse(t, n) + SubTicks(t, n)
  }

  /** Moving the start moves every deadline. */
  lemma LaterStart(t: Timing, earlier: int, n: nat)
    requires t.whole > 0
    ensures Deadline(t.(start := t.start - earlier), n) == Deadline(t, n) - earlier
  {}

  /** A timing that counts frames of `rate`, each longer by `error` ticks. */
  predicate Counts(t: Timing, f: nat, rate: Rate, error: int) {
    && rate.Positive()
    && t.ticks == WholeTicks(f, rate) + error
    && t.fraction == Fraction(f, rate)
    && t.whole == rate.num
  }

  /**
   No drift: however long it runs, splitting the frame time into whole ticks and a fraction loses
   nothing.  Frame `n` is due at start + floor(n * f / rate), plus the correction.
   */
  lemma NoDrift(t: Timing, f: nat, rate: Rate, error: int, n: nat)
    requires Counts(t, f, rate, error)
    ensures Deadline(t, n) == t.start + n * (f * rate.den) / rate.num + n * error
  {
    var p, q := f * rate.den, rate.num;
    var w, r := p / q, p % q;
    SplitProduct(n, p, q);
    assert n * t.ticks == n * w + n * error;
    assert t.fraction * n == n * r;
  }

  lemma SplitProduct(n: nat, p: nat, q: nat)
    requires q > 0
    ensures n * (p / q) + n * (p % q) / q == n * p / q
  {
    DivisionLaw(p, q);
    SplitWhole(n, p, q, p / q, p % q);
  }

  lemma DivisionLaw(p: nat, q: nat)
    requires q > 0
    ensures p == q * (p / q) + p % q
  {}

  lemma SplitWhole(n: nat, p: nat, q: nat, w: nat, r: nat)
    requires q > 0 && p == q * w + r
    ensures n * w + n * r / q == n * p / q
  {
    Distribute(n, q, w, r);
    AddMultiple(n * r, n * w, q);
  }

  lemma Distribute(n: nat, q: nat, w: nat, r: nat)
    ensures n * (q * w + r) == q * (n * w) + n * r
    ensures n * w >= 0 && n * r >= 0
  {}

  lemma AddMultiple(x: nat, k: nat, q: nat)
    requires q > 0
    ensures (q * k + x) / q == k + x / q
  {
    var d, r := x / q, x % q;
    assert x == q * d + r;
    Distribute(1, q, k + d, r);
    DivIs(q * k + x, k + d, r, q);
  }

  lemma DivIs(x: nat, d: nat, r: nat, q: nat)
    requires 0 <= r < q && x == q * d + r
    ensures x / q == d && x % q == r
  {
    QuotientUnique(q, d, r, x / q, x % q);
  }

  lemma QuotientUnique(q: nat, d: int, r: int, e: int, s: int)
    requires 0 <= r < q && 0 <= s < q && q * d + r == q * e + s
    ensures d == e && r == s
  {
    var gap := e - d;
    assert q * gap == r - s;
    Spread(q, gap);
  }

  lemma Spread(q: nat, gap: int)
    ensures gap >= 1 ==> q * gap >= q
    ensures gap <= -1 ==> q * gap + q <= 0
  {
    if gap >= 1 {
      assert q * (gap - 1) >= 0;
    } else if gap <= -1 {
      assert q * (-1 - gap) >= 0;
    }
  }

  /** Deadlines never run backward. */
  lemma DeadlinesAreOrdered(t: Timing, k: nat, n: nat)
    requires t.whole > 0 && t.ticks >= 0 && k <= n
    ensures Deadline(t, k) <= Deadline(t, n)
  {
    assert (n - k) * t.ticks >= 0;
    assert t.fraction * (n - k) >= 0;
    Ordered(t.fraction * k, t.fraction * n, t.whole);
  }

  lemma Ordered(x: nat, y: nat, q: pos)
    requires x <= y
    ensures x / q <= y / q
  {
    DivisionLaw(x, q);
    DivisionLaw(y, q);
    Spread(q, x / q - y / q);
  }

  // ---------------------------------------------------------------------------------------------
  // Skipping missed frames
  // ---------------------------------------------------------------------------------------------

  /** `modf` of a quotient: truncation toward zero. */
  function Truncated(x: int, y: int): int
    requires y > 0
  {
    if x >= 0 then x / y else -(-x / y)
  }

  /** `std::round` of x / y, for positive operands: halves round up. */
  function Rounded(x: nat, y: nat): nat
    requires y > 0
  {
    (2 * x + y) / (2 * y)
  }

  /** It stops at the whole number next to the quotient on the side of zero. */
  lemma TruncatedIs(x: int, y: int)
    requires y > 0
    ensures x >= 0 ==> 0 <= Truncated(x, y) * y <= x < Truncated(x, y) * y + y
    ensures x <= 0 ==> Truncated(x, y) * y - y < x <= Truncated(x, y) * y <= 0
  {
    var a: nat := if x >= 0 then x else -x;
    DivisionLaw(a, y);
    var q := a / y;
    assert q * y == y * q && (-q) * y == -(y * q);
    assert q * y >= 0;
  }

  /** How many missed frames it takes to skip: one, or a refresh's worth without a present interval. */
  function Boundary(presentInterval: int, refresh: nat, ticks: int): (b: nat)
    requires ticks > 0
    ensures b >= 1
  {
    if presentInterval != 0 then 1
    else
      var rounded := if refresh > 1 then Rounded(refresh, ticks) else 1;
      if rounded > 1 then rounded else 1
  }

  /**
   With a present interval that is one frame.  Without, it is the number of frames that comes nearest to a
   refresh, if a refresh takes at least half a frame; of two that are equally near, the greater.
   */
  lemma BoundaryIsARefresh(presentInterval: int, refresh: nat, ticks: int)
    requires ticks > 0
    ensures var b := Boundary(presentInterval, refresh, ticks);
            && (presentInterval != 0 ==> b == 1)
            && (presentInterval == 0 && refresh > 1 && 2 * refresh >= ticks ==>
                  -ticks < 2 * (b * ticks - refresh) <= ticks)
            && (presentInterval == 0 && (refresh <= 1 || 2 * refresh < ticks) ==> b == 1)
  {
    var x, y := 2 * refresh + ticks, 2 * ticks;
    var q := x / y;
    DivisionLaw(x, y);
    assert y * q == 2 * (q * ticks);
    Spread(y, q);
  }

  /** How many whole frames `time` is past the deadline `next`. */
  function Missed(next: int, ticks: int, time: int): int
    requires ticks > 0
  {
    Truncated(time - next, ticks)
  }

  /** How far the frame counter is advanced beyond the frame that is due. */
  function Skipped(next: int, ticks: int, boundary: nat, time: int): (k: nat)
    requires ticks > 0 && boundary >= 1
  {
    var missed := Missed(next, ticks, time);
    if missed >= boundary then missed - missed % boundary else 0
  }

  /**
   The number of the frame that arrives at `arrived`, after `count` frames: the next one, and with a
   boundary above zero the missed ones that are skipped.
   */
  function NextFrame(t: Timing, count: nat, boundary: nat, arrived: int): nat
    requires boundary > 0 ==> t.ticks > 0
  {
    count + 1 + (if boundary > 0 then Skipped(Coarse(t, count + 1), t.ticks, boundary, arrived) else 0)
  }

  /** When that frame is due. */
  function NextDue(t: Timing, count: nat, boundary: nat, arrived: int): int
    requires (boundary > 0 ==> t.ticks > 0) && t.whole > 0
  {
    Deadline(t, NextFrame(t, count, boundary, arrived))
  }

  /**
   Skipping bounds lateness and keeps phase: afterwards the limiter is less than `boundary` frames late,
   it is never made early, and the counter has moved by a multiple of `boundary`.
   */
  lemma SkipBoundsLateness(next: int, ticks: int, boundary: nat, time: int)
    requires ticks > 0 && boundary >= 1
    ensures var k := Skipped(next, ticks, boundary, time);
            && time - (next + k * ticks) < boundary * ticks
            && (k > 0 ==> time - (next + k * ticks) >= 0 && k >= boundary)
            && (k > 0 <==> time - next >= boundary * ticks)
            && k % boundary == 0
  {
    hide Skipped;
    var late := time - next;
    if late < 0 {
      EarlySkipsNothing(next, ticks, boundary, time);
      Scale(1, boundary, ticks);
    } else {
      LateSkips(next, ticks, boundary, time);
      DivisionLaw(late, ticks);
      LateBy(late / ticks, late % ticks, ticks, boundary);
    }
  }

  /**
   The lateness of the next frame: against the deadline before sub-ticks it is below `boundary` frames, a
   skip never makes it negative, and a skip leaves the frame at the same place within the refresh.
   */
  lemma NextFrameIsOnTime(t: Timing, count: nat, boundary: pos, arrived: int)
    requires t.ticks > 0
    ensures var n := NextFrame(t, count, boundary, arrived);
            && arrived - Coarse(t, n) < boundary * t.ticks
            && (n > count + 1 ==> Coarse(t, n) <= arrived)
            && (n > count + 1 <==> arrived - Coarse(t, count + 1) >= boundary * t.ticks)
            && n >= count + 1 && (n - (count + 1)) % boundary == 0
  {
    hide Skipped;
    var next, n := Coarse(t, count + 1), NextFrame(t, count, boundary, arrived);
    SkipBoundsLateness(next, t.ticks, boundary, arrived);
    assert (n - (count + 1)) * t.ticks == n * t.ticks - (count + 1) * t.ticks;
  }

  /**
   So a skip keeps the phase of the refresh, without a present interval: it moves the deadline on by `m` times
   a number of frames that is a refresh to within half a frame.
   */
  lemma SkipKeepsRefreshPhase(t: Timing, count: nat, refresh: nat, arrived: int) returns (m: nat)
    requires t.ticks > 0 && refresh > 1 && 2 * refresh >= t.ticks
    ensures var n := NextFrame(t, count, Boundary(0, refresh, t.ticks), arrived);
            var moved := Coarse(t, n) - Coarse(t, count + 1);
            && moved >= 0 && (n > count + 1 ==> m > 0 && Coarse(t, n) <= arrived)
            && -(m * t.ticks) <= 2 * (moved - m * refresh) <= m * t.ticks
  {
    hide NextFrame, Boundary;
    var b := Boundary(0, refresh, t.ticks);
    var n := NextFrame(t, count, b, arrived);
    NextFrameIsOnTime(t, count, b, arrived);
    BoundaryIsARefresh(0, refresh, t.ticks);
    var k := n - (count + 1);
    m := k / b;
    DivisionLaw(k, b);
    assert Coarse(t, n) - Coarse(t, count + 1) == k * t.ticks;
    InPhaseWithin(m, b, t.ticks, refresh);
  }

  lemma InPhaseWithin(m: nat, b: nat, ticks: int, refresh: nat)
    requires ticks > 0
    requires -ticks < 2 * (b * ticks - refresh) <= ticks
    ensures b * m * ticks >= 0
    ensures -(m * ticks) <= 2 * (b * m * ticks - m * refresh) <= m * ticks
  {
    var e := b * ticks - refresh;
    assert b * m * ticks == m * (b * ticks);
    assert m * (b * ticks) - m * refresh == m * e;
    assert 2 * (m * e) == m * (2 * e);
    Monotone(2 * e, ticks, m);
    Monotone(-ticks, 2 * e, m);
    Monotone(0, b * ticks, m);
  }

  /**
   The skip test compares with the deadline before sub-tick accumulation, so a frame that comes in before
   its own deadline is safe from it exactly as long as the sub-ticks have not added up to the boundary.
   */
  lemma PunctualFramesAreKept(t: Timing, count: nat, boundary: pos)
    requires t.ticks > 0 && t.whole > 0
    ensures (forall now :: now < Deadline(t, count + 1) ==> NextFrame(t, count, boundary, now) == count + 1)
       <==> SubTicks(t, count + 1) <= boundary * t.ticks
  {
    hide Skipped, Coarse, SubTicks;
    var next := Coarse(t, count + 1);
    forall now: int
      ensures Skipped(next, t.ticks, boundary, now) == 0 <==> now - next < boundary * t.ticks
    {
      SkipBoundsLateness(next, t.ticks, boundary, now);
    }
    var last := Deadline(t, count + 1) - 1;
    assert NextFrame(t, count, boundary, last) == count + 1 <==> last - next < boundary * t.ticks;
  }

  /** At 60 frames a second on a 10 MHz counter that is over after 250001 frames, or seventy minutes. */
  lemma SkipsPunctualFrame()
    ensures var t, count := Timing(0, 166666, 40, 60), 250000;
            && Counts(t, 10_000_000, Rate(60, 1), 0)
            && NextFrame(t, count, 1, Deadline(t, count + 1) - 1) == count + 2
  {}

  /**
   And when the sub-ticks have added up to one frame more, every frame is skipped, however quickly it
   follows the return of the one before: exactly then.
   */
  lemma EveryFrameIsSkipped(t: Timing, count: nat, boundary: pos)
    requires t.ticks > 0 && t.whole > 0
    ensures (forall arrived :: arrived >= Deadline(t, count) ==> NextFrame(t, count, boundary, arrived) > count + 1)
       <==> SubTicks(t, count) >= (boundary + 1) * t.ticks
  {
    hide Skipped, Coarse, SubTicks;
    var next := Coarse(t, count + 1);
    NextCoarse(t, count);
    forall arrived: int
      ensures NextFrame(t, count, boundary, arrived) > count + 1 <==> arrived - next >= boundary * t.ticks
    {
      SkipBoundsLateness(next, t.ticks, boundary, arrived);
    }
    assert (boundary + 1) * t.ticks == boundary * t.ticks + t.ticks;
    var first := Deadline(t, count);
    assert NextFrame(t, count, boundary, first) > count + 1 <==> first - next >= boundary * t.ticks;
  }

  lemma NextCoarse(t: Timing, count: nat)
    ensures Coarse(t, count + 1) == Coarse(t, count) + t.ticks
  {}

  /** It does not pass by itself: sub-ticks only add up, so on the same schedule it is so for every later frame. */
  lemma SkippingLasts(t: Timing, count: nat, later: nat, boundary: pos)
    requires t.ticks > 0 && t.whole > 0 && count <= later
    requires SubTicks(t, count) >= (boundary + 1) * t.ticks
    ensures forall arrived :: arrived >= Deadline(t, later) ==> NextFrame(t, later, boundary, arrived) > later + 1
  {
    hide NextFrame;
    Monotone(count, later, t.fraction);
    Ordered(t.fraction * count, t.fraction * later, t.whole);
    EveryFrameIsSkipped(t, later, boundary);
  }

  lemma EarlySkipsNothing(next: int, ticks: int, boundary: nat, time: int)
    requires ticks > 0 && boundary >= 1 && time < next
    ensures Skipped(next, ticks, boundary, time) == 0
  {
    assert Missed(next, ticks, time) <= 0;
  }

  lemma LateSkips(next: int, ticks: int, boundary: nat, time: int)
    requires ticks > 0 && boundary >= 1 && time >= next
    ensures var d := (time - next) / ticks;
            Skipped(next, ticks, boundary, time) == if d >= boundary then d - d % boundary else 0
  {}

  /** The same, of a lateness of `d` frames and `r` ticks. */
  lemma LateBy(d: nat, r: nat, ticks: int, boundary: nat)
    requires 0 <= r < ticks && boundary >= 1
    ensures var k := if d >= boundary then d - d % boundary else 0;
            && d * ticks + r - k * ticks < boundary * ticks
            && d * ticks + r - k * ticks >= 0
            && (k > 0 ==> k >= boundary)
            && (k > 0 <==> d * ticks + r >= boundary * ticks)
            && k % boundary == 0
  {
    if d >= boundary {
      var m := d % boundary;
      ModOfMultiple(d, boundary);
      Split(d, m, ticks);
      Scale(m, boundary - 1, ticks);
      Scale(boundary, d, ticks);
    } else {
      Scale(d, boundary - 1, ticks);
    }
  }

  lemma Split(d: nat, m: nat, c: int)
    ensures d * c - (d - m) * c == m * c
  {}

  lemma Scale(a: int, b: int, c: int)
    requires 0 <= a <= b && c > 0
    ensures 0 <= a * c <= b * c == (b + 1) * c - c
  {
    assert (b - a) * c >= 0;
  }

  lemma ModOfMultiple(d: nat, b: nat)
    requires b > 0
    ensures (d - d % b) % b == 0 && (d >= b ==> d - d % b >= b)
  {
    var q := d / b;
    assert d - d % b == b * q;
    MultipleMod(b, q);
    if d >= b {
      QuotientPositive(d, b);
      Scale(1, q, b);
    }
  }

  lemma QuotientPositive(d: nat, b: nat)
    requires d >= b > 0
    ensures d / b >= 1
  {}

  lemma MultipleMod(b: nat, q: nat)
    requires b > 0
    ensures b * q % b == 0
  {
    DivIs(b * q, q, 0, b);
  }
}
