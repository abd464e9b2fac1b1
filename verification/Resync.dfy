/**
 Locking the limiter on to the display's refresh: moving a moment forward by whole refreshes, the scan-out
 position measured by the resync thread, and the moment the limiter restarts from.
 */
module Resync {
  import opened Deadlines

  // ---------------------------------------------------------------------------------------------
  // Moving forward by whole refreshes
  // ---------------------------------------------------------------------------------------------

  /**
   `to` is `from` moved forward by the fewest whole periods that bring it to `limit`; a moment that is
   already there stays.
   */
  ghost predicate InPhase(from: int, to: int, limit: int, period: pos) {
    && from <= to
    && (to - from) % period == 0
    && (if from >= limit then to == from else limit <= to < limit + period)
  }

  /** There is only one such moment. */
  lemma InPhaseIsUnique(from: int, a: int, b: int, limit: int, period: pos)
    requires InPhase(from, a, limit, period) && InPhase(from, b, limit, period)
    ensures a == b
  {
    if from < limit {
      DivisionLaw(a - from, period);
      DivisionLaw(b - from, period);
      QuotientUnique(period, (a - from) / period, b - limit, (b - from) / period, a - limit);
    }
  }

  lemma OneMorePeriod(x: nat, period: pos)
    ensures (x + period) % period == x % period
  {
    DivisionLaw(x, period);
    Distribute(1, period, x / period + 1, x % period);
    DivIs(x + period, x / period + 1, x % period, period);
  }

  /** How far past `limit` a moment ends up, told from the moment and the limit alone. */
  function Overshoot(from: int, limit: int, period: pos): (r: nat)
    ensures from < limit ==> r < period
  {
    if from >= limit then from - limit else (from - limit) % period
  }

  lemma OvershootIs(from: int, to: int, limit: int, period: pos)
    requires InPhase(from, to, limit, period)
    ensures to - limit == Overshoot(from, limit, period)
  {
    if from < limit {
      var short := limit - from;
      DivisionLaw(to - from, period);
      NegativeMod(short, (to - from) / period, to - limit, period);
    }
  }

  lemma NegativeMod(short: int, k: int, r: nat, period: pos)
    requires r < period && short + r == period * k
    ensures -short % period == r
  {
    var e, s := -short / period, -short % period;
    assert -short == period * e + s;
    assert period * e + s == period * -k + r;
    QuotientUnique(period, e, s, -k, r);
  }

  // ---------------------------------------------------------------------------------------------
  // The nearer end of the frame
  // ---------------------------------------------------------------------------------------------

  /** How many scanlines to move from scanline `target` to a frame boundary. */
  function Shift(target: int, lines: nat): int {
    if target < lines / 2 then -target else lines - target
  }

  function Magnitude(x: int): nat {
    if x < 0 then -x else x
  }

  /** A shift by the smaller number of lines. */
  predicate Nearest(target: nat, lines: nat) {
    Magnitude(Shift(target, lines)) <= target && Magnitude(Shift(target, lines)) <= lines - target
  }

  /**
   The shift always ends on scanline zero.  It is to the nearer boundary unless the frame has an odd
   number of lines and the target is the middle one, which no accepted measurement makes it.
   */
  lemma ShiftIsNearest(target: nat, lines: nat)
    requires target < lines
    ensures target + Shift(target, lines) == 0 || target + Shift(target, lines) == lines
    ensures Nearest(target, lines) <==> !(lines % 2 == 1 && target == lines / 2)
    ensures lines >= 2 * LINES_BEFORE && NearBoundary(target, lines) ==>
              Nearest(target, lines) && -LINES_AFTER <= Shift(target, lines) <= LINES_BEFORE
  {}

  // ---------------------------------------------------------------------------------------------
  // Where the limiter restarts
  // ---------------------------------------------------------------------------------------------

  /** The earliest moment the measured scan-out may be moved forward to: 15% of a refresh before `next`. */
  function Earliest(next: int, refresh: nat): int {
    next - refresh / 20 * 3
  }

  /** The restart moment, from the measured moment moved forward, the shift and the configured offset. */
  function Restart(t0: int, target: int, lines: nat, perLine: nat, tL: int): int {
    t0 + Shift(target, lines) * perLine + tL
  }

  /**
   "Back 15%, no more": the bound is enforced before the shift to a frame boundary, so the restart moment
   keeps it exactly when the shift and the offset do not use up what the forward move overshot.
   */
  lemma SlidesBackAtMost(t0: int, moved: int, next: int, refresh: pos, target: nat, lines: nat, perLine: nat, tL: int)
    requires InPhase(t0, moved, Earliest(next, refresh), refresh)
    ensures Restart(moved, target, lines, perLine, tL) >= Earliest(next, refresh)
       <==> Overshoot(t0, Earliest(next, refresh), refresh) + Shift(target, lines) * perLine + tL >= 0
  {
    OvershootIs(t0, moved, Earliest(next, refresh), refresh);
  }

  /**
   Restarts before the bound, after a measurement that is accepted: the beam, on a display of 1125 lines of
   148 ticks and a refresh of 166666, is read twice on line 5.  Without an offset the restart is five lines
   before the bound; with the furthest offset that the control panel sets, 380 lines.
   */
  lemma SlidesBackFurther()
    ensures var began, before, after, next, offset := 1665730, 1665740, 1665760, 1690749, -375;
            var perLine, refresh, lines := 148, 166666, 1125;
            var t0, tL := after - (after - before) / 2, refresh / lines * offset;
            && BeamAt(0, before, perLine, lines) == BeamAt(0, after, perLine, lines) == 5
            && Accepted(began, before, after, 5, lines, perLine) && Midpoint(5, 5, lines) == 5
            && Earliest(next, refresh) == t0 && InPhase(t0, t0, Earliest(next, refresh), refresh)
            && Restart(t0, 5, lines, perLine, 0) == Earliest(next, refresh) - 5 * perLine
            && Restart(t0, 5, lines, perLine, tL) == Earliest(next, refresh) - 380 * perLine
  {}

  /**
   How early and how late a restart can be: for any target within half a frame of the bounds of the forward
   move, and for an accepted one within five lines and forty-nine.
   */
  lemma RestartIsBounded(t0: int, moved: int, next: int, refresh: pos, target: nat, lines: nat, perLine: nat, tL: int)
    requires target < lines
    requires InPhase(t0, moved, Earliest(next, refresh), refresh)
    ensures var s, e := Restart(moved, target, lines, perLine, tL), Earliest(next, refresh);
            && 0 <= 3 * refresh - 20 * (next - e) < 60
            && s >= e - lines / 2 * perLine + tL
            && (t0 < e ==> s < e + refresh + (lines + 1) / 2 * perLine + tL)
            && (lines >= 2 * LINES_BEFORE && NearBoundary(target, lines) ==>
                  s >= e - LINES_AFTER * perLine + tL && (t0 < e ==> s < e + refresh + LINES_BEFORE * perLine + tL))
  {
    ShiftIsBounded(target, lines, lines / 2, perLine);
    ShiftIsNearest(target, lines);
    if lines >= 2 * LINES_BEFORE && NearBoundary(target, lines) {
      Monotone(-LINES_AFTER, Shift(target, lines), perLine);
      Monotone(Shift(target, lines), LINES_BEFORE, perLine);
    }
  }

  lemma ShiftIsBounded(target: nat, lines: nat, half: nat, perLine: nat)
    requires target < lines && half == lines / 2
    ensures Shift(target, lines) * perLine >= -(half * perLine)
    ensures Shift(target, lines) * perLine <= (lines + 1) / 2 * perLine
  {
    Monotone(0 - half, Shift(target, lines), perLine);
    Monotone(Shift(target, lines), (lines + 1) / 2, perLine);
  }

  // ---------------------------------------------------------------------------------------------
  // Measuring the beam
  // ---------------------------------------------------------------------------------------------

  /** Two readings may be at most this many scanlines' time apart. */
  const MARGIN: nat := 16

  /** The scanline halfway between two readings, the second possibly in the next frame. */
  function Midpoint(s0: nat, s1: nat, lines: pos): nat {
    (s0 + (if s1 < s0 then s1 + lines else s1)) / 2 % lines
  }

  /**
   The measurements that the resync thread accepts: both intervals at most `MARGIN` lines long, and the
   second reading at most five lines past a frame boundary or thirty-two before the next.
   */
  predicate Accepted(began: int, before: int, after: int, line1: nat, lines: pos, perLine: pos) {
    && (after - before) / perLine <= MARGIN && (before - began) / perLine <= MARGIN
    && NearEdge(line1, lines)
  }

  predicate NearEdge(line1: nat, lines: pos) {
    line1 <= MARGIN / 3 || (lines >= 2 * MARGIN && line1 >= lines - 2 * MARGIN)
  }

  /** In numbers: less than seventeen lines' time each, and a line from 0 to 5 or one of the last 32. */
  lemma AcceptedIs(began: int, before: int, after: int, line1: nat, lines: pos, perLine: pos)
    requires began <= before <= after && line1 < lines
    ensures Accepted(began, before, after, line1, lines, perLine)
       <==> && after - before < 17 * perLine && before - began < 17 * perLine
            && (line1 <= 5 || (lines >= 32 && lines - line1 <= 32))
  {
    LinesPassed(after - before, perLine);
    LinesPassed(before - began, perLine);
  }

  lemma LinesPassed(x: nat, perLine: pos)
    ensures x / perLine <= MARGIN <==> x < 17 * perLine
  {
    var q := x / perLine;
    DivisionLaw(x, perLine);
    Spread(perLine, q - 17);
    Spread(perLine, q - 16);
    assert perLine * (q - 17) == perLine * q - 17 * perLine && perLine * (q - 16) == perLine * q - 16 * perLine;
  }

  /** Where an accepted target lies: a few lines past the boundary, or not too many before it. */
  const LINES_AFTER: int := 5
  const LINES_BEFORE: int := 49

  predicate NearBoundary(target: nat, lines: nat) {
    target <= LINES_AFTER || target >= lines - LINES_BEFORE
  }

  /** A beam that passes frame boundary `origin` and moves one line every `perLine` ticks. */
  function BeamAt(origin: int, time: int, perLine: pos, lines: pos): nat
    requires origin <= time
  {
    (time - origin) / perLine % lines
  }

  /** How far `time` is past a frame boundary of that beam, if it is `frames` frames after `origin`. */
  function PastBoundary(origin: int, frames: int, time: int, perLine: pos, lines: pos): int {
    time - (origin + frames * (lines * perLine))
  }

  /** The line count since `origin`, of the midpoint of two readings less than a frame apart. */
  lemma MidpointIsHalfway(l0: nat, l1: nat, lines: pos)
    requires l0 <= l1 < l0 + lines
    ensures Midpoint(l0 % lines, l1 % lines, lines) == (l0 + l1) / 2 % lines
  {
    var q, s, d := l0 / lines, l0 % lines, l1 - l0;
    DivisionLaw(l0, lines);
    SecondReading(q, s, d, lines);
    ModOfSum(q, s + d / 2, lines);
    HalfOfSum(lines * q, s, d);
  }

  lemma SecondReading(q: nat, s: nat, d: nat, lines: pos)
    requires s < lines && d < lines
    ensures (lines * q + s + d) % lines == if s + d < lines then s + d else s + d - lines
  {
    ModOfSum(q, s + d, lines);
    if s + d >= lines {
      ModOfSum(1, s + d - lines, lines);
    }
    SmallMod(if s + d < lines then s + d else s + d - lines, lines);
  }

  lemma SmallMod(x: nat, lines: pos)
    requires x < lines
    ensures x % lines == x
  {}

  lemma HalfOfSum(base: nat, s: nat, d: nat)
    ensures (base + s + (base + s + d)) / 2 == base + (s + d / 2)
    ensures (s + (s + d)) / 2 == s + d / 2
  {}

  lemma ModOfSum(q: nat, x: nat, lines: pos)
    ensures (lines * q + x) % lines == x % lines
  {
    DivisionLaw(x, lines);
    Distribute(1, lines, q + x / lines, x % lines);
    DivIs(lines * q + x, q + x / lines, x % lines, lines);
  }

  /**
   A moment at or after the middle of two readings, and the line taken for it, agree to one and a half lines,
   but for how far the moment is past the middle.
   */
  lemma MidpointInTime(x0: nat, x1: nat, l0: nat, l1: nat, x: int, perLine: pos)
    requires OnLine(x0, l0, perLine) && OnLine(x1, l1, perLine) && 2 * x >= x0 + x1
    ensures 0 <= 2 * (x - (l0 + l1) / 2 * perLine) <= (2 * x - x0 - x1) + 3 * perLine - 2
  {
    var l := (l0 + l1) / 2;
    var odd := l0 + l1 - 2 * l;
    assert perLine * l0 + perLine * l1 == perLine * (2 * l + odd) == 2 * (l * perLine) + perLine * odd;
    assert odd == 0 || odd == 1;
  }

  /** Line `l` lasts from `l * perLine`. */
  predicate OnLine(x: nat, l: nat, perLine: pos) {
    perLine * l <= x < perLine * l + perLine
  }

  lemma IsOnLine(x: nat, perLine: pos)
    ensures OnLine(x, x / perLine, perLine)
  {
    DivisionLaw(x, perLine);
  }

  /**
   One attempt of the resync thread.  The times are taken after each reading returns: the first reading was
   made between `began` and `before`, the second between `before` and `after`.
   */
  datatype Measurement = Measurement(began: int, read0: int, before: int, read1: int, after: int) {
    predicate Ordered(origin: int) {
      origin <= began <= read0 <= before <= read1 <= after
    }

    /** Both intervals are within the margin. */
    predicate Quick(perLine: pos) {
      (after - before) / perLine <= MARGIN && (before - began) / perLine <= MARGIN
    }

    /** The moment taken for the middle of the readings. */
    function Moment(): int {
      after - (after - before) / 2
    }

    /** How long after the readings the times were taken, in all. */
    function Delay(): int {
      (before - read0) + (after - read1)
    }

    /** The line taken for that moment. */
    function Target(origin: int, perLine: pos, lines: pos): nat
      requires Ordered(origin)
    {
      Midpoint(BeamAt(origin, read0, perLine, lines), BeamAt(origin, read1, perLine, lines), lines)
    }

    /** The readings are less than a frame apart, on any display of more lines than two intervals can take. */
    predicate Short(lines: pos) {
      lines > 2 * MARGIN + 2 || (Delay() == 0 && lines > MARGIN + 1)
    }
  }

  /**
   Two readings of the beam inside the accepted margin put the restart after a real frame boundary, whatever
   lines the beam was on: within one and a half lines and half the delay of the two readings, which comes to
   less than eighteen and a half lines.  The wrap of the second reading, the halving, the remainder and the
   choice of boundary cancel out.
   */
  lemma LocksOn(m: Measurement, origin: int, perLine: pos, lines: pos) returns (frames: nat)
    requires m.Ordered(origin) && m.Quick(perLine) && m.Short(lines)
    ensures var s := Restart(m.Moment(), m.Target(origin, perLine, lines), lines, perLine, 0);
            var past := PastBoundary(origin, frames, s, perLine, lines);
            0 <= 2 * past < 3 * perLine + m.Delay() && 2 * past < 37 * perLine
  {
    hide Shift, Restart, PastBoundary, Midpoint, OnLine;
    var x0, x1 := m.read0 - origin, m.read1 - origin;
    DelayIsShort(m, perLine);
    if m.Delay() == 0 {
      LinesApart(x0, x1, perLine, lines, MARGIN);
    } else {
      TwoIntervals(m.began, m.read0, m.before, m.read1, m.after, perLine);
      LinesApart(x0, x1, perLine, lines, 2 * MARGIN + 1);
    }
    frames := Lock(origin, x0, x1, x0 / perLine, x1 / perLine, m.Moment() - origin, perLine, lines);
  }

  lemma LinesApart(x0: nat, x1: nat, perLine: pos, lines: pos, most: nat)
    requires x0 <= x1 && (x1 - x0) / perLine <= most && most + 1 < lines
    ensures OnLine(x0, x0 / perLine, perLine) && OnLine(x1, x1 / perLine, perLine)
    ensures x0 / perLine <= x1 / perLine < x0 / perLine + lines
  {
    hide *;
    IsOnLine(x0, perLine);
    IsOnLine(x1, perLine);
    FewLines(x0, x1, x0 / perLine, x1 / perLine, perLine, most);
  }

  lemma DelayIsShort(m: Measurement, perLine: pos)
    requires m.Ordered(m.began) && m.Quick(perLine)
    ensures m.Delay() + 3 * perLine < 37 * perLine
  {
    ShortInterval(m.after - m.before, perLine);
    ShortInterval(m.before - m.began, perLine);
  }

  lemma ShortInterval(x: nat, perLine: pos)
    requires x / perLine <= MARGIN
    ensures x < 17 * perLine
  {
    DivisionLaw(x, perLine);
    Monotone(x / perLine, MARGIN, perLine);
  }

  /** The same, of readings on lines `l0` and `l1`, and a moment `x` at or after their middle. */
  lemma Lock(origin: int, x0: nat, x1: nat, l0: nat, l1: nat, x: int, perLine: pos, lines: pos) returns (frames: nat)
    requires OnLine(x0, l0, perLine) && OnLine(x1, l1, perLine)
    requires l0 <= l1 < l0 + lines && 2 * x >= x0 + x1
    ensures var target := Midpoint(l0 % lines, l1 % lines, lines);
            var past := PastBoundary(origin, frames, Restart(origin + x, target, lines, perLine, 0), perLine, lines);
            0 <= 2 * past <= (2 * x - x0 - x1) + 3 * perLine - 2
  {
    hide *;
    MidpointIsHalfway(l0, l1, lines);
    MidpointInTime(x0, x1, l0, l1, x, perLine);
    var l := (l0 + l1) / 2;
    DivisionLaw(l, lines);
    frames := BoundaryNear(origin, x, l, l / lines, l % lines, lines, perLine);
  }

  /** A measurement that is accepted and locks seventeen lines late, for all the delay it allows. */
  lemma LocksLate()
    ensures var m := Measurement(163000, 163000, 165400, 165401, 167900);
            var perLine, lines := 148, 1125;
            var s := Restart(m.Moment(), 1109, lines, perLine, 0);
            && m.Ordered(0) && Accepted(m.began, m.before, m.after, BeamAt(0, m.read1, perLine, lines), lines, perLine)
            && m.Target(0, perLine, lines) == 1109 && PastBoundary(0, 1, s, perLine, lines) == 2518
  {
    assert BeamAt(0, 163000, 148, 1125) == 1101 && BeamAt(0, 165401, 148, 1125) == 1117;
    assert Midpoint(1101, 1117, 1125) == 1109;
  }

  /** The boundary that the shift from line `l` since `origin` leads to. */
  lemma BoundaryNear(origin: int, x: int, l: nat, q: nat, target: nat, lines: pos, perLine: pos) returns (frames: nat)
    requires l == lines * q + target && target < lines
    ensures PastBoundary(origin, frames, Restart(origin + x, target, lines, perLine, 0), perLine, lines)
         == x - l * perLine
  {
    var d := Shift(target, lines);
    frames := if target + d == 0 then q else q + 1;
    ShiftedLines(l, d, frames, lines, perLine);
  }

  lemma FewLines(x0: nat, x1: nat, l0: nat, l1: nat, perLine: pos, most: nat)
    requires x0 <= x1 && (x1 - x0) / perLine <= most
    requires OnLine(x0, l0, perLine) && OnLine(x1, l1, perLine)
    ensures l0 <= l1 <= l0 + most + 1
  {
    DivisionLaw(x1 - x0, perLine);
    var gap, whole := l1 - l0, (x1 - x0) / perLine;
    var over := gap - whole;
    assert perLine * over == perLine * l1 - perLine * l0 - perLine * whole;
    assert perLine * gap == perLine * l1 - perLine * l0;
    Spread(perLine, over - 1);
    Spread(perLine, gap);
  }

  lemma ShiftedLines(l: nat, d: int, frames: nat, lines: pos, perLine: pos)
    requires l + d == lines * frames
    ensures l * perLine + d * perLine == frames * (lines * perLine)
  {
    assert l * perLine + d * perLine == (l + d) * perLine;
  }

  /** The target lies at most half the distance of the readings, rounded up, before the second one. */
  lemma TargetOf(l0: nat, l1: nat, lines: pos, apart: nat)
    requires l0 <= l1 <= l0 + apart && apart < lines && NearEdge(l1 % lines, lines)
    ensures var target := Midpoint(l0 % lines, l1 % lines, lines);
            target < lines && (target <= LINES_AFTER || target >= lines - 2 * MARGIN - (apart + 1) / 2)
  {
    hide Midpoint, NearEdge;
    MidpointIsHalfway(l0, l1, lines);
    DivisionLaw(l1, lines);
    BeforeSecond((l0 + l1) / 2, l1 - (l0 + l1) / 2, l1 / lines, l1 % lines, lines);
  }

  lemma BeforeSecond(half: nat, e: nat, q: nat, s: nat, lines: pos)
    requires half + e == lines * q + s && s < lines && e < lines && NearEdge(s, lines)
    ensures half % lines < lines
    ensures half % lines <= LINES_AFTER || half % lines >= lines - 2 * MARGIN - e
  {
    if e <= s {
      DivIs(half, q, s - e, lines);
    } else {
      Spread(lines, q);
      assert lines * (q - 1) == lines * q - lines;
      DivIs(half, q - 1, lines + s - e, lines);
    }
  }

  /** The same of readings at two moments, at most `most` lines' time apart. */
  lemma TargetOfReadings(x0: nat, x1: nat, perLine: pos, lines: pos, most: nat)
    requires x0 <= x1 && (x1 - x0) / perLine <= most && most + 1 < lines
    requires NearEdge(x1 / perLine % lines, lines)
    ensures var target := Midpoint(x0 / perLine % lines, x1 / perLine % lines, lines);
            target < lines && (target <= LINES_AFTER || target >= lines - 2 * MARGIN - (most + 2) / 2)
  {
    hide *;
    IsOnLine(x0, perLine);
    IsOnLine(x1, perLine);
    FewLines(x0, x1, x0 / perLine, x1 / perLine, perLine, most);
    TargetOf(x0 / perLine, x1 / perLine, lines, most + 1);
  }

  /** Where accepted measurements put the target, for a steady beam. */
  lemma AcceptedTargets(m: Measurement, origin: int, perLine: pos, lines: pos)
    requires m.Ordered(origin) && lines > 2 * MARGIN + 2
    requires Accepted(m.began, m.before, m.after, BeamAt(origin, m.read1, perLine, lines), lines, perLine)
    ensures var target := m.Target(origin, perLine, lines);
            && target < lines && NearBoundary(target, lines)
            && (m.Delay() == 0 ==> target <= LINES_AFTER || target >= lines - 41)
  {
    hide Midpoint, NearEdge;
    TwoIntervals(m.began, m.read0, m.before, m.read1, m.after, perLine);
    TargetOfReadings(m.read0 - origin, m.read1 - origin, perLine, lines, 2 * MARGIN + 1);
    if m.Delay() == 0 {
      TargetOfReadings(m.read0 - origin, m.read1 - origin, perLine, lines, MARGIN);
    }
  }

  lemma TwoIntervals(began: int, read0: int, before: int, read1: int, after: int, perLine: pos)
    requires began <= read0 <= before <= read1 <= after
    requires (after - before) / perLine <= MARGIN && (before - began) / perLine <= MARGIN
    ensures (read1 - read0) / perLine <= 2 * MARGIN + 1
  {
    DivisionLaw(after - before, perLine);
    DivisionLaw(before - began, perLine);
    DivisionLaw(read1 - read0, perLine);
    var a, b, c := (after - before) / perLine, (before - began) / perLine, (read1 - read0) / perLine;
    assert perLine * (c - a - b - 2) == perLine * c - perLine * a - perLine * b - 2 * perLine;
    Spread(perLine, c - a - b - 2);
  }

  /**
   Moving the measured moment forward by whole refreshes keeps the lock, up to what each refresh differs
   from the lines of a frame: the source truncates the two numbers of ticks separately.
   */
  lemma StaysLocked(origin: int, t0: int, moved: int, limit: int, refresh: pos, target: nat, frames: nat,
                    perLine: pos, lines: pos) returns (k: nat)
    requires InPhase(t0, moved, limit, refresh)
    ensures moved == t0 + k * refresh
    ensures PastBoundary(origin, frames + k, Restart(moved, target, lines, perLine, 0), perLine, lines)
         == PastBoundary(origin, frames, Restart(t0, target, lines, perLine, 0), perLine, lines)
            + k * (refresh - lines * perLine)
  {
    k := (moved - t0) / refresh;
    DivisionLaw(moved - t0, refresh);
    var frame := lines * perLine;
    assert (frames + k) * frame == frames * frame + k * frame;
    assert k * (refresh - frame) == k * refresh - k * frame;
  }

  /**
   What the limiter restarts from, measured to restarted: after `k` refreshes it lies past a real frame
   boundary by one and a half lines and half the delay of the readings at most, but for k times the ticks
   lost to truncation, and for the offset.
   */
  lemma RestartsLocked(m: Measurement, origin: int, moved: int, limit: int, refresh: pos, tL: int,
                       perLine: pos, lines: pos) returns (frames: nat, k: nat)
    requires m.Ordered(origin) && m.Quick(perLine) && m.Short(lines)
    requires InPhase(m.Moment(), moved, limit, refresh)
    ensures moved == m.Moment() + k * refresh
    ensures var s := Restart(moved, m.Target(origin, perLine, lines), lines, perLine, tL);
            var past := PastBoundary(origin, frames, s, perLine, lines) - tL - k * (refresh - lines * perLine);
            0 <= 2 * past < 3 * perLine + m.Delay() && 2 * past < 37 * perLine
  {
    hide BeamAt, Midpoint, Shift, InPhase;
    var first := LocksOn(m, origin, perLine, lines);
    var target := m.Target(origin, perLine, lines);
    k := StaysLocked(origin, m.Moment(), moved, limit, refresh, target, first, perLine, lines);
    frames := first + k;
  }
}
