/**
 The framerate limiter: an object that holds back each frame until its deadline, on a counter that only
 moves forward.

 The deadline arithmetic is in Deadlines, the re-phasing to the scan-out in Resync.  Sleeping on kernel
 timers and swap chains only spends time before the busy loop, and is not part of this model.
 */
module Limiters {
  import opened Deadlines
  import opened FrameGate
  import opened Resync

  /** The performance counter. */
  class Clock {
    const frequency: pos
    var now: nat

    constructor (frequency: pos, now: nat)
      ensures this.frequency == frequency && this.now == now
    {
      this.frequency := frequency;
      this.now := now;
    }

    method Query() returns (time: nat)
      modifies this
      ensures time == now > old(now)
    {
      var passed: nat :| passed >= 0;
      now := now + 1 + passed;
      time := now;
    }

    /** A reading that follows the one before in less than `period`. */
    method QueryWithin(period: pos) returns (time: nat)
      modifies this
      ensures old(now) <= time == now < old(now) + period
    {
      var passed: nat :| passed < period;
      now := now + passed;
      time := now;
    }
  }

  /** The display's reported timing: refreshes and scanlines per second, and the lines of a frame. */
  datatype Display = Display(vNumerator: nat, vDenominator: nat, hNumerator: nat, hDenominator: nat, lines: nat)

  datatype Config = Config(target: Rate, backgroundTarget: Rate, presentInterval: int,
                           scanlineError: int, scanlineOffset: int, adaptiveSync: bool, adaptMargin: nat)

  /** The counter's ticks per refresh, or one if the display reports none. */
  function Refresh(d: Display, f: pos): nat {
    if d.vNumerator > 0 then d.vDenominator * f / d.vNumerator else 1
  }

  /** The counter's ticks per scanline, or one if the display reports none. */
  function Scanline(d: Display, f: pos): nat {
    if d.hNumerator > 0 then d.hDenominator * f / d.hNumerator else 1
  }

  /** What the configured error adds to each frame of `ticks`. */
  function Correction(ticks: nat, refresh: pos, scanlineError: int): int {
    ticks / refresh * scanlineError
  }

  /** What `init` adds to each frame: nothing unless the display reports its refresh rate. */
  function InitialError(rate: Rate, tracks: bool, c: Config, d: Display, f: pos): int
    requires rate.Positive() && Refresh(d, f) > 0
  {
    if tracks && d.vNumerator > 0 then Correction(WholeTicks(f, rate), Refresh(d, f), c.scanlineError) else 0
  }

  /** What the source divides by is not zero. */
  predicate Sane(d: Display, f: pos) {
    Refresh(d, f) > 0 && (d.vNumerator > 0 ==> d.lines > 0)
  }

  /** A vblank no more than 120 refreshes old, on a display that reports its refresh rate. */
  predicate Recent(vblank: int, now: int, d: Display, f: pos) {
    d.vNumerator > 0 && vblank > now - d.vDenominator * f * 120 / d.vNumerator
  }

  /** The counter's ticks per refresh and per scanline, and what it takes for these to be more than one. */
  lemma TimingIs(d: Display, f: pos)
    ensures d.vNumerator > 0 ==> Refresh(d, f) * d.vNumerator <= d.vDenominator * f < (Refresh(d, f) + 1) * d.vNumerator
    ensures d.hNumerator > 0 ==>
      Scanline(d, f) * d.hNumerator <= d.hDenominator * f < (Scanline(d, f) + 1) * d.hNumerator
    ensures d.vNumerator == 0 ==> Refresh(d, f) == 1
    ensures d.hNumerator == 0 ==> Scanline(d, f) == 1
  {
    if d.vNumerator > 0 {
      DivisionLaw(d.vDenominator * f, d.vNumerator);
    }
    if d.hNumerator > 0 {
      DivisionLaw(d.hDenominator * f, d.hNumerator);
    }
  }

  /** The correction is the configured error times the whole refreshes in a frame. */
  lemma CorrectionIs(ticks: nat, refresh: pos, scanlineError: int) returns (n: nat)
    ensures n * refresh <= ticks < n * refresh + refresh
    ensures Correction(ticks, refresh, scanlineError) == n * scanlineError
  {
    n := ticks / refresh;
    DivisionLaw(ticks, refresh);
  }

  /** A vblank is recent if it is younger, by a tick at least, than 120 refreshes. */
  lemma RecentIs(vblank: int, now: int, d: Display, f: pos)
    ensures Recent(vblank, now, d, f)
       <==> d.vNumerator > 0 && (now - vblank + 1) * d.vNumerator <= 120 * (d.vDenominator * f)
  {
    if d.vNumerator > 0 {
      var x := d.vDenominator * f * 120;
      DivisionLaw(x, d.vNumerator);
      var q, n := x / d.vNumerator, d.vNumerator;
      assert x == 120 * (d.vDenominator * f);
      Spread(n, q - (now - vblank + 1));
      Spread(n, q - (now - vblank));
      assert n * (q - (now - vblank + 1)) == n * q - (now - vblank + 1) * n;
    }
  }

  /** So the first deadline is told from the display's numbers alone. */
  lemma FirstDeadlineIs(vblank: int, now: int, first: int, ticks: int, d: Display, f: pos)
    requires Refresh(d, f) > 0
    requires if Recent(vblank, now, d, f) then InPhase(vblank, first, now, Refresh(d, f)) else first == now + ticks
    ensures var recent := d.vNumerator > 0 && (now - vblank + 1) * d.vNumerator <= 120 * (d.vDenominator * f);
            if !recent then first == now + ticks
            else
              var refresh := d.vDenominator * f / d.vNumerator;
              && refresh > 0 && vblank <= first && (first - vblank) % refresh == 0
              && (if vblank >= now then first == vblank else now <= first < now + refresh)
  {
    RecentIs(vblank, now, d, f);
  }

  /** The scan-out state that the limiter shares with the resync thread. */
  class Scanout {
    var t0: int
    var tL: int
    var target: int
    var resync: bool
    var pending: bool

    constructor ()
      ensures !resync && !pending
    {
      t0, tL, target := 0, 0, 0;
      resync, pending := false, false;
    }

    /** Asks for a new measurement, with the configured offset in scanlines. */
    method RequestResync(c: Config, d: Display, f: pos)
      requires d.vNumerator > 0 ==> d.lines > 0
      modifies `tL, `resync
      ensures resync
      ensures tL == if d.vNumerator > 0 then f * d.vDenominator / d.vNumerator / d.lines * c.scanlineOffset else old(tL)
    {
      if d.vNumerator > 0 {
        tL := f * d.vDenominator / d.vNumerator / d.lines * c.scanlineOffset;
      }
      resync := true;
    }

    /**
     One attempt of the resync thread that read the beam twice inside the vertical blank: on line
     `line0` at `before`, and on line `line1` at `after`.
     */
    method Measure(began: int, before: int, after: int, line0: nat, line1: nat, lines: pos, perLine: pos)
      returns (locked: bool)
      requires began <= before <= after
      modifies `t0, `target, `resync, `pending
      ensures locked <==> Accepted(began, before, after, line1, lines, perLine)
      ensures locked ==> target == Midpoint(line0, line1, lines) && !resync && pending
      ensures locked ==> 0 <= 2 * t0 - (before + after) <= 1
      ensures !locked ==> unchanged(this)
    {
      locked := false;
      if (after - before) / perLine <= MARGIN && (before - began) / perLine <= MARGIN {
        if line1 <= MARGIN / 3 || (lines >= 2 * MARGIN && line1 >= lines - MARGIN / (MARGIN / 2) * MARGIN) {
          var second := line1;
          if second < line0 {
            second := second + lines;
          }
          target := (line0 + second) / 2 % lines;
          var margin := (after - before) / 2;
          t0 := after - margin;
          resync, pending := false, true;
          locked := true;
        }
      }
    }
  }

  /** A loop of the source: moves a moment forward by whole periods. */
  method MoveForward(from: int, limit: int, period: pos) returns (to: int)
    ensures InPhase(from, to, limit, period)
  {
    to := from;
    while to < limit
      invariant from <= to && (to - from) % period == 0
      invariant from >= limit ==> to == from
      invariant from < limit ==> to < limit + period
      decreases limit - to
    {
      OneMorePeriod(to - from, period);
      to := to + period;
    }
  }

  /** The schedule of a limiter, and what has been asked of it. */
  datatype Schedule = Schedule(rate: Rate, pace: Timing, frames: nat, admitted: nat, error: int, slack: nat,
                               restart: bool, fullRestart: bool, lazyInit: bool, lastReset: nat)

  /** A skip of two frames or more asks for a full restart, unless one was asked for in the last 16 frames. */
  predicate AsksRestart(presentInterval: int, missed: int, framesDrawn: nat, lastReset: nat) {
    presentInterval != 0 && missed > 1 && (framesDrawn < 16 || lastReset < framesDrawn - 16)
  }

  /** The rate in force while the window is in the background, or is not. */
  function Effective(c: Config, inBackground: bool): Rate {
    if inBackground && c.backgroundTarget.Positive() then c.backgroundTarget else c.target
  }

  /** A full restart may be asked for: with a present interval, sixteen frames after the last request or early on. */
  predicate Requests(asked: bool, lastReset: nat, presentInterval: int, framesDrawn: nat,
                     asked': bool, lastReset': nat)
  {
    || (asked' == asked && lastReset' == lastReset)
    || (asked' && lastReset' == framesDrawn && presentInterval != 0
        && (framesDrawn < 16 || framesDrawn > lastReset + 16))
  }

  /** As the display and the clock tell it: with a frame time of ticks, a skip of two frames is that much lateness. */
  lemma AsksRestartIs(presentInterval: int, next: int, ticks: int, now: int, framesDrawn: nat, lastReset: nat)
    requires ticks > 0
    ensures AsksRestart(presentInterval, Missed(next, ticks, now), framesDrawn, lastReset)
       <==> presentInterval != 0 && now - next >= 2 * ticks && (framesDrawn < 16 || framesDrawn > lastReset + 16)
  {
    var x, m := now - next, Missed(next, ticks, now);
    TruncatedIs(x, ticks);
    Spread(ticks, m - 2);
    Spread(ticks, m - 1);
    assert ticks * (m - 2) == m * ticks - 2 * ticks && ticks * (m - 1) == m * ticks - ticks;
  }

  class Limiter {
    const clock: Clock
    const scan: Scanout

    var rate: Rate
    var ticks: int
    var fraction: nat
    var whole: nat

    var time: int
    var start: int
    var next: int
    var last: int
    var frames: nat

    var restart: bool
    var fullRestart: bool
    var background: bool
    var tracksWindow: bool
    var lazyInit: bool
    var limitBehavior: int
    var frameShame: map<int, nat>
    var lastReset: nat
    var flipSkips: nat
    var lastRate: Rate

    /** The correction in `ticks`. */
    ghost var error: int
    /** The frames admitted since the counter was last set to zero. */
    ghost var admitted: nat
    /** The most that one of them may have come before its deadline: half a swap, on the latent-sync path. */
    ghost var slack: nat

    function Pace(): Timing
      reads this
    {
      Timing(start, ticks, fraction, whole)
    }

    ghost function State(): Schedule
      reads this
    {
      Schedule(rate, Pace(), frames, admitted, error, slack, restart, fullRestart, lazyInit, lastReset)
    }

    ghost predicate Scheduled()
      reads this
    {
      && tracksWindow
      && (ticks > 0 ==> admitted <= frames)
      && (rate.Positive() ==> Counts(Pace(), clock.frequency, rate, error))
    }

    /**
     What every reachable limiter keeps between calls.  The last conjunct is the heart: the deadline of the
     latest frame has passed, but for the half swap that latent sync is early.
     */
    ghost predicate Valid()
      reads this, clock
    {
      && Scheduled()
      && (rate.Positive() && frames > 0 ==> Deadline(Pace(), frames) <= clock.now + slack)
    }

    /**
     The rate bound: when `k` frames have been admitted by now, that many frame times have passed since the
     start, exactly, but for half a swap with latent sync.  `PresentFrames` counts them over a run.
     */
    lemma RateBound(k: nat)
      requires Valid() && rate.Positive() && ticks > 0 && 0 < k <= admitted
      ensures start + k * (clock.frequency * rate.den) / rate.num + k * error <= clock.now + slack
    {
      DeadlinesAreOrdered(Pace(), k, frames);
      NoDrift(Pace(), clock.frequency, rate, error, k);
    }

    /** A new limiter asks for `tracks`, but initialises with the default argument: it always tracks. */
    constructor (clock: Clock, scan: Scanout, target: Rate, tracks: bool, c: Config, d: Display)
      requires Sane(d, clock.frequency)
      modifies clock
      ensures Valid() && fresh(this) && this.clock == clock && this.scan == scan
      ensures tracksWindow && rate == target && frames == 0 && !lazyInit && limitBehavior == 0 && frameShame == map[]
    {
      this.clock, this.scan := clock, scan;
      this.rate, this.lastRate := target, target;
      this.restart, this.fullRestart, this.background, this.lazyInit := false, false, false, false;
      this.limitBehavior, this.frameShame, this.lastReset, this.flipSkips := 0, map[], 0, 0;
      this.tracksWindow := tracks;
      new;
      var now, vblank := Init(target, true, c, d);
    }

    method Init(target: Rate, tracks: bool, c: Config, d: Display) returns (now: nat, vblank: int)
      requires Refresh(d, clock.frequency) > 0
      modifies clock, `rate, `ticks, `fraction, `whole, `time, `start, `next, `last, `frames, `tracksWindow
      modifies `error, `admitted, `slack
      ensures now == clock.now > old(clock.now)
      ensures tracksWindow == tracks && rate == target
      ensures frames == 0 && time == 0 && admitted == 0 && slack == 0
      ensures start == next - ticks && last == next - 2 * ticks
      ensures tracks ==> Valid()
      ensures target.Positive() ==> Counts(Pace(), clock.frequency, target, error)
      ensures target.Positive() ==> error == InitialError(target, tracks, c, d, clock.frequency)
      ensures !tracks ==> next == 0
      ensures tracks ==>
        var f := clock.frequency;
        var recent := d.vNumerator > 0 && (now - vblank + 1) * d.vNumerator <= 120 * (d.vDenominator * f);
        if !recent then next == now + ticks
        else
          var refresh := d.vDenominator * f / d.vNumerator;
          && refresh > 0 && vblank <= next && (next - vblank) % refresh == 0
          && (if vblank >= now then next == vblank else now <= next < now + refresh)
    {
      hide WholeTicks, Fraction, Deadline, InPhase, Refresh, Correction, Recent, InitialError;
      tracksWindow, rate := tracks, target;
      SetTicks(c, d);
      now := clock.Query();
      var first;
      first, vblank := FirstDeadline(now, d);
      if tracks {
        FirstDeadlineIs(vblank, now, first, ticks, d, clock.frequency);
      }
      start, time, last, next := first - ticks, 0, first - 2 * ticks, first;
      frames := 0;
      admitted, slack := 0, 0;
    }

    /** The first deadline, from the time that the compositor reports for a vblank: zero if it reports none. */
    method FirstDeadline(now: nat, d: Display) returns (first: int, vblank: int)
      requires Refresh(d, clock.frequency) > 0
      ensures !tracksWindow ==> first == 0
      ensures tracksWindow && Recent(vblank, now, d, clock.frequency) ==>
        InPhase(vblank, first, now, Refresh(d, clock.frequency))
      ensures tracksWindow && !Recent(vblank, now, d, clock.frequency) ==> first == now + ticks
    {
      hide InPhase, Refresh, Recent;
      first, vblank := 0, 0;
      if tracksWindow {
        vblank := *;
        if Recent(vblank, now, d, clock.frequency) {
          first := MoveForward(vblank, now, Refresh(d, clock.frequency));
        } else {
          first := now + ticks;
        }
      }
    }

    /** The first part of `Init`: the ticks of a frame.  Those of a rate that is not positive are anything. */
    method SetTicks(c: Config, d: Display)
      requires Refresh(d, clock.frequency) > 0
      modifies `ticks, `fraction, `whole, `error
      ensures rate.Positive() ==> Counts(Pace(), clock.frequency, rate, error)
      ensures rate.Positive() ==> error == InitialError(rate, tracksWindow, c, d, clock.frequency)
    {
      hide WholeTicks, Fraction, Refresh, Correction;
      if rate.Positive() {
        ticks, fraction, whole := WholeTicks(clock.frequency, rate), Fraction(clock.frequency, rate), rate.num;
      } else {
        var x: nat, y: nat, z: nat :| x >= 0;
        ticks, fraction, whole := x, y, z;
      }
      error := 0;
      if tracksWindow && d.vNumerator > 0 {
        var correction := Correction(ticks, Refresh(d, clock.frequency), c.scanlineError);
        ticks, error := ticks + correction, correction;
      }
    }

    /** `reset`: the next frame initialises again. */
    method Reset(full: bool)
      requires Valid()
      modifies `restart, `fullRestart
      ensures Valid() && restart == (old(restart) || !full) && fullRestart == (old(fullRestart) || full)
    {
      if full {
        fullRestart := true;
      } else {
        restart := true;
      }
    }

    /** `suspend` and `resume` count up and down; the limiter runs at zero. */
    method Suspend(change: int)
      requires Valid() && (change == 1 || change == -1)
      modifies `limitBehavior
      ensures Valid() && limitBehavior == old(limitBehavior) + change
    {
      limitBehavior := limitBehavior + change;
    }

    /** Setting the limit that is in effect keeps the schedule; any other one starts a new schedule. */
    method SetLimit(target: Rate, c: Config, d: Display)
      requires Valid() && Sane(d, clock.frequency)
      modifies clock, scan`tL, scan`resync
      modifies `rate, `ticks, `fraction, `whole, `time, `start, `next, `last, `frames, `tracksWindow
      modifies `error, `admitted, `slack
      ensures Valid() && SameRate(rate, target)
      ensures clock.now >= old(clock.now) && (target.Positive() ==> rate.Positive())
      ensures slack <= old(slack)
      ensures SameRate(old(rate), target) ==> unchanged(this) && unchanged(clock) && unchanged(scan)
      ensures !SameRate(old(rate), target) ==> rate == target && frames == 0 && start == next - ticks && scan.resync
    {
      hide Refresh, Deadline, WholeTicks, Fraction, Counts;
      if SameRate(rate, target) && tracksWindow {
        if target.Positive() {
          SameRateSameSign(target, rate);
        }
        return;
      }
      scan.RequestResync(c, d, clock.frequency);
      var now, vblank := Init(target, true, c, d);
    }

    /** What `try_wait` answers: it looks at the deadline of the latest frame, without its sub-ticks. */
    predicate SaysWait(c: Config, active: bool)
      reads this, clock
    {
      && limitBehavior == 0
      && !(tracksWindow && (active || c.backgroundTarget.num == 0) && !c.target.Positive())
      && clock.now < Coarse(Pace(), frames)
    }

    /**
     What it is meant to answer: a `wait` that came in now would hold its frame back.  This is told of a
     steady limiter; a restart or a change of the window's state makes the wait begin a new schedule.
     */
    predicate HoldsNext(c: Config, active: bool, boundary: pos)
      reads this, clock
      requires ticks > 0 && whole > 0 && Steady(active, c)
    {
      !Idle(false, c) && clock.now < NextDue(Pace(), frames, boundary, clock.now)
    }

    /** `try_wait` */
    method TryWait(c: Config, active: bool) returns (wouldWait: bool)
      requires Valid()
      modifies clock
      ensures Valid() && clock.now >= old(clock.now)
      ensures wouldWait <==> SaysWait(c, active)
      ensures wouldWait ==> limitBehavior == 0 && clock.now < start + frames * ticks
      ensures wouldWait && (active || c.backgroundTarget.num == 0) && tracksWindow ==> c.target.Positive()
    {
      hide Counts, Deadline;
      if limitBehavior != 0 {
        return false;
      }
      if tracksWindow {
        if active || c.backgroundTarget.num == 0 {
          if !c.target.Positive() {
            return false;
          }
        }
      }
      var due := frames * ticks + start;
      var now := clock.Query();
      wouldWait := now < due;
    }

    /**
     When the answer is right, exactly: while the limiter is on, before the latest frame's deadline or from
     the next one's on.  A schedule that has limited a frame off the latent-sync path is past the former, so
     it always answers no, and is wrong all the time that the next frame would be held.
     */
    lemma TryWaitIsRight(c: Config, active: bool, boundary: pos)
      requires Valid() && rate.Positive() && ticks > 0 && Steady(active, c)
      ensures (SaysWait(c, active) <==> HoldsNext(c, active, boundary))
         <==> if Idle(false, c) then !SaysWait(c, active)
              else clock.now < Coarse(Pace(), frames) || NextDue(Pace(), frames, boundary, clock.now) <= clock.now
      ensures slack == 0 && frames > 0 ==> !SaysWait(c, active)
      ensures slack == 0 && frames > 0 && !Idle(false, c) ==>
        ((SaysWait(c, active) <==> HoldsNext(c, active, boundary))
          <==> NextDue(Pace(), frames, boundary, clock.now) <= clock.now)
      ensures clock.now < Deadline(Pace(), frames + 1) && SubTicks(Pace(), frames + 1) <= boundary * ticks ==>
        NextDue(Pace(), frames, boundary, clock.now) == Deadline(Pace(), frames + 1)
    {
      hide WholeTicks, Fraction, Skipped, SubTicks;
      SubTicksCount(Pace(), frames);
      SubTicksCount(Pace(), frames + 1);
      NextFrameIsOnTime(Pace(), frames, boundary, clock.now);
      PunctualFramesAreKept(Pace(), frames, boundary);
      assert Coarse(Pace(), frames + 1) == Coarse(Pace(), frames) + ticks;
      Scale(1, boundary, ticks);
    }

    /** A state in which it is wrong: 60 frames a second, one tick after the first frame's deadline. */
    lemma TryWaitMisses(c: Config, active: bool)
      requires clock.frequency == 10_000_000 && clock.now == 1_166_667
      requires rate == Rate(60, 1) && c.target == Rate(60, 1) && error == 0
      requires ticks == 166_666 && fraction == 40 && whole == 60
      requires start == 1_000_000 && frames == admitted == 1 && slack == 0 && tracksWindow && limitBehavior == 0
      requires Steady(active, c)
      ensures Valid() && !SaysWait(c, active) && HoldsNext(c, active, 1)
    {}

    /**
     Counts the frame that arrived at `now` and works out its deadline, skipping the frames it missed.  The
     source divides by the frame time; if that is not positive, the counters become anything.
     */
    method Advance(now: int, normal: bool, c: Config, d: Display, framesDrawn: nat) returns (due: int)
      requires Scheduled() && rate.Positive()
      modifies `time, `frames, `next, `fullRestart, `lastReset, `flipSkips, `admitted
      ensures Scheduled() && time == now && admitted == old(admitted) + 1
      ensures next == Coarse(Pace(), old(frames) + 1)
      ensures due == Deadline(Pace(), frames)
      ensures (normal ==> ticks > 0) ==>
        frames == NextFrame(Pace(), old(frames),
                            if normal then Boundary(c.presentInterval, Refresh(d, clock.frequency), ticks) else 0, now)
      ensures !normal ==> unchanged(`fullRestart, `lastReset, `flipSkips)
      ensures Requests(old(fullRestart), old(lastReset), c.presentInterval, framesDrawn, fullRestart, lastReset)
      ensures normal && ticks > 0 ==>
        var skipping, missed := c.presentInterval != 0, Missed(next, ticks, now);
        var resets := AsksRestart(c.presentInterval, missed, framesDrawn, old(lastReset));
        && fullRestart == (old(fullRestart) || resets)
        && lastReset == (if resets then framesDrawn else old(lastReset))
        && flipSkips == old(flipSkips) + (if skipping && missed >= 1 && !resets then 1 else 0)
    {
      hide WholeTicks, Fraction, SubTicks, Refresh, Rounded, Truncated;
      admitted := admitted + 1;
      time, frames := now, frames + 1;
      due := frames * ticks + start;
      next := due;
      if normal {
        if ticks > 0 {
          due := SkipMissed(due, now, c, d, framesDrawn);
        } else {
          Garble(c, framesDrawn);
          due := frames * ticks + start;
        }
      }
      due := due + SubTicks(Pace(), frames);
    }

    /** The counters after a division by a frame time that is not positive: a restart may be asked for. */
    method Garble(c: Config, framesDrawn: nat)
      modifies `frames, `fullRestart, `lastReset, `flipSkips
      ensures Requests(old(fullRestart), old(lastReset), c.presentInterval, framesDrawn, fullRestart, lastReset)
    {
      var x: nat, z: nat, b: bool :| x >= 0;
      frames, flipSkips := x, z;
      if b && c.presentInterval != 0 && (framesDrawn < 16 || lastReset < framesDrawn - 16) {
        lastReset, fullRestart := framesDrawn, true;
      }
    }

    /** Skips the frames that are missed, a boundary at a time, and reports it. */
    method SkipMissed(planned: int, now: int, c: Config, d: Display, framesDrawn: nat) returns (due: int)
      requires tracksWindow && ticks > 0 && planned == Coarse(Pace(), frames)
      modifies `frames, `fullRestart, `lastReset, `flipSkips
      ensures var boundary := Boundary(c.presentInterval, Refresh(d, clock.frequency), ticks);
              frames == old(frames) + Skipped(planned, ticks, boundary, now)
      ensures due == Coarse(Pace(), frames)
      ensures var skipping, missed := c.presentInterval != 0, Missed(planned, ticks, now);
              var resets := AsksRestart(c.presentInterval, missed, framesDrawn, old(lastReset));
              && fullRestart == (old(fullRestart) || resets)
              && lastReset == (if resets then framesDrawn else old(lastReset))
              && flipSkips == old(flipSkips) + (if skipping && missed >= 1 && !resets then 1 else 0)
    {
      hide Refresh, Rounded, Truncated;
      due := planned;
      var missed := Missed(due, ticks, now);
      var boundary := Boundary(c.presentInterval, Refresh(d, clock.frequency), ticks);
      if missed >= boundary {
        frames := frames + (missed - missed % boundary);
        due := frames * ticks + start;
        if c.presentInterval != 0 {
          if missed > 1 && (framesDrawn < 16 || lastReset < framesDrawn - 16) {
            lastReset, fullRestart := framesDrawn, true;
          } else if tracksWindow {
            flipSkips := flipSkips + 1;
          }
        }
      }
    }

    /** Restarts the schedule from the frame boundary nearest to the measured scan-out. */
    method Rephase(planned: int, c: Config, d: Display)
      requires Scheduled() && rate.Positive()
      requires Refresh(d, clock.frequency) > 0
      modifies `ticks, `fraction, `frames, `start, `next, `error, `admitted
      modifies scan`t0, scan`resync, scan`pending
      ensures Scheduled() && frames == 0 && admitted == 0
      ensures error == Correction(WholeTicks(clock.frequency, rate), Refresh(d, clock.frequency), c.scanlineError)
      ensures var shift := Shift(scan.target, d.lines) * Scanline(d, clock.frequency);
              && InPhase(old(scan.t0), scan.t0 - shift,
                         Earliest(planned, Refresh(d, clock.frequency)), Refresh(d, clock.frequency))
              && start == next == Restart(scan.t0 - shift, scan.target, d.lines, Scanline(d, clock.frequency), scan.tL)
      ensures !scan.resync && !scan.pending
    {
      hide WholeTicks, Fraction, Correction, Refresh, Scanline, InPhase, Earliest, Shift;
      var f := clock.frequency;
      ticks, fraction := WholeTicks(f, rate), Fraction(f, rate);
      var correction := Correction(ticks, Refresh(d, f), c.scanlineError);
      ticks, error := ticks + correction, correction;
      scan.t0 := MoveForward(scan.t0, Earliest(planned, Refresh(d, f)), Refresh(d, f));
      scan.t0 := scan.t0 + Shift(scan.target, d.lines) * Scanline(d, f);
      frames, admitted := 0, 0;
      start := scan.t0 + scan.tL;
      next := start;
      scan.resync, scan.pending := false, false;
    }

    /**
     The deadline on the latent-sync path: re-phased if a measurement is pending, half a swap early, and for
     a late frame moved on by whole refreshes, so that it waits for a vblank.
     */
    method LatentSync(planned: int, c: Config, d: Display, swapTime: nat) returns (due: int)
      requires Scheduled() && rate.Positive()
      requires Refresh(d, clock.frequency) > 0
      modifies clock, `ticks, `fraction, `frames, `start, `next, `error, `admitted, `slack
      modifies scan`t0, scan`resync, scan`pending
      ensures Scheduled() && clock.now >= old(clock.now)
      ensures slack == Larger(if old(scan.pending) then 0 else old(slack), swapTime / 2)
      ensures !old(scan.pending) ==>
        unchanged(scan) && unchanged(`ticks, `fraction, `frames, `start, `next, `error, `admitted)
      ensures old(scan.pending) ==> frames == 0 && start == next == scan.t0 + scan.tL && !scan.pending
      ensures var ideal := (if old(scan.pending) then start else planned) - swapTime / 2;
              && ideal <= due && (due - ideal) % Refresh(d, clock.frequency) == 0
              && (c.adaptiveSync || d.vNumerator == 0 ==> due == ideal)
              && due < (if ideal < clock.now then clock.now else ideal + 1) + Refresh(d, clock.frequency)
              && var late := ideal + Scanline(d, clock.frequency) * c.adaptMargin;
                 var lost := ideal + Refresh(d, clock.frequency) * 3;
              && (late >= clock.now || lost <= old(clock.now) ==> due == ideal)
              && (late < old(clock.now) && lost > clock.now && d.vNumerator > 0 && !c.adaptiveSync ==>
                    due > old(clock.now))
    {
      hide WholeTicks, Fraction, Correction, Refresh, Scanline, Earliest, Shift;
      due := planned;
      if scan.pending {
        Rephase(planned, c, d);
        due := start;
        slack := 0;
      }
      slack := Larger(slack, swapTime / 2);
      due := due - swapTime / 2;
      if d.vNumerator > 0 && !c.adaptiveSync {
        var now := clock.Query();
        if now > due + Scanline(d, clock.frequency) * c.adaptMargin {
          now := clock.Query();
          if due > now - Refresh(d, clock.frequency) * 3 {
            due := CatchUp(due, Refresh(d, clock.frequency));
          }
        }
      }
    }

    /**
     Moves a late moment on by whole periods until it is not before the clock, which is read again each time.
     The loop ends if the thread is stalled for a whole period only finitely often, as `stalls` says.
     */
    method CatchUp(from: int, period: pos) returns (to: int)
      modifies clock
      ensures clock.now >= old(clock.now)
      ensures from <= to && (to - from) % period == 0 && to > old(clock.now)
      ensures to == from || (from < clock.now && to < clock.now + period)
    {
      var stalls: nat :| stalls >= 0;
      to := from;
      var now := clock.Query();
      while to < now
        invariant old(clock.now) < now == clock.now && from <= to && (to - from) % period == 0
        invariant to == from || (from < clock.now && to < clock.now + period)
        decreases stalls, now - to
      {
        OneMorePeriod(to - from, period);
        to := to + period;
        if stalls > 0 {
          now := clock.Query();
          stalls := stalls - 1;
        } else {
          now := clock.QueryWithin(period);
        }
      }
    }

    /** Spins until the deadline, by reading the clock again and again. */
    method Spin(due: int, arrived: nat) returns (now: nat)
      requires arrived <= clock.now
      modifies clock
      ensures arrived <= now <= clock.now && clock.now >= old(clock.now)
      ensures due <= now
      ensures due <= arrived ==> now == arrived
    {
      now := arrived;
      while now < due
        invariant arrived <= now <= clock.now && clock.now >= old(clock.now)
        invariant due <= arrived ==> now == arrived
        decreases due - now
      {
        now := clock.Query();
      }
    }

    /** Whether a frame is let through at once: shutting down, suspended, or the limit is off. */
    predicate Idle(ending: bool, c: Config)
      reads this
    {
      ending || limitBehavior != 0 || !c.target.Positive()
    }

    /** Follows the window into or out of the background, and sets the rate in force there. */
    method Retarget(active: bool, c: Config, d: Display)
      requires Valid() && Sane(d, clock.frequency)
      modifies clock, scan`tL, scan`resync, `background
      modifies `rate, `ticks, `fraction, `whole, `time, `start, `next, `last, `frames, `tracksWindow
      modifies `error, `admitted, `slack
      ensures Valid() && tracksWindow && clock.now >= old(clock.now)
      ensures old(background) == active ==> scan.resync
      ensures slack <= old(slack)
      ensures background == !active && (c.target.Positive() ==> rate.Positive())
      ensures SameRate(rate, Effective(c, background))
      ensures active || !c.backgroundTarget.Positive() ==> SameRate(rate, c.target)
      ensures !active && c.backgroundTarget.Positive() ==> SameRate(rate, c.backgroundTarget)
      ensures SameRate(old(rate), Effective(c, !active)) ==>
        && unchanged(clock)
        && unchanged(`rate, `ticks, `fraction, `whole, `start, `next, `frames, `error, `admitted, `slack)
      ensures !SameRate(old(rate), Effective(c, !active)) ==> frames == 0
    {
      hide Refresh, Deadline, Counts, SameRate;
      if tracksWindow && background == active {
        background := !background;
        scan.RequestResync(c, d, clock.frequency);
      }
      if !background {
        SetLimit(c.target, c, d);
      } else if tracksWindow {
        SetLimit(if c.backgroundTarget.Positive() then c.backgroundTarget else c.target, c, d);
      }
    }

    /** The deadline that is waited for: the planned one, unless latent sync changes it. */
    method Target(planned: int, swapTime: nat, c: Config, d: Display) returns (due: int)
      requires Scheduled() && rate.Positive() && Sane(d, clock.frequency)
      modifies clock, scan, `ticks, `fraction, `frames, `start, `next, `lastRate, `error, `admitted, `slack
      ensures Scheduled() && clock.now >= old(clock.now) && lastRate == rate
      ensures !SameRate(old(lastRate), rate) && PlainPath(c, d, clock.frequency) ==> scan.resync
      ensures scan.pending == (PlainPath(c, d, clock.frequency) && old(scan.pending))
      ensures var plain, pending := PlainPath(c, d, clock.frequency), old(scan.pending);
              && (plain ==> unchanged(`slack) && due == planned)
              && (plain || !pending ==> Pace() == old(Pace()) && unchanged(`frames, `next, `admitted, `error))
              && (!plain && !pending ==> due >= planned - swapTime / 2)
              && (!plain && pending ==> due >= start - swapTime / 2 && frames == 0)
              && (!plain ==> slack == Larger(if pending then 0 else old(slack), swapTime / 2))
    {
      hide Counts, Refresh, SameRate, Scanline, InPhase;
      due := planned;
      if !SameRate(lastRate, rate) {
        scan.RequestResync(c, d, clock.frequency);
      }
      lastRate := rate;
      if !PlainPath(c, d, clock.frequency) {
        due := LatentSync(due, c, d, swapTime);
      }
    }

    /** Returns when the counted frame is due; a deadline that is not positive means lost time. */
    method Until(planned: int, arrived: nat, swapTime: nat, c: Config, d: Display) returns (due: int)
      requires Scheduled() && rate.Positive() && Sane(d, clock.frequency)
      requires arrived <= clock.now && planned == Deadline(Pace(), frames)
      modifies clock, scan
      modifies `ticks, `fraction, `frames, `time, `start, `next, `last, `lastRate, `error, `admitted, `slack
      ensures Valid() && clock.now >= old(clock.now) && due <= clock.now
      ensures time == last && slack <= Larger(old(slack), swapTime / 2)
      ensures scan.pending == (old(scan.pending) && (planned <= 0 || PlainPath(c, d, clock.frequency)))
      ensures PlainPath(c, d, clock.frequency) ==> unchanged(`next, `slack)
      ensures PlainPath(c, d, clock.frequency) || !old(scan.pending) ==> unchanged(`error, `admitted)
      ensures Ended(PlainPath(c, d, clock.frequency), old(scan.pending), scan.pending, swapTime,
                    old(Pace()), old(frames), arrived, Pace(), frames, due, time)
      ensures planned > 0 ==> lastRate == rate
      ensures planned > 0 && !SameRate(old(lastRate), rate) && PlainPath(c, d, clock.frequency) ==> scan.resync
    {
      hide WholeTicks, Fraction, Deadline, Refresh, SameRate, PlainPath;
      due := planned;
      var now := arrived;
      if due > 0 {
        due := Target(planned, swapTime, c, d);
        now := Spin(due, arrived);
      } else {
        LaterStart(Pace(), due, frames);
        start := start - due;
      }
      time, last := now, now;
    }

    /** Counts the frame that arrived, and returns when it is due. */
    method Hold(arrived: nat, normal: bool, framesDrawn: nat, swapTime: nat, c: Config, d: Display) returns (due: int)
      requires Scheduled() && rate.Positive() && Sane(d, clock.frequency)
      requires arrived <= clock.now
      modifies clock, scan
      modifies `ticks, `fraction, `frames, `time, `start, `next, `last, `lastRate, `error, `admitted, `slack
      modifies `fullRestart, `lastReset, `flipSkips
      ensures Valid() && clock.now >= old(clock.now) && due <= clock.now
      ensures !old(scan.pending) ==> !scan.pending
      ensures PlainPath(c, d, clock.frequency) ==> scan.pending == old(scan.pending)
      ensures time == last && slack <= Larger(old(slack), swapTime / 2)
      ensures Requests(old(fullRestart), old(lastReset), c.presentInterval, framesDrawn, fullRestart, lastReset)
      ensures normal ==> Continued(clock.frequency, c, d, framesDrawn, swapTime, old(scan.pending), scan.pending,
                                   old(State()), arrived, State(), due, time)
      ensures PlainPath(c, d, clock.frequency) || !old(scan.pending) ==> admitted == old(admitted) + 1
      ensures !normal ==>
        && Ended(PlainPath(c, d, clock.frequency), old(scan.pending), scan.pending, swapTime,
                 old(Pace()), old(frames) + 1, arrived, Pace(), frames, due, time)
        && (PlainPath(c, d, clock.frequency) ==> slack == old(slack))
        && unchanged(`fullRestart, `lastReset)
    {
      hide WholeTicks, Fraction, Deadline, Refresh, Boundary, Missed, AsksRestart;
      hide Coarse, Scanline, Ended, Sane;
      due := Advance(arrived, normal, c, d, framesDrawn);
      due := Until(due, arrived, swapTime, c, d);
    }

    /** Initialises again if a restart was asked for; the frame that follows then skips nothing. */
    method RestartIfAsked(c: Config, d: Display) returns (normal: bool)
      requires Valid() && rate.Positive() && c.target.Positive()
      requires Sane(d, clock.frequency)
      modifies clock, `rate, `ticks, `fraction, `whole, `time, `start, `next, `last, `frames, `tracksWindow
      modifies `error, `admitted, `slack, `restart, `fullRestart
      ensures Valid() && rate.Positive() && clock.now >= old(clock.now)
      ensures normal == !(old(restart) || old(fullRestart)) && !restart && !fullRestart
      ensures normal ==> unchanged(this) && unchanged(clock)
      ensures slack <= old(slack)
      ensures !normal ==> rate == c.target && frames == 0 && admitted == 0 && slack == 0
    {
      hide Refresh, Deadline, Counts;
      normal := true;
      if restart || fullRestart {
        var now, vblank := Init(c.target, tracksWindow, c, d);
        fullRestart, restart, normal := false, false, false;
        frames := 0;
      }
    }

    /** Initialises once more after the very first frame. */
    method InitLazily(c: Config, d: Display)
      requires Valid() && Sane(d, clock.frequency)
      modifies clock, `rate, `ticks, `fraction, `whole, `time, `start, `next, `last, `frames, `tracksWindow
      modifies `error, `admitted, `slack, `lazyInit
      ensures Valid() && lazyInit && clock.now >= old(clock.now)
      ensures old(lazyInit) ==> unchanged(this) && unchanged(clock)
      ensures slack <= old(slack)
      ensures !old(lazyInit) ==> frames == 0 && admitted == 0 && rate == old(rate)
    {
      hide Refresh, Deadline, Counts;
      if !lazyInit {
        lazyInit := true;
        var now, vblank := Init(rate, tracksWindow, c, d);
      }
    }

    /** Holds back a frame that no limit has been applied to. */
    method Limit(framesDrawn: nat, swapTime: nat, c: Config, d: Display) returns (arrived: nat, due: int)
      requires Valid() && rate.Positive() && c.target.Positive()
      requires Sane(d, clock.frequency)
      modifies clock, scan
      modifies `rate, `ticks, `fraction, `whole, `frames, `time, `start, `next, `last, `tracksWindow, `lastRate
      modifies `error, `admitted, `slack, `restart, `fullRestart, `lazyInit, `lastReset, `flipSkips
      ensures Valid() && clock.now >= old(clock.now)
      ensures rate.Positive() && old(clock.now) < arrived <= clock.now && due <= clock.now && lazyInit && !restart
      ensures rate == if old(restart) || old(fullRestart) then c.target else old(rate)
      ensures !old(scan.pending) ==> !scan.pending
      ensures PlainPath(c, d, clock.frequency) ==> scan.pending == old(scan.pending)
      ensures slack <= Larger(old(slack), swapTime / 2)
      ensures !old(lazyInit) ==> frames == 0 && admitted == 0
      ensures (old(restart) || old(fullRestart)) && old(lazyInit) && PlainPath(c, d, clock.frequency) ==>
        && frames == 1 && rate == c.target && admitted == 1 && slack == 0
        && (due > 0 ==> due == Deadline(Pace(), 1) && arrived <= time && due <= time)
      ensures old(restart) || old(fullRestart) ==> !fullRestart
      ensures Requests(false, old(lastReset), c.presentInterval, framesDrawn, fullRestart, lastReset)
      ensures old(lazyInit) && (PlainPath(c, d, clock.frequency) || !old(scan.pending)) ==> admitted >= 1
      ensures !old(restart) && !old(fullRestart) && old(lazyInit) ==>
        Continued(clock.frequency, c, d, framesDrawn, swapTime, old(scan.pending), scan.pending,
                  old(State()), arrived, State(), due, time)
    {
      hide Refresh, WholeTicks, Fraction, Boundary, Sane, Coarse, SubTicks, Skipped, Continued;
      arrived := clock.Query();
      var normal := RestartIfAsked(c, d);
      due := Hold(arrived, normal, framesDrawn, swapTime, c, d);
      InitLazily(c, d);
    }

    /** Nothing changes the schedule before the next frame is counted, or after it. */
    predicate Steady(active: bool, c: Config)
      reads this
    {
      SameRate(rate, Effective(c, !active)) && !restart && !fullRestart && lazyInit
    }

    /** Holds back the frame of a thread until its deadline. */
    method Wait(ending: bool, active: bool, thread: int, framesDrawn: nat, swapTime: nat, c: Config, d: Display)
      returns (limited: bool, arrived: nat, due: int)
      requires Valid() && Sane(d, clock.frequency)
      modifies this, clock, scan
      ensures Valid() && clock.now >= old(clock.now) && slack <= Larger(old(slack), swapTime / 2)
      ensures !old(scan.pending) ==> !scan.pending
      ensures PlainPath(c, d, clock.frequency) ==> scan.pending == old(scan.pending)
      ensures ending || limitBehavior != 0 || !c.target.Positive() ==> !limited
      ensures limited <==> !old(Idle(ending, c)) && !Claimed(old(frameShame), thread, framesDrawn)
      ensures frameShame == if limited then old(frameShame)[thread := framesDrawn] else old(frameShame)
      ensures limited ==>
        && old(clock.now) < arrived <= clock.now && due <= clock.now && lazyInit && !restart && background == !active
        && (if old(restart) || old(fullRestart) then rate == c.target
            else SameRate(rate, if active || !c.backgroundTarget.Positive() then c.target else c.backgroundTarget))
      ensures limited && !old(lazyInit) ==> frames == 0 && admitted == 0
      ensures limited && (old(restart) || old(fullRestart)) && old(lazyInit) && PlainPath(c, d, clock.frequency) ==>
        && frames == 1 && rate == c.target && admitted == 1 && slack == 0
        && (due > 0 ==> due == Deadline(Pace(), 1) && arrived <= time && due <= time)
      ensures limited && (old(restart) || old(fullRestart)) ==> !fullRestart
      ensures limited ==> Requests(false, old(lastReset), c.presentInterval, framesDrawn, fullRestart, lastReset)
      ensures limited && old(lazyInit) && (PlainPath(c, d, clock.frequency) || !old(scan.pending)) ==> admitted >= 1
      ensures limited && old(Steady(active, c)) ==>
        && old(rate.Positive())
        && Continued(clock.frequency, c, d, framesDrawn, swapTime, old(scan.pending), scan.pending,
                     old(State()), arrived, State(), due, time)
      ensures limited ==> rate.Positive()
      ensures !limited ==> unchanged(`restart, `fullRestart, `lazyInit, `lastReset)
      ensures !limited && old(SameRate(rate, Effective(c, !active))) ==> unchanged(clock) && State() == old(State())
      ensures unchanged(`limitBehavior)
    {
      hide Refresh, Deadline, Counts, Continued, SameRate, Sane, PlainPath, Claimed, Effective, Requests;
      limited, arrived, due := false, 0, 0;
      if ending || limitBehavior != 0 {
        return;
      }
      Retarget(active, c, d);
      if tracksWindow && !c.target.Positive() {
        return;
      }
      if Claimed(frameShame, thread, framesDrawn) {
        return;
      }
      frameShame := frameShame[thread := framesDrawn];
      limited := true;
      arrived, due := Limit(framesDrawn, swapTime, c, d);
    }
  }

  /**
   What a limited frame of a steady limiter does to its schedule.  It is counted, with the frames that it
   skips, and the wait ends as `Ended` says.  Only a measurement that is pending makes the count start again.
   */
  ghost predicate Continued(f: pos, c: Config, d: Display, framesDrawn: nat, swapTime: nat, pending: bool,
                            left: bool, was: Schedule, arrived: int, now: Schedule, due: int, time: int)
  {
    var plain, ticks := PlainPath(c, d, f), was.pace.ticks;
    && now.rate == was.rate
    && (plain || !pending ==> now.admitted == was.admitted + 1 && now.error == was.error)
    && (plain ==> now.slack == was.slack)
    && (ticks > 0 ==>
          var n := NextFrame(was.pace, was.frames, Boundary(c.presentInterval, Refresh(d, f), ticks), arrived);
          var missed := Missed(Coarse(was.pace, was.frames + 1), ticks, arrived);
          var asks := AsksRestart(c.presentInterval, missed, framesDrawn, was.lastReset);
          && Ended(plain, pending, left, swapTime, was.pace, n, arrived, now.pace, now.frames, due, time)
          && now.fullRestart == (was.fullRestart || asks)
          && now.lastReset == (if asks then framesDrawn else was.lastReset))
  }

  function Larger(x: nat, y: nat): nat {
    if x < y then y else x
  }

  /**
   What surrounds one frame of a thread: the window, the frame number, the swap time, the configuration and
   the display, and what the resync thread measured since the last one, if it did.
   */
  datatype Frame = Frame(active: bool, drawn: nat, swapTime: nat, c: Config, d: Display,
                         measured: bool, t0: int, target: int)

  /** Frame numbers rise, the limit is on, and the display can be divided by. */
  ghost predicate Presentable(frames: seq<Frame>, f: pos) {
    && (forall i, j :: 0 <= i < j < |frames| ==> frames[i].drawn < frames[j].drawn)
    && (forall x :: x in frames ==> x.c.target.Positive() && Sane(x.d, f))
  }

  /** What a run records before its first wait and after each: a measurement may be pending, the clock shows `now`. */
  datatype Record = Record(schedule: Schedule, pending: bool, now: nat, arrived: int, due: int, time: int)

  ghost predicate Shows(r: Record, l: Limiter)
    reads l, l.scan, l.clock
  {
    r.schedule == l.State() && r.pending == l.scan.pending && r.now == l.clock.now
  }

  /** Nothing makes the wait of frame `x` begin a new schedule, but a measurement on the latent-sync path. */
  predicate Calm(x: Frame, was: Schedule) {
    SameRate(was.rate, Effective(x.c, !x.active)) && !was.restart && !was.fullRestart && was.lazyInit
  }

  predicate Kept(f: pos, x: Frame, was: Record) {
    Calm(x, was.schedule) && (PlainPath(x.c, x.d, f) || !(was.pending || x.measured))
  }

  /** What the limited wait of frame `x` does. */
  ghost predicate Goes(f: pos, x: Frame, was: Record, now: Record) {
    var plain, pending := PlainPath(x.c, x.d, f), was.pending || x.measured;
    var asked := was.schedule.restart || was.schedule.fullRestart;
    && was.now < now.arrived <= now.now && now.due <= now.now
    && now.schedule.lazyInit && !now.schedule.restart && now.schedule.rate.Positive()
    && now.schedule.slack <= Larger(was.schedule.slack, x.swapTime / 2)
    && (if asked then now.schedule.rate == x.c.target && !now.schedule.fullRestart
        else SameRate(now.schedule.rate,
                      if x.active || !x.c.backgroundTarget.Positive() then x.c.target else x.c.backgroundTarget))
    && Requests(false, was.schedule.lastReset, x.c.presentInterval, x.drawn,
                now.schedule.fullRestart, now.schedule.lastReset)
    && (now.pending ==> pending) && (plain ==> now.pending == pending)
    && (if was.schedule.lazyInit then plain || !pending ==> now.schedule.admitted >= 1
        else now.schedule.frames == 0 && now.schedule.admitted == 0)
    && (Calm(x, was.schedule) ==>
          Continued(f, x.c, x.d, x.drawn, x.swapTime, pending, now.pending,
                    was.schedule, now.arrived, now.schedule, now.due, now.time))
  }

  /** The first waits of a run, one after the other. */
  ghost predicate Records(f: pos, frames: seq<Frame>, log: seq<Record>) {
    && 0 < |log| <= |frames| + 1
    && forall i | 0 <= i < |log| - 1 :: Goes(f, frames[i], log[i], log[i + 1])
  }

  predicate AllKept(f: pos, frames: seq<Frame>, log: seq<Record>, from: nat, end: nat)
    requires from <= end < |log| <= |frames| + 1
  {
    forall i | from <= i < end :: Kept(f, frames[i], log[i])
  }

  /** The rate bound for `n` frames. */
  predicate Paid(f: pos, r: Record, n: nat) {
    var s := r.schedule;
    n > 0 && s.rate.Positive() && s.pace.ticks > 0 ==>
      s.pace.start + n * (f * s.rate.den) / s.rate.num + n * s.error <= r.now + s.slack
  }

  /** After every stretch of kept frames the bound holds of them, with what had been admitted before. */
  ghost predicate AllPaid(f: pos, frames: seq<Frame>, log: seq<Record>)
    requires |log| <= |frames| + 1
  {
    forall from: nat, end: nat | from <= end < |log| && AllKept(f, frames, log, from, end) ::
      Paid(f, log[end], log[from].schedule.admitted + (end - from))
  }

  /** Kept frames are all admitted to one schedule. */
  lemma {:induction false} KeptAreAdmitted(f: pos, frames: seq<Frame>, log: seq<Record>, from: nat, end: nat)
    requires Records(f, frames, log)
    requires from <= end < |log| && AllKept(f, frames, log, from, end)
    ensures var was, now := log[from].schedule, log[end].schedule;
            now.admitted == was.admitted + (end - from) && now.rate == was.rate && now.error == was.error
    decreases end
  {
    hide SameRate, Ended, AsksRestart, Missed, NextFrame, Boundary, PlainPath;
    if from < end {
      KeptAreAdmitted(f, frames, log, from, end - 1);
      assert Goes(f, frames[end - 1], log[end - 1], log[end]) && Kept(f, frames[end - 1], log[end - 1]);
    }
  }

  /** The last request for a full restart is never forgotten: it was made at this frame or later. */
  lemma {:induction false} LastResetGrows(f: pos, frames: seq<Frame>, log: seq<Record>, i: nat, j: nat)
    requires Records(f, frames, log) && Presentable(frames, f)
    requires i < j < |log| && log[i + 1].schedule.fullRestart
    ensures log[j].schedule.lastReset >= frames[i].drawn
    decreases j
  {
    hide Calm, Continued, SameRate, PlainPath;
    assert Goes(f, frames[j - 1], log[j - 1], log[j]);
    if i + 1 < j {
      LastResetGrows(f, frames, log, i, j - 1);
    }
  }

  /** Over a whole run, two requests for a full restart lie more than sixteen frames apart, after the first sixteen. */
  lemma RestartsAreApart(f: pos, frames: seq<Frame>, log: seq<Record>, i: nat, j: nat)
    requires Records(f, frames, log) && Presentable(frames, f) && i < j < |log| - 1
    requires log[i + 1].schedule.fullRestart && log[j + 1].schedule.fullRestart
    ensures frames[j].drawn < 16 || frames[j].drawn > frames[i].drawn + 16
    ensures frames[i].c.presentInterval != 0 && frames[j].c.presentInterval != 0
  {
    hide Calm, Continued, SameRate, PlainPath;
    LastResetGrows(f, frames, log, i, j);
    assert Goes(f, frames[i], log[i], log[i + 1]) && Goes(f, frames[j], log[j], log[j + 1]);
  }

  /**
   The plainest run: a game in front, at one rate, without a present interval and on a display that reports no
   scanlines.  All of its frames are admitted, and take the time that as many frames take, since the start.
   */
  lemma PlainRun(f: pos, frames: seq<Frame>, log: seq<Record>)
    requires Records(f, frames, log) && AllPaid(f, frames, log) && |log| == |frames| + 1
    requires var s := log[0].schedule; s.lazyInit && !s.restart && !s.fullRestart && s.rate.Positive()
    requires forall x :: x in frames ==>
      x.active && x.c.presentInterval == 0 && x.d.hNumerator == 0 && SameRate(log[0].schedule.rate, x.c.target)
    ensures var r, n := log[|frames|], log[0].schedule.admitted + |frames|;
            var s := r.schedule;
            && s.admitted == n && s.rate == log[0].schedule.rate
            && (n > 0 && s.pace.ticks > 0 ==>
                  s.pace.start + n * (f * s.rate.den) / s.rate.num + n * s.error <= r.now + s.slack)
  {
    hide Goes, AllPaid, SameRate;
    PlainRunIsKept(f, frames, log, |frames|);
    KeptAreAdmitted(f, frames, log, 0, |frames|);
    AllPaidAt(f, frames, log, 0, |frames|);
  }

  lemma AllPaidAt(f: pos, frames: seq<Frame>, log: seq<Record>, from: nat, end: nat)
    requires |log| <= |frames| + 1 && AllPaid(f, frames, log)
    requires from <= end < |log| && AllKept(f, frames, log, from, end)
    ensures Paid(f, log[end], log[from].schedule.admitted + (end - from))
  {
    hide Paid, AllKept;
  }

  lemma {:induction false} PlainRunIsKept(f: pos, frames: seq<Frame>, log: seq<Record>, n: nat)
    requires Records(f, frames, log) && n < |log|
    requires var s := log[0].schedule; s.lazyInit && !s.restart && !s.fullRestart && s.rate.Positive()
    requires forall x :: x in frames ==>
      x.active && x.c.presentInterval == 0 && x.d.hNumerator == 0 && SameRate(log[0].schedule.rate, x.c.target)
    ensures AllKept(f, frames, log, 0, n)
    ensures var s := log[n].schedule;
            s.lazyInit && !s.restart && !s.fullRestart && s.rate == log[0].schedule.rate
    decreases n
  {
    hide SameRate, Ended, AsksRestart, Missed, NextFrame, Boundary;
    if n > 0 {
      PlainRunIsKept(f, frames, log, n - 1);
      var x := frames[n - 1];
      assert x in frames;
      assert Kept(f, x, log[n - 1]);
      assert Goes(f, x, log[n - 1], log[n]);
    }
  }

  /** One more wait on the record. */
  lemma RecordOneMore(f: pos, frames: seq<Frame>, log: seq<Record>, r: Record)
    requires Records(f, frames, log) && |log| <= |frames| && AllPaid(f, frames, log)
    requires Goes(f, frames[|log| - 1], log[|log| - 1], r)
    requires forall n: nat | n <= r.schedule.admitted :: Paid(f, r, n)
    ensures Records(f, frames, log + [r]) && AllPaid(f, frames, log + [r])
  {
    hide Goes, Kept, Paid;
    var log' := log + [r];
    forall from: nat, end: nat | from <= end < |log'| && AllKept(f, frames, log', from, end)
      ensures Paid(f, log'[end], log'[from].schedule.admitted + (end - from))
    {
      if end < |log| {
        forall i | from <= i < end ensures Kept(f, frames[i], log[i]) {
          assert Kept(f, frames[i], log'[i]);
        }
        assert Paid(f, log[end], log[from].schedule.admitted + (end - from));
      } else {
        KeptAreAdmitted(f, frames, log', from, end);
      }
    }
  }

  lemma RecordFirst(f: pos, frames: seq<Frame>, r: Record)
    requires forall n: nat | n <= r.schedule.admitted :: Paid(f, r, n)
    ensures Records(f, frames, [r]) && AllPaid(f, frames, [r])
  {
    hide Paid;
  }

  /** The bound holds of what a limiter has admitted. */
  lemma AdmittedArePaid(l: Limiter, r: Record)
    requires l.Valid() && Shows(r, l)
    ensures forall n: nat | n <= r.schedule.admitted :: Paid(l.clock.frequency, r, n)
  {
    hide Counts, Deadline;
    forall n: nat | n <= r.schedule.admitted ensures Paid(l.clock.frequency, r, n) {
      if n > 0 && l.rate.Positive() && l.ticks > 0 {
        l.RateBound(n);
      }
    }
  }

  /** A limiter that is on limits this frame, and then has the later ones still to limit. */
  lemma NextIsLimited(l: Limiter, thread: int, frames: seq<Frame>, i: nat)
    requires l.limitBehavior == 0 && Presentable(frames, l.clock.frequency) && i < |frames|
    requires forall x :: x in frames[i..] ==> !Claimed(l.frameShame, thread, x.drawn)
    ensures var x := frames[i];
            && Sane(x.d, l.clock.frequency) && !l.Idle(false, x.c) && !Claimed(l.frameShame, thread, x.drawn)
            && Claimed(l.frameShame[thread := x.drawn], thread, x.drawn)
            && (Calm(x, l.State()) ==> l.Steady(x.active, x.c))
    ensures forall x :: x in frames[i + 1..] ==> !Claimed(l.frameShame[thread := frames[i].drawn], thread, x.drawn)
  {
    hide SameRate, Sane, Effective, PlainPath;
    assert frames[i] in frames && frames[i] in frames[i..];
  }

  /** What `Wait` ensures of a limited frame. */
  lemma WaitGoes(l: Limiter, x: Frame, was: Record, r: Record)
    requires Shows(r, l) && l.lazyInit && !l.restart && l.rate.Positive()
    requires was.now < r.arrived <= r.now && r.due <= r.now && l.slack <= Larger(was.schedule.slack, x.swapTime / 2)
    requires var asked := was.schedule.restart || was.schedule.fullRestart;
             if asked then l.rate == x.c.target && !l.fullRestart
             else SameRate(l.rate,
                           if x.active || !x.c.backgroundTarget.Positive() then x.c.target else x.c.backgroundTarget)
    requires Requests(false, was.schedule.lastReset, x.c.presentInterval, x.drawn, l.fullRestart, l.lastReset)
    requires var plain, pending := PlainPath(x.c, x.d, l.clock.frequency), was.pending || x.measured;
             && (l.scan.pending ==> pending) && (plain ==> l.scan.pending == pending)
             && (if was.schedule.lazyInit then plain || !pending ==> l.admitted >= 1
                 else l.frames == 0 && l.admitted == 0)
             && (Calm(x, was.schedule) ==>
                   Continued(l.clock.frequency, x.c, x.d, x.drawn, x.swapTime, pending, l.scan.pending,
                             was.schedule, r.arrived, l.State(), r.due, r.time))
    ensures Goes(l.clock.frequency, x, was, r)
  {
    hide SameRate, PlainPath, Continued, Calm, Requests;
  }

  /**
   A run of waits, in whatever surroundings.  Every one of them is limited, and goes on with the schedule
   unless the rate changed, a restart was asked for, or latent sync met a measurement.  So for any stretch of
   frames for which none of this happens, the rate bound holds of all of them together.
   */
  method PresentFrames(l: Limiter, thread: int, frames: seq<Frame>) returns (ghost log: seq<Record>)
    requires l.Valid() && l.limitBehavior == 0 && Presentable(frames, l.clock.frequency)
    requires forall x :: x in frames ==> !Claimed(l.frameShame, thread, x.drawn)
    modifies l, l.clock, l.scan
    ensures l.Valid()
    ensures |log| == |frames| + 1 && Records(l.clock.frequency, frames, log)
    ensures old(Shows(log[0], l)) && Shows(log[|frames|], l)
    ensures frames != [] ==> Claimed(l.frameShame, thread, frames[|frames| - 1].drawn)
    ensures AllPaid(l.clock.frequency, frames, log)
  {
    hide Limiter.Valid, Limiter.Steady, Limiter.Idle, AllPaid, Paid, Records, Goes, Continued, Calm, Claimed;
    hide SameRate, PlainPath, Sane, Effective, Presentable, Requests;
    ghost var r := Record(l.State(), l.scan.pending, l.clock.now, 0, 0, 0);
    log := [r];
    AdmittedArePaid(l, r);
    RecordFirst(l.clock.frequency, frames, r);
    for i := 0 to |frames|
      invariant l.Valid() && l.limitBehavior == 0
      invariant forall x :: x in frames[i..] ==> !Claimed(l.frameShame, thread, x.drawn)
      invariant |log| == i + 1 && Records(l.clock.frequency, frames, log)
      invariant old(Shows(log[0], l)) && Shows(log[i], l)
      invariant i > 0 ==> Claimed(l.frameShame, thread, frames[i - 1].drawn)
      invariant AllPaid(l.clock.frequency, frames, log)
    {
      var x := frames[i];
      if x.measured {
        l.scan.t0, l.scan.target, l.scan.pending := x.t0, x.target, true;
      }
      NextIsLimited(l, thread, frames, i);
      var limited, arrived, due := l.Wait(false, x.active, thread, x.drawn, x.swapTime, x.c, x.d);
      r := Record(l.State(), l.scan.pending, l.clock.now, arrived, due, l.time);
      WaitGoes(l, x, log[i], r);
      AdmittedArePaid(l, r);
      RecordOneMore(l.clock.frequency, frames, log, r);
      log := log + [r];
    }
  }

  /** When latent sync is taken: without a present interval, if a scanline takes two ticks or more. */
  lemma LatentSyncIsTaken(c: Config, d: Display, f: pos)
    ensures !PlainPath(c, d, f)
       <==> c.presentInterval == 0 && d.hNumerator > 0 && 2 * d.hNumerator <= d.hDenominator * f
  {
    if d.hNumerator > 0 {
      var x, n := d.hDenominator * f, d.hNumerator;
      var q := x / n;
      DivisionLaw(x, n);
      Spread(n, q - 2);
      Spread(n, q - 1);
      assert n * (q - 2) == n * q - 2 * n && n * (q - 1) == n * q - n;
    }
  }

  /** Without latent sync, which needs an unsynchronised swap and a display that reports its scanlines. */
  predicate PlainPath(c: Config, d: Display, f: pos) {
    c.presentInterval != 0 || Scanline(d, f) <= 1
  }

  /**
   How a wait ends whose frame is the `n`-th of the schedule `was` and arrived at `arrived`.  It returns at
   `due`, or at once when that has passed.  On the plain path that is the deadline, and the schedule stays.
   With latent sync it is at most half a swap earlier; a pending measurement restarts the schedule, and is
   not `left` for later.  If the deadline is not positive, the start moves so that it becomes zero.
   */
  ghost predicate Ended(plain: bool, pending: bool, left: bool, swapTime: nat, was: Timing, n: nat, arrived: int,
                        pace: Timing, frames: nat, due: int, time: int)
  {
    was.whole > 0 ==>
      var planned := Deadline(was, n);
      if planned <= 0 then
        frames == n && due == planned && pace == was.(start := was.start - due) && time == arrived && left == pending
      else
        && arrived <= time && due <= time && (due <= arrived ==> time == arrived)
        && left == (plain && pending)
        && (if plain then frames == n && pace == was && due == planned
            else if pending then frames == 0 && due >= pace.start - swapTime / 2
            else frames == n && pace == was && due >= planned - swapTime / 2)
  }
}
