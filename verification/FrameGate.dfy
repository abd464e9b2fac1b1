/**
 Where in a frame the limiter is called, and why a thread is limited once a frame number.

 Five places of the swap functions call the limiter, each if the enforcement policy is its own number, and
 the frame counter goes up at the end.  The policy may change at any moment: the user sets it, and latent
 sync forces it to 4 from inside the wait.  Any number of threads present frames.
 */
module FrameGate {

  /** The places a presenting thread goes through, in order. */
  datatype Site = BeginEarly | BeginLate | BeginLast | EndEarly | EndLate | CountFrame

  const LATENT_SYNC := 4

  function Policy(site: Site): int
    requires !site.CountFrame?
  {
    match site
    case BeginEarly => 0
    case BeginLate => 1
    case BeginLast => LATENT_SYNC
    case EndEarly => 3
    case EndLate => 2
  }

  function Following(site: Site): Site {
    match site
    case BeginEarly => BeginLate
    case BeginLate => BeginLast
    case BeginLast => EndEarly
    case EndEarly => EndLate
    case EndLate => CountFrame
    case CountFrame => BeginEarly
  }

  /** How many sites are left in the frame. */
  function Left(site: Site): nat {
    match site
    case BeginEarly => 6
    case BeginLate => 5
    case BeginLast => 4
    case EndEarly => 3
    case EndLate => 2
    case CountFrame => 1
  }

  /** A thread has had its limit on this frame number already. */
  predicate Claimed(shame: map<int, nat>, thread: int, drawn: nat) {
    thread in shame && shame[thread] == drawn
  }

  /** `log` records, thread by thread, the frame numbers on which the deadline was advanced. */
  datatype State = State(drawn: nat, policy: int, at: map<int, Site>, shame: map<int, nat>, log: map<int, seq<nat>>) {
    function At(thread: int): Site {
      if thread in at then at[thread] else BeginEarly
    }

    function Log(thread: int): seq<nat> {
      if thread in log then log[thread] else []
    }
  }

  /**
   A thread goes through its next site; `waits` says whether the site waits at all (there is a swap chain,
   the present succeeded, the limiter is on), `latent` whether latent sync is in use.  Or the policy is set.
   */
  datatype Action = Pass(thread: int, waits: bool, latent: bool) | SetPolicy(policy: int)

  function Start(policy: int): State {
    State(0, policy, map[], map[], map[])
  }

  /** Whether this action calls the limiter's wait. */
  predicate Calls(s: State, a: Action) {
    && a.Pass? && a.waits
    && var site := s.At(a.thread);
       !site.CountFrame? && s.policy == Policy(site)
  }

  function Do(s: State, a: Action): State {
    match a
    case SetPolicy(p) => s.(policy := p)
    case Pass(t, _, latent) =>
      var site := s.At(t);
      var moved := s.(at := s.at[t := Following(site)]);
      if site.CountFrame? then moved.(drawn := s.drawn + 1)
      else if Calls(s, a) && !Claimed(s.shame, t, s.drawn) then
        moved.(shame := s.shame[t := s.drawn], log := s.log[t := s.Log(t) + [s.drawn]],
               policy := if latent then LATENT_SYNC else s.policy)
      else moved
  }

  function Run(s: State, actions: seq<Action>): State
    decreases |actions|
  {
    if actions == [] then s else Run(Do(s, actions[0]), actions[1..])
  }

  // ---------------------------------------------------------------------------------------------
  // At most once
  // ---------------------------------------------------------------------------------------------

  ghost predicate Ascending(log: seq<nat>) {
    forall i, j :: 0 <= i < j < |log| ==> log[i] < log[j]
  }

  /** The log of a thread ascends up to the number the thread has claimed, which has been drawn. */
  ghost predicate Honest(s: State, t: int) {
    var log := s.Log(t);
    && Ascending(log)
    && (t in s.shame <==> log != [])
    && (log != [] ==> log[|log| - 1] == s.shame[t] <= s.drawn)
  }

  lemma StaysHonest(s: State, a: Action, t: int)
    requires Honest(s, t)
    ensures Honest(Do(s, a), t)
  {}

  /**
   In every run, whatever the threads, the policy changes and the interleaving, a thread advances the
   limiter's deadline at most once for each frame number.
   */
  lemma {:induction false} AtMostOncePerFrame(s: State, actions: seq<Action>, t: int)
    requires Honest(s, t)
    ensures Ascending(Run(s, actions).Log(t))
    decreases |actions|
  {
    if actions != [] {
      StaysHonest(s, actions[0], t);
      AtMostOncePerFrame(Do(s, actions[0]), actions[1..], t);
    }
  }

  /** In particular from the start: no two entries of a log are the same. */
  lemma FromTheStart(policy: int, actions: seq<Action>, t: int, i: nat, j: nat)
    ensures var log := Run(Start(policy), actions).Log(t);
            i < j < |log| ==> log[i] < log[j]
  {
    AtMostOncePerFrame(Start(policy), actions, t);
  }

  /** The frame numbers at which thread `t` passes a site while the policy is that site's number. */
  function Numbers(s: State, t: int, actions: seq<Action>): seq<nat>
    decreases |actions|
  {
    if actions == [] then []
    else
      (if Passes(actions[0], t) && Calls(s, actions[0]) then [s.drawn] else [])
      + Numbers(Do(s, actions[0]), t, actions[1..])
  }

  predicate Passes(a: Action, t: int) {
    a.Pass? && a.thread == t
  }

  /** Without repetitions, and without a first number that has been claimed. */
  function Fresh(shame: map<int, nat>, t: int, numbers: seq<nat>): seq<nat>
    decreases |numbers|
  {
    if numbers == [] then []
    else if Claimed(shame, t, numbers[0]) then Fresh(shame, t, numbers[1..])
    else [numbers[0]] + Fresh(shame[t := numbers[0]], t, numbers[1..])
  }

  lemma {:induction false} FreshOfSameClaim(shame: map<int, nat>, other: map<int, nat>, t: int, numbers: seq<nat>)
    requires SameClaim(shame, other, t)
    ensures Fresh(shame, t, numbers) == Fresh(other, t, numbers)
    decreases |numbers|
  {
    if numbers != [] {
      FreshOfSameClaim(shame, other, t, numbers[1..]);
      FreshOfSameClaim(shame[t := numbers[0]], other[t := numbers[0]], t, numbers[1..]);
    }
  }

  predicate SameClaim(shame: map<int, nat>, other: map<int, nat>, t: int) {
    (t in shame <==> t in other) && (t in shame ==> shame[t] == other[t])
  }

  /** What one action does to a thread's log and claim. */
  lemma ActionLimits(s: State, t: int, a: Action)
    ensures var next := Do(s, a);
            if Passes(a, t) && Calls(s, a) && !Claimed(s.shame, t, s.drawn)
            then next.Log(t) == s.Log(t) + [s.drawn] && next.shame == s.shame[t := s.drawn]
            else next.Log(t) == s.Log(t) && SameClaim(s.shame, next.shame, t)
  {}

  /**
   When a thread is limited, exactly, in every run and whatever other threads present: once for each frame
   number at which it meets the policy, unless it was limited on that number before.
   */
  lemma {:induction false} LimitedExactly(s: State, t: int, actions: seq<Action>)
    ensures Run(s, actions).Log(t) == s.Log(t) + Fresh(s.shame, t, Numbers(s, t, actions))
    decreases |actions|
  {
    hide Do, Calls, Claimed, State.Log;
    if actions == [] {
      assert s.Log(t) + [] == s.Log(t);
    } else {
      var a, rest := actions[0], actions[1..];
      var next := Do(s, a);
      var more := Numbers(next, t, rest);
      ActionLimits(s, t, a);
      LimitedExactly(next, t, rest);
      if Passes(a, t) && Calls(s, a) {
        assert Numbers(s, t, actions) == [s.drawn] + more && ([s.drawn] + more)[1..] == more;
      } else {
        assert Numbers(s, t, actions) == [] + more == more;
      }
      if !(Passes(a, t) && Calls(s, a) && !Claimed(s.shame, t, s.drawn)) {
        FreshOfSameClaim(s.shame, next.shame, t, more);
      }
    }
  }

  // ---------------------------------------------------------------------------------------------
  // Once in every frame
  // ---------------------------------------------------------------------------------------------

  /** How many sites thread `t` passes. */
  function Passings(t: int, actions: seq<Action>): nat
    decreases |actions|
  {
    if actions == [] then 0 else (if Passes(actions[0], t) then 1 else 0) + Passings(t, actions[1..])
  }

  lemma {:induction false} FreshIsEmpty(shame: map<int, nat>, t: int, numbers: seq<nat>)
    ensures Fresh(shame, t, numbers) == [] <==> forall m :: m in numbers ==> Claimed(shame, t, m)
    decreases |numbers|
  {
    if numbers != [] && Claimed(shame, t, numbers[0]) {
      FreshIsEmpty(shame, t, numbers[1..]);
      assert numbers == [numbers[0]] + numbers[1..];
    }
  }

  lemma FreshIsOne(shame: map<int, nat>, t: int, numbers: seq<nat>)
    requires numbers != [] && !Claimed(shame, t, numbers[0])
    ensures |Fresh(shame, t, numbers)| == 1 <==> forall m :: m in numbers ==> m == numbers[0]
  {
    var others := numbers[1..];
    var more := Fresh(shame[t := numbers[0]], t, others);
    FreshIsEmpty(shame[t := numbers[0]], t, others);
    assert numbers == [numbers[0]] + others && Fresh(shame, t, numbers) == [numbers[0]] + more;
    if forall m :: m in numbers ==> m == numbers[0] {
      assert forall m :: m in others ==> m in numbers;
    }
  }

  lemma {:induction false} FreshAreNumbers(shame: map<int, nat>, t: int, numbers: seq<nat>)
    ensures forall m :: m in Fresh(shame, t, numbers) ==> m in numbers
    decreases |numbers|
  {
    if numbers != [] {
      FreshAreNumbers(shame, t, numbers[1..]);
      FreshAreNumbers(shame[t := numbers[0]], t, numbers[1..]);
    }
  }

  /** The rest of a frame ends with the count, which makes the counter pass every number the frame met. */
  lemma {:induction false} NumbersRise(s: State, t: int, actions: seq<Action>)
    requires Passings(t, actions) == Left(s.At(t)) || Passings(t, actions) == 0
    ensures var e := Run(s, actions);
            && s.drawn <= e.drawn
            && (Passings(t, actions) > 0 ==> e.At(t).BeginEarly? && s.drawn < e.drawn)
            && (Passings(t, actions) == 0 ==> e.At(t) == s.At(t))
            && forall m :: m in Numbers(s, t, actions) ==> s.drawn <= m < e.drawn
    decreases |actions|
  {
    if actions != [] {
      NumbersRise(Do(s, actions[0]), t, actions[1..]);
    }
  }

  /**
   The rest of a frame of thread `t`, from any site, while the policy is set at any moment and other threads
   pass sites and complete frames of theirs.  The thread is limited in it if and only if it meets the policy
   on a frame number that it has not been limited on; and, if the frame has not been limited before, exactly
   once if and only if it meets the policy on one number.  It begins the next frame without a claim.
   */
  lemma LimitedWhenMet(s: State, t: int, actions: seq<Action>)
    requires Honest(s, t) && Passings(t, actions) == Left(s.At(t))
    ensures var e, n, numbers := Run(s, actions), |s.Log(t)|, Numbers(s, t, actions);
            && n <= |e.Log(t)| && e.Log(t)[..n] == s.Log(t)
            && (n < |e.Log(t)| <==> exists m :: m in numbers && !Claimed(s.shame, t, m))
            && (forall i | n <= i < |e.Log(t)| :: s.drawn <= e.Log(t)[i] < e.drawn)
            && (!Claimed(s.shame, t, s.drawn) ==>
                  && (n < |e.Log(t)| <==> numbers != [])
                  && (|e.Log(t)| == n + 1 <==> numbers != [] && forall m :: m in numbers ==> m == numbers[0]))
            && e.At(t).BeginEarly? && s.drawn < e.drawn && Honest(e, t) && !Claimed(e.shame, t, e.drawn)
  {
    hide Run, Numbers, Passings, Fresh, Ascending;
    var e, n, numbers := Run(s, actions), |s.Log(t)|, Numbers(s, t, actions);
    var gained := Fresh(s.shame, t, numbers);
    LimitedExactly(s, t, actions);
    NumbersRise(s, t, actions);
    FreshAreNumbers(s.shame, t, numbers);
    FreshIsEmpty(s.shame, t, numbers);
    RunStaysHonest(s, actions, t);
    forall i | n <= i < |e.Log(t)|
      ensures s.drawn <= e.Log(t)[i] < e.drawn
    {
      assert e.Log(t)[i] == gained[i - n] && gained[i - n] in gained;
    }
    if numbers != [] {
      assert numbers[0] in numbers;
      if !Claimed(s.shame, t, s.drawn) {
        FreshIsOne(s.shame, t, numbers);
      }
    }
  }

  lemma {:induction false} RunStaysHonest(s: State, actions: seq<Action>, t: int)
    requires Honest(s, t)
    ensures Honest(Run(s, actions), t)
    decreases |actions|
  {
    if actions != [] {
      StaysHonest(s, actions[0], t);
      RunStaysHonest(Do(s, actions[0]), actions[1..], t);
    }
  }

  /** No other thread completes a frame. */
  predicate Alone(s: State, t: int, actions: seq<Action>)
    decreases |actions|
  {
    actions != [] ==>
      && (actions[0].Pass? && actions[0].thread != t ==> !s.At(actions[0].thread).CountFrame?)
      && Alone(Do(s, actions[0]), t, actions[1..])
  }

  /** Then the thread meets the policy on one number only. */
  lemma {:induction false} AloneOnOneNumber(s: State, t: int, actions: seq<Action>)
    requires Passings(t, actions) == Left(s.At(t)) || Passings(t, actions) == 0
    requires Alone(s, t, actions)
    ensures Run(s, actions).drawn == if Passings(t, actions) > 0 then s.drawn + 1 else s.drawn
    ensures forall m :: m in Numbers(s, t, actions) ==> m == s.drawn && Passings(t, actions) > 0
    decreases |actions|
  {
    if actions != [] {
      AloneOnOneNumber(Do(s, actions[0]), t, actions[1..]);
    }
  }

  /** The policy is not set, no other thread is in latent sync, and every site of thread `t` waits. */
  predicate Undisturbed(t: int, actions: seq<Action>) {
    forall a :: a in actions ==> a.Pass? && (if a.thread == t then a.waits else !a.latent)
  }

  predicate WithoutLatentSync(actions: seq<Action>) {
    forall a :: a in actions && a.Pass? ==> !a.latent
  }

  /** The site of this policy is still to come. */
  predicate Ahead(policy: int, site: Site) {
    exists other: Site :: !other.CountFrame? && Policy(other) == policy && Left(other) <= Left(site)
  }

  /** What is still to come of a frame after one more of its sites, and what else the action changes. */
  lemma OnePass(s: State, t: int, a: Action)
    requires a.Pass?
    ensures var next, site := Do(s, a), s.At(t);
            && next.At(t) == (if a.thread == t then Following(site) else site)
            && (a.latent || next.policy == s.policy)
            && (a.thread == t && !Calls(s, a) ==> next.policy == s.policy)
    ensures var site := s.At(t);
            var later := Ahead(s.policy, Following(site));
            || site.CountFrame?
            || (if s.policy == Policy(site) then Ahead(s.policy, site) && !later else Ahead(s.policy, site) == later)
    ensures !Ahead(s.policy, CountFrame)
  {}

  /**
   With a policy from 0 to 4 that nobody sets in mid-frame, and whatever latent sync forces, the policy is
   met; without latent sync it is met once.
   */
  lemma {:induction false} SteadyPolicyIsMet(s: State, t: int, actions: seq<Action>)
    requires Passings(t, actions) == Left(s.At(t)) || Passings(t, actions) == 0
    requires Undisturbed(t, actions)
    ensures Passings(t, actions) > 0 && Ahead(s.policy, s.At(t)) ==> Numbers(s, t, actions) != []
    ensures WithoutLatentSync(actions) ==> |Numbers(s, t, actions)| <= 1
    ensures WithoutLatentSync(actions) && (Passings(t, actions) == 0 || !Ahead(s.policy, s.At(t))) ==>
      Numbers(s, t, actions) == []
    decreases |actions|
  {
    hide Do, Ahead, State.At, Policy;
    if actions != [] {
      var a, rest := actions[0], actions[1..];
      assert a in actions && forall b :: b in rest ==> b in actions;
      OnePass(s, t, a);
      SteadyPolicyIsMet(Do(s, a), t, rest);
    }
  }

  /** Nobody sets the policy, and what latent sync forces is in the range. */
  lemma {:induction false} PolicyStaysInRange(s: State, t: int, actions: seq<Action>)
    requires Undisturbed(t, actions) && 0 <= s.policy <= 4
    ensures 0 <= Run(s, actions).policy <= 4
    decreases |actions|
  {
    if actions != [] {
      assert actions[0] in actions && forall b :: b in actions[1..] ==> b in actions;
      PolicyStaysInRange(Do(s, actions[0]), t, actions[1..]);
    }
  }

  /** A thread about to begin a frame that it has not been limited on, under a policy that has a site. */
  ghost predicate Ready(s: State, t: int) {
    s.At(t).BeginEarly? && 0 <= s.policy <= 4 && Honest(s, t) && !Claimed(s.shame, t, s.drawn)
  }

  /** How far a thread is into its frame, and that it is not limited before the site of a policy that stays. */
  lemma {:induction false} UntilItsSite(s: State, t: int, before: seq<Action>)
    requires Undisturbed(t, before) && WithoutLatentSync(before) && Passings(t, before) < Left(s.At(t))
    ensures var m := Run(s, before);
            && m.policy == s.policy && m.drawn >= s.drawn && Left(m.At(t)) == Left(s.At(t)) - Passings(t, before)
            && (Ahead(s.policy, m.At(t)) ==> m.Log(t) == s.Log(t) && SameClaim(s.shame, m.shame, t))
    decreases |before|
  {
    if before != [] {
      var a, rest := before[0], before[1..];
      assert a in before && forall b :: b in rest ==> b in before;
      OneSite(s, t, a);
      UntilItsSite(Do(s, a), t, rest);
    }
  }

  lemma OneSite(s: State, t: int, a: Action)
    requires a.Pass? && !a.latent && (a.thread == t ==> Left(s.At(t)) > 1)
    ensures var next := Do(s, a);
            && next.policy == s.policy && next.drawn >= s.drawn
            && Left(next.At(t)) == Left(s.At(t)) - (if a.thread == t then 1 else 0)
            && (Ahead(s.policy, next.At(t)) ==> next.Log(t) == s.Log(t) && SameClaim(s.shame, next.shame, t))
  {}

  /**
   Where a frame is limited: under policies 0 and 1 at the first and the second site that its thread passes,
   under 4 at the third, under 3 at the fourth and under 2 at the fifth, and nowhere else.
   */
  lemma SteadyPolicyLimitsAt(s: State, t: int, before: seq<Action>, a: Action)
    requires Ready(s, t) && Undisturbed(t, before + [a]) && WithoutLatentSync(before + [a])
    requires Passes(a, t) && Passings(t, before) < 6
    ensures var m, k := Run(s, before), Passings(t, before);
            Do(m, a).Log(t)
            == m.Log(t) + if (s.policy, k) in {(0, 0), (1, 1), (4, 2), (3, 3), (2, 4)} then [m.drawn] else []
  {
    hide Run, Passings;
    var m, k := Run(s, before), Passings(t, before);
    assert a in before + [a] && forall b :: b in before ==> b in before + [a];
    UntilItsSite(s, t, before);
    assert Left(m.At(t)) == 6 - k;
  }

  /** Between `s` and `e` thread `t` was limited, on numbers that were counted in between; only once, if `once`. */
  ghost predicate Limited(s: State, e: State, t: int, once: bool) {
    var n, log := |s.Log(t)|, e.Log(t);
    && n < |log| && log[..n] == s.Log(t) && (once ==> |log| == n + 1)
    && forall i | n <= i < |log| :: s.drawn <= log[i] < e.drawn
  }

  /**
   So a frame is limited, whatever frames other threads complete meanwhile, and the next one finds the thread
   ready again.  It is limited exactly once unless latent sync is met while others complete frames.
   */
  lemma SteadyPolicyLimitsFrame(s: State, t: int, actions: seq<Action>)
    requires Ready(s, t) && Passings(t, actions) == 6 && Undisturbed(t, actions)
    ensures var e := Run(s, actions);
            && Ready(e, t) && Limited(s, e, t, WithoutLatentSync(actions) || Alone(s, t, actions))
            && (Alone(s, t, actions) ==> e.drawn == s.drawn + 1)
  {
    hide Run, Numbers, Passings, Undisturbed, Alone, WithoutLatentSync;
    var site := match s.policy
      case 0 => BeginEarly
      case 1 => BeginLate
      case 2 => EndLate
      case 3 => EndEarly
      case _ => BeginLast;
    assert Policy(site) == s.policy && Left(site) <= 6;
    SteadyPolicyIsMet(s, t, actions);
    LimitedWhenMet(s, t, actions);
    PolicyStaysInRange(s, t, actions);
    if Alone(s, t, actions) {
      AloneOnOneNumber(s, t, actions);
    }
    var numbers := Numbers(s, t, actions);
    assert numbers[0] in numbers;
  }

  /** A run of whole frames of thread `t`, one after the other, whatever others do meanwhile. */
  predicate WholeFrames(t: int, frames: seq<seq<Action>>) {
    forall frame :: frame in frames ==> Passings(t, frame) == 6 && Undisturbed(t, frame)
  }

  function RunAll(s: State, frames: seq<seq<Action>>): State
    decreases |frames|
  {
    if frames == [] then s else RunAll(Run(s, frames[0]), frames[1..])
  }

  /** Every one of these frames is limited, and exactly once unless latent sync is met while others complete frames. */
  ghost predicate EachLimited(s: State, t: int, frames: seq<seq<Action>>)
    decreases |frames|
  {
    frames != [] ==>
      var frame, next := frames[0], Run(s, frames[0]);
      Limited(s, next, t, WithoutLatentSync(frame) || Alone(s, t, frame)) && EachLimited(next, t, frames[1..])
  }

  /** No other thread completes a frame in any of these. */
  predicate AllAlone(s: State, t: int, frames: seq<seq<Action>>)
    decreases |frames|
  {
    frames != [] ==> Alone(s, t, frames[0]) && AllAlone(Run(s, frames[0]), t, frames[1..])
  }

  /** The numbers from `first` on. */
  function From(first: nat, n: nat): (numbers: seq<nat>)
    ensures |numbers| == n
  {
    seq(n, i requires 0 <= i < n => first + i)
  }

  /**
   Over a whole run, every frame is limited.  If latent sync is never met, exactly once; and if no other
   thread completes a frame, the log gains the numbers of all frames, in order.
   */
  lemma {:induction false} SteadyPolicyLimitsEveryFrame(s: State, t: int, frames: seq<seq<Action>>)
    requires Ready(s, t) && WholeFrames(t, frames)
    ensures var e := RunAll(s, frames);
            && Ready(e, t) && EachLimited(s, t, frames)
            && |e.Log(t)| >= |s.Log(t)| + |frames|
            && ((forall frame :: frame in frames ==> WithoutLatentSync(frame)) ==> |e.Log(t)| == |s.Log(t)| + |frames|)
            && (AllAlone(s, t, frames) ==> e.Log(t) == s.Log(t) + From(s.drawn, |frames|))
    decreases |frames|
  {
    hide Ready, Run, Passings, Undisturbed, Alone, WithoutLatentSync, State.Log;
    if frames != [] {
      var frame, rest, next := frames[0], frames[1..], Run(s, frames[0]);
      assert frame in frames && forall other :: other in rest ==> other in frames;
      SteadyPolicyLimitsFrame(s, t, frame);
      SteadyPolicyLimitsEveryFrame(next, t, rest);
      if AllAlone(s, t, frames) {
        var n := |s.Log(t)|;
        assert next.Log(t) == s.Log(t) + [s.drawn];
        assert From(s.drawn, |frames|) == [s.drawn] + From(s.drawn + 1, |frames| - 1);
      }
    }
  }

  /** In particular from the start, under every policy that has a site. */
  lemma EveryFrameFromTheStart(policy: int, t: int, frames: seq<seq<Action>>)
    requires 0 <= policy <= 4 && WholeFrames(t, frames)
    ensures var log := RunAll(Start(policy), frames).Log(t);
            && EachLimited(Start(policy), t, frames) && |log| >= |frames|
            && ((forall frame :: frame in frames ==> WithoutLatentSync(frame)) ==> |log| == |frames|)
            && (AllAlone(Start(policy), t, frames) ==> forall k :: 0 <= k < |frames| ==> log[k] == k)
  {
    hide RunAll, AllAlone, EachLimited, WholeFrames, WithoutLatentSync;
    SteadyPolicyLimitsEveryFrame(Start(policy), t, frames);
  }

  // ---------------------------------------------------------------------------------------------
  // Not at all, and twice
  // ---------------------------------------------------------------------------------------------

  /** The first action of a run. */
  lemma OneAction(s: State, t: int, a: Action, rest: seq<Action>)
    ensures Run(s, [a] + rest) == Run(Do(s, a), rest)
    ensures Passings(t, [a] + rest) == (if Passes(a, t) then 1 else 0) + Passings(t, rest)
    ensures Alone(s, t, [a] + rest) <==>
      (a.Pass? && a.thread != t ==> !s.At(a.thread).CountFrame?) && Alone(Do(s, a), t, rest)
  {
    assert ([a] + rest)[1..] == rest;
  }

  /** A frame that slips through: the user goes from policy 2 to 4 after the last site of the begin function. */
  lemma PolicyChangeSkipsAFrame()
    ensures var p := Pass(1, true, false);
            var frame := [p, p, p, SetPolicy(4), p, p, p];
            Passings(1, frame) == 6 && Alone(Start(2), 1, frame) && Run(Start(2), frame).Log(1) == []
  {
    hide Run, Passings, Alone;
    var p, change := Pass(1, true, false), SetPolicy(4);
    var s0 := Start(2);
    var s1 := Do(s0, p);
    var s2 := Do(s1, p);
    var s3 := Do(s2, p);
    var s4 := Do(s3, change);
    var s5 := Do(s4, p);
    var s6 := Do(s5, p);
    var s7 := Do(s6, p);
    assert s1.At(1) == BeginLate && s2.At(1) == BeginLast && s4.At(1) == EndEarly;
    assert s5.At(1) == EndLate && s6.At(1) == CountFrame && s7.Log(1) == [];
    var r6 := [p];
    var r5 := [p] + r6;
    var r4 := [p] + r5;
    var r3 := [change] + r4;
    var r2 := [p] + r3;
    var r1 := [p] + r2;
    NoAction(s7, 1);
    OneAction(s6, 1, p, []);
    OneAction(s5, 1, p, r6);
    OneAction(s4, 1, p, r5);
    OneAction(s3, 1, change, r4);
    OneAction(s2, 1, p, r3);
    OneAction(s1, 1, p, r2);
    OneAction(s0, 1, p, r1);
    assert [p] + [] == r6 && [p] + r1 == [p, p, p, change, p, p, p];
  }

  lemma NoAction(s: State, t: int)
    ensures Run(s, []) == s && Passings(t, []) == 0 && Alone(s, t, [])
  {}

  /**
   A frame that is limited twice: latent sync is met at the first site and forces the policy to 4, whose site
   is still to come, and another thread completes a frame in between.
   */
  lemma LatentSyncLimitsTwice()
    ensures var first, p, other := Pass(1, true, true), Pass(1, true, false), Pass(2, false, false);
            var frame := [first] + ([other, other, other, other, other, other] + [p, p, p, p, p]);
            Passings(1, frame) == 6 && Undisturbed(1, frame) && Run(Start(0), frame).Log(1) == [0, 1]
  {
    hide Run, Passings, Alone;
    var first, p, other := Pass(1, true, true), Pass(1, true, false), Pass(2, false, false);
    var s1 := Do(Start(0), first);
    var end := [p, p, p, p, p];
    OneAction(Start(0), 1, first, [other, other, other, other, other, other] + end);
    assert s1.At(1) == BeginLate && s1.At(2) == BeginEarly && s1.policy == LATENT_SYNC && s1.drawn == 0;
    assert s1.Log(1) == [0] && s1.shame == map[1 := 0];
    var s2 := FrameOfOther(s1, 1, other, end);
    LatentSiteToCome(s2);
  }

  /** The rest of that frame, after its first site. */
  lemma LatentSiteToCome(s2: State)
    requires s2.At(1) == BeginLate && s2.policy == LATENT_SYNC && s2.drawn == 1
    requires s2.Log(1) == [0] && s2.shame == map[1 := 0]
    ensures var p := Pass(1, true, false);
            Run(s2, [p, p, p, p, p]).Log(1) == [0, 1] && Passings(1, [p, p, p, p, p]) == 5
  {
    hide Run, Passings, Alone;
    var p := Pass(1, true, false);
    var end := [p, p, p, p, p];
    var s3 := Do(s2, p);
    var s4 := Do(s3, p);
    var s5 := Do(s4, p);
    var s6 := Do(s5, p);
    var s7 := Do(s6, p);
    assert s3.At(1) == BeginLast && s4.At(1) == EndEarly && s4.Log(1) == [0, 1];
    assert s5.At(1) == EndLate && s6.At(1) == CountFrame && s7.Log(1) == [0, 1];
    NoAction(s7, 1);
    OneAction(s6, 1, p, []);
    OneAction(s5, 1, p, [p]);
    OneAction(s4, 1, p, [p, p]);
    OneAction(s3, 1, p, [p, p, p]);
    OneAction(s2, 1, p, [p, p, p, p]);
    assert [p] + [] == [p] && [p] + [p] == [p, p] && [p] + [p, p] == [p, p, p] && [p] + [p, p, p] == [p, p, p, p];
    assert [p] + [p, p, p, p] == end;
  }

  /** A thread that waits nowhere completes a frame. */
  lemma FrameOfOther(s: State, t: int, a: Action, rest: seq<Action>) returns (s6: State)
    requires a.Pass? && !a.waits && a.thread != t && s.At(a.thread).BeginEarly?
    ensures s6.drawn == s.drawn + 1 && s6.At(t) == s.At(t) && s6.shame == s.shame && s6.log == s.log
    ensures s6.policy == s.policy
    ensures Run(s, [a, a, a, a, a, a] + rest) == Run(s6, rest)
    ensures Passings(t, [a, a, a, a, a, a] + rest) == Passings(t, rest)
  {
    hide Run, Passings, Alone;
    var s1 := Do(s, a);
    var s2 := Do(s1, a);
    var s3 := Do(s2, a);
    var s4 := Do(s3, a);
    var s5 := Do(s4, a);
    s6 := Do(s5, a);
    OneAction(s, t, a, [a] + ([a] + ([a] + ([a] + ([a] + rest)))));
    OneAction(s1, t, a, [a] + ([a] + ([a] + ([a] + rest))));
    OneAction(s2, t, a, [a] + ([a] + ([a] + rest)));
    OneAction(s3, t, a, [a] + ([a] + rest));
    OneAction(s4, t, a, [a] + rest);
    OneAction(s5, t, a, rest);
    assert [a] + ([a] + ([a] + ([a] + ([a] + ([a] + rest))))) == [a, a, a, a, a, a] + rest;
  }
}
