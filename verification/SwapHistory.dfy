/**
 The running average of swap times that latent sync subtracts half of from each deadline: a ring of the
 latest swaps, of which those younger than a given age count.
 */
module SwapHistory {
  import opened Deadlines

  const SWAPS: nat := 768

  /** How long a swap took, and when it was sampled. */
  datatype Swap = Swap(delta: int, sampled: int)

  predicate Young(x: Swap, now: int, maxAge: int) {
    now - x.sampled < maxAge
  }

  /** The durations of the young swaps. */
  function Recent(swaps: seq<Swap>, now: int, maxAge: int): seq<int> {
    if swaps == [] then []
    else (if Young(swaps[0], now, maxAge) then [swaps[0].delta] else []) + Recent(swaps[1..], now, maxAge)
  }

  function Sum(xs: seq<int>): int {
    if xs == [] then 0 else xs[0] + Sum(xs[1..])
  }

  /** The mean, truncated, or zero of no swaps. */
  function Mean(xs: seq<int>): int {
    if xs == [] then 0 else Truncated(Sum(xs), |xs|)
  }

  /** The swaps that count: the latest `SWAPS` of all, behind as many empty records. */
  function Window(all: seq<Swap>): (w: seq<Swap>)
    requires |all| >= SWAPS
    ensures |w| == SWAPS
  {
    all[|all| - SWAPS..]
  }

  /** The ring holds the window, turned so that the oldest swap is the next one to be overwritten. */
  ghost predicate Turned(ring: seq<Swap>, w: seq<Swap>, at: nat)
    requires |w| == SWAPS && at < SWAPS
  {
    ring == w[SWAPS - at..] + w[..SWAPS - at]
  }

  lemma OverwriteOldest(ring: seq<Swap>, all: seq<Swap>, at: nat, x: Swap)
    requires |all| >= SWAPS && at < SWAPS && Turned(ring, Window(all), at)
    ensures Turned(ring[at := x], Window(all + [x]), (at + 1) % SWAPS)
  {
    var w := Window(all);
    assert Window(all + [x]) == w[1..] + [x];
    var turned := w[SWAPS - at..] + [x] + w[1..SWAPS - at];
    assert ring[at := x] == turned;
    if at + 1 < SWAPS {
      assert (w[1..] + [x])[SWAPS - (at + 1)..] == w[SWAPS - at..] + [x];
      assert (w[1..] + [x])[..SWAPS - (at + 1)] == w[1..SWAPS - at];
    } else {
      assert turned == w[1..] + [x];
    }
  }

  lemma {:induction false} RecentConcat(a: seq<Swap>, b: seq<Swap>, now: int, maxAge: int)
    ensures Recent(a + b, now, maxAge) == Recent(a, now, maxAge) + Recent(b, now, maxAge)
  {
    hide Young;
    if a == [] {
      assert a + b == b;
    } else {
      var head := if Young(a[0], now, maxAge) then [a[0].delta] else [];
      RecentConcat(a[1..], b, now, maxAge);
      assert (a + b)[0] == a[0] && (a + b)[1..] == a[1..] + b;
      assert Recent(a + b, now, maxAge) == head + Recent(a[1..] + b, now, maxAge);
      assert Recent(a, now, maxAge) == head + Recent(a[1..], now, maxAge);
    }
  }

  /** The swaps of duration `v` younger than `maxAge`. */
  function Places(swaps: seq<Swap>, now: int, maxAge: int, v: int): set<nat> {
    set i: nat | i < |swaps| && Young(swaps[i], now, maxAge) && swaps[i].delta == v
  }

  lemma PlacesOneMore(swaps: seq<Swap>, x: Swap, now: int, maxAge: int, v: int)
    ensures |swaps| !in Places(swaps, now, maxAge, v)
    ensures Places(swaps + [x], now, maxAge, v)
         == Places(swaps, now, maxAge, v) + if Young(x, now, maxAge) && x.delta == v then {|swaps|} else {}
  {}

  lemma {:induction false} PlacesCount(swaps: seq<Swap>, now: int, maxAge: int, v: int)
    ensures multiset(Recent(swaps, now, maxAge))[v] == |Places(swaps, now, maxAge, v)|
    decreases |swaps|
  {
    if swaps == [] {
      assert Places([], now, maxAge, v) == {};
    } else {
      var n := |swaps| - 1;
      assert swaps == swaps[..n] + [swaps[n]];
      PlacesCount(swaps[..n], now, maxAge, v);
      PlacesOneMore(swaps[..n], swaps[n], now, maxAge, v);
      RecentConcat(swaps[..n], [swaps[n]], now, maxAge);
      OneRecent(swaps[n], now, maxAge);
    }
  }

  /** A duration counts as often as there are swaps of it younger than the age. */
  lemma RecentCounts(swaps: seq<Swap>, now: int, maxAge: int, v: int)
    ensures multiset(Recent(swaps, now, maxAge))[v]
         == |set i: nat | i < |swaps| && now - swaps[i].sampled < maxAge && swaps[i].delta == v|
  {
    hide Recent;
    PlacesCount(swaps, now, maxAge, v);
    assert Places(swaps, now, maxAge, v)
        == set i: nat | i < |swaps| && now - swaps[i].sampled < maxAge && swaps[i].delta == v;
  }

  lemma {:induction false} SumConcat(a: seq<int>, b: seq<int>)
    ensures Sum(a + b) == Sum(a) + Sum(b)
  {
    if a == [] {
      assert a + b == b;
    } else {
      SumConcat(a[1..], b);
      assert (a + b)[1..] == a[1..] + b;
    }
  }

  /** The mean does not depend on where the ring starts. */
  lemma MeanOfTurned(ring: seq<Swap>, w: seq<Swap>, at: nat, now: int, maxAge: int)
    requires |w| == SWAPS && at < SWAPS && Turned(ring, w, at)
    ensures Mean(Recent(ring, now, maxAge)) == Mean(Recent(w, now, maxAge))
  {
    var a, b := w[..SWAPS - at], w[SWAPS - at..];
    assert w == a + b;
    RecentConcat(a, b, now, maxAge);
    RecentConcat(b, a, now, maxAge);
    SumConcat(Recent(a, now, maxAge), Recent(b, now, maxAge));
    SumConcat(Recent(b, now, maxAge), Recent(a, now, maxAge));
  }

  lemma OneMore(x: int, n: nat)
    ensures x * (n + 1) == x * n + x
  {}

  lemma {:induction false} SumBounds(xs: seq<int>, lo: int, hi: int)
    requires forall x :: x in xs ==> lo <= x <= hi
    ensures lo * |xs| <= Sum(xs) <= hi * |xs|
  {
    if xs != [] {
      var rest := xs[1..];
      assert forall x :: x in rest ==> x in xs;
      SumBounds(rest, lo, hi);
      assert xs[0] in xs;
      OneMore(lo, |rest|);
      OneMore(hi, |rest|);
    }
  }

  /** The mean of swaps that take from `lo` to `hi` ticks lies between them, so it is never negative. */
  lemma MeanBounds(xs: seq<int>, lo: nat, hi: nat)
    requires xs != [] && forall x :: x in xs ==> lo <= x <= hi
    ensures lo <= Mean(xs) <= hi
  {
    SumBounds(xs, lo, hi);
    Monotone(0, lo, |xs|);
    QuotientBounds(Sum(xs), |xs|, lo, hi);
  }

  lemma QuotientBounds(x: nat, n: pos, lo: nat, hi: nat)
    requires lo * n <= x <= hi * n
    ensures lo <= x / n <= hi
  {
    DivisionLaw(x, n);
    Spread(n, x / n - lo + 1);
    Spread(n, x / n - hi - 1);
  }

  class History {
    const records: array<Swap>
    var total: nat
    /** Everything recorded, behind the empty records that the ring starts with. */
    ghost var all: seq<Swap>

    ghost predicate Valid()
      reads this, records
    {
      && records.Length == SWAPS
      && |all| >= SWAPS
      && Turned(records[..], Window(all), total % SWAPS)
    }

    constructor ()
      ensures Valid() && fresh(records) && all == seq(SWAPS, i => Swap(0, 0))
    {
      records := new Swap[SWAPS](i => Swap(0, 0));
      total := 0;
      all := seq(SWAPS, i => Swap(0, 0));
      new;
      assert records[..] == all;
    }

    /** Records a swap that began at `began`, and averages the young ones, in whatever order they lie. */
    method EndSwap(began: int, now: int, maxAge: int) returns (swapTime: int)
      requires Valid()
      modifies this, records
      ensures Valid() && all == old(all) + [Swap(now - began, now)]
      ensures swapTime == Mean(Recent(all[|all| - 768..], now, maxAge))
    {
      hide Mean, Window, Turned;
      OverwriteOldest(records[..], all, total % SWAPS, Swap(now - began, now));
      NextIndex(total);
      records[total % SWAPS] := Swap(now - began, now);
      total := total + 1;
      all := all + [Swap(now - began, now)];
      swapTime := Average(now, maxAge);
      MeanOfTurned(records[..], Window(all), total % SWAPS, now, maxAge);
      LatestSwaps(all);
    }

    method Average(now: int, maxAge: int) returns (mean: int)
      requires records.Length == SWAPS
      ensures mean == Mean(Recent(records[..], now, maxAge))
    {
      hide *;
      ghost var ring := records[..];
      var sum, count := 0, 0;
      assert ring[..0] == [];
      NothingRecent(now, maxAge);
      for i := 0 to SWAPS
        invariant sum == Sum(Recent(ring[..i], now, maxAge)) && count == |Recent(ring[..i], now, maxAge)|
      {
        var x := records[i];
        assert ring[..i + 1] == ring[..i] + [x];
        RecentConcat(ring[..i], [x], now, maxAge);
        SumConcat(Recent(ring[..i], now, maxAge), Recent([x], now, maxAge));
        OneRecent(x, now, maxAge);
        if now - x.sampled < maxAge {
          sum, count := sum + x.delta, count + 1;
        }
      }
      assert ring[..SWAPS] == ring;
      mean := if count > 0 then Truncated(sum, count) else count;
      MeanIs(Recent(ring, now, maxAge), sum, count);
    }
  }

  lemma LatestSwaps(all: seq<Swap>)
    requires |all| >= SWAPS
    ensures Window(all) == all[|all| - 768..]
  {}

  lemma NextIndex(total: nat)
    ensures (total + 1) % SWAPS == (total % SWAPS + 1) % SWAPS
  {}

  lemma NothingRecent(now: int, maxAge: int)
    ensures Recent([], now, maxAge) == [] && Sum([]) == 0
  {}

  lemma OneRecent(x: Swap, now: int, maxAge: int)
    ensures Recent([x], now, maxAge) == if now - x.sampled < maxAge then [x.delta] else []
    ensures Sum([x.delta]) == x.delta && Sum([]) == 0
  {}

  lemma MeanIs(xs: seq<int>, sum: int, count: nat)
    requires sum == Sum(xs) && count == |xs|
    ensures Mean(xs) == if count > 0 then Truncated(sum, count) else count
  {}
}
