/**
 The background sorter of the frame-time history: one client thread that copies samples, one worker thread
 that sorts them, two buffers, two auto-reset events and an index that tells whose buffer is whose.

 The client reads the index, which fixes the buffer it will return, and only then tests the event that
 tells whether the worker is done.  Every read, write and event operation is a step of its own, and a sort
 may leave any permutation in its buffer while it runs.
 */
module Sorter {

  type slot = n: nat | n < 2

  function Other(i: slot): slot {
    if i != 0 then 0 else 1
  }

  /**
   A recorded frame time; `normal` is the floating-point class that the copy loop asks for: neither zero or
   nearly so, nor infinite.
   */
  datatype Sample = Sample(val: real, normal: bool, when: int)

  predicate Accepted(x: Sample) {
    x.when >= 0 && x.normal
  }

  /** The values that one run of the copy loop takes. */
  function Snapshot(data: seq<Sample>): seq<real> {
    if data == [] then []
    else
      var last := data[|data| - 1];
      Snapshot(data[..|data| - 1]) + (if Accepted(last) then [last.val] else [])
  }

  /** The samples of value `v` that have been recorded and are normal numbers. */
  function Usable(data: seq<Sample>, v: real): set<nat> {
    set i: nat | i < |data| && data[i].val == v && data[i].when >= 0 && data[i].normal
  }

  lemma UsableOneMore(data: seq<Sample>, v: real)
    requires data != []
    ensures var n := |data| - 1;
            && n !in Usable(data[..n], v)
            && Usable(data, v) == Usable(data[..n], v) + if Accepted(data[n]) && data[n].val == v then {n} else {}
  {}

  lemma {:induction false} UsableCounts(data: seq<Sample>, v: real)
    ensures multiset(Snapshot(data))[v] == |Usable(data, v)|
    decreases |data|
  {
    hide Usable, Accepted;
    if data == [] {
      NoneUsable(v);
    } else {
      var n := |data| - 1;
      UsableCounts(data[..n], v);
      UsableOneMore(data, v);
    }
  }

  lemma NoneUsable(v: real)
    ensures Usable([], v) == {}
  {}

  /** A snapshot holds each value as often as it was recorded as a normal number, and nothing else. */
  lemma SnapshotCounts(data: seq<Sample>, v: real)
    ensures multiset(Snapshot(data))[v]
         == |set i: nat | i < |data| && data[i].val == v && data[i].when >= 0 && data[i].normal|
  {
    hide Snapshot;
    UsableCounts(data, v);
    assert Usable(data, v) == set i: nat | i < |data| && data[i].val == v && data[i].when >= 0 && data[i].normal;
  }

  /** Nothing is dropped of samples that are all recorded and normal. */
  lemma {:induction false} SnapshotOfNormal(data: seq<Sample>)
    requires forall x :: x in data ==> x.when >= 0 && x.normal
    ensures |Snapshot(data)| == |data| && forall i :: 0 <= i < |data| ==> Snapshot(data)[i] == data[i].val
    decreases |data|
  {
    if data != [] {
      assert data[|data| - 1] in data;
      SnapshotOfNormal(data[..|data| - 1]);
    }
  }

  datatype Worker = Asleep | Woken | Sorting(i: slot) | Sorted(i: slot) | Flipped

  /** Between calls the client holds the buffer it was given, if any. */
  datatype Client =
    | Holding(held: slot)
    | NeverCalled
    | Snapped(read: slot)
    | Entered(read: slot)
    | Loaded(read: slot, write: slot)
    | Copied(read: slot, write: slot)
    | Filling(read: slot, write: slot, data: seq<Sample>, n: nat)

  /** `history` records the samples that each run of the copy loop was given; no step reads it. */
  datatype State = State(index: slot, first: seq<real>, second: seq<real>, produce: bool, consume: bool,
                         worker: Worker, client: Client, history: seq<seq<Sample>>) {
    function Buffer(i: slot): seq<real> {
      if i == 0 then first else second
    }

    function Store(i: slot, b: seq<real>): State {
      if i == 0 then this.(first := b) else this.(second := b)
    }
  }

  const INITIAL := State(0, [], [], false, true, Asleep, NeverCalled, [])

  predicate Descending(b: seq<real>) {
    forall i, j :: 0 <= i < j < |b| ==> b[i] >= b[j]
  }

  ghost predicate WorkerStep(s: State, s': State) {
    match s.worker
    case Asleep => s.produce && s' == s.(produce := false, worker := Woken)
    case Woken => s' == s.(worker := Sorting(s.index))
    case Sorting(i) =>
      var b := s'.Buffer(i);
      && multiset(b) == multiset(s.Buffer(i))
      && (s' == s.Store(i, b) || (Descending(b) && s' == s.Store(i, b).(worker := Sorted(i))))
    case Sorted(i) => s' == s.(index := Other(i), worker := Flipped)
    case Flipped => s' == s.(consume := true, worker := Asleep)
  }

  ghost predicate ClientStep(s: State, s': State) {
    match s.client
    case NeverCalled => s' == s.(client := Snapped(Other(s.index)))
    case Holding(_) => s' == s.(client := Snapped(Other(s.index)))
    case Snapped(r) =>
      if s.consume then s' == s.(consume := false, client := Entered(r))
      else s' == s.(client := Holding(r))
    case Entered(r) => s' == s.(client := Loaded(r, s.index))
    case Loaded(r, w) => s' == s.Store(r, s.Buffer(Other(w))).(client := Copied(r, w))
    case Copied(r, w) => s'.client.Filling? && s' == s.Store(w, []).(client := Filling(r, w, s'.client.data, 0))
    case Filling(r, w, data, n) =>
      if n < |data| then
        var b := s.Buffer(w) + (if Accepted(data[n]) then [data[n].val] else []);
        s' == s.Store(w, b).(client := Filling(r, w, data, n + 1))
      else
        s' == s.(produce := true, client := Holding(r), history := s.history + [data])
  }

  ghost predicate Step(s: State, s': State) {
    WorkerStep(s, s') || ClientStep(s, s')
  }

  ghost predicate Run(states: seq<State>) {
    && |states| > 0
    && states[0] == INITIAL
    && forall k: nat | k + 1 < |states| :: Step(states[k], states[k + 1])
  }

  // ---------------------------------------------------------------------------------------------
  // What every run keeps
  // ---------------------------------------------------------------------------------------------

  /** The worker has been told to sort, and has not given the buffer up. */
  predicate Busy(s: State) {
    s.produce || s.worker.Woken? || s.worker.Sorting? || s.worker.Sorted?
  }

  predicate Writing(c: Client) {
    c.Entered? || c.Loaded? || c.Copied? || c.Filling?
  }

  /** There is one token: the event, the client's turn, the worker's turn. */
  predicate OneTurn(s: State) {
    && (s.consume ==> !Busy(s) && !s.worker.Flipped? && !Writing(s.client))
    && (Writing(s.client) ==> !Busy(s) && !s.worker.Flipped?)
    && (s.produce ==> s.worker.Asleep?)
    && (s.consume || Writing(s.client) || Busy(s) || s.worker.Flipped?)
    && (s.worker.Sorting? || s.worker.Sorted? ==> s.worker.i == s.index)
    && (s.client.Loaded? || s.client.Copied? || s.client.Filling? ==> s.client.write == s.index)
    && (s.client.Filling? ==>
          s.client.n <= |s.client.data| && s.Buffer(s.index) == Snapshot(s.client.data[..s.client.n]))
  }

  lemma KeepsOneTurn(s: State, s': State)
    requires OneTurn(s) && Step(s, s')
    ensures OneTurn(s')
  {
    if s.client.Filling? && ClientStep(s, s') && s.client.n < |s.client.data| {
      var data, n := s.client.data, s.client.n;
      assert data[..n + 1][..n] == data[..n];
    }
  }

  lemma {:induction false} RunKeepsOneTurn(states: seq<State>, k: nat)
    requires Run(states) && k < |states|
    ensures OneTurn(states[k])
  {
    if k > 0 {
      RunKeepsOneTurn(states, k - 1);
      KeepsOneTurn(states[k - 1], states[k]);
    }
  }

  // ---------------------------------------------------------------------------------------------
  // Calls that are not overtaken
  // ---------------------------------------------------------------------------------------------

  /** The client's test of the event succeeds on this step. */
  predicate Enters(s: State, s': State) {
    s.client.Snapped? && s.consume && s'.client.Entered?
  }

  /** The worker has given its buffer up since the client read the index. */
  predicate Overtaken(s: State)
    requires s.client.Snapped?
  {
    s.client.read == s.index
  }

  ghost predicate FromSnapshot(b: seq<real>, history: seq<seq<Sample>>) {
    && Descending(b)
    && (b == [] || exists k: nat | k < |history| :: multiset(b) == multiset(Snapshot(history[k])))
  }

  /** The client's buffer is the other one, and every buffer that nobody is writing holds a sorted snapshot. */
  ghost predicate Apart(s: State) {
    && (Writing(s.client) ==> s.client.read == Other(s.index))
    && (Busy(s) && s.client.Holding? ==> s.client.held == Other(s.index))
    && (Busy(s) && s.client.Snapped? ==> s.client.read == Other(s.index))
    && FromSnapshot(s.Buffer(Other(s.index)), s.history)
    && (!Busy(s) && !s.client.Filling? ==> FromSnapshot(s.Buffer(s.index), s.history))
    && (Busy(s) ==> s.history != [] && multiset(s.Buffer(s.index)) == multiset(Snapshot(s.history[|s.history| - 1])))
    && (s.worker.Sorted? ==> Descending(s.Buffer(s.index)))
  }

  lemma LongerHistory(b: seq<real>, history: seq<seq<Sample>>, data: seq<Sample>)
    requires FromSnapshot(b, history)
    ensures FromSnapshot(b, history + [data])
  {
    if b != [] {
      var k: nat :| k < |history| && multiset(b) == multiset(Snapshot(history[k]));
      assert (history + [data])[k] == history[k];
    }
  }

  lemma WorkerKeepsApart(s: State, s': State)
    requires OneTurn(s) && Apart(s) && WorkerStep(s, s')
    ensures Apart(s')
  {
    if s.worker.Sorting? {
      assert s'.history == s.history;
    }
    if s.worker.Sorted? {
      var last := |s.history| - 1;
      assert multiset(s.Buffer(s.index)) == multiset(Snapshot(s.history[last]));
    }
  }

  lemma ClientKeepsApart(s: State, s': State)
    requires OneTurn(s) && Apart(s) && ClientStep(s, s')
    requires Enters(s, s') ==> !Overtaken(s)
    ensures Apart(s')
  {
    hide FromSnapshot, Descending, Snapshot;
    if s.client.Filling? && s.client.n == |s.client.data| {
      var data := s.client.data;
      assert data[..|data|] == data;
      LongerHistory(s.Buffer(Other(s.index)), s.history, data);
    }
  }

  /** No call of the run tests the event after being overtaken. */
  ghost predicate NeverOvertaken(states: seq<State>) {
    forall k: nat | k + 1 < |states| :: Enters(states[k], states[k + 1]) ==> !Overtaken(states[k])
  }

  lemma {:induction false} RunKeepsApart(states: seq<State>, k: nat)
    requires Run(states) && NeverOvertaken(states) && k < |states|
    ensures Apart(states[k])
  {
    if k > 0 {
      var s, s' := states[k - 1], states[k];
      RunKeepsApart(states, k - 1);
      RunKeepsOneTurn(states, k - 1);
      assert Step(states[k - 1], states[k - 1 + 1]);
      assert Enters(states[k - 1], states[k - 1 + 1]) ==> !Overtaken(states[k - 1]);
      if WorkerStep(s, s') {
        WorkerKeepsApart(s, s');
      } else {
        ClientKeepsApart(s, s');
      }
    }
  }

  /** Values in descending order: nothing, or the usable values of one run of the copy loop, each as often. */
  ghost predicate SortedTimes(b: seq<real>, history: seq<seq<Sample>>) {
    && (forall i, j :: 0 <= i < j < |b| ==> b[i] >= b[j])
    && (b == [] || exists k: nat | k < |history| ::
          forall v :: multiset(b)[v] == |Usable(history[k], v)|)
  }

  lemma SnapshotIsSortedTimes(b: seq<real>, history: seq<seq<Sample>>)
    requires FromSnapshot(b, history)
    ensures SortedTimes(b, history)
  {
    if b != [] {
      var k: nat :| k < |history| && multiset(b) == multiset(Snapshot(history[k]));
      forall v ensures multiset(b)[v] == |Usable(history[k], v)| {
        UsableCounts(history[k], v);
      }
    }
  }

  /**
   As long as no call is overtaken between reading the index and testing the event, the buffer a caller
   holds is never the one the worker is to sort, and it always holds one handed-over snapshot in descending
   order, or nothing.
   */
  lemma CallerIsSafe(states: seq<State>, k: nat)
    requires Run(states) && NeverOvertaken(states) && k < |states| && states[k].client.Holding?
    ensures var s := states[k];
            && (Busy(s) ==> s.client.held != s.index)
            && SortedTimes(s.Buffer(s.client.held), s.history)
  {
    RunKeepsApart(states, k);
    RunKeepsOneTurn(states, k);
    SnapshotIsSortedTimes(states[k].Buffer(states[k].client.held), states[k].history);
  }

  /** Every successful test comes on the step right after the index was read. */
  ghost predicate AtomicCalls(states: seq<State>) {
    forall k: nat | k + 1 < |states| :: Enters(states[k], states[k + 1]) ==> k > 0 && !states[k - 1].client.Snapped?
  }

  lemma JustRead(s: State, s': State)
    requires Step(s, s') && !s.client.Snapped? && s'.client.Snapped?
    ensures !Overtaken(s')
  {}

  /** Reading and testing in one step is enough. */
  lemma AtomicCallsAreSafe(states: seq<State>, k: nat)
    requires Run(states) && AtomicCalls(states) && k < |states| && states[k].client.Holding?
    ensures var s := states[k];
            && (Busy(s) ==> s.client.held != s.index)
            && SortedTimes(s.Buffer(s.client.held), s.history)
  {
    forall j: nat | j + 1 < |states| ensures Enters(states[j], states[j + 1]) ==> !Overtaken(states[j]) {
      if Enters(states[j], states[j + 1]) {
        assert Step(states[j - 1], states[j - 1 + 1]);
        JustRead(states[j - 1], states[j]);
      }
    }
    CallerIsSafe(states, k);
  }

  // ---------------------------------------------------------------------------------------------
  // Calls that are overtaken
  // ---------------------------------------------------------------------------------------------

  /** The caller is being given `read`, or has been, together with a request to sort the copied samples. */
  ghost predicate GivenOut(s: State, read: slot) {
    if s.client.Holding?
    then
      && s.client.held == read && s.produce && s.history != []
      && s.Buffer(s.index) == Snapshot(s.history[|s.history| - 1])
    else Writing(s.client) && s.client.read == read
  }

  lemma CallStep(s: State, s': State)
    requires OneTurn(s) && Step(s, s') && Writing(s.client)
    ensures s'.index == s.index && GivenOut(s', s.client.read)
  {
    if s.client.Filling? {
      var data := s.client.data;
      assert data[..|data|] == data;
    }
  }

  /** From the test to the return, neither the index nor the caller's buffer changes. */
  lemma {:induction false} CallKeepsBuffers(states: seq<State>, a: nat, c: nat)
    requires Run(states) && a < c < |states|
    requires Enters(states[a], states[a + 1])
    requires forall k | a < k < c :: Writing(states[k].client)
    ensures states[c].index == states[a].index && GivenOut(states[c], states[a].client.read)
  {
    hide OneTurn, WorkerStep, ClientStep;
    assert Step(states[c - 1], states[c - 1 + 1]);
    if c > a + 1 {
      RunKeepsOneTurn(states, c - 1);
      CallKeepsBuffers(states, a, c - 1);
      CallStep(states[c - 1], states[c]);
    } else {
      EnterStep(states[a], states[c]);
    }
  }

  lemma EnterStep(s: State, s': State)
    requires Step(s, s') && Enters(s, s')
    ensures s'.index == s.index && GivenOut(s', s.client.read)
  {}

  /**
   A call hands out the buffer that the worker is about to sort, unsorted, exactly when the worker changed
   the index between the client's reading it (step `p`) and the successful test (step `a`).
   */
  lemma OvertakenCallsAlias(states: seq<State>, p: nat, a: nat, c: nat)
    requires Run(states) && p < a < c < |states|
    requires !states[p].client.Snapped? && forall k | p < k <= a :: states[k].client.Snapped?
    requires Enters(states[a], states[a + 1])
    requires states[c].client.Holding? && forall k | a < k < c :: Writing(states[k].client)
    ensures states[c].produce
    ensures states[c].client.held == states[c].index <==> states[a].index != states[p].index
    ensures states[a].index != states[p].index ==>
      var s := states[c];
      s.history != [] && s.Buffer(s.client.held) == Snapshot(s.history[|s.history| - 1])
  {
    CallKeepsBuffers(states, a, c);
    ReadStays(states, p, a);
  }

  lemma ReadOnce(s: State, s': State)
    requires Step(s, s') && s'.client.Snapped?
    ensures s'.client.read == if s.client.Snapped? then s.client.read else Other(s.index)
  {}

  lemma {:induction false} ReadStays(states: seq<State>, p: nat, a: nat)
    requires Run(states) && p < a < |states|
    requires !states[p].client.Snapped? && forall k | p < k <= a :: states[k].client.Snapped?
    ensures states[a].client.read == Other(states[p].index)
  {
    hide Step;
    assert Step(states[a - 1], states[a - 1 + 1]);
    ReadOnce(states[a - 1], states[a]);
    if a > p + 1 {
      ReadStays(states, p, a - 1);
    }
  }

  function Last(states: seq<State>): State
    requires states != []
  {
    states[|states| - 1]
  }

  lemma Extend(states: seq<State>, s: State) returns (longer: seq<State>)
    requires states != [] && Run(states) && Step(Last(states), s)
    ensures longer != [] && Run(longer) && Last(longer) == s
  {
    longer := states + [s];
    forall k: nat | k + 1 < |longer| ensures Step(longer[k], longer[k + 1]) {
      if k + 1 < |states| {
        assert Step(states[k], states[k + 1]);
      }
    }
  }

  /** The first call hands over an empty history, and the second one reads the index at once. */
  lemma TwoCalls() returns (states: seq<State>)
    ensures states != [] && Run(states) && Last(states) == State(0, [], [], true, false, Asleep, Snapped(1), [[]])
  {
    hide Run, Last;
    var s0 := INITIAL;
    OneState();
    var s1 := s0.(client := Snapped(1));
    var s2 := s1.(client := Entered(1), consume := false);
    var s3 := s2.(client := Loaded(1, 0));
    var s4 := s3.(client := Copied(1, 0));
    var s5 := s4.(client := Filling(1, 0, [], 0));
    var s6 := s5.(client := Holding(1), produce := true, history := [[]]);
    var s7 := s6.(client := Snapped(1));
    states := Extend([s0], s1);
    states := Extend(states, s2);
    states := Extend(states, s3);
    states := Extend(states, s4);
    states := Extend(states, s5);
    states := Extend(states, s6);
    states := Extend(states, s7);
  }

  /** The worker sorts and gives its buffer up before the second call tests the event. */
  lemma OvertakenCall() returns (states: seq<State>)
    ensures states != [] && Run(states) && Last(states) == State(1, [], [], false, false, Asleep, Entered(1), [[]])
  {
    hide Run, Last;
    states := TwoCalls();
    var s0 := Last(states);
    var s1 := s0.(worker := Woken, produce := false);
    var s2 := s1.(worker := Sorting(0));
    var s3 := s2.(worker := Sorted(0));
    var s4 := s3.(worker := Flipped, index := 1);
    var s5 := s4.(worker := Asleep, consume := true);
    var s6 := s5.(client := Entered(1), consume := false);
    states := Extend(states, s1);
    states := Extend(states, s2);
    states := Extend(states, s3);
    states := Extend(states, s4);
    states := Extend(states, s5);
    states := Extend(states, s6);
  }

  lemma OneState()
    ensures Run([INITIAL]) && Last([INITIAL]) == INITIAL
  {}

  /** A run at whose end the caller holds two values in the wrong order, in the buffer queued for sorting. */
  lemma AliasingHappens() returns (states: seq<State>)
    ensures states != [] && Run(states)
    ensures var s := Last(states);
            s.client.Holding? && s.produce && s.client.held == s.index && !Descending(s.Buffer(s.client.held))
  {
    hide Run, Last;
    var data := [Sample(1.0, true, 0), Sample(2.0, true, 0)];
    states := OvertakenCall();
    var s0 := Last(states);
    var s1 := s0.(client := Loaded(1, 1));
    var s2 := s1.(client := Copied(1, 1));
    var s3 := s2.(client := Filling(1, 1, data, 0));
    var s4 := s3.(client := Filling(1, 1, data, 1), second := [1.0]);
    var s5 := s4.(client := Filling(1, 1, data, 2), second := [1.0, 2.0]);
    var s6 := s5.(client := Holding(1), produce := true, history := [[], data]);
    states := Extend(states, s1);
    states := Extend(states, s2);
    states := Extend(states, s3);
    states := Extend(states, s4);
    states := Extend(states, s5);
    states := Extend(states, s6);
    assert s6.second[0] < s6.second[1];
  }
}
