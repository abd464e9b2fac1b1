/**
 The one-time initialisation of the checksum engine, for any number of threads and any interleaving.

 A thread is inside `crc32c` or inside a direct call of `__crc32_init`.  Every atomic exchange, every
 increment, every read of `append_func`, every table column and every successful spin is a step of its
 own, and steps of different threads interleave freely (memory is sequentially consistent; the spin is
 taken to return once its variable is at least 2).
 */
module OnceInit {
  import opened Words
  import opened CrcSpec
  import opened Checksum

  const COLUMNS: nat := 256

  datatype Call = Call(crc: word, data: seq<byte>)

  /** What a checksum call returned: a number, or whatever incomplete tables produce. */
  datatype Outcome = Value(v: word) | Garbage

  /** Where a call of `__crc32_init` returns to: its own caller, or the body of `crc32c`. */
  datatype Return = ToCaller | ToChecksum(call: Call)

  datatype PC =
    | Idle
    // crc32c
    | ReadPointer(call: Call)            // if (append_func == nullptr)
    | OuterExchange(call: Call)          // InterlockedCompareExchange (&__init, 1, 0)
    | OuterIncrement(call: Call)         // InterlockedIncrement (&__init)
    | OuterSpin(call: Call)              // SK_Thread_SpinUntilAtomicMin (&__init, 2)
    | Guard(call: Call)                  // length > 0 && append_func != nullptr
    | Dispatch(call: Call)               // append_func (crc, input, length)
    | Returned(call: Call, result: Outcome)
    // __crc32_init
    | InnerExchange(ret: Return)         // InterlockedCompareExchangeAcquire (&__crc32c_init, 1, 0)
    | TestProcessor(ret: Return)
    | Fill(ret: Return, routine: Routine, column: nat)
    | Publish(ret: Return, routine: Routine)  // append_func = pfnToSet
    | InnerIncrement(ret: Return)        // InterlockedIncrementRelease (&__crc32c_init)
    | InnerSpin(ret: Return)             // SK_Thread_SpinUntilAtomicMin (&__crc32c_init, 2)

  /**
   The variables all threads see: with the tables, the columns that have been filled.  `computations` counts
   table computations; no step reads it.
   */
  datatype Shared = Shared(
    hardware: bool,
    outer: nat,
    inner: nat,
    appendFunc: Routine,
    hardwareColumns: seq<seq<word>>,
    softwareColumns: seq<seq<word>>,
    computations: nat
  )

  datatype State = State(shared: Shared, threads: seq<PC>)

  ghost predicate Initial(s: State) {
    && s.shared == Shared(s.shared.hardware, 0, 0, None, [], [], 0)
    && forall i | 0 <= i < |s.threads| :: s.threads[i] == Idle
  }

  /** What a pass of the generators stores for index `i`: one column, or those of both zero-shift tables. */
  function Column(routine: Routine, i: byte): seq<word> {
    if routine == Hardware then ShiftColumn(SHORT_SHIFT, i) + ShiftColumn(LONG_SHIFT, i) else SlicingColumn(i)
  }

  function Columns(s: Shared, routine: Routine): seq<seq<word>> {
    if routine == Hardware then s.hardwareColumns else s.softwareColumns
  }

  predicate Right(routine: Routine, columns: seq<seq<word>>) {
    |columns| <= COLUMNS && forall i: nat | i < |columns| :: columns[i] == Column(routine, i)
  }

  /** Every column of the routine's tables is filled, with the right words. */
  predicate Complete(s: Shared, routine: Routine) {
    routine != None && |Columns(s, routine)| == COLUMNS && Right(routine, Columns(s, routine))
  }

  /** The tables of an engine hold these columns. */
  ghost predicate Holds(engine: Engine, s: Shared)
    requires engine.Shape()
    reads engine.table, engine.shortShifts, engine.longShifts
  {
    && (forall i: nat | i < |s.softwareColumns| :: i < COLUMNS && HoldsSlicing(engine, i, s.softwareColumns[i]))
    && (forall i: nat | i < |s.hardwareColumns| :: i < COLUMNS && HoldsShift(engine, i, s.hardwareColumns[i]))
  }

  ghost predicate HoldsSlicing(engine: Engine, i: byte, column: seq<word>)
    requires engine.Shape()
    reads engine.table
  {
    |column| == 16 && forall t: nat | t < 16 :: engine.table[t, i] == column[t]
  }

  ghost predicate HoldsShift(engine: Engine, i: byte, column: seq<word>)
    requires engine.Shape()
    reads engine.shortShifts, engine.longShifts
  {
    && |column| == 8
    && (forall j: nat | j < 4 :: engine.shortShifts[j, i] == column[j])
    && (forall j: nat | j < 4 :: engine.longShifts[j, i] == column[4 + j])
  }

  /**
   Complete tables are the ones that the routines ask for, so that a call through the pointer returns the
   CRC-32C: this is what `Engine.Dispatch` needs.
   */
  lemma CompleteMeansReady(engine: Engine, s: Shared, routine: Routine)
    requires engine.Shape() && Holds(engine, s) && Complete(s, routine)
    ensures routine == Software ==> SlicingTable(engine.table)
    ensures routine == Hardware ==>
      ShiftTable(engine.shortShifts, SHORT_SHIFT) && ShiftTable(engine.longShifts, LONG_SHIFT)
  {
    hide Steps;
    forall i: byte
      ensures routine == Software ==> HoldsSlicing(engine, i, SlicingColumn(i))
      ensures routine == Hardware ==> HoldsShift(engine, i, ShiftColumn(SHORT_SHIFT, i) + ShiftColumn(LONG_SHIFT, i))
    {
      assert Columns(s, routine)[i] == Column(routine, i);
    }
    if routine == Software {
      forall t: nat, i: byte | t < 16 ensures engine.table[t, i] == Steps(CASTAGNOLI, 8 * (t + 1), i) {
        assert HoldsSlicing(engine, i, SlicingColumn(i));
      }
    } else {
      forall j: nat, i: byte | j < 4
        ensures engine.shortShifts[j, i] == Steps(CASTAGNOLI, 8 * (SHORT_SHIFT - j), i)
             && engine.longShifts[j, i] == Steps(CASTAGNOLI, 8 * (LONG_SHIFT - j), i)
      {
        var short, long := ShiftColumn(SHORT_SHIFT, i), ShiftColumn(LONG_SHIFT, i);
        assert HoldsShift(engine, i, short + long);
        assert (short + long)[j] == short[j] && (short + long)[4 + j] == long[j];
      }
    }
  }

  /** The value of a call through `append_func`, given the state of the tables it reads. */
  function Result(s: Shared, call: Call): Outcome {
    if Complete(s, s.appendFunc) then Value(Crc(CASTAGNOLI, call.crc, call.data)) else Garbage
  }

  function AfterInit(ret: Return): PC {
    match ret
    case ToCaller => Idle
    case ToChecksum(call) => OuterIncrement(call)
  }

  function Chosen(s: Shared): Routine {
    if s.hardware then Hardware else Software
  }

  /** One pass of the generator: what `Engine.FillSlicing` and `Engine.FillColumn` leave for index `column`. */
  function Store(s: Shared, routine: Routine, column: nat): Shared
    requires column < COLUMNS
  {
    if routine == Hardware then s.(hardwareColumns := s.hardwareColumns + [Column(routine, column)])
    else s.(softwareColumns := s.softwareColumns + [Column(routine, column)])
  }

  /** One atomic step of a thread at `pc`, which moves it to `pc'` and the shared variables to `s'`. */
  ghost predicate Move(s: Shared, pc: PC, s': Shared, pc': PC) {
    match pc
    case Idle =>
      s' == s && (pc' == InnerExchange(ToCaller) || pc'.ReadPointer?)
    case ReadPointer(call) =>
      s' == s && pc' == if s.appendFunc == None then OuterExchange(call) else Guard(call)
    case OuterExchange(call) =>
      if s.outer == 0 then s' == s.(outer := 1) && pc' == InnerExchange(ToChecksum(call))
      else s' == s && pc' == OuterSpin(call)
    case OuterIncrement(call) =>
      s' == s.(outer := s.outer + 1) && pc' == Guard(call)
    case OuterSpin(call) =>
      s.outer >= 2 && s' == s && pc' == Guard(call)
    case Guard(call) =>
      && s' == s
      && pc' == if call.data != [] && s.appendFunc != None then Dispatch(call) else Returned(call, Value(call.crc))
    case Dispatch(call) =>
      s' == s && pc' == Returned(call, Result(s, call))
    case Returned(call, result) =>
      s' == s && pc' == Idle
    case InnerExchange(ret) =>
      if s.inner == 0 then s' == s.(inner := 1, computations := s.computations + 1) && pc' == TestProcessor(ret)
      else s' == s && pc' == InnerSpin(ret)
    case TestProcessor(ret) =>
      s' == s && pc' == Fill(ret, Chosen(s), 0)
    case Fill(ret, routine, column) =>
      if column >= COLUMNS then s' == s && pc' == Publish(ret, routine)
      else
        && pc' == Fill(ret, routine, column + 1)
        && s' == Store(s, routine, column)
    case Publish(ret, routine) =>
      s' == s.(appendFunc := routine) && pc' == InnerIncrement(ret)
    case InnerIncrement(ret) =>
      s' == s.(inner := s.inner + 1) && pc' == AfterInit(ret)
    case InnerSpin(ret) =>
      s.inner >= 2 && s' == s && pc' == AfterInit(ret)
  }

  /** Thread `i` takes one step; the others stay where they are. */
  ghost predicate Step(s: State, s': State, i: nat) {
    && i < |s.threads| == |s'.threads|
    && s'.threads == s.threads[i := s'.threads[i]]
    && Move(s.shared, s.threads[i], s'.shared, s'.threads[i])
  }

  /** A run: any thread that can step may step next. */
  ghost predicate Run(states: seq<State>, who: seq<nat>) {
    && |states| == |who| + 1
    && Initial(states[0])
    && forall k | 0 <= k < |who| :: Step(states[k], states[k + 1], who[k])
  }

  // ---------------------------------------------------------------------------------------------
  // The invariant
  // ---------------------------------------------------------------------------------------------

  /** Between winning the inner exchange and releasing it. */
  predicate Computing(pc: PC) {
    pc.TestProcessor? || pc.Fill? || pc.Publish? || pc.InnerIncrement?
  }

  /** Between winning the outer exchange and releasing it. */
  predicate HoldsOuter(pc: PC) {
    || pc.OuterIncrement?
    || ((pc.InnerExchange? || pc.InnerSpin? || Computing(pc)) && pc.ret.ToChecksum?)
  }

  /** Past initialisation, about to use the pointer. */
  predicate Past(pc: PC) {
    pc.OuterIncrement? || pc.Guard? || pc.Dispatch? || pc.Returned?
  }

  /** What a thread knows about the shared variables at its program point. */
  predicate Knows(s: Shared, pc: PC) {
    && (Computing(pc) ==> s.inner == 1)
    && (HoldsOuter(pc) ==> s.outer == 1)
    && (Past(pc) ==> s.appendFunc != None)
    && (pc.OuterIncrement? ==> s.inner == 2)
    && (pc.OuterSpin? ==> s.outer >= 1)
    && (pc.InnerSpin? ==> s.inner >= 1)
    && (pc.TestProcessor? ==> s.hardwareColumns == [] && s.softwareColumns == [])
    && (pc.Fill? ==>
          && pc.column <= COLUMNS && pc.routine == Chosen(s)
          && |Columns(s, pc.routine)| == pc.column && Right(pc.routine, Columns(s, pc.routine)))
    && (pc.Publish? ==> pc.routine == Chosen(s) && Complete(s, pc.routine))
    && (pc.InnerIncrement? ==> s.appendFunc != None)
    && (Computing(pc) && !pc.InnerIncrement? ==> s.appendFunc == None)
    && (pc.Returned? ==> pc.result == Value(Crc(CASTAGNOLI, pc.call.crc, pc.call.data)))
  }

  /** What holds of the shared variables by themselves. */
  predicate Sound(s: Shared) {
    && s.inner <= 2 && s.outer <= 2
    && s.computations == (if s.inner == 0 then 0 else 1)
    && (s.inner == 0 ==> s.appendFunc == None && s.hardwareColumns == [] && s.softwareColumns == [])
    && (s.inner == 2 ==> s.appendFunc != None)
    && (s.outer == 2 ==> s.inner == 2)
    && (s.appendFunc != None ==> s.appendFunc == Chosen(s) && Complete(s, s.appendFunc))
  }

  /** No two threads satisfy `p`, and one does exactly while the variable is 1. */
  ghost predicate OneWhile(threads: seq<PC>, p: PC -> bool, variable: nat) {
    && (forall i, j | 0 <= i < j < |threads| :: !(p(threads[i]) && p(threads[j])))
    && ((exists i: nat :: i < |threads| && p(threads[i])) <==> variable == 1)
  }

  ghost predicate Inv(s: State) {
    && Sound(s.shared)
    && (forall i | 0 <= i < |s.threads| :: Knows(s.shared, s.threads[i]))
    && OneWhile(s.threads, Computing, s.shared.inner)
    && OneWhile(s.threads, HoldsOuter, s.shared.outer)
  }

  lemma StoreKeepsRight(routine: Routine, columns: seq<seq<word>>)
    requires Right(routine, columns) && |columns| < COLUMNS
    ensures Right(routine, columns + [Column(routine, |columns|)])
  {
    hide Column;
  }

  lemma NothingIsRight(routine: Routine)
    ensures Right(routine, [])
  {}

  lemma MoveKeepsSound(s: Shared, pc: PC, s': Shared, pc': PC)
    requires Sound(s) && Knows(s, pc) && Move(s, pc, s', pc')
    ensures Sound(s') && Knows(s', pc')
  {
    hide Crc, Column, Right;
    if pc.Guard? && pc.call.data == [] {
      EmptyCrc(pc.call.crc);
    }
    if pc.TestProcessor? {
      NothingIsRight(Chosen(s));
    }
    if pc.Fill? && pc.column < COLUMNS {
      StoreKeepsRight(pc.routine, Columns(s, pc.routine));
    }
  }

  /** A step leaves what the other threads know intact, because they are not in the same region. */
  lemma MoveKeepsOther(s: Shared, pc: PC, s': Shared, pc': PC, other: PC)
    requires Sound(s) && Knows(s, pc) && Knows(s, other) && Move(s, pc, s', pc')
    requires !(Computing(pc) && Computing(other)) && !(HoldsOuter(pc) && HoldsOuter(other))
    ensures Knows(s', other)
  {
    hide Crc, Column, Right;
  }

  /** A thread enters a region by moving its variable from 0 to 1, and leaves it by moving it on. */
  lemma MoveRegions(s: Shared, pc: PC, s': Shared, pc': PC)
    requires Sound(s) && Knows(s, pc) && Move(s, pc, s', pc')
    ensures Moves(Computing(pc), Computing(pc'), s.inner, s'.inner)
    ensures Moves(HoldsOuter(pc), HoldsOuter(pc'), s.outer, s'.outer)
  {
    hide Crc, Column, Right;
  }

  predicate Moves(inside: bool, inside': bool, variable: nat, variable': nat) {
    if inside' then variable' == 1 && (inside || variable == 0)
    else if inside then variable' != 1
    else variable' == variable
  }

  lemma RegionStep(threads: seq<PC>, i: nat, pc: PC, p: PC -> bool, variable: nat, variable': nat)
    requires i < |threads| && OneWhile(threads, p, variable)
    requires Moves(p(threads[i]), p(pc), variable, variable')
    ensures OneWhile(threads[i := pc], p, variable')
  {
    var t := threads[i := pc];
    assert p(t[i]) == p(pc);
    forall k: nat | k < |threads| && k != i && p(threads[k])
      ensures p(t[k])
    {
    }
    if p(pc) {
      assert exists k: nat :: k < |t| && p(t[k]);
    }
  }

  lemma StepKeepsInv(s: State, s': State, i: nat)
    requires Inv(s) && Step(s, s', i)
    ensures Inv(s')
  {
    hide Move, Sound, Knows;
    var pc, pc' := s.threads[i], s'.threads[i];
    MoveKeepsSound(s.shared, pc, s'.shared, pc');
    forall j | 0 <= j < |s'.threads|
      ensures Knows(s'.shared, s'.threads[j])
    {
      if j != i { MoveKeepsOther(s.shared, pc, s'.shared, pc', s.threads[j]); }
    }
    MoveRegions(s.shared, pc, s'.shared, pc');
    RegionStep(s.threads, i, pc', Computing, s.shared.inner, s'.shared.inner);
    RegionStep(s.threads, i, pc', HoldsOuter, s.shared.outer, s'.shared.outer);
  }

  // ---------------------------------------------------------------------------------------------
  // Every run
  // ---------------------------------------------------------------------------------------------

  lemma {:induction false} RunKeepsInv(states: seq<State>, who: seq<nat>, k: nat)
    requires Run(states, who) && k < |states|
    ensures Inv(states[k])
  {
    if k > 0 {
      RunKeepsInv(states, who, k - 1);
      StepKeepsInv(states[k - 1], states[k], who[k - 1]);
    }
  }

  /**
   In every interleaving: at most one thread ever computes tables; `append_func` is set only over complete
   tables of the routine it names, which is the hardware routine exactly if the processor has the instruction;
   a thread past initialisation finds it set; and every checksum call that returns has the right value, whichever
   routine the processor test picked.
   */
  lemma Safe(states: seq<State>, who: seq<nat>, k: nat, i: nat)
    requires Run(states, who) && k < |states| && i < |states[k].threads|
    ensures var s, pc := states[k].shared, states[k].threads[i];
            && s.computations <= 1
            && (s.appendFunc != None ==> s.computations == 1 && Complete(s, s.appendFunc))
            && (s.appendFunc == Hardware ==> states[0].shared.hardware)
            && (s.appendFunc == Software ==> !states[0].shared.hardware)
            && (Past(pc) ==> s.appendFunc != None)
            && (pc.Returned? ==> pc.result == Value(Crc(CASTAGNOLI, pc.call.crc, pc.call.data)))
  {
    hide Crc, Column, Right;
    RunKeepsInv(states, who, k);
    ProcessorStays(states, who, k);
    assert Knows(states[k].shared, states[k].threads[i]);
  }

  lemma {:induction false} ProcessorStays(states: seq<State>, who: seq<nat>, k: nat)
    requires Run(states, who) && k < |states|
    ensures states[k].shared.hardware == states[0].shared.hardware
  {
    if k > 0 {
      ProcessorStays(states, who, k - 1);
      assert Step(states[k - 1], states[k - 1 + 1], who[k - 1]);
    }
  }

  predicate Blocked(s: Shared, pc: PC) {
    (pc.OuterSpin? && s.outer < 2) || (pc.InnerSpin? && s.inner < 2)
  }

  /** Spinning is not deadlock: whoever is blocked waits for a thread that is initialising and can move. */
  lemma NoDeadlock(states: seq<State>, who: seq<nat>, k: nat, j: nat)
    requires Run(states, who) && k < |states|
    requires j < |states[k].threads| && Blocked(states[k].shared, states[k].threads[j])
    ensures exists i: nat :: i < |states[k].threads| && Initialising(states[k].shared, states[k].threads[i])
  {
    hide Crc, Column, Right;
    RunKeepsInv(states, who, k);
    var s, threads := states[k].shared, states[k].threads;
    assert Knows(s, threads[j]);
    var i: nat;
    if s.inner == 1 {
      i :| i < |threads| && Computing(threads[i]);
    } else {
      i :| i < |threads| && HoldsOuter(threads[i]);
    }
    assert Knows(s, threads[i]);
    CanMove(s, threads[i]);
  }

  lemma CanMove(s: Shared, pc: PC)
    requires (Computing(pc) || HoldsOuter(pc)) && !Blocked(s, pc)
    ensures Initialising(s, pc)
  {
    var s', pc' := s, pc;
    match pc {
      case OuterIncrement(call) => s', pc' := s.(outer := s.outer + 1), Guard(call);
      case InnerExchange(ret) =>
        if s.inner == 0 {
          s', pc' := s.(inner := 1, computations := s.computations + 1), TestProcessor(ret);
        } else {
          pc' := InnerSpin(ret);
        }
      case TestProcessor(ret) => pc' := Fill(ret, Chosen(s), 0);
      case Fill(ret, routine, column) =>
        if column >= COLUMNS {
          pc' := Publish(ret, routine);
        } else {
          s', pc' := Store(s, routine, column), Fill(ret, routine, column + 1);
        }
      case Publish(ret, routine) => s', pc' := s.(appendFunc := routine), InnerIncrement(ret);
      case InnerIncrement(ret) => s', pc' := s.(inner := s.inner + 1), AfterInit(ret);
      case InnerSpin(ret) => pc' := AfterInit(ret);
    }
    assert Move(s, pc, s', pc');
  }

  ghost predicate Initialising(s: Shared, pc: PC) {
    (Computing(pc) || HoldsOuter(pc)) && exists s', pc' :: Move(s, pc, s', pc')
  }

  /** How many steps a computing thread still has to take before it releases the inner spin. */
  function Work(pc: PC): nat {
    match pc
    case TestProcessor(_) => COLUMNS + 4
    case Fill(_, _, column) => if column <= COLUMNS then COLUMNS - column + 3 else 0
    case Publish(_, _) => 2
    case InnerIncrement(_) => 1
    case _ => 0
  }

  /** How many steps the thread inside the outer exchange still has to take before it releases the outer spin. */
  function OuterWork(pc: PC): nat {
    if !HoldsOuter(pc) then 0
    else if pc.OuterIncrement? then 1
    else if pc.InnerSpin? then 2
    else if pc.InnerExchange? then COLUMNS + 6
    else Work(pc) + 1
  }

  /** Each step of the thread that computes brings it closer, and only the last one releases the spin. */
  lemma WorkFalls(s: Shared, pc: PC, s': Shared, pc': PC)
    requires Sound(s) && Knows(s, pc) && Move(s, pc, s', pc')
    ensures Computing(pc) ==>
      Work(pc) == Work(pc') + 1 && if Computing(pc') then Work(pc') > 0 else Work(pc') == 0 && s'.inner == 2
    ensures HoldsOuter(pc) ==>
      OuterWork(pc) > OuterWork(pc') && if HoldsOuter(pc') then OuterWork(pc') > 0 else s'.outer == 2
    ensures s.inner == 2 ==> s'.inner == 2
    ensures s.outer == 2 ==> s'.outer == 2
  {
    hide Crc, Column, Right;
  }

  /** How many of the steps from `a` to `b` are those of thread `i`. */
  function StepsOf(who: seq<nat>, i: nat, a: nat, b: nat): nat
    requires a <= b <= |who|
    decreases b
  {
    if a == b then 0 else StepsOf(who, i, a, b - 1) + if who[b - 1] == i then 1 else 0
  }

  /** Until the spin is released, each step of the thread counts, and no other step takes it back. */
  lemma {:induction false} WorkIsDone(states: seq<State>, who: seq<nat>, i: nat, a: nat, b: nat)
    requires Run(states, who) && a <= b < |states| && i < |states[a].threads|
    ensures |states[b].threads| == |states[a].threads|
    ensures var pc, pc', n := states[a].threads[i], states[b].threads[i], StepsOf(who, i, a, b);
            && (Computing(pc) ==>
                  if n < Work(pc) then Computing(pc') && Work(pc') == Work(pc) - n else states[b].shared.inner == 2)
            && (HoldsOuter(pc) ==>
                  states[b].shared.outer == 2 || (HoldsOuter(pc') && 0 < OuterWork(pc') <= OuterWork(pc) - n))
    decreases b
  {
    hide Move, Sound, Knows, Computing, HoldsOuter, Work, OuterWork;
    RunKeepsInv(states, who, a);
    if a == b {
      RegionsHaveWork(states[a].shared, states[a].threads[i]);
    } else {
      WorkIsDone(states, who, i, a, b - 1);
      RunKeepsInv(states, who, b - 1);
      var s, s', mover := states[b - 1], states[b], who[b - 1];
      assert Step(s, s', mover);
      WorkFalls(s.shared, s.threads[mover], s'.shared, s'.threads[mover]);
    }
  }

  lemma RegionsHaveWork(s: Shared, pc: PC)
    requires Knows(s, pc)
    ensures Computing(pc) ==> Work(pc) > 0
    ensures HoldsOuter(pc) ==> OuterWork(pc) > 0
  {
    hide Crc, Column, Right;
  }

  /**
   And both spins are released, in every run and however the threads interleave: the inner one exactly when
   the thread that computes has taken the steps of its work, the outer one by the time that the thread inside
   the outer exchange has.
   */
  lemma WorkEnds(states: seq<State>, who: seq<nat>, i: nat, a: nat, b: nat)
    requires Run(states, who) && a <= b < |states| && i < |states[a].threads|
    ensures var pc, n := states[a].threads[i], StepsOf(who, i, a, b);
            && (Computing(pc) ==> (states[b].shared.inner == 2 <==> n >= Work(pc)))
            && (HoldsOuter(pc) && n >= OuterWork(pc) ==> states[b].shared.outer == 2)
  {
    hide Crc, Column, Right, Work, OuterWork;
    WorkIsDone(states, who, i, a, b);
    RunKeepsInv(states, who, b);
    assert Knows(states[b].shared, states[b].threads[i]);
  }
}
