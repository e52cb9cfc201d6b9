/** The handshake of wasm_blocking_op.c: one target thread that enters and leaves blocking operations, and
    any number of threads that interrupt it, all through the flag word of the target's environment.

    Every read, fetch-or and fetch-and of the word is a step of its own and nothing is locked, which is the
    build where the word is atomic. Where the lock macros do lock, a run is one of these with fewer
    interleavings. The rest of the runtime shares the word: the thread manager sets TERMINATE when it cancels
    a thread and clears it when an exception of the cluster is cleared (thread_manager.c, set_thread_cancel_flags
    and clear_thread_cancel_flags), and other bits come and go. Nothing else touches BLOCKING. */
module BlockingOp {
  import opened Wrappers

  /** A position in the 32-bit flag word, and the word as the set of the positions that hold a one. */
  type Bit = b: nat | b < 32
  type Word = set<Bit>

  const TERMINATE: Bit := 0    // 0x1
  const BLOCKING: Bit := 4     // 0x10

  predicate IsSet(flags: Word, bit: Bit)
  {
    bit in flags
  }

  /** Fetch-or with a mask. */
  function SetBits(flags: Word, bits: Word): Word
  {
    flags + bits
  }

  /** Fetch-and with the complement of a mask. */
  function ClearBits(flags: Word, bits: Word): Word
  {
    flags - bits
  }

  /** All bits other than the two that the protocol uses. */
  function OtherBits(flags: Word): Word
  {
    flags - {TERMINATE, BLOCKING}
  }

  /** Where the target is. Inside is the stretch between a successful begin and the matching end. */
  datatype Target =
    | Idle
    | BeginAssert      // bh_assert(!ISSET(env, BLOCKING))
    | BeginSet         // SET(env, BLOCKING)
    | BeginTest        // if (ISSET(env, TERMINATE))
    | BeginUndo        // CLR(env, BLOCKING), return false
    | Inside           // return true
    | EndAssert        // bh_assert(ISSET(env, BLOCKING))
    | EndClear         // CLR(env, BLOCKING)

  /** Where an interrupter is. */
  datatype Caller =
    | Outside
    | SetTerminate     // SET(env, TERMINATE)
    | TestBlocking     // while (ISSET(env, BLOCKING))
    | Waking           // os_wakeup_blocking_op; os_usleep

  datatype State = State(flags: Word, target: Target, callers: seq<Caller>)

  /** One atomic step of the system. CancelThread and ClearCancel are the thread manager's. */
  datatype Step =
    | CallBegin | AssertNotBlocking | SetBlocking | TestTerminate | UndoBlocking
    | CallEnd | AssertBlocking | ClearBlocking
    | CallInterrupt(i: nat) | StoreTerminate(i: nat) | LoadBlocking(i: nat) | WakeUp(i: nat)
    | CancelThread | ClearCancel | OtherBit(sets: Word, clears: Word)

  /** Masks that leave both bits of the protocol alone. */
  predicate Harmless(sets: Word, clears: Word)
  {
    TERMINATE !in sets + clears && BLOCKING !in sets + clears
  }

  predicate Enabled(s: State, e: Step)
  {
    match e
    case CallBegin => s.target == Idle
    case AssertNotBlocking => s.target == BeginAssert
    case SetBlocking => s.target == BeginSet
    case TestTerminate => s.target == BeginTest
    case UndoBlocking => s.target == BeginUndo
    case CallEnd => s.target == Inside
    case AssertBlocking => s.target == EndAssert
    case ClearBlocking => s.target == EndClear
    case CallInterrupt(i) => i < |s.callers| && s.callers[i] == Outside
    case StoreTerminate(i) => i < |s.callers| && s.callers[i] == SetTerminate
    case LoadBlocking(i) => i < |s.callers| && s.callers[i] == TestBlocking
    case WakeUp(i) => i < |s.callers| && s.callers[i] == Waking
    case CancelThread | ClearCancel => true
    case OtherBit(sets, clears) => Harmless(sets, clears)
  }

  function Next(s: State, e: Step): State
    requires Enabled(s, e)
  {
    match e
    case CallBegin => s.(target := BeginAssert)
    case AssertNotBlocking => s.(target := BeginSet)
    case SetBlocking => s.(flags := SetBits(s.flags, {BLOCKING}), target := BeginTest)
    case TestTerminate => s.(target := if IsSet(s.flags, TERMINATE) then BeginUndo else Inside)
    case UndoBlocking => s.(flags := ClearBits(s.flags, {BLOCKING}), target := Idle)
    case CallEnd => s.(target := EndAssert)
    case AssertBlocking => s.(target := EndClear)
    case ClearBlocking => s.(flags := ClearBits(s.flags, {BLOCKING}), target := Idle)
    case CallInterrupt(i) => s.(callers := s.callers[i := SetTerminate])
    case StoreTerminate(i) => s.(flags := SetBits(s.flags, {TERMINATE}), callers := s.callers[i := TestBlocking])
    case LoadBlocking(i) =>
      s.(callers := s.callers[i := if IsSet(s.flags, BLOCKING) then Waking else Outside])
    case WakeUp(i) => s.(callers := s.callers[i := TestBlocking])
    case CancelThread => s.(flags := SetBits(s.flags, {TERMINATE}))
    case ClearCancel => s.(flags := ClearBits(s.flags, {TERMINATE}))
    case OtherBit(sets, clears) => s.(flags := ClearBits(SetBits(s.flags, sets), clears))
  }

  predicate Initial(s: State)
  {
    && s.target == Idle && !IsSet(s.flags, BLOCKING)
    && forall i :: 0 <= i < |s.callers| ==> s.callers[i] == Outside
  }

  // ---- what every step keeps ----

  /** Both assertions of the source, where control stands right before them. */
  predicate AssertsHold(s: State)
  {
    && (s.target == BeginAssert ==> !IsSet(s.flags, BLOCKING))
    && (s.target == EndAssert ==> IsSet(s.flags, BLOCKING))
  }

  /** The BLOCKING bit tells exactly where the target is. */
  predicate BitTellsTarget(s: State)
  {
    IsSet(s.flags, BLOCKING) <==> (s.target.BeginTest? || s.target.BeginUndo? || InRegion(s))
  }

  /** The target is past the test of a begin that answered true. */
  predicate InRegion(s: State)
  {
    s.target.Inside? || s.target.EndAssert? || s.target.EndClear?
  }

  predicate Terminated(s: State)
  {
    IsSet(s.flags, TERMINATE)
  }

  /** The call of interrupter i returns with this step. */
  predicate ReturnsAt(s: State, e: Step, i: nat)
  {
    e == LoadBlocking(i) && !IsSet(s.flags, BLOCKING)
  }

  /** The steps that set TERMINATE: an interrupter's store and a cancellation. */
  predicate SetsTerminate(e: Step)
  {
    e.StoreTerminate? || e.CancelThread?
  }

  /** What a step does to TERMINATE; and no step but the rest of the runtime's touches a bit besides the two. */
  lemma StepKeepsBits(s: State, e: Step)
    requires Enabled(s, e)
    ensures Terminated(Next(s, e)) <==> SetsTerminate(e) || (Terminated(s) && !e.ClearCancel?)
    ensures !e.OtherBit? ==> OtherBits(Next(s, e).flags) == OtherBits(s.flags)
    ensures e.CancelThread? || e.ClearCancel? || e.OtherBit? ==> (IsSet(Next(s, e).flags, BLOCKING) <==> IsSet(s.flags, BLOCKING))
  {
  }

  /** Every step keeps the BLOCKING bit telling where the target is, so the source's assertions hold wherever
      they are reached, whoever sets or clears TERMINATE. */
  lemma StepInvariant(s: State, e: Step)
    requires Enabled(s, e) && BitTellsTarget(s)
    ensures BitTellsTarget(Next(s, e)) && AssertsHold(Next(s, e))
  {
  }

  // ---- runs ----

  /** The states that a sequence of steps passes through, each the successor of the one before it. */
  ghost predicate IsPath(states: seq<State>, steps: seq<Step>)
  {
    && |states| == |steps| + 1
    && forall k :: 0 <= k < |steps| ==> Enabled(states[k], steps[k]) && states[k + 1] == Next(states[k], steps[k])
  }

  ghost predicate IsRun(states: seq<State>, steps: seq<Step>)
  {
    IsPath(states, steps) && Initial(states[0])
  }

  /** TERMINATE is not cleared by the steps from j up to k. */
  predicate NoClear(steps: seq<Step>, j: nat, k: nat)
  {
    forall m :: j <= m < k && m < |steps| ==> !steps[m].ClearCancel?
  }

  lemma {:induction false} RunInvariant(states: seq<State>, steps: seq<Step>, k: nat)
    requires IsRun(states, steps) && k < |states|
    ensures BitTellsTarget(states[k]) && AssertsHold(states[k])
  {
    if k > 0 {
      RunInvariant(states, steps, k - 1);
      StepInvariant(states[k - 1], steps[k - 1]);
    }
  }

  /** Step m set TERMINATE and none cleared it since. */
  predicate SetSince(steps: seq<Step>, m: nat, k: nat)
  {
    m < |steps| && SetsTerminate(steps[m]) && NoClear(steps, m + 1, k)
  }

  /** Some step set TERMINATE, or it was set from the start, and no step cleared it since. */
  ghost predicate MarkedAt(atStart: bool, steps: seq<Step>, k: nat)
  {
    (atStart && NoClear(steps, 0, k)) || exists m :: 0 <= m < k && SetSince(steps, m, k)
  }

  lemma MarkedStep(atStart: bool, steps: seq<Step>, k: nat)
    requires k < |steps|
    ensures MarkedAt(atStart, steps, k + 1) <==> SetsTerminate(steps[k]) || (MarkedAt(atStart, steps, k) && !steps[k].ClearCancel?)
  {
    NoClearStep(steps, 0, k);
    forall m | 0 <= m < k ensures SetSince(steps, m, k + 1) <==> SetSince(steps, m, k) && !steps[k].ClearCancel? {
      NoClearStep(steps, m + 1, k);
    }
    assert SetSince(steps, k, k + 1) <==> SetsTerminate(steps[k]);
    var later := k + 1;
    if m :| 0 <= m < later && SetSince(steps, m, later) {
      assert m < k ==> SetSince(steps, m, k);
    }
    if m :| 0 <= m < k && SetSince(steps, m, k) {
      assert !steps[k].ClearCancel? ==> SetSince(steps, m, k + 1);
    }
  }

  lemma NoClearStep(steps: seq<Step>, j: nat, k: nat)
    requires j <= k < |steps|
    ensures NoClear(steps, j, k + 1) <==> NoClear(steps, j, k) && !steps[k].ClearCancel?
  {
  }

  /** TERMINATE is set at a state of a run exactly when the steps up to there say so. */
  lemma {:induction false} TerminatedIff(states: seq<State>, steps: seq<Step>, k: nat)
    requires IsPath(states, steps) && k < |states|
    ensures Terminated(states[k]) <==> MarkedAt(Terminated(states[0]), steps, k)
  {
    hide IsSet, Enabled, Next;
    if k > 0 {
      hide MarkedAt;
      TerminatedIff(states, steps, k - 1);
      StepKeepsBits(states[k - 1], steps[k - 1]);
      MarkedStep(Terminated(states[0]), steps, k - 1);
    }
  }

  /** While TERMINATE stays set nobody enters: a target found outside the region stays outside. */
  lemma {:induction false} NoEntryAfterTerminate(states: seq<State>, steps: seq<Step>, j: nat, k: nat)
    requires IsPath(states, steps) && j <= k < |states| && Terminated(states[j]) && !InRegion(states[j])
    requires NoClear(steps, j, k)
    ensures Terminated(states[k]) && !InRegion(states[k])
    ensures k < |steps| && steps[k] == TestTerminate ==> states[k + 1].target == BeginUndo
    decreases k - j
  {
    hide IsSet, Enabled, Next;
    if j < k {
      NoEntryAfterTerminate(states, steps, j, k - 1);
      StepKeepsBits(states[k - 1], steps[k - 1]);
      NoEntryStep(states[k - 1], steps[k - 1]);
    }
    if k < |steps| { NoEntryStep(states[k], steps[k]); }
  }

  lemma NoEntryStep(s: State, e: Step)
    requires Enabled(s, e) && Terminated(s) && !InRegion(s)
    ensures !InRegion(Next(s, e)) && (e == TestTerminate ==> Next(s, e).target == BeginUndo)
  {
  }

  lemma {:induction false} StaysTerminated(states: seq<State>, steps: seq<Step>, j: nat, k: nat)
    requires IsPath(states, steps) && j <= k < |states| && Terminated(states[j]) && NoClear(steps, j, k)
    ensures Terminated(states[k])
    decreases k - j
  {
    hide IsSet, Enabled, Next;
    if j < k {
      StaysTerminated(states, steps, j, k - 1);
      StepKeepsBits(states[k - 1], steps[k - 1]);
    }
  }

  /** A call of an interrupter is over exactly when its load finds BLOCKING clear; till then each step of its own takes
      it on through the loop: the store, then a load, and after a load that finds the bit set a wake-up and a load again. */
  lemma ReturnsIff(s: State, e: Step, i: nat)
    requires Enabled(s, e) && i < |s.callers| && s.callers[i] != Outside
    ensures |Next(s, e).callers| == |s.callers|
    ensures Next(s, e).callers[i] == Outside <==> ReturnsAt(s, e, i)
    ensures e == StoreTerminate(i) || e == WakeUp(i) ==> Next(s, e).callers[i] == TestBlocking
    ensures e == LoadBlocking(i) && IsSet(s.flags, BLOCKING) ==> Next(s, e).callers[i] == Waking
    ensures OwnStep(e) != Some(i) ==> Next(s, e).callers[i] == s.callers[i]
  {
  }

  /** The interrupter that makes a step, if it is one's. */
  function OwnStep(e: Step): Option<nat>
  {
    match e
    case CallInterrupt(i) => Some(i)
    case StoreTerminate(i) => Some(i)
    case LoadBlocking(i) => Some(i)
    case WakeUp(i) => Some(i)
    case _ => None
  }

  /** Interrupter i called with step c and, if it is past its store, stored TERMINATE with step m and no other. */
  ghost predicate Underway(states: seq<State>, steps: seq<Step>, i: nat, k: nat, c: nat, m: nat)
    requires k < |states| && |states| == |steps| + 1 && i < |states[k].callers|
  {
    && c < k && steps[c] == CallInterrupt(i) && (forall j :: c < j < k ==> steps[j] != CallInterrupt(i))
    && if states[k].callers[i] == SetTerminate then forall j :: c < j < k ==> steps[j] != StoreTerminate(i)
       else c < m < k && forall j :: c < j < k ==> (steps[j] == StoreTerminate(i) <==> j == m)
  }

  lemma {:induction false} CallersKept(states: seq<State>, steps: seq<Step>, k: nat)
    requires IsPath(states, steps) && k < |states|
    ensures |states[k].callers| == |states[0].callers|
  {
    if k > 0 { CallersKept(states, steps, k - 1); }
  }

  lemma UnderwayStep(states: seq<State>, steps: seq<Step>, i: nat, k: nat, c: nat, m: nat)
    requires IsPath(states, steps) && k < |steps| && i < |states[k].callers| && i < |states[k + 1].callers|
    requires states[k].callers[i] != Outside && states[k + 1].callers[i] != Outside && Underway(states, steps, i, k, c, m)
    ensures Underway(states, steps, i, k + 1, c, if steps[k] == StoreTerminate(i) then k else m)
  {
    hide IsSet, Next;
    ReturnsIff(states[k], steps[k], i);
    assert states[k + 1] == Next(states[k], steps[k]);
  }

  lemma JustCalled(states: seq<State>, steps: seq<Step>, i: nat, k: nat)
    requires IsPath(states, steps) && k < |steps| && i < |states[k].callers| && i < |states[k + 1].callers|
    requires states[k].callers[i] == Outside && states[k + 1].callers[i] != Outside
    ensures Underway(states, steps, i, k + 1, k, 0)
  {
    hide IsSet;
    assert Enabled(states[k], steps[k]) && states[k + 1] == Next(states[k], steps[k]);
    assert steps[k] == CallInterrupt(i);
  }

  /** The call that an interrupter is in. */
  lemma {:induction false} CallOf(states: seq<State>, steps: seq<Step>, i: nat, k: nat) returns (c: nat, m: nat)
    requires IsRun(states, steps) && k < |states| && i < |states[k].callers| && states[k].callers[i] != Outside
    ensures Underway(states, steps, i, k, c, m)
    decreases k
  {
    hide Underway, IsSet;
    assert k > 0;
    CallersKept(states, steps, k);
    CallersKept(states, steps, k - 1);
    if states[k - 1].callers[i] == Outside {
      c, m := k - 1, 0;
      JustCalled(states, steps, i, k - 1);
    } else {
      c, m := CallOf(states, steps, i, k - 1);
      UnderwayStep(states, steps, i, k - 1, c, m);
      if steps[k - 1] == StoreTerminate(i) { m := k - 1; }
    }
  }

  /** What the interrupter relies on: when a call of its returns, with step r, it has stored TERMINATE once, with some
      step m of that call. The target is then outside the region, and as long as nothing has cleared TERMINATE since
      the store it stays outside and every begin answers false. */
  lemma InterruptedForGood(states: seq<State>, steps: seq<Step>, i: nat, r: nat) returns (c: nat, m: nat)
    requires IsRun(states, steps) && r < |steps| && i < |states[r].callers| && i < |states[r + 1].callers|
    requires states[r].callers[i] != Outside && states[r + 1].callers[i] == Outside
    ensures c < m < r && steps[c] == CallInterrupt(i)
    ensures forall j :: c < j <= r ==> steps[j] != CallInterrupt(i) && (steps[j] == StoreTerminate(i) <==> j == m)
    ensures !InRegion(states[r + 1])
    ensures forall k :: r < k < |states| && NoClear(steps, m + 1, k) ==> KeptOut(states, steps, k)
  {
    ReturnsIff(states[r], steps[r], i);
    c, m := CallOf(states, steps, i, r);
    RunInvariant(states, steps, r);
    forall k | r < k < |states| && NoClear(steps, m + 1, k) ensures KeptOut(states, steps, k) {
      StepKeepsBits(states[m], steps[m]);
      StaysTerminated(states, steps, m + 1, r + 1);
      NoEntryAfterTerminate(states, steps, r + 1, k);
    }
  }

  /** The target is outside, and if it is about to test TERMINATE its begin answers false. */
  ghost predicate KeptOut(states: seq<State>, steps: seq<Step>, k: nat)
    requires |states| == |steps| + 1 && k < |states|
  {
    !InRegion(states[k]) && (k < |steps| && steps[k] == TestTerminate ==> states[k + 1].target == BeginUndo)
  }

  /** From a state outside the region the target can get in, with no one clearing TERMINATE on the way, exactly
      when TERMINATE is not set. So the bit is all that keeps the target out after an interrupt. */
  lemma EntryIff(s: State)
    requires !InRegion(s)
    ensures (exists states: seq<State>, steps: seq<Step> :: Enters(s, states, steps)) <==> !Terminated(s)
  {
    if Terminated(s) {
      forall states: seq<State>, steps: seq<Step> | IsPath(states, steps) && states[0] == s && NoClear(steps, 0, |steps|)
        ensures !Enters(s, states, steps)
      {
        NoEntryAfterTerminate(states, steps, 0, |steps|);
      }
    } else {
      var states, steps := WayIn(s);
    }
  }

  /** A path from s into the region on which TERMINATE is not cleared. */
  ghost predicate Enters(s: State, states: seq<State>, steps: seq<Step>)
  {
    && IsPath(states, steps) && states[0] == s && NoClear(steps, 0, |steps|)
    && InRegion(states[|steps|])
  }

  /** How many of the target's own steps lead into the region at most. */
  function StepsToGo(t: Target): nat
  {
    match t
    case BeginUndo => 4
    case Idle => 3
    case BeginAssert => 2
    case BeginSet => 1
    case _ => 0
  }

  lemma WayIn(s: State) returns (states: seq<State>, steps: seq<Step>)
    requires !InRegion(s) && !Terminated(s)
    ensures Enters(s, states, steps)
    decreases StepsToGo(s.target)
  {
    var e := match s.target
      case Idle => CallBegin
      case BeginAssert => AssertNotBlocking
      case BeginSet => SetBlocking
      case BeginTest => TestTerminate
      case _ => UndoBlocking;
    StepKeepsBits(s, e);
    var t := Next(s, e);
    if InRegion(t) {
      states, steps := [s, t], [e];
    } else {
      var states', steps' := WayIn(t);
      states, steps := [s] + states', [e] + steps';
    }
  }

  /** A run in which a begin answers true after an interrupt has returned: in between the thread manager cleared
      TERMINATE. */
  lemma EntryAfterInterrupt() returns (states: seq<State>, steps: seq<Step>)
    ensures IsRun(states, steps) && |steps| == 8
    ensures steps[1] == StoreTerminate(0) && ReturnsAt(states[2], steps[2], 0)
    ensures steps[7] == TestTerminate && states[8].target == Inside
  {
    hide Enabled, Next;
    var s0, s1, s2, s3 := Interrupted();
    var s4, s5, s6, s7, s8 := EnteredAgain(s3);
    states := [s0, s1, s2, s3, s4, s5, s6, s7, s8];
    steps := [CallInterrupt(0), StoreTerminate(0), LoadBlocking(0), ClearCancel, CallBegin, AssertNotBlocking, SetBlocking,
              TestTerminate];
  }

  /** An interrupt call with the target idle. */
  lemma Interrupted() returns (s0: State, s1: State, s2: State, s3: State)
    ensures Initial(s0) && Enabled(s0, CallInterrupt(0)) && s1 == Next(s0, CallInterrupt(0))
    ensures Enabled(s1, StoreTerminate(0)) && s2 == Next(s1, StoreTerminate(0))
    ensures Enabled(s2, LoadBlocking(0)) && s3 == Next(s2, LoadBlocking(0)) && ReturnsAt(s2, LoadBlocking(0), 0)
    ensures s3.target == Idle
  {
    s0 := State({}, Idle, [Outside]);
    s1 := Next(s0, CallInterrupt(0));
    s2 := Next(s1, StoreTerminate(0));
    s3 := Next(s2, LoadBlocking(0));
  }

  /** The thread manager clears TERMINATE, and an idle target begins. */
  lemma EnteredAgain(s3: State) returns (s4: State, s5: State, s6: State, s7: State, s8: State)
    requires s3.target == Idle
    ensures Enabled(s3, ClearCancel) && s4 == Next(s3, ClearCancel)
    ensures Enabled(s4, CallBegin) && s5 == Next(s4, CallBegin)
    ensures Enabled(s5, AssertNotBlocking) && s6 == Next(s5, AssertNotBlocking)
    ensures Enabled(s6, SetBlocking) && s7 == Next(s6, SetBlocking)
    ensures Enabled(s7, TestTerminate) && s8 == Next(s7, TestTerminate) && s8.target == Inside
  {
    s4 := Next(s3, ClearCancel);
    s5 := Next(s4, CallBegin);
    s6 := Next(s5, AssertNotBlocking);
    s7 := Next(s6, SetBlocking);
    s8 := Next(s7, TestTerminate);
  }

  /** A begin answers true exactly when TERMINATE was clear at its test, and it leaves the flag word as it
      found it when it answers false and nothing else ran in between. */
  lemma BeginAlone(s: State)
    requires s.target == Idle && !IsSet(s.flags, BLOCKING)
    ensures var t := Next(Next(Next(Next(s, CallBegin), AssertNotBlocking), SetBlocking), TestTerminate);
            && (t.target == Inside <==> !Terminated(s))
            && (Terminated(s) ==> t.target == BeginUndo && Next(t, UndoBlocking) == s)
  {
    assert ClearBits(SetBits(s.flags, {BLOCKING}), {BLOCKING}) == s.flags;
  }

  /** An end takes the target out and clears BLOCKING, and nothing else. */
  lemma EndAlone(s: State)
    requires s.target == Inside && IsSet(s.flags, BLOCKING)
    ensures var t := Next(Next(Next(s, CallEnd), AssertBlocking), ClearBlocking);
            t.target == Idle && t.flags == s.flags - {BLOCKING} && t.callers == s.callers
  {
  }
}
