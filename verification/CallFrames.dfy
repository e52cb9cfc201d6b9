/** Shadow frames, the jmpbuf stack and the unwinding of aot_call_function (aot_runtime.c, wasm_exec_env.c).

    Two frame formats share the stack area of the execution environment. Standard frames are linked through
    `prev_frame` and found through `cur_frame`; tiny frames are eight bytes each and found through `top`. */
module CallFrames {
  import opened Wrappers

  const TINY_FRAME_SIZE := 8

  /** What a frame holds in memory; a tiny frame has no link. */
  datatype FrameCell = FrameCell(funcIndex: nat, prev: Option<nat>)

  /** The environment's fixed part: the module's feature flags and the bounds of the stack area. */
  datatype Config = Config(tiny: bool, perFunction: bool, importCount: nat, frameSize: nat, bottom: nat, topBoundary: nat)
  {
    /** Address of the frame at depth k, counted from the outermost. */
    function FrameAt(k: nat): nat
    {
      bottom + k * (if tiny then TINY_FRAME_SIZE else frameSize)
    }

    /** Whether one more frame fits on top of k frames. A standard frame has to lie inside the area; of a
        tiny frame only the start is compared with the boundary. */
    predicate Fits(k: nat)
    {
      if tiny then FrameAt(k) <= topBoundary else FrameAt(k + 1) <= topBoundary
    }

    predicate Valid()
    {
      frameSize > 0
    }

    lemma FrameStep(k: nat)
      ensures FrameAt(k + 1) == FrameAt(k) + (if tiny then TINY_FRAME_SIZE else frameSize)
    {
      var s := if tiny then TINY_FRAME_SIZE else frameSize;
      assert (k + 1) * s == k * s + s;
    }

    lemma FramesDiffer(j: nat, k: nat)
      requires Valid() && j < k
      ensures FrameAt(j) < FrameAt(k)
      decreases k
    {
      FrameStep(k - 1);
      if j < k - 1 { FramesDiffer(j, k - 1); }
    }
  }

  class JmpBuf {
    var prev: JmpBuf?

    constructor ()
      ensures prev == null
    {
      prev := null;
    }
  }

  // ---- calls: what the callee does with frames ----

  datatype Outcome = Returns | Fails | Traps

  /** One call through aot_call_function: what may go wrong before the callee runs, what its code does with
      frames and nested calls, and how it ends. */
  datatype Call = Call(func: nat, argsFit: bool, argsAllocate: bool, nativeStackFits: bool,
                       body: seq<Action>, outcome: Outcome)

  /** Compiled code pushes a frame for a function it is about to run and pops one of its own frames when it
      is done; host code reached from it may call back in. Code that gets no frame, or that passes on the
      failure of a nested call, leaves at once with whatever frames it has pushed still in place. */
  datatype Action = Push(func: nat) | Pop | Nested(call: Call, passesFailureOn: bool)

  /** The outcome of a call made at a given depth. */
  function Result(c: Config, depth: nat, call: Call): bool
    decreases call, 1
  {
    var framed := !(c.perFunction);
    if !call.argsFit || !call.argsAllocate then false
    else if framed && !c.Fits(depth) then false
    else if !call.nativeStackFits then false
    else BodyRuns(c, depth + (if framed then 1 else 0), 0, call, 0) && call.outcome == Returns
  }

  /** Whether the rest of a body, from action i on, runs to its end; `own` frames are the body's. */
  function BodyRuns(c: Config, base: nat, own: nat, call: Call, i: nat): bool
    requires i <= |call.body|
    decreases call, 0, |call.body| - i
  {
    if i == |call.body| then true
    else match call.body[i]
      case Push(func) => c.Fits(base + own) && BodyRuns(c, base, own + 1, call, i + 1)
      case Pop => BodyRuns(c, base, if own > 0 then own - 1 else 0, call, i + 1)
      case Nested(inner, passes) =>
        assert inner < call;
        if !Result(c, base + own, inner) && passes then false else BodyRuns(c, base, own, call, i + 1)
  }

  function Max(x: nat, y: nat): nat
  {
    if x >= y then x else y
  }

  /** The most frames a call can have in place at once, on top of its caller's. */
  function Peak(perFunction: bool, call: Call): nat
    decreases call, 1
  {
    (if perFunction then 0 else 1) + BodyPeak(perFunction, 0, call, 0)
  }

  function BodyPeak(perFunction: bool, own: nat, call: Call, i: nat): nat
    requires i <= |call.body|
    decreases call, 0, |call.body| - i
  {
    if i == |call.body| then own
    else match call.body[i]
      case Push(func) => Max(own + 1, BodyPeak(perFunction, own + 1, call, i + 1))
      case Pop => BodyPeak(perFunction, if own > 0 then own - 1 else 0, call, i + 1)
      case Nested(inner, _) =>
        assert inner < call;
        Max(own + Peak(perFunction, inner), BodyPeak(perFunction, own, call, i + 1))
  }

  ghost predicate HasRoom(c: Config, n: nat)
  {
    forall k: nat :: k < n ==> c.Fits(k)
  }

  /** Nothing goes wrong in the call but perhaps for want of frames: it gets its arguments and native stack, its code
      returns, and no nested call goes wrong of which it passes the failure on. */
  predicate Completes(call: Call)
  {
    && call.argsFit && call.argsAllocate && call.nativeStackFits && call.outcome == Returns
    && forall i :: 0 <= i < |call.body| && call.body[i].Nested? && call.body[i].passesFailureOn ==> Completes(call.body[i].call)
  }

  /** The frames that the first i actions of a body leave. */
  function OwnFrames(body: seq<Action>, i: nat): nat
    requires i <= |body|
  {
    if i == 0 then 0
    else
      var own := OwnFrames(body, i - 1);
      match body[i - 1]
      case Push(_) => own + 1
      case Pop => if own > 0 then own - 1 else 0
      case Nested(_, _) => own
  }

  /** From action i on every frame that the body pushes fits, and every nested call that it depends on answers true. */
  predicate ActionsRun(c: Config, base: nat, call: Call, i: nat)
  {
    forall k :: i <= k < |call.body| ==> ActionRuns(c, base + OwnFrames(call.body, k), call.body[k])
  }

  lemma {:induction false} BodyRunsIff(c: Config, base: nat, call: Call, i: nat)
    requires i <= |call.body|
    ensures BodyRuns(c, base, OwnFrames(call.body, i), call, i) <==> ActionsRun(c, base, call, i)
    decreases |call.body| - i
  {
    if i < |call.body| {
      hide BodyRuns, ActionRuns, OwnFrames;
      BodyRunsIff(c, base, call, i + 1);
      BodyStep(c, base, call, i);
      assert ActionsRun(c, base, call, i) <==> ActionRuns(c, base + OwnFrames(call.body, i), call.body[i]) && ActionsRun(c, base, call, i + 1);
    }
  }

  lemma BodyStep(c: Config, base: nat, call: Call, i: nat)
    requires i < |call.body|
    ensures BodyRuns(c, base, OwnFrames(call.body, i), call, i) <==>
            && ActionRuns(c, base + OwnFrames(call.body, i), call.body[i])
            && BodyRuns(c, base, OwnFrames(call.body, i + 1), call, i + 1)
  {
    hide Result, Config.Fits;
  }

  /** At this depth a push gets its frame; a nested call answers true if its failure matters. */
  predicate ActionRuns(c: Config, depth: nat, a: Action)
  {
    match a
    case Push(_) => c.Fits(depth)
    case Pop => true
    case Nested(inner, passes) => passes ==> Result(c, depth, inner)
  }

  /** A call answers true exactly if nothing goes wrong in it: arguments, its own frame, native stack, its code, the
      frames and the calls that its code makes. */
  lemma ResultIff(c: Config, depth: nat, call: Call)
    ensures var base := if c.perFunction then depth else depth + 1;
            Result(c, depth, call) <==>
              && call.argsFit && call.argsAllocate && call.nativeStackFits && call.outcome == Returns
              && (!c.perFunction ==> c.Fits(depth)) && ActionsRun(c, base, call, 0)
  {
    hide Config.Fits, BodyRuns, ActionsRun;
    assert OwnFrames(call.body, 0) == 0;
    BodyRunsIff(c, if c.perFunction then depth else depth + 1, call, 0);
  }

  /** Only a call in which nothing goes wrong answers true. */
  lemma {:induction false} TrueIsComplete(c: Config, depth: nat, call: Call)
    requires Result(c, depth, call)
    ensures Completes(call)
    decreases call
  {
    hide Config.Fits, Result, BodyRuns;
    var base := if c.perFunction then depth else depth + 1;
    ResultIff(c, depth, call);
    forall k | 0 <= k < |call.body| && call.body[k].Nested? && call.body[k].passesFailureOn ensures Completes(call.body[k].call) {
      assert ActionRuns(c, base + OwnFrames(call.body, k), call.body[k]);
      TrueIsComplete(c, base + OwnFrames(call.body, k), call.body[k].call);
    }
  }

  /** And with room for the peak of the call tree every such call does. */
  lemma {:induction false} CompleteIsTrue(c: Config, depth: nat, call: Call)
    requires Completes(call) && HasRoom(c, depth + Peak(c.perFunction, call))
    ensures Result(c, depth, call)
    decreases call
  {
    hide Config.Fits, Result, HasRoom, BodyPeak, OwnFrames;
    assert !c.perFunction ==> c.Fits(depth) by { FirstFits(c, depth, call); }
    var base := if c.perFunction then depth else depth + 1;
    ResultIff(c, depth, call);
    forall k | 0 <= k < |call.body| ensures ActionRuns(c, base + OwnFrames(call.body, k), call.body[k]) {
      PeakOf(c.perFunction, call, k);
      ActionHasRoom(c, depth, call, k);
      if call.body[k].Nested? && call.body[k].passesFailureOn {
        CompleteIsTrue(c, base + OwnFrames(call.body, k), call.body[k].call);
      }
    }
  }

  lemma FirstFits(c: Config, depth: nat, call: Call)
    requires HasRoom(c, depth + Peak(c.perFunction, call))
    ensures !c.perFunction ==> c.Fits(depth)
  {
    hide Config.Fits, BodyPeak;
  }

  lemma ActionHasRoom(c: Config, depth: nat, call: Call, k: nat)
    requires k < |call.body| && HasRoom(c, depth + Peak(c.perFunction, call))
    requires Within(c.perFunction, OwnFrames(call.body, k), call.body[k], BodyPeak(c.perFunction, 0, call, 0))
    ensures var at, a := (if c.perFunction then depth else depth + 1) + OwnFrames(call.body, k), call.body[k];
            && (a.Push? ==> c.Fits(at))
            && (a.Nested? ==> HasRoom(c, at + Peak(c.perFunction, a.call)))
  {
    hide Config.Fits, BodyPeak, OwnFrames;
  }

  predicate Within(perFunction: bool, own: nat, a: Action, peak: nat)
  {
    match a
    case Push(_) => own + 1 <= peak
    case Pop => true
    case Nested(inner, _) => own + Peak(perFunction, inner) <= peak
  }

  /** What an action needs is within the peak. */
  lemma PeakOf(perFunction: bool, call: Call, k: nat)
    requires k < |call.body|
    ensures Within(perFunction, OwnFrames(call.body, k), call.body[k], BodyPeak(perFunction, 0, call, 0))
  {
    hide Peak;
    PeakFrom(perFunction, call, k);
  }

  lemma {:induction false} PeakFrom(perFunction: bool, call: Call, k: nat)
    requires k <= |call.body|
    ensures BodyPeak(perFunction, OwnFrames(call.body, k), call, k) <= BodyPeak(perFunction, 0, call, 0)
  {
    hide Peak;
    if k > 0 { PeakFrom(perFunction, call, k - 1); }
  }

  /** With room for the peak of a call tree its outcome is the callees' own business: it does not depend on
      the frame format, the size of a frame, or how deep the caller already is. */
  lemma {:induction false} OutcomeIndependent(c: Config, depth: nat, c': Config, depth': nat, call: Call)
    requires c.perFunction == c'.perFunction
    requires HasRoom(c, depth + Peak(c.perFunction, call)) && HasRoom(c', depth' + Peak(c.perFunction, call))
    ensures Result(c, depth, call) == Result(c', depth', call)
    decreases call, 1
  {
    hide Config.Fits;
    var f := if c.perFunction then 0 else 1;
    BodyIndependent(c, depth + f, c', depth' + f, 0, call, 0);
  }

  lemma {:induction false} BodyIndependent(c: Config, base: nat, c': Config, base': nat, own: nat, call: Call, i: nat)
    requires c.perFunction == c'.perFunction && i <= |call.body|
    requires HasRoom(c, base + BodyPeak(c.perFunction, own, call, i))
    requires HasRoom(c', base' + BodyPeak(c.perFunction, own, call, i))
    ensures BodyRuns(c, base, own, call, i) == BodyRuns(c', base', own, call, i)
    decreases call, 0, |call.body| - i
  {
    hide Config.Fits;
    if i < |call.body| {
      match call.body[i]
      case Push(func) =>
        assert c.Fits(base + own) && c'.Fits(base' + own);
        BodyIndependent(c, base, c', base', own + 1, call, i + 1);
      case Pop =>
        BodyIndependent(c, base, c', base', if own > 0 then own - 1 else 0, call, i + 1);
      case Nested(inner, passes) =>
        OutcomeIndependent(c, base + own, c', base' + own, inner);
        BodyIndependent(c, base, c', base', own, call, i + 1);
    }
  }

  function Reversed(s: seq<nat>): (r: seq<nat>)
    ensures |r| == |s| && forall i :: 0 <= i < |s| ==> r[i] == s[|s| - 1 - i]
  {
    seq(|s|, i requires 0 <= i < |s| => s[|s| - 1 - i])
  }

  lemma ReversedStep(s: seq<nat>, n: nat)
    requires n <= |s|
    ensures n == |s| ==> Reversed(s[n..]) == []
    ensures n < |s| ==> Reversed(s[n..]) == Reversed(s[n + 1..]) + [s[n]]
  {
  }

  class ExecEnv {
    const config: Config
    var curFrame: Option<nat>
    var top: nat
    var memory: map<nat, FrameCell>
    var jmpbufStackTop: JmpBuf?
    var frames: seq<nat>          // the call stack handed to the C API, as function indices

    ghost var stack: seq<nat>     // function indices of the live frames, outermost first

    ghost predicate Valid()
      reads `curFrame, `top, `memory, `stack
    {
      && config.Valid()
      && (forall k :: 0 <= k < |stack| ==>
            config.FrameAt(k) in memory && memory[config.FrameAt(k)] == FrameCell(stack[k], LinkOf(k)))
      && if config.tiny then top == config.FrameAt(|stack|) else curFrame == FrameBelow(|stack|)
    }

    /** Address of the topmost of k frames. */
    ghost function FrameBelow(k: nat): Option<nat>
    {
      if k == 0 then None else Some(config.FrameAt(k - 1))
    }

    ghost function LinkOf(k: nat): Option<nat>
    {
      if config.tiny then None else FrameBelow(k)
    }

    constructor (config: Config, top: nat)
      requires config.Valid() && config.tiny ==> top == config.bottom
      requires config.Valid()
      ensures this.config == config && Valid() && stack == [] && jmpbufStackTop == null && frames == []
    {
      this.config := config;
      curFrame, this.top, memory, jmpbufStackTop, frames, stack := None, top, map[], null, [], [];
    }

    function GetTopFrame(): (f: Option<nat>)
      requires Valid()
      reads `curFrame, `top, `memory, `stack
      ensures f == FrameBelow(|stack|)
    {
      if config.tiny then
        Facts(|stack|);
        if top > config.bottom then Some(top - TINY_FRAME_SIZE) else None
      else curFrame
    }

    function GetPrevFrame(frame: nat, ghost k: nat): (f: Option<nat>)
      requires Valid() && k < |stack| && frame == config.FrameAt(k)
      reads `curFrame, `top, `memory, `stack
      ensures f == FrameBelow(k)
    {
      if config.tiny then
        Facts(k);
        if frame == config.bottom then None else Some(frame - TINY_FRAME_SIZE)
      else memory[frame].prev
    }

    lemma Facts(k: nat)
      requires config.Valid()
      ensures config.FrameAt(k) == config.bottom <==> k == 0
      ensures k > 0 ==> config.FrameAt(k) > config.bottom
                        && config.FrameAt(k) == config.FrameAt(k - 1) + (if config.tiny then TINY_FRAME_SIZE else config.frameSize)
    {
      if k > 0 {
        config.FrameStep(k - 1);
        config.FramesDiffer(0, k);
      }
    }

    lemma Apart(n: nat)
      requires config.Valid()
      ensures forall k :: 0 <= k < n ==> config.FrameAt(k) != config.FrameAt(n)
    {
      forall k | 0 <= k < n ensures config.FrameAt(k) != config.FrameAt(n) { config.FramesDiffer(k, n); }
    }

    lemma TopTellsDepth(j: nat, k: nat)
      requires config.Valid() && FrameBelow(j) == FrameBelow(k)
      ensures j == k
    {
      if 0 < j < k { config.FramesDiffer(j - 1, k - 1); }
      if 0 < k < j { config.FramesDiffer(k - 1, j - 1); }
    }

    method AllocTinyFrame(func: nat) returns (ok: bool)
      requires Valid() && config.tiny
      modifies `top, `memory, `stack
      ensures Valid() && ok == config.Fits(old(|stack|))
      ensures stack == if ok then old(stack) + [func] else old(stack)
      ensures ok <==> old(top) <= config.topBoundary
      ensures top == if ok then old(top) + 8 else old(top)
      ensures memory == if ok then old(memory)[old(top) := FrameCell(func, None)] else old(memory)
    {
      hide Config.FrameAt;
      ghost var n := |stack|;
      Facts(n + 1);
      Apart(n);
      if top > config.topBoundary { return false; }
      memory := memory[top := FrameCell(func, None)];
      top := top + TINY_FRAME_SIZE;
      stack := stack + [func];
      return true;
    }

    method AllocStandardFrame(func: nat) returns (ok: bool)
      requires Valid() && !config.tiny
      modifies `curFrame, `memory, `stack
      ensures Valid() && ok == config.Fits(old(|stack|))
      ensures stack == if ok then old(stack) + [func] else old(stack)
      ensures var frame := if old(curFrame).None? then config.bottom else old(curFrame).value + config.frameSize;
              && (ok <==> frame + config.frameSize <= config.topBoundary)
              && curFrame == (if ok then Some(frame) else old(curFrame))
              && memory == if ok then old(memory)[frame := FrameCell(func, old(curFrame))] else old(memory)
    {
      hide Config.FrameAt;
      NextFrame();
      Apart(|stack|);
      var frame := if curFrame.None? then config.bottom else curFrame.value + config.frameSize;
      if frame + config.frameSize > config.topBoundary { return false; }
      memory := memory[frame := FrameCell(func, curFrame)];
      curFrame := Some(frame);
      stack := stack + [func];
      return true;
    }

    lemma NextFrame()
      requires Valid() && !config.tiny
      ensures var frame := if curFrame.None? then config.bottom else curFrame.value + config.frameSize;
              && frame == config.FrameAt(|stack|)
              && (frame + config.frameSize <= config.topBoundary <==> config.Fits(|stack|))
    {
      hide Config.FrameAt;
      Facts(|stack|);
      Facts(|stack| + 1);
    }

    /** A frame in the module's format, as compiled code and the runtime both make it. */
    method AllocFrameRaw(func: nat) returns (ok: bool)
      requires Valid()
      modifies `curFrame, `top, `memory, `stack
      ensures Valid() && ok == config.Fits(old(|stack|))
      ensures stack == if ok then old(stack) + [func] else old(stack)
      ensures config.tiny ==> curFrame == old(curFrame)
      ensures !config.tiny ==> top == old(top)
    {
      if config.tiny { ok := AllocTinyFrame(func); } else { ok := AllocStandardFrame(func); }
    }

    /** aot_alloc_frame: when frames are made by the functions themselves, only imports get one here. */
    method AllocFrame(func: nat) returns (ok: bool)
      requires Valid()
      modifies `curFrame, `top, `memory, `stack
      ensures Valid()
      ensures var skip := config.perFunction && func >= config.importCount;
              && ok == (skip || config.Fits(old(|stack|)))
              && stack == if ok && !skip then old(stack) + [func] else old(stack)
      ensures config.tiny ==> curFrame == old(curFrame)
      ensures !config.tiny ==> top == old(top)
    {
      if config.perFunction && func >= config.importCount { return true; }
      ok := AllocFrameRaw(func);
    }

    method FreeFrame()
      requires Valid() && stack != []
      modifies `curFrame, `top, `stack
      ensures Valid() && stack == old(stack)[..|old(stack)| - 1]
      ensures config.tiny ==> curFrame == old(curFrame)
      ensures !config.tiny ==> top == old(top)
    {
      hide Config.FrameAt;
      ghost var n := |stack|;
      Facts(n);
      if config.tiny {
        top := top - TINY_FRAME_SIZE;
      } else {
        curFrame := memory[curFrame.value].prev;
      }
      stack := stack[..n - 1];
    }

    /** The loop after every call: free frames until the caller's is on top again. */
    method Unwind(prev: Option<nat>, ghost depth: nat)
      requires Valid() && depth <= |stack| && prev == FrameBelow(depth)
      modifies `curFrame, `top, `stack
      ensures Valid() && stack == old(stack)[..depth]
      ensures config.tiny ==> curFrame == old(curFrame)
      ensures !config.tiny ==> top == old(top)
    {
      hide Config.FrameAt;
      while GetTopFrame() != prev
        invariant Valid() && depth <= |stack| && stack == old(stack)[..|stack|]
        invariant config.tiny ==> curFrame == old(curFrame)
        invariant !config.tiny ==> top == old(top)
        decreases |stack|
      {
        FreeFrame();
      }
      TopTellsDepth(|stack|, depth);
    }

    lemma FrameFacts(k: nat)
      requires Valid() && k < |stack|
      ensures config.FrameAt(k) in memory && memory[config.FrameAt(k)].funcIndex == stack[k]
    {
    }

    /** The walk that counts the frames. */
    method CountFrames() returns (n: nat)
      requires Valid()
      ensures n == |stack|
    {
      hide Config.FrameAt, Valid;
      n := 0;
      var frame := GetTopFrame();
      while frame != None
        invariant n <= |stack| && frame == FrameBelow(|stack| - n)
        decreases |stack| - n
      {
        frame := GetPrevFrame(frame.value, |stack| - n - 1);
        n := n + 1;
      }
    }

    /** aot_create_call_stack: walk the frames twice, to count them and to list them. Room for the list is
        given up after `room` entries. */
    method CreateCallStack(vectorAllocates: bool, room: nat) returns (ok: bool)
      requires Valid()
      modifies `frames
      ensures Valid() && stack == old(stack)
      ensures ok == (vectorAllocates && |stack| <= room)
      ensures frames == if ok then Reversed(stack) else []
    {
      hide Config.FrameAt, Valid, Reversed;
      var n: nat := CountFrames();
      frames := [];
      if !vectorAllocates { return false; }
      var frame := GetTopFrame();
      ReversedStep(stack, n);
      while n > 0
        invariant Valid() && n <= |stack| && |frames| == |stack| - n <= room
        invariant frame == FrameBelow(n)
        invariant frames == Reversed(stack[n..])
      {
        n := n - 1;
        FrameFacts(n);
        if |frames| == room {
          frames := [];
          return false;
        }
        ReversedStep(stack, n);
        frames := frames + [memory[frame.value].funcIndex];
        frame := GetPrevFrame(frame.value, n);
      }
      assert stack[n..] == stack;
      return true;
    }

    // ---- the jmpbuf stack ----

    method PushJmpbuf(node: JmpBuf)
      modifies node, `jmpbufStackTop
      ensures node.prev == old(jmpbufStackTop) && jmpbufStackTop == node
    {
      node.prev := jmpbufStackTop;
      jmpbufStackTop := node;
    }

    method PopJmpbuf() returns (node: JmpBuf?)
      modifies `jmpbufStackTop
      ensures node == old(jmpbufStackTop)
      ensures jmpbufStackTop == if node != null then node.prev else null
    {
      node := jmpbufStackTop;
      if node != null { jmpbufStackTop := node.prev; }
    }

    // ---- calls ----

    /** The callee's code. Where it leaves the body early or traps, its frames stay behind. */
    method RunBody(call: Call, traceAllocates: bool, room: nat) returns (ok: bool)
      requires Valid()
      modifies this
      ensures Valid() && jmpbufStackTop == old(jmpbufStackTop)
      ensures old(stack) <= stack
      ensures ok == BodyRuns(config, old(|stack|), 0, call, 0)
      ensures config.tiny ==> curFrame == old(curFrame)
      ensures !config.tiny ==> top == old(top)
      decreases call, 0
    {
      hide Config.FrameAt, Valid, Config.Fits, Result;
      ghost var base := |stack|;
      var own := 0;
      for i := 0 to |call.body|
        invariant Valid() && jmpbufStackTop == old(jmpbufStackTop) && old(stack) <= stack
        invariant |stack| == base + own
        invariant BodyRuns(config, base, 0, call, 0) == BodyRuns(config, base, own, call, i)
        invariant config.tiny ==> curFrame == old(curFrame)
        invariant !config.tiny ==> top == old(top)
      {
        match call.body[i]
        case Push(func) =>
          var pushed := AllocFrameRaw(func);
          if !pushed { return false; }
          own := own + 1;
        case Pop =>
          if own > 0 {
            FreeFrame();
            own := own - 1;
          }
        case Nested(inner, passes) =>
          var r := CallFunction(inner, traceAllocates, room);
          if !r && passes { return false; }
      }
      return true;
    }

    /** invoke_native_with_hw_bound_check: a trap in the callee jumps to the innermost jmpbuf, which is this
        call's own, so the call ends here and not further out. */
    method InvokeNative(call: Call, traceAllocates: bool, room: nat) returns (ret: bool)
      requires Valid()
      modifies this
      ensures Valid() && jmpbufStackTop == old(jmpbufStackTop)
      ensures old(stack) <= stack
      ensures ret == (call.nativeStackFits && BodyRuns(config, old(|stack|), 0, call, 0) && call.outcome == Returns)
      ensures config.tiny ==> curFrame == old(curFrame)
      ensures !config.tiny ==> top == old(top)
      decreases call, 1
    {
      if !call.nativeStackFits { return false; }
      var node := new JmpBuf();
      PushJmpbuf(node);
      ret := RunBody(call, traceAllocates, room);
      assert jmpbufStackTop == node;
      ret := ret && call.outcome == Returns;
      var popped := PopJmpbuf();
      assert popped == node;
    }

    /** aot_call_function: however the callee ends and whatever frames it leaves, the caller's frame is on
        top afterwards and the frame stack is exactly what it was. */
    method CallFunction(call: Call, traceAllocates: bool, room: nat) returns (ret: bool)
      requires Valid()
      modifies this
      ensures Valid() && stack == old(stack)
      ensures curFrame == old(curFrame) && top == old(top) && jmpbufStackTop == old(jmpbufStackTop)
      ensures ret == Result(config, |stack|, call)
      ensures ret ==> Completes(call) && (!config.perFunction ==> config.Fits(|stack|))
      ensures Completes(call) && HasRoom(config, |stack| + Peak(config.perFunction, call)) ==> ret
      decreases call, 2
    {
      hide Config.FrameAt, Config.Fits, BodyRuns, Valid, Completes, HasRoom, Peak;
      TrueIff(call);
      PointersFromStack();
      if !call.argsFit { return false; }
      ghost var depth := |stack|;
      var prev := GetTopFrame();
      if !call.argsAllocate { return false; }
      if !config.perFunction {
        var ok := AllocFrame(call.func);
        if !ok { return false; }
      }
      ret := InvokeNative(call, traceAllocates, room);
      if !ret {
        var _ := CreateCallStack(traceAllocates, room);
      }
      Unwind(prev, depth);
      PointersFromStack();
    }

    lemma TrueIff(call: Call)
      ensures Result(config, |stack|, call) ==> Completes(call) && (!config.perFunction ==> config.Fits(|stack|))
      ensures Completes(call) && HasRoom(config, |stack| + Peak(config.perFunction, call)) ==> Result(config, |stack|, call)
    {
      hide Result, Completes, HasRoom, Peak, Config.Fits;
      if Result(config, |stack|, call) {
        ResultIff(config, |stack|, call);
        TrueIsComplete(config, |stack|, call);
      } else if Completes(call) && HasRoom(config, |stack| + Peak(config.perFunction, call)) {
        CompleteIsTrue(config, |stack|, call);
      }
    }

    lemma PointersFromStack()
      requires Valid()
      ensures if config.tiny then top == config.FrameAt(|stack|) else curFrame == FrameBelow(|stack|)
    {
    }
  }
}
