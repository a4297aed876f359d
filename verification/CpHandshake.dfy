/**
 The frame exchange between the main core and the coprocessor (apps/audioplayers/bt_sco_chain_cp.c),
 as interleaved atomic steps over the shared buffers. The algorithm is any stateful function.
 */
module CpHandshake {

  datatype Option<T> = None | Some(value: T)

  /** The input buffers; `status` is the call status that travels with the frame. */
  datatype Buffers<T> = Buffers(pcm: seq<int>, echoRef: seq<int>, fb: seq<int>, status: T)

  /** The arguments of one sco_cp_process call; the reference buffers may be null. */
  datatype Request<T> = Request(pcm: seq<int>, echoRef: Option<seq<int>>, fb: Option<seq<int>>, status: T)

  /** What the call hands back in place of its arguments. */
  datatype Response<T> = Response(pcm: seq<int>, status: T)

  /** sco_cp_algo: works on the input buffers in place and sets the output length. */
  type Algo<!S, !T> = (S, Buffers<T>, nat) -> (S, Buffers<T>, nat)

  function Take(pcm: seq<int>, n: nat): seq<int> { if n <= |pcm| then pcm[..n] else pcm }

  function Zeros(n: nat): seq<int> { seq(n, _ => 0) }

  /** A null reference buffer leaves the previous contents in place. */
  function Load<T>(b: Buffers<T>, r: Request<T>): Buffers<T>
  {
    Buffers(r.pcm,
            if r.echoRef.Some? then r.echoRef.value else b.echoRef,
            if r.fb.Some? then r.fb.value else b.fb,
            r.status)
  }

  // ---------- the algorithm on its own ----------

  /** The algorithm's state and buffers, and what its last run produced. */
  datatype Local<S, T> = Local(state: S, bufs: Buffers<T>, result: Response<T>)

  function Initial<S, T>(state: S, frameLen: nat, channels: nat, status: T): Local<S, T>
  {
    Local(state,
          Buffers(Zeros(frameLen * channels), Zeros(frameLen), Zeros(frameLen), status),
          Response(Zeros(frameLen), status))
  }

  function RunOnce<S, T>(algo: Algo<S, T>, l: Local<S, T>, r: Request<T>): Local<S, T>
  {
    var (state, bufs, n) := algo(l.state, Load(l.bufs, r), |r.pcm|);
    Local(state, bufs, Response(Take(bufs.pcm, n), bufs.status))
  }

  /** The algorithm applied frame by frame, with nothing concurrent about it. */
  function Alone<S, T>(algo: Algo<S, T>, start: Local<S, T>, requests: seq<Request<T>>): Local<S, T>
  {
    if requests == [] then start
    else RunOnce(algo, Alone(algo, start, requests[..|requests| - 1]), requests[|requests| - 1])
  }

  // ---------- the two cores ----------

  datatype Shared = Idle | Working

  /** The main core inside sco_cp_process, named after the step that comes next. */
  datatype Mcu<T> =
    | McuOut | McuWait(r: Request<T>) | McuCopyIn(r: Request<T>) | McuCopyOut(r: Request<T>)
    | McuCount | McuHandOver | McuSend

  /** The coprocessor inside sco_cp_main. */
  datatype Cp = CpOut | CpCopy | CpCount | CpHandBack

  datatype System<S, T> = System(
    shared: Shared, bufs: Buffers<T>, outPcm: seq<int>, outStatus: T, pcmLen: nat,
    required: nat, runs: nat, events: nat,
    mcu: Mcu<T>, cp: Cp, state: S,
    requests: seq<Request<T>>, responses: seq<Response<T>>)

  datatype Step<T> = Call(r: Request<T>) | McuStep | CpStart | CpStep

  function Init<S, T>(l: Local<S, T>, frameLen: nat): System<S, T>
  {
    System(Idle, l.bufs, l.result.pcm, l.result.status, frameLen, 0, 0, 0, McuOut, CpOut, l.state, [], [])
  }

  function Do<S, T>(algo: Algo<S, T>, s: System<S, T>, a: Step<T>): System<S, T>
  {
    match a
    case Call(r) => if s.mcu.McuOut? then s.(mcu := McuWait(r)) else s
    case McuStep =>
      (match s.mcu
       case McuOut => s
       case McuWait(r) => if s.shared == Working then s else s.(mcu := McuCopyIn(r))
       case McuCopyIn(r) => s.(bufs := Load(s.bufs, r), requests := s.requests + [r], mcu := McuCopyOut(r))
       case McuCopyOut(r) =>
         s.(responses := s.responses + [Response(Take(s.outPcm, s.pcmLen), s.outStatus)], pcmLen := |r.pcm|,
             mcu := McuCount)
       case McuCount => s.(required := s.required + 1, mcu := McuHandOver)
       case McuHandOver => s.(shared := Working, mcu := McuSend)
       case McuSend => s.(events := s.events + 1, mcu := McuOut))
    case CpStart =>
      if s.cp.CpOut? && s.events > 0 then
        var (state, bufs, n) := algo(s.state, s.bufs, s.pcmLen);
        s.(events := s.events - 1, state := state, bufs := bufs, pcmLen := n, cp := CpCopy)
      else s
    case CpStep =>
      (match s.cp
       case CpOut => s
       case CpCopy => s.(outPcm := Take(s.bufs.pcm, s.pcmLen), outStatus := s.bufs.status, cp := CpCount)
       case CpCount => s.(runs := s.runs + 1, cp := CpHandBack)
       case CpHandBack => s.(shared := Idle, cp := CpOut))
  }

  function DoAll<S, T>(algo: Algo<S, T>, s: System<S, T>, steps: seq<Step<T>>): System<S, T>
    decreases |steps|
  {
    if steps == [] then s else DoAll(algo, Do(algo, s, steps[0]), steps[1..])
  }

  /** The main core is past its look at the state and has not handed over yet. */
  predicate McuHolds<S, T>(s: System<S, T>)
  {
    s.mcu.McuCopyIn? || s.mcu.McuCopyOut? || s.mcu.McuCount? || s.mcu.McuHandOver?
  }

  /** Who may touch the buffers, and how the counters stand. */
  ghost predicate Turn<S, T>(s: System<S, T>)
  {
    && (McuHolds(s) ==> s.shared == Idle)
    && (!s.cp.CpOut? ==> s.shared == Working)
    && s.events + (if s.mcu.McuSend? then 1 else 0) + (if s.cp.CpOut? then 0 else 1)
        == (if s.shared == Working then 1 else 0)
    && s.required == s.runs + (if s.shared == Working then 1 else 0)
                     + (if s.mcu.McuHandOver? then 1 else 0) - (if s.cp.CpHandBack? then 1 else 0)
  }

  /** The requests copied in, less the one whose counterpart is still being copied out. */
  ghost predicate Histories<S, T>(s: System<S, T>)
  {
    |s.requests| == |s.responses| + if s.mcu.McuCopyOut? then 1 else 0
  }

  /** The shared data match the algorithm run alone on the requests so far. */
  ghost predicate Data<S, T>(algo: Algo<S, T>, start: Local<S, T>, s: System<S, T>)
  {
    var n := |s.requests|;
    var now := Alone(algo, start, s.requests);
    if s.mcu.McuCopyOut? then
      // loaded, previous result not yet handed out
      n > 0 && var prev := Alone(algo, start, s.requests[..n - 1]);
      && s.state == prev.state && s.bufs == Load(prev.bufs, s.mcu.r) && s.mcu.r == s.requests[n - 1]
      && Response(Take(s.outPcm, s.pcmLen), s.outStatus) == prev.result
    else if s.mcu.McuCount? || s.mcu.McuHandOver? || (s.shared == Working && s.cp.CpOut?) then
      // loaded, not yet run
      n > 0 && var prev := Alone(algo, start, s.requests[..n - 1]);
      s.state == prev.state && s.bufs == Load(prev.bufs, s.requests[n - 1]) && s.pcmLen == |s.requests[n - 1].pcm|
    else
      && s.state == now.state && s.bufs == now.bufs
      && (if s.cp.CpCopy? then Response(Take(s.bufs.pcm, s.pcmLen), s.bufs.status) == now.result
          else Response(Take(s.outPcm, s.pcmLen), s.outStatus) == now.result)
  }

  /** Call `k` has been answered with the result for request `k - 1`. */
  ghost predicate Delayed<S, T>(algo: Algo<S, T>, start: Local<S, T>, s: System<S, T>)
  {
    |s.responses| <= |s.requests|
    && forall k :: 0 <= k < |s.responses| ==> s.responses[k] == Alone(algo, start, s.requests[..k]).result
  }

  ghost predicate Inv<S, T>(algo: Algo<S, T>, start: Local<S, T>, s: System<S, T>)
  {
    Turn(s) && Histories(s) && Data(algo, start, s) && Delayed(algo, start, s)
  }

  lemma TakeTwice(pcm: seq<int>, n: nat)
    ensures Take(Take(pcm, n), n) == Take(pcm, n)
  {
  }

  lemma McuCopyInKeeps<S, T>(algo: Algo<S, T>, start: Local<S, T>, s: System<S, T>)
    requires Inv(algo, start, s) && s.mcu.McuCopyIn?
    ensures Inv(algo, start, Do(algo, s, McuStep))
  {
    var t := Do(algo, s, McuStep);
    assert t.requests[..|s.requests|] == s.requests;
    forall k | 0 <= k < |s.responses| ensures t.requests[..k] == s.requests[..k] { }
  }

  lemma McuCopyOutKeeps<S, T>(algo: Algo<S, T>, start: Local<S, T>, s: System<S, T>)
    requires Inv(algo, start, s) && s.mcu.McuCopyOut?
    ensures Inv(algo, start, Do(algo, s, McuStep))
  {
    var t := Do(algo, s, McuStep);
    assert t.responses[|s.responses|] == Alone(algo, start, s.requests[..|s.responses|]).result;
  }

  lemma McuOtherKeeps<S, T>(algo: Algo<S, T>, start: Local<S, T>, s: System<S, T>)
    requires Inv(algo, start, s) && !s.mcu.McuCopyIn? && !s.mcu.McuCopyOut?
    ensures Inv(algo, start, Do(algo, s, McuStep))
  {
  }

  lemma CpKeeps<S, T>(algo: Algo<S, T>, start: Local<S, T>, s: System<S, T>, a: Step<T>)
    requires Inv(algo, start, s) && (a.CpStart? || a.CpStep?)
    ensures Inv(algo, start, Do(algo, s, a))
  {
    TakeTwice(s.bufs.pcm, s.pcmLen);
  }

  lemma StepKeeps<S, T>(algo: Algo<S, T>, start: Local<S, T>, s: System<S, T>, a: Step<T>)
    requires Inv(algo, start, s)
    ensures Inv(algo, start, Do(algo, s, a))
  {
    match a {
      case Call(r) =>
      case McuStep =>
        if s.mcu.McuCopyIn? { McuCopyInKeeps(algo, start, s); }
        else if s.mcu.McuCopyOut? { McuCopyOutKeeps(algo, start, s); }
        else { McuOtherKeeps(algo, start, s); }
      case _ => CpKeeps(algo, start, s, a);
    }
  }

  lemma {:induction false} DoAllKeeps<S, T>(algo: Algo<S, T>, start: Local<S, T>, s: System<S, T>, steps: seq<Step<T>>)
    requires Inv(algo, start, s)
    ensures Inv(algo, start, DoAll(algo, s, steps))
    decreases |steps|
  {
    if steps != [] {
      StepKeeps(algo, start, s, steps[0]);
      DoAllKeeps(algo, start, Do(algo, s, steps[0]), steps[1..]);
    }
  }

  /** In every interleaving: the main core is in the buffers only while the state is IDLE, the coprocessor only
      while it is WORKING, never both; the counters differ by the frame in flight, if any; and call k returns the
      result of request k - 1, zeros for the first. */
  lemma OneFrameDelay<S, T>(algo: Algo<S, T>, state: S, frameLen: nat, channels: nat, status: T, steps: seq<Step<T>>)
    ensures var start := Initial(state, frameLen, channels, status);
      var s := DoAll(algo, Init(start, frameLen), steps);
      && (McuHolds(s) ==> s.shared == Idle && s.cp.CpOut?)
      && (!s.cp.CpOut? ==> s.shared == Working && !McuHolds(s))
      && s.runs <= s.required <= s.runs + 1
      && (!s.mcu.McuHandOver? && !s.cp.CpHandBack? ==> (s.required == s.runs <==> s.shared == Idle))
      && |s.responses| <= |s.requests|
      && (forall k :: 0 <= k < |s.responses| ==>
            s.responses[k] == if k == 0 then Response(Zeros(frameLen), status)
                              else RunOnce(algo, Alone(algo, start, s.requests[..k - 1]), s.requests[k - 1]).result)
  {
    var start := Initial(state, frameLen, channels, status);
    DoAllKeeps(algo, start, Init(start, frameLen), steps);
    var s := DoAll(algo, Init(start, frameLen), steps);
    forall k | 0 < k < |s.responses|
      ensures s.responses[k] == RunOnce(algo, Alone(algo, start, s.requests[..k - 1]), s.requests[k - 1]).result
    {
      assert s.requests[..k][..k - 1] == s.requests[..k - 1];
    }
  }

  // ---------- what the algorithm gets, and that it gets it ----------

  /** The last frame of a run: the algorithm is applied to that frame's voice, echo reference, feedback and status; a
      null reference or feedback is what the algorithm left there. Its answer is the voice buffer, cut to the length
      it set. */
  lemma AlgorithmSees<S, T>(algo: Algo<S, T>, start: Local<S, T>, requests: seq<Request<T>>)
    requires requests != []
    ensures var n := |requests| - 1;
      var r, prev := requests[n], Alone(algo, start, requests[..n]);
      var echo := if r.echoRef.Some? then r.echoRef.value else prev.bufs.echoRef;
      var feedback := if r.fb.Some? then r.fb.value else prev.bufs.fb;
      var (state, bufs, len) := algo(prev.state, Buffers(r.pcm, echo, feedback, r.status), |r.pcm|);
      var voice := if len <= |bufs.pcm| then bufs.pcm[..len] else bufs.pcm;
      Alone(algo, start, requests) == Local(state, bufs, Response(voice, bufs.status))
  {
  }

  lemma CpCycle<S, T>(algo: Algo<S, T>, s: System<S, T>)
    requires s.shared == Working && s.cp == CpOut && s.events > 0
    ensures var t := Do(algo, Do(algo, Do(algo, Do(algo, s, CpStart), CpStep), CpStep), CpStep);
      && t.shared == Idle && t.cp == CpOut && t.events == s.events - 1 && t.runs == s.runs + 1
      && t.mcu == s.mcu && t.requests == s.requests && t.responses == s.responses && t.required == s.required
  {
  }

  function McuCycle<S, T>(algo: Algo<S, T>, s: System<S, T>, r: Request<T>): System<S, T>
  {
    var s2 := Do(algo, Do(algo, Do(algo, s, Call(r)), McuStep), McuStep);
    Do(algo, Do(algo, Do(algo, Do(algo, s2, McuStep), McuStep), McuStep), McuStep)
  }

  /** A call in IDLE is answered without waiting, hands its frame over, and once the coprocessor has run the state is
      IDLE again: calls can go on for ever. */
  lemma CallCompletes<S, T>(algo: Algo<S, T>, start: Local<S, T>, s: System<S, T>, r: Request<T>)
    requires Inv(algo, start, s) && s.mcu == McuOut && s.shared == Idle
    ensures var t := McuCycle(algo, s, r);
      && t.mcu == McuOut && t.shared == Working && t.requests == s.requests + [r]
      && |t.responses| == |s.responses| + 1 && t.responses[|s.responses|] == Alone(algo, start, s.requests).result
      && t.required == s.required + 1 && t.events == 1 && t.cp == CpOut
    ensures var t := McuCycle(algo, s, r);
      var u := Do(algo, Do(algo, Do(algo, Do(algo, t, CpStart), CpStep), CpStep), CpStep);
      u.mcu == McuOut && u.shared == Idle && u.runs == u.required && u.cp == CpOut
  {
    hide Alone;
    CpCycle(algo, McuCycle(algo, s, r));
  }

  /** While the frame before is still with the coprocessor, a call waits. */
  lemma CallWaits<S, T>(algo: Algo<S, T>, s: System<S, T>)
    requires s.mcu.McuWait? && s.shared == Working
    ensures Do(algo, s, McuStep) == s
  {
  }
}
