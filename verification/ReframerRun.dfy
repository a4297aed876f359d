/**
 Whole runs of the reframer: the audio thread and the worker thread as interleaved atomic steps.
 The question is how much silence has to be queued in advance so that the output never runs dry.
 */
module ReframerRun {
  import opened NumberTheory
  import opened Reframer

  /** Process frame, I/O frame, pre-cached silence, queue capacity, and how many calls the worker may lag. */
  datatype Config = Config(p: nat, io: nat, delay: nat, capacity: nat, lag: nat)

  predicate Good(c: Config) { c.p > 0 && c.io > 0 }

  /** The worker: waiting for the signal, in its loop, or between taking a frame and queueing the result. */
  datatype Worker = Asleep | Awake | Holding(frame: seq<Sample>)

  /** The audio thread within one bt_sco_chain_reframe_tx_process call. */
  datatype Tx = TxRest | TxWrote | TxPlayed

  /** `spoken` and `played` are history: the voice channel written so far and the samples handed out;
      `calls` counts the output reads, `put` the process frames delivered to the output queue.
      `fault`: some queue overflowed or underflowed or a process frame was dropped.
      `late`: some read found the worker further behind than `lag` calls. */
  datatype System = System(
    input: seq<Sample>, output: seq<int>, worker: Worker, tx: Tx, signal: bool,
    spoken: seq<int>, played: seq<int>, calls: nat, put: nat, fault: bool, late: bool)

  datatype Step = TxWrite(frame: seq<Sample>) | TxPlay | TxSignal | WorkWake | WorkTake | WorkPut

  /** The process frames the worker must have delivered before the read of call `n`. */
  function Due(c: Config, n: nat): nat
    requires Good(c)
  {
    if n < c.lag then 0 else (n - c.lag) * c.io / c.p
  }

  function Do(c: Config, s: System, a: Step): System
    requires Good(c)
  {
    match a
    case TxWrite(frame) =>
      if s.tx != TxRest || |frame| != c.io then s
      else if |s.input| + c.io > c.capacity then s.(tx := TxWrote, fault := true)
      else s.(input := s.input + frame, spoken := s.spoken + Voice(frame), tx := TxWrote)
    case TxPlay =>
      if s.tx != TxWrote then s
      else
        var t := s.(tx := TxPlayed, calls := s.calls + 1, late := s.late || s.put < Due(c, s.calls));
        if |s.output| < c.io then t.(played := s.played + Zeros(c.io), fault := true)
        else t.(played := s.played + s.output[..c.io], output := s.output[c.io..])
    case TxSignal =>
      if s.tx != TxPlayed then s else s.(tx := TxRest, signal := true)
    case WorkWake =>
      if s.worker == Asleep && s.signal then s.(worker := Awake, signal := false) else s
    case WorkTake =>
      if s.worker != Awake then s
      else if |s.input| < c.p then s.(worker := Asleep)
      else s.(worker := Holding(s.input[..c.p]), input := s.input[c.p..])
    case WorkPut =>
      if !s.worker.Holding? then s
      else if |s.output| + c.p > c.capacity then s.(worker := Asleep, fault := true)
      else s.(worker := Awake, output := s.output + Voice(s.worker.frame), put := s.put + 1)
  }

  function Run(c: Config, s: System, steps: seq<Step>): System
    requires Good(c)
    decreases |steps|
  {
    if steps == [] then s else Run(c, Do(c, s, steps[0]), steps[1..])
  }

  /** bt_sco_chain_reframe_open: the output queue starts with the pre-cached silence. */
  function Init(c: Config): System
  {
    System([], Zeros(c.delay), Asleep, TxRest, false, [], [], 0, 0, false, false)
  }

  /** The bound: what a process frame can hold back, plus the I/O frames that pass meanwhile. */
  predicate Enough(c: Config)
    requires Good(c)
  {
    c.delay >= c.p - Gcd(c.p, c.io) + (c.lag + 1) * c.io
  }

  function Held(s: System): seq<Sample>
  {
    if s.worker.Holding? then s.worker.frame else []
  }

  /** Nothing is lost: what was spoken is in the output, in the worker's hands or in the input queue. */
  ghost predicate Conserved(c: Config, s: System)
    requires Good(c)
  {
    && (s.worker.Holding? ==> |s.worker.frame| == c.p)
    && Zeros(c.delay) + s.spoken == s.played + s.output + Voice(Held(s)) + Voice(s.input)
    && |s.played| == c.io * s.calls
    && |s.spoken| == c.io * (s.calls + if s.tx == TxWrote then 1 else 0)
    && |s.played| + |s.output| == c.delay + c.p * s.put
  }

  lemma VoiceAdd(a: seq<Sample>, b: seq<Sample>)
    ensures Voice(a + b) == Voice(a) + Voice(b)
  {
  }

  lemma TxWriteConserves(c: Config, s: System, frame: seq<Sample>)
    requires Good(c) && Conserved(c, s) && !Do(c, s, TxWrite(frame)).fault
    ensures Conserved(c, Do(c, s, TxWrite(frame)))
  {
    if s.tx == TxRest && |frame| == c.io {
      VoiceAdd(s.input, frame);
      Distribute(c.io, s.calls, 1);
      var front := s.played + s.output + Voice(Held(s));
      assert Zeros(c.delay) + (s.spoken + Voice(frame)) == Zeros(c.delay) + s.spoken + Voice(frame);
      assert front + Voice(s.input) + Voice(frame) == front + (Voice(s.input) + Voice(frame));
    }
  }

  lemma TxPlayConserves(c: Config, s: System)
    requires Good(c) && Conserved(c, s) && !Do(c, s, TxPlay).fault
    ensures Conserved(c, Do(c, s, TxPlay))
  {
    if s.tx == TxWrote {
      Distribute(c.io, s.calls, 1);
      assert s.played + s.output == s.played + s.output[..c.io] + s.output[c.io..];
    }
  }

  lemma WorkTakeConserves(c: Config, s: System)
    requires Good(c) && Conserved(c, s)
    ensures Conserved(c, Do(c, s, WorkTake))
  {
    if s.worker == Awake && |s.input| >= c.p {
      VoiceAdd(s.input[..c.p], s.input[c.p..]);
      assert s.input == s.input[..c.p] + s.input[c.p..];
      var front := s.played + s.output;
      assert front + [] + (Voice(s.input[..c.p]) + Voice(s.input[c.p..]))
          == front + Voice(s.input[..c.p]) + Voice(s.input[c.p..]);
      assert Voice([]) == [];
    }
  }

  lemma WorkPutConserves(c: Config, s: System)
    requires Good(c) && Conserved(c, s) && !Do(c, s, WorkPut).fault
    ensures Conserved(c, Do(c, s, WorkPut))
  {
    if s.worker.Holding? {
      Distribute(c.p, s.put, 1);
      assert Voice([]) == [];
      var v := Voice(s.worker.frame);
      assert s.played + s.output + v + Voice(s.input) == s.played + (s.output + v) + [] + Voice(s.input);
    }
  }

  lemma StepConserves(c: Config, s: System, a: Step)
    requires Good(c) && Conserved(c, s) && !Do(c, s, a).fault
    ensures Conserved(c, Do(c, s, a))
  {
    match a
    case TxWrite(frame) => TxWriteConserves(c, s, frame);
    case TxPlay => TxPlayConserves(c, s);
    case WorkTake => WorkTakeConserves(c, s);
    case WorkPut => WorkPutConserves(c, s);
    case _ =>
  }

  /** What the worker has delivered was due before the last read, and never more than was spoken. */
  ghost predicate OnTime(c: Config, s: System)
    requires Good(c)
  {
    s.calls > 0 ==> s.put >= Due(c, s.calls - 1)
  }

  /** The due frames cover the stream up to less than one process frame. */
  lemma DueCovers(c: Config, n: nat)
    requires Good(c)
    ensures n * c.io <= c.p * Due(c, n) + c.lag * c.io + c.p - Gcd(c.p, c.io)
  {
    if n < c.lag {
      Distribute(c.io, c.lag, n);
      Sign(c.lag - n, c.io);
      RemainderBound(c.p, c.io, 0);
    } else {
      var m := n - c.lag;
      RemainderBound(c.p, c.io, m);
      Distribute(c.io, n, c.lag);
      assert m * c.io == c.p * (m * c.io / c.p) + m * c.io % c.p;
    }
  }

  lemma DueMonotone(c: Config, a: nat, put: nat)
    requires Good(c) && put >= Due(c, a)
    ensures c.p * put >= c.p * Due(c, a)
  {
    Distribute(c.p, put, Due(c, a));
    if put > Due(c, a) { Sign(put - Due(c, a), c.p); }
  }

  /** A read by a worker that is not late finds a whole I/O frame. */
  lemma NoUnderflow(c: Config, s: System)
    requires Good(c) && Enough(c) && Conserved(c, s) && s.tx == TxWrote && s.put >= Due(c, s.calls)
    ensures |s.output| >= c.io
  {
    DueCovers(c, s.calls);
    DueMonotone(c, s.calls, s.put);
    Distribute(c.io, c.lag, 1);
  }

  /** A write finds room: the input queue holds at most what the worker may be behind. */
  lemma NoInputOverflow(c: Config, s: System)
    requires Good(c) && Enough(c) && c.delay + c.io <= c.capacity
    requires Conserved(c, s) && s.tx == TxRest && OnTime(c, s)
    ensures |s.input| + c.io <= c.capacity
  {
    Distribute(c.io, c.lag, 1);
    RemainderBound(c.p, c.io, 0);
    if s.calls > 0 {
      DueCovers(c, s.calls - 1);
      DueMonotone(c, s.calls - 1, s.put);
      Distribute(c.io, s.calls, 1);
    }
  }

  /** A processed frame finds room: the output queue never holds more than the delay and one I/O frame. */
  lemma NoOutputOverflow(c: Config, s: System)
    requires Good(c) && c.delay + c.io <= c.capacity && Conserved(c, s) && s.worker.Holding?
    ensures |s.output| + c.p <= c.capacity
  {
    Distribute(c.io, s.calls, 1);
  }

  ghost predicate Inv(c: Config, s: System)
    requires Good(c)
  {
    !s.late ==> !s.fault && Conserved(c, s) && (s.calls > 0 ==> OnTime(c, s))
  }

  lemma StepKeeps(c: Config, s: System, a: Step)
    requires Good(c) && Enough(c) && c.delay + c.io <= c.capacity && Inv(c, s)
    ensures Inv(c, Do(c, s, a))
  {
    var t := Do(c, s, a);
    if !t.late {
      if a.TxPlay? && s.tx == TxWrote { NoUnderflow(c, s); }
      if a.TxWrite? && s.tx == TxRest { NoInputOverflow(c, s); }
      if a.WorkPut? && s.worker.Holding? { NoOutputOverflow(c, s); }
      StepConserves(c, s, a);
    }
  }

  lemma {:induction false} RunKeeps(c: Config, s: System, steps: seq<Step>)
    requires Good(c) && Enough(c) && c.delay + c.io <= c.capacity && Inv(c, s)
    ensures Inv(c, Run(c, s, steps))
    decreases |steps|
  {
    if steps != [] {
      StepKeeps(c, s, steps[0]);
      RunKeeps(c, Do(c, s, steps[0]), steps[1..]);
    }
  }

  lemma InitHolds(c: Config)
    requires Good(c)
    ensures Conserved(c, Init(c))
  {
    assert Voice([]) == [];
  }

  /** With enough silence queued, in every interleaving in which the worker is never later than `lag` calls:
      nothing overflows, underflows or is dropped, and the output is the voice channel delayed by exactly
      `delay` samples. */
  lemma ExactDelay(c: Config, steps: seq<Step>)
    requires Good(c) && Enough(c) && c.delay + c.io <= c.capacity
    ensures var s := Run(c, Init(c), steps);
      !s.late ==>
        && !s.fault
        && |s.played| == c.io * s.calls <= c.delay + |s.spoken|
        && s.played == (Zeros(c.delay) + s.spoken)[..|s.played|]
  {
    InitHolds(c);
    RunKeeps(c, Init(c), steps);
    var s := Run(c, Init(c), steps);
    if !s.late {
      assert Zeros(c.delay) + s.spoken == s.played + (s.output + Voice(Held(s)) + Voice(s.input));
    }
  }

  /** A frame is written when the audio thread is between calls and there is room for it. */
  function Taken(c: Config, s: System, a: Step): seq<Sample>
  {
    if a.TxWrite? && s.tx == TxRest && |a.frame| == c.io && |s.input| + c.io <= c.capacity then a.frame else []
  }

  /** The samples of all frames written in a run, in order. */
  function Written(c: Config, s: System, steps: seq<Step>): seq<Sample>
    requires Good(c)
    decreases |steps|
  {
    if steps == [] then []
    else Taken(c, s, steps[0]) + Written(c, Do(c, s, steps[0]), steps[1..])
  }

  lemma SpokenStep(c: Config, s: System, a: Step)
    requires Good(c)
    ensures Do(c, s, a).spoken == s.spoken + Voice(Taken(c, s, a))
  {
  }

  lemma {:induction false} SpokenIsWritten(c: Config, s: System, steps: seq<Step>)
    requires Good(c)
    ensures Run(c, s, steps).spoken == s.spoken + Voice(Written(c, s, steps))
    decreases |steps|
  {
    hide Do, Taken, Voice;
    VoiceOfNone();
    if steps == [] {
      assert s.spoken + [] == s.spoken;
    } else {
      var frame := Taken(c, s, steps[0]);
      SpokenStep(c, s, steps[0]);
      SpokenIsWritten(c, Do(c, s, steps[0]), steps[1..]);
      VoiceAdd(frame, Written(c, Do(c, s, steps[0]), steps[1..]));
    }
  }

  lemma VoiceOfNone()
    ensures Voice([]) == []
  {
  }

  /** Sample by sample: what is played is silence, `delay` samples of it, and then the voice channel of the frames
      written. */
  lemma PlaysTheVoiceChannel(c: Config, steps: seq<Step>)
    requires Good(c) && Enough(c) && c.delay + c.io <= c.capacity
    ensures var s, frames := Run(c, Init(c), steps), Written(c, Init(c), steps);
      !s.late ==>
        && c.io * s.calls == |s.played| <= c.delay + |frames|
        && forall i :: 0 <= i < |s.played| ==> s.played[i] == if i < c.delay then 0 else frames[i - c.delay].vp
  {
    hide Run, Written, Enough, Voice, Zeros, Gcd;
    ExactDelay(c, steps);
    SpokenIsWritten(c, Init(c), steps);
    var s, frames := Run(c, Init(c), steps), Written(c, Init(c), steps);
    assert s.spoken == [] + Voice(frames) == Voice(frames);
    if !s.late {
      DelayedVoice(c.delay, frames, s.played);
    }
  }

  lemma DelayedVoice(delay: nat, frames: seq<Sample>, played: seq<int>)
    requires |played| <= delay + |frames| && played == (Zeros(delay) + Voice(frames))[..|played|]
    ensures forall i :: 0 <= i < |played| ==> played[i] == if i < delay then 0 else frames[i - delay].vp
  {
    var all := Zeros(delay) + Voice(frames);
    forall i | 0 <= i < |played| ensures played[i] == if i < delay then 0 else frames[i - delay].vp {
      assert played[i] == all[..|played|][i] == all[i];
    }
  }

  // ---------- the steps are those of the code ----------

  /** The three steps of a call do to the queues what bt_sco_chain_reframe_tx_process does, and signal the worker. */
  lemma CallIsSteps(c: Config, s: System, frame: seq<Sample>)
    requires Good(c) && s.tx == TxRest && |frame| == c.io
    ensures var t := Do(c, Do(c, Do(c, s, TxWrite(frame)), TxPlay), TxSignal);
      var (input, output, out) := Call(s.input, s.output, frame, c.capacity);
      && t.input == input && t.output == output && t.played == s.played + out
      && t.signal && t.tx == TxRest && t.worker == s.worker && t.calls == s.calls + 1
  {
  }

  /** A pass of the worker is a run of its steps, to the next sleep: it does to the queues what the loop of
      _reframe_thread does. */
  lemma {:induction false} PassIsSteps(c: Config, s: System) returns (steps: seq<Step>)
    requires Good(c) && s.worker == Awake
    ensures forall i :: 0 <= i < |steps| ==> steps[i].WorkTake? || steps[i].WorkPut?
    ensures var t := Run(c, s, steps);
      && (t.input, t.output) == Pass(s.input, s.output, c.p, c.capacity)
      && t.worker == Asleep && t.signal == s.signal && t.tx == s.tx && t.played == s.played && t.spoken == s.spoken
    decreases |s.input|
  {
    var t := Do(c, s, WorkTake);
    if |s.input| < c.p {
      steps := [WorkTake];
      Run1(c, s, WorkTake);
    } else {
      var u := Do(c, t, WorkPut);
      Run2(c, s, WorkTake, WorkPut);
      steps := [WorkTake, WorkPut];
      if |s.output| + c.p <= c.capacity {
        var rest := PassIsSteps(c, u);
        RunSplit(c, s, steps, rest);
        steps := steps + rest;
      }
    }
  }

  /** So is a wake-up with the pass that follows. */
  lemma WakeIsSteps(c: Config, s: System) returns (steps: seq<Step>)
    requires Good(c) && s.worker == Asleep && s.signal
    ensures var t := Run(c, s, [WorkWake] + steps);
      && (t.input, t.output) == Pass(s.input, s.output, c.p, c.capacity)
      && t.worker == Asleep && !t.signal && t.tx == s.tx && t.played == s.played && t.spoken == s.spoken
  {
    steps := PassIsSteps(c, Do(c, s, WorkWake));
    assert ([WorkWake] + steps)[1..] == steps;
  }

  // ---------- the bound is tight ----------

  lemma {:induction false} RunSplit(c: Config, s: System, a: seq<Step>, b: seq<Step>)
    requires Good(c)
    ensures Run(c, s, a + b) == Run(c, Run(c, s, a), b)
    decreases |a|
  {
    if a == [] {
      assert a + b == b;
    } else {
      assert (a + b)[1..] == a[1..] + b;
      RunSplit(c, Do(c, s, a[0]), a[1..], b);
    }
  }

  lemma Run1(c: Config, s: System, a: Step)
    requires Good(c)
    ensures Run(c, s, [a]) == Do(c, s, a)
  {
    assert [a][1..] == [];
  }

  lemma Run2(c: Config, s: System, a: Step, b: Step)
    requires Good(c)
    ensures Run(c, s, [a, b]) == Do(c, Do(c, s, a), b)
  {
    assert [a, b][1..] == [b];
    Run1(c, Do(c, s, a), b);
  }

  /** A fault stays. */
  lemma {:induction false} FaultStays(c: Config, s: System, steps: seq<Step>)
    requires Good(c) && s.fault
    ensures Run(c, s, steps).fault
    decreases |steps|
  {
    if steps != [] { FaultStays(c, Do(c, s, steps[0]), steps[1..]); }
  }

  /** The worker moves `k` process frames and stays in its loop, unless the output queue overflows. */
  lemma {:induction false} WorkerMoves(c: Config, s: System, k: nat) returns (steps: seq<Step>)
    requires Good(c) && Conserved(c, s) && !s.fault && s.worker == Awake && c.p * k <= |s.input|
    ensures var t := Run(c, s, steps);
      && t.late == s.late
      && (t.fault || (Conserved(c, t) && t == s.(input := t.input, output := t.output, put := s.put + k)))
    decreases k
  {
    steps := [];
    if k > 0 {
      Distribute(c.p, k, 1);
      Sign(k, c.p);
      WorkTakeConserves(c, s);
      var t := Do(c, s, WorkTake);
      var u := Do(c, t, WorkPut);
      Run2(c, s, WorkTake, WorkPut);
      steps := [WorkTake, WorkPut];
      if !u.fault {
        WorkPutConserves(c, t);
        var rest := WorkerMoves(c, u, k - 1);
        RunSplit(c, s, steps, rest);
        steps := steps + rest;
      }
    }
  }

  /** After `n` calls the worker has delivered what was due before the last read, and nothing more. */
  ghost predicate Lazy(c: Config, s: System, n: nat)
    requires Good(c)
  {
    && Conserved(c, s) && s.tx == TxRest && s.calls == n
    && s.put == (if n == 0 then 0 else Due(c, n - 1))
    && (s.worker == Awake || (s.worker == Asleep && (s.signal || n == 0)))
  }

  /** Whole process frames: the multiples of `p` up to `x`, and how they grow. */
  lemma Whole(x: nat, p: nat)
    requires p > 0
    ensures p * (x / p) <= x < p * (x / p) + p
  {
  }

  lemma QuotientGrows(x: nat, y: nat, p: nat)
    requires p > 0 && x <= y
    ensures x / p <= y / p
  {
    Whole(x, p);
    Whole(y, p);
    var d := y / p - x / p;
    Distribute(p, y / p, x / p);
    Sign(d, p);
  }

  lemma DueStep(c: Config, n: nat)
    requires Good(c)
    ensures (if n == 0 then 0 else Due(c, n - 1)) <= Due(c, n)
    ensures c.p * Due(c, n) <= n * c.io
    ensures Due(c, 0) == 0
  {
    if n >= c.lag {
      var m := n - c.lag;
      Distribute(c.io, n, c.lag);
      Whole(m * c.io, c.p);
      if m > 0 {
        Distribute(c.io, m, 1);
        QuotientGrows((m - 1) * c.io, m * c.io, c.p);
      }
    }
  }

  /** The write and the wake-up that start a call. */
  lemma LazyStart(c: Config, s: System, n: nat, frame: seq<Sample>)
    requires Good(c) && Lazy(c, s, n) && !s.fault && !s.late && |frame| == c.io
    ensures var t := Do(c, Do(c, s, TxWrite(frame)), WorkWake);
      && !t.late
      && (!t.fault ==>
            && Conserved(c, t) && t.tx == TxWrote && t.calls == n && t.put == s.put <= Due(c, n)
            && (n > 0 ==> t.worker == Awake) && !t.worker.Holding?
            && c.p * (Due(c, n) - t.put) <= |t.input|)
  {
    DueStep(c, n);
    var s1 := Do(c, s, TxWrite(frame));
    if !s1.fault {
      TxWriteConserves(c, s, frame);
      StepConserves(c, s1, WorkWake);
      Distribute(c.p, Due(c, n), s.put);
      Distribute(c.io, n, 1);
    }
  }

  /** The read and the signal that end it. */
  lemma LazyEnd(c: Config, s: System, n: nat)
    requires Good(c) && Conserved(c, s) && !s.fault && !s.late
    requires s.tx == TxWrote && s.calls == n && s.put == Due(c, n) && !s.worker.Holding?
    ensures var t := Do(c, Do(c, s, TxPlay), TxSignal); !t.late && (t.fault || Lazy(c, t, n + 1))
  {
    var s1 := Do(c, s, TxPlay);
    if !s1.fault {
      TxPlayConserves(c, s);
      StepConserves(c, s1, TxSignal);
    }
  }

  /** One call of such a run. */
  lemma LazyCall(c: Config, s: System, n: nat) returns (steps: seq<Step>)
    requires Good(c) && Lazy(c, s, n) && !s.fault && !s.late
    ensures var t := Run(c, s, steps); !t.late && (t.fault || Lazy(c, t, n + 1))
  {
    var frame := seq(c.io, _ => SILENCE);
    LazyStart(c, s, n, frame);
    var start := [TxWrite(frame), WorkWake];
    Run2(c, s, TxWrite(frame), WorkWake);
    var s2 := Run(c, s, start);
    if s2.fault { return start; }
    DueStep(c, n);
    var moves := [];
    if Due(c, n) > s2.put {
      moves := WorkerMoves(c, s2, Due(c, n) - s2.put);
    }
    RunSplit(c, s, start, moves);
    var s3 := Run(c, s2, moves);
    if s3.fault { return start + moves; }
    LazyEnd(c, s3, n);
    Run2(c, s3, TxPlay, TxSignal);
    RunSplit(c, s, start + moves, [TxPlay, TxSignal]);
    steps := start + moves + [TxPlay, TxSignal];
  }

  lemma {:induction false} LazyRun(c: Config, n: nat) returns (steps: seq<Step>)
    requires Good(c)
    ensures var t := Run(c, Init(c), steps); !t.late && (t.fault || Lazy(c, t, n))
    decreases n
  {
    if n == 0 {
      InitHolds(c);
      return [];
    }
    steps := LazyRun(c, n - 1);
    var t := Run(c, Init(c), steps);
    if !t.fault {
      var more := LazyCall(c, t, n - 1);
      RunSplit(c, Init(c), steps, more);
      steps := steps + more;
    }
  }

  /** With less silence some run, in which the worker is never later than `lag` calls, fails. */
  lemma TooLittleFails(c: Config) returns (steps: seq<Step>)
    requires Good(c) && !Enough(c)
    ensures var t := Run(c, Init(c), steps); !t.late && t.fault
  {
    var m := RemainderReached(c.p, c.io);
    var n := m + c.lag;
    steps := LazyRun(c, n + 1);
    var t := Run(c, Init(c), steps);
    if !t.fault {
      assert t.put == m * c.io / c.p;
      assert m * c.io == c.p * t.put + m * c.io % c.p;
      Distribute(c.io, m, c.lag);
      Distribute(c.io, n, 1);
      Distribute(c.io, c.lag, 1);
      assert false;
    }
  }

  /** Never running dry, for exactly the delays above the bound. */
  lemma EnoughIsExact(c: Config)
    requires Good(c) && c.delay + c.io <= c.capacity
    ensures Enough(c) <==> forall steps :: var s := Run(c, Init(c), steps); !s.late ==> !s.fault
  {
    if Enough(c) {
      forall steps ensures var s := Run(c, Init(c), steps); !s.late ==> !s.fault {
        ExactDelay(c, steps);
      }
    } else {
      var steps := TooLittleFails(c);
    }
  }

  /** The code's constants: 320-sample process frames and 640 samples of silence in queues of 1280. With
      240-sample I/O frames the worker may not lag at all, with 120-sample ones it may lag two calls, and one
      more I/O frame of silence allows one call of lag with 240. */
  lemma CodeConstants(lag: nat)
    ensures Enough(Config(320, 240, 640, 1280, lag)) <==> lag == 0
    ensures Enough(Config(320, 120, 640, 1280, lag)) <==> lag <= 2
    ensures Enough(Config(320, 240, 640 + 240, 1280, lag)) <==> lag <= 1
  {
    assert Gcd(320, 240) == Gcd(240, 80) == Gcd(80, 0) == 80;
    assert Gcd(320, 120) == Gcd(120, 80) == Gcd(80, 40) == Gcd(40, 0) == 40;
  }
}
