/**
 The RPC send path (apps/app_rpc/rpc_bth_dsp.c): any number of threads push messages and signal a
 semaphore; one thread waits for the semaphore and sends.
 */
module RpcTransport {
  import opened Ring
  import opened Framing
  import opened RpcQueue

  const SEMA_MAX: nat := 65535
  const SEND_BUFFER: nat := 512

  /** bth_dsp_tx_thread: asleep on the semaphore; awake with its token; past the emptiness test; with the
      length of the next message; stopped by its assertion. */
  datatype Sender = Asleep | Awake | SawData | GotLength(n: nat) | Halted

  /** `unsignalled` counts the pushes whose semaphore release is still to come. `accepted` and `sent` are history. */
  datatype System = System(
    bytes: seq<byte>, capacity: nat, tokens: nat, unsignalled: nat, sender: Sender,
    accepted: seq<seq<byte>>, sent: seq<seq<byte>>)

  datatype Step = Push(m: seq<byte>) | Signal | Acquire | TestEmpty | ReadLength | PopAndSend

  function Do(s: System, a: Step): System
  {
    match a
    case Push(m) =>
      // rpc_bth_dsp_send_cmd: the semaphore is released whether or not the queue took the message
      if |s.bytes| <= s.capacity && Message(m) then
        var (bytes, ret) := PushBytes(s.bytes, s.capacity, m);
        s.(bytes := bytes, unsignalled := s.unsignalled + 1, accepted := s.accepted + if ret == 0 then [m] else [])
      else s
    case Signal =>
      if s.unsignalled > 0 then
        s.(unsignalled := s.unsignalled - 1, tokens := if s.tokens < SEMA_MAX then s.tokens + 1 else s.tokens)
      else s
    case Acquire =>
      if s.sender == Asleep && s.tokens > 0 then s.(sender := Awake, tokens := s.tokens - 1) else s
    case TestEmpty =>
      if s.sender == Awake then s.(sender := if |s.bytes| > 0 then SawData else Asleep) else s
    case ReadLength =>
      if s.sender == SawData then
        var n := NextLength(s.bytes);
        s.(sender := if n > SEND_BUFFER then Halted else if n > 0 then GotLength(n) else Asleep)
      else s
    case PopAndSend =>
      if s.sender.GotLength? then
        var (bytes, m) := PopBytes(s.bytes, s.sender.n);
        s.(bytes := bytes, sender := Asleep, sent := s.sent + [m])
      else s
  }

  function DoAll(s: System, steps: seq<Step>): System
    decreases |steps|
  {
    if steps == [] then s else DoAll(Do(s, steps[0]), steps[1..])
  }

  function Init(capacity: nat): System
  {
    System([], capacity, 0, 0, Asleep, [], [])
  }

  /** The messages in the queue. */
  function Queued(s: System): seq<seq<byte>>
  {
    if |s.sent| <= |s.accepted| then s.accepted[|s.sent|..] else []
  }

  /** The token the sender has taken and not yet used up. */
  function InHand(s: System): nat
  {
    if s.sender == Asleep || s.sender == Halted then 0 else 1
  }

  ghost predicate Inv(s: System)
  {
    && |s.bytes| <= s.capacity && s.tokens <= SEMA_MAX && s.capacity <= 3 * SEMA_MAX
    && s.sent <= s.accepted && Messages(s.accepted)
    && s.bytes == Framed(Queued(s))
    && (s.sender != Halted ==> |Queued(s)| <= s.tokens + s.unsignalled + InHand(s))
    && (s.sender == SawData || s.sender.GotLength? ==> Queued(s) != [])
    && (s.sender.GotLength? ==> s.sender.n == |Queued(s)[0]| <= SEND_BUFFER)
    && (s.sender == Halted ==> Queued(s) != [] && |Queued(s)[0]| > SEND_BUFFER)
  }

  lemma PushKeeps(s: System, m: seq<byte>)
    requires Inv(s) && Message(m)
    ensures Inv(Do(s, Push(m)))
  {
    PushFramed(Queued(s), s.capacity, m);
    var t := Do(s, Push(m));
    if t.accepted != s.accepted {
      assert Queued(t) == Queued(s) + [m];
    } else {
      assert Queued(t) == Queued(s);
    }
  }

  lemma PopKeeps(s: System)
    requires Inv(s) && s.sender.GotLength?
    ensures Inv(Do(s, PopAndSend))
    ensures Do(s, PopAndSend).sent == s.sent + [s.accepted[|s.sent|]]
  {
    PopFramed(Queued(s));
    var t := Do(s, PopAndSend);
    assert Queued(t) == Queued(s)[1..];
  }

  lemma StepKeeps(s: System, a: Step)
    requires Inv(s)
    ensures Inv(Do(s, a))
  {
    FramedLength(Queued(s));  // three bytes a message: the semaphore cannot overflow while messages wait
    match a
    case Push(m) => if Message(m) { PushKeeps(s, m); }
    case ReadLength => if s.sender == SawData { PopFramed(Queued(s)); assert Queued(s)[0] in s.accepted; }
    case PopAndSend => if s.sender.GotLength? { PopKeeps(s); }
    case _ =>
  }

  lemma {:induction false} DoAllKeeps(s: System, steps: seq<Step>)
    requires Inv(s)
    ensures Inv(DoAll(s, steps))
    decreases |steps|
  {
    if steps != [] {
      StepKeeps(s, steps[0]);
      DoAllKeeps(Do(s, steps[0]), steps[1..]);
    }
  }

  /** In every interleaving: the messages sent are the first of those accepted, in order; the queue holds exactly the
      rest; and the sender never sleeps on a non-empty queue unless a token or a signal is on its way. */
  lemma NoLostWakeup(capacity: nat, steps: seq<Step>)
    requires capacity <= 3 * SEMA_MAX
    ensures var s := DoAll(Init(capacity), steps);
      && s.sent <= s.accepted && s.bytes == Framed(s.accepted[|s.sent|..])
      && (s.sender != Halted ==> |s.accepted| - |s.sent| <= s.tokens + s.unsignalled + InHand(s))
      && (s.sender == Asleep && s.bytes != [] ==> s.tokens > 0 || s.unsignalled > 0)
  {
    DoAllKeeps(Init(capacity), steps);
    var s := DoAll(Init(capacity), steps);
    if s.bytes != [] { assert Queued(s) != []; }
  }

  lemma {:induction false} AcceptedArePushed(s: System, steps: seq<Step>)
    ensures forall m :: m in DoAll(s, steps).accepted ==> m in s.accepted || Push(m) in steps
    decreases |steps|
  {
    if steps != [] {
      var t := Do(s, steps[0]);
      AcceptedArePushed(t, steps[1..]);
      forall m | m in DoAll(s, steps).accepted
        ensures m in s.accepted || Push(m) in steps
      {
        if m !in t.accepted { assert Push(m) in steps[1..]; } else if m !in s.accepted { assert steps[0] == Push(m); }
      }
    }
  }

  lemma QueuedAreAccepted(s: System)
    ensures forall i :: 0 <= i < |Queued(s)| ==> Queued(s)[i] in s.accepted
  {
  }

  /** The sender's assertion never fires if every message, command code included, fits its 512-byte buffer... */
  lemma NeverHalts(capacity: nat, steps: seq<Step>)
    requires capacity <= 3 * SEMA_MAX
    requires forall m :: Push(m) in steps ==> |m| <= SEND_BUFFER
    ensures DoAll(Init(capacity), steps).sender != Halted
  {
    DoAllKeeps(Init(capacity), steps);
    AcceptedArePushed(Init(capacity), steps);
    QueuedAreAccepted(DoAll(Init(capacity), steps));
  }

  /** ...and a single longer one stops it. */
  lemma LongMessageHalts(capacity: nat, m: seq<byte>)
    requires Message(m) && |m| + LEN_BYTES <= capacity <= 3 * SEMA_MAX
    ensures var pushed := Do(Do(Init(capacity), Push(m)), Signal);
      Do(Do(Do(pushed, Acquire), TestEmpty), ReadLength).sender == Halted <==> |m| > SEND_BUFFER
  {
    var s1 := Do(Init(capacity), Push(m));
    PushFramed([], capacity, m);
    assert [] + [m] == [m];
    assert s1.bytes == Framed([m]);
    PopFramed([m]);
    FramedLength([m]);
  }

  const MAX_DATA: nat := 512
  const CODE_BYTES: nat := 2

  /** rpc_bth_dsp_send_cmd lets through up to 512 bytes of data, to which the two bytes of the command code are added:
      commands with 511 or 512 bytes, and no others, stop the sender. */
  lemma CommandHalts(capacity: nat, code: seq<byte>, data: seq<byte>)
    requires |code| == CODE_BYTES && |data| <= MAX_DATA && LEN_BYTES + CODE_BYTES + MAX_DATA <= capacity <= 3 * SEMA_MAX
    ensures var pushed := Do(Do(Init(capacity), Push(code + data)), Signal);
      Do(Do(Do(pushed, Acquire), TestEmpty), ReadLength).sender == Halted <==> |data| in {511, 512}
  {
    LongMessageHalts(capacity, code + data);
  }

  // ---------- progress ----------

  /** A message is accepted exactly when it fits behind its length; its signal is owed either way. */
  lemma PushTakenIff(s: System, m: seq<byte>)
    requires Inv(s) && Message(m)
    ensures var t := Do(s, Push(m));
      && t.accepted == (if |s.bytes| + 2 + |m| <= s.capacity then s.accepted + [m] else s.accepted)
      && t.unsignalled == s.unsignalled + 1 && t.sent == s.sent && t.tokens == s.tokens && t.sender == s.sender
  {
    PushFramed(Queued(s), s.capacity, m);
  }

  /** A token wakes the sender... */
  lemma TokenWakes(s: System)
    requires Inv(s) && s.sender == Asleep && s.tokens > 0
    ensures Do(s, Acquire) == s.(sender := Awake, tokens := s.tokens - 1) && Inv(Do(s, Acquire))
  {
    StepKeeps(s, Acquire);
  }

  /** ...which sees that there is data, reads the length of the oldest message... */
  lemma LengthRead(s: System)
    requires Inv(s) && s.sender == Awake && Queued(s) != [] && |Queued(s)[0]| <= SEND_BUFFER
    ensures var t := Do(Do(s, TestEmpty), ReadLength);
      t == s.(sender := GotLength(|Queued(s)[0]|)) && Inv(t)
  {
    PopFramed(Queued(s));
    FramedLength(Queued(s));
    assert Queued(s)[0] in s.accepted && |s.bytes| > 0 && NextLength(s.bytes) == |Queued(s)[0]|;
    StepKeeps(s, TestEmpty);
    StepKeeps(Do(s, TestEmpty), ReadLength);
  }

  /** ...and sends it: from the wake-up on, the oldest message is sent. */
  lemma SenderSends(s: System)
    requires Inv(s) && s.sender == Asleep && s.tokens > 0 && Queued(s) != [] && |Queued(s)[0]| <= SEND_BUFFER
    ensures var t := DoAll(s, [Acquire, TestEmpty, ReadLength, PopAndSend]);
      && Inv(t) && t.sent == s.sent + [s.accepted[|s.sent|]] && t.accepted == s.accepted
      && t.sender == Asleep && t.tokens == s.tokens - 1 && t.unsignalled == s.unsignalled
  {
    TokenWakes(s);
    var s1 := Do(s, Acquire);
    assert Queued(s1) == Queued(s);
    LengthRead(s1);
    var s3 := Do(Do(s1, TestEmpty), ReadLength);
    PopKeeps(s3);
    FourSteps(s, Acquire, TestEmpty, ReadLength, PopAndSend);
    SendEnds(s3);
  }

  lemma SendEnds(s: System)
    requires s.sender.GotLength?
    ensures var t := Do(s, PopAndSend);
      t.sender == Asleep && t.accepted == s.accepted && t.tokens == s.tokens && t.unsignalled == s.unsignalled
  {
  }

  lemma FourSteps(s: System, a: Step, b: Step, c: Step, d: Step)
    ensures DoAll(s, [a, b, c, d]) == Do(Do(Do(Do(s, a), b), c), d)
  {
    hide Do;
    assert [a, b, c, d][1..] == [b, c, d] && [b, c, d][1..] == [c, d] && [c, d][1..] == [d] && [d][1..] == [];
    var s2 := Do(Do(s, a), b);
    assert DoAll(s, [a, b, c, d]) == DoAll(Do(s, a), [b, c, d]) == DoAll(s2, [c, d]);
    assert DoAll(s2, [c, d]) == DoAll(Do(s2, c), [d]) == DoAll(Do(Do(s2, c), d), []);
  }

  lemma {:induction false} DoAllSplit(s: System, first: seq<Step>, second: seq<Step>)
    ensures DoAll(s, first + second) == DoAll(DoAll(s, first), second)
    decreases |first|
  {
    hide Do;
    if first == [] {
      assert first + second == second;
    } else {
      assert (first + second)[1..] == first[1..] + second;
      DoAllSplit(Do(s, first[0]), first[1..], second);
    }
  }

  /** Nothing is left behind: once every push is signalled, the sender has the tokens to send all that was accepted. */
  lemma {:induction false} AllCanBeSent(s: System) returns (steps: seq<Step>)
    requires Inv(s) && s.sender == Asleep && s.unsignalled == 0
    requires forall m :: m in Queued(s) ==> |m| <= SEND_BUFFER
    ensures DoAll(s, steps).sent == s.accepted && DoAll(s, steps).accepted == s.accepted
    decreases |Queued(s)|
  {
    if Queued(s) == [] {
      steps := [];
      assert s.sent == s.accepted;
    } else {
      assert Queued(s)[0] in Queued(s);
      SenderSends(s);
      var first := [Acquire, TestEmpty, ReadLength, PopAndSend];
      var t := DoAll(s, first);
      assert Queued(t) == Queued(s)[1..];
      var rest := AllCanBeSent(t);
      DoAllSplit(s, first, rest);
      steps := first + rest;
    }
  }

  /** Without a message the sender goes back to sleep. */
  lemma EmptyQueueSleeps(s: System)
    requires s.sender == Awake && s.bytes == []
    ensures Do(s, TestEmpty) == s.(sender := Asleep)
  {
  }
}
