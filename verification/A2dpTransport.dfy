/**
 The whole encoded-data path of the two-core A2DP decoder: framed packets go into the byte path of
 SpscRing on the BT side, and the coprocessor's loads parse them out of the stale view they have.
 The parsers are the ones that InCache.CpLoadAac and InCache.CpLoadLhdc are proved against.
 */
module A2dpTransport {
  import opened Ring
  import opened Framing
  import opened A2dpCache
  import opened SpscRing

  datatype Codec = Aac | Lhdc

  function Bytes(c: Codec, frame: seq<byte>): seq<byte>
  {
    if c == Aac then AacBytes(frame) else LhdcBytes(frame)
  }

  function Parse(c: Codec, avail: seq<byte>): (r: Load)
    ensures r.Loaded? ==> r.used <= |avail|
  {
    if c == Aac then ParseAac(avail) else ParseLhdc(avail)
  }

  /** The frames the coprocessor can take: below 2048 bytes for AAC, at most 4088 for LHDC. */
  predicate Acceptable(c: Codec, frame: seq<byte>)
  {
    if c == Aac then |frame| < AAC_LIMIT else |frame| <= LHDC_READBUF_SIZE - LHDC_HEADER_SIZE
  }

  /** The longest acceptable frame with its header. */
  function MaxBytes(c: Codec): (n: nat)
    ensures forall f :: Acceptable(c, f) ==> |Bytes(c, f)| <= n
  {
    if c == Aac then 2 + 2047 else LHDC_READBUF_SIZE
  }

  function AllBytes(c: Codec, frames: seq<seq<byte>>): seq<byte>
  {
    if frames == [] then [] else Bytes(c, frames[0]) + AllBytes(c, frames[1..])
  }

  lemma {:induction false} AllBytesSplit(c: Codec, frames: seq<seq<byte>>, k: nat)
    requires k <= |frames|
    ensures AllBytes(c, frames) == AllBytes(c, frames[..k]) + AllBytes(c, frames[k..])
  {
    hide Bytes;
    if k == 0 {
      assert frames[0..] == frames;
    } else {
      AllBytesSplit(c, frames[1..], k - 1);
      assert frames[1..][..k - 1] == frames[..k][1..];
      assert frames[1..][k - 1..] == frames[k..];
    }
  }

  lemma AllBytesAppend(c: Codec, frames: seq<seq<byte>>, frame: seq<byte>)
    ensures AllBytes(c, frames + [frame]) == AllBytes(c, frames) + Bytes(c, frame)
  {
    hide Bytes;
    var all := frames + [frame];
    AllBytesSplit(c, all, |frames|);
    assert all[..|frames|] == frames && all[|frames|..] == [frame];
    assert [frame][1..] == [];
  }

  /** A parser that sees a prefix of a framed stream returns its first frame, whole, or waits. */
  lemma ParseView(c: Codec, frame: seq<byte>, rest: seq<byte>, n: nat)
    requires Acceptable(c, frame) && n <= |Bytes(c, frame)| + |rest|
    ensures var r := Parse(c, (Bytes(c, frame) + rest)[..n]);
      if n < |Bytes(c, frame)| then r.TooShort? || r.Incomplete? else r == Loaded(frame, |Bytes(c, frame)|)
  {
    var b := Bytes(c, frame);
    var view := (b + rest)[..n];
    if n < |b| {
      assert view == b[..n];
      if c == Aac { AacPartial(frame, n); } else { LhdcPartial(frame, n); }
    } else {
      var more := rest[..n - |b|];
      assert view == b + more;
      if c == Aac {
        AacRoundTrip(frame, more);
      } else {
        assert [] + LhdcBytes(frame) + more == view;
        LhdcRoundTrip([], frame, more);
      }
    }
  }

  // ---------- the system ----------

  /** `accepted` and `delivered` are history: the frames queued and the frames loaded so far.
      `bad` records that a load took the bad-header branch. */
  datatype System = System(path: Path, accepted: seq<seq<byte>>, delivered: seq<seq<byte>>, bad: bool)

  datatype Action = Offer(frame: seq<byte>) | Transport(move: Move) | Load

  /** The moves of the MCU, and the start of a load. */
  predicate Internal(m: Move)
  {
    !m.Push? && !m.CpRelease?
  }

  function Act(c: Codec, s: System, a: Action): (t: System)
    requires Sound(s.path)
    ensures Sound(t.path)
  {
    match a
    case Offer(frame) =>
      // store_sbc_buffer: a frame is queued whole or not at all; nothing is queued for an empty LHDC packet
      if c == Lhdc && frame == [] then s
      else if |s.path.queue| + |Bytes(c, frame)| <= s.path.capacity then
        s.(path := Step(s.path, Push(Bytes(c, frame))), accepted := s.accepted + [frame])
      else s
    case Transport(move) =>
      if Internal(move) then s.(path := Step(s.path, move)) else s
    case Load =>
      if s.path.cp.CpSnap? then
        match Parse(c, View(s.path))
        case Loaded(frame, used) =>
          s.(path := Step(s.path, CpRelease(used)), delivered := s.delivered + [frame])
        case BadHeader => s.(path := Step(s.path, CpRelease(0)), bad := true)
        case _ => s.(path := Step(s.path, CpRelease(0)))
      else s
  }

  function ActAll(c: Codec, s: System, acts: seq<Action>): (t: System)
    requires Sound(s.path)
    ensures Sound(t.path)
    decreases |acts|
  {
    if acts == [] then s else ActAll(c, Act(c, s, acts[0]), acts[1..])
  }

  // ---------- what is accepted ----------

  /** store_sbc_buffer queues nothing for an empty LHDC packet. */
  predicate Ignored(c: Codec, frame: seq<byte>) { c == Lhdc && frame == [] }

  /** The room a frame takes in the queue. */
  function Cost(c: Codec, frame: seq<byte>): nat
  {
    if Ignored(c, frame) then 0 else |frame| + if c == Aac then 2 else 8
  }

  /** A frame is queued, whole and behind all others, exactly when there is room for it with its header; otherwise
      nothing changes. */
  lemma OfferTakenIff(c: Codec, s: System, frame: seq<byte>)
    requires Sound(s.path)
    ensures var t := Act(c, s, Offer(frame));
      if !Ignored(c, frame) && |s.path.queue| + Cost(c, frame) <= s.path.capacity
      then
        && t.accepted == s.accepted + [frame] && t.path.queue == s.path.queue + Bytes(c, frame)
        && t == s.(path := s.path.(queue := t.path.queue, sent := t.path.sent), accepted := t.accepted)
      else t == s
  {
  }

  /** The frames a run offers, but those that are ignored, in order. */
  function Offers(c: Codec, acts: seq<Action>): seq<seq<byte>>
  {
    if acts == [] then []
    else (if acts[0].Offer? && !Ignored(c, acts[0].frame) then [acts[0].frame] else []) + Offers(c, acts[1..])
  }

  function TotalCost(c: Codec, acts: seq<Action>): nat
  {
    if acts == [] then 0
    else (if acts[0].Offer? then Cost(c, acts[0].frame) else 0) + TotalCost(c, acts[1..])
  }

  /** Nothing but an offer makes the queue longer, or is accepted. */
  lemma OthersFreeRoom(c: Codec, s: System, a: Action)
    requires Sound(s.path) && !a.Offer?
    ensures var t := Act(c, s, a);
      |t.path.queue| <= |s.path.queue| && t.path.capacity == s.path.capacity && t.accepted == s.accepted
  {
  }

  lemma {:induction false} FittingFrom(c: Codec, s: System, acts: seq<Action>)
    requires Sound(s.path) && |s.path.queue| + TotalCost(c, acts) <= s.path.capacity
    ensures ActAll(c, s, acts).accepted == s.accepted + Offers(c, acts)
    decreases |acts|
  {
    hide Step, Bytes, Parse;
    if acts != [] {
      var a, t := acts[0], Act(c, s, acts[0]);
      if a.Offer? {
        OfferTakenIff(c, s, a.frame);
        BytesCost(c, a.frame);
      } else {
        OthersFreeRoom(c, s, a);
      }
      FittingFrom(c, t, acts[1..]);
    } else {
      assert s.accepted + Offers(c, acts) == s.accepted;
    }
  }

  lemma BytesCost(c: Codec, frame: seq<byte>)
    ensures !Ignored(c, frame) ==> |Bytes(c, frame)| == Cost(c, frame)
  {
  }

  /** In every run whose frames fit the queue all together, even if none is ever taken out, every frame is accepted. */
  lemma FittingAreAccepted(c: Codec, capacity: nat, cache: seq<byte>, acts: seq<Action>)
    requires cache != [] && TotalCost(c, acts) <= capacity
    ensures ActAll(c, Start(capacity, cache), acts).accepted == Offers(c, acts)
  {
    FittingFrom(c, Start(capacity, cache), acts);
    assert [] + Offers(c, acts) == Offers(c, acts);
  }

  ghost predicate Inv2(c: Codec, s: System)
  {
    && Inv(s.path) && !s.bad
    && s.path.sent == AllBytes(c, s.accepted)
    && s.path.taken == AllBytes(c, s.delivered)
    && s.delivered <= s.accepted
    && forall f :: f in s.accepted ==> Acceptable(c, f)
  }

  /** What is still on its way is exactly the frames not yet delivered. */
  lemma OnItsWay(c: Codec, s: System)
    requires Inv2(c, s)
    ensures Between(s.path.cache, s.path.rpos, s.path.wpos) + Waiting(s.path)
        == AllBytes(c, s.accepted[|s.delivered|..])
  {
    hide Bytes, Acceptable, AllBytes, Between, Waiting, Stale, Copied;
    AllBytesSplit(c, s.accepted, |s.delivered|);
    assert s.accepted[..|s.delivered|] == s.delivered;
    var inCache := Between(s.path.cache, s.path.rpos, s.path.wpos);
    assert s.path.sent == s.path.taken + (inCache + Waiting(s.path));
    assert s.path.sent[|s.path.taken|..] == inCache + Waiting(s.path);
    assert s.path.sent[|s.path.taken|..] == AllBytes(c, s.accepted[|s.delivered|..]);
  }

  /** A load returns the next undelivered frame exactly when all its bytes are in view; the
      bad-header branch is never taken. */
  lemma LoadOutcome(c: Codec, s: System)
    requires Inv2(c, s) && s.path.cp.CpSnap?
    ensures var k, view := |s.delivered|, View(s.path);
      if k < |s.accepted| && |Bytes(c, s.accepted[k])| <= |view|
      then Parse(c, view) == Loaded(s.accepted[k], |Bytes(c, s.accepted[k])|)
      else Parse(c, view).TooShort? || Parse(c, view).Incomplete?
    ensures c == Lhdc ==> LoadFits(View(s.path))
  {
    OnItsWay(c, s);
    var p := s.path;
    BetweenStale(p.cache, p.rpos, p.cp.seenW, p.wpos);
    var k, view := |s.delivered|, View(p);
    var rest := AllBytes(c, s.accepted[k..]);
    assert view == rest[..|view|];
    if k < |s.accepted| {
      ParseView(c, s.accepted[k], AllBytes(c, s.accepted[k..][1..]), |view|);
    }
  }

  /** The bytes a successful load consumes are those of the next frame. */
  lemma LoadConsumes(c: Codec, s: System)
    requires Inv2(c, s) && s.path.cp.CpSnap? && Parse(c, View(s.path)).Loaded?
    ensures var r := Parse(c, View(s.path));
      && |s.delivered| < |s.accepted| && r.frame == s.accepted[|s.delivered|]
      && View(s.path)[..r.used] == Bytes(c, r.frame)
  {
    hide Parse, Acceptable, Waiting, Between, Copied, LoadFits;
    LoadOutcome(c, s);
    OnItsWay(c, s);
    var p, k := s.path, |s.delivered|;
    var view, b := View(p), Bytes(c, s.accepted[k]);
    BetweenStale(p.cache, p.rpos, p.cp.seenW, p.wpos);
    var rest := b + AllBytes(c, s.accepted[k..][1..]);
    assert AllBytes(c, s.accepted[k..]) == rest;
    assert view == rest[..|view|];
    assert view[..|b|] == rest[..|b|] == b;
  }

  /** A load hands out the next undelivered frame exactly when all its bytes are in view, and ends either way. */
  lemma LoadDelivers(c: Codec, s: System)
    requires Inv2(c, s) && s.path.cp.CpSnap?
    ensures var t, k := Act(c, s, Load), |s.delivered|;
      && t.accepted == s.accepted && t.path.cp == CpIdle && t.path.queue == s.path.queue && t.path.mcu == s.path.mcu
      && t.delivered == if k < |s.accepted| && |Bytes(c, s.accepted[k])| <= |View(s.path)|
                        then s.delivered + [s.accepted[k]] else s.delivered
  {
    hide Parse, Bytes, Acceptable, AllBytes, Between, Stale, Copied, Waiting, Fifo;
    LoadOutcome(c, s);
  }

  lemma Deliver(c: Codec, s: System, frame: seq<byte>, used: nat)
    requires Inv2(c, s) && s.path.cp.CpSnap? && used <= |View(s.path)|
    requires |s.delivered| < |s.accepted| && frame == s.accepted[|s.delivered|]
    requires View(s.path)[..used] == Bytes(c, frame)
    ensures Inv2(c, s.(path := Step(s.path, CpRelease(used)), delivered := s.delivered + [frame]))
  {
    hide Bytes, Acceptable, AllBytes, Between, Stale, Copied;
    ReleaseStep(s.path, used);
    AllBytesAppend(c, s.delivered, frame);
  }

  lemma LoadKeeps(c: Codec, s: System)
    requires Inv2(c, s) && s.path.cp.CpSnap?
    ensures Inv2(c, Act(c, s, Load))
  {
    hide Parse, Bytes, Acceptable, AllBytes, Between;
    LoadOutcome(c, s);
    if Parse(c, View(s.path)).Loaded? {
      LoadConsumes(c, s);
      Deliver(c, s, Parse(c, View(s.path)).frame, Parse(c, View(s.path)).used);
    } else {
      SpscRing.StepKeeps(s.path, CpRelease(0));
      assert View(s.path)[..0] == [];
    }
  }

  lemma ActKeeps(c: Codec, s: System, a: Action)
    requires Inv2(c, s) && (a.Offer? ==> Acceptable(c, a.frame))
    ensures Inv2(c, Act(c, s, a))
  {
    match a
    case Offer(frame) =>
      AllBytesAppend(c, s.accepted, frame);
      SpscRing.StepKeeps(s.path, Push(Bytes(c, frame)));
    case Transport(move) =>
      if Internal(move) { SpscRing.StepKeeps(s.path, move); }
    case Load =>
      if s.path.cp.CpSnap? { LoadKeeps(c, s); }
  }

  predicate OffersAcceptable(c: Codec, acts: seq<Action>)
  {
    forall a :: a in acts && a.Offer? ==> Acceptable(c, a.frame)
  }

  lemma {:induction false} ActAllKeeps(c: Codec, s: System, acts: seq<Action>)
    requires Inv2(c, s) && OffersAcceptable(c, acts)
    ensures Inv2(c, ActAll(c, s, acts))
    decreases |acts|
  {
    if acts != [] {
      ActKeeps(c, s, acts[0]);
      ActAllKeeps(c, Act(c, s, acts[0]), acts[1..]);
    }
  }

  function Start(capacity: nat, cache: seq<byte>): System
  {
    System(Init(capacity, cache), [], [], false)
  }

  /** End to end, in every interleaving of offers, copies and loads: the frames delivered are the first
      of the frames accepted, in order and byte for byte, everything else is still on its way, and the
      bad-header branch is never taken. */
  lemma DeliveredAreAccepted(c: Codec, capacity: nat, cache: seq<byte>, acts: seq<Action>)
    requires cache != [] && OffersAcceptable(c, acts)
    ensures var s := ActAll(c, Start(capacity, cache), acts);
      && s.delivered <= s.accepted && !s.bad
      && Between(s.path.cache, s.path.rpos, s.path.wpos) + Waiting(s.path) == AllBytes(c, s.accepted[|s.delivered|..])
  {
    ActAllKeeps(c, Start(capacity, cache), acts);
    OnItsWay(c, ActAll(c, Start(capacity, cache), acts));
  }

  /** An AAC frame of 2048 to 65535 bytes is what the size limit is about: once its header is in view,
      every load takes the bad-header branch. */
  lemma OversizeIsBad(frame: seq<byte>, rest: seq<byte>, n: nat)
    requires AAC_LIMIT <= |frame| < 0x1_0000 && 2 <= n <= |AacBytes(frame)| + |rest|
    ensures Parse(Aac, (AacBytes(frame) + rest)[..n]).BadHeader?
  {
    assert Value16((AacBytes(frame) + rest)[..n]) == |frame|;
  }

  // ---------- progress ----------

  lemma {:induction false} TransportRun(c: Codec, s: System, moves: seq<Move>)
    requires Sound(s.path) && forall m :: m in moves ==> Internal(m)
    ensures ActAll(c, s, seq(|moves|, i requires 0 <= i < |moves| => Transport(moves[i])))
        == s.(path := Run(s.path, moves))
    decreases |moves|
  {
    if moves != [] {
      var acts := seq(|moves|, i requires 0 <= i < |moves| => Transport(moves[i]));
      assert acts[1..] == seq(|moves[1..]|, i requires 0 <= i < |moves[1..]| => Transport(moves[1..][i]));
      TransportRun(c, s.(path := Step(s.path, moves[0])), moves[1..]);
    }
  }

  lemma {:induction false} ActSplit(c: Codec, s: System, a: seq<Action>, b: seq<Action>)
    requires Sound(s.path)
    ensures ActAll(c, s, a + b) == ActAll(c, ActAll(c, s, a), b)
    decreases |a|
  {
    if a == [] {
      assert a + b == b;
    } else {
      assert (a + b)[1..] == a[1..] + b;
      ActSplit(c, Act(c, s, a[0]), a[1..], b);
    }
  }

  lemma {:induction false} CopiesInternal(n: nat)
    ensures forall m :: m in Copies(n) ==> Internal(m)
  {
    if n > 0 {
      CopiesInternal(n - 1);
    }
  }

  /** One load of the MCU followed by one load of the coprocessor. */
  function Round(n: nat): seq<Action>
  {
    var moves := LoadMoves(n) + [CpSnapshot];
    seq(|moves|, i requires 0 <= i < |moves| => Transport(moves[i])) + [Load]
  }

  lemma RoundRun(c: Codec, s: System)
    requires Inv(s.path) && s.path.mcu.McuIdle? && s.path.cp.CpIdle?
    ensures var q := Step(Run(s.path, LoadMoves(LoadSize(s.path))), CpSnapshot);
      ActAll(c, s, Round(LoadSize(s.path))) == Act(c, s.(path := q), Load)
  {
    var p, n := s.path, LoadSize(s.path);
    var moves := LoadMoves(n) + [CpSnapshot];
    CopiesInternal(n);
    RunSplit(p, LoadMoves(n), [CpSnapshot]);
    var q := Run(p, LoadMoves(n));
    assert Run(q, [CpSnapshot]) == Run(Step(q, CpSnapshot), []) by { assert [CpSnapshot][1..] == []; }
    TransportRun(c, s, moves);
    ActSplit(c, s, seq(|moves|, i requires 0 <= i < |moves| => Transport(moves[i])), [Load]);
    var t := s.(path := Step(q, CpSnapshot));
    assert ActAll(c, t, [Load]) == ActAll(c, Act(c, t, Load), []) by { assert [Load][1..] == []; }
  }

  /** After an undisturbed load the whole next frame is in the cache: either everything that is on its
      way has been moved, or the cache is full, and it holds the longest frame. */
  lemma NextFrameFits(c: Codec, s: System)
    requires Inv2(c, s) && s.path.cp.CpSnap? && s.path.cp.seenW == s.path.wpos && s.path.mcu.McuIdle?
    requires |s.delivered| < |s.accepted| && MaxBytes(c) < |s.path.cache|
    requires s.path.queue == [] || FreeLen(s.path.wpos, s.path.rpos, |s.path.cache|) == 0
    ensures |Bytes(c, s.accepted[|s.delivered|])| <= |View(s.path)|
  {
    OnItsWay(c, s);
    var rest := s.accepted[|s.delivered|..];
    assert rest[0] in s.accepted;
    assert |AllBytes(c, rest)| >= |Bytes(c, rest[0])|;
  }

  /** The system is never stuck: from every reachable resting state with frames outstanding, one load
      of each core delivers the next frame. A partial frame in the cache cannot block the producer,
      because the cache holds the longest frame. */
  lemma NeverStuck(c: Codec, s: System)
    requires Inv2(c, s) && s.path.mcu.McuIdle? && s.path.cp.CpIdle?
    requires |s.delivered| < |s.accepted| && MaxBytes(c) < |s.path.cache|
    ensures ActAll(c, s, Round(LoadSize(s.path))).delivered == s.delivered + [s.accepted[|s.delivered|]]
  {
    RoundRun(c, s);
    LoadRun(s.path);
    var q := Run(s.path, LoadMoves(LoadSize(s.path)));
    SpscRing.StepKeeps(q, CpSnapshot);
    var t := s.(path := Step(q, CpSnapshot));
    NextFrameFits(c, t);
    LoadOutcome(c, t);
  }
}
