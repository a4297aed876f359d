/**
 The byte path between the BT thread, the MCU and the coprocessor as interleaved atomic steps.
 The BT thread queues blocks, the MCU copies queue bytes into the input cache one byte at a time,
 the coprocessor takes bytes out. Each core works on a snapshot of the other's position that may
 be stale by the time it is used. The whole refines one byte FIFO.
 */
module SpscRing {
  import opened Ring
  import opened A2dpCache

  /** Where mcu_load_a2dp_encoded_data stands. */
  datatype Mcu = McuIdle | McuSnap(seenR: nat) | McuCopy(seenR: nat, size: nat, done: nat) | McuPublished(size: nat)

  /** Where the coprocessor's load stands. */
  datatype Cp = CpIdle | CpSnap(seenW: nat)

  /** `sent` and `taken` are history: the bytes ever queued and the bytes ever consumed. */
  datatype Path = Path(
    queue: seq<byte>, capacity: nat,
    cache: seq<byte>, wpos: nat, rpos: nat,
    mcu: Mcu, cp: Cp,
    sent: seq<byte>, taken: seq<byte>)

  datatype Move =
    | Push(data: seq<byte>)  // the BT thread, under the queue lock
    | McuSnapshot | McuMeasure | McuCopyByte | McuPublish | McuDequeue
    | CpSnapshot
    | CpRelease(used: nat)   // the load ends and has consumed `used` bytes of its snapshot

  function Min(a: nat, b: nat): nat { if a < b then a else b }

  /** The snapshots are positions in the cache and the announced block is in the queue. */
  predicate Sound(s: Path)
  {
    && s.wpos < |s.cache| && s.rpos < |s.cache| && |s.queue| <= s.capacity
    && (s.mcu.McuSnap? || s.mcu.McuCopy? ==> s.mcu.seenR < |s.cache|)
    && (s.mcu.McuCopy? ==> s.mcu.done <= s.mcu.size <= Min(|s.queue|, |s.cache| - 1))
    && (s.mcu.McuPublished? ==> s.mcu.size <= |s.queue|)
    && (s.cp.CpSnap? ==> s.cp.seenW < |s.cache|)
  }

  /** The bytes the coprocessor's snapshot shows. */
  function View(s: Path): seq<byte>
    requires Sound(s) && s.cp.CpSnap?
  {
    Between(s.cache, s.rpos, s.cp.seenW)
  }

  /** One atomic step; a step whose core is elsewhere does nothing. */
  function Step(s: Path, m: Move): (t: Path)
    requires Sound(s)
    ensures Sound(t) && |t.cache| == |s.cache| && t.capacity == s.capacity
  {
    match m
    case Push(data) =>
      if |s.queue| + |data| <= s.capacity then s.(queue := s.queue + data, sent := s.sent + data) else s
    case McuSnapshot =>
      if s.mcu.McuIdle? && FreeLen(s.wpos, s.rpos, |s.cache|) > 0 then s.(mcu := McuSnap(s.rpos)) else s
    case McuMeasure =>
      if s.mcu.McuSnap? then
        s.(mcu := McuCopy(s.mcu.seenR, Min(|s.queue|, FreeLen(s.wpos, s.mcu.seenR, |s.cache|)), 0))
      else s
    case McuCopyByte =>
      if s.mcu.McuCopy? && s.mcu.done < s.mcu.size then
        s.(cache := s.cache[Advance(s.wpos, s.mcu.done, |s.cache|) := s.queue[s.mcu.done]],
           mcu := s.mcu.(done := s.mcu.done + 1))
      else s
    case McuPublish =>
      if s.mcu.McuCopy? && s.mcu.done == s.mcu.size then
        s.(wpos := Advance(s.wpos, s.mcu.size, |s.cache|), mcu := McuPublished(s.mcu.size))
      else s
    case McuDequeue =>
      if s.mcu.McuPublished? then s.(queue := s.queue[s.mcu.size..], mcu := McuIdle) else s
    case CpSnapshot =>
      if s.cp.CpIdle? then s.(cp := CpSnap(s.wpos)) else s
    case CpRelease(used) =>
      if s.cp.CpSnap? && used <= |View(s)| then
        s.(rpos := Advance(s.rpos, used, |s.cache|), taken := s.taken + View(s)[..used], cp := CpIdle)
      else s
  }

  /** The queue bytes that are not in the cache yet. */
  function Waiting(s: Path): seq<byte>
    requires Sound(s)
  {
    if s.mcu.McuPublished? then s.queue[s.mcu.size..] else s.queue
  }

  /** The refinement: what was sent is what was taken, then the cache, then the queue. */
  ghost predicate Fifo(s: Path)
    requires Sound(s)
  {
    s.sent == s.taken + Between(s.cache, s.rpos, s.wpos) + Waiting(s)
  }

  /** A stale copy of the other side's position only ever shows less room, or less data, than there is. */
  ghost predicate Stale(s: Path)
    requires Sound(s)
  {
    var used := DataLen(s.wpos, s.rpos, |s.cache|);
    && (s.mcu.McuSnap? || s.mcu.McuCopy? ==> used <= DataLen(s.wpos, s.mcu.seenR, |s.cache|))
    && (s.mcu.McuCopy? ==> s.mcu.size <= FreeLen(s.wpos, s.mcu.seenR, |s.cache|))
    && (s.cp.CpSnap? ==> DataLen(s.cp.seenW, s.rpos, |s.cache|) <= used)
  }

  /** The bytes copied so far sit behind the write position. */
  ghost predicate Copied(s: Path)
    requires Sound(s)
  {
    s.mcu.McuCopy? ==> Window(s.cache, s.wpos, s.mcu.done) == s.queue[..s.mcu.done]
  }

  ghost predicate Inv(s: Path)
  {
    Sound(s) && Fifo(s) && Stale(s) && Copied(s)
  }

  /** The byte being written is behind the published data and behind the bytes copied so far. */
  lemma CopyByteFrame(s: Path)
    requires Inv(s) && s.mcu.McuCopy? && s.mcu.done < s.mcu.size
    ensures var t := Step(s, McuCopyByte);
      && Between(t.cache, t.rpos, t.wpos) == Between(s.cache, s.rpos, s.wpos)
      && Window(t.cache, t.wpos, t.mcu.done) == s.queue[..t.mcu.done]
  {
    hide Fifo, DataLen;
    BetweenPut(s.cache, s.rpos, s.wpos, s.mcu.done, s.queue[s.mcu.done]);
  }

  lemma PublishFifo(s: Path)
    requires Inv(s) && s.mcu.McuCopy? && s.mcu.done == s.mcu.size
    ensures Inv(Step(s, McuPublish))
  {
    BetweenExtend(s.cache, s.rpos, s.wpos, s.mcu.size);
    FifoMove(s.taken, Between(s.cache, s.rpos, s.wpos), s.queue, s.mcu.size);
  }

  lemma ReleaseFifo(s: Path, used: nat)
    requires Inv(s) && s.cp.CpSnap? && used <= |View(s)|
    ensures Fifo(Step(s, CpRelease(used)))
  {
    var t := Step(s, CpRelease(used));
    var inCache := Between(s.cache, s.rpos, s.wpos);
    BetweenDrop(s.cache, s.rpos, s.wpos, used);
    BetweenStale(s.cache, s.rpos, s.cp.seenW, s.wpos);
    assert View(s)[..used] == inCache[..used];
    FifoTake(s.taken, inCache, Waiting(s), used);
    assert Waiting(t) == Waiting(s) && s.sent == s.taken + inCache + Waiting(s);
  }

  lemma FifoMove(taken: seq<byte>, inCache: seq<byte>, queue: seq<byte>, n: nat)
    requires n <= |queue|
    ensures taken + inCache + queue == taken + (inCache + queue[..n]) + queue[n..]
  {
  }

  lemma FifoTake(taken: seq<byte>, inCache: seq<byte>, waiting: seq<byte>, n: nat)
    requires n <= |inCache|
    ensures taken + inCache + waiting == (taken + inCache[..n]) + inCache[n..] + waiting
  {
  }

  /** Every step of every party keeps the refinement. */
  lemma StepKeeps(s: Path, m: Move)
    requires Inv(s)
    ensures Inv(Step(s, m))
  {
    match m
    case Push(data) =>
      var t := Step(s, m);
      if t != s {
        assert Waiting(t) == Waiting(s) + data;
        if s.mcu.McuCopy? {
          assert t.queue[..s.mcu.done] == s.queue[..s.mcu.done];
        }
      }
    case McuCopyByte =>
      if s.mcu.McuCopy? && s.mcu.done < s.mcu.size { CopyByteFrame(s); }
    case McuPublish =>
      if s.mcu.McuCopy? && s.mcu.done == s.mcu.size { PublishFifo(s); }
    case CpRelease(used) =>
      if s.cp.CpSnap? && used <= |View(s)| { ReleaseFifo(s, used); }
    case _ =>
  }

  function Run(s: Path, moves: seq<Move>): (t: Path)
    requires Sound(s)
    ensures Sound(t)
    decreases |moves|
  {
    if moves == [] then s else Run(Step(s, moves[0]), moves[1..])
  }

  function Init(capacity: nat, cache: seq<byte>): Path
  {
    Path([], capacity, cache, 0, 0, McuIdle, CpIdle, [], [])
  }

  lemma {:induction false} RunKeeps(s: Path, moves: seq<Move>)
    requires Inv(s)
    ensures Inv(Run(s, moves))
    decreases |moves|
  {
    if moves != [] {
      StepKeeps(s, moves[0]);
      RunKeeps(Step(s, moves[0]), moves[1..]);
    }
  }

  /** From the empty cache, in every interleaving: nothing is lost, duplicated or reordered, the
      positions stay in range and one byte of the cache stays free. */
  lemma RingRefinesFifo(capacity: nat, cache: seq<byte>, moves: seq<Move>)
    requires cache != []
    ensures var s := Run(Init(capacity, cache), moves);
      && s.sent == s.taken + Between(s.cache, s.rpos, s.wpos) + Waiting(s)
      && DataLen(s.wpos, s.rpos, |s.cache|) <= |s.cache| - 1
  {
    RunKeeps(Init(capacity, cache), moves);
  }

  /** While the coprocessor holds a snapshot, nothing the others do changes a byte of its view or the
      read position: its reads may be spread over any number of their steps. */
  lemma {:induction false} ViewIsStable(s: Path, moves: seq<Move>)
    requires Inv(s) && s.cp.CpSnap? && forall m :: m in moves ==> !m.CpRelease?
    ensures var t := Run(s, moves);
      t.cp == s.cp && t.rpos == s.rpos && View(t) == View(s)
    decreases |moves|
  {
    hide Window, Fifo, Copied;
    if moves != [] {
      var m, t := moves[0], Step(s, moves[0]);
      StepKeeps(s, m);
      assert View(t) == View(s) by {
        if m.McuCopyByte? && s.mcu.McuCopy? && s.mcu.done < s.mcu.size {
          CopyByteFrame(s);
        }
        BetweenStale(s.cache, s.rpos, s.cp.seenW, s.wpos);
        BetweenStale(t.cache, t.rpos, t.cp.seenW, t.wpos);
        if m.McuPublish? && s.mcu.McuCopy? && s.mcu.done == s.mcu.size {
          BetweenExtend(s.cache, s.rpos, s.wpos, s.mcu.size);
        }
      }
      ViewIsStable(t, moves[1..]);
    }
  }

  /** While the MCU is copying, nothing the others do changes the block it has peeked. */
  lemma {:induction false} PeekedIsStable(s: Path, moves: seq<Move>)
    requires Inv(s) && s.mcu.McuCopy?
    requires forall m :: m in moves ==> m.Push? || m.CpSnapshot? || m.CpRelease?
    ensures var t := Run(s, moves);
      t.mcu == s.mcu && t.wpos == s.wpos && s.queue <= t.queue
    decreases |moves|
  {
    if moves != [] {
      StepKeeps(s, moves[0]);
      PeekedIsStable(Step(s, moves[0]), moves[1..]);
    }
  }

  // ---------- one undisturbed load by the MCU ----------

  lemma {:induction false} RunSplit(s: Path, a: seq<Move>, b: seq<Move>)
    requires Sound(s)
    ensures Run(s, a + b) == Run(Run(s, a), b)
    decreases |a|
  {
    if a == [] {
      assert a + b == b;
    } else {
      assert (a + b)[1..] == a[1..] + b;
      RunSplit(Step(s, a[0]), a[1..], b);
    }
  }

  lemma CopyByteStep(s: Path)
    requires Inv(s) && s.mcu.McuCopy? && s.mcu.done < s.mcu.size
    ensures var t := Step(s, McuCopyByte);
      Inv(t) && t == s.(cache := t.cache, mcu := s.mcu.(done := s.mcu.done + 1)) && |t.cache| == |s.cache|
  {
    StepKeeps(s, McuCopyByte);
  }

  lemma ReleaseStep(s: Path, used: nat)
    requires Inv(s) && s.cp.CpSnap? && used <= |View(s)|
    ensures var t := Step(s, CpRelease(used));
      Inv(t) && t.sent == s.sent && t.taken == s.taken + View(s)[..used]
  {
    StepKeeps(s, CpRelease(used));
  }

  function Copies(n: nat): seq<Move>
  {
    if n == 0 then [] else [McuCopyByte] + Copies(n - 1)
  }

  lemma {:induction false} CopiesRun(s: Path, n: nat)
    requires Inv(s) && s.mcu.McuCopy? && s.mcu.done + n <= s.mcu.size
    ensures var t := Run(s, Copies(n));
      Inv(t) && t == s.(cache := t.cache, mcu := s.mcu.(done := s.mcu.done + n)) && |t.cache| == |s.cache|
    decreases n
  {
    hide Between;
    if n > 0 {
      CopyByteStep(s);
      CopiesRun(Step(s, McuCopyByte), n - 1);
      assert Copies(n)[0] == McuCopyByte && Copies(n)[1..] == Copies(n - 1);
    }
  }

  /** How many bytes an undisturbed load moves: all that is queued, or all there is room for. */
  function LoadSize(s: Path): nat
    requires Sound(s)
  {
    Min(|s.queue|, FreeLen(s.wpos, s.rpos, |s.cache|))
  }

  function LoadMoves(n: nat): seq<Move>
  {
    [McuSnapshot, McuMeasure] + Copies(n) + [McuPublish, McuDequeue]
  }

  lemma Run2(s: Path, a: Move, b: Move)
    requires Sound(s)
    ensures Run(s, [a, b]) == Step(Step(s, a), b)
  {
    assert [a, b][1..] == [b];
    assert Run(Step(s, a), [b]) == Run(Step(Step(s, a), b), []) by { assert [b][1..] == []; }
  }

  /** A load that nobody disturbs moves LoadSize bytes from the queue into the cache. */
  lemma LoadRun(s: Path)
    requires Inv(s) && s.mcu.McuIdle?
    ensures var t := Run(s, LoadMoves(LoadSize(s)));
      && Inv(t) && t.mcu.McuIdle? && t.cp == s.cp && |t.cache| == |s.cache|
      && t.sent == s.sent && t.taken == s.taken && t.rpos == s.rpos
      && DataLen(t.wpos, t.rpos, |t.cache|) == DataLen(s.wpos, s.rpos, |s.cache|) + LoadSize(s)
      && t.queue == s.queue[LoadSize(s)..]
  {
    var n := LoadSize(s);
    RunSplit(s, [McuSnapshot, McuMeasure], Copies(n) + [McuPublish, McuDequeue]);
    assert [McuSnapshot, McuMeasure] + (Copies(n) + [McuPublish, McuDequeue]) == LoadMoves(n);
    Run2(s, McuSnapshot, McuMeasure);
    StepKeeps(s, McuSnapshot);
    var s1 := Step(s, McuSnapshot);
    StepKeeps(s1, McuMeasure);
    var s2 := Step(s1, McuMeasure);
    RunSplit(s2, Copies(n), [McuPublish, McuDequeue]);
    if FreeLen(s.wpos, s.rpos, |s.cache|) > 0 {
      CopiesRun(s2, n);
      var s3 := Run(s2, Copies(n));
      Run2(s3, McuPublish, McuDequeue);
      StepKeeps(s3, McuPublish);
      StepKeeps(Step(s3, McuPublish), McuDequeue);
    } else {
      Run2(s, McuPublish, McuDequeue);
    }
  }
}
