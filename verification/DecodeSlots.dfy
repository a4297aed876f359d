/**
 The three PCM slots between the coprocessor, which decodes into them, and the MCU, which drains
 them (apps/audioplayers/a2dpplay.cpp), as interleaved atomic steps over the shared slot states.
 */
module DecodeSlots {
  import opened Ring

  const SLOT_CNT: nat := 3

  datatype State = Idle | Working | Done | Failed

  /** cp_dec_state, cp_out_len and the slot's part of cp_out_cache. */
  datatype Slot = Slot(state: State, outLen: nat, data: seq<byte>)

  /** The coprocessor: between attempts; decoding, with `made` written so far; about to set the slot
      state; about to advance its index. */
  datatype Cp = CpRest | CpDecoding(made: seq<byte>) | CpClosing(made: seq<byte>) | CpAdvancing

  /** The MCU: between calls; copying a block; past the first look at the state, with what it then
      did; about to advance its index. */
  datatype Mcu = McuRest | McuCopying(got: seq<byte>) | McuLooked(fate: Fate) | McuAdvancing

  /** What one MCU call did before its final look at the state. */
  datatype Fate = Copied(block: seq<byte>) | NotDone | WrongLength

  /** `produced` is history: the prefilled blocks and what each finished attempt made. `released` is
      history: for each slot the MCU gave back, what the call had done with it. */
  datatype System = System(
    slots: seq<Slot>, blockLen: nat, base: nat,
    cpIdx: nat, mcuIdx: nat, cp: Cp, mcu: Mcu,
    produced: seq<seq<byte>>, released: seq<Fate>)

  datatype Step =
    | CpBegin
    | CpDecode(bytes: seq<byte>)   // one frame loaded and decoded
    | CpLoadFails                  // at zero output: the slot stays WORKING
    | CpFinish                     // the block is full, or the decoder failed
    | CpSetState | CpNextIdx
    | McuLook | McuCopyByte | McuGiveBack | McuNextIdx

  predicate Sound(s: System)
  {
    && |s.slots| == SLOT_CNT && s.cpIdx < SLOT_CNT && s.mcuIdx < SLOT_CNT && s.base < SLOT_CNT
    && (forall i :: 0 <= i < SLOT_CNT ==> |s.slots[i].data| == s.blockLen)
    && (s.cp.CpDecoding? ==> |s.cp.made| <= s.blockLen)
    && (s.mcu.McuCopying? ==> |s.mcu.got| <= s.blockLen)
  }

  function Bump(i: nat): nat { if i + 1 >= SLOT_CNT then 0 else i + 1 }

  function Do(s: System, a: Step): (t: System)
    requires Sound(s)
    ensures Sound(t) && t.blockLen == s.blockLen && t.base == s.base
  {
    match a
    case CpBegin =>
      if !s.cp.CpRest? then s
      else
        var slot := s.slots[s.cpIdx];
        if slot.state == Idle then
          s.(slots := s.slots[s.cpIdx := slot.(state := Working, outLen := 0)], cp := CpDecoding([]))
        else if slot.state == Working then s.(cp := CpDecoding([]))
        else s
    case CpDecode(bytes) =>
      if s.cp.CpDecoding? && |s.cp.made| + |bytes| <= s.blockLen then
        var slot, made := s.slots[s.cpIdx], s.cp.made + bytes;
        s.(slots := s.slots[s.cpIdx := slot.(data := made + slot.data[|made|..])], cp := CpDecoding(made))
      else s
    case CpLoadFails =>
      if s.cp == CpDecoding([]) && s.blockLen > 0 then s.(cp := CpRest) else s
    case CpFinish =>
      if s.cp.CpDecoding? then
        var slot := s.slots[s.cpIdx];
        s.(slots := s.slots[s.cpIdx := slot.(outLen := slot.outLen + |s.cp.made|)], cp := CpClosing(s.cp.made))
      else s
    case CpSetState =>
      if s.cp.CpClosing? then
        var slot := s.slots[s.cpIdx];
        var state := if |s.cp.made| == s.blockLen then Done else Failed;
        s.(slots := s.slots[s.cpIdx := slot.(state := state)], cp := CpAdvancing, produced := s.produced + [s.cp.made])
      else s
    case CpNextIdx =>
      if s.cp.CpAdvancing? then s.(cpIdx := Bump(s.cpIdx), cp := CpRest) else s
    case McuLook =>
      if !s.mcu.McuRest? then s
      else
        var slot := s.slots[s.mcuIdx];
        if slot.state != Done then s.(mcu := McuLooked(NotDone))
        else if slot.outLen != s.blockLen then s.(mcu := McuLooked(WrongLength))
        else s.(mcu := McuCopying([]))
    case McuCopyByte =>
      if !s.mcu.McuCopying? then s
      else if |s.mcu.got| < s.blockLen then
        s.(mcu := McuCopying(s.mcu.got + [s.slots[s.mcuIdx].data[|s.mcu.got|]]))
      else s.(mcu := McuLooked(Copied(s.mcu.got)))
    case McuGiveBack =>
      if !s.mcu.McuLooked? then s
      else
        var slot := s.slots[s.mcuIdx];
        if slot.state == Done || slot.state == Failed then
          s.(slots := s.slots[s.mcuIdx := slot.(state := Idle)], mcu := McuAdvancing,
              released := s.released + [s.mcu.fate])
        else s.(mcu := McuRest)
    case McuNextIdx =>
      if s.mcu.McuAdvancing? then s.(mcuIdx := Bump(s.mcuIdx), mcu := McuRest) else s
  }

  /** mcu_decode_a2dp_init: the slots from `base` on are prefilled. */
  function Init(base: nat, blocks: seq<seq<byte>>, blockLen: nat): (s: System)
    requires 1 <= base < SLOT_CNT && |blocks| == SLOT_CNT
    requires forall i :: 0 <= i < SLOT_CNT ==> |blocks[i]| == blockLen
    ensures Sound(s)
  {
    System(seq(SLOT_CNT, i requires 0 <= i < SLOT_CNT =>
                 if i >= base then Slot(Done, blockLen, blocks[i]) else Slot(Idle, 0, blocks[i])),
           blockLen, base, 0, base, CpRest, McuRest, blocks[base..], [])
  }

  /** The slot that holds production number `j`. */
  function Place(base: nat, j: nat): (i: nat)
    ensures i < SLOT_CNT
  {
    (base + j) % SLOT_CNT
  }

  function At(s: System, j: nat): Slot
    requires Sound(s)
  {
    s.slots[Place(s.base, j)]
  }

  lemma PlaceDiffers(base: nat, i: nat, j: nat)
    requires i < j < i + SLOT_CNT
    ensures Place(base, i) != Place(base, j)
  {
  }

  lemma PlaceNext(base: nat, j: nat)
    ensures Bump(Place(base, j)) == Place(base, j + 1)
    ensures Place(base, j + SLOT_CNT) == Place(base, j)
  {
  }

  /** Slot of production number `j` while it waits for the MCU. */
  ghost predicate Full(s: System, j: nat)
    requires Sound(s) && j < |s.produced|
  {
    if |s.produced[j]| == s.blockLen then At(s, j) == Slot(Done, s.blockLen, s.produced[j])
    else At(s, j).state == Failed
  }

  /** The coprocessor's own slot: IDLE, or WORKING with what has been decoded so far at its front. */
  ghost predicate OwnSlot(s: System, slot: Slot)
  {
    match s.cp
    case CpDecoding(made) => slot.state == Working && slot.outLen == 0 && |made| <= |slot.data|
        && slot.data[..|made|] == made
    case CpClosing(made) => slot.state == Working && slot.outLen == |made| <= |slot.data| && slot.data[..|made|] == made
    case _ => slot.state == Idle || (slot.state == Working && slot.outLen == 0)
  }

  /** Who owns which slot: from the MCU's up to the coprocessor's, circularly, the slots are DONE or FAILED;
      the coprocessor's own may be WORKING; all others are IDLE. */
  ghost predicate Owned(s: System)
    requires Sound(s)
  {
    var r, p := |s.released|, |s.produced|;
    && r <= p <= r + SLOT_CNT
    && (forall j :: r <= j < p ==> Full(s, j))
    && (forall j :: p < j < r + SLOT_CNT ==> At(s, j).state == Idle)
    && (p < r + SLOT_CNT ==> OwnSlot(s, At(s, p)))
    && (s.cp.CpDecoding? || s.cp.CpClosing? ==> p < r + SLOT_CNT)
  }

  ghost predicate Indices(s: System)
    requires Sound(s)
  {
    && |s.produced| > 0
    && s.cpIdx == Place(s.base, if s.cp.CpAdvancing? then |s.produced| - 1 else |s.produced|)
    && (s.mcu.McuAdvancing? ==> |s.released| > 0)
    && s.mcuIdx == Place(s.base, if s.mcu.McuAdvancing? then |s.released| - 1 else |s.released|)
  }

  /** What a call has done so far with production number |released|. */
  ghost predicate Looking(s: System)
    requires Sound(s)
  {
    var r := |s.released|;
    match s.mcu
    case McuCopying(got) => r < |s.produced| && |s.produced[r]| == s.blockLen && |got| <= s.blockLen
        && got == s.produced[r][..|got|]
    case McuLooked(Copied(block)) => r < |s.produced| && block == s.produced[r] && |block| == s.blockLen
    case McuLooked(WrongLength) => false
    case _ => true
  }

  /** What became of each slot given back: a copied block is the one produced, and a failed one is never copied. */
  ghost predicate Fates(s: System)
  {
    && |s.released| <= |s.produced|
    && (forall j :: 0 <= j < |s.released| ==> GoodFate(s.released[j], s.produced[j], s.blockLen))
  }

  predicate GoodFate(fate: Fate, made: seq<byte>, blockLen: nat)
  {
    fate == NotDone || (fate == Copied(made) && |made| == blockLen)
  }

  ghost predicate Inv(s: System)
  {
    Sound(s) && Owned(s) && Indices(s) && Looking(s) && Fates(s)
  }

  /** The coprocessor writes only its own slot. */
  lemma OthersKept(s: System, t: System, p: nat)
    requires Sound(s) && Sound(t) && t.base == s.base
    requires forall i :: 0 <= i < SLOT_CNT && i != Place(s.base, p) ==> t.slots[i] == s.slots[i]
    ensures forall j: nat :: j < p < j + SLOT_CNT || p < j < p + SLOT_CNT ==> At(t, j) == At(s, j)
  {
    forall j: nat | j < p < j + SLOT_CNT || p < j < p + SLOT_CNT
      ensures At(t, j) == At(s, j)
    {
      if j < p { PlaceDiffers(s.base, j, p); } else { PlaceDiffers(s.base, p, j); }
    }
  }

  /** A full ring blocks the coprocessor: the slot it would take next is still DONE or FAILED. */
  lemma FullRing(s: System)
    requires Inv(s) && |s.produced| == |s.released| + SLOT_CNT
    ensures var own := At(s, |s.produced|); own.state == Done || own.state == Failed
  {
    PlaceNext(s.base, |s.released|);
    assert Full(s, |s.released|);
  }

  lemma CpKeeps(s: System, a: Step)
    requires Inv(s) && (a.CpBegin? || a.CpDecode? || a.CpLoadFails? || a.CpFinish?)
    ensures Inv(Do(s, a))
  {
    var p, r, t := |s.produced|, |s.released|, Do(s, a);
    if p == r + SLOT_CNT {
      FullRing(s);
      assert t == s;
    } else {
      OthersKept(s, t, p);
      forall j | r <= j < p ensures Full(t, j) { assert Full(s, j) && At(t, j) == At(s, j); }
      assert At(t, p) == t.slots[Place(s.base, p)];
    }
  }

  lemma CpSetStateKeeps(s: System)
    requires Inv(s) && s.cp.CpClosing?
    ensures Inv(Do(s, CpSetState))
  {
    var p, r, t := |s.produced|, |s.released|, Do(s, CpSetState);
    OthersKept(s, t, p);
    forall j | r <= j < p ensures Full(t, j) { assert Full(s, j) && At(t, j) == At(s, j); }
    assert Full(t, p);
  }

  lemma McuGiveBackKeeps(s: System)
    requires Inv(s) && s.mcu.McuLooked? && Do(s, McuGiveBack).mcu.McuAdvancing?
    ensures Inv(Do(s, McuGiveBack))
  {
    var p, r, t := |s.produced|, |s.released|, Do(s, McuGiveBack);
    assert Full(s, r);
    OthersKept(s, t, r);
    forall j | r < j < p ensures Full(t, j) { assert Full(s, j) && At(t, j) == At(s, j); }
    PlaceNext(s.base, r);
    assert At(t, r + SLOT_CNT).state == Idle;
  }

  /** Steps that leave the slots and the histories alone. */
  lemma SlotsKept(s: System, t: System)
    requires Inv(s) && Sound(t) && t.slots == s.slots && t.produced == s.produced && t.released == s.released
    requires t.base == s.base && t.blockLen == s.blockLen
    requires t.cp == s.cp || (s.cp == CpAdvancing && t.cp == CpRest)
    ensures Owned(t) && Fates(t)
  {
    forall j | |s.released| <= j < |s.produced| ensures Full(t, j) { assert Full(s, j); }
    forall j: nat ensures At(t, j) == At(s, j) { }
  }

  lemma IndexKeeps(s: System, a: Step)
    requires Inv(s) && (a.CpNextIdx? || a.McuNextIdx?)
    ensures Inv(Do(s, a))
  {
    SlotsKept(s, Do(s, a));
    PlaceNext(s.base, |s.produced| - 1);
    if |s.released| > 0 { PlaceNext(s.base, |s.released| - 1); }
  }

  lemma McuReads(s: System, a: Step)
    requires Inv(s) && (a.McuLook? || a.McuCopyByte? || (a.McuGiveBack? && !Do(s, a).mcu.McuAdvancing?))
    ensures Inv(Do(s, a))
  {
    hide Fates;
    SlotsKept(s, Do(s, a));
    var r := |s.released|;
    if r < |s.produced| {
      assert Full(s, r);
    } else {
      assert OwnSlot(s, At(s, r));
    }
  }

  /** Every step of either core keeps the protocol. */
  lemma StepKeeps(s: System, a: Step)
    requires Inv(s)
    ensures Inv(Do(s, a))
  {
    match a {
      case CpSetState => if s.cp.CpClosing? { CpSetStateKeeps(s); }
      case McuGiveBack =>
        if !s.mcu.McuLooked? { assert Do(s, a) == s; }
        else if Do(s, a).mcu.McuAdvancing? { McuGiveBackKeeps(s); } else { McuReads(s, a); }
      case CpNextIdx => IndexKeeps(s, a);
      case McuNextIdx => IndexKeeps(s, a);
      case McuLook => McuReads(s, a);
      case McuCopyByte => McuReads(s, a);
      case _ => CpKeeps(s, a);
    }
  }

  /** One owner per slot: the MCU never copies from the slot the coprocessor is decoding into. */
  lemma OneOwner(s: System)
    requires Inv(s) && s.mcu.McuCopying? && (s.cp.CpDecoding? || s.cp.CpClosing?)
    ensures s.mcuIdx != s.cpIdx
    ensures s.slots[s.mcuIdx].state == Done && s.slots[s.cpIdx].state == Working
  {
    assert Full(s, |s.released|);
    PlaceDiffers(s.base, |s.released|, |s.produced|);
  }

  function DoAll(s: System, steps: seq<Step>): (t: System)
    requires Sound(s)
    ensures Sound(t)
    decreases |steps|
  {
    if steps == [] then s else DoAll(Do(s, steps[0]), steps[1..])
  }

  lemma {:induction false} DoAllKeeps(s: System, steps: seq<Step>)
    requires Inv(s)
    ensures Inv(DoAll(s, steps)) && DoAll(s, steps).blockLen == s.blockLen
    decreases |steps|
  {
    if steps != [] {
      StepKeeps(s, steps[0]);
      DoAllKeeps(Do(s, steps[0]), steps[1..]);
    }
  }

  lemma InitHolds(base: nat, blocks: seq<seq<byte>>, blockLen: nat)
    requires 1 <= base < SLOT_CNT && |blocks| == SLOT_CNT
    requires forall i :: 0 <= i < SLOT_CNT ==> |blocks[i]| == blockLen
    ensures Inv(Init(base, blocks, blockLen))
  {
    var s := Init(base, blocks, blockLen);
    forall j | 0 <= j < |s.produced| ensures Full(s, j) {
      assert s.slots[base + j] == Slot(Done, blockLen, blocks[base + j]);
    }
  }

  // ---------- what the MCU plays ----------

  function Played(released: seq<Fate>): (blocks: seq<seq<byte>>)
  {
    if released == [] then []
    else
      var last := released[|released| - 1];
      Played(released[..|released| - 1]) + if last.Copied? then [last.block] else []
  }

  function FullBlocks(produced: seq<seq<byte>>, blockLen: nat): (blocks: seq<seq<byte>>)
  {
    if produced == [] then []
    else
      var last := produced[|produced| - 1];
      FullBlocks(produced[..|produced| - 1], blockLen) + if |last| == blockLen then [last] else []
  }

  /** A slot that held a complete block was given back uncopied. */
  predicate Missed(fate: Fate, made: seq<byte>, blockLen: nat)
  {
    fate == NotDone && |made| == blockLen
  }

  ghost predicate BlockLost(s: System)
  {
    exists j :: 0 <= j < |s.released| && j < |s.produced| && Missed(s.released[j], s.produced[j], s.blockLen)
  }

  /** The coprocessor closes a complete block in the slot the MCU has just seen not DONE. */
  predicate ClosesUnseen(s: System, a: Step)
  {
    && a.CpSetState? && s.cp.CpClosing? && |s.cp.made| == s.blockLen
    && s.mcu == McuLooked(NotDone) && |s.produced| == |s.released|
  }

  predicate GivesBack(steps: seq<Step>)
  {
    exists j :: 0 <= j < |steps| && steps[j].McuGiveBack?
  }

  /** Somewhere in the run the coprocessor closes a block unseen, and the MCU's second look comes later. */
  predicate RacesAhead(s: System, steps: seq<Step>)
    requires Sound(s)
    decreases |steps|
  {
    steps != [] && ((ClosesUnseen(s, steps[0]) && GivesBack(steps[1..])) || RacesAhead(Do(s, steps[0]), steps[1..]))
  }

  /** The MCU is between its two looks, and the slot it saw not DONE holds a complete block by now. */
  ghost predicate AboutToLose(s: System)
  {
    && s.mcu == McuLooked(NotDone) && |s.released| < |s.produced|
    && |s.produced[|s.released|]| == s.blockLen
  }

  /** A step that closes or starts nothing given back keeps what is lost. */
  lemma LossKept(s: System, t: System)
    requires |s.released| <= |s.produced| && t.released == s.released && s.produced <= t.produced
        && t.blockLen == s.blockLen
    ensures BlockLost(t) <==> BlockLost(s)
  {
    if BlockLost(s) {
      var j :| 0 <= j < |s.released| && j < |s.produced| && Missed(s.released[j], s.produced[j], s.blockLen);
      assert Missed(t.released[j], t.produced[j], t.blockLen);
    }
    if BlockLost(t) {
      var j :| 0 <= j < |t.released| && j < |t.produced| && Missed(t.released[j], t.produced[j], t.blockLen);
      assert Missed(s.released[j], s.produced[j], s.blockLen);
    }
  }

  lemma LossGrows(s: System, t: System, fate: Fate)
    requires |s.released| < |s.produced| && t.released == s.released + [fate]
    requires t.produced == s.produced && t.blockLen == s.blockLen
    ensures BlockLost(t) <==> BlockLost(s) || Missed(fate, s.produced[|s.released|], s.blockLen)
  {
    if BlockLost(s) {
      var j :| 0 <= j < |s.released| && j < |s.produced| && Missed(s.released[j], s.produced[j], s.blockLen);
      assert Missed(t.released[j], t.produced[j], t.blockLen);
    } else if Missed(fate, s.produced[|s.released|], s.blockLen) {
      assert Missed(t.released[|s.released|], t.produced[|s.released|], t.blockLen);
    }
    if BlockLost(t) {
      var j :| 0 <= j < |t.released| && j < |t.produced| && Missed(t.released[j], t.produced[j], t.blockLen);
      assert j < |s.released| ==> Missed(s.released[j], s.produced[j], s.blockLen);
    }
  }

  /** What the MCU's second look does: it gives back a slot exactly when the coprocessor is done with it. */
  lemma SecondLook(s: System)
    requires Inv(s) && s.mcu.McuLooked?
    ensures var t, r := Do(s, McuGiveBack), |s.released|;
      if r < |s.produced| then t.released == s.released + [s.mcu.fate] && t.produced == s.produced
      else t.released == s.released && t.produced == s.produced
  {
    var r := |s.released|;
    if r < |s.produced| { assert Full(s, r); } else { assert OwnSlot(s, At(s, r)); }
  }

  lemma LossStep(s: System, a: Step)
    requires Inv(s)
    ensures BlockLost(Do(s, a)) <==> BlockLost(s) || (AboutToLose(s) && a.McuGiveBack?)
  {
    if a.McuGiveBack? && s.mcu.McuLooked? {
      SecondLook(s);
      if |s.released| < |s.produced| { LossGrows(s, Do(s, a), s.mcu.fate); } else { LossKept(s, Do(s, a)); }
    } else {
      LossKept(s, Do(s, a));
    }
  }

  lemma AboutStep(s: System, a: Step)
    requires Inv(s)
    ensures AboutToLose(Do(s, a)) <==> (AboutToLose(s) && !a.McuGiveBack?) || ClosesUnseen(s, a)
  {
    if a.McuGiveBack? {
      if s.mcu.McuLooked? { SecondLook(s); }
    } else if a.McuLook? && |s.released| < |s.produced| {
      assert Full(s, |s.released|);
    }
  }

  lemma GivesBackCons(a: Step, steps: seq<Step>)
    ensures GivesBack([a] + steps) <==> a.McuGiveBack? || GivesBack(steps)
  {
    var all := [a] + steps;
    if a.McuGiveBack? { assert all[0].McuGiveBack?; }
    if GivesBack(steps) {
      var j :| 0 <= j < |steps| && steps[j].McuGiveBack?;
      assert all[j + 1].McuGiveBack?;
    }
  }

  /** From every reachable state a run loses a block exactly when it races ahead of the MCU's second look, or when
      that has already happened and the second look is still to come. */
  lemma {:induction false} LostIff(s: System, steps: seq<Step>)
    requires Inv(s)
    ensures Inv(DoAll(s, steps))
    ensures BlockLost(DoAll(s, steps))
      <==> BlockLost(s) || (AboutToLose(s) && GivesBack(steps)) || RacesAhead(s, steps)
    decreases |steps|
  {
    if steps != [] {
      var a, rest := steps[0], steps[1..];
      StepKeeps(s, a);
      LossStep(s, a);
      AboutStep(s, a);
      LostIff(Do(s, a), rest);
      assert steps == [a] + rest;
      GivesBackCons(a, rest);
    }
  }

  predicate NoneMissed(released: seq<Fate>, produced: seq<seq<byte>>, blockLen: nat)
    requires |released| <= |produced|
  {
    forall j :: 0 <= j < |released| ==> !Missed(released[j], produced[j], blockLen)
  }

  lemma NoneMissedSnoc(released: seq<Fate>, produced: seq<seq<byte>>, blockLen: nat)
    requires 0 < |released| <= |produced|
    ensures var n := |released| - 1;
      NoneMissed(released, produced, blockLen)
      <==> NoneMissed(released[..n], produced, blockLen) && !Missed(released[n], produced[n], blockLen)
  {
    var n := |released| - 1;
    assert forall j :: 0 <= j < n ==> released[..n][j] == released[j];
  }

  lemma AppendEqual<T>(p: seq<T>, f: seq<T>, x: T)
    ensures p + [x] == f + [x] <==> p == f
  {
    assert (p + [x])[..|p|] == p && (f + [x])[..|f|] == f;
  }

  lemma {:induction false} PlayedIsFull(released: seq<Fate>, produced: seq<seq<byte>>, blockLen: nat)
    requires |released| <= |produced|
    requires forall j :: 0 <= j < |released| ==> GoodFate(released[j], produced[j], blockLen)
    ensures |Played(released)| <= |FullBlocks(produced[..|released|], blockLen)|
    ensures Played(released) == FullBlocks(produced[..|released|], blockLen)
            <==> NoneMissed(released, produced, blockLen)
    decreases |released|
  {
    if released != [] {
      hide NoneMissed;
      var n := |released| - 1;
      PlayedIsFull(released[..n], produced, blockLen);
      NoneMissedSnoc(released, produced, blockLen);
      assert produced[..n + 1][..n] == produced[..n];
      assert GoodFate(released[n], produced[n], blockLen);
      var p, f := Played(released[..n]), FullBlocks(produced[..n], blockLen);
      var x := produced[n];
      var blocks := FullBlocks(produced[..n + 1], blockLen);
      if released[n] == NotDone && |x| == blockLen {
        assert Played(released) == p + [] == p && blocks == f + [x];
        assert |p| < |blocks|;
      } else if released[n] == NotDone {
        assert Played(released) == p + [] == p && blocks == f + [] == f;
      } else {
        assert Played(released) == p + [x] && blocks == f + [x];
        AppendEqual(p, f, x);
      }
    }
  }

  /** In every reachable state: each slot given back was copied, if its block is complete, or not copied, so the
      blocks played are complete ones in production order, beginning with the prefilled; and they are all the
      complete ones exactly when the coprocessor never closed a block between the MCU's two looks at its slot. */
  lemma PlayedInOrder(base: nat, blocks: seq<seq<byte>>, blockLen: nat, steps: seq<Step>)
    requires 1 <= base < SLOT_CNT && |blocks| == SLOT_CNT
    requires forall i :: 0 <= i < SLOT_CNT ==> |blocks[i]| == blockLen
    ensures var s := DoAll(Init(base, blocks, blockLen), steps);
      && |s.released| <= |s.produced| <= |s.released| + SLOT_CNT && blocks[base..] <= s.produced
      && (forall j :: 0 <= j < |s.released| ==> GoodFate(s.released[j], s.produced[j], blockLen))
      && (Played(s.released) == FullBlocks(s.produced[..|s.released|], blockLen)
          <==> !RacesAhead(Init(base, blocks, blockLen), steps))
  {
    var s0 := Init(base, blocks, blockLen);
    var s := DoAll(s0, steps);
    InitHolds(base, blocks, blockLen);
    DoAllKeeps(s0, steps);
    ProducedGrows(s0, steps);
    LostIff(s0, steps);
    PlayedIsFull(s.released, s.produced, blockLen);
    assert !BlockLost(s0) && !AboutToLose(s0);
  }

  lemma {:induction false} ProducedGrows(s: System, steps: seq<Step>)
    requires Sound(s)
    ensures s.produced <= DoAll(s, steps).produced
    decreases |steps|
  {
    if steps != [] {
      ProducedGrows(Do(s, steps[0]), steps[1..]);
    }
  }

  /** If the coprocessor closes no block while the MCU is between its two looks, nothing is missed. */
  lemma {:induction false} NoMissWithoutInterference(s: System, steps: seq<Step>)
    requires Inv(s) && !BlockLost(s) && !AboutToLose(s)
    requires forall i :: 0 <= i < |steps| && steps[i].CpSetState? ==> !DoAll(s, steps[..i]).mcu.McuLooked?
    ensures !BlockLost(DoAll(s, steps))
    decreases |steps|
  {
    if steps != [] {
      var a, rest := steps[0], steps[1..];
      assert DoAll(s, steps[..0]) == s;
      StepKeeps(s, a);
      LossStep(s, a);
      AboutStep(s, a);
      forall i | 0 <= i < |rest| && rest[i].CpSetState? ensures !DoAll(Do(s, a), rest[..i]).mcu.McuLooked? {
        assert steps[..i + 1][1..] == rest[..i] && steps[i + 1] == rest[i];
      }
      NoMissWithoutInterference(Do(s, a), rest);
    }
  }

  // ---------- what the slots hold ----------

  function Concat(blocks: seq<seq<byte>>): seq<byte>
  {
    if blocks == [] then [] else Concat(blocks[..|blocks| - 1]) + blocks[|blocks| - 1]
  }

  /** What the attempt under way has made. */
  function InTheMaking(cp: Cp): seq<byte>
  {
    match cp
    case CpDecoding(made) => made
    case CpClosing(made) => made
    case _ => []
  }

  /** A decoded frame is taken by an attempt that has room for it. */
  predicate TakesDecoded(s: System, a: Step)
  {
    a.CpDecode? && s.cp.CpDecoding? && |s.cp.made| + |a.bytes| <= s.blockLen
  }

  /** The bytes of the decoded frames taken in a run, in step order. */
  function Decoded(s: System, steps: seq<Step>): seq<byte>
    requires Sound(s)
    decreases |steps|
  {
    if steps == [] then []
    else (if TakesDecoded(s, steps[0]) then steps[0].bytes else []) + Decoded(Do(s, steps[0]), steps[1..])
  }

  /** A frame taken is appended to what the attempt has made. */
  lemma DecodeTaken(s: System, bytes: seq<byte>)
    requires Sound(s) && TakesDecoded(s, CpDecode(bytes))
    ensures Do(s, CpDecode(bytes)).cp == CpDecoding(s.cp.made + bytes)
    ensures Do(s, CpDecode(bytes)).produced == s.produced
  {
  }

  function Flow(s: System): seq<byte> { Concat(s.produced) + InTheMaking(s.cp) }

  lemma ConcatSnoc(blocks: seq<seq<byte>>, last: seq<byte>)
    ensures Concat(blocks + [last]) == Concat(blocks) + last
  {
    assert (blocks + [last])[..|blocks|] == blocks;
  }

  lemma FlowStep(s: System, a: Step)
    requires Sound(s)
    ensures Flow(Do(s, a)) == Flow(s) + if TakesDecoded(s, a) then a.bytes else []
  {
    var t := Do(s, a);
    if TakesDecoded(s, a) {
      assert Flow(t) == Concat(s.produced) + (s.cp.made + a.bytes);
    } else if a.CpSetState? && s.cp.CpClosing? {
      ConcatSnoc(s.produced, s.cp.made);
      assert Flow(t) == Concat(s.produced) + s.cp.made + [];
    } else {
      assert Flow(t) == Flow(s) + [];
    }
  }

  /** In every run the blocks made, and what is in the making, are the decoded frames, none lost, none twice, in step
      order. */
  lemma {:induction false} FlowIsDecoded(s: System, steps: seq<Step>)
    requires Sound(s)
    ensures Flow(DoAll(s, steps)) == Flow(s) + Decoded(s, steps)
    decreases |steps|
  {
    hide Do, Flow, TakesDecoded;
    if steps == [] {
      assert Flow(s) + [] == Flow(s);
    } else {
      FlowStep(s, steps[0]);
      FlowIsDecoded(Do(s, steps[0]), steps[1..]);
    }
  }

  lemma {:induction false} ConcatSplit(a: seq<seq<byte>>, b: seq<seq<byte>>)
    ensures Concat(a + b) == Concat(a) + Concat(b)
    decreases |b|
  {
    if b == [] {
      assert a + b == a;
    } else {
      var n := |b| - 1;
      assert (a + b)[..|a| + n] == a + b[..n];
      ConcatSplit(a, b[..n]);
    }
  }

  /** From the start: behind the prefilled blocks. */
  lemma ProducedIsDecoded(base: nat, blocks: seq<seq<byte>>, blockLen: nat, steps: seq<Step>)
    requires 1 <= base < SLOT_CNT && |blocks| == SLOT_CNT
    requires forall i :: 0 <= i < SLOT_CNT ==> |blocks[i]| == blockLen
    ensures var s := DoAll(Init(base, blocks, blockLen), steps);
      var prefilled := SLOT_CNT - base;
      && blocks[base..] <= s.produced
      && Concat(s.produced[prefilled..]) + InTheMaking(s.cp) == Decoded(Init(base, blocks, blockLen), steps)
  {
    hide Do, Decoded;
    var s0 := Init(base, blocks, blockLen);
    var s, n := DoAll(s0, steps), SLOT_CNT - base;
    ProducedGrows(s0, steps);
    FlowIsDecoded(s0, steps);
    assert s.produced == s0.produced + s.produced[n..];
    ConcatSplit(s0.produced, s.produced[n..]);
    var made := Concat(s.produced[n..]) + InTheMaking(s.cp);
    assert Flow(s) == Concat(s0.produced) + made;
    assert Flow(s0) == Concat(s0.produced) + [];
    assert Concat(s0.produced) + made == Concat(s0.produced) + Decoded(s0, steps);
    assert (Concat(s0.produced) + made)[|Concat(s0.produced)|..] == made;
  }

  predicate IsMcuStep(a: Step) { a.McuLook? || a.McuCopyByte? || a.McuGiveBack? || a.McuNextIdx? }

  predicate McuSteps(steps: seq<Step>)
  {
    forall i :: 0 <= i < |steps| ==> IsMcuStep(steps[i])
  }

  predicate DecodeAndMcuSteps(steps: seq<Step>)
  {
    forall i :: 0 <= i < |steps| ==> steps[i].CpDecode? || IsMcuStep(steps[i])
  }

  function BytesOf(steps: seq<Step>): seq<byte>
  {
    if steps == [] then [] else (if steps[0].CpDecode? then steps[0].bytes else []) + BytesOf(steps[1..])
  }

  /** The MCU keeps its hands off an attempt. */
  lemma McuStepApart(s: System, a: Step)
    requires Inv(s) && IsMcuStep(a)
    ensures var t := Do(s, a);
      Inv(t) && t.cp == s.cp && t.cpIdx == s.cpIdx && t.produced == s.produced && t.blockLen == s.blockLen
  {
    StepKeeps(s, a);
  }

  lemma {:induction false} DecodingRun(s: System, steps: seq<Step>)
    requires Inv(s) && s.cp.CpDecoding? && DecodeAndMcuSteps(steps) && |s.cp.made| + |BytesOf(steps)| <= s.blockLen
    ensures var t := DoAll(s, steps);
      && Inv(t) && t.cp == CpDecoding(s.cp.made + BytesOf(steps)) && t.cpIdx == s.cpIdx
      && t.produced == s.produced && t.blockLen == s.blockLen
    decreases |steps|
  {
    assert Sound(s);
    hide Inv, Do;
    if steps == [] {
      assert s.cp.made + [] == s.cp.made;
    } else {
      var a, rest := steps[0], steps[1..];
      if a.CpDecode? {
        DecodeApart(s, a.bytes);
        assert s.cp.made + (a.bytes + BytesOf(rest)) == s.cp.made + a.bytes + BytesOf(rest);
      } else {
        McuStepApart(s, a);
        assert BytesOf(steps) == BytesOf(rest);
      }
      DecodingRun(Do(s, a), rest);
    }
  }

  lemma DecodeApart(s: System, bytes: seq<byte>)
    requires Inv(s) && TakesDecoded(s, CpDecode(bytes))
    ensures var t := Do(s, CpDecode(bytes));
      && Inv(t) && t.cp == CpDecoding(s.cp.made + bytes) && t.cpIdx == s.cpIdx
      && t.produced == s.produced && t.blockLen == s.blockLen
  {
    StepKeeps(s, CpDecode(bytes));
  }

  lemma {:induction false} McuRun(s: System, steps: seq<Step>)
    requires Inv(s) && McuSteps(steps)
    ensures var t := DoAll(s, steps);
      && Inv(t) && t.cp == s.cp && t.cpIdx == s.cpIdx && t.produced == s.produced && t.blockLen == s.blockLen
    decreases |steps|
  {
    assert Sound(s);
    hide Inv, Do;
    if steps != [] {
      McuStepApart(s, steps[0]);
      McuRun(Do(s, steps[0]), steps[1..]);
    }
  }

  /** An attempt can always begin when its slot is the coprocessor's. */
  lemma AttemptBegins(s: System)
    requires Inv(s) && s.cp == CpRest && |s.produced| < |s.released| + SLOT_CNT
    ensures var t := Do(s, CpBegin);
      Inv(t) && t.cp == CpDecoding([]) && t.cpIdx == s.cpIdx && t.produced == s.produced && t.blockLen == s.blockLen
  {
    StepKeeps(s, CpBegin);
    assert OwnSlot(s, At(s, |s.produced|));
  }

  /** A load that fails at zero output leaves the slot WORKING, and the next attempt takes it up again. */
  lemma LoadFailureRetries(s: System)
    requires Inv(s) && s.cp == CpDecoding([]) && s.blockLen > 0
    ensures Do(s, CpLoadFails) == s.(cp := CpRest) && Do(Do(s, CpLoadFails), CpBegin) == s
  {
    assert OwnSlot(s, At(s, |s.produced|));
  }

  /** The end of an attempt: the slot is closed with what was made. */
  lemma AttemptCloses(s: System)
    requires Inv(s) && s.cp.CpClosing?
    ensures var t := Do(s, CpSetState);
      && t.produced == s.produced + [s.cp.made] && t.cp == CpAdvancing
      && (|s.cp.made| == s.blockLen ==> t.slots[s.cpIdx] == Slot(Done, s.blockLen, s.cp.made))
      && (|s.cp.made| != s.blockLen ==> t.slots[s.cpIdx].state == Failed)
  {
    assert OwnSlot(s, At(s, |s.produced|));
  }

  /** One attempt, with steps of the MCU anywhere in it: when the decoded frames add up to a block, the slot is DONE and
      holds them, in order. */
  lemma AttemptFillsSlot(s: System, decoding: seq<Step>, waiting: seq<Step>)
    requires Inv(s) && s.cp == CpRest && |s.produced| < |s.released| + SLOT_CNT
    requires DecodeAndMcuSteps(decoding) && McuSteps(waiting) && |BytesOf(decoding)| == s.blockLen
    ensures var t := DoAll(s, [CpBegin] + (decoding + ([CpFinish] + (waiting + [CpSetState]))));
      && t.slots[s.cpIdx] == Slot(Done, s.blockLen, BytesOf(decoding))
      && t.produced == s.produced + [BytesOf(decoding)]
  {
    assert Sound(s);
    hide Inv, Do, DoAll;
    AttemptBegins(s);
    var s1 := Do(s, CpBegin);
    DoAllFirst(s, CpBegin, decoding + ([CpFinish] + (waiting + [CpSetState])));
    DoAllSplit(s1, decoding, [CpFinish] + (waiting + [CpSetState]));
    DecodingRun(s1, decoding);
    assert [] + BytesOf(decoding) == BytesOf(decoding);
    var s2 := DoAll(s1, decoding);
    DoAllFirst(s2, CpFinish, waiting + [CpSetState]);
    FinishApart(s2);
    var s3 := Do(s2, CpFinish);
    DoAllSplit(s3, waiting, [CpSetState]);
    McuRun(s3, waiting);
    var s4 := DoAll(s3, waiting);
    OneStep(s4, CpSetState);
    AttemptCloses(s4);
  }

  lemma FinishApart(s: System)
    requires Inv(s) && s.cp.CpDecoding?
    ensures var t := Do(s, CpFinish);
      && Inv(t) && t.cp == CpClosing(s.cp.made) && t.cpIdx == s.cpIdx
      && t.produced == s.produced && t.blockLen == s.blockLen
  {
    StepKeeps(s, CpFinish);
  }

  lemma OneStep(s: System, a: Step)
    requires Sound(s)
    ensures DoAll(s, [a]) == Do(s, a)
  {
    assert [a] == [a] + [];
    DoAllFirst(s, a, []);
  }

  // ---------- what the MCU gets ----------

  function CopyBytes(n: nat): seq<Step>
  {
    if n == 0 then [] else [McuCopyByte] + CopyBytes(n - 1)
  }

  lemma {:induction false} CopyRun(s: System, n: nat)
    requires Inv(s) && s.mcu.McuCopying? && |s.mcu.got| + n == s.blockLen
    ensures var t := DoAll(s, CopyBytes(n));
      && Inv(t) && t == s.(mcu := t.mcu) && t.mcu.McuCopying? && |t.mcu.got| == s.blockLen
    decreases n
  {
    if n > 0 {
      StepKeeps(s, McuCopyByte);
      var t := Do(s, McuCopyByte);
      CopyRun(t, n - 1);
      assert CopyBytes(n)[1..] == CopyBytes(n - 1);
    }
  }

  /** One undisturbed call of mcu_decode_a2dp_process. */
  function McuCall(copied: nat): seq<Step>
  {
    [McuLook] + (CopyBytes(copied) + ([McuCopyByte] + [McuGiveBack]))
  }

  /** A waiting block is handed out whole by one undisturbed call, and its slot is given back. */
  lemma WaitingBlockIsPlayed(s: System)
    requires Inv(s) && s.mcu == McuRest && |s.released| < |s.produced| && |s.produced[|s.released|]| == s.blockLen
    ensures var t, r := DoAll(s, McuCall(s.blockLen)), |s.released|;
      t.released == s.released + [Copied(s.produced[r])] && t.slots[s.mcuIdx].state == Idle && t.mcu == McuAdvancing
  {
    hide DoAll;
    var r := |s.released|;
    assert Full(s, r);
    StepKeeps(s, McuLook);
    var s1 := Do(s, McuLook);
    assert s1.mcu == McuCopying([]);
    var rest := [McuCopyByte] + [McuGiveBack];
    DoAllFirst(s, McuLook, CopyBytes(s.blockLen) + rest);
    DoAllSplit(s1, CopyBytes(s.blockLen), rest);
    CopyRun(s1, s.blockLen);
    var s2 := DoAll(s1, CopyBytes(s.blockLen));
    DoAllFirst(s2, McuCopyByte, [McuGiveBack]);
    LastLook(s2);
    OneStep(Do(s2, McuCopyByte), McuGiveBack);
  }

  lemma LastLook(s: System)
    requires Inv(s) && s.mcu.McuCopying? && |s.mcu.got| == s.blockLen
    ensures var t := Do(Do(s, McuCopyByte), McuGiveBack);
      && |s.released| < |s.produced| && t.released == s.released + [Copied(s.produced[|s.released|])]
      && t.slots[s.mcuIdx].state == Idle && t.mcu == McuAdvancing
  {
    StepKeeps(s, McuCopyByte);
    assert Full(s, |s.released|);
    assert s.produced[|s.released|][..|s.mcu.got|] == s.produced[|s.released|];
  }

  /** A failed block is given back uncopied. */
  lemma FailedBlockIsSkipped(s: System)
    requires Inv(s) && s.mcu == McuRest && |s.released| < |s.produced| && |s.produced[|s.released|]| != s.blockLen
    ensures var t := Do(Do(s, McuLook), McuGiveBack);
      t.released == s.released + [NotDone] && t.slots[s.mcuIdx].state == Idle && t.mcu == McuAdvancing
  {
    assert Full(s, |s.released|);
  }

  /** One-byte blocks, one of them prefilled: the state once the MCU has played it. */
  function Drained(b: seq<byte>): System
    requires |b| == 1
  {
    var idle := Slot(Idle, 0, b);
    System([idle, idle, Slot(Idle, 1, b)], 1, 2, 0, 0, CpRest, McuRest, [b], [Copied(b)])
  }

  /** The steps by which the MCU plays the prefilled block. */
  const DRAIN: seq<Step> := [McuLook, McuCopyByte, McuCopyByte, McuGiveBack, McuNextIdx]

  lemma {:induction false} DoAllSplit(s: System, first: seq<Step>, second: seq<Step>)
    requires Sound(s)
    ensures DoAll(s, first + second) == DoAll(DoAll(s, first), second)
    decreases |first|
  {
    if first == [] {
      assert first + second == second;
    } else {
      assert (first + second)[1..] == first[1..] + second;
      DoAllSplit(Do(s, first[0]), first[1..], second);
    }
  }

  lemma DoAllFirst(s: System, a: Step, rest: seq<Step>)
    requires Sound(s)
    ensures DoAll(s, [a] + rest) == DoAll(Do(s, a), rest)
  {
    assert ([a] + rest)[1..] == rest;
  }

  lemma DoFive(s: System, a: Step, b: Step, c: Step, d: Step, e: Step)
    requires Sound(s)
    ensures DoAll(s, [a, b, c, d, e]) == Do(Do(Do(Do(Do(s, a), b), c), d), e)
  {
    hide Do;
    var s2 := Do(Do(s, a), b);
    assert [a, b, c, d, e] == [a] + ([b] + [c, d, e]) && [c, d, e] == [c] + ([d] + ([e] + []));
    DoAllFirst(s, a, [b] + [c, d, e]);
    DoAllFirst(Do(s, a), b, [c, d, e]);
    DoAllFirst(s2, c, [d] + ([e] + []));
    DoAllFirst(Do(s2, c), d, [e] + []);
    DoAllFirst(Do(Do(s2, c), d), e, []);
  }

  lemma DrainedIsReached(b: seq<byte>)
    requires |b| == 1
    ensures DoAll(Init(2, [b, b, b], 1), DRAIN) == Drained(b)
  {
    var s0 := Init(2, [b, b, b], 1);
    DoFive(s0, McuLook, McuCopyByte, McuCopyByte, McuGiveBack, McuNextIdx);
    var idle, full := Slot(Idle, 0, b), Slot(Done, 1, b);
    assert s0.slots == [idle, idle, full] && s0.produced == [b];
    var s2 := Do(Do(s0, McuLook), McuCopyByte);
    assert s2 == s0.(mcu := McuCopying(b)) by { assert [] + [b[0]] == b; }
    assert Do(Do(Do(s2, McuCopyByte), McuGiveBack), McuNextIdx) == Drained(b);
  }

  /** The steps by which the coprocessor completes a block between the MCU's two looks. */
  function Race(x: byte): seq<Step>
  {
    [McuLook, CpDecode([x]), CpFinish, CpSetState, McuGiveBack]
  }

  lemma RaceLoses(b: seq<byte>, x: byte)
    requires |b| == 1
    ensures var s := DoAll(Do(Drained(b), CpBegin), Race(x));
      s.released == [Copied(b), NotDone] && s.produced == [b, [x]] && s.blockLen == 1
  {
    var s0 := Do(Drained(b), CpBegin);
    DoFive(s0, McuLook, CpDecode([x]), CpFinish, CpSetState, McuGiveBack);
    var s1 := Do(s0, McuLook);
    assert s1.mcu == McuLooked(NotDone) && s1.cp == CpDecoding([]) && s1.slots[0].state == Working;
    assert [] + [x] == [x];
  }

  /** A run in which a block is lost: the coprocessor closes slot 0 after the MCU saw it WORKING. */
  lemma MissCanHappen(b: seq<byte>, x: byte)
    requires |b| == 1
    ensures var s := DoAll(Init(2, [b, b, b], 1), DRAIN + ([CpBegin] + Race(x)));
      s.released == [Copied(b), NotDone] && s.produced == [b, [x]] && BlockLost(s)
  {
    hide Do, DoAll;
    var s0 := Init(2, [b, b, b], 1);
    var s := DoAll(s0, DRAIN + ([CpBegin] + Race(x)));
    DoAllSplit(s0, DRAIN, [CpBegin] + Race(x));
    DrainedIsReached(b);
    DoAllFirst(Drained(b), CpBegin, Race(x));
    RaceLoses(b, x);
    assert Missed(s.released[1], s.produced[1], s.blockLen);
  }

  // ---------- where an attempt may write ----------

  /** cp_a2dp_main: how much of the slot is still to come, given what the slot says. */
  function Remainder(state: State, outLen: nat, blockLen: nat): nat
  {
    if state == Working && outLen < blockLen then blockLen - outLen else blockLen
  }

  /** The attempt starts behind what is there, but the decoder is always given room for a whole block: it is
      confined to its own slot exactly when it starts at zero output. */
  lemma AttemptStaysInSlot(idx: nat, state: State, outLen: nat, blockLen: nat)
    requires idx < SLOT_CNT && blockLen > 0
    ensures var start := blockLen * idx + blockLen - Remainder(state, outLen, blockLen);
      start + blockLen <= blockLen * idx + blockLen <==> state != Working || outLen == 0 || outLen >= blockLen
  {
  }

  /** cp_decode_a2dp_begin and cp_decode_a2dp_end on a slot's state and length: an attempt that made `made` bytes and
      then found nothing to load (`retry`) leaves the slot WORKING. */
  function Begun(state: State, outLen: nat): (State, nat)
  {
    if state == Idle then (Working, 0) else (state, outLen)
  }

  function Ended(state: State, outLen: nat, made: nat, blockLen: nat, retry: bool): (State, nat)
  {
    (if retry then state else if made == blockLen then Done else Failed, outLen + made)
  }

  /** Such a slot is reached in one attempt: when the load fails after part of a block, and only then, the next attempt
      on the slot is not confined to it. */
  lemma RetryLeavesSlotIff(idx: nat, outLen: nat, made: nat, blockLen: nat)
    requires idx < SLOT_CNT && made <= blockLen && blockLen > 0
    ensures var (begun, len) := Begun(Idle, outLen);
      var (state, after) := Ended(begun, len, made, blockLen, true);
      var start := blockLen * idx + blockLen - Remainder(state, after, blockLen);
      start + blockLen <= blockLen * idx + blockLen <==> made == 0 || made == blockLen
  {
    AttemptStaysInSlot(idx, Working, made, blockLen);
  }
}
