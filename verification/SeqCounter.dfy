/**
 The loss detector of apps/audioplayers/bt_sco_codec_xxxx.c: a free-running sequence counter, stepped once per slot
 whether the slot is good or not.
 */
module SeqCounter {
  import opened Ring
  import opened MsbcPacket
  import PacketLoss

  const INVALID: nat := 0xff
  const UINT32: nat := 0x1_0000_0000

  /** get_packet_index: which of the four phases a sequence byte is. */
  function PhaseOf(b: byte): (i: nat)
    ensures i < 4 || i == INVALID
    ensures i < 4 ==> SeqByte(i) == b
  {
    if b == 0x08 then 0 else if b == 0x38 then 1 else if b == 0xc8 then 2 else if b == 0xf8 then 3 else INVALID
  }

  lemma PhaseOfSeqByte(n: nat)
    ensures PhaseOf(SeqByte(n)) == n % 4
  {
  }

  datatype Outcome = Good | BtMute | Parser | Seq

  /** What one packet is judged, and the counter before the step all slots share. */
  function Judge(idx: nat, p: Packet): (r: (Outcome, nat))
  {
    if PacketLoss.MutedIn(p, 0, 59) then (BtMute, idx)
    else if p[0] != 0x01 || p[59] != 0x00 then (Parser, idx)
    else
      var index := PhaseOf(p[1]);
      if idx == INVALID then (if index == INVALID then (Seq, idx) else (Good, index))
      else if idx != index then (Seq, if index < 4 then index else idx)
      else (Good, idx)
  }

  function Tick(idx: nat): nat
  {
    if idx == INVALID then idx else (idx + 1) % 4
  }

  /** The bytes alone: muted, without the encoder's frame, with some phase, or none. */
  lemma JudgedByBytes(idx: nat, p: Packet)
    requires ValidIndex(idx)
    ensures var (o, at) := Judge(idx, p);
      var muted := forall i :: 0 <= i < 59 ==> p[i] == 0x55;
      var framed := p[0] == 0x01 && p[59] == 0x00;
      && (o == BtMute <==> muted)
      && (o == Parser <==> !muted && !framed)
      && (o == Good <==>
            !muted && framed && exists k :: 0 <= k < 4 && p[1] == SeqByte(k) && (idx == INVALID || idx == k))
      && at == if !muted && framed && PhaseOf(p[1]) < 4 then PhaseOf(p[1]) else idx
  {
    if PhaseOf(p[1]) < 4 {
      assert p[1] == SeqByte(PhaseOf(p[1]));
    }
    forall k | 0 <= k < 4 && p[1] == SeqByte(k) ensures PhaseOf(p[1]) == k { PhaseOfSeqByte(k); }
  }

  function Next(idx: nat, p: Packet): (nat, Outcome)
  {
    var (o, at) := Judge(idx, p);
    (Tick(at), o)
  }

  predicate ValidIndex(idx: nat) { idx < 4 || idx == INVALID }

  class Decoder {
    var seqIndex: nat
    var total: nat
    var btMute: nat
    var parser: nat
    var seqErrors: nat

    ghost predicate Valid()
      reads this
    {
      ValidIndex(seqIndex)
    }

    /** bt_sco_codec_xxxx_init */
    constructor ()
      ensures Valid() && seqIndex == INVALID && total == btMute == parser == seqErrors == 0
    {
      seqIndex, total, btMute, parser, seqErrors := INVALID, 0, 0, 0, 0;
    }

    /** The lookup loop of get_packet_index. */
    static method GetPacketIndex(b: byte) returns (index: nat)
      ensures index == PhaseOf(b)
    {
      index := 0;
      while index < 4 && SeqByte(index) != b
        invariant index <= 4 && forall k :: 0 <= k < index ==> SeqByte(k) != b
      {
        index := index + 1;
      }
      if index == 4 {
        assert SeqByte(0) != b && SeqByte(1) != b && SeqByte(2) != b && SeqByte(3) != b;
        index := INVALID;
      }
    }

    /** One turn of bt_sco_codec_xxxx_decoder: whether the packet is concealed, and the counters. */
    method DecodePacket(p: Packet) returns (conceal: bool)
      requires Valid()
      modifies this
      ensures Valid() && seqIndex == Next(old(seqIndex), p).0
      ensures conceal == (Next(old(seqIndex), p).1 != Good)
      ensures total == (old(total) + 1) % UINT32
      ensures btMute == if Next(old(seqIndex), p).1 == BtMute then (old(btMute) + 1) % UINT32 else old(btMute)
      ensures parser == if Next(old(seqIndex), p).1 == Parser then (old(parser) + 1) % UINT32 else old(parser)
      ensures seqErrors == if Next(old(seqIndex), p).1 == Seq then (old(seqErrors) + 1) % UINT32 else old(seqErrors)
    {
      var mute := PacketLoss.Detector.AllMuted(p, 0, SCO_PACKET_SIZE - 1);
      if mute {
        btMute := (btMute + 1) % UINT32;
        conceal := true;
      } else if p[0] != 0x01 || p[SCO_PACKET_SIZE - 1] != 0x00 {
        parser := (parser + 1) % UINT32;
        conceal := true;
      } else {
        var index := GetPacketIndex(p[1]);
        if seqIndex == INVALID {
          if index == INVALID {
            seqErrors := (seqErrors + 1) % UINT32;
            conceal := true;
          } else {
            seqIndex := index;
            conceal := false;
          }
        } else if seqIndex != index {
          seqErrors := (seqErrors + 1) % UINT32;
          if index < 4 {
            seqIndex := index;
          }
          conceal := true;
        } else {
          conceal := false;
        }
      }
      total := (total + 1) % UINT32;
      if seqIndex != INVALID {
        seqIndex := (seqIndex + 1) % 4;
      }
    }
  }

  // ---------- runs of slots ----------

  /** Slots as the encoder or the controller made them. */
  type CleanSlot = s: Slot | !s.Damaged? witness Muted

  /** The verdicts on a run of packets: true where one is concealed. */
  function Conceals(idx: nat, packets: seq<Packet>): (cs: seq<bool>)
    ensures |cs| == |packets|
    decreases |packets|
  {
    if packets == [] then []
    else [Next(idx, packets[0]).1 != Good] + Conceals(Next(idx, packets[0]).0, packets[1..])
  }

  function After(idx: nat, packets: seq<Packet>): nat
    decreases |packets|
  {
    if packets == [] then idx else After(Next(idx, packets[0]).0, packets[1..])
  }

  /** The number of the slot that would come next. */
  function Upcoming(n: nat, slots: seq<CleanSlot>): nat { n + |slots| }

  /** The counter awaits slot `n`, or any. */
  predicate InStep(idx: nat, n: nat)
  {
    idx == INVALID || idx == n % 4
  }

  /** One slot: a muted one is concealed and the counter runs on; an intact one is concealed exactly when the counter
      is out of step, and puts it in step. */
  lemma SlotNext(idx: nat, n: nat, slot: CleanSlot)
    requires ValidIndex(idx)
    ensures var (idx', o) := Next(idx, SlotBytes(n, slot));
      && ValidIndex(idx')
      && (slot.Muted? ==> o == BtMute && idx' == Tick(idx))
      && (slot.Intact? ==> idx' == (n + 1) % 4 && (o == Good <==> InStep(idx, n)) && (o != Good ==> o == Seq))
  {
    var p := SlotBytes(n, slot);
    if slot.Intact? {
      assert p[0] == 0x01 && p[1] == SeqByte(n) && p[59] == 0;
      PhaseOfSeqByte(n);
    }
  }

  lemma TickKeeps(idx: nat, n: nat)
    requires ValidIndex(idx)
    ensures InStep(Tick(idx), n + 1) <==> InStep(idx, n)
  {
  }

  /** The index of the first intact slot. */
  function FirstIntact(slots: seq<CleanSlot>): (k: nat)
    ensures k <= |slots| && (k < |slots| ==> slots[k].Intact?) && forall j :: 0 <= j < k ==> slots[j].Muted?
  {
    if slots == [] || slots[0].Intact? then 0 else 1 + FirstIntact(slots[1..])
  }

  /** What a run from any state conceals: the muted slots, and the first intact one when the counter starts out of
      step; after it the counter is in step. */
  function Expected(inStep: bool, slots: seq<CleanSlot>): (cs: seq<bool>)
    ensures |cs| == |slots|
    ensures forall k :: 0 <= k < |cs| ==> cs[k] == (slots[k].Muted? || (!inStep && k == FirstIntact(slots)))
    decreases |slots|
  {
    if slots == [] then []
    else [slots[0].Muted? || !inStep] + Expected(inStep || slots[0].Intact?, slots[1..])
  }

  lemma {:induction false} ConcealsExpected(idx: nat, n: nat, slots: seq<CleanSlot>)
    requires ValidIndex(idx)
    ensures Conceals(idx, PacketsOf(n, slots)) == Expected(InStep(idx, n), slots)
    ensures ValidIndex(After(idx, PacketsOf(n, slots)))
    ensures InStep(After(idx, PacketsOf(n, slots)), Upcoming(n, slots))
        <==> InStep(idx, n) || FirstIntact(slots) < |slots|
    decreases |slots|
  {
    if slots != [] {
      SlotNext(idx, n, slots[0]);
      TickKeeps(idx, n);
      var p := SlotBytes(n, slots[0]);
      ConcealsExpected(Next(idx, p).0, n + 1, slots[1..]);
      assert PacketsOf(n, slots)[1..] == PacketsOf(n + 1, slots[1..]);
    }
  }

  /** From power-up, or in step, exactly the muted slots are concealed. */
  lemma ConcealsExactlyMuted(idx: nat, n: nat, slots: seq<CleanSlot>)
    requires ValidIndex(idx) && InStep(idx, n)
    ensures forall k :: 0 <= k < |slots| ==> Conceals(idx, PacketsOf(n, slots))[k] == slots[k].Muted?
  {
    ConcealsExpected(idx, n, slots);
  }

  // ---------- insertions and deletions ----------

  function Intacts(cs: seq<bool>, slots: seq<CleanSlot>): (c: nat)
    requires |cs| == |slots|
    decreases |slots|
  {
    if slots == [] then 0 else (if cs[0] && slots[0].Intact? then 1 else 0) + Intacts(cs[1..], slots[1..])
  }

  /** How many intact packets a run conceals: one if it starts out of step and has an intact slot, none otherwise. */
  lemma {:induction false} ConcealedIntacts(inStep: bool, slots: seq<CleanSlot>)
    ensures Intacts(Expected(inStep, slots), slots) == if !inStep && FirstIntact(slots) < |slots| then 1 else 0
    decreases |slots|
  {
    if slots != [] {
      ConcealedIntacts(inStep || slots[0].Intact?, slots[1..]);
    }
  }

  /** A counter in step with slot `a` meets slot `m` instead. */
  lemma JumpStep(idx: nat, a: nat, m: nat)
    requires ValidIndex(idx) && idx != INVALID && InStep(idx, a)
    ensures InStep(idx, m) <==> (m - a) % 4 == 0
  {
  }

  /** A run of slots numbered from `n`, then one numbered from `m`: slots were lost or inserted in between. The second
      run conceals exactly one intact packet, its first, if the net shift is not 0 modulo 4, and none if it is; then
      the counter is in step again. The counter must have seen an intact packet before the jump. */
  lemma JumpConcealsOne(idx: nat, n: nat, before: seq<CleanSlot>, m: nat, behind: seq<CleanSlot>)
    requires ValidIndex(idx) && FirstIntact(before) < |before| && FirstIntact(behind) < |behind|
    ensures var mid, shifted := After(idx, PacketsOf(n, before)), (m - Upcoming(n, before)) % 4 != 0;
      var cs := Conceals(mid, PacketsOf(m, behind));
      && After(mid, PacketsOf(m, behind)) == Upcoming(m, behind) % 4
      && cs == Expected(!shifted, behind)
      && Intacts(cs, behind) == if shifted then 1 else 0
  {
    var mid := After(idx, PacketsOf(n, before));
    ConcealsExpected(idx, n, before);
    IntactSeen(idx, n, before);
    JumpStep(mid, Upcoming(n, before), m);
    SecondRun(mid, m, behind);
  }

  lemma SecondRun(mid: nat, m: nat, behind: seq<CleanSlot>)
    requires ValidIndex(mid) && FirstIntact(behind) < |behind|
    ensures Conceals(mid, PacketsOf(m, behind)) == Expected(InStep(mid, m), behind)
    ensures After(mid, PacketsOf(m, behind)) == Upcoming(m, behind) % 4
    ensures Intacts(Conceals(mid, PacketsOf(m, behind)), behind) == if InStep(mid, m) then 0 else 1
  {
    ConcealsExpected(mid, m, behind);
    AfterRun(mid, m, behind);
    ConcealedIntacts(InStep(mid, m), behind);
  }

  lemma AfterRun(mid: nat, m: nat, behind: seq<CleanSlot>)
    requires ValidIndex(mid) && FirstIntact(behind) < |behind|
    ensures After(mid, PacketsOf(m, behind)) == Upcoming(m, behind) % 4
  {
    ConcealsExpected(mid, m, behind);
    IntactSeen(mid, m, behind);
  }

  lemma {:induction false} IntactSeen(idx: nat, n: nat, slots: seq<CleanSlot>)
    requires ValidIndex(idx) && (idx != INVALID || FirstIntact(slots) < |slots|)
    ensures After(idx, PacketsOf(n, slots)) != INVALID
    decreases |slots|
  {
    if slots != [] {
      SlotNext(idx, n, slots[0]);
      var p := SlotBytes(n, slots[0]);
      IntactSeen(Next(idx, p).0, n + 1, slots[1..]);
    }
  }

  // ---------- the two detectors ----------

  /** Whatever the transmitter's offsets, on a run of the encoder's slots the counter conceals exactly the packets that
      the packet loss detector does not pass. */
  lemma DetectorsAgree(crc: PacketLoss.Crc, ins: seq<PacketLoss.Input>, n: nat, slots: seq<CleanSlot>)
    requires PacketLoss.ReceivedAll(crc, ins, n, slots)
    requires forall k :: 0 <= k < |ins| ==> ins[k].packet == PacketsOf(n, slots)[k]
    ensures var cs := Conceals(INVALID, PacketsOf(n, slots));
      var kinds := PacketLoss.DetectAll(crc, PacketLoss.START, ins).1;
      forall k :: 0 <= k < |ins| ==> (cs[k] <==> kinds[k] != PacketLoss.Pass)
  {
    forall k | 0 <= k < |ins| && slots[k].Intact? ensures ins[k].packet[59] == 0 {
      PacketAt(n, slots, k);
    }
    PacketLoss.PassesExactlyIntact(crc, ins, n, slots);
    ConcealsExactlyMuted(INVALID, n, slots);
  }
}
