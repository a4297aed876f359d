/**
 The packet loss detector of apps/audioplayers/plc_utils.c. The CRC table is not part of this model:
 `crc(fcs, b)` stands for one table step.
 */
module PacketLoss {
  import opened Ring
  import opened MsbcPacket

  datatype Kind =
    | Pass | ControllerMute | HeaderError | CrcError | PadError | DataMissing
    | SequenceDiscontinue | BleConflict | DecoderError | TransmitterOffset

  const KINDS: nat := 10
  const NO_SEQ: nat := 0xff
  const UINT32: nat := 0x1_0000_0000

  type Crc = (byte, byte) -> byte

  // ---------- the checks of one packet ----------

  /** All bytes from `lo` up to `hi` are the mute pattern. */
  predicate MutedIn(p: seq<byte>, lo: nat, hi: nat)
    requires hi <= |p|
  {
    forall i :: lo <= i < hi ==> p[i] == MUTE_PATTERN
  }

  /** The packet straddles a muted transmission: of a packet cut `index` bytes early, the front or the tail. */
  predicate HalfMuted(p: Packet, index: nat)
    requires index < SCO_PACKET_SIZE
  {
    && index > 0
    && if p[0] == MUTE_PATTERN then MutedIn(p, 0, SCO_PACKET_SIZE - index)
       else p[59] == MUTE_PATTERN && MutedIn(p, SCO_PACKET_SIZE - index, SCO_PACKET_SIZE)
  }

  datatype Parsed = BadHeader | BadCrc | Number(sn: nat)

  /** The frame check sequence over the bytes an mSBC frame protects. */
  function Fcs(crc: Crc, p: Packet): byte
  {
    crc(crc(crc(crc(crc(crc(0x0f, p[3]), p[4]), p[6]), p[7]), p[8]), p[9])
  }

  /** As far as the bytes before byte `to`. */
  function FcsTo(crc: Crc, p: Packet, to: nat): byte
    requires 6 <= to <= 10
  {
    if to == 6 then crc(crc(0x0f, p[3]), p[4]) else crc(FcsTo(crc, p, to - 1), p[to - 1])
  }

  /** sco_parse_synchronization_header. */
  function Parse(crc: Crc, p: Packet): (r: Parsed)
    ensures r.Number? ==> r.sn < 4
  {
    var sn1, sn2 := (p[1] / 16) % 4, p[1] / 64;
    if p[0] != 0x01 || p[1] % 16 != 0x08 || p[2] != 0xad || (sn1 != 0 && sn1 != 3)
        || (sn2 != 0 && sn2 != 3) then BadHeader
    else if p[3] != 0 || p[4] != 0 || p[5] != Fcs(crc, p) then BadCrc
    else Number((sn1 % 2) as nat + 2 * ((sn2 / 2) % 2) as nat)
  }

  /** A packet is taken for number `k` exactly when it has the header, the sequence byte of phase `k`, an mSBC sync byte
      with two zero bytes, and the right check sequence. */
  lemma ParseIff(crc: Crc, p: Packet, k: nat)
    requires k < 4
    ensures Parse(crc, p) == Number(k) <==>
      p[0] == 0x01 && p[1] == SeqByte(k) && p[2] == 0xad && p[3] == 0 && p[4] == 0 && p[5] == Fcs(crc, p)
  {
    assert p[1] == 64 * (p[1] / 64) + 16 * ((p[1] / 16) % 4) + p[1] % 16;
  }

  // ---------- the state machine ----------

  /** The two packets before this one, the older first; the flags of the last two conflict checks, the newer first. */
  datatype State = State(lastSeq: nat, older: Packet, newer: Packet, flag0: bool, flag1: bool)

  const START: State := State(NO_SEQ, Fill(SCO_PACKET_SIZE, 0), Fill(SCO_PACKET_SIZE, 0), false, false)

  function Next(sn: nat): nat { if sn + 1 == 4 then 0 else sn + 1 }

  /** What the sequence check makes of a good header, and the number remembered. */
  function Sequence(lastSeq: nat, sn: nat): (Kind, nat)
  {
    if lastSeq == NO_SEQ || sn == Next(lastSeq) then (Pass, sn) else (SequenceDiscontinue, NO_SEQ)
  }

  function Conflicts(st: State, p: Packet): bool
  {
    !st.flag1 && st.older[..59] == p[..59]
  }

  /** packet_loss_detection_process without its histogram. */
  function Detect(crc: Crc, st: State, p: Packet, index: nat): (State, Kind)
    requires index < SCO_PACKET_SIZE
  {
    var moved := st.(older := st.newer, newer := p);
    var conflict := Conflicts(st, p);
    if MutedIn(p, 0, 59) then (moved.(lastSeq := NO_SEQ), ControllerMute)
    else if HalfMuted(p, index) then (moved.(lastSeq := NO_SEQ), TransmitterOffset)
    else
      var flagged := moved.(flag0 := conflict, flag1 := st.flag0);
      if conflict then (flagged.(lastSeq := NO_SEQ), BleConflict)
      else
        match Parse(crc, p)
        case BadHeader => (flagged.(lastSeq := NO_SEQ), HeaderError)
        case BadCrc => (flagged.(lastSeq := NO_SEQ), CrcError)
        case Number(sn) =>
          var (kind, seqNum) := Sequence(st.lastSeq, sn);
          (flagged.(lastSeq := seqNum), kind)
  }

  // ---------- the histogram ----------

  function Bin(k: Kind): (i: nat)
    ensures i < KINDS
  {
    match k
    case Pass => 0 case ControllerMute => 1 case HeaderError => 2 case CrcError => 3 case PadError => 4
    case DataMissing => 5 case SequenceDiscontinue => 6 case BleConflict => 7 case DecoderError => 8
    case TransmitterOffset => 9
  }

  /** packet_loss_detection_update_histogram on 32-bit counters: a decoder error takes back the pass it followed. */
  function Bump(h: seq<nat>, k: Kind): (r: seq<nat>)
    requires |h| == KINDS
    ensures |r| == KINDS
  {
    var less := if k == DecoderError then h[0 := (h[0] - 1) % UINT32] else h;
    less[Bin(k) := (less[Bin(k)] + 1) % UINT32]
  }

  const ZEROS: seq<nat> := [0, 0, 0, 0, 0, 0, 0, 0, 0, 0]

  class Detector {
    var lastSeq: nat
    var older: Packet
    var newer: Packet
    var flag0: bool
    var flag1: bool
    var hist: array<nat>

    ghost predicate Valid()
      reads this
    {
      hist.Length == KINDS
    }

    ghost function Model(): State
      reads this
    {
      State(lastSeq, older, newer, flag0, flag1)
    }

    /** packet_loss_detection_init */
    constructor ()
      ensures Valid() && fresh(hist) && Model() == START && hist[..] == ZEROS
    {
      lastSeq, older, newer := NO_SEQ, Fill(SCO_PACKET_SIZE, 0), Fill(SCO_PACKET_SIZE, 0);
      flag0, flag1 := false, false;
      hist := new nat[KINDS](_ => 0);
    }

    /** The byte loop the pattern checks share. */
    static method AllMuted(p: seq<byte>, lo: nat, hi: nat) returns (all: bool)
      requires lo <= hi <= |p|
      ensures all == MutedIn(p, lo, hi)
    {
      var i := lo;
      while i < hi && p[i] == MUTE_PATTERN
        invariant lo <= i <= hi && MutedIn(p, lo, i)
      {
        i := i + 1;
      }
      all := i == hi;
    }

    /** msbc_check_transmitter_offset */
    static method CheckTransmitterOffset(p: Packet, index: nat) returns (half: bool)
      requires index < SCO_PACKET_SIZE
      ensures half == HalfMuted(p, index)
    {
      if index == 0 {
        return false;
      }
      if p[0] == MUTE_PATTERN {
        half := AllMuted(p, 0, SCO_PACKET_SIZE - index);
      } else if p[SCO_PACKET_SIZE - 1] == MUTE_PATTERN {
        half := AllMuted(p, SCO_PACKET_SIZE - index, SCO_PACKET_SIZE);
      } else {
        half := false;
      }
    }

    /** update_ble_sco_conflict */
    method UpdateConflict(p: Packet) returns (conflict: bool)
      modifies this`older, this`newer
      ensures conflict == Conflicts(old(Model()), p)
      ensures Model() == old(Model()).(older := old(newer), newer := p)
    {
      var i := 0;
      while i < SCO_PACKET_SIZE - 1 && older[i] == p[i]
        invariant i <= SCO_PACKET_SIZE - 1 && older[..i] == p[..i]
      {
        i := i + 1;
      }
      if i < SCO_PACKET_SIZE - 1 {
        assert older[..59][i] != p[..59][i];
      }
      conflict := !flag1 && i == SCO_PACKET_SIZE - 1;
      older, newer := newer, p;
    }

    /** packet_loss_detection_update_histogram */
    method UpdateHistogram(kind: Kind)
      requires Valid()
      modifies hist
      ensures hist[..] == Bump(old(hist[..]), kind)
    {
      if kind == DecoderError {
        hist[0] := (hist[0] - 1) % UINT32;
      }
      hist[Bin(kind)] := (hist[Bin(kind)] + 1) % UINT32;
    }

    /** sco_parse_synchronization_header, with its loop over eight half bytes from bit 24 on: every second one takes in
        a byte, and the last is not a half byte on its own. */
    static method ParseHeader(crc: Crc, p: Packet) returns (r: Parsed)
      ensures r == Parse(crc, p)
    {
      var sn1, sn2 := (p[1] / 16) % 4, p[1] / 64;
      if p[0] != 0x01 || p[1] % 16 != 0x08 || p[2] != 0xad {
        return BadHeader;
      }
      if (sn1 != 0 && sn1 != 3) || (sn2 != 0 && sn2 != 3) {
        return BadHeader;
      }
      var fcs := crc(0x0f, p[3]);
      if p[3] != 0 {
        return BadCrc;
      }
      fcs := crc(fcs, p[4]);
      if p[4] != 0 {
        return BadCrc;
      }
      var ind, bitOffset := 6, 24;
      for sb := 0 to 8
        invariant bitOffset == 24 + 4 * sb && ind == 6 + sb / 2
        invariant fcs == FcsTo(crc, p, ind)
      {
        if bitOffset % 8 != 0 {
          fcs := crc(fcs, p[ind]);
          ind := ind + 1;
        }
        bitOffset := bitOffset + 4;
      }
      assert FcsTo(crc, p, 8) == crc(crc(FcsTo(crc, p, 6), p[6]), p[7]);
      assert fcs == FcsTo(crc, p, 10) == Fcs(crc, p);
      r := if p[5] != fcs then BadCrc else Number((sn1 % 2) as nat + 2 * ((sn2 / 2) % 2) as nat);
    }

    /** packet_loss_detection_process */
    method Process(crc: Crc, p: Packet, index: nat) returns (kind: Kind)
      requires Valid() && index < SCO_PACKET_SIZE
      modifies this`lastSeq, this`older, this`newer, this`flag0, this`flag1, hist
      ensures Valid() && (Model(), kind) == Detect(crc, old(Model()), p, index)
      ensures hist[..] == Bump(old(hist[..]), kind)
    {
      var conflict := UpdateConflict(p);
      var mute := AllMuted(p, 0, SCO_PACKET_SIZE - 1);
      var half := CheckTransmitterOffset(p, index);
      if mute {
        kind, lastSeq := ControllerMute, NO_SEQ;
      } else if half {
        kind, lastSeq := TransmitterOffset, NO_SEQ;
      } else {
        flag1 := flag0;
        flag0 := conflict;
        if conflict {
          kind, lastSeq := BleConflict, NO_SEQ;
        } else {
          var parsed := ParseHeader(crc, p);
          match parsed {
            case BadHeader => kind, lastSeq := HeaderError, NO_SEQ;
            case BadCrc => kind, lastSeq := CrcError, NO_SEQ;
            case Number(sn) =>
              if lastSeq == NO_SEQ || sn == Next(lastSeq) {
                kind, lastSeq := Pass, sn;
              } else {
                kind, lastSeq := SequenceDiscontinue, NO_SEQ;
              }
          }
        }
      }
      UpdateHistogram(kind);
    }
  }

  // ---------- whole runs ----------

  /** A packet as handed over by the deframer, with the transmitter's byte offset. */
  datatype Input = Input(packet: Packet, index: nat)

  predicate ValidInputs(ins: seq<Input>)
  {
    forall k :: 0 <= k < |ins| ==> ins[k].index < SCO_PACKET_SIZE
  }

  function DetectAll(crc: Crc, st: State, ins: seq<Input>): (r: (State, seq<Kind>))
    requires ValidInputs(ins)
    ensures |r.1| == |ins|
    decreases |ins|
  {
    if ins == [] then (st, [])
    else
      var (st1, k) := Detect(crc, st, ins[0].packet, ins[0].index);
      var (st2, ks) := DetectAll(crc, st1, ins[1..]);
      (st2, [k] + ks)
  }

  // ---------- the verdict on one packet, in bytes ----------

  /** The header of some packet of phase `k`. */
  predicate Headed(p: Packet, k: nat)
  {
    p[0] == 0x01 && p[1] == SeqByte(k) && p[2] == 0xad
  }

  /** An mSBC frame's two zero bytes and, in byte 5, the check of those and the next four bytes. */
  predicate Checked(crc: Crc, p: Packet)
  {
    p[3] == 0 && p[4] == 0 && p[5] == crc(crc(crc(crc(crc(crc(0x0f, 0), 0), p[6]), p[7]), p[8]), p[9])
  }

  lemma ParsedByBytes(crc: Crc, p: Packet)
    ensures Parse(crc, p).BadHeader? <==> forall k :: 0 <= k < 4 ==> !Headed(p, k)
    ensures Parse(crc, p).BadCrc? <==> (exists k :: 0 <= k < 4 && Headed(p, k)) && !Checked(crc, p)
    ensures forall k :: 0 <= k < 4 && Headed(p, k) && Checked(crc, p) ==> Parse(crc, p) == Number(k)
  {
    assert p[1] == 64 * (p[1] / 64) + 16 * ((p[1] / 16) % 4) + p[1] % 16;
    var sn1, sn2 := (p[1] / 16) % 4, p[1] / 64;
    if !Parse(crc, p).BadHeader? {
      assert Headed(p, (sn1 % 2) as nat + 2 * ((sn2 / 2) % 2) as nat);
    }
  }

  /** The front or the tail that a cut of `index` bytes leaves is muted. */
  lemma HalfMutedByBytes(p: Packet, index: nat)
    requires index < SCO_PACKET_SIZE
    ensures HalfMuted(p, index) <==>
      index > 0 && (MutedIn(p, 0, 60 - index) || (p[0] != 0x55 && MutedIn(p, 60 - index, 60)))
  {
    if MutedIn(p, 0, 60 - index) { assert p[0] == 0x55; }
    if index > 0 && MutedIn(p, 60 - index, 60) { assert p[59] == 0x55; }
  }

  /** Not muted, not half muted, and no repeat of the packet two slots back unless the check two before found one. */
  predicate Open(st: State, p: Packet, index: nat)
    requires index < SCO_PACKET_SIZE
  {
    && !(forall i :: 0 <= i < 59 ==> p[i] == 0x55) && !HalfMuted(p, index)
    && (st.flag1 || st.older[..59] != p[..59])
  }

  /** The verdict on any packet in any state. */
  lemma VerdictByBytes(crc: Crc, st: State, p: Packet, index: nat)
    requires index < SCO_PACKET_SIZE
    ensures var kind := Detect(crc, st, p, index).1;
      var muted := forall i :: 0 <= i < 59 ==> p[i] == 0x55;
      && (kind == ControllerMute <==> muted)
      && (kind == TransmitterOffset <==> !muted && HalfMuted(p, index))
      && (kind == BleConflict <==> !muted && !HalfMuted(p, index) && !st.flag1 && st.older[..59] == p[..59])
      && (kind == HeaderError <==> Open(st, p, index) && forall k :: 0 <= k < 4 ==> !Headed(p, k))
      && (kind == CrcError <==> Open(st, p, index) && (exists k :: 0 <= k < 4 && Headed(p, k)) && !Checked(crc, p))
      && kind !in {PadError, DataMissing, DecoderError}
  {
    ParsedByBytes(crc, p);
  }

  /** A packet passes exactly when nothing speaks against it and its number is the next, or any is awaited. */
  lemma PassIff(crc: Crc, st: State, p: Packet, index: nat)
    requires index < SCO_PACKET_SIZE
    ensures Detect(crc, st, p, index).1 == Pass <==>
      && Open(st, p, index) && Checked(crc, p)
      && exists k :: 0 <= k < 4 && Headed(p, k) && (st.lastSeq == NO_SEQ || st.lastSeq == (k + 3) % 4)
  {
    ParsedByBytes(crc, p);
    if exists k :: 0 <= k < 4 && Headed(p, k) {
      var k :| 0 <= k < 4 && Headed(p, k);
      forall j | 0 <= j < 4 && Headed(p, j) ensures j == k { assert SeqByte(j) == SeqByte(k); }
    }
  }

  /** What is remembered: the last two packets; the number of a packet that passed; whether the last two packets checked
      for a conflict were one. */
  lemma Remembered(crc: Crc, st: State, p: Packet, index: nat)
    requires index < SCO_PACKET_SIZE
    ensures var (st', kind) := Detect(crc, st, p, index);
      && st'.older == st.newer && st'.newer == p
      && (kind == Pass ==> st'.lastSeq < 4 && Headed(p, st'.lastSeq))
      && (kind != Pass ==> st'.lastSeq == NO_SEQ)
      && (st'.flag0, st'.flag1)
         == if kind in {ControllerMute, TransmitterOffset} then (st.flag0, st.flag1)
            else (kind == BleConflict, st.flag0)
  {
    ParsedByBytes(crc, p);
    if Parse(crc, p).Number? {
      var k :| 0 <= k < 4 && Headed(p, k);
    }
  }

  /** One conflict is not reported again by the second check after it, which sees the same two packets. */
  lemma ConflictOnce(crc: Crc, st: State, p: Packet, q: Packet, r: Packet, index: nat)
    requires index < SCO_PACKET_SIZE && Detect(crc, st, p, index).1 == BleConflict
    ensures var st1 := Detect(crc, st, p, index).0;
      var (st2, kind) := Detect(crc, st1, q, index);
      kind !in {ControllerMute, TransmitterOffset} ==> Detect(crc, st2, r, index).1 != BleConflict
  {
    var st1 := Detect(crc, st, p, index).0;
    Remembered(crc, st, p, index);
    Remembered(crc, st1, q, index);
    VerdictByBytes(crc, Detect(crc, st1, q, index).0, r, index);
  }

  /** The first packet after power-up: any number will do, and only a packet of zeros looks like a repeat. */
  lemma FirstPacket(crc: Crc, p: Packet, index: nat)
    requires index < SCO_PACKET_SIZE && p[0] != 0x55
    ensures var kind := Detect(crc, START, p, index).1;
      && (kind == BleConflict <==> !HalfMuted(p, index) && forall i :: 0 <= i < 59 ==> p[i] == 0)
      && (kind == Pass <==> !HalfMuted(p, index) && Checked(crc, p) && exists k :: 0 <= k < 4 && Headed(p, k))
  {
    hide Detect, HalfMuted;
    VerdictByBytes(crc, START, p, index);
    PassIff(crc, START, p, index);
    assert START.older[..59] == p[..59] <==> forall i :: 0 <= i < 59 ==> p[i] == 0;
  }

  // ---------- slots ----------

  /** The payload is an mSBC frame with a valid check sequence. */
  predicate GoodFrame(crc: Crc, payload: Payload)
  {
    SbcFrame(payload) && payload[3] == Fcs(crc, PacketOf(0, payload))
  }

  /** No packet the encoder makes, whatever its number, and not the mute pattern. */
  predicate Broken(crc: Crc, p: Packet)
  {
    && !MutedIn(p, 0, 59)
    && !(Checked(crc, p) && exists k :: 0 <= k < 4 && Headed(p, k))
  }

  /** `p` is slot `n` as received; its padding byte may be a stray one. */
  predicate Received(crc: Crc, p: Packet, n: nat, slot: Slot)
  {
    && p[..59] == SlotBytes(n, slot)[..59]
    && (slot.Intact? ==> GoodFrame(crc, slot.payload))
    && (slot.Damaged? ==> Broken(crc, slot.packet))
  }

  lemma SameFront(crc: Crc, p: Packet, q: Packet)
    requires p[..59] == q[..59]
    ensures Parse(crc, p) == Parse(crc, q) && MutedIn(p, 0, 59) == MutedIn(q, 0, 59)
  {
    assert forall i :: 0 <= i < 59 ==> p[i] == p[..59][i] == q[..59][i] == q[i];
  }

  /** A packet remembered from slot `m` is not one of another phase. */
  predicate Past(crc: Crc, p: Packet, m: nat)
  {
    Parse(crc, p).Number? ==> Parse(crc, p).sn == m % 4
  }

  /** Before slot `n`: the number awaited is that slot's, and the packets remembered are those of the two slots
      before (n + 2 and n + 3 have their phases). */
  predicate InStep(crc: Crc, st: State, n: nat)
  {
    && (st.lastSeq == NO_SEQ || st.lastSeq == (n + 3) % 4)
    && Past(crc, st.older, n + 2) && Past(crc, st.newer, n + 3)
  }

  /** Good payloads, and no others, make packets that are taken for their number. */
  lemma GoodIff(crc: Crc, payload: Payload, n: nat)
    ensures GoodFrame(crc, payload) <==> Parse(crc, PacketOf(n, payload)) == Number(n % 4)
    ensures !GoodFrame(crc, payload) ==> !Parse(crc, PacketOf(n, payload)).Number?
  {
    var q := PacketOf(n, payload);
    assert forall i :: 2 <= i < 59 ==> q[i] == payload[i - 2] == PacketOf(0, payload)[i];
  }

  lemma Numbered(crc: Crc, p: Packet, n: nat, slot: Slot)
    requires Received(crc, p, n, slot) && slot.Intact?
    ensures p[0] == 0x01 && p[1] == SeqByte(n)
    ensures Parse(crc, p) == Number(n % 4) && !MutedIn(p, 0, 59)
  {
    var q := PacketOf(n, slot.payload);
    assert forall i :: 0 <= i < 59 ==> p[i] == p[..59][i] == q[..59][i] == q[i];
    assert forall i :: 2 <= i < 59 ==> q[i] == PacketOf(0, slot.payload)[i];
  }

  lemma MutedPacket(crc: Crc, p: Packet, n: nat, slot: Slot)
    requires Received(crc, p, n, slot) && slot.Muted?
    ensures MutedIn(p, 0, 59) && Parse(crc, p).BadHeader?
  {
    assert forall i :: 0 <= i < 59 ==> p[i] == p[..59][i] == MUTE_PACKET[..59][i] == MUTE_PATTERN;
  }

  lemma DamagedPacket(crc: Crc, p: Packet, n: nat, slot: Slot)
    requires Received(crc, p, n, slot) && slot.Damaged?
    ensures !MutedIn(p, 0, 59) && !Parse(crc, p).Number?
  {
    SameFront(crc, p, slot.packet);
    ParsedByBytes(crc, slot.packet);
  }

  /** Packets two slots apart have different phases. */
  lemma NoConflict(crc: Crc, st: State, p: Packet, n: nat, slot: Slot)
    requires InStep(crc, st, n) && Received(crc, p, n, slot) && slot.Intact?
    ensures !Conflicts(st, p)
  {
    Numbered(crc, p, n, slot);
    if st.older[..59] == p[..59] {
      SameFront(crc, st.older, p);
      assert false;
    }
  }

  /** The tail that makes the offset check take an intact packet for a half muted one. */
  predicate TailMuted(p: Packet, index: nat)
    requires index < SCO_PACKET_SIZE
  {
    index > 0 && MutedIn(p, SCO_PACKET_SIZE - index, SCO_PACKET_SIZE)
  }

  /** In step, an intact packet passes exactly when its tail of `index` bytes is not all mute pattern, which takes
      a stray padding byte; the detector stays in step either way. */
  lemma IntactPassesIff(crc: Crc, st: State, p: Packet, index: nat, n: nat, slot: Slot)
    requires InStep(crc, st, n) && Received(crc, p, n, slot) && slot.Intact? && index < SCO_PACKET_SIZE
    ensures var (st', kind) := Detect(crc, st, p, index);
      && InStep(crc, st', n + 1)
      && (kind == Pass <==> !TailMuted(p, index))
      && (kind != Pass ==> kind == TransmitterOffset)
  {
    Numbered(crc, p, n, slot);
    NoConflict(crc, st, p, n, slot);
    assert HalfMuted(p, index) == TailMuted(p, index);
  }

  lemma MutedIsFlagged(crc: Crc, st: State, p: Packet, index: nat, n: nat, slot: Slot)
    requires InStep(crc, st, n) && Received(crc, p, n, slot) && slot.Muted? && index < SCO_PACKET_SIZE
    ensures var (st', kind) := Detect(crc, st, p, index);
      InStep(crc, st', n + 1) && kind == ControllerMute
  {
    MutedPacket(crc, p, n, slot);
  }

  /** What a damaged packet is that is no repeat. */
  function Fault(p: Packet, index: nat): Kind
    requires index < SCO_PACKET_SIZE
  {
    if HalfMuted(p, index) then TransmitterOffset
    else if forall k :: 0 <= k < 4 ==> !Headed(p, k) then HeaderError
    else CrcError
  }

  /** A damaged packet never passes: it is half muted, a header error, a CRC error, or a repeat of the packet two slots
      back. The detector stays in step. */
  lemma DamagedIsFlagged(crc: Crc, st: State, p: Packet, index: nat, n: nat, slot: Slot)
    requires InStep(crc, st, n) && Received(crc, p, n, slot) && slot.Damaged? && index < SCO_PACKET_SIZE
    ensures var (st', kind) := Detect(crc, st, p, index);
      && InStep(crc, st', n + 1)
      && kind == if !HalfMuted(p, index) && Conflicts(st, p) then BleConflict else Fault(p, index)
  {
    DamagedPacket(crc, p, n, slot);
    ParsedByBytes(crc, p);
  }

  /** A jump in the numbering: packet `m` right behind packet `n` passes exactly when m is n + 1 modulo 4, its tail is
      not all mute pattern, and it does not repeat the packet two slots back, which is taken for a conflict unless one
      was found there. Otherwise it is a sequence break or what those are called, and any number is taken next. */
  lemma JumpPassesIff(crc: Crc, st: State, p: Packet, index: nat, n: nat, m: nat, slot: Slot)
    requires st.lastSeq == n % 4 && index < SCO_PACKET_SIZE
    requires Received(crc, p, m, slot) && slot.Intact?
    ensures var (st', kind) := Detect(crc, st, p, index);
      if TailMuted(p, index) then kind == TransmitterOffset && st'.lastSeq == NO_SEQ
      else if !st.flag1 && st.older[..59] == p[..59] then kind == BleConflict && st'.lastSeq == NO_SEQ
      else if (m - n) % 4 == 1 then kind == Pass && st'.lastSeq == m % 4
      else kind == SequenceDiscontinue && st'.lastSeq == NO_SEQ
  {
    Numbered(crc, p, m, slot);
  }

  // ---------- whole runs ----------

  predicate ReceivedAll(crc: Crc, ins: seq<Input>, n: nat, slots: seq<Slot>)
  {
    && |ins| == |slots| && ValidInputs(ins)
    && forall k :: 0 <= k < |ins| ==> Received(crc, ins[k].packet, n + k, slots[k])
  }

  /** The verdict a slot deserves; `older` is the packet two slots back. */
  predicate Right(slot: Slot, i: Input, older: Packet, kind: Kind)
    requires i.index < SCO_PACKET_SIZE
  {
    match slot
    case Intact(_) => kind == if TailMuted(i.packet, i.index) then TransmitterOffset else Pass
    case Muted => kind == ControllerMute
    case Damaged(_) =>
      || kind == Fault(i.packet, i.index)
      || (kind == BleConflict && older[..59] == i.packet[..59] && !HalfMuted(i.packet, i.index))
  }

  lemma SlotStep(crc: Crc, st: State, i: Input, n: nat, slot: Slot)
    requires InStep(crc, st, n) && Received(crc, i.packet, n, slot) && i.index < SCO_PACKET_SIZE
    ensures var (st', kind) := Detect(crc, st, i.packet, i.index);
      InStep(crc, st', n + 1) && Right(slot, i, st.older, kind) && st'.older == st.newer && st'.newer == i.packet
  {
    hide InStep, Received, HalfMuted, Fault;
    Remembered(crc, st, i.packet, i.index);
    match slot
    case Intact(_) => IntactPassesIff(crc, st, i.packet, i.index, n, slot);
    case Muted => MutedIsFlagged(crc, st, i.packet, i.index, n, slot);
    case Damaged(_) => DamagedIsFlagged(crc, st, i.packet, i.index, n, slot);
  }

  lemma ReceivedTail(crc: Crc, ins: seq<Input>, n: nat, slots: seq<Slot>)
    requires ReceivedAll(crc, ins, n, slots) && ins != []
    ensures Received(crc, ins[0].packet, n, slots[0]) && ReceivedAll(crc, ins[1..], n + 1, slots[1..])
  {
    hide Received;
    assert Received(crc, ins[0].packet, n + 0, slots[0]);
    forall k | 0 <= k < |ins[1..]| ensures Received(crc, ins[1..][k].packet, n + 1 + k, slots[1..][k]) {
      assert Received(crc, ins[k + 1].packet, n + (k + 1), slots[k + 1]);
    }
  }

  /** The verdicts a run deserves, behind packets `older` and `newer`. */
  predicate Verdicts(slots: seq<Slot>, ins: seq<Input>, older: Packet, newer: Packet, kinds: seq<Kind>)
    requires |slots| == |ins| == |kinds| && ValidInputs(ins)
    decreases |ins|
  {
    ins != [] ==>
      && Right(slots[0], ins[0], older, kinds[0])
      && Verdicts(slots[1..], ins[1..], newer, ins[0].packet, kinds[1..])
  }

  /** The packet two slots before number `k` of a run. */
  function TwoBack(ins: seq<Input>, older: Packet, newer: Packet, k: nat): Packet
    requires k < |ins|
  {
    if k == 0 then older else if k == 1 then newer else ins[k - 2].packet
  }

  lemma {:induction false} VerdictAt(
      slots: seq<Slot>, ins: seq<Input>, older: Packet, newer: Packet, kinds: seq<Kind>, k: nat)
    requires |slots| == |ins| == |kinds| && ValidInputs(ins) && Verdicts(slots, ins, older, newer, kinds) && k < |ins|
    ensures Right(slots[k], ins[k], TwoBack(ins, older, newer, k), kinds[k])
    decreases |ins|
  {
    hide Right;
    if k > 0 {
      VerdictAt(slots[1..], ins[1..], newer, ins[0].packet, kinds[1..], k - 1);
    }
  }

  lemma FirstSlot(crc: Crc, st: State, ins: seq<Input>, n: nat, slots: seq<Slot>) returns (st1: State, kind: Kind)
    requires InStep(crc, st, n) && ReceivedAll(crc, ins, n, slots) && ins != []
    ensures DetectAll(crc, st, ins).1 == [kind] + DetectAll(crc, st1, ins[1..]).1
    ensures InStep(crc, st1, n + 1) && st1.older == st.newer && st1.newer == ins[0].packet
    ensures Right(slots[0], ins[0], st.older, kind) && ReceivedAll(crc, ins[1..], n + 1, slots[1..])
  {
    hide InStep, Received, Right, Detect;
    ReceivedTail(crc, ins, n, slots);
    SlotStep(crc, st, ins[0], n, slots[0]);
    st1, kind := Detect(crc, st, ins[0].packet, ins[0].index).0, Detect(crc, st, ins[0].packet, ins[0].index).1;
  }

  lemma {:induction false} RunFrom(crc: Crc, st: State, ins: seq<Input>, n: nat, slots: seq<Slot>)
    requires InStep(crc, st, n) && ReceivedAll(crc, ins, n, slots)
    ensures Verdicts(slots, ins, st.older, st.newer, DetectAll(crc, st, ins).1)
    decreases |ins|
  {
    assert |slots| == |ins| && ValidInputs(ins);
    hide InStep, ReceivedAll, Right, Detect;
    if ins != [] {
      var st1, kind := FirstSlot(crc, st, ins, n, slots);
      RunFrom(crc, st1, ins[1..], n + 1, slots[1..]);
      assert ([kind] + DetectAll(crc, st1, ins[1..]).1)[1..] == DetectAll(crc, st1, ins[1..]).1;
    }
  }

  predicate EncoderPadding(ins: seq<Input>, slots: seq<Slot>)
    requires |ins| == |slots|
  {
    forall k :: 0 <= k < |ins| && slots[k].Intact? ==> ins[k].packet[59] == 0
  }

  const FAULTS: set<Kind> := {HeaderError, CrcError, BleConflict, TransmitterOffset}

  /** Exactly the intact slots pass, exactly the muted ones are flagged as muted by the controller, and the damaged ones
      as one of the faults. */
  predicate PassesIntact(kinds: seq<Kind>, slots: seq<Slot>)
    requires |kinds| == |slots|
  {
    forall k :: 0 <= k < |slots| ==> Fits(kinds[k], slots[k])
  }

  predicate Fits(kind: Kind, slot: Slot)
  {
    match slot
    case Intact(_) => kind == Pass
    case Muted => kind == ControllerMute
    case Damaged(_) => kind in FAULTS
  }

  /** The encoder's padding rules out the exception: whatever the offsets, exactly the intact slots pass and exactly
      the muted ones are flagged, as muted by the controller; no damaged one passes. */
  lemma PassesExactlyIntact(crc: Crc, ins: seq<Input>, n: nat, slots: seq<Slot>)
    requires ReceivedAll(crc, ins, n, slots) && EncoderPadding(ins, slots)
    ensures PassesIntact(DetectAll(crc, START, ins).1, slots)
  {
    StartInStep(crc, n);
    RunFrom(crc, START, ins, n, slots);
    assert |slots| == |ins| && ValidInputs(ins);
    hide ReceivedAll, Detect, InStep, HalfMuted, Headed;
    var kinds := DetectAll(crc, START, ins).1;
    forall k | 0 <= k < |ins| ensures Fits(kinds[k], slots[k]) {
      VerdictAt(slots, ins, START.older, START.newer, kinds, k);
      assert slots[k].Intact? ==> ins[k].packet[59] == 0;
    }
  }

  lemma StartInStep(crc: Crc, n: nat)
    ensures InStep(crc, START, n)
  {
  }

  // ---------- counting ----------

  function Count(ks: seq<Kind>, k: Kind): (c: nat)
  {
    if ks == [] then 0 else (if ks[0] == k then 1 else 0) + Count(ks[1..], k)
  }

  function BumpAll(h: seq<nat>, ks: seq<Kind>): (r: seq<nat>)
    requires |h| == KINDS
    ensures |r| == KINDS
    decreases |ks|
  {
    if ks == [] then h else BumpAll(Bump(h, ks[0]), ks[1..])
  }

  predicate Counters(h: seq<nat>)
  {
    |h| == KINDS && forall i :: 0 <= i < |h| ==> h[i] < UINT32
  }

  /** What one packet of kind `x` adds to the counter of kind `k`. */
  function Delta(x: Kind, k: Kind): int
  {
    (if x == k then 1 else 0) - (if k == Pass && x == DecoderError then 1 else 0)
  }

  lemma BumpAt(h: seq<nat>, x: Kind, k: Kind)
    requires Counters(h)
    ensures Counters(Bump(h, x)) && Bump(h, x)[Bin(k)] == (h[Bin(k)] + Delta(x, k)) % UINT32
  {
  }

  lemma ModSum(a: int, b: int)
    ensures ((a % UINT32) + b) % UINT32 == (a + b) % UINT32
  {
  }

  /** Over any run the counter of a kind holds how often it came, less one for each decoder error in the counter of
      passes, in 32 bits. */
  lemma {:induction false} HistogramCounts(h: seq<nat>, ks: seq<Kind>, k: Kind)
    requires Counters(h)
    ensures BumpAll(h, ks)[Bin(k)]
      == (h[Bin(k)] + Count(ks, k) - (if k == Pass then Count(ks, DecoderError) else 0)) % UINT32
    decreases |ks|
  {
    if ks != [] {
      BumpAt(h, ks[0], k);
      HistogramCounts(Bump(h, ks[0]), ks[1..], k);
      ModSum(h[Bin(k)] + Delta(ks[0], k), Count(ks[1..], k) - if k == Pass then Count(ks[1..], DecoderError) else 0);
    }
  }

  /** How many slots of a run are of a kind. */
  function Intacts(slots: seq<Slot>): nat
  {
    if slots == [] then 0 else (if slots[0].Intact? then 1 else 0) + Intacts(slots[1..])
  }

  function Mutes(slots: seq<Slot>): nat
  {
    if slots == [] then 0 else (if slots[0].Muted? then 1 else 0) + Mutes(slots[1..])
  }

  /** How often one of the faults comes. */
  function Faults(ks: seq<Kind>): nat
  {
    Count(ks, HeaderError) + Count(ks, CrcError) + Count(ks, BleConflict) + Count(ks, TransmitterOffset)
  }

  lemma {:induction false} CountsMatch(ks: seq<Kind>, slots: seq<Slot>)
    requires |ks| == |slots| && PassesIntact(ks, slots)
    ensures Count(ks, Pass) == Intacts(slots) && Count(ks, ControllerMute) == Mutes(slots)
    ensures Faults(ks) == |slots| - Intacts(slots) - Mutes(slots)
    ensures forall k :: k !in FAULTS + {Pass, ControllerMute} ==> Count(ks, k) == 0
    decreases |ks|
  {
    if ks != [] {
      assert Fits(ks[0], slots[0]);
      CountsMatch(ks[1..], slots[1..]);
    }
  }

  /** On a run judged so, which is what PassesExactlyIntact gives, the histogram is the run's: passes are the intact
      slots, mutes the muted ones, the faults together the damaged ones, all else is zero. */
  lemma HistogramMatchesRun(ks: seq<Kind>, slots: seq<Slot>)
    requires |ks| == |slots| && PassesIntact(ks, slots)
    ensures var h := BumpAll(ZEROS, ks);
      && h[0] == Intacts(slots) % UINT32 && h[1] == Mutes(slots) % UINT32
      && (h[2] + h[3] + h[7] + h[9]) % UINT32 == (|slots| - Intacts(slots) - Mutes(slots)) % UINT32
      && h[2] == Count(ks, HeaderError) % UINT32 && h[3] == Count(ks, CrcError) % UINT32
      && h[7] == Count(ks, BleConflict) % UINT32 && h[9] == Count(ks, TransmitterOffset) % UINT32
      && h[4] == h[5] == h[6] == h[8] == 0
  {
    hide PassesIntact, BumpAll, Count, Intacts, Mutes;
    CountsMatch(ks, slots);
    FaultCounters(ks);
    CounterIs(ks, Pass);
    CounterIs(ks, ControllerMute);
    CounterIs(ks, PadError);
    CounterIs(ks, DataMissing);
    CounterIs(ks, SequenceDiscontinue);
    CounterIs(ks, DecoderError);
  }

  lemma CounterIs(ks: seq<Kind>, k: Kind)
    ensures BumpAll(ZEROS, ks)[Bin(k)] == (Count(ks, k) - (if k == Pass then Count(ks, DecoderError) else 0)) % UINT32
  {
    HistogramCounts(ZEROS, ks, k);
  }

  lemma FaultCounters(ks: seq<Kind>)
    ensures var h := BumpAll(ZEROS, ks);
      && h[2] == Count(ks, HeaderError) % UINT32 && h[3] == Count(ks, CrcError) % UINT32
      && h[7] == Count(ks, BleConflict) % UINT32 && h[9] == Count(ks, TransmitterOffset) % UINT32
      && (h[2] + h[3] + h[7] + h[9]) % UINT32 == Faults(ks) % UINT32
  {
    hide BumpAll, Count;
    CounterIs(ks, HeaderError);
    CounterIs(ks, CrcError);
    CounterIs(ks, BleConflict);
    CounterIs(ks, TransmitterOffset);
    SumOfRemainders(Count(ks, HeaderError), Count(ks, CrcError), Count(ks, BleConflict), Count(ks, TransmitterOffset));
  }

  lemma SumOfRemainders(a: nat, b: nat, c: nat, d: nat)
    ensures (a % UINT32 + b % UINT32 + c % UINT32 + d % UINT32) % UINT32 == (a + b + c + d) % UINT32
  {
    ModSum(a, b % UINT32 + c % UINT32 + d % UINT32);
    ModSum(b, a + c % UINT32 + d % UINT32);
    ModSum(c, a + b + d % UINT32);
    ModSum(d, a + b + c);
  }
}
