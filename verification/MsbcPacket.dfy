/**
 The 60-byte mSBC packets on a SCO link and the packetizer of apps/audioplayers/bt_sco_codec_msbc.c;
 the header is the H2 synchronization header of the Hands-Free Profile.
 */
module MsbcPacket {
  import opened Ring

  const SCO_PACKET_SIZE: nat := 60
  const PAYLOAD_SIZE: nat := 57
  const MUTE_PATTERN: byte := 0x55

  /** The four phases of the sequence byte. */
  function SeqByte(n: nat): (b: byte)
    ensures b % 16 == 8
  {
    if n % 4 == 0 then 0x08 else if n % 4 == 1 then 0x38 else if n % 4 == 2 then 0xc8 else 0xf8
  }

  /** The synchronization header doubles the two bits of the packet number. */
  lemma SeqByteDoublesBits(n: nat)
    ensures SeqByte(n) == 0x08 + 0x10 * (3 * (n % 2)) + 0x40 * (3 * (n / 2 % 2))
  {
  }

  function Fill(n: nat, b: byte): (s: seq<byte>)
    ensures |s| == n && forall i :: 0 <= i < n ==> s[i] == b
  {
    seq(n, _ => b)
  }

  type Payload = p: seq<byte> | |p| == PAYLOAD_SIZE witness Fill(PAYLOAD_SIZE, 0)
  type Packet = p: seq<byte> | |p| == SCO_PACKET_SIZE witness Fill(SCO_PACKET_SIZE, 0)

  /** sco_msbc_packet_t number `n`: header, sequence, payload, padding. */
  function PacketOf(n: nat, payload: Payload): Packet
  {
    [0x01, SeqByte(n)] + payload + [0x00]
  }

  /** An mSBC frame starts with its sync byte and two reserved zero bytes. */
  predicate SbcFrame(payload: Payload)
  {
    payload[0] == 0xad && payload[1] == 0 && payload[2] == 0
  }

  const MUTE_PACKET: Packet := Fill(SCO_PACKET_SIZE, MUTE_PATTERN)

  /** What a time slot of the link carries: packet `n` with its payload, the controller's mute pattern, or other
      bytes. */
  datatype Slot = Intact(payload: Payload) | Muted | Damaged(packet: Packet)

  function SlotBytes(n: nat, s: Slot): Packet
  {
    match s
    case Intact(payload) => PacketOf(n, payload)
    case Muted => MUTE_PACKET
    case Damaged(packet) => packet
  }

  /** Packets one after the other. */
  function Concat(ps: seq<Packet>): (s: seq<byte>)
    ensures |s| == SCO_PACKET_SIZE * |ps|
    decreases |ps|
  {
    if ps == [] then [] else ps[0] + Concat(ps[1..])
  }

  lemma {:induction false} ConcatSnoc(ps: seq<Packet>, last: Packet)
    ensures Concat(ps + [last]) == Concat(ps) + last
    decreases |ps|
  {
    if ps == [] {
      assert [last][1..] == [];
      assert [] + [last] == [last];
    } else {
      assert (ps + [last])[1..] == ps[1..] + [last];
      ConcatSnoc(ps[1..], last);
    }
  }

  /** Byte `i` of packet `k` is at 60 * k + i. */
  lemma {:induction false} ConcatAt(ps: seq<Packet>, k: nat, i: nat)
    requires k < |ps| && i < 60
    ensures 60 * k + i < |Concat(ps)| && Concat(ps)[60 * k + i] == ps[k][i]
    decreases |ps|
  {
    if k > 0 {
      ConcatAt(ps[1..], k - 1, i);
    }
  }

  /** Packets with consecutive numbers, the first being `n`. */
  function Numbered(n: nat, payloads: seq<Payload>): (ps: seq<Packet>)
    ensures |ps| == |payloads|
  {
    seq(|payloads|, i requires 0 <= i < |payloads| => PacketOf(n + i, payloads[i]))
  }

  class Encoder {
    var seqIndex: nat

    ghost predicate Valid()
      reads this
    {
      seqIndex < 4
    }

    constructor ()
      ensures Valid() && seqIndex == 0
    {
      seqIndex := 0;
    }

    /** bt_sco_codec_msbc_encoder on payloads already encoded: consecutive packets, the phase running on from
        call to call. */
    method Encode(payloads: seq<Payload>) returns (out: seq<byte>)
      requires Valid()
      modifies this
      ensures Valid() && seqIndex == (old(seqIndex) + |payloads|) % 4
      ensures out == Concat(Numbered(old(seqIndex), payloads))
    {
      hide Concat, SeqByte, Numbered;
      out := [];
      for i := 0 to |payloads|
        invariant Valid() && seqIndex == (old(seqIndex) + i) % 4
        invariant out == Concat(Numbered(old(seqIndex), payloads[..i]))
      {
        SamePhase(old(seqIndex) + i);
        NumberedSnoc(old(seqIndex), payloads, i);
        ConcatSnoc(Numbered(old(seqIndex), payloads[..i]), PacketOf(old(seqIndex) + i, payloads[i]));
        out := out + ([0x01, SeqByte(seqIndex)] + payloads[i] + [0x00]);
        seqIndex := (seqIndex + 1) % 4;
      }
      assert payloads[..|payloads|] == payloads;
    }
  }

  lemma SamePhase(n: nat)
    ensures SeqByte(n % 4) == SeqByte(n)
  {
  }

  lemma NumberedSnoc(n: nat, payloads: seq<Payload>, i: nat)
    requires i < |payloads|
    ensures Numbered(n, payloads[..i + 1]) == Numbered(n, payloads[..i]) + [PacketOf(n + i, payloads[i])]
  {
  }

  /** The slots of the link as packets, the numbering running on through muted slots. */
  function PacketsOf(n: nat, slots: seq<Slot>): (ps: seq<Packet>)
    ensures |ps| == |slots|
    decreases |slots|
  {
    if slots == [] then [] else [SlotBytes(n, slots[0])] + PacketsOf(n + 1, slots[1..])
  }

  lemma {:induction false} PacketAt(n: nat, slots: seq<Slot>, k: nat)
    requires k < |slots|
    ensures PacketsOf(n, slots)[k] == SlotBytes(n + k, slots[k])
    decreases |slots|
  {
    if k > 0 {
      PacketAt(n + 1, slots[1..], k - 1);
    }
  }

  /** Without mutes the link carries exactly what the encoder made. */
  lemma LinkCarriesEncoded(n: nat, payloads: seq<Payload>, slots: seq<Slot>)
    requires |slots| == |payloads| && forall i :: 0 <= i < |slots| ==> slots[i] == Intact(payloads[i])
    ensures PacketsOf(n, slots) == Numbered(n, payloads)
  {
    hide PacketOf;
    forall i | 0 <= i < |slots| ensures PacketsOf(n, slots)[i] == Numbered(n, payloads)[i] {
      PacketAt(n, slots, i);
      assert SlotBytes(n + i, slots[i]) == PacketOf(n + i, payloads[i]) == Numbered(n, payloads)[i];
    }
  }
}
