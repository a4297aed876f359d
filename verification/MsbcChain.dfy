/**
 The mSBC receive chain end to end: link, deframer, packet loss detector.
 */
module MsbcChain {
  import opened Ring
  import opened MsbcPacket
  import MsbcDeframer
  import MsbcStream
  import PacketLoss

  predicate AllAligned(out: seq<MsbcDeframer.Extracted>)
  {
    forall k :: 0 <= k < |out| ==> out[k].Aligned?
  }

  /** What the deframer passes on: its packets, with the transmitter's byte offset, which depends on its own only. */
  function Inputs(out: seq<MsbcDeframer.Extracted>, index: nat): (ins: seq<PacketLoss.Input>)
    requires AllAligned(out)
    ensures |ins| == |out| && forall k :: 0 <= k < |out| ==> ins[k] == PacketLoss.Input(out[k].packet, index)
  {
    seq(|out|, k requires 0 <= k < |out| => PacketLoss.Input(out[k].packet, index))
  }

  /** Every intact slot carries an mSBC frame with a valid check, and no damaged one is a valid packet or muted. */
  predicate GoodSlots(crc: PacketLoss.Crc, slots: seq<Slot>)
  {
    && (forall i :: 0 <= i < |slots| && slots[i].Intact? ==> PacketLoss.GoodFrame(crc, slots[i].payload))
    && (forall i :: 0 <= i < |slots| && slots[i].Damaged? ==> PacketLoss.Broken(crc, slots[i].packet))
  }

  lemma HandedPacket(crc: PacketLoss.Crc, x: MsbcDeframer.Extracted, n: nat, slots: seq<Slot>, k: nat, whole: bool)
    requires k < |slots| && GoodSlots(crc, slots) && MsbcStream.IsPacket(x, PacketsOf(n, slots)[k], whole)
    ensures x.Aligned? && PacketLoss.Received(crc, x.packet, n + k, slots[k])
    ensures whole && slots[k].Intact? ==> x.packet[59] == 0
  {
    PacketAt(n, slots, k);
  }

  /** The packets handed over by the deframer are the slots as the detector's theorems take them. */
  lemma HandedOver(crc: PacketLoss.Crc, out: seq<MsbcDeframer.Extracted>, n: nat, slots: seq<Slot>, a: nat,
      whole: bool, index: nat)
    requires GoodSlots(crc, slots) && MsbcStream.ArePackets(out, PacketsOf(n, slots), a, whole)
        && index < SCO_PACKET_SIZE
    ensures AllAligned(out) && PacketLoss.ReceivedAll(crc, Inputs(out, index), n + a, slots[a..a + |out|])
    ensures whole ==> PacketLoss.EncoderPadding(Inputs(out, index), slots[a..a + |out|])
  {
    hide PacketsOf, PacketLoss.Received, PacketLoss.GoodFrame, PacketLoss.Broken, MsbcStream.IsPacket;
    forall k | 0 <= k < |out|
      ensures out[k].Aligned? && PacketLoss.Received(crc, out[k].packet, n + a + k, slots[a + k])
      ensures whole && slots[a + k].Intact? ==> out[k].packet[59] == 0
    {
      HandedPacket(crc, out[k], n, slots, a + k, whole);
      assert n + (a + k) == n + a + k;
    }
  }

  /** The verdicts on `calls` calls from slot `a` on. */
  ghost predicate Judged(crc: PacketLoss.Crc, s: MsbcDeframer.State, g: seq<byte>, t: nat, calls: seq<nat>,
      slots: seq<Slot>, a: nat, index: nat)
    requires MsbcDeframer.ValidState(s) && t + 60 + 60 * MsbcStream.Total(calls) <= |g| && MsbcStream.GoodCalls(calls)
    requires index < SCO_PACKET_SIZE
  {
    var out := MsbcStream.RunOn(s, g, t, calls).1;
    && AllAligned(out) && a + |out| <= |slots|
    && var ins, now := Inputs(out, index), slots[a..a + |out|];
      var kinds := PacketLoss.DetectAll(crc, PacketLoss.START, ins).1;
      && PacketLoss.Verdicts(now, ins, PacketLoss.START.older, PacketLoss.START.newer, kinds)
      && (s.offset != 1 ==> PacketLoss.PassesIntact(kinds, now))
  }

  /** End to end: behind an aligned deframer the detector passes exactly the intact slots of the link, flags exactly the
      muted ones as such, and each damaged one as some fault. At byte offset 1, where the padding byte may be a stray
      one, the verdicts are those that PacketLoss.Verdicts gives. */
  lemma ChainPassesIntact(crc: PacketLoss.Crc, s: MsbcDeframer.State, g: seq<byte>, t: nat, calls: seq<nat>,
    head: seq<byte>, n: nat, slots: seq<Slot>, a: nat, index: nat)
    requires MsbcStream.OnSlot(s, g, t, head, a) && MsbcStream.Link(g, head, PacketsOf(n, slots))
        && GoodSlots(crc, slots)
    requires t + 60 + 60 * MsbcStream.Total(calls) <= |g| && MsbcStream.GoodCalls(calls)
        && a + MsbcStream.Total(calls) <= |slots|
    requires index < SCO_PACKET_SIZE
    ensures Judged(crc, s, g, t, calls, slots, a, index)
  {
    hide MsbcStream.RunOn, MsbcStream.Link, MsbcStream.ArePackets, GoodSlots;
    hide PacketLoss.DetectAll, PacketLoss.ReceivedAll, PacketLoss.EncoderPadding, PacketLoss.PassesIntact,
        PacketLoss.InStep;
    MsbcStream.DeframesTheLink(s, g, t, calls, head, PacketsOf(n, slots), a);
    var out := MsbcStream.RunOn(s, g, t, calls).1;
    HandedOver(crc, out, n, slots, a, s.offset != 1, index);
    PacketLoss.StartInStep(crc, n + a);
    PacketLoss.RunFrom(crc, PacketLoss.START, Inputs(out, index), n + a, slots[a..a + |out|]);
    if s.offset != 1 {
      PacketLoss.PassesExactlyIntact(crc, Inputs(out, index), n + a, slots[a..a + |out|]);
    }
  }
}
