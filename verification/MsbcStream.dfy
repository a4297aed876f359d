/**
 Encoder, byte offset, deframer: once the alignment has been taken on a true header, the packets cut out
 of the received stream over any number of calls are the slots the sender put on the link.
 */
module MsbcStream {
  import opened Ring
  import opened MsbcPacket
  import opened MsbcDeframer

  /** A slot starts at `c`: a packet header or the mute pattern. */
  predicate GoodAt(g: seq<byte>, c: nat)
  {
    c + 2 < |g| && (Header(g, c) || MuteStart(g, c))
  }

  /** At a slot start the check neither drifts nor gives up. */
  lemma CheckGood(b: seq<byte>, at: nat, syncAt: nat)
    requires 0 < at && at + 3 < |b| && GoodAt(b, at)
    ensures !Shifts(Check(b, at, syncAt)) && Check(b, at, syncAt) != Lost
  {
  }

  /** `s` has received the stream `g` up to position t + 60, and `input` comes next. */
  ghost predicate Follows(s: State, g: seq<byte>, t: nat, input: seq<byte>)
  {
    && ValidState(s) && Chunk(input) && t + 60 + |input| <= |g|
    && s.buf[..60] == g[t..t + 60]
    && input == g[t + 60..t + 60 + |input|]
  }

  /** The window of a call: the stream from `t` on. */
  predicate Shows(b: seq<byte>, g: seq<byte>, t: nat, n: nat)
  {
    && |b| == 181 && n <= 120 && t + 60 + n <= |g|
    && forall i :: 0 <= i < 60 + n ==> b[i] == g[t + i]
  }

  lemma WindowShows(s: State, g: seq<byte>, t: nat, input: seq<byte>)
    requires Follows(s, g, t, input)
    ensures Shows(Filled(s, input), g, t, |input|)
  {
    var b := Filled(s, input);
    forall i | 0 <= i < 60 + |input| ensures b[i] == g[t + i] {
      if i < 60 {
        assert s.buf[..60][i] == g[t..t + 60][i];
      }
    }
  }

  lemma CarryShows(b: seq<byte>, g: seq<byte>, t: nat, n: nat)
    requires Shows(b, g, t, n)
    ensures (b[n..n + 60] + b[60..])[..60] == g[t + n..t + n + 60]
  {
  }

  /** Packet `x` of a call is the 60 stream bytes at `c`; at byte offset 1 the last byte of a call's last packet
      has not arrived yet. */
  predicate Cut(x: Extracted, g: seq<byte>, c: nat, whole: bool)
  {
    && x.Aligned? && c + 59 <= |g| && x.packet[..59] == g[c..c + 59]
    && (whole ==> c + 60 <= |g| && x.packet == g[c..c + 60])
  }

  lemma CutGood(b: seq<byte>, g: seq<byte>, t: nat, n: nat, low: nat, syncAt: nat, j: nat)
    requires Shows(b, g, t, n) && 0 < low <= 61 && 60 * (j + 1) <= n
    requires GoodAt(g, t + low + 60 * j)
    ensures Check(b, low + 60 * j, syncAt) != Lost
    ensures Cut(Extract(b, low, true, syncAt, j), g, t + low + 60 * j, low != 61 || 60 * (j + 1) < n)
  {
    var at := low + 60 * j;
    assert b[at] == g[t + at] && b[at + 1] == g[t + at + 1] && b[at + 2] == g[t + at + 2];
    assert GoodAt(b, at);
    CheckGood(b, at, syncAt);
  }

  lemma {:induction false} NoneLost(b: seq<byte>, low: nat, syncAt: nat, packets: nat)
    requires 0 < low <= 61 && |b| == 181 && packets <= 2
    requires forall j :: 0 <= j < packets ==> Check(b, low + 60 * j, syncAt) != Lost
    ensures !AnyLost(b, low, syncAt, packets)
  {
    if packets > 0 {
      NoneLost(b, low, syncAt, packets - 1);
      assert Check(b, low + 60 * (packets - 1), syncAt) != Lost;
    }
  }

  /** Packet `k` of a stream whose packet 0 is at `c`. */
  function At(c: nat, k: nat): nat { c + 60 * k }

  /** `count` slots start at `c`, 60 bytes apart. */
  predicate SlotStarts(g: seq<byte>, c: nat, count: nat)
  {
    forall k :: 0 <= k < count ==> GoodAt(g, At(c, k))
  }

  lemma LaterStarts(g: seq<byte>, c: nat, count: nat, d: nat)
    requires SlotStarts(g, c, count) && d <= count
    ensures SlotStarts(g, At(c, d), count - d)
  {
    forall k | 0 <= k < count - d ensures GoodAt(g, At(At(c, d), k)) {
      assert At(At(c, d), k) == At(c, d + k);
    }
  }

  lemma NothingLost(b: seq<byte>, g: seq<byte>, t: nat, packets: nat, low: nat, syncAt: nat)
    requires packets <= 2 && Shows(b, g, t, 60 * packets) && 0 < low <= 61
    requires forall j {:trigger At(t + low, j)} ::
               0 <= j < packets && low + 60 * j >= syncAt ==> GoodAt(g, At(t + low, j))
    ensures !AnyLost(b, low, syncAt, packets)
  {
    forall j | 0 <= j < packets ensures Check(b, low + 60 * j, syncAt) != Lost {
      if low + 60 * j >= syncAt {
        assert GoodAt(g, At(t + low, j));
        CutGood(b, g, t, 60 * packets, low, syncAt, j);
      }
    }
    NoneLost(b, low, syncAt, packets);
  }

  /** `out` tiles the stream from `c` on, the last packet perhaps short of its last byte. */
  predicate Tiles(out: seq<Extracted>, g: seq<byte>, c: nat, whole: bool, lastWhole: bool)
    decreases |out|
  {
    out != [] ==>
      && Cut(out[0], g, c, if |out| > 1 then whole else lastWhole)
      && Tiles(out[1..], g, c + 60, whole, lastWhole)
  }

  lemma {:induction false} TilesAt(out: seq<Extracted>, g: seq<byte>, c: nat, whole: bool, k: nat)
    requires Tiles(out, g, c, whole, whole) && k < |out|
    ensures Cut(out[k], g, At(c, k), whole)
    decreases |out|
  {
    if k > 0 {
      TilesAt(out[1..], g, c + 60, whole, k - 1);
      assert At(c + 60, k - 1) == At(c, k);
    }
  }

  lemma {:induction false} TilesConcat(now: seq<Extracted>, later: seq<Extracted>, g: seq<byte>, c: nat, whole: bool)
    requires Tiles(now, g, c, true, whole) && Tiles(later, g, c + 60 * |now|, whole, whole)
    ensures Tiles(now + later, g, c, whole, whole)
    decreases |now|
  {
    if now == [] {
      assert now + later == later;
    } else {
      assert (now + later)[1..] == now[1..] + later;
      TilesConcat(now[1..], later, g, c + 60, whole);
    }
  }

  /** The packets of a call: the one at `low`, and the one behind it. */
  lemma CallTiles(b: seq<byte>, g: seq<byte>, t: nat, packets: nat, low: nat)
    requires packets <= 2 && Shows(b, g, t, 60 * packets) && 0 < low <= 61 && SlotStarts(g, t + low, packets)
    ensures Tiles(ExtractAll(b, low, true, 0, packets), g, t + low, true, low != 61)
  {
    hide GoodAt, Extract, Header;
    var out := ExtractAll(b, low, true, 0, packets);
    forall k | 0 <= k < packets ensures Cut(out[k], g, At(t + low, k), low != 61 || k + 1 < packets) {
      assert GoodAt(g, At(t + low, k));
      CutGood(b, g, t, 60 * packets, low, 0, k);
    }
    if packets > 0 {
      assert Cut(out[0], g, At(t + low, 0), low != 61 || 1 < packets);
    }
    if packets > 1 {
      assert Cut(out[1], g, At(t + low, 1), low != 61) && out[1..] == [out[1]];
    }
    assert packets > 0 ==> Tiles(out[1..], g, t + low + 60, true, low != 61);
  }

  lemma DeframeAligned(s: State, input: seq<byte>)
    requires ValidState(s) && Chunk(input) && s.synced
    ensures var (s', out) := Deframe(s, input);
      var b, n := Filled(s, input), |input|;
      && s'.synced == !AnyLost(b, Low(s.offset), 0, n / 60) && s'.offset == s.offset
      && s'.buf == b[n..n + 60] + b[60..]
      && out == ExtractAll(b, Low(s.offset), true, 0, n / 60)
  {
  }

  /** One aligned call: its packets are the next slots, alignment is kept, and the window has moved on. */
  lemma AlignedCall(s: State, g: seq<byte>, t: nat, input: seq<byte>, packets: nat)
    requires Follows(s, g, t, input) && s.synced && |input| == 60 * packets && SlotStarts(g, t + Low(s.offset), packets)
    ensures var (s', out) := Deframe(s, input);
      && s'.synced && s'.offset == s.offset && |out| == packets
      && s'.buf[..60] == g[t + |input|..t + |input| + 60]
      && Tiles(out, g, t + Low(s.offset), true, s.offset != 1)
  {
    hide Deframe, Filled, Cut, GoodAt, AnyLost, ExtractAll;
    WindowShows(s, g, t, input);
    var b := Filled(s, input);
    CarryShows(b, g, t, |input|);
    NothingLost(b, g, t, packets, Low(s.offset), 0);
    CallTiles(b, g, t, packets, Low(s.offset));
    DeframeAligned(s, input);
  }

  /** The sync search finds its header at `i`. */
  predicate FirstHeader(s: State, input: seq<byte>, i: nat)
    requires ValidState(s) && Chunk(input)
  {
    i < |input| && i == FindHeader(Filled(s, input), 0, |input|)
  }

  lemma DeframeAcquires(s: State, input: seq<byte>, i: nat)
    requires ValidState(s) && Chunk(input) && !s.synced
    requires FirstHeader(s, input, i)
    ensures var (s', out) := Deframe(s, input);
      var b, n, low := Filled(s, input), |input|, Low(i % 60);
      && s'.synced == !AnyLost(b, low, i, n / 60) && s'.offset == i % 60
      && s'.buf == b[n..n + 60] + b[60..]
      && out == ExtractAll(b, low, true, i, n / 60)
  {
  }

  /** The packets of the acquiring call that lie at or behind the header found. */
  lemma PacketsBehind(b: seq<byte>, g: seq<byte>, t: nat, packets: nat, low: nat, i: nat)
    requires packets <= 2 && Shows(b, g, t, 60 * packets) && 0 < low <= 61
    requires forall j {:trigger At(t + low, j)} :: 0 <= j < packets && low + 60 * j >= i ==> GoodAt(g, At(t + low, j))
    ensures var out := ExtractAll(b, low, true, i, packets);
      forall j :: 0 <= j < packets && low + 60 * j >= i ==> Cut(out[j], g, At(t + low, j), low != 61 || j + 1 < packets)
  {
    var out := ExtractAll(b, low, true, i, packets);
    forall j | 0 <= j < packets && low + 60 * j >= i
      ensures Cut(out[j], g, At(t + low, j), low != 61 || j + 1 < packets)
    {
      assert GoodAt(g, At(t + low, j));
      CutGood(b, g, t, 60 * packets, low, i, j);
    }
  }

  lemma StartsBehind(g: seq<byte>, t: nat, packets: nat, low: nat, i: nat, d: int, count: nat)
    requires low == i + 60 * d && low <= 61 && SlotStarts(g, t + i, count) && 60 * packets + 1 < i + 60 * count
    ensures forall j {:trigger At(t + low, j)} :: 0 <= j < packets && low + 60 * j >= i ==> GoodAt(g, At(t + low, j))
  {
    forall j {:trigger At(t + low, j)} | 0 <= j < packets && low + 60 * j >= i
      ensures GoodAt(g, At(t + low, j))
    {
      assert 0 <= d + j < count;
      assert At(t + low, j) == At(t + i, d + j);
    }
  }

  lemma LowIs(i: nat) returns (d: int)
    requires i < 120
    ensures Low(i % 60) == i + 60 * d && 0 < i + 60 * d <= 61
  {
    d := if i % 60 <= 1 then 1 - i / 60 else -(i / 60);
  }

  /** The packets of a call from stream position `t + i` on are cut at `t + low`, 60 bytes apart. */
  predicate TilesFrom(out: seq<Extracted>, g: seq<byte>, t: nat, low: nat, i: nat)
  {
    forall j :: 0 <= j < |out| && low + 60 * j >= i ==> Cut(out[j], g, At(t + low, j), low != 61 || j + 1 < |out|)
  }

  /** The call that takes the alignment on a true header, found `i` bytes into the window: from that header on
      its packets are the slots, and it stays aligned. `count` slots are known to reach past the call. */
  lemma AcquiringCall(s: State, g: seq<byte>, t: nat, input: seq<byte>, packets: nat, i: nat, count: nat)
    requires Follows(s, g, t, input) && !s.synced && |input| == 60 * packets
    requires FirstHeader(s, input, i)
    requires SlotStarts(g, t + i, count) && |input| + 1 < i + 60 * count
    ensures var (s', out) := Deframe(s, input);
      && s'.synced && s'.offset == i % 60 && |out| == packets
      && s'.buf[..60] == g[t + |input|..t + |input| + 60]
      && TilesFrom(out, g, t, Low(i % 60), i)
  {
    var d := LowIs(i);
    StartsBehind(g, t, packets, i + 60 * d, i, d, count);
    AcquiredPackets(s, g, t, input, i, packets, i + 60 * d);
  }

  lemma AcquiredPackets(s: State, g: seq<byte>, t: nat, input: seq<byte>, i: nat, packets: nat, low: nat)
    requires Follows(s, g, t, input) && !s.synced && |input| == 60 * packets
    requires FirstHeader(s, input, i) && low == Low(i % 60)
    requires forall j {:trigger At(t + low, j)} :: 0 <= j < packets && low + 60 * j >= i ==> GoodAt(g, At(t + low, j))
    ensures var (s', out) := Deframe(s, input);
      && s'.synced && s'.offset == i % 60 && |out| == packets
      && s'.buf[..60] == g[t + |input|..t + |input| + 60]
      && TilesFrom(out, g, t, low, i)
  {
    WindowShows(s, g, t, input);
    var b := Filled(s, input);
    CarryShows(b, g, t, |input|);
    NothingLost(b, g, t, packets, low, i);
    PacketsBehind(b, g, t, packets, low, i);
    DeframeAcquires(s, input, i);
  }

  // ---------- runs ----------

  /** The calls, each by the number of packets it brings. */
  predicate GoodCalls(calls: seq<nat>)
  {
    forall i :: 0 <= i < |calls| ==> calls[i] <= 2
  }

  function Total(calls: seq<nat>): nat
  {
    if calls == [] then 0 else calls[0] + Total(calls[1..])
  }

  /** The calls, each on the next bytes of the stream. */
  function RunOn(s: State, g: seq<byte>, t: nat, calls: seq<nat>): (r: (State, seq<Extracted>))
    requires ValidState(s) && t + 60 + 60 * Total(calls) <= |g| && GoodCalls(calls)
    decreases |calls|
  {
    if calls == [] then (s, [])
    else
      var n := 60 * calls[0];
      var (s1, now) := Deframe(s, g[t + 60..t + 60 + n]);
      var (s2, later) := RunOn(s1, g, t + n, calls[1..]);
      (s2, now + later)
  }

  /** Aligned, with the stream received up to `t` + 60. */
  ghost predicate Ready(s: State, g: seq<byte>, t: nat)
  {
    ValidState(s) && s.synced && t + 60 <= |g| && s.buf[..60] == g[t..t + 60]
  }

  lemma RunOnCons(s: State, g: seq<byte>, t: nat, calls: seq<nat>) returns (s1: State, now: seq<Extracted>)
    requires Ready(s, g, t) && t + 60 + 60 * Total(calls) <= |g| && GoodCalls(calls) && calls != []
    requires SlotStarts(g, t + Low(s.offset), calls[0])
    ensures Ready(s1, g, t + 60 * calls[0]) && s1.offset == s.offset && |now| == calls[0] && GoodCalls(calls[1..])
    ensures Tiles(now, g, t + Low(s.offset), true, s.offset != 1)
    ensures RunOn(s, g, t, calls).0 == RunOn(s1, g, t + 60 * calls[0], calls[1..]).0
    ensures RunOn(s, g, t, calls).1 == now + RunOn(s1, g, t + 60 * calls[0], calls[1..]).1
  {
    var input := g[t + 60..t + 60 + 60 * calls[0]];
    AlignedCall(s, g, t, input, calls[0]);
    s1, now := Deframe(s, input).0, Deframe(s, input).1;
  }

  /** Over any number of calls the packets tile the stream: packet `k` is the 60 bytes at 60 * k behind the first,
      none skipped, none repeated, and the alignment is kept to the end. */
  lemma {:induction false} PacketsTile(s: State, g: seq<byte>, t: nat, calls: seq<nat>)
    requires Ready(s, g, t) && t + 60 + 60 * Total(calls) <= |g| && GoodCalls(calls)
    requires SlotStarts(g, t + Low(s.offset), Total(calls))
    ensures RunOn(s, g, t, calls).0.synced && RunOn(s, g, t, calls).0.offset == s.offset
    ensures |RunOn(s, g, t, calls).1| == Total(calls)
    ensures Tiles(RunOn(s, g, t, calls).1, g, t + Low(s.offset), s.offset != 1, s.offset != 1)
    decreases |calls|
  {
    hide Deframe, Low, Cut, GoodAt, Chunk;
    if calls != [] {
      var c, t1, rest := t + Low(s.offset), t + 60 * calls[0], calls[1..];
      LaterStarts(g, c, Total(calls), calls[0]);
      assert At(c, calls[0]) == t1 + Low(s.offset);
      var s1, now := RunOnCons(s, g, t, calls);
      PacketsTile(s1, g, t1, rest);
      TilesConcat(now, RunOn(s1, g, t1, rest).1, g, c, s.offset != 1);
    }
  }

  // ---------- the link ----------

  /** A packet starts like a slot. */
  predicate SlotStart(p: Packet) { GoodAt(p, 0) }

  /** The link: whatever came before, then packets, then whatever comes after. */
  ghost predicate Link(g: seq<byte>, head: seq<byte>, ps: seq<Packet>)
  {
    && (exists tail :: g == head + Concat(ps) + tail)
    && forall i :: 0 <= i < |ps| ==> SlotStart(ps[i])
  }

  /** The slots of a link start like slots when their frames are mSBC frames and damage leaves the first three bytes
      alone; then PacketsOf makes a link. */
  lemma SlotsStart(n: nat, slots: seq<Slot>)
    requires forall i :: 0 <= i < |slots| && slots[i].Intact? ==> SbcFrame(slots[i].payload)
    requires forall i :: 0 <= i < |slots| && slots[i].Damaged? ==> SlotStart(slots[i].packet)
    ensures forall i :: 0 <= i < |slots| ==> SlotStart(PacketsOf(n, slots)[i])
  {
    forall i | 0 <= i < |slots| ensures SlotStart(PacketsOf(n, slots)[i]) {
      PacketAt(n, slots, i);
    }
  }

  lemma LinkByte(g: seq<byte>, head: seq<byte>, ps: seq<Packet>, k: nat, i: nat)
    requires Link(g, head, ps) && k < |ps| && i < 60
    ensures |head| + 60 * k + i < |g| && g[|head| + 60 * k + i] == ps[k][i]
  {
    var tail :| g == head + Concat(ps) + tail;
    ConcatAt(ps, k, i);
    assert g[|head| + (60 * k + i)] == Concat(ps)[60 * k + i];
  }

  lemma LinkPacket(g: seq<byte>, head: seq<byte>, ps: seq<Packet>, k: nat)
    requires Link(g, head, ps) && k < |ps|
    ensures |head| + 60 * k + 60 <= |g|
    ensures g[|head| + 60 * k..|head| + 60 * k + 60] == ps[k]
    ensures GoodAt(g, |head| + 60 * k)
  {
    var c, b := |head| + 60 * k, ps[k];
    LinkByte(g, head, ps, k, 59);
    forall i | 0 <= i < 60 ensures g[c + i] == b[i] {
      LinkByte(g, head, ps, k, i);
    }
    assert SlotStart(ps[k]) && g[c + 0] == b[0] && g[c + 1] == b[1] && g[c + 2] == b[2];
  }

  lemma LinkStarts(g: seq<byte>, head: seq<byte>, ps: seq<Packet>, a: nat, count: nat, c: nat)
    requires Link(g, head, ps) && a + count <= |ps| && c == |head| + 60 * a
    ensures SlotStarts(g, c, count)
  {
    forall k | 0 <= k < count ensures GoodAt(g, At(c, k)) {
      LinkPacket(g, head, ps, a + k);
    }
  }

  /** A packet handed over is packet `p`; at byte offset 1 its padding byte may be missing. */
  predicate IsPacket(x: Extracted, p: Packet, whole: bool)
  {
    x.Aligned? && x.packet[..59] == p[..59] && (whole ==> x.packet == p)
  }

  lemma TileIsPacket(x: Extracted, g: seq<byte>, head: seq<byte>, ps: seq<Packet>, k: nat, c: nat, whole: bool)
    requires Link(g, head, ps) && k < |ps| && c == |head| + 60 * k && Cut(x, g, c, whole)
    ensures IsPacket(x, ps[k], whole)
  {
    LinkPacket(g, head, ps, k);
    assert g[c..c + 59] == g[c..c + 60][..59];
  }

  /** What is handed over are the packets from `a` on. */
  predicate ArePackets(out: seq<Extracted>, ps: seq<Packet>, a: nat, whole: bool)
  {
    a + |out| <= |ps| && forall k :: 0 <= k < |out| ==> IsPacket(out[k], ps[a + k], whole)
  }

  lemma TilesArePackets(out: seq<Extracted>, g: seq<byte>, head: seq<byte>, ps: seq<Packet>, a: nat, c: nat,
      whole: bool)
    requires Link(g, head, ps) && a + |out| <= |ps| && c == |head| + 60 * a && Tiles(out, g, c, whole, whole)
    ensures ArePackets(out, ps, a, whole)
  {
    forall k | 0 <= k < |out| ensures IsPacket(out[k], ps[a + k], whole) {
      TilesAt(out, g, c, whole, k);
      TileIsPacket(out[k], g, head, ps, a + k, At(c, k), whole);
    }
  }

  /** The calls keep the alignment and hand over packets a, a + 1, ... of the link. */
  predicate HandsOver(s: State, g: seq<byte>, t: nat, calls: seq<nat>, ps: seq<Packet>, a: nat)
    requires ValidState(s) && t + 60 + 60 * Total(calls) <= |g| && GoodCalls(calls)
  {
    var (s', out) := RunOn(s, g, t, calls);
    && s'.synced && s'.offset == s.offset && |out| == Total(calls)
    && ArePackets(out, ps, a, s.offset != 1)
  }

  /** Aligned, with packet `a` the next to hand over. */
  ghost predicate OnSlot(s: State, g: seq<byte>, t: nat, head: seq<byte>, a: nat)
  {
    Ready(s, g, t) && t + Low(s.offset) == |head| + 60 * a
  }

  /** End to end: a deframer aligned to packet `a` hands over packets a, a + 1, ... of the link, byte for byte; at
      byte offset 1 it may lack the padding byte. */
  lemma DeframesTheLink(s: State, g: seq<byte>, t: nat, calls: seq<nat>, head: seq<byte>, ps: seq<Packet>, a: nat)
    requires OnSlot(s, g, t, head, a) && t + 60 + 60 * Total(calls) <= |g| && GoodCalls(calls)
    requires Link(g, head, ps) && a + Total(calls) <= |ps|
    ensures HandsOver(s, g, t, calls, ps, a)
  {
    hide RunOn, Link, SlotStarts, Low;
    LinkStarts(g, head, ps, a, Total(calls), t + Low(s.offset));
    PacketsTile(s, g, t, calls);
    TilesArePackets(RunOn(s, g, t, calls).1, g, head, ps, a, t + Low(s.offset), s.offset != 1);
  }

  /** The call whose sync search finds the start of packet `a` leaves the deframer aligned, on packet `b`. */
  lemma SyncTaken(s: State, g: seq<byte>, t: nat, input: seq<byte>, i: nat, head: seq<byte>, ps: seq<Packet>,
      a: nat, b: nat)
    requires Follows(s, g, t, input) && !s.synced && FirstHeader(s, input, i) && Link(g, head, ps)
    requires t + i == |head| + 60 * a && t + |input| + Low(i % 60) == |head| + 60 * b && b <= |ps|
    ensures OnSlot(Deframe(s, input).0, g, t + |input|, head, b)
  {
    LinkStarts(g, head, ps, a, |ps| - a, t + i);
    AcquiringCall(s, g, t, input, |input| / 60, i, |ps| - a);
  }

  /** From the sync search on: all the calls after the one that took the alignment hand over the link's packets,
      from the first that call has not handed over. */
  lemma SyncedOnASlot(s: State, g: seq<byte>, t: nat, input: seq<byte>, i: nat, s1: State, t1: nat,
    calls: seq<nat>, head: seq<byte>, ps: seq<Packet>, a: nat, b: nat)
    requires t1 + 60 + 60 * Total(calls) <= |g| && GoodCalls(calls) && b + Total(calls) <= |ps| && Link(g, head, ps)
    requires Follows(s, g, t, input) && !s.synced && FirstHeader(s, input, i)
    requires t + i == |head| + 60 * a && t + |input| + Low(i % 60) == |head| + 60 * b
    requires s1 == Deframe(s, input).0 && t1 == t + |input|
    ensures HandsOver(s1, g, t1, calls, ps, b)
  {
    hide Deframe, RunOn, Link, Low, FirstHeader;
    assert OnSlot(s1, g, t1, head, b) by {
      SyncTaken(s, g, t, input, i, head, ps, a, b);
    }
    DeframesTheLink(s1, g, t1, calls, head, ps, b);
  }
}
