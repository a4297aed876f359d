/**
 The LHDC fragment reassembler of apps/audioplayers/a2dpplay.cpp: a state machine driven by the
 fragment flags and an 8-bit sequence number, over a 4096-byte buffer.
 */
module LhdcAssembler {
  import opened Ring

  const PACKET_BUFFER_LENGTH: nat := 4096

  /** The flag bits of the first datagram byte: fragment, first fragment, last fragment. */
  datatype Flags = Flags(fragment: bool, first: bool, last: bool) {
    predicate Single() { !fragment && !first && !last }
  }

  predicate Bit(b: byte, mask: nat)
    requires mask > 0
  {
    b / mask % 2 == 1
  }

  function FlagsOf(hdr: byte): Flags
  {
    Flags(Bit(hdr, 0x80), Bit(hdr, 0x40), Bit(hdr, 0x20))
  }

  datatype Status = WaitStart | WaitLast

  /** `held` is the part of packet_buffer that is in use. */
  datatype Asm = Asm(synced: bool, status: Status, serial: byte, held: seq<byte>)

  datatype Option<T> = None | Some(value: T)

  /** The new state, the return code and the packet handed out when the code is 1. */
  datatype Reply = Reply(asm: Asm, ret: int, packet: Option<seq<byte>>)

  function Next(seqno: byte): byte { (seqno + 1) % 256 }

  const RESET: Asm := Asm(false, WaitStart, 0, [])

  function Fresh(a: Asm): Asm { Asm(false, WaitStart, a.serial, []) }

  /** The switch behind the label lhdc_start. */
  function Collect(a: Asm, h: Flags, seqno: byte, payload: seq<byte>): Reply
  {
    match a.status
    case WaitStart =>
      var synced := a.(synced := true, serial := if a.synced then a.serial else Next(seqno));
      if h.Single() then Reply(synced.(held := []), 1, Some(payload))
      else if h.first then
        if |a.held| + |payload| >= PACKET_BUFFER_LENGTH then Reply(a.(held := []), 0, None)
        else Reply(synced.(status := WaitLast, held := payload), 0, None)
      else Reply(a, -1, None)
    case WaitLast =>
      if |a.held| + |payload| >= PACKET_BUFFER_LENGTH then Reply(a.(status := WaitStart, held := []), -1, None)
      else if h.last then Reply(a.(status := WaitStart, held := []), 1, Some(a.held + payload))
      else Reply(a.(held := a.held + payload), 0, None)
  }

  /** assemble_lhdc_packet on one datagram. */
  function Assemble(a: Asm, h: Flags, seqno: byte, payload: seq<byte>): Reply
  {
    if !a.synced then Collect(a, h, seqno, payload)
    else if seqno == a.serial then Collect(a.(serial := Next(seqno)), h, seqno, payload)
    else if h.Single() || h.first then Collect(Fresh(a), h, seqno, payload)
    else Reply(Fresh(a), 0, None)
  }

  /** assemble_lhdc_packet on a datagram as it arrives: flags and latency, sequence number, payload. */
  function AssembleBytes(a: Asm, datagram: seq<byte>): Reply
    requires |datagram| >= 2
  {
    Assemble(a, FlagsOf(datagram[0]), datagram[1], datagram[2..])
  }

  class Assembler {
    const packetBuffer: array<byte>
    var packetBufLen: nat
    var synced: bool
    var status: Status
    var serialNo: byte
    var latency: nat

    ghost predicate Valid()
      reads this
    {
      packetBuffer.Length == PACKET_BUFFER_LENGTH && packetBufLen <= PACKET_BUFFER_LENGTH
    }

    ghost function Model(): Asm
      requires Valid()
      reads this, packetBuffer
    {
      Asm(synced, status, serialNo, packetBuffer[..packetBufLen])
    }

    /** initial_lhdc_assemble_packet */
    constructor (buffer: array<byte>)
      requires buffer.Length == PACKET_BUFFER_LENGTH
      ensures Valid() && packetBuffer == buffer && Model() == Asm(false, WaitStart, 0xff, [])
    {
      packetBuffer := buffer;
      synced, status, packetBufLen, serialNo, latency := false, WaitStart, 0, 0xff, 0;
    }

    /** reset_lhdc_assmeble_packet */
    method ResetAssembly()
      requires Valid()
      modifies this
      ensures Valid() && Model() == Fresh(old(Model())) && latency == old(latency)
      ensures !synced && status == WaitStart && packetBufLen == 0 && serialNo == old(serialNo)
    {
      synced, status, packetBufLen := false, WaitStart, 0;
    }

    /** The copies made by assemble_lhdc_packet. */
    method Append(payload: seq<byte>)
      requires Valid() && packetBufLen + |payload| <= PACKET_BUFFER_LENGTH
      modifies packetBuffer
      ensures packetBuffer[..packetBufLen + |payload|] == old(packetBuffer[..packetBufLen]) + payload
    {
      CopyInto(packetBuffer, packetBufLen, payload);
    }

    method CollectInto(hdr: byte, seqno: byte, payload: seq<byte>) returns (ret: int, packet: Option<seq<byte>>)
      requires Valid() && |payload| <= PACKET_BUFFER_LENGTH
      requires status == WaitStart ==> packetBufLen == 0
      modifies this, packetBuffer
      ensures Valid() && latency == old(latency)
      ensures Reply(Model(), ret, packet) == Collect(old(Model()), FlagsOf(hdr), seqno, payload)
    {
      var h := FlagsOf(hdr);
      ret, packet := -1, None;
      match status {
        case WaitStart =>
          if h.Single() {
            Append(payload);
            assert packetBuffer[..|payload|] == payload;
            packet := Some(packetBuffer[..|payload|]);
            packetBufLen := 0;
            ret := 1;
          } else if h.first {
            ret := 0;
            if packetBufLen + |payload| >= PACKET_BUFFER_LENGTH {
              packetBufLen, status := 0, WaitStart;
              return;
            }
            Append(payload);
            assert packetBuffer[..|payload|] == payload;
            packetBufLen := |payload|;
            status := WaitLast;
          }
          if ret >= 0 && !synced {
            synced, serialNo := true, Next(seqno);
          }
        case WaitLast =>
          if packetBufLen + |payload| >= PACKET_BUFFER_LENGTH {
            packetBufLen, status := 0, WaitStart;
            return;
          }
          Append(payload);
          packetBufLen := packetBufLen + |payload|;
          ret := 0;
          if h.last {
            packet := Some(packetBuffer[..packetBufLen]);
            packetBufLen, ret, status := 0, 1, WaitStart;
          }
      }
    }

    /** assemble_lhdc_packet. Waiting for a start means an empty buffer, before and after. */
    method AssembleInto(input: seq<byte>) returns (ret: int, packet: Option<seq<byte>>)
      requires Valid() && 2 <= |input| <= 2 + PACKET_BUFFER_LENGTH
      requires status == WaitStart ==> packetBufLen == 0
      modifies this, packetBuffer
      ensures Valid() && (status == WaitStart ==> packetBufLen == 0)
      ensures latency == input[0] % 4
      ensures Reply(Model(), ret, packet) == AssembleBytes(old(Model()), input)
    {
      var hdr, seqno := input[0], input[1];
      var h := FlagsOf(hdr);
      latency := hdr % 4;
      if synced {
        if seqno != serialNo {
          ResetAssembly();
          if !(h.Single() || h.first) {
            return 0, None;
          }
        } else {
          serialNo := Next(seqno);
        }
      }
      ret, packet := CollectInto(hdr, seqno, input[2..]);
    }
  }

  // ---------- a sender, a lossy channel, and the assembler ----------

  /** A packet as its list of fragments. */
  type Fragments = p: seq<seq<byte>> | p != [] witness [[]]

  /** The flags the sender gives fragment `f` of `n`. */
  function SenderFlags(f: nat, n: nat): Flags
  {
    if n == 1 then Flags(false, false, false) else Flags(true, f == 0, f + 1 == n)
  }

  function Joined(frags: seq<seq<byte>>): (s: seq<byte>)
  {
    if frags == [] then [] else Joined(frags[..|frags| - 1]) + frags[|frags| - 1]
  }

  /** A packet that the buffer limit lets through: a single fragment, or less than 4096 bytes in all. */
  predicate Fits(p: Fragments)
  {
    |p| == 1 || |Joined(p)| < PACKET_BUFFER_LENGTH
  }

  datatype Progress = Progress(asm: Asm, out: seq<seq<byte>>)

  function Emit(packet: Option<seq<byte>>): seq<seq<byte>>
  {
    if packet.Some? then [packet.value] else []
  }

  /** Datagram number `n` reaches the assembler iff `got(n)`; its sequence number is `n` mod 256. */
  function SendFragment(a: Asm, p: Fragments, f: nat, n: nat, got: nat -> bool): Progress
    requires f < |p|
  {
    if got(n) then
      var r := Assemble(a, SenderFlags(f, |p|), n % 256, p[f]);
      Progress(r.asm, Emit(r.packet))
    else Progress(a, [])
  }

  /** The fragments of `p` from `f` on, the first of them being datagram `n`. */
  function SendFrom(a: Asm, p: Fragments, f: nat, n: nat, got: nat -> bool): Progress
    requires f <= |p|
    decreases |p| - f
  {
    if f == |p| then Progress(a, [])
    else
      var now := SendFragment(a, p, f, n, got);
      var later := SendFrom(now.asm, p, f + 1, n + 1, got);
      Progress(later.asm, now.out + later.out)
  }

  function SendAll(a: Asm, packets: seq<Fragments>, n: nat, got: nat -> bool): Progress
    decreases |packets|
  {
    if packets == [] then Progress(a, [])
    else
      var now := SendFrom(a, packets[0], 0, n, got);
      var later := SendAll(now.asm, packets[1..], n + |packets[0]|, got);
      Progress(later.asm, now.out + later.out)
  }

  predicate AllGot(got: nat -> bool, n: nat, k: nat)
  {
    forall i :: n <= i < n + k ==> got(i)
  }

  /** What an ideal reassembler delivers: the packets that arrived complete and fit, in order. */
  function Complete(packets: seq<Fragments>, n: nat, got: nat -> bool): seq<seq<byte>>
  {
    if packets == [] then []
    else
      (if AllGot(got, n, |packets[0]|) && Fits(packets[0]) then [Joined(packets[0])] else [])
      + Complete(packets[1..], n + |packets[0]|, got)
  }

  /** How many datagrams just before `n` were lost in a row, starting the count at `from`. */
  function LostBefore(got: nat -> bool, from: nat, n: nat): (k: nat)
    requires from <= n
    ensures k <= n - from
    decreases n
  {
    if n == from || got(n - 1) then 0 else 1 + LostBefore(got, from, n - 1)
  }

  /** Whenever a datagram arrives, the sequence number tells whether others were lost since the last one that did:
      their number is 0 or no multiple of 256. */
  ghost predicate GapsNoticed(got: nat -> bool, from: nat)
  {
    forall n :: n >= from && got(n) ==> Noticed(from, n, LostBefore(got, from, n))
  }

  /** A gap of `lost` datagrams before `n`, if any datagram since `from` came before it. */
  predicate Noticed(from: nat, n: nat, lost: nat)
  {
    lost == 0 || n <= from + lost || lost % 256 != 0
  }

  /** The assembler's sequence number is the one after the last datagram it got. */
  ghost predicate InStep(a: Asm, from: nat, n: nat, lost: nat)
  {
    && from + lost <= n
    && (a.status == WaitStart ==> a.held == [])
    && (!a.synced ==> a.status == WaitStart)
    && (a.synced ==> a.serial == (n - lost) % 256 && n > from + lost)
  }

  /** Before fragment `f` of `p`, which is datagram `n`; `all` says that the fragments before it arrived. */
  ghost predicate At(a: Asm, p: Fragments, f: nat, from: nat, n: nat, lost: nat, all: bool)
    requires f <= |p|
  {
    && InStep(a, from, n, lost)
    && if f == 0 || f == |p| then a.status == WaitLast ==> lost > 0
       else if all then lost == 0 && Held(a, Joined(p[..f]))
       else !a.synced || lost > 0
  }

  /** The fragments so far are in the buffer, or have overflowed it. */
  ghost predicate Held(a: Asm, bytes: seq<byte>)
  {
    if |bytes| < PACKET_BUFFER_LENGTH then a.synced && a.status == WaitLast && a.held == bytes
    else a.status == WaitStart
  }

  lemma Differ(n: nat, lost: nat)
    requires lost <= n
    ensures n % 256 == (n - lost) % 256 <==> lost % 256 == 0
  {
  }

  lemma Follow(n: nat)
    ensures (n % 256 + 1) % 256 == (n + 1) % 256
  {
  }

  lemma {:induction false} JoinedTake(p: seq<seq<byte>>, f: nat)
    requires f < |p|
    ensures Joined(p[..f + 1]) == Joined(p[..f]) + p[f]
    ensures |Joined(p[..f])| <= |Joined(p)|
    decreases |p|
  {
    assert p[..f + 1][..f] == p[..f];
    if f + 1 < |p| {
      JoinedTake(p[..|p| - 1], f);
      assert p[..|p| - 1][..f] == p[..f];
    }
  }

  /** Out of step, nothing but a start is taken. */
  lemma StrayFragment(a: Asm, f: nat, from: nat, n: nat, lost: nat, last: bool, payload: seq<byte>)
    requires InStep(a, from, n, lost) && (!a.synced || lost > 0) && Noticed(from, n, lost)
    ensures var r := Assemble(a, Flags(true, false, last), n % 256, payload);
      r.packet == None && !r.asm.synced && InStep(r.asm, from, n + 1, 0)
  {
    if a.synced { Differ(n, lost); }
  }

  /** A start is always taken. */
  lemma FirstFragment(a: Asm, from: nat, n: nat, lost: nat, payload: seq<byte>)
    requires InStep(a, from, n, lost) && (a.status == WaitLast ==> lost > 0) && Noticed(from, n, lost)
    ensures var r := Assemble(a, Flags(false, false, false), n % 256, payload);
      r.packet == Some(payload) && InStep(r.asm, from, n + 1, 0) && r.asm.status == WaitStart
    ensures var r := Assemble(a, Flags(true, true, false), n % 256, payload);
      r.packet == None && InStep(r.asm, from, n + 1, 0) && Held(r.asm, payload)
  {
    Follow(n);
    if a.synced { Differ(n, lost); }
  }

  /** In step, the next fragment is appended; the last one completes the packet. */
  lemma NextFragment(a: Asm, from: nat, n: nat, bytes: seq<byte>, payload: seq<byte>, last: bool)
    requires InStep(a, from, n, 0) && Held(a, bytes)
    ensures var r := Assemble(a, Flags(true, false, last), n % 256, payload);
      && InStep(r.asm, from, n + 1, 0)
      && (if last then r.asm.status == WaitStart else Held(r.asm, bytes + payload))
      && r.packet == if last && |bytes + payload| < PACKET_BUFFER_LENGTH then Some(bytes + payload) else None
  {
    Follow(n);
  }

  /** One fragment: the relation moves on, and a packet comes out exactly when its last fragment completes it. */
  lemma OneFragment(a: Asm, p: Fragments, f: nat, from: nat, n: nat, lost: nat, got: nat -> bool, all: bool)
    requires f < |p| && At(a, p, f, from, n, lost, all) && (f == 0 ==> all)
    requires got(n) ==> Noticed(from, n, lost)
    ensures var now := SendFragment(a, p, f, n, got);
      && At(now.asm, p, f + 1, from, n + 1, if got(n) then 0 else lost + 1, all && got(n))
      && now.out == if f + 1 == |p| && all && got(n) && Fits(p) then [Joined(p)] else []
  {
    JoinedTake(p, f);
    if f + 1 == |p| { assert p[..f + 1] == p; }
    if f == 0 {
      assert Joined(p[..1]) == p[0] by { assert p[..0] == []; }
      if got(n) { FirstFragment(a, from, n, lost, p[0]); }
    } else if all {
      if got(n) { NextFragment(a, from, n, Joined(p[..f]), p[f], f + 1 == |p|); }
    } else if got(n) {
      StrayFragment(a, f, from, n, lost, f + 1 == |p|, p[f]);
    }
  }

  lemma GapNoticed(got: nat -> bool, from: nat, n: nat)
    requires GapsNoticed(got, from) && from <= n
    ensures got(n) ==> Noticed(from, n, LostBefore(got, from, n))
  {
  }

  lemma {:induction false} OnePacket(a: Asm, p: Fragments, f: nat, n: nat, from: nat, got: nat -> bool, all: bool)
    requires f < |p| && from <= n && GapsNoticed(got, from)
    requires At(a, p, f, from, n, LostBefore(got, from, n), all) && (f == 0 ==> all)
    ensures var rest := SendFrom(a, p, f, n, got);
      && At(rest.asm, p, |p|, from, n + |p| - f, LostBefore(got, from, n + |p| - f), true)
      && rest.out == if all && AllGot(got, n, |p| - f) && Fits(p) then [Joined(p)] else []
    decreases |p| - f
  {
    hide SendFragment, Joined, Fits, InStep, Held, Noticed, GapsNoticed;
    GapNoticed(got, from, n);
    var lost := LostBefore(got, from, n);
    var next := LostBefore(got, from, n + 1);
    assert next == if got(n) then 0 else lost + 1;
    OneFragment(a, p, f, from, n, lost, got, all);
    var now := SendFragment(a, p, f, n, got);
    if f + 1 < |p| {
      OnePacket(now.asm, p, f + 1, n + 1, from, got, all && got(n));
      assert AllGot(got, n, |p| - f) <==> got(n) && AllGot(got, n + 1, |p| - f - 1);
    }
  }

  lemma {:induction false} AllPackets(a: Asm, packets: seq<Fragments>, n: nat, from: nat, got: nat -> bool)
    requires from <= n && GapsNoticed(got, from)
    requires InStep(a, from, n, LostBefore(got, from, n)) && (a.status == WaitLast ==> LostBefore(got, from, n) > 0)
    ensures SendAll(a, packets, n, got).out == Complete(packets, n, got)
    decreases |packets|
  {
    hide SendFragment, InStep, Joined, Fits, AllGot, GapsNoticed;
    if packets != [] {
      OnePacket(a, packets[0], 0, n, from, got, true);
      AllPackets(SendFrom(a, packets[0], 0, n, got).asm, packets[1..], n + |packets[0]|, from, got);
    }
  }

  /** Over any lossy run whose gaps the sequence numbers tell, from any starting number: the packets delivered are
      exactly those that arrived complete and fit, each once, in order and byte for byte. In particular fragments
      of two packets are never spliced. */
  lemma DeliversExactlyComplete(serial: byte, packets: seq<Fragments>, from: nat, got: nat -> bool)
    requires GapsNoticed(got, from)
    ensures SendAll(Asm(false, WaitStart, serial, []), packets, from, got).out == Complete(packets, from, got)
  {
    AllPackets(Asm(false, WaitStart, serial, []), packets, from, from, got);
  }

  // ---------- datagrams as bytes ----------

  /** The header byte of fragment `f` of `n`: 0x80 for a fragment, 0x40 more for the first, 0x20 more for the last, and
      the latency in the two lowest bits. */
  function HeaderByte(f: nat, n: nat, latency: nat): (hdr: byte)
    requires f < n && latency < 4
  {
    latency + if n == 1 then 0 else 0x80 + (if f == 0 then 0x40 else 0) + (if f + 1 == n then 0x20 else 0)
  }

  lemma HeaderFlags(f: nat, n: nat, latency: nat)
    requires f < n && latency < 4
    ensures FlagsOf(HeaderByte(f, n, latency)) == SenderFlags(f, n)
    ensures HeaderByte(f, n, latency) % 4 == latency
  {
  }

  /** Fragment `f` of `p` as datagram number `n`. */
  function Datagram(p: Fragments, f: nat, n: nat, latency: nat): (d: seq<byte>)
    requires f < |p| && latency < 4
    ensures |d| >= 2
  {
    [HeaderByte(f, |p|, latency), n % 256] + p[f]
  }

  /** What the assembler hands out of the datagrams of a packet that arrive, as bytes; the sender may set any
      latency. */
  function ReceiveFrom(a: Asm, p: Fragments, f: nat, n: nat, got: nat -> bool, latency: nat -> nat): Progress
    requires f <= |p| && forall i :: latency(i) < 4
    decreases |p| - f
  {
    if f == |p| then Progress(a, [])
    else if !got(n) then ReceiveFrom(a, p, f + 1, n + 1, got, latency)
    else
      var r := AssembleBytes(a, Datagram(p, f, n, latency(n)));
      var later := ReceiveFrom(r.asm, p, f + 1, n + 1, got, latency);
      Progress(later.asm, (if r.packet.Some? then [r.packet.value] else []) + later.out)
  }

  function ReceiveAll(a: Asm, packets: seq<Fragments>, n: nat, got: nat -> bool, latency: nat -> nat): seq<seq<byte>>
    requires forall i :: latency(i) < 4
    decreases |packets|
  {
    if packets == [] then []
    else
      var now := ReceiveFrom(a, packets[0], 0, n, got, latency);
      now.out + ReceiveAll(now.asm, packets[1..], n + |packets[0]|, got, latency)
  }

  lemma {:induction false} ReceivedAsSent(a: Asm, p: Fragments, f: nat, n: nat, got: nat -> bool, latency: nat -> nat)
    requires f <= |p| && forall i :: latency(i) < 4
    ensures ReceiveFrom(a, p, f, n, got, latency) == SendFrom(a, p, f, n, got)
    decreases |p| - f
  {
    hide Assemble, FlagsOf, HeaderByte, SenderFlags;
    if f < |p| {
      var now := SendFragment(a, p, f, n, got);
      if got(n) {
        HeaderFlags(f, |p|, latency(n));
        assert Datagram(p, f, n, latency(n))[2..] == p[f];
        ReceivedAsSent(now.asm, p, f + 1, n + 1, got, latency);
      } else {
        ReceivedAsSent(a, p, f + 1, n + 1, got, latency);
        assert [] + SendFrom(a, p, f + 1, n + 1, got).out == SendFrom(a, p, f + 1, n + 1, got).out;
      }
    }
  }

  lemma {:induction false} AllReceivedAsSent(
      a: Asm, packets: seq<Fragments>, n: nat, got: nat -> bool, latency: nat -> nat)
    requires forall i :: latency(i) < 4
    ensures ReceiveAll(a, packets, n, got, latency) == SendAll(a, packets, n, got).out
    decreases |packets|
  {
    hide ReceiveFrom, SendFrom;
    if packets != [] {
      ReceivedAsSent(a, packets[0], 0, n, got, latency);
      var now := ReceiveFrom(a, packets[0], 0, n, got, latency);
      AllReceivedAsSent(now.asm, packets[1..], n + |packets[0]|, got, latency);
    }
  }

  /** On bytes: of the datagrams that arrive, whatever their latency bits, exactly the packets that arrived complete and
      fit are delivered. */
  lemma DeliversFromBytes(serial: byte, packets: seq<Fragments>, from: nat, got: nat -> bool, latency: nat -> nat)
    requires GapsNoticed(got, from) && forall i :: latency(i) < 4
    ensures ReceiveAll(Asm(false, WaitStart, serial, []), packets, from, got, latency) == Complete(packets, from, got)
  {
    AllReceivedAsSent(Asm(false, WaitStart, serial, []), packets, from, got, latency);
    DeliversExactlyComplete(serial, packets, from, got);
  }

  /** The return code: 1 with a packet; -1 for a fragment that is no start where one is awaited, or that would overflow
      the buffer behind others; 0 otherwise. */
  lemma ReplyCodes(a: Asm, datagram: seq<byte>)
    requires |datagram| >= 2 && (a.status == WaitStart ==> a.held == []) && (!a.synced ==> a.status == WaitStart)
    ensures var r, h := AssembleBytes(a, datagram), datagram[0] / 0x20;
      var stale, start := a.synced && datagram[1] != a.serial, h == 0 || h / 2 % 2 == 1;
      && (r.ret == 1 <==> r.packet.Some?)
      && (r.ret == -1 <==>
            || (a.status == WaitStart && !stale && !start)
            || (a.status == WaitLast && !stale && |a.held| + |datagram| - 2 >= PACKET_BUFFER_LENGTH))
      && r.ret in {-1, 0, 1}
  {
  }

  // ---------- the condition is exact ----------

  /** `k` empty packets of one fragment each. */
  function Singles(k: nat): seq<Fragments>
  {
    if k == 0 then [] else [[[]]] + Singles(k - 1)
  }

  predicate Waiting(a: Asm) { a.status == WaitStart && a.held == [] }

  lemma SendAllCons(a: Asm, p: Fragments, rest: seq<Fragments>, n: nat, got: nat -> bool)
    ensures var now := SendFrom(a, p, 0, n, got);
      SendAll(a, [p] + rest, n, got).out == now.out + SendAll(now.asm, rest, n + |p|, got).out
    ensures Complete([p] + rest, n, got)
      == (if AllGot(got, n, |p|) && Fits(p) then [Joined(p)] else []) + Complete(rest, n + |p|, got)
  {
    assert ([p] + rest)[1..] == rest;
  }

  /** A single is delivered exactly when it arrives, whatever was lost before. */
  lemma OneSingle(a: Asm, n: nat, got: nat -> bool)
    requires Waiting(a)
    ensures var now := SendFrom(a, [[]], 0, n, got);
      Waiting(now.asm) && now.out == if got(n) then [[]] else []
    ensures !got(n) ==> SendFrom(a, [[]], 0, n, got).asm == a
    ensures AllGot(got, n, 1) == got(n) && Fits([[]]) && Joined([[]]) == []
  {
    var p: Fragments := [[]];
    var now := SendFragment(a, p, 0, n, got);
    assert SendFrom(a, p, 0, n, got) == Progress(now.asm, now.out + SendFrom(now.asm, p, 1, n + 1, got).out);
    assert p[..0] == [] && Joined(p) == Joined(p[..0]) + p[0];
  }

  lemma {:induction false} SomeSingles(a: Asm, k: nat, rest: seq<Fragments>, n: nat, got: nat -> bool)
    returns (b: Asm, d: seq<seq<byte>>)
    requires Waiting(a)
    ensures Waiting(b) && SendAll(a, Singles(k) + rest, n, got).out == d + SendAll(b, rest, n + k, got).out
    ensures Complete(Singles(k) + rest, n, got) == d + Complete(rest, n + k, got)
    decreases k
  {
    hide SendFrom, SendAll, Complete, AllGot;
    if k == 0 {
      assert Singles(0) + rest == rest;
      b, d := a, [];
    } else {
      assert Singles(k) + rest == [[[]]] + (Singles(k - 1) + rest);
      SendAllCons(a, [[]], Singles(k - 1) + rest, n, got);
      OneSingle(a, n, got);
      var now := SendFrom(a, [[]], 0, n, got);
      b, d := SomeSingles(now.asm, k - 1, rest, n + 1, got);
      d := now.out + d;
    }
  }

  lemma LostSingle(a: Asm, n: nat, got: nat -> bool)
    requires !got(n)
    ensures SendFrom(a, [[]], 0, n, got) == Progress(a, []) && !AllGot(got, n, 1)
  {
    var p: Fragments := [[]];
    assert SendFrom(a, p, 1, n + 1, got) == Progress(a, []);
  }

  lemma {:induction false} LostSingles(a: Asm, k: nat, rest: seq<Fragments>, n: nat, got: nat -> bool)
    requires forall i :: n <= i < n + k ==> !got(i)
    ensures SendAll(a, Singles(k) + rest, n, got).out == SendAll(a, rest, n + k, got).out
    ensures Complete(Singles(k) + rest, n, got) == Complete(rest, n + k, got)
  {
    hide SendFrom, SendAll, Complete, AllGot;
    if k == 0 {
      assert Singles(0) + rest == rest;
    } else {
      assert Singles(k) + rest == [[[]]] + (Singles(k - 1) + rest);
      SendAllCons(a, [[]], Singles(k - 1) + rest, n, got);
      LostSingle(a, n, got);
      LostSingles(a, k - 1, rest, n + 1, got);
    }
  }

  const PAIR: Fragments := [[], []]

  /** The first half of a pair is taken, the second is lost. */
  lemma HalfPair(a: Asm, n: nat, got: nat -> bool)
    requires Waiting(a) && got(n) && !got(n + 1)
    ensures SendFrom(a, PAIR, 0, n, got) == Progress(Asm(true, WaitLast, (n + 1) % 256, []), [])
    ensures !AllGot(got, n, 2)
  {
    Follow(n);
    var now := SendFragment(a, PAIR, 0, n, got);
    assert SendFrom(now.asm, PAIR, 1, n + 1, got) == Progress(now.asm, []);
  }

  /** The second half of a pair whose first half was lost completes what was held since. */
  lemma OtherHalf(n: nat, m: nat, got: nat -> bool)
    requires !got(n) && got(n + 1) && (n + 1) % 256 == m % 256
    ensures SendFrom(Asm(true, WaitLast, m % 256, []), PAIR, 0, n, got).out == [[]]
    ensures !AllGot(got, n, 2)
  {
    var a := Asm(true, WaitLast, m % 256, []);
    assert SendFragment(a, PAIR, 0, n, got) == Progress(a, []);
    assert a.held + [] == [];
    var r := Assemble(a, Flags(true, false, true), (n + 1) % 256, []);
    assert r.packet == Some([]) && SenderFlags(1, 2) == Flags(true, false, true);
    var now := SendFragment(a, PAIR, 1, n + 1, got);
    assert now == Progress(r.asm, [[]]);
    assert SendFrom(now.asm, PAIR, 2, n + 2, got) == Progress(now.asm, []);
    assert SendFrom(a, PAIR, 1, n + 1, got) == Progress(now.asm, now.out + []);
  }

  lemma {:induction false} LostIsLost(got: nat -> bool, from: nat, n: nat, i: nat)
    requires from <= n && n - LostBefore(got, from, n) <= i < n
    ensures !got(i)
    decreases n
  {
    if i < n - 1 { LostIsLost(got, from, n - 1, i); }
  }

  lemma {:induction false} GotBeforeGap(got: nat -> bool, from: nat, n: nat)
    requires from <= n && from + LostBefore(got, from, n) < n
    ensures got(n - LostBefore(got, from, n) - 1)
    decreases n
  {
    if !got(n - 1) { GotBeforeGap(got, from, n - 1); }
  }

  /** The packets that a gap of `lost` datagrams before datagram `n` would splice. */
  function Victims(from: nat, n: nat, lost: nat): seq<Fragments>
    requires from + lost < n && lost >= 2
  {
    Singles(n - lost - 1 - from) + ([PAIR] + (Singles(lost - 2) + [PAIR]))
  }

  /** What comes of a half pair, `lost` lost datagrams, and the half of another. */
  lemma HalvesSplice(m: nat, lost: nat, got: nat -> bool)
    requires lost >= 2 && lost % 256 == 0 && got(m + 1 + lost) && forall i :: m < i < m + 1 + lost ==> !got(i)
    ensures SendAll(Asm(true, WaitLast, (m + 1) % 256, []), Singles(lost - 2) + [PAIR], m + 2, got).out == [[]]
    ensures Complete(Singles(lost - 2) + [PAIR], m + 2, got) == []
  {
    hide SendFrom, SendAll, Complete, AllGot, Singles;
    var held := Asm(true, WaitLast, (m + 1) % 256, []);
    LostSingles(held, lost - 2, [PAIR], m + 2, got);
    assert [PAIR] == [PAIR] + [];
    SendAllCons(held, PAIR, [], m + lost, got);
    Differ(m + 1 + lost, lost);
    OtherHalf(m + lost, m + 1, got);
    Nothing(SendFrom(held, PAIR, 0, m + lost, got).asm, m + lost + 2, got);
  }

  lemma Nothing(a: Asm, n: nat, got: nat -> bool)
    ensures SendAll(a, [], n, got).out == [] && Complete([], n, got) == []
  {
  }

  /** An unnoticed gap: there is a sequence of packets from which one comes out that was never sent. */
  lemma UnnoticedGapSplices(serial: byte, from: nat, n: nat, got: nat -> bool)
    requires n >= from && got(n) && !Noticed(from, n, LostBefore(got, from, n))
    ensures var packets := Victims(from, n, LostBefore(got, from, n));
      |SendAll(Asm(false, WaitStart, serial, []), packets, from, got).out| == |Complete(packets, from, got)| + 1
  {
    hide SendFrom, SendAll, Complete, AllGot, LostBefore;
    var lost := LostBefore(got, from, n);
    var m, rest := n - lost - 1, Singles(lost - 2) + [PAIR];
    GotBeforeGap(got, from, n);
    forall i | m < i < n ensures !got(i) { LostIsLost(got, from, n, i); }
    var b, d := SomeSingles(Asm(false, WaitStart, serial, []), m - from, [PAIR] + rest, from, got);
    HalfPair(b, m, got);
    SendAllCons(b, PAIR, rest, m, got);
    HalvesSplice(m, lost, got);
  }

  /** The exact condition on the losses under which every sequence of packets is delivered as it arrived. */
  lemma ExactlyNoticedGaps(serial: byte, from: nat, got: nat -> bool)
    ensures GapsNoticed(got, from) <==> forall packets: seq<Fragments> ::
      SendAll(Asm(false, WaitStart, serial, []), packets, from, got).out == Complete(packets, from, got)
  {
    if GapsNoticed(got, from) {
      forall packets: seq<Fragments>
        ensures SendAll(Asm(false, WaitStart, serial, []), packets, from, got).out == Complete(packets, from, got)
      {
        DeliversExactlyComplete(serial, packets, from, got);
      }
    } else {
      var n :| n >= from && got(n) && !Noticed(from, n, LostBefore(got, from, n));
      UnnoticedGapSplices(serial, from, n, got);
    }
  }

  /** On two packets: when `lost` datagrams disappear between the first fragment of one packet and the
      last fragment of another, the two are spliced iff `lost` is a multiple of 256. */
  lemma SpliceIff(x: seq<byte>, y: seq<byte>, n: nat, lost: nat)
    requires |x| + |y| < PACKET_BUFFER_LENGTH
    ensures var a := Assemble(RESET, SenderFlags(0, 2), n % 256, x).asm;
      Assemble(a, SenderFlags(1, 2), (n + 1 + lost) % 256, y).packet == Some(x + y) <==> lost % 256 == 0
  {
    Follow(n);
    var q := lost / 256;
    assert (n + 1 + lost) % 256 == (n + 1) % 256 <==> lost % 256 == 0;
  }
}
