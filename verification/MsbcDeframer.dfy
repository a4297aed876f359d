/**
 The deframer of apps/audioplayers/bt_sco_codec_msbc.c: it finds the byte alignment of the packets in
 the received stream and slides a window over it, 60 bytes of which are carried from call to call.
 */
module MsbcDeframer {
  import opened Ring
  import opened MsbcPacket

  // The buffer msbc_buf_all has 181 bytes: 60 carried bytes, up to 120 new ones, and one more.

  /** The three header bytes at `i`. */
  predicate Header(b: seq<byte>, i: nat)
    requires i + 2 < |b|
  {
    b[i] == 0x01 && b[i + 1] % 16 == 0x08 && b[i + 2] == 0xad
  }

  predicate MuteStart(b: seq<byte>, i: nat)
    requires i + 2 < |b|
  {
    b[i] == MUTE_PATTERN && b[i + 1] % 16 == MUTE_PATTERN % 16 && b[i + 2] == MUTE_PATTERN
  }

  /** The sync search: the first header at `i` or after, below `n`. */
  function FindHeader(b: seq<byte>, i: nat, n: nat): (k: nat)
    requires i <= n && n + 2 <= |b|
    ensures i <= k <= n && (k < n ==> Header(b, k))
    ensures forall j :: i <= j < k ==> !Header(b, j)
    decreases n - i
  {
    if i == n || Header(b, i) then i else FindHeader(b, i + 1, n)
  }

  /** Where the first packet of a call starts: offsets 0 and 1 are taken a packet later. */
  function Low(offset: nat): nat
  {
    if offset == 0 || offset == 1 then offset + 60 else offset
  }

  /** What the check of one packet position finds: the header one byte early, in place, one byte late, a muted
      slot, something else at or after the sync position, or before it. */
  datatype Verdict = Early | InPlace | Late | Mute | Lost | Before

  function Check(b: seq<byte>, at: nat, syncAt: nat): Verdict
    requires 0 < at && at + 3 < |b|
  {
    if b[at - 1] == 0x01 && b[at] % 16 == 0x08 && b[at + 1] == 0xad then Early
    else if Header(b, at) then InPlace
    else if Header(b, at + 1) then Late
    else if MuteStart(b, at) then Mute
    else if at >= syncAt then Lost
    else Before
  }

  /** A packet handed to the loss detector; the shifted copy of a drifted packet is not modelled. */
  datatype Extracted = Aligned(packet: Packet) | Drifted

  function ExtractAt(b: seq<byte>, at: nat, drifts: bool): Extracted
    requires at + 60 <= |b|
  {
    if drifts then Drifted else Aligned(b[at..at + 60])
  }

  predicate Shifts(v: Verdict) { v == Early || v == Late }

  /** The deframer between calls. */
  datatype State = State(buf: seq<byte>, synced: bool, offset: nat)

  predicate ValidState(s: State)
  {
    |s.buf| == 181 && s.offset < 60
  }

  predicate Chunk(input: seq<byte>)
  {
    |input| % 60 == 0 && |input| <= 120
  }

  /** The buffer with the new bytes in place. */
  function Filled(s: State, input: seq<byte>): (b: seq<byte>)
    requires ValidState(s) && Chunk(input)
    ensures |b| == 181
  {
    s.buf[..60] + input + s.buf[60 + |input|..]
  }

  /** The alignment a call works with, and the position where it was found if that was in this call. */
  function Acquire(s: State, b: seq<byte>, n: nat): (r: (bool, nat, nat))
    requires ValidState(s) && |b| == 181 && n <= 120
    ensures r.1 < 60
  {
    if s.synced then (true, s.offset, 0)
    else
      var i := FindHeader(b, 0, n);
      if i < n then (true, i % 60, i) else (false, s.offset, 0)
  }

  /** Some packet of the call is neither a header nor a mute: alignment is given up after the call. */
  predicate AnyLost(b: seq<byte>, low: nat, syncAt: nat, packets: nat)
    requires 0 < low && |b| == 181 && low <= 61 && packets <= 2
  {
    packets > 0
    && (AnyLost(b, low, syncAt, packets - 1) || Check(b, low + 60 * (packets - 1), syncAt) == Lost)
  }

  function Extract(b: seq<byte>, low: nat, synced: bool, syncAt: nat, j: nat): Extracted
    requires |b| == 181 && low <= 61 && j < 2 && (synced ==> low > 0)
  {
    var at := low + 60 * j;
    ExtractAt(b, at, synced && Shifts(Check(b, at, syncAt)))
  }

  /** The first `k` packets of a call. */
  function ExtractAll(b: seq<byte>, low: nat, synced: bool, syncAt: nat, k: nat): (out: seq<Extracted>)
    requires |b| == 181 && low <= 61 && k <= 2 && (synced ==> low > 0)
    ensures |out| == k && forall j :: 0 <= j < k ==> out[j] == Extract(b, low, synced, syncAt, j)
  {
    if k == 0 then [] else ExtractAll(b, low, synced, syncAt, k - 1) + [Extract(b, low, synced, syncAt, k - 1)]
  }

  /** One call of bt_sco_codec_msbc_decoder as far as framing goes. */
  function Deframe(s: State, input: seq<byte>): (r: (State, seq<Extracted>))
    requires ValidState(s) && Chunk(input)
    ensures ValidState(r.0) && |r.1| == |input| / 60
  {
    var b, n := Filled(s, input), |input|;
    var (synced, offset, syncAt) := Acquire(s, b, n);
    var low := if synced then Low(offset) else 0;
    var packets := n / 60;
    (State(b[n..n + 60] + b[60..], synced && !AnyLost(b, low, syncAt, packets), offset),
     ExtractAll(b, low, synced, syncAt, packets))
  }

  // ---------- one call, in bytes ----------

  /** The bytes of a packet header at `i`. */
  predicate HeaderBytes(b: seq<byte>, i: nat)
    requires i + 2 < |b|
  {
    && b[i] == 0x01 && b[i + 2] == 0xad
    && b[i + 1] in {0x08, 0x18, 0x28, 0x38, 0x48, 0x58, 0x68, 0x78, 0x88, 0x98, 0xa8, 0xb8, 0xc8, 0xd8, 0xe8, 0xf8}
  }

  /** A packet position is all right: a header in place or one byte off, or the start of the mute pattern. */
  predicate Plausible(b: seq<byte>, at: nat)
    requires 0 < at && at + 3 < |b|
  {
    || HeaderBytes(b, at - 1) || HeaderBytes(b, at) || HeaderBytes(b, at + 1)
    || (b[at] == 0x55 && b[at + 1] % 16 == 5 && b[at + 2] == 0x55)
  }

  lemma CheckByBytes(b: seq<byte>, at: nat, syncAt: nat)
    requires 0 < at && at + 3 < |b|
    ensures Check(b, at, syncAt) == Lost <==> at >= syncAt && !Plausible(b, at)
    ensures Check(b, at, syncAt) == Early <==> HeaderBytes(b, at - 1)
    ensures Check(b, at, syncAt) == Late <==> !HeaderBytes(b, at - 1) && !HeaderBytes(b, at) && HeaderBytes(b, at + 1)
  {
  }

  lemma {:induction false} AnyLostIff(b: seq<byte>, low: nat, syncAt: nat, packets: nat)
    requires 0 < low <= 61 && |b| == 181 && packets <= 2
    ensures AnyLost(b, low, syncAt, packets) <==>
      exists j :: 0 <= j < packets && Check(b, low + 60 * j, syncAt) == Lost
  {
    hide Check;
    if packets > 0 { AnyLostIff(b, low, syncAt, packets - 1); }
  }

  /** An aligned call gives the alignment up exactly when one of its packet positions holds neither a header, in place
      or one byte off, nor the mute pattern. Packets whose header is off are marked; the others are the bytes at their
      position. */
  lemma GivesUpIff(s: State, input: seq<byte>)
    requires ValidState(s) && Chunk(input) && s.synced
    ensures var (s', out) := Deframe(s, input);
      var b, low := Filled(s, input), Low(s.offset);
      && (!s'.synced <==> exists j :: 0 <= j < |out| && !Plausible(b, low + 60 * j))
      && s'.offset == s.offset
      && forall j :: 0 <= j < |out| ==>
           var at := low + 60 * j;
           if HeaderBytes(b, at - 1) || (!HeaderBytes(b, at) && HeaderBytes(b, at + 1)) then out[j] == Drifted
           else out[j] == Aligned(b[at..at + 60])
  {
    hide Check, Plausible, HeaderBytes, AnyLost;
    var b, low, packets := Filled(s, input), Low(s.offset), |input| / 60;
    forall j | 0 <= j < packets
      ensures Check(b, low + 60 * j, 0) == Lost <==> !Plausible(b, low + 60 * j)
    {
      CheckByBytes(b, low + 60 * j, 0);
    }
    AnyLostIff(b, low, 0, packets);
    forall j | 0 <= j < packets
      ensures var at := low + 60 * j;
        Shifts(Check(b, at, 0)) <==> HeaderBytes(b, at - 1) || (!HeaderBytes(b, at) && HeaderBytes(b, at + 1))
    {
      CheckByBytes(b, low + 60 * j, 0);
    }
  }

  /** A call that finds no header stays without alignment and hands on its window from the start. */
  lemma StaysUnaligned(s: State, input: seq<byte>)
    requires ValidState(s) && Chunk(input) && !s.synced
    requires forall i :: 0 <= i < |input| ==> !HeaderBytes(Filled(s, input), i)
    ensures var (s', out) := Deframe(s, input);
      !s'.synced && forall j :: 0 <= j < |out| ==> out[j] == Aligned(Filled(s, input)[60 * j..60 * j + 60])
  {
    var b := Filled(s, input);
    forall i | 0 <= i < |input| ensures !Header(b, i) { assert !HeaderBytes(b, i); }
  }

  class Deframer {
    const buf: array<byte>
    var synced: bool
    var offset: nat

    ghost predicate Valid()
      reads this
    {
      buf.Length == 181 && offset < 60
    }

    ghost function Model(): (s: State)
      requires Valid()
      reads this, buf
      ensures ValidState(s)
    {
      State(buf[..], synced, offset)
    }

    constructor ()
      ensures Valid() && fresh(buf) && Model() == State(seq(181, _ => 0), false, 0)
    {
      buf := new byte[181](_ => 0);
      synced, offset := false, 0;
    }

    /** The sync search at the start of a call. */
    method Search(n: nat) returns (syncAt: nat)
      requires Valid() && n <= 120
      modifies this
      ensures Valid() && (synced, offset, syncAt) == Acquire(old(Model()), buf[..], n)
    {
      syncAt := 0;
      if !synced {
        var i := 0;
        while i < n && !(buf[i] == 0x01 && buf[i + 1] % 16 == 0x08 && buf[i + 2] == 0xad)
          invariant i <= n && FindHeader(buf[..], 0, n) == FindHeader(buf[..], i, n)
          invariant synced == old(synced) && offset == old(offset)
        {
          i := i + 1;
        }
        if i < n {
          synced, offset, syncAt := true, i % 60, i;
        }
      }
    }

    /** The check of every packet position of the call: which ones drift, and whether alignment is lost. */
    method CheckAll(low: nat, syncAt: nat, packets: nat) returns (drifts: seq<bool>, lost: bool)
      requires Valid() && 0 < low <= 61 && packets <= 2
      ensures |drifts| == packets && lost == AnyLost(buf[..], low, syncAt, packets)
      ensures forall k :: 0 <= k < packets ==> drifts[k] == Shifts(Check(buf[..], low + 60 * k, syncAt))
    {
      drifts, lost := [], false;
      for j := 0 to packets
        invariant |drifts| == j && lost == AnyLost(buf[..], low, syncAt, j)
        invariant forall k :: 0 <= k < j ==> drifts[k] == Shifts(Check(buf[..], low + 60 * k, syncAt))
      {
        var v := Check(buf[..], low + 60 * j, syncAt);
        drifts := drifts + [Shifts(v)];
        lost := lost || v == Lost;
      }
    }

    /** The copies out of the window. */
    method CutAll(low: nat, drifts: seq<bool>) returns (out: seq<Extracted>)
      requires Valid() && low <= 61 && |drifts| <= 2
      ensures |out| == |drifts|
      ensures forall k :: 0 <= k < |out| ==> out[k] == ExtractAt(buf[..], low + 60 * k, drifts[k])
    {
      out := [];
      for j := 0 to |drifts|
        invariant |out| == j
        invariant forall k :: 0 <= k < j ==> out[k] == ExtractAt(buf[..], low + 60 * k, drifts[k])
      {
        out := out + [ExtractAt(buf[..], low + 60 * j, drifts[j])];
      }
    }

    /** The last 60 bytes received are carried to the front. */
    method Carry(n: nat)
      requires Valid() && n <= 120 && n % 60 == 0
      modifies buf
      ensures buf[..] == old(buf[n..n + 60]) + old(buf[60..])
    {
      ghost var was := buf[..];
      for i := 0 to 60
        invariant forall k :: 0 <= k < i ==> buf[k] == was[k + n]
        invariant forall k :: i <= k < 181 ==> buf[k] == was[k]
      {
        buf[i] := buf[i + n];
      }
    }

    /** bt_sco_codec_msbc_decoder, up to the packets it hands to the loss detector. */
    method Decode(input: seq<byte>) returns (out: seq<Extracted>)
      requires Valid() && Chunk(input)
      modifies this, buf
      ensures Valid() && (Model(), out) == Deframe(old(Model()), input)
    {
      ghost var s := Model();
      var n := |input|;
      var packets := n / 60;
      CopyInto(buf, 60, input);
      assert buf[..] == Filled(s, input);
      var syncAt := Search(n);
      assert (synced, offset, syncAt) == Acquire(s, Filled(s, input), n);
      out := Frame(syncAt, packets);
      Carry(n);
    }

    /** The part of bt_sco_codec_msbc_decoder that works on the filled window. */
    method Frame(syncAt: nat, packets: nat) returns (out: seq<Extracted>)
      requires Valid() && packets <= 2
      modifies this`synced
      ensures var low := if old(synced) then Low(offset) else 0;
        && synced == (old(synced) && !AnyLost(buf[..], low, syncAt, packets))
        && out == ExtractAll(buf[..], low, old(synced), syncAt, packets)
    {
      var low := 0;
      var drifts := seq(packets, _ => false);
      if synced {
        low := if offset == 0 || offset == 1 then offset + 60 else offset;
        var lost;
        drifts, lost := CheckAll(low, syncAt, packets);
        if lost {
          synced := false;
        }
      }
      out := CutAll(low, drifts);
    }
  }
}
