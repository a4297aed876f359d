/** The RPC message queue (apps/app_rpc/rpc_queue.c): 16-bit lengths and payloads in a byte queue. */
module RpcQueue {
  import opened Ring
  import opened CQueue
  import opened Framing

  const LEN_BYTES: nat := 2

  /** rpc_queue_push on the queued bytes: the length is cut to 16 bits, and the payload is queued by a second
      call whose refusal goes unnoticed. */
  function PushBytes(bytes: seq<byte>, capacity: nat, data: seq<byte>): (r: (seq<byte>, int))
    requires |bytes| <= capacity
    ensures |r.0| <= capacity
  {
    var dataLen := |data| % 0x1_0000;
    if data == [] || dataLen + LEN_BYTES > capacity - |bytes| then (bytes, -1)
    else
      var headed := bytes + Word16(dataLen);
      (headed + if |headed| + |data| <= capacity then data else [], 0)
  }

  /** rpc_queue_get_next_entry_length */
  function NextLength(bytes: seq<byte>): nat
  {
    if |bytes| < LEN_BYTES then 0 else Value16(bytes)
  }

  /** What is left of the queue by rpc_queue_pop, and what it hands out. */
  function PopBytes(bytes: seq<byte>, n: nat): (seq<byte>, seq<byte>)
  {
    var rest := if |bytes| < LEN_BYTES then bytes else bytes[LEN_BYTES..];
    if n <= |rest| then (rest[n..], rest[..n]) else (rest, seq(n, _ => 0))
  }

  class MessageQueue {
    const q: ByteQueue

    ghost predicate Valid()
      reads q, q.base
    {
      q.Valid()
    }

    ghost function Bytes(): (b: seq<byte>)
      requires Valid()
      reads q, q.base
      ensures |b| <= q.base.Length
    {
      q.Contents()
    }

    /** rpc_queue_init */
    constructor (buf: array<byte>)
      modifies buf
      ensures Valid() && fresh(q) && q.base == buf && Bytes() == []
    {
      forall i | 0 <= i < buf.Length { buf[i] := 0; }
      q := new ByteQueue(buf);
    }

    method Push(data: seq<byte>) returns (ret: int)
      requires Valid()
      modifies q, q.base
      ensures Valid() && (Bytes(), ret) == PushBytes(old(Bytes()), q.base.Length, data)
    {
      ret := -1;
      if |data| > 0 {
        var dataLen := |data| % 0x1_0000;
        var available := q.Available();
        if dataLen + LEN_BYTES <= available {
          var ok := q.Enqueue(Word16(dataLen));
          ghost var headed := Bytes();
          ok := q.Enqueue(data);
          ret := 0;
          assert Bytes() == headed + if ok then data else [];
        }
      }
    }

    method GetNextEntryLength() returns (length: nat)
      requires Valid()
      ensures length == NextLength(Bytes())
    {
      length := 0;
      var seg := q.Peek(LEN_BYTES);
      if seg.Segments? {
        var w := q.base[seg.off1..seg.off1 + seg.n1] + q.base[..seg.n2];
        length := Value16(w);
      }
    }

    /** memset on the two segments just popped: the bytes still queued are elsewhere. */
    method Wipe(seg: Segments, ghost start: nat)
      requires Valid() && seg.Segments? && seg.n1 + seg.n2 + q.len <= q.base.Length
      requires seg.n1 + seg.n2 > 0 ==> start < q.base.Length
      requires seg.off1 == start && seg.off1 + seg.n1 <= q.base.Length
          && (seg.n2 > 0 ==> seg.off1 + seg.n1 == q.base.Length)
      requires q.base.Length > 0 && start < q.base.Length ==> q.read == Advance(start, seg.n1 + seg.n2, q.base.Length)
      modifies q.base
      ensures Valid() && Bytes() == old(Bytes())
    {
      ghost var n := seg.n1 + seg.n2;
      ghost var was := q.base[..];
      var zeros1, zeros2 := seq(seg.n1, _ => 0), seq(seg.n2, _ => 0);
      CopyInto(q.base, seg.off1, zeros1);
      CopyInto(q.base, 0, zeros2);
      if n > 0 {
        assert q.base[..] == Store(was, start, zeros1 + zeros2);
        StoreFrame(was, start, zeros1 + zeros2, q.len);
      } else {
        assert q.base[..] == was;
      }
    }

    method Pop(n: nat) returns (buff: seq<byte>)
      requires Valid()
      modifies q, q.base
      ensures Valid() && (Bytes(), buff) == PopBytes(old(Bytes()), n)
    {
      var ok := q.Skip(LEN_BYTES);
      var seg := q.Peek(n);
      if seg.Segments? {
        buff := q.base[seg.off1..seg.off1 + seg.n1] + q.base[..seg.n2];
        ghost var start := q.read;
        ok := q.Skip(n);
        Wipe(seg, start);
      } else {
        buff := seq(n, _ => 0);
      }
    }
  }

  // ---------- framing ----------

  predicate Message(m: seq<byte>) { 0 < |m| < 0x1_0000 }

  /** The messages as queued bytes, oldest first. */
  function Framed(messages: seq<seq<byte>>): seq<byte>
  {
    if messages == [] then [] else Word16(|messages[0]|) + messages[0] + Framed(messages[1..])
  }

  predicate Messages(messages: seq<seq<byte>>)
  {
    forall m :: m in messages ==> Message(m)
  }

  lemma {:induction false} FramedAdd(a: seq<seq<byte>>, b: seq<seq<byte>>)
    ensures Framed(a + b) == Framed(a) + Framed(b)
    decreases |a|
  {
    if a == [] {
      assert a + b == b;
    } else {
      assert (a + b)[1..] == a[1..] + b;
      FramedAdd(a[1..], b);
    }
  }

  lemma FramedOne(m: seq<byte>)
    ensures Framed([m]) == Word16(|m|) + m
  {
    assert [m][1..] == [];
    assert Framed([m][1..]) == [];
  }

  lemma PushMessage(bytes: seq<byte>, capacity: nat, m: seq<byte>)
    requires |bytes| <= capacity && Message(m)
    ensures PushBytes(bytes, capacity, m) ==
      if |bytes| + LEN_BYTES + |m| <= capacity then (bytes + (Word16(|m|) + m), 0) else (bytes, -1)
  {
    assert bytes + Word16(|m|) + m == bytes + (Word16(|m|) + m);
  }

  /** A push of a message is all or nothing and keeps the queue a concatenation of messages. */
  lemma PushFramed(messages: seq<seq<byte>>, capacity: nat, m: seq<byte>)
    requires |Framed(messages)| <= capacity && Message(m)
    ensures PushBytes(Framed(messages), capacity, m) ==
      if |Framed(messages)| + LEN_BYTES + |m| <= capacity then (Framed(messages + [m]), 0) else (Framed(messages), -1)
  {
    PushMessage(Framed(messages), capacity, m);
    FramedAdd(messages, [m]);
    FramedOne(m);
  }

  lemma PopHead(m: seq<byte>, rest: seq<byte>)
    requires Message(m)
    ensures NextLength(Word16(|m|) + m + rest) == |m|
    ensures PopBytes(Word16(|m|) + m + rest, |m|) == (rest, m)
  {
    var bytes := Word16(|m|) + m + rest;
    assert bytes[..2] == Word16(|m|) && Value16(bytes) == Value16(Word16(|m|));
    assert bytes[2..] == m + rest;
    assert (m + rest)[..|m|] == m && (m + rest)[|m|..] == rest;
  }

  /** A pop of the announced length returns the oldest message, byte for byte, and leaves the others. */
  lemma PopFramed(messages: seq<seq<byte>>)
    requires messages != [] && Messages(messages)
    ensures NextLength(Framed(messages)) == |messages[0]|
    ensures PopBytes(Framed(messages), |messages[0]|) == (Framed(messages[1..]), messages[0])
  {
    PopHead(messages[0], Framed(messages[1..]));
  }

  /** A message takes at least three bytes. */
  lemma {:induction false} FramedLength(messages: seq<seq<byte>>)
    requires Messages(messages)
    ensures 3 * |messages| <= |Framed(messages)|
    decreases |messages|
  {
    if messages != [] {
      assert Message(messages[0]);
      FramedLength(messages[1..]);
    }
  }

  /** Messages are told apart: equal bytes are equal messages. */
  lemma {:induction false} FramedUnique(a: seq<seq<byte>>, tail: seq<byte>, b: seq<seq<byte>>)
    requires Messages(a) && Messages(b) && Framed(a) + tail == Framed(b)
    ensures |a| <= |b| && tail == Framed(b[|a|..])
    decreases |a|
  {
    FramedLength(a);
    if a == [] {
      assert b[0..] == b;
    } else {
      assert Message(a[0]);
      PopHead(a[0], Framed(a[1..]) + tail);
      assert Framed(b) == Word16(|a[0]|) + a[0] + (Framed(a[1..]) + tail);
      PopFramed(b);
      FramedUnique(a[1..], tail, b[1..]);
      assert b[|a|..] == b[1..][|a| - 1..];
    }
  }

  ghost predicate IsFramed(bytes: seq<byte>)
  {
    exists messages :: Messages(messages) && bytes == Framed(messages)
  }

  /** A block that takes its room but whose length does not fit 16 bits. */
  predicate CutShort(room: nat, data: seq<byte>)
  {
    |data| >= 0x1_0000 && |data| % 0x1_0000 + LEN_BYTES <= room
  }

  /** Behind a framed queue, a header and what follows it are framed exactly when they are on their own. */
  lemma FramedBehind(messages: seq<seq<byte>>, tail: seq<byte>)
    requires Messages(messages)
    ensures IsFramed(Framed(messages) + tail) <==> IsFramed(tail)
  {
    if IsFramed(Framed(messages) + tail) {
      var all :| Messages(all) && Framed(messages) + tail == Framed(all);
      FramedUnique(messages, tail, all);
      assert Messages(all[|messages|..]);
    }
    if IsFramed(tail) {
      var more :| Messages(more) && tail == Framed(more);
      FramedAdd(messages, more);
      assert Messages(messages + more);
    }
  }

  lemma HeaderBytes(n: nat, data: seq<byte>)
    requires n < 0x1_0000 && n <= |data|
    ensures var bytes := Word16(n) + data; Value16(bytes) == n && bytes[2..] == data
  {
    var bytes := Word16(n) + data;
    assert bytes[..2] == Word16(n) && Value16(bytes) == Value16(Word16(n));
  }

  /** A header for `n` bytes with more bytes than that: they must be a message and further messages. */
  lemma FramedHeader(n: nat, data: seq<byte>)
    requires n < 0x1_0000 && n <= |data|
    ensures IsFramed(Word16(n) + data) <==> n > 0 && IsFramed(data[n..])
  {
    hide Word16, Value16;
    var bytes := Word16(n) + data;
    HeaderBytes(n, data);
    if IsFramed(bytes) {
      var all :| Messages(all) && bytes == Framed(all);
      PopFramed(all);
      assert all[0] in all && Messages(all[1..]);
      assert data[n..] == Framed(all[1..]);
    }
    if n > 0 && IsFramed(data[n..]) {
      var more :| Messages(more) && data[n..] == Framed(more);
      assert ([data[..n]] + more)[1..] == more && Messages([data[..n]] + more);
      assert data == data[..n] + data[n..];
      assert bytes == Word16(n) + data[..n] + Framed(more);
      assert bytes == Framed([data[..n]] + more);
    }
  }

  lemma HeaderAlone(n: nat)
    requires n < 0x1_0000
    ensures !IsFramed(Word16(n))
  {
    if IsFramed(Word16(n)) {
      var all :| Messages(all) && Word16(n) == Framed(all);
      FramedLength(all);
      assert false;
    }
  }

  /** When a push leaves the queue a concatenation of messages: for every block but one that is cut short; of such a
      block the header gets in, and the bytes behind the announced ones would have to be whole messages themselves. */
  lemma PushKeepsFramingIff(messages: seq<seq<byte>>, capacity: nat, data: seq<byte>)
    requires Messages(messages) && |Framed(messages)| <= capacity
    ensures var room, n := capacity - |Framed(messages)|, |data| % 0x1_0000;
      IsFramed(PushBytes(Framed(messages), capacity, data).0)
      <==> !CutShort(room, data) || (LEN_BYTES + |data| <= room && n > 0 && IsFramed(data[n..]))
  {
    var room, n := capacity - |Framed(messages)|, |data| % 0x1_0000;
    var bytes := PushBytes(Framed(messages), capacity, data).0;
    if CutShort(room, data) {
      if LEN_BYTES + |data| <= room {
        assert bytes == Framed(messages) + (Word16(n) + data);
        FramedBehind(messages, Word16(n) + data);
        FramedHeader(n, data);
      } else {
        assert bytes == Framed(messages) + Word16(n);
        FramedBehind(messages, Word16(n));
        HeaderAlone(n);
      }
    } else if data != [] && |data| < 0x1_0000 {
      PushFramed(messages, capacity, data);
      assert Messages(messages + [data]);
    } else {
      assert bytes == Framed(messages);
    }
  }

  /** An empty block is refused. */
  lemma EmptyRefused(bytes: seq<byte>, capacity: nat)
    requires |bytes| <= capacity
    ensures PushBytes(bytes, capacity, []) == (bytes, -1)
  {
  }

  /** An input on which it fails: a queue of 2048 bytes takes the header of a block of 65537 bytes, for one byte, and
      reports success. */
  lemma LongBlockCutShort(x: byte)
    ensures PushBytes([], 2048, seq(65537, _ => x)) == ([1, 0], 0) && !IsFramed([1, 0])
  {
    var data := seq(65537, _ => x);
    assert Word16(1) == [1, 0];
    assert [] + Word16(1) + [] == [1, 0];
    HeaderAlone(1);
  }
}
