/**
 The circular byte queue of utils/cqueue/cqueue.c, as a ring over an array,
 specified as a bounded FIFO.
 */
module CQueue {
  import opened Ring

  /** PeekCQueue: CQ_ERR, or two segments of the buffer - `n1` bytes at `off1`, then `n2` bytes at 0. */
  datatype Segments = PeekError | Segments(off1: nat, n1: nat, n2: nat)

  class ByteQueue {
    const base: array<byte>
    var read: nat
    var write: nat
    var len: nat

    ghost predicate Valid()
      reads this, base
    {
      && len <= base.Length
      && (base.Length == 0 ==> read == 0 && write == 0)
      && (base.Length > 0 ==> read < base.Length && write == Advance(read, len, base.Length))
    }

    /** The queued bytes, oldest first. */
    ghost function Contents(): (s: seq<byte>)
      requires Valid()
      reads this, base
      ensures |s| == len
    {
      if base.Length == 0 then [] else Window(base[..], read, len)
    }

    constructor (buf: array<byte>)
      ensures Valid() && base == buf && Contents() == []
    {
      base := buf;
      read, write, len := 0, 0, 0;
    }

    method Available() returns (n: nat)
      requires Valid()
      ensures n == base.Length - |Contents()|
    {
      n := base.Length - len;
    }

    /** EnCQueue: the whole block is taken or the queue is left alone. Queued bytes do not move. */
    method Enqueue(e: seq<byte>) returns (ok: bool)
      requires Valid()
      modifies this, base
      ensures Valid() && read == old(read)
      ensures ok == (old(|Contents()|) + |e| <= base.Length)
      ensures Contents() == if ok then old(Contents()) + e else old(Contents())
    {
      if base.Length - len < |e| {
        return false;
      }
      if base.Length > 0 {
        StoreAppends(base[..], read, len, e);
        AdvanceAdd(read, len, |e|, base.Length);
        CopyCircular(base, write, e);
        len, write := len + |e|, Advance(write, |e|, base.Length);
      }
      ok := true;
    }

    /** EnCQueue with a null source: room for `n` bytes is taken, and whatever the buffer holds there is queued. */
    method Reserve(n: nat) returns (ok: bool)
      requires Valid()
      modifies this
      ensures Valid() && read == old(read)
      ensures ok == (old(|Contents()|) + n <= base.Length)
      ensures |Contents()| == old(|Contents()|) + (if ok then n else 0) && old(Contents()) <= Contents()
    {
      hide Window;
      if base.Length - len < n {
        return false;
      }
      if base.Length > 0 {
        WindowDrop(base[..], read, len + n, len);
        AdvanceAdd(read, len, n, base.Length);
      }
      var bytesToTheEnd := base.Length - write;
      len := len + n;
      write := if bytesToTheEnd > n then write + n else n - bytesToTheEnd;
      ok := true;
    }

    /** DeCQueue with a destination buffer. */
    method Dequeue(n: nat) returns (ok: bool, e: seq<byte>)
      requires Valid()
      modifies this
      ensures Valid()
      ensures ok == (n <= old(|Contents()|))
      ensures ok ==> old(Contents()) == e + Contents() && |e| == n
      ensures !ok ==> Contents() == old(Contents()) && e == []
    {
      hide Window;
      if len < n {
        return false, [];
      }
      if base.Length > 0 {
        WindowDrop(base[..], read, len, n);
        WindowPieces(base[..], read, n);
        AdvanceAdd(read, n, len - n, base.Length);
      }
      ghost var all := Contents();
      len := len - n;
      var bytesToTheEnd := base.Length - read;
      if bytesToTheEnd > n {
        e := base[read..read + n];
        read := read + n;
      } else {
        e := base[read..read + bytesToTheEnd] + base[..n - bytesToTheEnd];
        read := n - bytesToTheEnd;
      }
      ok := true;
      assert base.Length > 0 ==> e == all[..n] && Contents() == all[n..];
    }

    /** DeCQueue with a null destination: the bytes are dropped. */
    method Skip(n: nat) returns (ok: bool)
      requires Valid()
      modifies this
      ensures Valid()
      ensures ok == (n <= old(|Contents()|))
      ensures Contents() == if ok then old(Contents())[n..] else old(Contents())
      ensures ok && base.Length > 0 ==> read == Advance(old(read), n, base.Length)
    {
      if len < n {
        return false;
      }
      if base.Length > 0 {
        WindowDrop(base[..], read, len, n);
        AdvanceAdd(read, n, len - n, base.Length);
        ModIsAdvance(read, n, base.Length);
      }
      len := len - n;
      if 0 < base.Length {
        read := (read + n) % base.Length;
      } else {
        read := 0;
      }
      ok := true;
    }

    /** PeekCQueue: it fails exactly when too few bytes are queued; otherwise the two segments
        have `n` bytes in all and spell the front of the queue. */
    method Peek(n: nat) returns (r: Segments)
      requires Valid()
      ensures r.PeekError? <==> n > |Contents()|
      ensures r.Segments? ==>
        && r.n1 + r.n2 == n && r.off1 == read && r.off1 + r.n1 <= base.Length && r.n2 <= base.Length
        && (r.n2 > 0 ==> r.off1 + r.n1 == base.Length)
        && base[r.off1..r.off1 + r.n1] + base[..r.n2] == Contents()[..n]
    {
      if len < n {
        return PeekError;
      }
      if base.Length > 0 {
        WindowDrop(base[..], read, len, n);
      }
      if write > read || base.Length - read >= n {
        r := Segments(read, n, 0);
      } else {
        r := Segments(read, base.Length - read, n - (base.Length - read));
      }
    }
  }
}
