/**
 The wrap-around input cache through which the MCU hands encoded bytes to the coprocessor
 (apps/audioplayers/a2dpplay.cpp). Each side owns one position and may act on a stale copy
 of the other's.
 */
module A2dpCache {
  import opened Ring
  import opened CQueue
  import opened Framing

  /** cp_get_in_cache_data_len */
  function DataLen(wpos: nat, rpos: nat, size: nat): (n: nat)
    requires wpos < size && rpos < size
    ensures n < size && Advance(rpos, n, size) == wpos
  {
    if wpos >= rpos then wpos - rpos else size - rpos + wpos
  }

  /** The room the producer sees; one byte always stays free. */
  function FreeLen(wpos: nat, rpos: nat, size: nat): (n: nat)
    requires wpos < size && rpos < size
    ensures n == size - 1 - DataLen(wpos, rpos, size)
  {
    if wpos < rpos then rpos - wpos - 1 else size - wpos + rpos - 1
  }

  /** The bytes from the read position up to the write position. */
  function Between(base: seq<byte>, rpos: nat, wpos: nat): (s: seq<byte>)
    requires wpos < |base| && rpos < |base|
    ensures |s| == DataLen(wpos, rpos, |base|)
  {
    Window(base, rpos, DataLen(wpos, rpos, |base|))
  }

  /** Consuming `k` bytes leaves the rest. */
  lemma BetweenDrop(base: seq<byte>, rpos: nat, wpos: nat, k: nat)
    requires wpos < |base| && rpos < |base| && k <= DataLen(wpos, rpos, |base|)
    ensures Between(base, Advance(rpos, k, |base|), wpos) == Between(base, rpos, wpos)[k..]
  {
    WindowDrop(base, rpos, DataLen(wpos, rpos, |base|), k);
  }

  /** A stale write position shows a prefix of what is there. */
  lemma BetweenStale(base: seq<byte>, rpos: nat, seenW: nat, wpos: nat)
    requires wpos < |base| && rpos < |base| && seenW < |base|
    requires DataLen(seenW, rpos, |base|) <= DataLen(wpos, rpos, |base|)
    ensures Between(base, rpos, seenW) == Between(base, rpos, wpos)[..DataLen(seenW, rpos, |base|)]
  {
    WindowDrop(base, rpos, DataLen(wpos, rpos, |base|), DataLen(seenW, rpos, |base|));
  }

  /** `n` bytes taken `k` bytes behind the read position, on a stale write position. */
  lemma BetweenTake(base: seq<byte>, rpos: nat, seenW: nat, wpos: nat, k: nat, n: nat)
    requires wpos < |base| && rpos < |base| && seenW < |base|
    requires k + n <= DataLen(seenW, rpos, |base|) <= DataLen(wpos, rpos, |base|)
    ensures Advance(Advance(rpos, k, |base|), n, |base|) == Advance(rpos, k + n, |base|)
    ensures n <= DataLen(seenW, Advance(rpos, k, |base|), |base|)
    ensures Between(base, Advance(rpos, k, |base|), seenW)[..n] == Between(base, rpos, wpos)[k..k + n]
    ensures Between(base, Advance(rpos, k + n, |base|), wpos) == Between(base, rpos, wpos)[k + n..]
  {
    BetweenStale(base, rpos, seenW, wpos);
    BetweenDrop(base, rpos, seenW, k);
    BetweenDrop(base, rpos, wpos, k + n);
  }

  /** A block stored at the write position, within the free room, is appended. */
  lemma BetweenStore(base: seq<byte>, rpos: nat, wpos: nat, data: seq<byte>)
    requires wpos < |base| && rpos < |base| && |data| <= FreeLen(wpos, rpos, |base|)
    ensures Between(Store(base, wpos, data), rpos, Advance(wpos, |data|, |base|)) == Between(base, rpos, wpos) + data
  {
    StoreAppends(base, rpos, DataLen(wpos, rpos, |base|), data);
  }

  /** One byte put `done` places behind the write position, within the free room, touches no published byte. */
  lemma BetweenPut(base: seq<byte>, rpos: nat, wpos: nat, done: nat, x: byte)
    requires wpos < |base| && rpos < |base| && done < FreeLen(wpos, rpos, |base|)
    ensures var put := base[Advance(wpos, done, |base|) := x];
      && Between(put, rpos, wpos) == Between(base, rpos, wpos)
      && Window(put, wpos, done + 1) == Window(base, wpos, done) + [x]
  {
    WindowPut(base, wpos, done, x);
  }

  /** Publishing `n` more bytes appends what sits behind the write position. */
  lemma BetweenExtend(base: seq<byte>, rpos: nat, wpos: nat, n: nat)
    requires wpos < |base| && rpos < |base| && n <= FreeLen(wpos, rpos, |base|)
    ensures Between(base, rpos, Advance(wpos, n, |base|)) == Between(base, rpos, wpos) + Window(base, wpos, n)
  {
    WindowSplit(base, rpos, DataLen(wpos, rpos, |base|), n);
  }

  /** The read size handed to the AAC decoder: the first of 64, 128, ..., 2048 above the frame length. */
  function AacReadSize(n: nat): (limit: nat)
    requires n < AAC_LIMIT
    ensures limit in {64, 128, 256, 512, 1024, 2048} && n < limit && (limit > 64 ==> limit / 2 <= n)
  {
    if n < 64 then 64 else if n < 128 then 128 else if n < 256 then 256
    else if n < 512 then 512 else if n < 1024 then 1024 else 2048
  }

  function Lesser(a: nat, b: nat): nat { if a < b then a else b }

  class InCache {
    const cache: array<byte>
    var wpos: nat
    var rpos: nat

    ghost predicate Valid()
      reads this
    {
      wpos < cache.Length && rpos < cache.Length
    }

    /** The bytes handed over and not yet consumed. */
    ghost function Contents(): (s: seq<byte>)
      requires Valid()
      reads this, cache
    {
      Between(cache[..], rpos, wpos)
    }

    constructor (buf: array<byte>)
      requires buf.Length > 0
      ensures Valid() && cache == buf && Contents() == []
    {
      cache := buf;
      wpos, rpos := 0, 0;
    }

    /** mcu_load_a2dp_encoded_data. `seenR` is the producer's copy of the read position: the consumer
        may have moved on since, never back. As many bytes as the producer sees room for leave the
        queue and are appended; no unconsumed byte is touched. */
    method McuLoad(q: ByteQueue, seenR: nat)
      requires Valid() && q.Valid() && q.base != cache
      requires seenR < cache.Length
      requires DataLen(wpos, rpos, cache.Length) <= DataLen(wpos, seenR, cache.Length)
      modifies this`wpos, cache, q
      ensures Valid() && q.Valid()
      ensures var n := Lesser(|old(q.Contents())|, FreeLen(old(wpos), seenR, cache.Length));
        && Contents() == old(Contents()) + old(q.Contents())[..n]
        && q.Contents() == old(q.Contents())[n..]
    {
      hide Window, Store;
      var inW := wpos;
      var free := FreeLen(inW, seenR, cache.Length);
      if free == 0 {
        return;
      }
      var size := q.len;
      if size > free {
        size := free;
      }
      var seg := q.Peek(size);
      if seg.PeekError? {
        return;
      }
      var e1, e2 := q.base[seg.off1..seg.off1 + seg.n1], q.base[..seg.n2];
      BetweenStore(cache[..], rpos, wpos, e1 + e2);
      CopySegments(seenR, e1, e2);
      wpos := Advance(inW, |e1| + |e2|, cache.Length);
      var ok := q.Skip(size);
    }

    /** memcpy below the end of the cache. */
    method CopyStraight(at: nat, e: seq<byte>)
      requires at < cache.Length && at + |e| <= cache.Length
      modifies cache
      ensures cache[..] == Store(old(cache[..]), at, e)
    {
      CopyInto(cache, at, e);
    }

    /** The copy part of mcu_load_a2dp_encoded_data: two segments, each of which may straddle the end. */
    method CopySegments(seenR: nat, e1: seq<byte>, e2: seq<byte>)
      requires Valid() && seenR < cache.Length
      requires |e1| + |e2| <= FreeLen(wpos, seenR, cache.Length)
      modifies cache
      ensures cache[..] == Store(old(cache[..]), wpos, e1 + e2)
    {
      StoreStore(cache[..], wpos, e1, e2);
      var inW := wpos;
      if inW < seenR {
        CopyStraight(inW, e1);
        inW := inW + |e1|;
        CopyStraight(inW, e2);
      } else {
        CopyCircular(cache, inW, e1);
        inW := Advance(inW, |e1|, cache.Length);
        CopyCircular(cache, inW, e2);
      }
    }

    /** cp_get_in_cache_data */
    method GetData(n: nat, seenW: nat, from: nat) returns (data: seq<byte>)
      requires seenW < cache.Length && from < cache.Length && n <= DataLen(seenW, from, cache.Length)
      ensures data == Between(cache[..], from, seenW)[..n]
    {
      WindowDrop(cache[..], from, DataLen(seenW, from, cache.Length), n);
      if seenW > from || cache.Length >= from + n {
        data := cache[from..from + n];
      } else {
        var copyLen := cache.Length - from;
        data := cache[from..from + copyLen] + cache[..n - copyLen];
      }
    }

    /** cp_load_aac_frame, on a copy `seenW` of the write position that may lag behind. `limit` is the
        read size passed to the decoder. */
    method CpLoadAac(seenW: nat) returns (r: Load, limit: nat)
      requires Valid() && seenW < cache.Length
      requires DataLen(seenW, rpos, cache.Length) <= DataLen(wpos, rpos, cache.Length)
      modifies this`rpos
      ensures Valid()
      ensures r == ParseAac(old(Contents())[..DataLen(seenW, old(rpos), cache.Length)])
      ensures Contents() == if r.Loaded? then old(Contents())[r.used..] else old(Contents())
      ensures r.Loaded? ==> |r.frame| < AAC_LIMIT && limit == AacReadSize(|r.frame|)
    {
      hide Window;
      BetweenStale(cache[..], rpos, seenW, wpos);
      ghost var avail := Between(cache[..], rpos, seenW);
      var inR := rpos;
      var n := DataLen(seenW, inR, cache.Length);
      limit := 0;
      if n < 2 {
        return TooShort, limit;
      }
      var aacLen: nat;
      if seenW > inR || cache.Length >= inR + 2 {
        aacLen := Value16([cache[inR], cache[inR + 1]]);
      } else {
        aacLen := Value16([cache[inR], cache[0]]);
      }
      assert aacLen == Value16(avail);
      if aacLen >= 2048 {
        return BadHeader, limit;
      }
      limit := AacReadSize(aacLen);
      if n < 2 + aacLen {
        return Incomplete, limit;
      }
      BetweenTake(cache[..], rpos, seenW, wpos, 2, aacLen);
      inR := Advance(inR, 2, cache.Length);
      var frame := GetData(aacLen, seenW, inR);
      assert frame == avail[2..2 + aacLen];
      rpos := Advance(inR, aacLen, cache.Length);
      r := Loaded(frame, 2 + aacLen);
    }

    /** cp_load_lhdc_frame, after the decoder has said that it can take a packet. The search works on a
        private position: the shared one moves only when a whole packet has been taken. */
    method CpLoadLhdc(seenW: nat) returns (r: Load)
      requires Valid() && seenW < cache.Length
      requires DataLen(seenW, rpos, cache.Length) <= DataLen(wpos, rpos, cache.Length)
      requires LoadFits(Contents()[..DataLen(seenW, rpos, cache.Length)])
      modifies this`rpos
      ensures Valid()
      ensures r == ParseLhdc(old(Contents())[..DataLen(seenW, old(rpos), cache.Length)])
      ensures Contents() == if r.Loaded? then old(Contents())[r.used..] else old(Contents())
      ensures r.Loaded? ==> |r.frame| <= LHDC_READBUF_SIZE - LHDC_HEADER_SIZE
    {
      hide Window, SearchTag, Advance, DataLen;
      BetweenStale(cache[..], rpos, seenW, wpos);
      ghost var avail := Between(cache[..], rpos, seenW);
      var k, inR := FindTag(seenW);
      var n := DataLen(seenW, inR, cache.Length);
      if n < LHDC_HEADER_SIZE {
        return TooShort;
      }
      var header := GetData(8, seenW, inR);
      assert header[4..] == avail[k + 4..k + 8];
      var packetLen := Value32(header[4..]);
      if n < LHDC_HEADER_SIZE + packetLen {
        return Incomplete;
      }
      r := TakePacket(seenW, inR, k, packetLen);
    }

    /** The search of cp_load_lhdc_frame: `k` bytes are skipped to reach `inR`. */
    method FindTag(seenW: nat) returns (k: nat, inR: nat)
      requires Valid() && seenW < cache.Length
      ensures k == SearchTag(Between(cache[..], rpos, seenW), 0)
      ensures k <= DataLen(seenW, rpos, cache.Length) && inR == Advance(rpos, k, cache.Length)
      ensures Between(cache[..], inR, seenW) == Between(cache[..], rpos, seenW)[k..]
    {
      ghost var avail := Between(cache[..], rpos, seenW);
      inR, k := rpos, 0;
      while DataLen(seenW, inR, cache.Length) >= LHDC_HEADER_SIZE
        invariant k <= |avail| && inR < cache.Length && inR == Advance(rpos, k, cache.Length)
        invariant Between(cache[..], inR, seenW) == avail[k..]
        invariant SearchTag(avail, 0) == SearchTag(avail, k)
        decreases |avail| - k
      {
        var header := GetData(8, seenW, inR);
        assert header[..4] == avail[k..k + 4];
        if header[..4] == MAGIC_TAG {
          return;
        }
        BetweenDrop(cache[..], inR, seenW, 1);
        AdvanceAdd(rpos, k, 1, cache.Length);
        inR := Advance(inR, 1, cache.Length);
        k := k + 1;
      }
    }

    /** The end of cp_load_lhdc_frame: `packetLen` payload bytes behind the header at `from`. */
    method TakePacket(seenW: nat, from: nat, k: nat, packetLen: nat) returns (r: Load)
      requires Valid() && seenW < cache.Length
      requires DataLen(seenW, rpos, cache.Length) <= DataLen(wpos, rpos, cache.Length)
      requires k + 8 + packetLen <= DataLen(seenW, rpos, cache.Length) && from == Advance(rpos, k, cache.Length)
      modifies this`rpos
      ensures Valid() && Contents() == old(Contents())[k + 8 + packetLen..]
      ensures r == Loaded(old(Contents())[k + 8..k + 8 + packetLen], k + 8 + packetLen)
    {
      hide Window, DataLen;
      AdvanceAdd(rpos, k, 8, cache.Length);
      BetweenTake(cache[..], rpos, seenW, wpos, k + 8, packetLen);
      var inR := Advance(from, LHDC_HEADER_SIZE, cache.Length);
      var frame := GetData(packetLen, seenW, inR);
      rpos := Advance(inR, packetLen, cache.Length);
      r := Loaded(frame, k + 8 + packetLen);
    }
  }
}
