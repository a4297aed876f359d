/**
 The two length-framed formats that store_sbc_buffer puts into the byte queue, and the
 parsers by which the coprocessor takes them apart again.
 */
module Framing {
  import opened Ring

  const AAC_LIMIT: nat := 2048
  const LHDC_HEADER_SIZE: nat := 8
  const LHDC_READBUF_SIZE: nat := 4096
  const MAGIC_TAG: seq<byte> := [108, 104, 100, 99]

  /** What one load attempt made of the bytes in view; `used` bytes are consumed by a success. */
  datatype Load = TooShort | BadHeader | Incomplete | Loaded(frame: seq<byte>, used: nat)

  function Word16(n: nat): (w: seq<byte>)
    ensures |w| == 2 && Value16(w) == n % 0x1_0000
  {
    [n % 0x100, (n / 0x100) % 0x100]
  }

  function Value16(w: seq<byte>): nat
    requires |w| >= 2
  {
    w[0] as int + 0x100 * (w[1] as int)
  }

  function Word32(n: nat): (w: seq<byte>)
    ensures |w| == 4
  {
    [n % 0x100, (n / 0x100) % 0x100, (n / 0x1_0000) % 0x100, (n / 0x100_0000) % 0x100]
  }

  function Value32(w: seq<byte>): nat
    requires |w| >= 4
  {
    w[0] as int + 0x100 * (w[1] as int) + 0x1_0000 * (w[2] as int) + 0x100_0000 * (w[3] as int)
  }

  /** The queue bytes of one AAC frame: the low 16 bits of its length, then the frame. */
  function AacBytes(frame: seq<byte>): seq<byte>
  {
    Word16(|frame|) + frame
  }

  function ParseAac(avail: seq<byte>): (r: Load)
    ensures r.Loaded? ==> r.used == 2 + |r.frame| <= |avail|
  {
    if |avail| < 2 then TooShort
    else
      var n := Value16(avail);
      if n >= AAC_LIMIT then BadHeader
      else if |avail| < 2 + n then Incomplete
      else Loaded(avail[2..2 + n], 2 + n)
  }

  /** The queue bytes of one LHDC packet: tag, 32-bit length, payload. */
  function LhdcBytes(frame: seq<byte>): seq<byte>
  {
    MAGIC_TAG + Word32(|frame|) + frame
  }

  predicate TagAt(s: seq<byte>, i: nat)
  {
    i + 4 <= |s| && s[i..i + 4] == MAGIC_TAG
  }

  /** The tag search from position `k`: it stops at the first tag, or where no header fits any more. */
  function SearchTag(avail: seq<byte>, k: nat): (i: nat)
    requires k <= |avail|
    ensures k <= i <= |avail|
    ensures forall j :: k <= j < i ==> !TagAt(avail, j)
    ensures |avail| < i + LHDC_HEADER_SIZE || TagAt(avail, i)
    decreases |avail| - k
  {
    if |avail| < k + LHDC_HEADER_SIZE || TagAt(avail, k) then k else SearchTag(avail, k + 1)
  }

  function ParseLhdc(avail: seq<byte>): (r: Load)
    ensures r.Loaded? ==> LHDC_HEADER_SIZE + |r.frame| <= r.used <= |avail|
  {
    var i := SearchTag(avail, 0);
    if |avail| < i + LHDC_HEADER_SIZE then TooShort
    else
      var n := Value32(avail[i + 4..i + 8]);
      if |avail| < i + LHDC_HEADER_SIZE + n then Incomplete
      else Loaded(avail[i + 8..i + 8 + n], i + 8 + n)
  }

  /** A packet that is taken fits the read buffer. */
  predicate LoadFits(avail: seq<byte>)
  {
    var r := ParseLhdc(avail);
    r.Loaded? ==> |r.frame| <= LHDC_READBUF_SIZE - LHDC_HEADER_SIZE
  }

  /** The bytes in front of a frame: for AAC the length, its low byte first... */
  lemma AacLayout(frame: seq<byte>)
    ensures var b := AacBytes(frame);
      |b| == 2 + |frame| && b[0] as int == |frame| % 256 && b[1] as int == |frame| / 256 % 256 && b[2..] == frame
  {
  }

  /** ...and for LHDC the letters "lhdc" and the length in four bytes, the low one first. */
  lemma LhdcLayout(frame: seq<byte>)
    requires |frame| < 0x1_0000_0000
    ensures var b := LhdcBytes(frame);
      && |b| == 8 + |frame| && b[..4] == ['l' as int, 'h' as int, 'd' as int, 'c' as int] && b[8..] == frame
      && |frame| == b[4] as int + 256 * (b[5] as int + 256 * (b[6] as int + 256 * b[7] as int))
  {
    Word32Value(|frame|);
  }

  /** The AAC parser undoes the framing for exactly the frames shorter than 2048 bytes. */
  lemma AacRoundTrip(frame: seq<byte>, rest: seq<byte>)
    ensures ParseAac(AacBytes(frame) + rest) == Loaded(frame, 2 + |frame|) <==> |frame| < AAC_LIMIT
  {
    var avail := AacBytes(frame) + rest;
    assert Value16(avail) == |frame| % 0x1_0000;
    if |frame| < AAC_LIMIT {
      assert avail[2..2 + |frame|] == frame;
    }
  }

  /** A frame that has only partly arrived is waited for; it is never mistaken for a bad header. */
  lemma AacPartial(frame: seq<byte>, n: nat)
    requires |frame| < AAC_LIMIT && n < |AacBytes(frame)|
    ensures ParseAac(AacBytes(frame)[..n]) == if n < 2 then TooShort else Incomplete
  {
    if n >= 2 {
      assert Value16(AacBytes(frame)[..n]) == |frame|;
    }
  }

  lemma Word32Value(n: nat)
    requires n < 0x1_0000_0000
    ensures Value32(Word32(n)) == n
  {
    var a, b, c := n / 0x100, n / 0x1_0000, n / 0x100_0000;
    assert a / 0x100 == b && b / 0x100 == c && c < 0x100;
  }

  /** A packet behind junk is found, and taken whole, exactly when no tag shows up earlier:
      the search stops at the first match. */
  lemma LhdcRoundTrip(junk: seq<byte>, frame: seq<byte>, rest: seq<byte>)
    requires |frame| < 0x1_0000_0000
    ensures ParseLhdc(junk + LhdcBytes(frame) + rest) == Loaded(frame, |junk| + 8 + |frame|)
            <==> forall i :: 0 <= i < |junk| ==> !TagAt(junk + LhdcBytes(frame), i)
  {
    var all := junk + LhdcBytes(frame);
    var avail := all + rest;
    forall i | 0 <= i <= |junk|
      ensures TagAt(avail, i) <==> TagAt(all, i)
    {
      assert avail[i..i + 4] == all[i..i + 4];
    }
    assert avail[|junk|..|junk| + 4] == MAGIC_TAG;
    assert TagAt(avail, |junk|);
    assert avail[|junk| + 4..|junk| + 8] == Word32(|frame|);
    Word32Value(|frame|);
    assert avail[|junk| + 8..|junk| + 8 + |frame|] == frame;
  }

  /** A packet that has only partly arrived is waited for. */
  lemma LhdcPartial(frame: seq<byte>, n: nat)
    requires |frame| < 0x1_0000_0000 && n < |LhdcBytes(frame)|
    ensures ParseLhdc(LhdcBytes(frame)[..n]) == if n < LHDC_HEADER_SIZE then TooShort else Incomplete
    ensures LoadFits(LhdcBytes(frame)[..n])
  {
    if n >= LHDC_HEADER_SIZE {
      var avail := LhdcBytes(frame)[..n];
      assert avail[0..4] == MAGIC_TAG;
      assert avail[4..8] == LhdcBytes(frame)[4..8] == Word32(|frame|);
      Word32Value(|frame|);
    }
  }
}
