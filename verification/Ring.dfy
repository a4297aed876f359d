/**
 Circular windows over a fixed-size buffer, the vocabulary shared by the byte queue
 (utils/cqueue) and by the two-core input cache of the A2DP decoder.
 */
module Ring {

  /** A byte of a stream; the transport code looks inside it only through Framing.Value16 and its like. */
  type byte = b: int | 0 <= b < 256 witness 0

  /** The position `n` elements after `pos`, wrapping at `size`. */
  function Advance(pos: nat, n: nat, size: nat): (p: nat)
    requires pos < size && n <= size
    ensures p < size
  {
    if pos + n >= size then pos + n - size else pos + n
  }

  /** The `n` elements that start at `pos`, read circularly. */
  function Window<T>(base: seq<T>, pos: nat, n: nat): (w: seq<T>)
    requires pos < |base| && n <= |base|
    ensures |w| == n
    ensures forall k :: 0 <= k < n ==> w[k] == base[if pos + k < |base| then pos + k else pos + k - |base|]
  {
    if pos + n <= |base| then base[pos..pos + n] else base[pos..] + base[..pos + n - |base|]
  }

  /** What sits at index `k` once `data` has been written circularly from `pos`. */
  function StoredAt<T>(base: seq<T>, pos: nat, data: seq<T>, k: nat): T
    requires pos < |base| && |data| <= |base| && k < |base|
  {
    if pos <= k < pos + |data| then data[k - pos]
    else if k + |base| < pos + |data| then data[k + |base| - pos]
    else base[k]
  }

  /** `base` after `data` has been written circularly from `pos`. */
  function Store<T>(base: seq<T>, pos: nat, data: seq<T>): (r: seq<T>)
    requires pos < |base| && |data| <= |base|
    ensures |r| == |base|
    ensures forall k :: 0 <= k < |base| ==> r[k] == StoredAt(base, pos, data, k)
  {
    if pos + |data| <= |base| then
      base[..pos] + data + base[pos + |data|..]
    else
      var k := |base| - pos;
      data[k..] + base[|data| - k..pos] + data[..k]
  }

  /** A window is read in one piece, or in two when it reaches the end of the buffer. */
  lemma WindowPieces<T>(base: seq<T>, pos: nat, n: nat)
    requires pos < |base| && n <= |base|
    ensures pos + n <= |base| ==> Window(base, pos, n) == base[pos..pos + n]
    ensures pos + n >= |base| ==> Window(base, pos, n) == base[pos..] + base[..pos + n - |base|]
  {
  }

  lemma AdvanceAdd(pos: nat, a: nat, b: nat, size: nat)
    requires pos < size && a + b <= size
    ensures Advance(Advance(pos, a, size), b, size) == Advance(pos, a + b, size)
  {
  }

  lemma WindowSplit<T>(base: seq<T>, pos: nat, a: nat, b: nat)
    requires pos < |base| && a + b <= |base|
    ensures Window(base, pos, a + b) == Window(base, pos, a) + Window(base, Advance(pos, a, |base|), b)
  {
    hide Window;
    var left, right := Window(base, pos, a), Window(base, Advance(pos, a, |base|), b);
    forall k | 0 <= k < a + b ensures Window(base, pos, a + b)[k] == (left + right)[k] {
    }
  }

  /** Reading `k` elements moves the window: what is left is the rest of it. */
  lemma WindowDrop<T>(base: seq<T>, pos: nat, n: nat, k: nat)
    requires pos < |base| && k <= n <= |base|
    ensures Window(base, Advance(pos, k, |base|), n - k) == Window(base, pos, n)[k..]
    ensures Window(base, pos, k) == Window(base, pos, n)[..k]
  {
    WindowSplit(base, pos, k, n - k);
  }

  /** One element written just behind a window extends it and leaves it untouched. */
  lemma WindowPut<T>(base: seq<T>, pos: nat, n: nat, x: T)
    requires pos < |base| && n < |base|
    ensures Window(base[Advance(pos, n, |base|) := x], pos, n) == Window(base, pos, n)
    ensures Window(base[Advance(pos, n, |base|) := x], pos, n + 1) == Window(base, pos, n) + [x]
  {
  }

  /** A block written just behind a window extends the window by the block. */
  lemma StoreAppends<T>(base: seq<T>, pos: nat, n: nat, data: seq<T>)
    requires pos < |base| && n + |data| <= |base|
    ensures Window(Store(base, Advance(pos, n, |base|), data), pos, n + |data|) == Window(base, pos, n) + data
  {
  }

  /** A block written in front of a window leaves the window alone. */
  lemma StoreFrame<T>(base: seq<T>, pos: nat, data: seq<T>, n: nat)
    requires pos < |base| && |data| + n <= |base|
    ensures Window(Store(base, pos, data), Advance(pos, |data|, |base|), n)
        == Window(base, Advance(pos, |data|, |base|), n)
  {
  }

  /** Two blocks written one after the other are one block. */
  lemma StoreStore<T>(base: seq<T>, pos: nat, x: seq<T>, y: seq<T>)
    requires pos < |base| && |x| + |y| <= |base|
    ensures Store(Store(base, pos, x), Advance(pos, |x|, |base|), y) == Store(base, pos, x + y)
  {
    var mid := Store(base, pos, x);
    var p := Advance(pos, |x|, |base|);
    var two, one := Store(mid, p, y), Store(base, pos, x + y);
    forall k | 0 <= k < |base|
      ensures two[k] == one[k]
    {
    }
  }

  lemma ModIsAdvance(pos: nat, n: nat, size: nat)
    requires pos < size && n <= size
    ensures (pos + n) % size == Advance(pos, n, size)
  {
    if pos + n >= size {
      assert (pos + n - size) % size == pos + n - size;
      assert (pos + n) % size == (pos + n - size) % size by {
        assert pos + n == size * 1 + (pos + n - size);
      }
    }
  }

  /** memcpy into an array. */
  method CopyInto<T>(dst: array<T>, at: nat, src: seq<T>)
    requires at + |src| <= dst.Length
    modifies dst
    ensures dst[..] == old(dst[..at]) + src + old(dst[at + |src|..])
  {
    forall i | 0 <= i < |src| {
      dst[at + i] := src[i];
    }
  }

  /** The copy pair every ring here uses: up to the end of the buffer, then from its start. */
  method CopyCircular<T>(dst: array<T>, at: nat, src: seq<T>)
    requires at < dst.Length && |src| <= dst.Length
    modifies dst
    ensures dst[..] == Store(old(dst[..]), at, src)
  {
    var toTheEnd := dst.Length - at;
    if toTheEnd > |src| {
      CopyInto(dst, at, src);
    } else {
      CopyInto(dst, at, src[..toTheEnd]);
      CopyInto(dst, 0, src[toTheEnd..]);
    }
  }
}
