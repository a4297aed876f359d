/** The bit arithmetic of one CRC step. */
module CrcBits {

  function Xor(a: bv8, b: bv8): bv8 { a ^ b }

  function Shift(crc: bv8): bv8
  {
    if crc & 0x80 != 0 then (crc << 1) ^ 0x07 else crc << 1
  }

  predicate Top(a: bv8) { a & 0x80 != 0 }

  lemma ShiftXorBoth(a: bv8, b: bv8)
    requires Top(a) && Top(b)
    ensures Shift(a ^ b) == Shift(a) ^ Shift(b)
  {
  }

  lemma ShiftXorFirst(a: bv8, b: bv8)
    requires Top(a) && !Top(b)
    ensures Shift(a ^ b) == Shift(a) ^ Shift(b)
  {
  }

  lemma ShiftXorSecond(a: bv8, b: bv8)
    requires !Top(a) && Top(b)
    ensures Shift(a ^ b) == Shift(a) ^ Shift(b)
  {
  }

  lemma ShiftXorNeither(a: bv8, b: bv8)
    requires !Top(a) && !Top(b)
    ensures Shift(a ^ b) == Shift(a) ^ Shift(b)
  {
  }

  /** A shift is linear over xor. */
  lemma ShiftXor(a: bv8, b: bv8)
    ensures Shift(a ^ b) == Shift(a) ^ Shift(b)
  {
    if Top(a) && Top(b) {
      ShiftXorBoth(a, b);
    } else if Top(a) {
      ShiftXorFirst(a, b);
    } else if Top(b) {
      ShiftXorSecond(a, b);
    } else {
      ShiftXorNeither(a, b);
    }
  }

  lemma ShiftZero(a: bv8)
    ensures Shift(a) == 0 <==> a == 0
  {
  }

  lemma XorRegroups(a: bv8, b: bv8, c: bv8, d: bv8)
    ensures (a ^ b) ^ (c ^ d) == (a ^ c) ^ (b ^ d)
  {
  }

  lemma XorZero(a: bv8, b: bv8)
    ensures a ^ b == 0 <==> a == b
    ensures a ^ b == a <==> b == 0
    ensures a ^ 0 == a
  {
  }

  /** Bit `i` of a byte, the most significant first: the order in which crc8_cal takes the bits in. */
  predicate Bit(x: bv8, i: nat)
    requires i < 8
  {
    x & (if i == 0 then 0x80 else if i == 1 then 0x40 else if i == 2 then 0x20 else if i == 3 then 0x10
         else if i == 4 then 0x08 else if i == 5 then 0x04 else if i == 6 then 0x02 else 0x01) != 0
  }

  /** The first `n` bits of a byte. */
  function Front(n: nat): bv8
    requires n < 8
  {
    if n == 0 then 0x00 else if n == 1 then 0x80 else if n == 2 then 0xc0 else if n == 3 then 0xe0
    else if n == 4 then 0xf0 else if n == 5 then 0xf8 else if n == 6 then 0xfc else 0xfe
  }

  /** No bit set in the first `n`, or behind them. */
  lemma FrontClear(x: bv8, n: nat)
    requires n < 8
    ensures (forall i :: 0 <= i < n ==> !Bit(x, i)) ==> x & Front(n) == 0
    ensures (forall i :: n <= i < 8 ==> !Bit(x, i)) ==> x & !Front(n) == 0
  {
    if forall i :: 0 <= i < n ==> !Bit(x, i) {
      assert n > 0 ==> !Bit(x, 0);
      assert n > 1 ==> !Bit(x, 1);
      assert n > 2 ==> !Bit(x, 2);
      assert n > 3 ==> !Bit(x, 3);
      assert n > 4 ==> !Bit(x, 4);
      assert n > 5 ==> !Bit(x, 5);
      assert n > 6 ==> !Bit(x, 6);
    }
    if forall i :: n <= i < 8 ==> !Bit(x, i) {
      assert n <= 0 ==> !Bit(x, 0);
      assert n <= 1 ==> !Bit(x, 1);
      assert n <= 2 ==> !Bit(x, 2);
      assert n <= 3 ==> !Bit(x, 3);
      assert n <= 4 ==> !Bit(x, 4);
      assert n <= 5 ==> !Bit(x, 5);
      assert n <= 6 ==> !Bit(x, 6);
      assert !Bit(x, 7);
    }
  }

  lemma XorComm(a: bv8, b: bv8)
    ensures a ^ b == b ^ a
  {
  }

  function Shifts(x: bv8): bv8 { Shift(Shift(Shift(Shift(Shift(Shift(Shift(Shift(x)))))))) }

  /** The first byte of a burst that starts at its bit `n`, shifted eight times, does not meet the second. */
  lemma BurstShifts(hi: bv8, lo: bv8, n: nat)
    requires n < 8 && hi & Front(n) == 0 && lo & !Front(n) == 0 && (hi != 0 || lo != 0)
    ensures Shifts(hi) != lo
  {
  }
}

/** The CRC-8 that protects the pairing advertisements (apps/btspeaker/btspeaker_main.cpp). */
module Crc8 {
  import opened CrcBits

  // ---------- a checksum as an iterated map, over any type ----------

  function Iterate<T>(f: T -> T, x: T, n: nat): T
  {
    if n == 0 then x else f(Iterate(f, x, n - 1))
  }

  function Fold<T>(f: T -> T, plus: (T, T) -> T, start: T, data: seq<T>): T
  {
    if data == [] then start
    else f(plus(Fold(f, plus, start, data[..|data| - 1]), data[|data| - 1]))
  }

  ghost predicate Linear<T(!new)>(f: T -> T, plus: (T, T) -> T)
  {
    forall a, b :: f(plus(a, b)) == plus(f(a), f(b))
  }

  /** Sums may be regrouped. */
  ghost predicate Regroups<T(!new)>(plus: (T, T) -> T)
  {
    forall a, b, c, d :: plus(plus(a, b), plus(c, d)) == plus(plus(a, c), plus(b, d))
  }

  lemma {:induction false} IterateLinear<T(!new)>(f: T -> T, plus: (T, T) -> T, a: T, b: T, n: nat)
    requires Linear(f, plus)
    ensures Iterate(f, plus(a, b), n) == plus(Iterate(f, a, n), Iterate(f, b, n))
  {
    if n > 0 {
      IterateLinear(f, plus, a, b, n - 1);
    }
  }

  function Sum<T>(plus: (T, T) -> T, x: seq<T>, y: seq<T>): (z: seq<T>)
    requires |x| == |y|
    ensures |z| == |x|
  {
    seq(|x|, i requires 0 <= i < |x| => plus(x[i], y[i]))
  }

  /** The checksum of a sum is the sum of the checksums. */
  lemma {:induction false} FoldLinear<T(!new)>(f: T -> T, plus: (T, T) -> T, a: T, b: T, x: seq<T>, y: seq<T>)
    requires Linear(f, plus) && Regroups(plus) && |x| == |y|
    ensures Fold(f, plus, plus(a, b), Sum(plus, x, y)) == plus(Fold(f, plus, a, x), Fold(f, plus, b, y))
    decreases |x|
  {
    if x != [] {
      var n := |x| - 1;
      assert Sum(plus, x, y)[..n] == Sum(plus, x[..n], y[..n]);
      FoldLinear(f, plus, a, b, x[..n], y[..n]);
      var u, v := Fold(f, plus, a, x[..n]), Fold(f, plus, b, y[..n]);
      assert plus(plus(u, v), plus(x[n], y[n])) == plus(plus(u, x[n]), plus(v, y[n]));
    }
  }

  lemma {:induction false} FoldConcat<T>(f: T -> T, plus: (T, T) -> T, start: T, x: seq<T>, y: seq<T>)
    ensures Fold(f, plus, start, x + y) == Fold(f, plus, Fold(f, plus, start, x), y)
    decreases |y|
  {
    if y == [] {
      assert x + y == x;
    } else {
      var n := |y| - 1;
      assert (x + y)[..|x| + n] == x + y[..n];
      FoldConcat(f, plus, start, x, y[..n]);
    }
  }

  /** Adding zeros changes whether the checksum is zero no more than `f` does. */
  lemma {:induction false} FoldZeros<T(!new)>(f: T -> T, plus: (T, T) -> T, zero: T, start: T, n: nat)
    requires forall a :: (f(a) == zero <==> a == zero) && plus(a, zero) == a
    ensures Fold(f, plus, start, seq(n, _ => zero)) == zero <==> start == zero
  {
    if n > 0 {
      assert seq(n, _ => zero)[..n - 1] == seq(n - 1, _ => zero);
      FoldZeros(f, plus, zero, start, n - 1);
      var u := Fold(f, plus, start, seq(n - 1, _ => zero));
      assert f(plus(u, zero)) == zero <==> plus(u, zero) == zero;
    }
  }

  // ---------- the CRC ----------

  /** Eight shifts: the effect of one byte. */
  function Byte(crc: bv8): bv8 { Iterate(Shift, crc, 8) }

  function Crc(data: seq<bv8>): bv8 { Fold(Byte, Xor, 0, data) }

  /** crc8_cal */
  method Calculate(data: seq<bv8>) returns (crc: bv8)
    ensures crc == Crc(data)
  {
    crc := 0;
    for n := 0 to |data|
      invariant crc == Crc(data[..n])
    {
      crc := Xor(crc, data[n]);
      ghost var start := crc;
      for i := 0 to 8
        invariant crc == Iterate(Shift, start, i)
      {
        crc := Shift(crc);
      }
      assert data[..n + 1][..n] == data[..n];
    }
    assert data[..|data|] == data;
  }

  lemma ShiftIsLinear()
    ensures Linear(Shift, Xor)
  {
    forall a, b ensures Shift(Xor(a, b)) == Xor(Shift(a), Shift(b)) { ShiftXor(a, b); }
  }

  lemma XorIsRegrouped()
    ensures Regroups(Xor)
  {
    forall a, b, c, d ensures Xor(Xor(a, b), Xor(c, d)) == Xor(Xor(a, c), Xor(b, d)) { XorRegroups(a, b, c, d); }
  }

  lemma ByteIsLinear()
    ensures Linear(Byte, Xor) && Regroups(Xor)
  {
    ShiftIsLinear();
    XorIsRegrouped();
    forall a, b ensures Byte(Xor(a, b)) == Xor(Byte(a), Byte(b)) {
      IterateLinear(Shift, Xor, a, b, 8);
    }
  }

  lemma {:induction false} IterateZero(a: bv8, n: nat)
    ensures Iterate(Shift, a, n) == 0 <==> a == 0
  {
    if n > 0 {
      IterateZero(a, n - 1);
      ShiftZero(Iterate(Shift, a, n - 1));
    }
  }

  lemma ByteZero()
    ensures forall a :: (Byte(a) == 0 <==> a == 0) && Xor(a, 0) == a
  {
    forall a ensures (Byte(a) == 0 <==> a == 0) && Xor(a, 0) == a {
      IterateZero(a, 8);
      XorZero(a, 0);
    }
  }

  /** The CRC is linear over xor. */
  lemma CrcXor(x: seq<bv8>, y: seq<bv8>)
    requires |x| == |y|
    ensures Crc(Sum(Xor, x, y)) == Xor(Crc(x), Crc(y))
  {
    ByteIsLinear();
    XorZero(0, 0);
    FoldLinear(Byte, Xor, 0, 0, x, y);
  }

  lemma FoldOne(start: bv8, b: bv8)
    ensures Fold(Byte, Xor, start, [b]) == Byte(Xor(start, b))
  {
    assert [b][..0] == [];
  }

  /** A message is followed by its own CRC exactly when the CRC over both is 0. */
  lemma OwnCrc(data: seq<bv8>, check: bv8)
    ensures Crc(data + [check]) == 0 <==> check == Crc(data)
  {
    FoldConcat(Byte, Xor, 0, data, [check]);
    FoldOne(Crc(data), check);
    ByteZero();
    XorZero(Crc(data), check);
  }

  // ---------- error bursts ----------

  /** Bit `i` of a message. */
  predicate BitAt(e: seq<bv8>, i: nat)
    requires i < 8 * |e|
  {
    Bit(e[i / 8], i % 8)
  }

  /** An error with some bit set, and all set bits within eight positions from `start` on. */
  ghost predicate BurstFrom(e: seq<bv8>, start: nat)
  {
    && (exists i :: 0 <= i < 8 * |e| && BitAt(e, i))
    && forall i :: 0 <= i < 8 * |e| && BitAt(e, i) ==> start <= i < start + 8
  }

  ghost predicate Burst(e: seq<bv8>)
  {
    exists start :: BurstFrom(e, start)
  }

  lemma EightShifts(crc: bv8)
    ensures Byte(crc) == Shifts(crc)
  {
    assert Iterate(Shift, crc, 2) == Shift(Shift(crc));
    assert Iterate(Shift, crc, 4) == Shift(Shift(Iterate(Shift, crc, 2)));
    assert Iterate(Shift, crc, 6) == Shift(Shift(Iterate(Shift, crc, 4)));
    assert Iterate(Shift, crc, 8) == Shift(Shift(Iterate(Shift, crc, 6)));
  }

  /** Where the bits of byte `k` are. */
  lemma BitOfByte(e: seq<bv8>, k: nat, i: nat)
    requires k < |e| && i < 8
    ensures 8 * k + i < 8 * |e| && BitAt(e, 8 * k + i) == Bit(e[k], i)
  {
  }

  lemma BurstByte(e: seq<bv8>, start: nat, k: nat)
    requires BurstFrom(e, start) && k < |e|
    ensures k != start / 8 && k != start / 8 + 1 ==> e[k] == 0
    ensures k == start / 8 ==> e[k] & Front(start % 8) == 0
    ensures k == start / 8 + 1 ==> e[k] & !Front(start % 8) == 0
  {
    forall i | 0 <= i < 8 && Bit(e[k], i) ensures start <= 8 * k + i < start + 8 {
      BitOfByte(e, k, i);
      assert BitAt(e, 8 * k + i);
    }
    FrontClear(e[k], start % 8);
    FrontClear(e[k], 0);
  }

  /** Zeros, then the byte the burst starts in, then at most one more that it touches, then zeros. */
  lemma BurstShape(e: seq<bv8>, start: nat)
    requires BurstFrom(e, start)
    ensures start / 8 < |e|
    ensures var k := start / 8;
      && e[..k] == seq(k, _ => 0)
      && (k + 1 == |e| ==> e[k] != 0)
      && (k + 1 < |e| ==> e[k] & Front(start % 8) == 0 && e[k + 1] & !Front(start % 8) == 0)
      && (k + 1 < |e| ==> e[k] != 0 || e[k + 1] != 0)
      && (k + 2 <= |e| ==> e[k + 2..] == seq(|e| - k - 2, _ => 0))
  {
    var k := start / 8;
    var i :| 0 <= i < 8 * |e| && BitAt(e, i);
    assert i / 8 == k || i / 8 == k + 1;
    assert e[i / 8] != 0;
    forall j | 0 <= j < |e| && j != k && j != k + 1 ensures e[j] == 0 { BurstByte(e, start, j); }
    BurstByte(e, start, k);
    if k + 1 < |e| { BurstByte(e, start, k + 1); }
  }

  /** The CRC of zeros, one byte, and more. */
  lemma CrcBehindZeros(k: nat, hi: bv8, rest: seq<bv8>)
    ensures Crc(seq(k, _ => 0) + [hi] + rest) == Fold(Byte, Xor, Byte(hi), rest)
  {
    var zeros: seq<bv8> := seq(k, _ => 0);
    ByteZero();
    FoldConcat(Byte, Xor, 0, zeros + [hi], rest);
    FoldConcat(Byte, Xor, 0, zeros, [hi]);
    FoldZeros(Byte, Xor, 0, 0, k);
    FoldOne(0, hi);
    XorZero(hi, 0);
    XorComm(0, hi);
  }

  lemma TwoBytesCrc(k: nat, hi: bv8, lo: bv8, after: nat)
    ensures Crc(seq(k, _ => 0) + [hi] + ([lo] + seq(after, _ => 0))) == 0 <==> Byte(hi) == lo
  {
    hide Shift, Byte;
    ByteZero();
    CrcBehindZeros(k, hi, [lo] + seq(after, _ => 0));
    FoldConcat(Byte, Xor, Byte(hi), [lo], seq(after, _ => 0));
    FoldOne(Byte(hi), lo);
    XorZero(Byte(hi), lo);
    FoldZeros(Byte, Xor, 0, Byte(Xor(Byte(hi), lo)), after);
  }

  lemma BurstCrc(e: seq<bv8>, start: nat)
    requires BurstFrom(e, start)
    ensures Crc(e) != 0
  {
    BurstShape(e, start);
    var k := start / 8;
    if k + 1 == |e| {
      assert e == seq(k, _ => 0) + [e[k]] + [];
      CrcBehindZeros(k, e[k], []);
      ByteZero();
    } else {
      var after := |e| - k - 2;
      assert e == seq(k, _ => 0) + [e[k]] + ([e[k + 1]] + seq(after, _ => 0));
      TwoBytesCrc(k, e[k], e[k + 1], after);
      EightShifts(e[k]);
      BurstShifts(e[k], e[k + 1], start % 8);
    }
  }

  /** Every non-zero error whose bits lie within eight positions, anywhere in a message of any length, changes the
      CRC. */
  lemma BurstDetected(message: seq<bv8>, e: seq<bv8>)
    requires |e| == |message| && Burst(e)
    ensures Crc(Sum(Xor, message, e)) != Crc(message)
  {
    var start :| BurstFrom(e, start);
    CrcXor(message, e);
    BurstCrc(e, start);
    XorZero(Crc(message), Crc(e));
  }

  /** In particular every error within one byte. */
  lemma OneByteIsBurst(e: seq<bv8>, k: nat)
    requires k < |e| && e[k] != 0 && forall j :: 0 <= j < |e| && j != k ==> e[j] == 0
    ensures Burst(e)
  {
    FrontClear(e[k], 0);
    if forall i :: 0 <= i < 8 ==> !Bit(e[k], i) {
      assert false;
    }
    var i :| 0 <= i < 8 && Bit(e[k], i);
    BitOfByte(e, k, i);
    assert BitAt(e, 8 * k + i);
    assert BurstFrom(e, 8 * k);
  }

  /** Eight is the most: the nine-bit error that is the generator itself goes unnoticed wherever it falls. */
  lemma NineBitsMissed(message: seq<bv8>, before: nat)
    requires before + 2 <= |message|
    ensures var e := seq(before, _ => 0) + [0x01] + ([0x07] + seq(|message| - before - 2, _ => 0));
      |e| == |message| && Crc(Sum(Xor, message, e)) == Crc(message)
  {
    var zeros: seq<bv8> := seq(before, _ => 0);
    var e := zeros + [0x01] + ([0x07] + seq(|message| - before - 2, _ => 0));
    CrcXor(message, e);
    EightShifts(0x01);
    assert Shifts(0x01) == 0x07;
    TwoBytesCrc(before, 0x01, 0x07, |message| - before - 2);
    XorZero(Crc(message), 0);
  }
}
