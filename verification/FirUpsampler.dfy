/**
 The polyphase FIR upsampler of apps/audioplayers/upsampling_to_48k.cpp: 24 coefficients per phase,
 23 samples of history carried from block to block, a 32-bit accumulator.
 */
module FirUpsampler {

  const COEF_NUM: nat := 24
  const HISTORY: nat := 23

  const ROW_8K_0: seq<int> := [
    64, -311, 210, -320, 363, -407, 410, -356, 196, 191, -1369, 30721,
    3861, -2265, 1680, -1321, 1049, -823, 625, -471, 297, -327, 34, 19]
  const ROW_8K_1: seq<int> := [
    72, -254, 75, -117, 46, 58, -256, 583, -1141, 2197, -4866, 28131,
    10285, -4611, 2935, -2061, 1489, -1075, 755, -523, 310, -291, -19, 31]
  const ROW_8K_2: seq<int> := [
    65, -175, -73, 84, -245, 457, -786, 1276, -2040, 3377, -6428, 23348,
    17094, -6200, 3592, -2347, 1588, -1073, 703, -447, 236, -203, -92, 49]
  const ROW_8K_3: seq<int> := [
    49, -92, -203, 236, -447, 703, -1073, 1588, -2347, 3592, -6200, 17094,
    23348, -6428, 3377, -2040, 1276, -786, 457, -245, 84, -73, -175, 65]
  const ROW_8K_4: seq<int> := [
    31, -19, -291, 310, -523, 755, -1075, 1489, -2061, 2935, -4611, 10285,
    28131, -4866, 2197, -1141, 583, -256, 58, 46, -117, 75, -254, 72]
  const ROW_8K_5: seq<int> := [
    19, 34, -327, 297, -471, 625, -823, 1049, -1321, 1680, -2265, 3861,
    30721, -1369, 191, 196, -356, 410, -407, 363, -320, 210, -311, 64]
  const ROW_16K_0: seq<int> := [
    1, -291, 248, -327, 383, -405, 362, -212, -129, 875, -2948, 29344,
    7324, -3795, 2603, -1913, 1418, -1031, 722, -478, 292, -220, -86, 16]
  const ROW_16K_1: seq<int> := [
    26, -212, 6, 45, -185, 414, -764, 1290, -2099, 3470, -6431, 20320,
    20320, -6431, 3470, -2099, 1290, -764, 414, -185, 45, 6, -212, 26]
  const ROW_16K_2: seq<int> := [
    16, -86, -220, 292, -478, 722, -1031, 1418, -1913, 2603, -3795, 7324,
    29344, -2948, 875, -129, -212, 362, -405, 383, -327, 248, -291, 1]

  const COEF_8K: seq<seq<int>> := [ROW_8K_0, ROW_8K_1, ROW_8K_2, ROW_8K_3, ROW_8K_4, ROW_8K_5]
  const COEF_16K: seq<seq<int>> := [ROW_16K_0, ROW_16K_1, ROW_16K_2]

  /** The ratios whose phases the tables cover. */
  predicate GoodRatio(ratio: nat) { ratio == 6 || 1 <= ratio <= 3 }

  /** us_get_coef_para, a row at a time. */
  function Row(ratio: nat, phase: nat): (row: seq<int>)
    requires GoodRatio(ratio) && phase < ratio
    ensures |row| == COEF_NUM
  {
    if ratio == 6 then COEF_8K[phase] else COEF_16K[phase]
  }

  const TWO31: int := 0x8000_0000
  const TWO32: int := 0x1_0000_0000

  /** A 32-bit accumulator. */
  function Wrap32(x: int): (r: int)
    ensures -TWO31 <= r < TWO31 && (x - r) % TWO32 == 0
    ensures -TWO31 <= x < TWO31 ==> r == x
  {
    (x + TWO31) % TWO32 - TWO31
  }

  /** A cast to short. */
  function Cast16(x: int): (r: int)
    ensures -0x8000 <= r < 0x8000 && (x - r) % 0x1_0000 == 0
    ensures -0x8000 <= x < 0x8000 ==> r == x
  {
    (x + 0x8000) % 0x1_0000 - 0x8000
  }

  /** out += para * coef */
  function MulAcc(out: int, para: int, coef: int): int
  {
    Wrap32(out + para * coef)
  }

  /** The accumulator after `k` taps over a window of samples. */
  function Acc(row: seq<int>, w: seq<int>, k: nat): int
    requires k <= |row| && k <= |w|
  {
    if k == 0 then 0 else MulAcc(Acc(row, w, k - 1), w[k - 1], row[k - 1])
  }

  /** One output sample: (short)(out >> 16). */
  function Output(row: seq<int>, w: seq<int>): int
    requires |row| == COEF_NUM == |w|
  {
    Cast16(Acc(row, w, COEF_NUM) / 0x1_0000)
  }

  /** The outputs for one input sample, which is the last of the window, phase by phase. */
  function Phases(ratio: nat, w: seq<int>, n: nat): (y: seq<int>)
    requires GoodRatio(ratio) && n <= ratio && |w| == COEF_NUM
    ensures |y| == n
  {
    if n == 0 then [] else Phases(ratio, w, n - 1) + [Output(Row(ratio, n - 1), w)]
  }

  /** The outputs for `n` input samples; `x` starts with the 23 samples before them. */
  function Fir(ratio: nat, x: seq<int>, n: nat): (y: seq<int>)
    requires GoodRatio(ratio) && n + HISTORY <= |x|
    ensures |y| == ratio * n
  {
    if n == 0 then [] else Fir(ratio, x, n - 1) + Phases(ratio, x[n - 1..n + HISTORY], ratio)
  }

  class Upsampler {
    var ratio: nat
    const history: array<int>

    ghost predicate Valid()
      reads this
    {
      history.Length == HISTORY && GoodRatio(ratio)
    }

    /** us_fir_init */
    constructor (upsamplingRatio: nat)
      requires GoodRatio(upsamplingRatio)
      ensures Valid() && ratio == upsamplingRatio && fresh(history) && history[..] == seq(HISTORY, _ => 0)
    {
      ratio := upsamplingRatio;
      history := new int[HISTORY](_ => 0);
    }

    /** app_audio_memcpy_16bit within the history: element by element, upwards, so that a move to the front is safe. */
    method MoveDown(d: nat)
      requires Valid() && d <= HISTORY
      modifies history
      ensures history[..HISTORY - d] == old(history[d..]) && history[HISTORY - d..] == old(history[HISTORY - d..])
    {
      var i := 0;
      while i < HISTORY - d
        invariant i <= HISTORY - d
        invariant forall k :: 0 <= k < i ==> history[k] == old(history[k + d])
        invariant forall k :: i <= k < HISTORY ==> history[k] == old(history[k])
      {
        history[i] := history[i + d];
        i := i + 1;
      }
    }

    /** The end of us_fir_run: the last 23 samples seen become the history. */
    method Remember(src: array<int>, n: nat)
      requires Valid() && n <= src.Length && src != history
      modifies history
      ensures history[..] == (old(history[..]) + src[..n])[n..]
    {
      if n >= HISTORY {
        forall i | 0 <= i < HISTORY {
          history[i] := src[n - HISTORY + i];
        }
      } else {
        var start := HISTORY - n;
        ghost var was := history[..];
        MoveDown(n);
        ghost var moved := history[..start];
        forall i | 0 <= i < n {
          history[start + i] := src[i];
        }
        assert history[..start] == moved == was[n..] && history[start..] == src[..n];
        assert (was + src[..n])[n..] == was[n..] + src[..n];
      }
    }

    /** The innermost loop of us_fir_run. */
    method Accumulate(src: array<int>, at: nat, phase: nat) returns (out: int)
      requires Valid() && at < src.Length && phase < ratio
      ensures out == Acc(Row(ratio, phase), (history[..] + src[..])[at..at + COEF_NUM], COEF_NUM)
    {
      ghost var w := (history[..] + src[..])[at..at + COEF_NUM];
      var row := Row(ratio, phase);
      out := 0;
      for k := 0 to COEF_NUM
        invariant out == Acc(row, w, k)
      {
        var i := k + at;
        var para := if i < HISTORY then history[i] else src[i - HISTORY];
        assert para == w[k];
        out := MulAcc(out, para, row[k]);
      }
    }

    /** The loop over the phases of one input sample. */
    method OneSample(src: array<int>, dst: array<int>, at: nat, start: nat)
      requires Valid() && at < src.Length && start + ratio <= dst.Length
      requires dst != history && src != dst
      modifies dst
      ensures dst[..start] == old(dst[..start]) && dst[start + ratio..] == old(dst[start + ratio..])
      ensures dst[start..start + ratio] == Phases(ratio, (history[..] + src[..])[at..at + COEF_NUM], ratio)
    {
      hide Acc, Row;
      ghost var w := (history[..] + src[..])[at..at + COEF_NUM];
      for phase := 0 to ratio
        invariant forall k :: 0 <= k < start || start + ratio <= k < dst.Length ==> dst[k] == old(dst[k])
        invariant dst[start..start + phase] == Phases(ratio, w, phase)
      {
        var out := Accumulate(src, at, phase);
        dst[start + phase] := Cast16(out / 0x1_0000);
        assert dst[start..start + phase + 1] == dst[start..start + phase] + [Output(Row(ratio, phase), w)];
      }
    }

    /** us_fir_run */
    method Run(src: array<int>, dst: array<int>, n: nat) returns (outIdx: nat)
      requires Valid() && n <= src.Length && ratio * n <= dst.Length
      requires src != history && dst != history && src != dst
      modifies history, dst
      ensures Valid() && outIdx == ratio * n
      ensures dst[..outIdx] == Fir(ratio, old(history[..]) + old(src[..n]), n) && dst[outIdx..] == old(dst[outIdx..])
      ensures history[..] == (old(history[..]) + old(src[..n]))[n..]
    {
      hide Phases;
      ghost var x := history[..] + src[..];
      outIdx := 0;
      for i := 0 to n
        invariant outIdx == ratio * i <= ratio * n
        invariant dst[..outIdx] == Fir(ratio, x, i) && dst[outIdx..] == old(dst[outIdx..])
        invariant history[..] + src[..] == x && history[..] == old(history[..])
      {
        RoomFor(ratio, i, n);
        ghost var tail := dst[outIdx + ratio..];
        OneSample(src, dst, i, outIdx);
        assert dst[..outIdx + ratio] == dst[..outIdx] + dst[outIdx..outIdx + ratio];
        outIdx := outIdx + ratio;
        assert tail == old(dst[outIdx..]);
      }
      FirPrefix(ratio, x, old(history[..]) + old(src[..n]), n);
      Remember(src, n);
    }
  }

  lemma RoomFor(ratio: nat, i: nat, n: nat)
    requires i < n
    ensures ratio * i + ratio == ratio * (i + 1) <= ratio * n
  {
  }

  // ---------- locality and chunking ----------

  /** The outputs depend only on the samples they are computed from. */
  lemma {:induction false} FirPrefix(ratio: nat, x: seq<int>, y: seq<int>, n: nat)
    requires GoodRatio(ratio) && n + HISTORY <= |x| && n + HISTORY <= |y|
    requires x[..n + HISTORY] == y[..n + HISTORY]
    ensures Fir(ratio, x, n) == Fir(ratio, y, n)
  {
    hide Phases;
    if n > 0 {
      assert x[..n - 1 + HISTORY] == x[..n + HISTORY][..n - 1 + HISTORY];
      assert y[..n - 1 + HISTORY] == y[..n + HISTORY][..n - 1 + HISTORY];
      FirPrefix(ratio, x, y, n - 1);
      assert x[n - 1..n + HISTORY] == x[..n + HISTORY][n - 1..];
      assert y[n - 1..n + HISTORY] == y[..n + HISTORY][n - 1..];
    }
  }

  /** Cutting the input after `m` samples and carrying 23 samples over changes nothing. */
  lemma {:induction false} FirCut(ratio: nat, x: seq<int>, m: nat, n: nat)
    requires GoodRatio(ratio) && m + n + HISTORY <= |x|
    ensures Fir(ratio, x, m + n) == Fir(ratio, x, m) + Fir(ratio, x[m..], n)
    decreases n
  {
    hide Phases;
    if n > 0 {
      FirCut(ratio, x, m, n - 1);
      assert x[m..][n - 1..n + HISTORY] == x[m + n - 1..m + n + HISTORY];
    }
  }

  function Concat(blocks: seq<seq<int>>): seq<int>
  {
    if blocks == [] then [] else blocks[0] + Concat(blocks[1..])
  }

  /** us_fir_run block after block: what each call leaves as history is what the next one starts from. */
  function Stream(ratio: nat, history: seq<int>, blocks: seq<seq<int>>): seq<int>
    requires GoodRatio(ratio) && |history| == HISTORY
    decreases |blocks|
  {
    if blocks == [] then []
    else
      var x := history + blocks[0];
      Fir(ratio, x, |blocks[0]|) + Stream(ratio, x[|blocks[0]|..], blocks[1..])
  }

  /** Chunk invariance: for every way of cutting the input - empty blocks and blocks shorter than the history
      included - the outputs are those of one run over the whole signal. */
  lemma {:induction false} StreamIsOneRun(ratio: nat, history: seq<int>, blocks: seq<seq<int>>)
    requires GoodRatio(ratio) && |history| == HISTORY
    ensures Stream(ratio, history, blocks) == Fir(ratio, history + Concat(blocks), |Concat(blocks)|)
    decreases |blocks|
  {
    hide Phases;
    if blocks != [] {
      var b, rest := blocks[0], Concat(blocks[1..]);
      var x := history + b;
      var all := history + Concat(blocks);
      assert all == x + rest;
      StreamIsOneRun(ratio, x[|b|..], blocks[1..]);
      FirCut(ratio, all, |b|, |rest|);
      assert all[..|b| + HISTORY] == x[..|b| + HISTORY];
      FirPrefix(ratio, all, x, |b|);
      assert all[|b|..] == x[|b|..] + rest;
    }
  }

  // ---------- the accumulator ----------

  function Abs(x: int): nat { if x < 0 then -x else x }

  /** The sum over the first `k` taps in unbounded arithmetic. */
  function Sum(row: seq<int>, w: seq<int>, k: nat): int
    requires k <= |row| && k <= |w|
  {
    if k == 0 then 0 else Sum(row, w, k - 1) + w[k - 1] * row[k - 1]
  }

  function AbsSum(row: seq<int>, k: nat): nat
    requires k <= |row|
  {
    if k == 0 then 0 else AbsSum(row, k - 1) + Abs(row[k - 1])
  }

  predicate Bounded(x: seq<int>, m: nat)
  {
    forall i :: 0 <= i < |x| ==> Abs(x[i]) <= m
  }

  predicate Fits32(x: int) { -TWO31 <= x < TWO31 }

  /** The accumulator never wraps, at any tap, for any samples of magnitude up to `m`. */
  ghost predicate NeverWraps(row: seq<int>, m: nat)
  {
    forall w: seq<int>, k: nat :: |w| == |row| && Bounded(w, m) && k <= |row| ==> Fits32(Sum(row, w, k))
  }

  lemma MulLe(a: nat, b: nat, m: nat)
    requires a <= b
    ensures a * m <= b * m
  {
  }

  lemma MulAdd(a: int, b: int, m: int)
    ensures (a + b) * m == a * m + b * m
  {
  }

  lemma AbsProduct(a: int, b: int)
    ensures Abs(a * b) == Abs(a) * Abs(b)
  {
    if a < 0 { assert a * b == -((-a) * b); }
    if b < 0 { assert Abs(a) * b == -(Abs(a) * (-b)); }
    if a == 0 { assert a * b == 0; }
    if b == 0 { assert a * b == 0; }
    if a > 0 && b > 0 { assert a * b > 0; }
    if a < 0 && b < 0 { assert (-a) * (-b) > 0; }
    if a < 0 && b > 0 { assert (-a) * b > 0; }
    if a > 0 && b < 0 { assert a * (-b) > 0; }
  }

  lemma {:induction false} SumBound(row: seq<int>, w: seq<int>, k: nat, m: nat)
    requires k <= |row| && |w| == |row| && Bounded(w, m)
    ensures Abs(Sum(row, w, k)) <= AbsSum(row, k) * m
  {
    if k > 0 {
      SumBound(row, w, k - 1, m);
      AbsProduct(w[k - 1], row[k - 1]);
      MulLe(Abs(w[k - 1]), m, Abs(row[k - 1]));
      MulAdd(AbsSum(row, k - 1), Abs(row[k - 1]), m);
    }
  }

  lemma {:induction false} AbsSumMonotone(row: seq<int>, k: nat)
    requires k <= |row|
    ensures AbsSum(row, k) <= AbsSum(row, |row|)
    decreases |row| - k
  {
    if k < |row| { AbsSumMonotone(row, k + 1); }
  }

  /** The input that adds up all magnitudes. */
  function Aligned(row: seq<int>, m: nat): (w: seq<int>)
    ensures |w| == |row| && Bounded(w, m)
  {
    seq(|row|, i requires 0 <= i < |row| => if row[i] < 0 then -(m as int) else m)
  }

  lemma {:induction false} AlignedSum(row: seq<int>, m: nat, k: nat)
    requires k <= |row|
    ensures Sum(row, Aligned(row, m), k) == AbsSum(row, k) * m
  {
    if k > 0 {
      AlignedSum(row, m, k - 1);
      MulAdd(AbsSum(row, k - 1), Abs(row[k - 1]), m);
      var c := row[k - 1];
      assert Aligned(row, m)[k - 1] * c == Abs(c) * m;
    }
  }

  /** The exact bound: the accumulator is safe iff the magnitudes of the row times the sample bound fit. */
  lemma NeverWrapsIff(row: seq<int>, m: nat)
    ensures NeverWraps(row, m) <==> AbsSum(row, |row|) * m < TWO31
  {
    if AbsSum(row, |row|) * m < TWO31 {
      forall w: seq<int>, k: nat | |w| == |row| && Bounded(w, m) && k <= |row|
        ensures Fits32(Sum(row, w, k))
      {
        SumBound(row, w, k, m);
        AbsSumMonotone(row, k);
        MulLe(AbsSum(row, k), AbsSum(row, |row|), m);
      }
    } else {
      AlignedSum(row, m, |row|);
      assert !Fits32(Sum(row, Aligned(row, m), |row|));
    }
  }

  /** Without wrapping the accumulator is the sum at every tap. */
  lemma {:induction false} AccIsSum(row: seq<int>, w: seq<int>, k: nat, m: nat)
    requires k <= |row| && |w| == |row| && Bounded(w, m) && NeverWraps(row, m)
    ensures Acc(row, w, k) == Sum(row, w, k) && Fits32(Sum(row, w, k))
  {
    if k > 0 {
      AccIsSum(row, w, k - 1, m);
    }
  }

  lemma AbsSumTwo(row: seq<int>, k: nat)
    requires k + 2 <= |row|
    ensures AbsSum(row, k + 2) == AbsSum(row, k) + Abs(row[k]) + Abs(row[k + 1])
  {
  }

  lemma RowSum(row: seq<int>)
    requires |row| == COEF_NUM
    ensures AbsSum(row, COEF_NUM) ==
      Abs(row[0]) + Abs(row[1]) + Abs(row[2]) + Abs(row[3]) + Abs(row[4]) + Abs(row[5])
      + Abs(row[6]) + Abs(row[7]) + Abs(row[8]) + Abs(row[9]) + Abs(row[10]) + Abs(row[11])
      + Abs(row[12]) + Abs(row[13]) + Abs(row[14]) + Abs(row[15]) + Abs(row[16]) + Abs(row[17])
      + Abs(row[18]) + Abs(row[19]) + Abs(row[20]) + Abs(row[21]) + Abs(row[22]) + Abs(row[23])
  {
    AbsSumTwo(row, 0); AbsSumTwo(row, 2); AbsSumTwo(row, 4); AbsSumTwo(row, 6);
    AbsSumTwo(row, 8); AbsSumTwo(row, 10); AbsSumTwo(row, 12); AbsSumTwo(row, 14);
    AbsSumTwo(row, 16); AbsSumTwo(row, 18); AbsSumTwo(row, 20); AbsSumTwo(row, 22);
  }

  lemma RowSum8k0() ensures AbsSum(ROW_8K_0, COEF_NUM) == 47690 { RowSum(ROW_8K_0); }

  lemma RowSum8k1() ensures AbsSum(ROW_8K_1, COEF_NUM) == 62181 { RowSum(ROW_8K_1); }

  lemma RowSum8k2() ensures AbsSum(ROW_8K_2, COEF_NUM) == 71978 { RowSum(ROW_8K_2); }

  lemma RowSum8k3() ensures AbsSum(ROW_8K_3, COEF_NUM) == 71978 { RowSum(ROW_8K_3); }

  lemma RowSum8k4() ensures AbsSum(ROW_8K_4, COEF_NUM) == 62181 { RowSum(ROW_8K_4); }

  lemma RowSum8k5() ensures AbsSum(ROW_8K_5, COEF_NUM) == 47690 { RowSum(ROW_8K_5); }

  lemma RowSum16k0() ensures AbsSum(ROW_16K_0, COEF_NUM) == 55423 { RowSum(ROW_16K_0); }

  lemma RowSum16k1() ensures AbsSum(ROW_16K_1, COEF_NUM) == 70524 { RowSum(ROW_16K_1); }

  lemma RowSum16k2() ensures AbsSum(ROW_16K_2, COEF_NUM) == 55423 { RowSum(ROW_16K_2); }

  /** No accumulator of the ratio ever wraps. */
  ghost predicate RatioSafe(ratio: nat, m: nat)
    requires GoodRatio(ratio)
  {
    forall phase :: 0 <= phase < ratio ==> NeverWraps(Row(ratio, phase), m)
  }

  lemma RowSafe(ratio: nat, phase: nat, total: nat, m: nat)
    requires GoodRatio(ratio) && phase < ratio && AbsSum(Row(ratio, phase), COEF_NUM) == total
    ensures NeverWraps(Row(ratio, phase), m) <==> total * m < TWO31
  {
    NeverWrapsIff(Row(ratio, phase), m);
  }

  /** The largest safe sample magnitude for 8 kHz input. */
  lemma SampleBound8k(m: nat)
    ensures RatioSafe(6, m) <==> m <= 29835
  {
    hide AbsSum, NeverWraps;
    RowSum8k0(); RowSafe(6, 0, 47690, m);
    RowSum8k1(); RowSafe(6, 1, 62181, m);
    RowSum8k2(); RowSafe(6, 2, 71978, m);
    RowSum8k3(); RowSafe(6, 3, 71978, m);
    RowSum8k4(); RowSafe(6, 4, 62181, m);
    RowSum8k5(); RowSafe(6, 5, 47690, m);
    forall phase | 0 <= phase < 6 && m <= 29835 ensures NeverWraps(Row(6, phase), m) {
      assert phase == 0 || phase == 1 || phase == 2 || phase == 3 || phase == 4 || phase == 5;
    }
  }

  /** The largest safe sample magnitude for 16 kHz input. */
  lemma SampleBound16k(m: nat)
    ensures RatioSafe(3, m) <==> m <= 30450
  {
    hide AbsSum, NeverWraps;
    RowSum16k0(); RowSafe(3, 0, 55423, m);
    RowSum16k1(); RowSafe(3, 1, 70524, m);
    RowSum16k2(); RowSafe(3, 2, 55423, m);
    forall phase | 0 <= phase < 3 && m <= 30450 ensures NeverWraps(Row(3, phase), m) {
      assert phase == 0 || phase == 1 || phase == 2;
    }
  }

  /** At full scale exactly the rows whose magnitudes add up to at most 65535 are safe. */
  lemma FullScale(row: seq<int>)
    ensures NeverWraps(row, 0x8000) <==> AbsSum(row, |row|) <= 65535
  {
    NeverWrapsIff(row, 0x8000);
  }

  /** The direct convolution at sample `i`: the 24 samples up to it, with 23 leading zeros, against one row. */
  function Convolution(ratio: nat, signal: seq<int>, i: nat, phase: nat): int
    requires GoodRatio(ratio) && phase < ratio && i < |signal|
  {
    Sum(Row(ratio, phase), (seq(HISTORY, _ => 0) + signal)[i..i + COEF_NUM], COEF_NUM)
  }

  lemma {:induction false} SumOfOne(row: seq<int>, w: seq<int>, n: nat, at: int)
    requires n <= |row| && n <= |w| && forall k :: 0 <= k < |w| && k != at ==> w[k] == 0
    ensures Sum(row, w, n) == if 0 <= at < n then w[at] * row[at] else 0
  {
    if n > 0 {
      SumOfOne(row, w, n - 1, at);
      if n - 1 != at { assert w[n - 1] * row[n - 1] == 0; }
    }
  }

  /** The response to a signal that is `v` at sample `j` and 0 elsewhere: each phase plays its row of coefficients
      backwards, beginning at sample `j`. */
  lemma ImpulseResponse(ratio: nat, signal: seq<int>, j: nat, i: nat, phase: nat)
    requires GoodRatio(ratio) && phase < ratio && i < |signal| && j < |signal|
    requires forall k :: 0 <= k < |signal| && k != j ==> signal[k] == 0
    ensures Convolution(ratio, signal, i, phase)
      == if j <= i < j + 24 then signal[j] * Row(ratio, phase)[23 - (i - j)] else 0
  {
    hide Row;
    var x := seq(HISTORY, _ => 0) + signal;
    var w := x[i..i + COEF_NUM];
    SumOfOne(Row(ratio, phase), w, COEF_NUM, j + 23 - i);
  }

  /** What a row adds up to. */
  function Gain(row: seq<int>, n: nat): int
    requires n <= |row|
  {
    if n == 0 then 0 else Gain(row, n - 1) + row[n - 1]
  }

  lemma {:induction false} SumOfConstant(row: seq<int>, w: seq<int>, n: nat, v: int)
    requires n <= |row| && n <= |w| && forall k :: 0 <= k < |w| ==> w[k] == v
    ensures Sum(row, w, n) == v * Gain(row, n)
  {
    if n > 0 { SumOfConstant(row, w, n - 1, v); }
  }

  lemma GainOfFour(row: seq<int>, n: nat)
    requires n + 4 <= |row|
    ensures Gain(row, n + 4) == Gain(row, n) + row[n] + row[n + 1] + row[n + 2] + row[n + 3]
  {
    assert Gain(row, n + 2) == Gain(row, n) + row[n] + row[n + 1];
  }

  lemma GainOfRow(row: seq<int>)
    requires |row| == COEF_NUM
    ensures Gain(row, COEF_NUM) == row[0] + row[1] + row[2] + row[3] + row[4] + row[5] + row[6] + row[7]
      + row[8] + row[9] + row[10] + row[11] + row[12] + row[13] + row[14] + row[15]
      + row[16] + row[17] + row[18] + row[19] + row[20] + row[21] + row[22] + row[23]
  {
    GainOfFour(row, 0); GainOfFour(row, 4); GainOfFour(row, 8);
    GainOfFour(row, 12); GainOfFour(row, 16); GainOfFour(row, 20);
  }

  lemma Gains8k(phase: nat)
    requires phase < 6
    ensures Gain(Row(6, phase), COEF_NUM) == [31750, 31753, 31760, 31760, 31753, 31750][phase]
  {
    GainOfRow(Row(6, phase));
  }

  lemma Gains16k(phase: nat)
    requires phase < 3
    ensures Gain(Row(3, phase), COEF_NUM) == [31753, 31760, 31753][phase]
  {
    GainOfRow(Row(3, phase));
  }

  /** Once a signal has been `v` for 24 samples, all phases answer with `v` times the same gain, to within ten parts in
      2^16: a steady input gives a steady output. */
  lemma SteadyResponse(ratio: nat, signal: seq<int>, i: nat, phase: nat, v: int)
    requires GoodRatio(ratio) && phase < ratio && HISTORY <= i < |signal|
    requires forall k :: i - HISTORY <= k <= i ==> signal[k] == v
    ensures exists gain :: 31750 <= gain <= 31760 && Convolution(ratio, signal, i, phase) == v * gain
  {
    hide Row;
    var w := (seq(HISTORY, _ => 0) + signal)[i..i + COEF_NUM];
    SumOfConstant(Row(ratio, phase), w, COEF_NUM, v);
    var gain := Gain(Row(ratio, phase), COEF_NUM);
    RatioGain(ratio, phase);
    assert Convolution(ratio, signal, i, phase) == v * gain;
  }

  lemma RatioGain(ratio: nat, phase: nat)
    requires GoodRatio(ratio) && phase < ratio
    ensures 31750 <= Gain(Row(ratio, phase), COEF_NUM) <= 31760
  {
    if ratio == 6 { Gains8k(phase); } else { Gains16k(phase); }
  }

  /** The first half of `a` is the second half of `b` backwards. */
  predicate HalfMirrored(a: seq<int>, b: seq<int>)
    requires |a| == COEF_NUM == |b|
  {
    && a[0] == b[23] && a[1] == b[22] && a[2] == b[21] && a[3] == b[20] && a[4] == b[19] && a[5] == b[18]
    && a[6] == b[17] && a[7] == b[16] && a[8] == b[15] && a[9] == b[14] && a[10] == b[13] && a[11] == b[12]
  }

  lemma Mirror8k0() ensures HalfMirrored(ROW_8K_0, ROW_8K_5) { }

  lemma Mirror8k5() ensures HalfMirrored(ROW_8K_5, ROW_8K_0) { }

  lemma Mirror8k1() ensures HalfMirrored(ROW_8K_1, ROW_8K_4) { }

  lemma Mirror8k4() ensures HalfMirrored(ROW_8K_4, ROW_8K_1) { }

  lemma Mirror8k2() ensures HalfMirrored(ROW_8K_2, ROW_8K_3) { }

  lemma Mirror8k3() ensures HalfMirrored(ROW_8K_3, ROW_8K_2) { }

  lemma Mirror16k0() ensures HalfMirrored(ROW_16K_0, ROW_16K_2) { }

  lemma Mirror16k2() ensures HalfMirrored(ROW_16K_2, ROW_16K_0) { }

  lemma Mirror16k1() ensures HalfMirrored(ROW_16K_1, ROW_16K_1) { }

  /** The tables are filters for equidistant times: the row of the mirrored phase is the row backwards. */
  lemma MirroredRows(ratio: nat, phase: nat)
    requires ratio in {3, 6} && phase < ratio
    ensures var row, mirrored := Row(ratio, phase), Row(ratio, ratio - 1 - phase);
      forall k :: 0 <= k < COEF_NUM ==> row[k] == mirrored[COEF_NUM - 1 - k]
  {
    hide HalfMirrored;
    Mirror8k0(); Mirror8k5(); Mirror8k1(); Mirror8k4(); Mirror8k2(); Mirror8k3();
    Mirror16k0(); Mirror16k2(); Mirror16k1();
    MirroredAt(Row(ratio, phase), Row(ratio, ratio - 1 - phase));
  }

  lemma MirroredAt(a: seq<int>, b: seq<int>)
    requires |a| == COEF_NUM == |b| && HalfMirrored(a, b) && HalfMirrored(b, a)
    ensures forall k :: 0 <= k < COEF_NUM ==> a[k] == b[COEF_NUM - 1 - k]
  {
  }

  /** The sample before the output instant weighs less with every phase, the one behind it more. */
  lemma PhasesMoveOn(ratio: nat, phase: nat)
    requires ratio in {3, 6} && phase + 1 < ratio
    ensures Row(ratio, phase)[11] > Row(ratio, phase + 1)[11] && Row(ratio, phase)[12] < Row(ratio, phase + 1)[12]
  {
  }

  /** All other samples weigh less than these two. */
  lemma PeakOfRow(ratio: nat, phase: nat, k: nat)
    requires ratio in {3, 6} && phase < ratio && k < COEF_NUM && k !in {11, 12}
    ensures var row := Row(ratio, phase);
      && Abs(row[k]) < (if row[11] < row[12] then row[12] else row[11])
      && (2 * phase + 1 < ratio ==> row[11] > row[12]) && (2 * phase + 1 > ratio ==> row[11] < row[12])
      && (2 * phase + 1 == ratio ==> row[11] == row[12])
  {
    assert k == 0 || k == 1 || k == 2 || k == 3 || k == 4 || k == 5 || k == 6 || k == 7 || k == 8 || k == 9 || k == 10
      || k == 13 || k == 14 || k == 15 || k == 16 || k == 17 || k == 18 || k == 19 || k == 20 || k == 21 || k == 22
      || k == 23;
  }

  /** For all samples the accumulator is the unbounded sum, in 32 bits. */
  lemma {:induction false} AccIsWrappedSum(row: seq<int>, w: seq<int>, k: nat)
    requires k <= |row| && k <= |w|
    ensures Acc(row, w, k) == Wrap32(Sum(row, w, k))
  {
    if k > 0 {
      AccIsWrappedSum(row, w, k - 1);
      WrapAdd(Sum(row, w, k - 1), w[k - 1] * row[k - 1]);
    }
  }

  lemma WrapAdd(a: int, b: int)
    ensures Wrap32(Wrap32(a) + b) == Wrap32(a + b)
  {
  }

  /** Output `ratio * i + phase` of a run from silence, for every signal: the direct convolution in 32 bits, divided by
      2^16 and rounded down, in 16 bits. */
  lemma DirectConvolution(ratio: nat, signal: seq<int>, i: nat, phase: nat)
    requires GoodRatio(ratio) && phase < ratio && i < |signal|
    ensures var y := Fir(ratio, seq(HISTORY, _ => 0) + signal, |signal|);
      && ratio * i + phase < |y|
      && y[ratio * i + phase] == Cast16(Wrap32(Convolution(ratio, signal, i, phase)) / 0x1_0000)
  {
    var x := seq(HISTORY, _ => 0) + signal;
    FirAt(ratio, x, |signal|, i, phase);
    AccIsWrappedSum(Row(ratio, phase), x[i..i + COEF_NUM], COEF_NUM);
  }

  /** Below the bound neither the accumulator nor the cast loses a bit. */
  lemma ExactConvolution(ratio: nat, signal: seq<int>, m: nat, i: nat, phase: nat)
    requires GoodRatio(ratio) && phase < ratio && i < |signal| && Bounded(signal, m) && RatioSafe(ratio, m)
    ensures var y := Fir(ratio, seq(HISTORY, _ => 0) + signal, |signal|);
      && ratio * i + phase < |y|
      && y[ratio * i + phase] == Convolution(ratio, signal, i, phase) / 0x1_0000
  {
    var x := seq(HISTORY, _ => 0) + signal;
    DirectConvolution(ratio, signal, i, phase);
    assert Bounded(x, m);
    AccIsSum(Row(ratio, phase), x[i..i + COEF_NUM], COEF_NUM, m);
  }

  lemma {:induction false} PhasesAt(ratio: nat, w: seq<int>, n: nat, phase: nat)
    requires GoodRatio(ratio) && phase < n <= ratio && |w| == COEF_NUM
    ensures Phases(ratio, w, n)[phase] == Output(Row(ratio, phase), w)
  {
    if phase < n - 1 { PhasesAt(ratio, w, n - 1, phase); }
  }

  lemma {:induction false} FirAt(ratio: nat, x: seq<int>, n: nat, i: nat, phase: nat)
    requires GoodRatio(ratio) && phase < ratio && i < n && n + HISTORY <= |x|
    ensures ratio * i + phase < ratio * n
    ensures Fir(ratio, x, n)[ratio * i + phase] == Output(Row(ratio, phase), x[i..i + COEF_NUM])
    decreases n
  {
    hide Phases, Output, Row;
    RoomFor(ratio, i, n);
    if i < n - 1 {
      FirAt(ratio, x, n - 1, i, phase);
    } else {
      PhasesAt(ratio, x[i..i + COEF_NUM], ratio, phase);
    }
  }
}
