/**
 The SCO reframer (apps/audioplayers/bt_sco_chain_reframe.c): I/O frames go into an input queue, a
 second thread takes process frames out of it and puts them into an output queue that was filled
 with silence at the start, and I/O frames are read back from there.
 */
module Reframer {
  /** One sample of every captured channel. */
  datatype Sample = Sample(ff: int, fb: int, vp: int, echoRef: int)

  const SILENCE: Sample := Sample(0, 0, 0, 0)

  /** What the process step keeps of a frame: the voice pick channel. */
  function Voice(s: seq<Sample>): (v: seq<int>)
    ensures |v| == |s| && forall i :: 0 <= i < |s| ==> v[i] == s[i].vp
  {
    seq(|s|, i requires 0 <= i < |s| => s[i].vp)
  }

  /** A linear queue buffer: reads shift the rest to the front, in place. */
  class PcmQueue<T(0)> {
    const buf: array<T>
    var len: nat

    ghost predicate Valid()
      reads this
    {
      len <= buf.Length
    }

    ghost function Contents(): (s: seq<T>)
      requires Valid()
      reads this, buf
    {
      buf[..len]
    }

    constructor (buffer: array<T>)
      ensures Valid() && buf == buffer && Contents() == []
    {
      buf := buffer;
      len := 0;
    }

    /** _write_input_queue, _write_output_queue: refused, with the queue unchanged, when the frame does not fit. */
    method Write(frame: seq<T>) returns (ret: int)
      requires Valid()
      modifies this, buf
      ensures Valid()
      ensures ret == if old(|Contents()|) + |frame| > buf.Length then -1 else 0
      ensures Contents() == if ret == 0 then old(Contents()) + frame else old(Contents())
    {
      if len + |frame| > buf.Length {
        return -1;
      }
      forall i | 0 <= i < |frame| {
        buf[len + i] := frame[i];
      }
      len := len + |frame|;
      ret := 0;
    }

    /** _read_input_queue, _read_output_queue: a short queue is left alone and `zero` samples are returned. */
    method Read(n: nat, zero: T) returns (ret: int, frame: seq<T>)
      requires Valid()
      modifies this, buf
      ensures Valid() && |frame| == n
      ensures ret == if old(|Contents()|) >= n then 0 else -1
      ensures ret == 0 ==> old(Contents()) == frame + Contents()
      ensures ret != 0 ==> Contents() == old(Contents()) && forall i :: 0 <= i < n ==> frame[i] == zero
    {
      if len < n {
        return -1, seq(n, _ => zero);
      }
      ghost var was := buf[..];
      ghost var queued := Contents();
      frame := buf[..n];
      var rest := len - n;
      var i := 0;
      while i < rest
        invariant len == old(len) && 0 <= i <= rest
        invariant forall k :: 0 <= k < i ==> buf[k] == was[k + n]
        invariant forall k :: i + n <= k < len ==> buf[k] == was[k]
      {
        buf[i] := buf[i + n];
        i := i + 1;
      }
      len := rest;
      ret := 0;
      assert buf[..rest] == queued[n..];
    }
  }

  function Zeros(n: nat): (z: seq<int>)
    ensures |z| == n && forall i :: 0 <= i < n ==> z[i] == 0
  {
    seq(n, _ => 0)
  }

  /** The two queues and the samples handed out by one call: a frame that does not fit is lost, and an output queue that
      does not hold one gives silence. */
  function Call(input: seq<Sample>, output: seq<int>, frame: seq<Sample>, capacity: nat)
    : (r: (seq<Sample>, seq<int>, seq<int>))
    ensures |r.2| == |frame|
  {
    var n := |frame|;
    (if |input| + n > capacity then input else input + frame,
     if |output| < n then output else output[n..],
     if |output| < n then Zeros(n) else output[..n])
  }

  /** The effect of one pass of the worker on the two queues: process frames move over while there is a whole
      one and room for it; a frame that finds no room is lost. */
  function Pass(input: seq<Sample>, output: seq<int>, p: nat, capacity: nat): (r: (seq<Sample>, seq<int>))
    requires p > 0
    decreases |input|
  {
    if |input| < p then (input, output)
    else if |output| + p > capacity then (input[p..], output)
    else Pass(input[p..], output + Voice(input[..p]), p, capacity)
  }

  class Reframe {
    const inQueue: PcmQueue<Sample>
    const outQueue: PcmQueue<int>
    const processLen: nat
    var signalled: bool

    ghost predicate Valid()
      reads this, inQueue, outQueue
    {
      inQueue.Valid() && outQueue.Valid() && inQueue.buf != outQueue.buf as object && processLen > 0
    }

    constructor (input: PcmQueue<Sample>, output: PcmQueue<int>, p: nat)
      requires input.Valid() && output.Valid() && input.buf != output.buf as object && p > 0
      ensures Valid() && inQueue == input && outQueue == output && processLen == p && !signalled
    {
      inQueue, outQueue, processLen, signalled := input, output, p, false;
    }

    /** bt_sco_chain_reframe_tx_process */
    method TxProcess(frame: seq<Sample>) returns (out: seq<int>)
      requires Valid()
      modifies this, inQueue, outQueue, inQueue.buf, outQueue.buf
      ensures Valid() && signalled && |out| == |frame|
      ensures (inQueue.Contents(), outQueue.Contents(), out)
              == Call(old(inQueue.Contents()), old(outQueue.Contents()), frame, inQueue.buf.Length)
    {
      ghost var queued := outQueue.Contents();
      var w := inQueue.Write(frame);
      var r;
      r, out := outQueue.Read(|frame|, 0);
      if r == 0 {
        assert queued[..|frame|] == out && queued[|frame|..] == outQueue.Contents();
      } else {
        assert out == Zeros(|frame|);
      }
      signalled := true;
    }

    /** The inner loop of _reframe_thread, run once per signal. */
    method WorkerPass()
      requires Valid()
      modifies inQueue, outQueue, inQueue.buf, outQueue.buf
      ensures Valid() && signalled == old(signalled)
      ensures (inQueue.Contents(), outQueue.Contents())
              == Pass(old(inQueue.Contents()), old(outQueue.Contents()), processLen, outQueue.buf.Length)
    {
      while true
        invariant Valid()
        invariant Pass(inQueue.Contents(), outQueue.Contents(), processLen, outQueue.buf.Length)
                  == Pass(old(inQueue.Contents()), old(outQueue.Contents()), processLen, outQueue.buf.Length)
        decreases inQueue.len
      {
        ghost var before := inQueue.Contents();
        var ret, frame := inQueue.Read(processLen, SILENCE);
        if ret != 0 || outQueue.len + processLen > outQueue.buf.Length {
          assert ret == 0 ==> inQueue.Contents() == before[processLen..];
          return;
        }
        assert before[..processLen] == frame && before[processLen..] == inQueue.Contents();
        var w := outQueue.Write(Voice(frame));
      }
    }
  }
}
