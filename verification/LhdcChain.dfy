/**
 LHDC end to end: datagrams over a lossy link are reassembled, framed into the byte queue, moved to the other core and
 parsed out there.
 */
module LhdcChain {
  import opened Ring
  import opened Framing
  import opened LhdcAssembler
  import opened A2dpTransport

  /** `a` is what is left of `b` when some elements are taken out. */
  predicate Subsequence<T(==)>(a: seq<T>, b: seq<T>)
    decreases |b|
  {
    a == [] || (b != [] && ((a[0] == b[0] && Subsequence(a[1..], b[1..])) || Subsequence(a, b[1..])))
  }

  lemma {:induction false} SubsequenceGrows<T>(a: seq<T>, b: seq<T>, x: T)
    requires Subsequence(a, b)
    ensures Subsequence(a, b + [x]) && Subsequence(a + [x], b + [x])
    decreases |b|
  {
    var c := b + [x];
    if b == [] {
      assert a + [x] == [x] && c == [x] && [x][1..] == [];
    } else {
      assert c[0] == b[0] && c[1..] == b[1..] + [x];
      if a == [] {
        SubsequenceGrows([], b[1..], x);
        assert a + [x] == [] + [x];
      } else if a[0] == b[0] && Subsequence(a[1..], b[1..]) {
        SubsequenceGrows(a[1..], b[1..], x);
        assert (a + [x])[0] == a[0] && (a + [x])[1..] == a[1..] + [x];
      } else {
        SubsequenceGrows(a, b[1..], x);
      }
    }
  }

  lemma {:induction false} SubsequencePrefix<T>(a: seq<T>, b: seq<T>, k: nat)
    requires Subsequence(a, b) && k <= |a|
    ensures Subsequence(a[..k], b)
    decreases |b|
  {
    if k > 0 {
      if a[0] == b[0] && Subsequence(a[1..], b[1..]) {
        SubsequencePrefix(a[1..], b[1..], k - 1);
        assert a[..k][0] == a[0] && a[..k][1..] == a[1..][..k - 1];
      } else {
        SubsequencePrefix(a, b[1..], k);
      }
    }
  }

  /** The packets a run offers to the queue, in order. */
  function OfferedBy(acts: seq<Action>): seq<seq<byte>>
  {
    if acts == [] then []
    else (if acts[0].Offer? then [acts[0].frame] else []) + OfferedBy(acts[1..])
  }

  lemma {:induction false} OfferedIn(acts: seq<Action>)
    ensures forall a :: a in acts && a.Offer? ==> a.frame in OfferedBy(acts)
  {
    if acts != [] {
      OfferedIn(acts[1..]);
      forall a | a in acts && a.Offer? ensures a.frame in OfferedBy(acts) {
        assert a == acts[0] || a in acts[1..];
      }
    }
  }

  /** What is accepted is what was offered, less what found no room or was empty. */
  lemma {:induction false} AcceptedAreOffered(c: Codec, s: System, acts: seq<Action>, before: seq<seq<byte>>)
    requires SpscRing.Sound(s.path) && Subsequence(s.accepted, before)
    ensures Subsequence(ActAll(c, s, acts).accepted, before + OfferedBy(acts))
    decreases |acts|
  {
    hide Subsequence, SpscRing.Step, Parse, Bytes;
    if acts == [] {
      assert before + OfferedBy(acts) == before;
    } else {
      var t := Act(c, s, acts[0]);
      if acts[0].Offer? {
        SubsequenceGrows(s.accepted, before, acts[0].frame);
        AcceptedAreOffered(c, t, acts[1..], before + [acts[0].frame]);
        assert before + [acts[0].frame] + OfferedBy(acts[1..]) == before + OfferedBy(acts);
      } else {
        AcceptedAreOffered(c, t, acts[1..], before);
        assert before + OfferedBy(acts[1..]) == before + OfferedBy(acts);
      }
    }
  }

  /** The packets handed out on a lossy link can all be framed. */
  ghost predicate AllFrameable(packets: seq<Fragments>, from: nat, got: nat -> bool)
  {
    forall f :: f in Complete(packets, from, got) ==> Acceptable(Lhdc, f)
  }

  /** End to end, over every link whose gaps the sequence numbers tell and in every interleaving of offers, copies and
      loads: the payloads loaded by the coprocessor are, byte for byte and in order, packets that arrived complete, less
      those that found the queue full. */
  lemma LoadedAreSent(serial: byte, packets: seq<Fragments>, from: nat, got: nat -> bool,
    capacity: nat, cache: seq<byte>, acts: seq<Action>)
    requires GapsNoticed(got, from) && AllFrameable(packets, from, got) && cache != []
    requires OfferedBy(acts) == SendAll(Asm(false, WaitStart, serial, []), packets, from, got).out
    ensures var s := ActAll(Lhdc, A2dpTransport.Start(capacity, cache), acts);
      && s.delivered <= s.accepted && !s.bad
      && Subsequence(s.accepted, Complete(packets, from, got)) && Subsequence(s.delivered, Complete(packets, from, got))
  {
    hide SendAll, Complete, ActAll, Acceptable, GapsNoticed, Subsequence;
    DeliversExactlyComplete(serial, packets, from, got);
    OfferedIn(acts);
    var s0 := A2dpTransport.Start(capacity, cache);
    var s := ActAll(Lhdc, s0, acts);
    DeliveredAreAccepted(Lhdc, capacity, cache, acts);
    NoneAccepted();
    AcceptedAreOffered(Lhdc, s0, acts, []);
    assert [] + OfferedBy(acts) == Complete(packets, from, got);
    SubsequencePrefix(s.accepted, Complete(packets, from, got), |s.delivered|);
    assert s.accepted[..|s.delivered|] == s.delivered;
  }

  function NonEmpty(frames: seq<seq<byte>>): seq<seq<byte>>
  {
    if frames == [] then [] else (if frames[0] == [] then [] else [frames[0]]) + NonEmpty(frames[1..])
  }

  lemma {:induction false} OffersNonEmpty(acts: seq<Action>)
    ensures Offers(Lhdc, acts) == NonEmpty(OfferedBy(acts))
  {
    if acts != [] {
      OffersNonEmpty(acts[1..]);
      if acts[0].Offer? {
        assert ([acts[0].frame] + OfferedBy(acts[1..]))[1..] == OfferedBy(acts[1..]);
      } else {
        assert OfferedBy(acts) == OfferedBy(acts[1..]);
      }
    }
  }

  /** If there is room for them all, every packet that arrived complete is accepted, but empty ones. */
  lemma AllArrive(serial: byte, packets: seq<Fragments>, from: nat, got: nat -> bool,
    capacity: nat, cache: seq<byte>, acts: seq<Action>)
    requires GapsNoticed(got, from) && cache != [] && TotalCost(Lhdc, acts) <= capacity
    requires OfferedBy(acts) == SendAll(Asm(false, WaitStart, serial, []), packets, from, got).out
    ensures ActAll(Lhdc, A2dpTransport.Start(capacity, cache), acts).accepted == NonEmpty(Complete(packets, from, got))
  {
    DeliversExactlyComplete(serial, packets, from, got);
    FittingAreAccepted(Lhdc, capacity, cache, acts);
    OffersNonEmpty(acts);
  }

  lemma NoneAccepted()
    ensures Subsequence<seq<byte>>([], [])
  {
  }

  /** The two limits do not meet: of the packets the assembler hands out, those of several fragments with 4089 to 4095
      bytes, and no others, leave no room for the 8-byte header in the buffer they are framed in. */
  lemma FrameableIff(p: Fragments)
    requires Fits(p) && |p| > 1
    ensures Acceptable(Lhdc, Joined(p)) <==> !(4089 <= |Joined(p)| <= 4095)
  {
  }

  /** A link without losses. */
  predicate Always(n: nat) { true }

  /** Such a packet is handed out: two fragments, both received. */
  lemma UnframeableIsHandedOut(x: seq<byte>, y: seq<byte>)
    requires 4089 <= |x| + |y| <= 4095
    ensures SendAll(Asm(false, WaitStart, 0, []), [[x, y]], 0, Always).out == [x + y]
    ensures !AllFrameable([[x, y]], 0, Always)
  {
    hide SendAll;
    var p: Fragments := [x, y];
    JoinedTwo(x, y);
    DeliversExactlyComplete(0, [p], 0, Always);
    assert [p] + [] == [p];
    SendAllCons(Asm(false, WaitStart, 0, []), p, [], 0, Always);
    assert Complete([p], 0, Always) == [x + y] + Complete([], 2, Always);
    assert [x + y][0] in Complete([p], 0, Always);
  }

  lemma JoinedTwo(x: seq<byte>, y: seq<byte>)
    ensures Joined([x, y]) == x + y
  {
    assert [x, y][..1] == [x] && [x][..0] == [];
    assert Joined([x]) == [] + x;
  }
}
