/** A stream of packets behind the address filter, with the host popping at any time. */
module RxStream {
  import opened Bits
  import Signals
  import Filter = MacFilter
  import opened DescriptorFifo
  import opened RingBuffer
  import opened RxPackets

  /** The ring's inputs when the stream `cs` arrives from between packets on, and the host pops. */
  function Framed(cs: seq<Signals.Axis>, pops: seq<bool>, mac: Filter.MacAddress, promiscuous: bool): (i: seq<Inputs>)
    requires |pops| == |cs|
    ensures |i| == |cs|
  {
    var f := Filtered(cs, mac, promiscuous);
    seq(|cs|, k requires 0 <= k < |cs| => f[k].(pop := pops[k]))
  }

  /** What `n` pops leave: they take packets held when the cycles begin, oldest first, and nothing
      added by those cycles. */
  function Popped(held: nat, ps: seq<Packet>, n: nat): seq<Packet>
    requires held <= |ps|
  {
    ps[if n < held then n else held..]
  }

  lemma {:induction false} LeftPopped(ps: seq<Packet>, i: seq<Inputs>, pops: seq<bool>)
    requires |i| == |pops| && forall k | 0 <= k < |i| :: i[k].pop == pops[k]
    ensures Left(ps, i) == Popped(|ps|, ps, Count(pops))
  {
    if i != [] {
      var n := |i| - 1;
      LeftPopped(ps, i[..n], pops[..n]);
      CountSnoc(pops);
      hide Count;
    }
  }

  // ---- Pops do not disturb what arrives ----

  ghost predicate SameBeats(a: seq<Inputs>, b: seq<Inputs>) {
    |a| == |b| && forall k | 0 <= k < |a| :: a[k] == b[k].(pop := a[k].pop)
  }

  lemma {:induction false} SameBytes(a: seq<Inputs>, b: seq<Inputs>)
    requires SameBeats(a, b)
    ensures Bytes(a) == Bytes(b)
  {
    if a != [] {
      SameBytes(a[..|a| - 1], b[..|b| - 1]);
    }
  }

  lemma {:induction false} SameCarries(a: seq<Inputs>, b: seq<Inputs>, p: seq<Byte>)
    requires SameBeats(a, b) && Carries(b, p)
    ensures Carries(a, p)
  {
    SameBytes(a, b);
    hide Bytes;
    var n := |a| - 1;
    forall x | x in a[..n] ensures !(x.valid && x.last) {
      var k :| 0 <= k < n && a[k] == x;
      assert b[k] in b[..n];
    }
  }

  lemma {:induction false} SameAbandon(a: seq<Inputs>, b: seq<Inputs>)
    requires SameBeats(a, b)
    ensures AnyAbandon(a) ==> AnyAbandon(b)
  {
    if AnyAbandon(a) {
      var x :| x in a && x.valid && x.abandon;
      var k :| 0 <= k < |a| && a[k] == x;
      assert b[k] in b && b[k].valid && b[k].abandon;
    }
  }

  lemma {:induction false} SameReverse(a: seq<Inputs>, b: seq<Inputs>)
    requires SameBeats(a, b)
    ensures SameBeats(b, a)
  {
    forall k | 0 <= k < |a| ensures b[k] == a[k].(pop := b[k].pop) {
    }
  }

  // ---- One packet ----

  lemma {:induction false} FlatLeft(ps: seq<Packet>, cs: seq<Inputs>)
    ensures |Flat(Left(ps, cs))| <= |Flat(ps)| && |Left(ps, cs)| <= |ps|
  {
    if cs != [] {
      FlatLeft(ps, cs[..|cs| - 1]);
    }
  }

  /** A packet that fits beside what is held when it begins is spoiled only by being abandoned. */
  lemma {:induction false} RoomThroughout(q: Queue, cs: seq<Inputs>, size: nat)
    requires Between(q) && !Full(q) && |q.packets| <= DEPTH && |Flat(q.packets)| + size <= BYTES
    requires |Bytes(cs)| <= size && (cs != [] ==> NoneLast(cs[..|cs| - 1]))
    ensures Spoiled(q, cs) <==> AnyAbandon(cs)
    ensures !MetFullTable(q, cs)
  {
    if cs != [] {
      var n := |cs| - 1;
      AnyAbandonSnoc(cs);
      assert n > 0 ==> NoneLast(cs[..n][..n - 1]);
      RoomThroughout(q, cs[..n], size);
      Arriving(q, cs[..n]);
      KeptIntact(q, cs[..n]);
      FlatLeft(q.packets, cs[..n]);
      hide AnyAbandon, Flat, Left, Kept;
    }
  }

  lemma {:induction false} RoomOutcome(q: Queue, cs: seq<Inputs>, p: seq<Byte>)
    requires Between(q) && |q.packets| < DEPTH && |Flat(q.packets)| + |p| <= BYTES && Carries(cs, p)
    ensures Between(QueueAfter(q, cs))
    ensures QueueAfter(q, cs).packets
         == Left(q.packets, cs) + if AnyAbandon(cs) then [] else [Packet(cs[|cs| - 1].reason, p)]
  {
    var n := |cs| - 1;
    PacketOutcome(q, cs, p);
    RoomThroughout(q, cs, |p|);
    KeptIntact(q, cs);
    Arriving(q, cs[..n]);
    FlatLeft(q.packets, cs[..n]);
    hide Flat, Left, Kept, Spoiled, AnyAbandon, Bytes, MetFullTable;
  }

  /** What the model has after a packet, bad ones leaving no trace. */
  function Arrived(ps: seq<Packet>, p: seq<Byte>, bad: bool, mac: Filter.MacAddress,
                   promiscuous: bool): (r: seq<Packet>)
    ensures ps <= r
  {
    if bad then ps else ModelReceive(ps, Filter.Classify(p, mac), p, promiscuous)
  }

  /** Either nothing is popped while the packet arrives, or the packet is dropped in any case, or it
      fits beside the packets held when it begins. Otherwise a pop may come too late for it. */
  predicate Steady(ps: seq<Packet>, p: seq<Byte>, bad: bool, mac: Filter.MacAddress, promiscuous: bool, n: nat) {
    || n == 0
    || bad || (Filter.Classify(p, mac) == Filter.NonMacMatch && !promiscuous)
    || (|ps| < 8 && |Flat(ps)| + |p| <= 8192)
  }

  lemma {:induction false} NoneCounted(pops: seq<bool>)
    ensures Count(pops) == 0 ==> forall k | 0 <= k < |pops| :: !pops[k]
  {
    if pops != [] {
      NoneCounted(pops[1..]);
      forall k | 0 <= k < |pops| && Count(pops) == 0 ensures !pops[k] {
        assert k > 0 ==> !pops[1..][k - 1];
      }
    }
  }

  lemma {:induction false} FramedNoPop(cs: seq<Signals.Axis>, pops: seq<bool>, mac: Filter.MacAddress,
                                       promiscuous: bool)
    requires |pops| == |cs|
    ensures Count(pops) == 0 ==> NoPop(Framed(cs, pops, mac, promiscuous))
    ensures SameBeats(Framed(cs, pops, mac, promiscuous), Filtered(cs, mac, promiscuous))
  {
    NoneCounted(pops);
    hide Filter.After, Filter.CaptureReason, Filter.Abandon, Count;
  }

  /** The hardware's decision on a packet, seen beat by beat by filter and ring while the host pops,
      is the model's on the whole packet, made when it begins. */
  lemma {:induction false} ReceiveMatchesModel(q: Queue, cs: seq<Signals.Axis>, pops: seq<bool>, p: seq<Byte>,
                                               mac: Filter.MacAddress, promiscuous: bool)
    requires Between(q) && |Flat(q.packets)| <= BYTES && |q.packets| <= DEPTH && |pops| == |cs|
    requires Filter.Presents(cs, p) && (AnyBad(cs) || 7 <= |p|) && |p| <= BYTES
    requires Steady(q.packets, p, AnyBad(cs), mac, promiscuous, Count(pops))
    ensures var q' := QueueAfter(q, Framed(cs, pops, mac, promiscuous));
            && Between(q')
            && q'.packets
               == Popped(|q.packets|, Arrived(q.packets, p, AnyBad(cs), mac, promiscuous), Count(pops))
  {
    var f, i := Filtered(cs, mac, promiscuous), Framed(cs, pops, mac, promiscuous);
    var n := |cs| - 1;
    FilteredCarries(cs, p, mac, promiscuous);
    AbandonedFor(cs, p, mac, promiscuous);
    assert i[n].reason == f[n].reason;
    FramedNoPop(cs, pops, mac, promiscuous);
    LeftPopped(q.packets, i, pops);
    hide Filter.After, Filter.CaptureReason, Filter.Abandon, Filter.Classify, QueueNext, Filtered, Filter.Presents;
    SameReverse(i, f);
    SameCarries(i, f, p);
    SameAbandon(i, f);
    SameAbandon(f, i);
    hide Framed, Carries, Count, Left, QueueAfter, SameBeats;
    Decided(q, i, p, AnyBad(cs), mac, promiscuous, Count(pops));
  }

  /** What the filter and the MAC abandon a packet for, and the reason it is stored for otherwise. */
  lemma {:induction false} AbandonedFor(cs: seq<Signals.Axis>, p: seq<Byte>, mac: Filter.MacAddress,
                                        promiscuous: bool)
    requires Filter.Presents(cs, p) && (AnyBad(cs) || 7 <= |p|)
    ensures var f := Filtered(cs, mac, promiscuous);
            && (AnyBad(cs) ==> AnyAbandon(f))
            && (7 <= |p| ==>
                  && f[|f| - 1].reason == Filter.Classify(p, mac)
                  && (AnyAbandon(f) <==> AnyBad(cs) || (!promiscuous && Filter.Classify(p, mac) == Filter.NonMacMatch)))
  {
    FilteredAbandon(cs, mac, promiscuous);
    if 7 <= |p| {
      Filter.AbandonedExactly(cs, p, mac, promiscuous);
      Filter.FilterAgrees(cs, p, mac);
      hide Filter.After, Filter.CaptureReason, Filter.Abandon, Filter.Classify, AnyAbandon;
    } else {
      hide Filter.After, Filter.CaptureReason, Filter.Classify, AnyAbandon;
      var c :| c in cs && c.valid && c.user;
      var k: nat :| k < |cs| && cs[k] == c;
      assert Filter.AbandonedAt(cs, mac, promiscuous, k);
    }
  }

  lemma {:induction false} Decided(q: Queue, i: seq<Inputs>, p: seq<Byte>, bad: bool, mac: Filter.MacAddress,
                                   promiscuous: bool, n: nat)
    requires Between(q) && |Flat(q.packets)| <= BYTES && |q.packets| <= DEPTH && Carries(i, p) && |p| <= BYTES
    requires Left(q.packets, i) == Popped(|q.packets|, q.packets, n)
    requires !bad ==> i[|i| - 1].reason == Filter.Classify(p, mac)
    requires bad ==> AnyAbandon(i)
    requires !bad ==> (AnyAbandon(i) <==> !promiscuous && Filter.Classify(p, mac) == Filter.NonMacMatch)
    requires n == 0 ==> NoPop(i)
    requires Steady(q.packets, p, bad, mac, promiscuous, n)
    ensures var q' := QueueAfter(q, i);
            Between(q') && q'.packets == Popped(|q.packets|, Arrived(q.packets, p, bad, mac, promiscuous), n)
  {
    hide Filter.Classify, QueueAfter, Left, AnyAbandon, NoPop, Flat;
    if n == 0 {
      NoPopOutcome(q, i, p);
    } else if AnyAbandon(i) {
      Abandoned(q, i, p);
    } else {
      RoomOutcome(q, i, p);
    }
  }

  /** In any case, a pop that makes room in time being the exception: the hardware's decision differs
      from the model's if and only if the packet is good and acceptable, finds no room when it begins, and
      is not reported lost. */
  lemma {:induction false} AgreesIff(q: Queue, cs: seq<Signals.Axis>, pops: seq<bool>, p: seq<Byte>,
                                     mac: Filter.MacAddress, promiscuous: bool)
    requires Between(q) && |Flat(q.packets)| <= BYTES && |q.packets| <= DEPTH && |pops| == |cs|
    requires Filter.Presents(cs, p) && (AnyBad(cs) || 7 <= |p|) && |p| <= BYTES
    ensures var i := Framed(cs, pops, mac, promiscuous);
            var q' := QueueAfter(q, i);
            && Between(q')
            && (q'.packets == Popped(|q.packets|, Arrived(q.packets, p, AnyBad(cs), mac, promiscuous), Count(pops))
                <==> Steady(q.packets, p, AnyBad(cs), mac, promiscuous, Count(pops)) || LostPulses(q, i) > 0)
  {
    var f, i := Filtered(cs, mac, promiscuous), Framed(cs, pops, mac, promiscuous);
    FilteredCarries(cs, p, mac, promiscuous);
    FramedNoPop(cs, pops, mac, promiscuous);
    AbandonedFor(cs, p, mac, promiscuous);
    LeftPopped(q.packets, i, pops);
    hide Filter.After, Filter.CaptureReason, Filter.Abandon, Filter.Classify, QueueNext, Filtered, Filter.Presents,
         Framed, Left, Count, LostPulses, QueueAfter, AnyBad;
    SameCarries(i, f, p);
    SameAbandon(i, f);
    if Steady(q.packets, p, AnyBad(cs), mac, promiscuous, Count(pops)) {
      ReceiveMatchesModel(q, cs, pops, p, mac, promiscuous);
    } else {
      hide SameBeats, Carries, AnyAbandon;
      LostOnce(q, i, p);
      PacketOutcome(q, i, p);
    }
  }

  lemma {:induction false} AbandonSpoils(q: Queue, cs: seq<Inputs>)
    requires AnyAbandon(cs)
    ensures Spoiled(q, cs)
  {
    AnyAbandonSnoc(cs);
    if AnyAbandon(cs[..|cs| - 1]) {
      AbandonSpoils(q, cs[..|cs| - 1]);
    }
  }

  lemma {:induction false} Abandoned(q: Queue, cs: seq<Inputs>, p: seq<Byte>)
    requires Between(q) && Carries(cs, p) && AnyAbandon(cs)
    ensures Between(QueueAfter(q, cs)) && QueueAfter(q, cs).packets == Left(q.packets, cs)
  {
    AbandonSpoils(q, cs);
    PacketOutcome(q, cs, p);
  }

  /** The same of the hardware: the ring's pointers, table and bytes go on holding the model's
      packets. */
  lemma {:induction false} RingMatchesModel(r: Regs, q: Queue, b: Pointer, cs: seq<Signals.Axis>, pops: seq<bool>,
                                            p: seq<Byte>, mac: Filter.MacAddress, promiscuous: bool)
    returns (b': Pointer)
    requires Holds(r, q, b) && Between(q) && |pops| == |cs| && Filter.Presents(cs, p)
    requires (AnyBad(cs) || 7 <= |p|) && |p| <= BYTES
    requires Steady(q.packets, p, AnyBad(cs), mac, promiscuous, Count(pops))
    ensures var ps := Popped(|q.packets|, Arrived(q.packets, p, AnyBad(cs), mac, promiscuous), Count(pops));
            Holds(RxPackets.After(r, Framed(cs, pops, mac, promiscuous)), Queue(ps, [], false), b')
  {
    var i := Framed(cs, pops, mac, promiscuous);
    WindowSize(r.mem, b, Flat(q.packets) + q.current);
    FilteredCarries(cs, p, mac, promiscuous);
    FramedNoPop(cs, pops, mac, promiscuous);
    hide Holds, AnyBad, Filter.Classify, QueueAfter, Filter.Presents, Filtered, Arrived, Framed, Steady, Count,
         SameBeats;
    SameCarries(i, Filtered(cs, mac, promiscuous), p);
    hide Carries;
    CarriedFits(q, i, p);
    b' := RunRefines(r, q, b, i);
    ReceiveMatchesModel(q, cs, pops, p, mac, promiscuous);
  }

  // ---- A gap ----

  lemma {:induction false} GapOutcome(r: Regs, q: Queue, b: Pointer, cs: seq<Signals.Axis>, pops: seq<bool>,
                                      mac: Filter.MacAddress, promiscuous: bool) returns (b': Pointer)
    requires Holds(r, q, b) && Between(q) && |pops| == |cs| && forall k | 0 <= k < |cs| :: !cs[k].valid
    ensures Filter.After(Filter.RESET, cs, mac) == Filter.RESET
    ensures var ps := Popped(|q.packets|, q.packets, Count(pops));
            Holds(RxPackets.After(r, Framed(cs, pops, mac, promiscuous)), Queue(ps, [], false), b')
  {
    var i := Framed(cs, pops, mac, promiscuous);
    FilterRests(cs, mac);
    LeftPopped(q.packets, i, pops);
    hide Holds, Filtered, Count, Left;
    assert forall k | 0 <= k < |i| :: !i[k].valid by { GapInvalid(cs, pops, mac, promiscuous); }
    hide Framed;
    QuietQueue(q, i);
    b' := RunRefines(r, q, b, i);
  }

  lemma {:induction false} GapInvalid(cs: seq<Signals.Axis>, pops: seq<bool>, mac: Filter.MacAddress, promiscuous: bool)
    requires |pops| == |cs| && forall k | 0 <= k < |cs| :: !cs[k].valid
    ensures forall k | 0 <= k < |cs| :: !Framed(cs, pops, mac, promiscuous)[k].valid
  {
    hide Filter.After, Filter.CaptureReason, Filter.Abandon;
  }

  lemma {:induction false} FilterRests(cs: seq<Signals.Axis>, mac: Filter.MacAddress)
    requires forall k | 0 <= k < |cs| :: !cs[k].valid
    ensures Filter.After(Filter.RESET, cs, mac) == Filter.RESET
  {
    if cs != [] {
      FilterRests(cs[..|cs| - 1], mac);
    }
  }

  lemma {:induction false} QuietQueue(q: Queue, i: seq<Inputs>)
    requires Between(q) && forall k | 0 <= k < |i| :: !i[k].valid
    ensures QueueAfter(q, i) == Queue(Left(q.packets, i), [], false) && Fit(q, i)
  {
    if i != [] {
      QuietQueue(q, i[..|i| - 1]);
    }
  }

  // ---- One stretch after another ----

  lemma {:induction false} FilterSplit(r: Filter.Regs, a: seq<Signals.Axis>, b: seq<Signals.Axis>,
                                       mac: Filter.MacAddress)
    ensures Filter.After(r, a + b, mac) == Filter.After(Filter.After(r, a, mac), b, mac)
  {
    hide Filter.Next;
    if b == [] {
      assert a + b == a;
    } else {
      assert (a + b)[..|a + b| - 1] == a + b[..|b| - 1];
      FilterSplit(r, a, b[..|b| - 1], mac);
    }
  }

  /** Between packets the filter starts afresh. */
  lemma {:induction false} FramedSplit(a: seq<Signals.Axis>, b: seq<Signals.Axis>, pa: seq<bool>, pb: seq<bool>,
                                       mac: Filter.MacAddress, promiscuous: bool)
    requires |a| == |pa| && |b| == |pb| && Filter.After(Filter.RESET, a, mac) == Filter.RESET
    ensures Framed(a + b, pa + pb, mac, promiscuous)
         == Framed(a, pa, mac, promiscuous) + Framed(b, pb, mac, promiscuous)
  {
    hide Filter.After, Filter.CaptureReason, Filter.Abandon;
    forall k | 0 <= k < |a| + |b|
      ensures Filter.After(Filter.RESET, (a + b)[..k], mac)
           == Filter.After(Filter.RESET, if k < |a| then a[..k] else b[..k - |a|], mac)
    {
      if k < |a| {
        assert (a + b)[..k] == a[..k];
      } else {
        assert (a + b)[..k] == a + b[..k - |a|];
        FilterSplit(Filter.RESET, a, b[..k - |a|], mac);
      }
    }
  }

  lemma {:induction false} RingSplit(r: Regs, a: seq<Signals.Axis>, b: seq<Signals.Axis>, pa: seq<bool>, pb: seq<bool>,
                                     mac: Filter.MacAddress, promiscuous: bool)
    requires |a| == |pa| && |b| == |pb| && Filter.After(Filter.RESET, a, mac) == Filter.RESET
    ensures RxPackets.After(r, Framed(a + b, pa + pb, mac, promiscuous))
         == RxPackets.After(RxPackets.After(r, Framed(a, pa, mac, promiscuous)), Framed(b, pb, mac, promiscuous))
  {
    hide Filter.After, RxPackets.After, Framed;
    FramedSplit(a, b, pa, pb, mac, promiscuous);
    AfterSplit(r, Framed(a, pa, mac, promiscuous), Framed(b, pb, mac, promiscuous));
  }

  lemma {:induction false} PoppedTwice(ps: seq<Packet>, a: nat, b: nat)
    ensures var left := Popped(|ps|, ps, a);
            Popped(|left|, left, b) == Popped(|ps|, ps, a + b)
  {
  }

  /** A bad packet, and silence after it: nothing is left but the pops' work. */
  lemma {:induction false} BadThenGap(r: Regs, q: Queue, b: Pointer, c0: seq<Signals.Axis>, p0: seq<bool>,
                                      c1: seq<Signals.Axis>, p1: seq<bool>, p: seq<Byte>, mac: Filter.MacAddress,
                                      promiscuous: bool) returns (b': Pointer)
    requires Holds(r, q, b) && Between(q) && |c0| == |p0| && |c1| == |p1|
    requires Filter.Presents(c0, p) && AnyBad(c0) && |p| <= BYTES && forall k | 0 <= k < |c1| :: !c1[k].valid
    ensures Filter.After(Filter.RESET, c0 + c1, mac) == Filter.RESET
    ensures var ps := Popped(|q.packets|, q.packets, Count(p0 + p1));
            Holds(RxPackets.After(r, Framed(c0 + c1, p0 + p1, mac, promiscuous)), Queue(ps, [], false), b')
  {
    hide Filter.Presents, Filter.After, RxPackets.After, Framed, Holds, Count, AnyBad, Popped;
    Filter.ReadyAgain(c0, p, mac);
    var b1 := RingMatchesModel(r, q, b, c0, p0, p, mac, promiscuous);
    var q1 := Queue(Popped(|q.packets|, q.packets, Count(p0)), [], false);
    b' := GapOutcome(RxPackets.After(r, Framed(c0, p0, mac, promiscuous)), q1, b1, c1, p1, mac, promiscuous);
    RingSplit(r, c0, c1, p0, p1, mac, promiscuous);
    FilterSplit(Filter.RESET, c0, c1, mac);
    CountConcat(p0, p1);
    PoppedTwice(q.packets, Count(p0), Count(p1));
  }
}
