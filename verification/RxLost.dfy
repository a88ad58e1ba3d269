/** When the lost-packet output pulses for a packet that arrives with no pop meanwhile. */
module RxLost {
  import opened Bits
  import Signals
  import Filter = MacFilter
  import opened DescriptorFifo
  import opened RingBuffer
  import opened RxPackets
  import opened RxStream

  // ---- At the ring ----

  /** The valid beats before the first that is to be abandoned; all of them if none is. */
  ghost function FirstAbandon(cs: seq<Inputs>): nat {
    if cs == [] then 0 else
      var n := |cs| - 1;
      if AnyAbandon(cs[..n]) || !cs[n].valid || cs[n].abandon then FirstAbandon(cs[..n])
      else |Bytes(cs[..n])| + 1
  }

  lemma {:induction false} FirstAbandonBounds(cs: seq<Inputs>)
    ensures if AnyAbandon(cs) then FirstAbandon(cs) < |Bytes(cs)| else FirstAbandon(cs) == |Bytes(cs)|
  {
    if cs != [] {
      FirstAbandonBounds(cs[..|cs| - 1]);
      AnyAbandonSnoc(cs);
      hide AnyAbandon;
    }
  }

  /** The free bytes of the ring run out at a beat that the packet reaches before it is abandoned. */
  ghost predicate RunsOut(q: Queue, cs: seq<Inputs>) {
    && q.packets != [] && BYTES - |Flat(q.packets)| < |Bytes(cs)|
    && BYTES - |Flat(q.packets)| <= FirstAbandon(cs)
  }

  lemma {:induction false} PulsesWithRoomInTable(q: Queue, cs: seq<Inputs>)
    requires Between(q) && !Full(q) && NoPop(cs) && |Flat(q.packets)| <= BYTES
    requires cs != [] ==> NoneLast(cs[..|cs| - 1])
    ensures LostPulses(q, cs) == if RunsOut(q, cs) then 1 else 0
  {
    if cs != [] {
      var n := |cs| - 1;
      var before := cs[..n];
      assert n > 0 ==> NoneLast(before[..n - 1]);
      PulsesWithRoomInTable(q, before);
      FirstAbandonBounds(before);
      Arriving(q, before);
      KeptIntact(q, before);
      SpoiledIff(q, before);
      LeftAll(q.packets, before);
      hide AnyAbandon, Spoiled, Kept, MetFullTable, Left, NoPop, Flat;
    }
  }

  lemma {:induction false} PulsesWithFullTable(q: Queue, cs: seq<Inputs>)
    requires Between(q) && Full(q) && NoPop(cs) && NoneLast(cs) && |Flat(q.packets)| <= BYTES
    ensures var none := |Flat(q.packets)| == BYTES && Bytes(cs) != [];
            && LostPulses(q, cs) == (if none then 1 else 0)
            && QueueAfter(q, cs).packets == q.packets && QueueAfter(q, cs).current == []
            && (QueueAfter(q, cs).lost <==> AnyAbandon(cs) || none)
  {
    if cs != [] {
      var n := |cs| - 1;
      PulsesWithFullTable(q, cs[..n]);
      FirstAbandonBounds(cs[..n]);
      AnyAbandonSnoc(cs);
      assert cs[n] in cs;
      hide AnyAbandon, Flat;
    }
  }

  /** Whatever a packet is abandoned for: with an entry free in the table the output pulses, once,
      if and only if packets are stored and the free bytes run out before the packet's end and no
      later than the beat that abandons it; with the table full, if and only if there is no free byte,
      or no beat before the last abandons it. */
  lemma {:induction false} LostExactly(q: Queue, cs: seq<Inputs>, p: seq<Byte>)
    requires Between(q) && Carries(cs, p) && NoPop(cs) && |Flat(q.packets)| <= BYTES && |q.packets| <= DEPTH
    ensures LostPulses(q, cs)
         == if (if Full(q) then |Flat(q.packets)| == BYTES || FirstAbandon(cs) >= |p| - 1 else RunsOut(q, cs))
            then 1 else 0
  {
    if Full(q) {
      var n := |cs| - 1;
      PulsesWithFullTable(q, cs[..n]);
      FirstAbandonBounds(cs[..n]);
      hide AnyAbandon, Flat;
    } else {
      PulsesWithRoomInTable(q, cs);
    }
  }

  // ---- Behind the address filter ----

  /** These bytes begin no address the filter accepts. */
  ghost predicate Foreign(d: seq<Byte>, mac: Filter.MacAddress) {
    && !Filter.Agree(d, Filter.Address(mac)) && !Filter.Agree(d, Filter.MULTICAST_PREFIX)
    && !Filter.Agree(d, Filter.BROADCAST)
  }

  /** The bytes it takes to see, from byte `n` on, that the packet's address is foreign. */
  ghost function ForeignFrom(p: seq<Byte>, mac: Filter.MacAddress, n: nat): (k: nat)
    requires n <= |p|
    ensures n <= k <= |p| && (k < |p| ==> Foreign(p[..k], mac)) && forall j | n <= j < k :: !Foreign(p[..j], mac)
    decreases |p| - n
  {
    if n == |p| || Foreign(p[..n], mac) then n else ForeignFrom(p, mac, n + 1)
  }

  /** The beats of a packet before the one that abandons it: the filter speaks with the beat after the
      byte that rules every address out, a bad check sequence with the last beat. */
  ghost function Unspoilt(p: seq<Byte>, mac: Filter.MacAddress, promiscuous: bool, bad: bool): nat {
    if !promiscuous && Filter.Classify(p, mac) == Filter.NonMacMatch then ForeignFrom(p, mac, 0)
    else if bad && p != [] then |p| - 1
    else |p|
  }

  lemma {:induction false} AgreeLess(d: seq<Byte>, e: seq<Byte>, want: seq<Byte>)
    requires d <= e && Filter.Agree(e, want)
    ensures Filter.Agree(d, want)
  {
  }

  lemma {:induction false} ForeignMore(d: seq<Byte>, e: seq<Byte>, mac: Filter.MacAddress)
    requires d <= e && Foreign(d, mac)
    ensures Foreign(e, mac)
  {
    hide Filter.Agree, Filter.Address, Filter.MULTICAST_PREFIX, Filter.BROADCAST;
    if Filter.Agree(e, Filter.Address(mac)) {
      AgreeLess(d, e, Filter.Address(mac));
    }
    if Filter.Agree(e, Filter.MULTICAST_PREFIX) {
      AgreeLess(d, e, Filter.MULTICAST_PREFIX);
    }
    if Filter.Agree(e, Filter.BROADCAST) {
      AgreeLess(d, e, Filter.BROADCAST);
    }
  }

  /** The filter's verdict is that of the bytes seen. */
  lemma {:induction false} VerdictForeign(cs: seq<Signals.Axis>, mac: Filter.MacAddress)
    requires Filter.NoneLast(cs)
    ensures Filter.CaptureReason(Filter.After(Filter.RESET, cs, mac)) == Filter.NonMacMatch
       <==> Foreign(Filter.Bytes(cs), mac)
  {
    Filter.TracksRun(cs, mac);
    hide Filter.Agree, Filter.Address, Filter.MULTICAST_PREFIX, Filter.BROADCAST, Filter.After, Filter.Bytes;
  }

  /** A packet of seven bytes or more is rejected if and only if six of its bytes are foreign. */
  lemma {:induction false} RejectedForeign(p: seq<Byte>, mac: Filter.MacAddress)
    requires |p| >= 6
    ensures Filter.Classify(p, mac) == Filter.NonMacMatch <==> Foreign(p[..6], mac)
  {
    Filter.AddressReversed(mac);
    Filter.AgreeWhole(p[..6], p, Filter.Address(mac));
    Filter.AgreeWhole(p[..6], p, Filter.BROADCAST);
    Filter.AgreeWhole(p[..6], p, Filter.MULTICAST_PREFIX);
    hide Filter.Agree, Filter.Address, Filter.Take, Filter.AddressList, Reverse;
  }

  /** Only the last beat may be marked bad. */
  ghost predicate BadOnlyLast(cs: seq<Signals.Axis>) {
    forall i | 0 <= i < |cs| - 1 :: !(cs[i].valid && cs[i].user)
  }

  /** Which beat abandons the packet. */
  lemma {:induction false} AbandonAt(cs: seq<Signals.Axis>, p: seq<Byte>, mac: Filter.MacAddress, promiscuous: bool,
                                     i: nat)
    requires Filter.Presents(cs, p) && |p| >= 7 && BadOnlyLast(cs) && i < |cs| && cs[i].valid
    ensures var t, j := Unspoilt(p, mac, promiscuous, AnyBad(cs)), |Filter.Bytes(cs[..i])|;
            && j < |p|
            && (j < t ==> !Filtered(cs, mac, promiscuous)[i].abandon)
            && (j == t ==> Filtered(cs, mac, promiscuous)[i].abandon)
  {
    var n := |cs| - 1;
    var d := Filter.Bytes(cs[..i]);
    Filter.BytesPrefix(cs, i);
    Filter.NoneLastPrefix(cs, n, i);
    VerdictForeign(cs[..i], mac);
    RejectedForeign(p, mac);
    BytesAt(cs, i);
    BadIsLast(cs);
    assert d == p[..|d|];
    hide Filter.CaptureReason, Filter.After, Filter.Bytes, Filter.Classify, Filter.NoneLast;
    if Foreign(d, mac) && |d| < 6 {
      ForeignMore(d, p[..6], mac);
    }
    if Foreign(p[..6], mac) && |d| >= 6 {
      ForeignMore(p[..6], d, mac);
    }
    hide Foreign;
  }

  lemma {:induction false} BytesAt(cs: seq<Signals.Axis>, i: nat)
    requires i < |cs| && cs[i].valid
    ensures |Filter.Bytes(cs[..i])| < |Filter.Bytes(cs)|
    ensures i == |cs| - 1 ==> |Filter.Bytes(cs[..i])| == |Filter.Bytes(cs)| - 1
    ensures i < |cs| - 1 && cs[|cs| - 1].valid ==> |Filter.Bytes(cs[..i])| < |Filter.Bytes(cs)| - 1
    decreases |cs|
  {
    var n := |cs| - 1;
    if i < n {
      BytesAt(cs[..n], i);
      assert cs[..n][..i] == cs[..i];
    }
  }

  lemma {:induction false} BadIsLast(cs: seq<Signals.Axis>)
    requires cs != [] && BadOnlyLast(cs) && cs[|cs| - 1].valid
    ensures AnyBad(cs) <==> cs[|cs| - 1].user
  {
    assert cs[|cs| - 1] in cs;
  }

  /** So the first abandoned beat of the packet is that one. */
  lemma {:induction false} FilteredFirst(cs: seq<Signals.Axis>, p: seq<Byte>, mac: Filter.MacAddress,
                                         promiscuous: bool, i: nat)
    requires Filter.Presents(cs, p) && |p| >= 7 && BadOnlyLast(cs) && i <= |cs|
    ensures var t, j := Unspoilt(p, mac, promiscuous, AnyBad(cs)), |Filter.Bytes(cs[..i])|;
            var f := Filtered(cs, mac, promiscuous)[..i];
            && FirstAbandon(f) == (if t < j then t else j)
            && (AnyAbandon(f) <==> t < j) && |Bytes(f)| == j
  {
    var f := Filtered(cs, mac, promiscuous);
    hide Unspoilt, Filter.Presents, BadOnlyLast, AnyBad, Filtered;
    FilteredPrefix(cs, mac, promiscuous, i);
    FilteredBytes(cs[..i], mac, promiscuous);
    if i > 0 {
      FilteredFirst(cs, p, mac, promiscuous, i - 1);
      FilteredPrefix(cs, mac, promiscuous, i - 1);
      FilteredBytes(cs[..i - 1], mac, promiscuous);
      FilteredValid(cs, mac, promiscuous, i - 1);
      if cs[i - 1].valid {
        AbandonAt(cs, p, mac, promiscuous, i - 1);
      }
      assert f[..i][..i - 1] == f[..i - 1] && cs[..i][..i - 1] == cs[..i - 1];
      AnyAbandonSnoc(f[..i]);
      hide AnyAbandon;
    } else {
      assert f[..0] == [] && cs[..0] == [];
    }
  }

  lemma {:induction false} FilteredValid(cs: seq<Signals.Axis>, mac: Filter.MacAddress, promiscuous: bool, i: nat)
    requires i < |cs|
    ensures Filtered(cs, mac, promiscuous)[i].valid == cs[i].valid
  {
  }

  /** The output for a packet as the MAC delivers it, at most one pulse. A packet the filter accepts
      pulses if and only if the table is full or the packet does not fit beside those stored, good or
      bad. One it rejects pulses if and only if the table is not full, packets are stored and there are
      no more free bytes than it takes to see that the address is foreign, or the table is full and
      there is no free byte or the packet ends with the byte after those. */
  lemma {:induction false} LostIff(q: Queue, cs: seq<Signals.Axis>, p: seq<Byte>, mac: Filter.MacAddress,
                                   promiscuous: bool)
    requires Between(q) && |Flat(q.packets)| <= BYTES && |q.packets| <= DEPTH
    requires Filter.Presents(cs, p) && |p| >= 7 && BadOnlyLast(cs)
    ensures var pulses, free := LostPulses(q, Filtered(cs, mac, promiscuous)), BYTES - |Flat(q.packets)|;
            && pulses <= 1
            && (if promiscuous || Filter.Classify(p, mac) != Filter.NonMacMatch then
                  pulses == 1 <==> Full(q) || (q.packets != [] && free < |p|)
                else
                  pulses == 1 <==>
                    if Full(q) then free == 0 || ForeignFrom(p, mac, 0) == |p| - 1
                    else q.packets != [] && free <= ForeignFrom(p, mac, 0))
  {
    var i := Filtered(cs, mac, promiscuous);
    FilteredCarries(cs, p, mac, promiscuous);
    FilteredFirst(cs, p, mac, promiscuous, |cs|);
    assert i[..|cs|] == i && cs[..|cs|] == cs;
    if Filter.Classify(p, mac) == Filter.NonMacMatch {
      SixEnough(p, mac);
    }
    hide Filter.Classify, Filter.Bytes, FirstAbandon, AnyBad, Flat, Filtered, LostPulses, ForeignFrom, BadOnlyLast;
    LostExactly(q, i, p);
  }

  /** So for a good packet that the filter accepts the output says what the model says. */
  lemma {:induction false} LostMatchesModel(q: Queue, cs: seq<Signals.Axis>, p: seq<Byte>, mac: Filter.MacAddress,
                                            promiscuous: bool)
    requires Between(q) && |Flat(q.packets)| <= BYTES && |q.packets| <= DEPTH
    requires Filter.Presents(cs, p) && 7 <= |p| <= BYTES && !AnyBad(cs)
    requires promiscuous || Filter.Classify(p, mac) != Filter.NonMacMatch
    ensures LostPulses(q, Filtered(cs, mac, promiscuous))
         == if ModelLost(q.packets, Filter.Classify(p, mac), p, promiscuous) then 1 else 0
  {
    assert BadOnlyLast(cs) by {
      forall i | 0 <= i < |cs| - 1 ensures !(cs[i].valid && cs[i].user) {
        assert cs[i] in cs;
      }
    }
    LostIff(q, cs, p, mac, promiscuous);
    hide Filter.Classify, LostPulses, Filtered, AnyBad;
  }

  /** A table filled with short packets, as in the source's own trial of this: a rejected packet of
      more than seven bytes does not pulse; one of seven whose address is foreign from its sixth byte
      does, and so does any bad packet that the filter accepts. */
  lemma {:induction false} FullTable(q: Queue, cs: seq<Signals.Axis>, p: seq<Byte>, mac: Filter.MacAddress,
                                     promiscuous: bool)
    requires Between(q) && Full(q) && |Flat(q.packets)| < BYTES
    requires Filter.Presents(cs, p) && |p| >= 7 && BadOnlyLast(cs)
    ensures var pulses := LostPulses(q, Filtered(cs, mac, promiscuous));
            if promiscuous || Filter.Classify(p, mac) != Filter.NonMacMatch then pulses == 1
            else pulses == 1 <==> |p| == 7 && !Foreign(p[..5], mac)
  {
    LostIff(q, cs, p, mac, promiscuous);
    if Filter.Classify(p, mac) == Filter.NonMacMatch {
      SixEnough(p, mac);
      if !Foreign(p[..5], mac) {
        NotYetForeign(p, mac, 5);
      }
    }
    hide Filter.Classify, LostPulses, Filtered, AnyBad, Foreign;
  }

  lemma {:induction false} NotYetForeign(p: seq<Byte>, mac: Filter.MacAddress, n: nat)
    requires n <= |p| && !Foreign(p[..n], mac)
    ensures ForeignFrom(p, mac, 0) > n || n == |p|
  {
    var k := ForeignFrom(p, mac, 0);
    if k < |p| && k <= n {
      ForeignMore(p[..k], p[..n], mac);
    }
    hide Foreign;
  }

  /** Six bytes are enough to see it. */
  lemma {:induction false} SixEnough(p: seq<Byte>, mac: Filter.MacAddress)
    requires |p| >= 7 && Filter.Classify(p, mac) == Filter.NonMacMatch
    ensures ForeignFrom(p, mac, 0) <= 6
  {
    RejectedForeign(p, mac);
    hide Foreign, Filter.Classify;
  }

  // ---- With pops ----

  /** At beat `i` the ring is full with what the pops have left and the bytes kept so far. */
  predicate RoomGone(q: Queue, cs: seq<Inputs>, i: nat)
    requires i < |cs|
  {
    var left := Left(q.packets, cs[..i]);
    cs[i].valid && left != [] && |Flat(left)| + |Kept(q, cs[..i])| == BYTES
  }

  /** Some beat, none before it abandoned, finds the ring full. */
  ghost predicate RanOut(q: Queue, cs: seq<Inputs>) {
    exists i: nat | i < |cs| :: RoomGone(q, cs, i) && !AnyAbandon(cs[..i])
  }

  lemma {:induction false} RanOutSnoc(q: Queue, cs: seq<Inputs>)
    requires cs != []
    ensures var n := |cs| - 1;
            RanOut(q, cs) <==> RanOut(q, cs[..n]) || (RoomGone(q, cs, n) && !AnyAbandon(cs[..n]))
  {
    hide AnyAbandon, Left, Kept, Flat;
    var n := |cs| - 1;
    assert forall i: nat | i < n :: cs[..n][..i] == cs[..i];
    if RanOut(q, cs[..n]) {
      var i: nat :| i < n && RoomGone(q, cs[..n], i) && !AnyAbandon(cs[..n][..i]);
      assert RoomGone(q, cs, i);
    }
    if RanOut(q, cs) {
      var i: nat :| i < |cs| && RoomGone(q, cs, i) && !AnyAbandon(cs[..i]);
      assert i < n ==> RoomGone(q, cs[..n], i);
    }
  }

  lemma {:induction false} PulsesWithPops(q: Queue, cs: seq<Inputs>)
    requires Between(q) && NoneLast(cs)
    ensures LostPulses(q, cs) == if RanOut(q, cs) then 1 else 0
    ensures Spoiled(q, cs) <==> AnyAbandon(cs) || RanOut(q, cs)
  {
    if cs != [] {
      var n := |cs| - 1;
      assert cs[n] in cs;
      PulsesWithPops(q, cs[..n]);
      Arriving(q, cs[..n]);
      AnyAbandonSnoc(cs);
      RanOutSnoc(q, cs);
      hide AnyAbandon, RanOut, Flat, Left, Kept, NoneLast, QueueAfter, Full;
    }
  }

  /** Whatever is popped and whatever a packet is abandoned for: the output pulses, once, if and only if
      a beat that no abandoned one precedes finds the ring full, or no beat before the last is abandoned
      and the last finds the table full. */
  lemma {:induction false} LostWithPops(q: Queue, cs: seq<Inputs>, p: seq<Byte>)
    requires Between(q) && Carries(cs, p)
    ensures var n := |cs| - 1;
            LostPulses(q, cs)
            == if RanOut(q, cs) || (|Left(q.packets, cs[..n])| == DEPTH && !AnyAbandon(cs[..n])) then 1 else 0
  {
    var n := |cs| - 1;
    PulsesWithPops(q, cs[..n]);
    Arriving(q, cs[..n]);
    RanOutSnoc(q, cs);
    hide AnyAbandon, RanOut, Flat, Left, Kept, NoneLast, QueueAfter;
  }

  lemma {:induction false} FramedFirst(cs: seq<Signals.Axis>, pops: seq<bool>, p: seq<Byte>, mac: Filter.MacAddress,
                                       promiscuous: bool, i: nat)
    requires Filter.Presents(cs, p) && |p| >= 7 && BadOnlyLast(cs) && |pops| == |cs| && i <= |cs|
    ensures AnyAbandon(Framed(cs, pops, mac, promiscuous)[..i])
       <==> Unspoilt(p, mac, promiscuous, AnyBad(cs)) < |Filter.Bytes(cs[..i])|
  {
    FilteredFirst(cs, p, mac, promiscuous, i);
    FramedNoPop(cs, pops, mac, promiscuous);
    hide Filtered, Framed, Unspoilt, Filter.Presents, AnyBad, BadOnlyLast, AnyAbandon;
    var f, g := Framed(cs, pops, mac, promiscuous)[..i], Filtered(cs, mac, promiscuous)[..i];
    SameReverse(f, g);
    SameAbandon(f, g);
    SameAbandon(g, f);
  }

  /** Behind the filter: the beats of the packet up to the one that abandons it, and whether one of them
      finds the ring full or the last the table. */
  lemma {:induction false} LostIffWithPops(q: Queue, cs: seq<Signals.Axis>, pops: seq<bool>, p: seq<Byte>,
                                           mac: Filter.MacAddress, promiscuous: bool)
    requires Between(q) && Filter.Presents(cs, p) && |p| >= 7 && BadOnlyLast(cs) && |pops| == |cs|
    ensures var i, t, n := Framed(cs, pops, mac, promiscuous), Unspoilt(p, mac, promiscuous, AnyBad(cs)), |cs| - 1;
            LostPulses(q, i)
            == if (exists k: nat | k < |cs| :: RoomGone(q, i, k) && |Filter.Bytes(cs[..k])| <= t)
                  || (|Popped(|q.packets|, q.packets, Count(pops[..n]))| == DEPTH && |p| - 1 <= t)
               then 1 else 0
  {
    var i, n := Framed(cs, pops, mac, promiscuous), |cs| - 1;
    FilteredCarries(cs, p, mac, promiscuous);
    FramedNoPop(cs, pops, mac, promiscuous);
    forall k: nat | k <= |cs|
      ensures AnyAbandon(i[..k]) <==> Unspoilt(p, mac, promiscuous, AnyBad(cs)) < |Filter.Bytes(cs[..k])|
    {
      FramedFirst(cs, pops, p, mac, promiscuous, k);
    }
    assert |Filter.Bytes(cs[..n])| == |p| - 1;
    assert forall k | 0 <= k < n :: i[..n][k].pop == pops[..n][k];
    hide Filtered, Framed, Unspoilt, Filter.Presents, AnyBad, BadOnlyLast, Filter.Bytes, Count, RoomGone, AnyAbandon;
    SameCarries(i, Filtered(cs, mac, promiscuous), p);
    LeftPopped(q.packets, i[..n], pops[..n]);
    hide Carries;
    LostWithPops(q, i, p);
  }
}
