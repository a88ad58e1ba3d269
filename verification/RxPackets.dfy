/** What the receive buffer makes of whole packets, and the packet-queue model it must agree with. */
module RxPackets {
  import opened Bits
  import Signals
  import Filter = MacFilter
  import opened DescriptorFifo
  import opened RingBuffer

  // ---- Reading back ----

  function Offset(ps: seq<Packet>, k: nat): nat
    requires k <= |ps|
  {
    |Flat(ps[..k])|
  }

  lemma {:induction false} ChainAt(ds: seq<Desc>, ps: seq<Packet>, b: Pointer, e: Pointer, k: nat)
    requires Chain(ds, ps, b, e) && k < |ps|
    ensures k < |ds| && ds[k] == Desc(|ps[k].data| % 2048, ps[k].reason, (b + Offset(ps, k)) % BYTES)
    decreases |ps|
  {
    if k > 0 {
      var b' := (b + |ps[0].data|) % BYTES;
      ChainAt(ds[1..], ps[1..], b', e, k - 1);
      OffsetSplit(ps, k);
      Wrapped(b, |ps[0].data|, Offset(ps[1..], k - 1));
      hide BYTES, Offset;
    } else {
      RingBuffer.NoOffset(b);
      assert ps[..0] == [];
    }
  }

  lemma {:induction false} OffsetSplit(ps: seq<Packet>, k: nat)
    requires 0 < k <= |ps|
    ensures Offset(ps, k) == |ps[0].data| + Offset(ps[1..], k - 1)
  {
    assert ps[..k] == [ps[0]] + ps[1..][..k - 1];
  }

  lemma {:induction false} FlatAt(ps: seq<Packet>, k: nat, j: nat)
    requires k < |ps| && j < |ps[k].data|
    ensures Offset(ps, k) + j < |Flat(ps)| && Flat(ps)[Offset(ps, k) + j] == ps[k].data[j]
    decreases |ps|
  {
    if k > 0 {
      FlatAt(ps[1..], k - 1, j);
      assert ps[..k] == [ps[0]] + ps[1..][..k - 1];
      assert Offset(ps, k) == |ps[0].data| + Offset(ps[1..], k - 1);
    }
  }

  /** The ring from the pointer of entry `k` of the table, around the end if need be, is packet `k` of
      the queue; the entry's length is the packet's modulo 2048, so right if and only if the packet is
      shorter; an index beyond the packets is flagged. */
  lemma {:induction false} ReadsPacket(r: Regs, q: Queue, b: Pointer, k: Index)
    requires Holds(r, q, b)
    ensures Read(r.fifo, k).1 <==> k >= |q.packets|
    ensures k < |q.packets| ==>
              var d, p := Read(r.fifo, k).0, q.packets[k];
              && d.len == |p.data| % 2048 && (d.len == |p.data| <==> |p.data| < 2048) && d.reason == p.reason
              && forall j | 0 <= j < |p.data| :: r.mem[(d.head + j) % BYTES] == p.data[j]
  {
    hide Holds, Read, Flat, Window, Offset;
    Entry(r, q, b, k);
    if k < |q.packets| {
      var p, at, d := q.packets[k], Offset(q.packets, k), Read(r.fifo, k).0;
      HoldsWindow(r, q, b);
      LengthKept(|p.data|);
      forall j | 0 <= j < |p.data| ensures r.mem[(d.head + j) % BYTES] == p.data[j] {
        FlatAt(q.packets, k, j);
        StoredByte(r.mem, b, Flat(q.packets) + q.current, at, j, d.head);
      }
    }
  }

  lemma {:induction false} HoldsWindow(r: Regs, q: Queue, b: Pointer)
    requires Holds(r, q, b)
    ensures Window(r.mem, b, Flat(q.packets) + q.current)
  {
  }

  lemma {:induction false} LengthKept(n: nat)
    ensures n % 2048 == n <==> n < 2048
  {
  }

  /** What the table holds of packet `k`. */
  lemma {:induction false} Entry(r: Regs, q: Queue, b: Pointer, k: Index)
    requires Holds(r, q, b)
    ensures Read(r.fifo, k).1 <==> k >= |q.packets|
    ensures k < |q.packets| ==>
              Read(r.fifo, k).0
              == Desc(|q.packets[k].data| % 2048, q.packets[k].reason, (b + Offset(q.packets, k)) % BYTES)
  {
    HoldsSize(r, q, b);
    ReadContents(r.fifo, k);
    if k < |q.packets| {
      ChainAt(Contents(r.fifo), q.packets, b, r.ptrs.head, k);
    }
    hide Chain, Contents, Read, Offset, BYTES, Window;
  }

  lemma {:induction false} StoredByte(mem: Memory, b: Pointer, flat: seq<Byte>, at: nat, j: nat, head: Pointer)
    requires Window(mem, b, flat) && at + j < |flat| && head == (b + at) % BYTES
    ensures mem[(head + j) % BYTES] == flat[at + j]
  {
    assert mem[(b + (at + j)) % BYTES] == flat[at + j];
    Wrapped(b, at, j);
  }

  lemma {:induction false} Located(r: Regs, q: Queue, b: Pointer, k: nat, i: nat)
    requires Holds(r, q, b) && k < |q.packets| && i < |q.packets[k].data|
    ensures |Contents(r.fifo)| == |q.packets|
    ensures Contents(r.fifo)[k].head == (b + Offset(q.packets, k)) % BYTES && Offset(q.packets, k) + i < BYTES
  {
    HoldsSize(r, q, b);
    ChainAt(Contents(r.fifo), q.packets, b, r.ptrs.head, k);
    WindowSize(r.mem, b, Flat(q.packets) + q.current);
    FlatAt(q.packets, k, i);
    hide Chain, Contents, Window, Offset, Flat;
  }

  /** Different packets occupy different bytes. */
  lemma {:induction false} PacketsDisjoint(r: Regs, q: Queue, b: Pointer, k: nat, m: nat, i: nat, j: nat)
    requires Holds(r, q, b) && k < m < |q.packets| && i < |q.packets[k].data| && j < |q.packets[m].data|
    ensures |Contents(r.fifo)| == |q.packets|
    ensures (Contents(r.fifo)[k].head + i) % BYTES != (Contents(r.fifo)[m].head + j) % BYTES
  {
    hide *;
    Located(r, q, b, k, i);
    Located(r, q, b, m, j);
    OffsetOrder(q.packets, k, m);
    var x, y := Offset(q.packets, k), Offset(q.packets, m);
    DisjointSlots(b, x, y, i, j, Contents(r.fifo)[k].head, Contents(r.fifo)[m].head);
  }

  lemma {:induction false} DisjointSlots(b: nat, x: nat, y: nat, i: nat, j: nat, hx: nat, hy: nat)
    requires hx == (b + x) % BYTES && hy == (b + y) % BYTES && x + i < y + j < BYTES
    ensures (hx + i) % BYTES != (hy + j) % BYTES
  {
    Wrapped(b, x, i);
    Wrapped(b, y, j);
    DifferentBytes(b, x + i, y + j);
  }

  lemma {:induction false} DifferentBytes(b: nat, x: nat, y: nat)
    requires x < y < x + BYTES
    ensures (b + x) % BYTES != (b + y) % BYTES
  {
  }

  lemma {:induction false} OffsetOrder(ps: seq<Packet>, k: nat, m: nat)
    requires k < m <= |ps|
    ensures Offset(ps, k) + |ps[k].data| <= Offset(ps, m)
    decreases m
  {
    assert ps[..m] == ps[..m - 1] + [ps[m - 1]];
    FlatSnoc(ps[..m - 1], ps[m - 1]);
    if k < m - 1 {
      OffsetOrder(ps, k, m - 1);
    }
  }

  // ---- Whole runs ----

  function After(r: Regs, cs: seq<Inputs>): Regs {
    if cs == [] then r else RingBuffer.Next(After(r, cs[..|cs| - 1]), cs[|cs| - 1])
  }

  function QueueAfter(q: Queue, cs: seq<Inputs>): Queue {
    if cs == [] then q else QueueNext(QueueAfter(q, cs[..|cs| - 1]), cs[|cs| - 1])
  }

  /** No packet is longer than the ring. */
  ghost predicate Fit(q: Queue, cs: seq<Inputs>) {
    forall i | 0 <= i < |cs| && cs[i].valid :: |QueueAfter(q, cs[..i]).current| < BYTES
  }

  /** A packet that has gone all round a ring with nothing else in it starts again with its next byte. */
  function Started(q: Queue, i: Inputs): Queue {
    if i.valid && q.packets == [] && |q.current| == BYTES then q.(current := []) else q
  }

  function RoundAfter(q: Queue, cs: seq<Inputs>): Queue {
    if cs == [] then q else
      var n := |cs| - 1;
      QueueNext(Started(RoundAfter(q, cs[..n]), cs[n]), cs[n])
  }

  lemma {:induction false} StartedRoom(r: Regs, q: Queue, b: Pointer, i: Inputs)
    requires Holds(r, q, b)
    ensures Holds(r, Started(q, i), b) && (i.valid ==> |Started(q, i).current| < BYTES)
  {
    FullFlags(r, q, b);
    ChainEnd(Contents(r.fifo), q.packets, b, r.ptrs.head);
    hide Holds, BufFull, TableFull, Flat;
    if Started(q, i) != q {
      FullRoundEmpty(r, q, b);
    }
  }

  /** In every run whatever, packets longer than the ring included: only such a packet, and only when
      nothing else is stored, loses its beginning. */
  lemma {:induction false} AnyRunRefines(r: Regs, q: Queue, b: Pointer, cs: seq<Inputs>) returns (b': Pointer)
    requires Holds(r, q, b)
    ensures Holds(After(r, cs), RoundAfter(q, cs), b')
  {
    hide Holds, RingBuffer.Next, QueueNext;
    if cs == [] {
      b' := b;
    } else {
      var n := |cs| - 1;
      var b1 := AnyRunRefines(r, q, b, cs[..n]);
      var r1, q1 := After(r, cs[..n]), RoundAfter(q, cs[..n]);
      hide Started;
      StartedRoom(r1, q1, b1, cs[n]);
      b' := RingRefines(r1, Started(q1, cs[n]), b1, cs[n]);
    }
  }

  /** For packets that fit the ring that is the queue itself. */
  lemma {:induction false} FitRound(q: Queue, cs: seq<Inputs>)
    requires Fit(q, cs)
    ensures RoundAfter(q, cs) == QueueAfter(q, cs)
  {
    if cs != [] {
      var n := |cs| - 1;
      forall i | 0 <= i < n && cs[i].valid ensures |QueueAfter(q, cs[..n][..i]).current| < BYTES {
        assert cs[..n][..i] == cs[..i];
      }
      FitRound(q, cs[..n]);
      hide QueueNext;
    }
  }

  /** The receive buffer refines the queue in every run: commits, abandoned packets and pops in any
      order, at any time. */
  lemma {:induction false} RunRefines(r: Regs, q: Queue, b: Pointer, cs: seq<Inputs>) returns (b': Pointer)
    requires Holds(r, q, b) && Fit(q, cs)
    ensures Holds(After(r, cs), QueueAfter(q, cs), b')
  {
    hide *;
    b' := AnyRunRefines(r, q, b, cs);
    FitRound(q, cs);
  }

  // ---- One packet ----

  ghost predicate NoneLast(cs: seq<Inputs>) { forall i | i in cs :: !(i.valid && i.last) }

  /** The bytes of the valid beats. */
  function Bytes(cs: seq<Inputs>): seq<Byte> {
    if cs == [] then [] else
      var i := cs[|cs| - 1];
      Bytes(cs[..|cs| - 1]) + if i.valid then [i.data] else []
  }

  /** The bytes of the valid beats that found the table not full. */
  function Kept(q: Queue, cs: seq<Inputs>): seq<Byte> {
    if cs == [] then [] else
      var n := |cs| - 1;
      Kept(q, cs[..n]) + if cs[n].valid && !Full(QueueAfter(q, cs[..n])) then [cs[n].data] else []
  }

  /** What pops leave of the packets there were. */
  function Left(ps: seq<Packet>, cs: seq<Inputs>): seq<Packet> {
    if cs == [] then ps else
      var before := Left(ps, cs[..|cs| - 1]);
      if cs[|cs| - 1].pop && before != [] then before[1..] else before
  }

  /** Some valid beat found the ring full or was marked to be abandoned. */
  predicate Spoiled(q: Queue, cs: seq<Inputs>) {
    cs != [] &&
      var n := |cs| - 1;
      Spoiled(q, cs[..n]) || (cs[n].valid && (cs[n].abandon || NoRoom(QueueAfter(q, cs[..n]))))
  }

  ghost predicate Between(q: Queue) { q.current == [] && !q.lost }

  lemma {:induction false} Arriving(q: Queue, cs: seq<Inputs>)
    requires Between(q) && NoneLast(cs)
    ensures var q' := QueueAfter(q, cs);
            && q'.packets == Left(q.packets, cs) && q'.lost == Spoiled(q, cs)
            && (!q'.lost ==> q'.current == Kept(q, cs))
  {
    if cs != [] {
      var n := |cs| - 1;
      Arriving(q, cs[..n]);
      hide Full, NoRoom;
      assert cs[n] in cs;
    }
  }

  /** Cycles that carry one packet, with any gaps. */
  ghost predicate Carries(cs: seq<Inputs>, p: seq<Byte>) {
    && cs != [] && cs[|cs| - 1].valid && cs[|cs| - 1].last && NoneLast(cs[..|cs| - 1]) && Bytes(cs) == p
  }

  /** What becomes of one packet, whatever is popped meanwhile: it is stored exactly when no beat was
      abandoned or found the ring full and the table was not full at its end; and then what is
      stored is the bytes that did not arrive while the table was full. */
  lemma {:induction false} PacketOutcome(q: Queue, cs: seq<Inputs>, p: seq<Byte>)
    requires Between(q) && Carries(cs, p)
    ensures var n, q' := |cs| - 1, QueueAfter(q, cs);
            && Between(q')
            && q'.packets == Left(q.packets, cs)
                 + if Spoiled(q, cs) || Full(QueueAfter(q, cs[..n])) then []
                   else [Packet(cs[n].reason, Kept(q, cs))]
  {
    var n := |cs| - 1;
    Arriving(q, cs[..n]);
    hide Full, NoRoom;
    var q1 := QueueAfter(q, cs[..n]);
    assert Left(q.packets, cs) + [] == Left(q.packets, cs);
  }

  /** Some beat arrived while the table was full. */
  predicate MetFullTable(q: Queue, cs: seq<Inputs>) {
    cs != [] &&
      var n := |cs| - 1;
      MetFullTable(q, cs[..n]) || (cs[n].valid && Full(QueueAfter(q, cs[..n])))
  }

  /** The stored packet is the packet that arrived exactly when no beat met a full table. */
  lemma {:induction false} KeptIntact(q: Queue, cs: seq<Inputs>)
    ensures |Kept(q, cs)| <= |Bytes(cs)|
    ensures |Kept(q, cs)| == |Bytes(cs)| <==> !MetFullTable(q, cs)
    ensures Kept(q, cs) == Bytes(cs) <==> !MetFullTable(q, cs)
  {
    if cs != [] {
      KeptIntact(q, cs[..|cs| - 1]);
      hide Full;
    }
  }

  lemma {:induction false} LeftShrinks(ps: seq<Packet>, cs: seq<Inputs>, f: nat)
    requires f <= |cs|
    ensures |Left(ps, cs)| <= |Left(ps, cs[..f])|
    decreases |cs|
  {
    if f < |cs| {
      LeftShrinks(ps, cs[..|cs| - 1], f);
      assert cs[..|cs| - 1][..f] == cs[..f];
    } else {
      assert cs[..f] == cs;
    }
  }

  lemma {:induction false} NothingMet(q: Queue, cs: seq<Inputs>)
    requires forall i | 0 <= i < |cs| :: !cs[i].valid
    ensures !MetFullTable(q, cs)
  {
    if cs != [] {
      NothingMet(q, cs[..|cs| - 1]);
    }
  }

  /** No packet is added while one arrives, so a beat meets a full table if and only if the first
      does: which is known when the packet begins. */
  lemma {:induction false} MetFullIffFirst(q: Queue, cs: seq<Inputs>, f: nat)
    requires Between(q) && |q.packets| <= DEPTH && f < |cs| && NoneLast(cs[..|cs| - 1])
    requires cs[f].valid && forall i | 0 <= i < f :: !cs[i].valid
    ensures MetFullTable(q, cs) <==> |Left(q.packets, cs[..f])| == DEPTH
    decreases |cs|
  {
    var n := |cs| - 1;
    Arriving(q, cs[..n]);
    if n == f {
      NothingMet(q, cs[..f]);
    } else {
      assert cs[..n][..n - 1] == cs[..n - 1];
      forall i | i in cs[..n][..n - 1] ensures !(i.valid && i.last) {
        assert i in cs[..n];
      }
      MetFullIffFirst(q, cs[..n], f);
      assert cs[..n][..f] == cs[..f];
      LeftShrinks(q.packets, cs[..n], f);
      FullBounded(q, cs[..f]);
    }
  }

  lemma {:induction false} FullBounded(q: Queue, cs: seq<Inputs>)
    ensures |Left(q.packets, cs)| <= |q.packets|
  {
    LeftShrinks(q.packets, cs, 0);
    assert cs[..0] == [];
  }

  /** So a stored packet is the packet that arrived if and only if the table was not full at its
      first beat. */
  lemma {:induction false} CutShortIff(q: Queue, cs: seq<Inputs>, p: seq<Byte>, f: nat)
    requires Between(q) && |q.packets| <= DEPTH && Carries(cs, p)
    requires f < |cs| && cs[f].valid && forall i | 0 <= i < f :: !cs[i].valid
    ensures var n, q' := |cs| - 1, QueueAfter(q, cs);
            var stored := !Spoiled(q, cs) && !Full(QueueAfter(q, cs[..n]));
            && (stored <==> |q'.packets| == |Left(q.packets, cs)| + 1)
            && (stored ==>
                  (q'.packets[|q'.packets| - 1].data == p <==> |Left(q.packets, cs[..f])| < DEPTH))
  {
    PacketOutcome(q, cs, p);
    KeptIntact(q, cs);
    MetFullIffFirst(q, cs, f);
    FullBounded(q, cs[..f]);
    hide Full;
  }

  /** It does happen: the first byte arrives while the table is full, the oldest packet is popped,
      and the packet is stored without that byte. */
  lemma {:induction false} IncompletePacketStored(r: Regs, q: Queue, b: Pointer, x: Byte, y: Byte,
                                                  reason: Filter.Reason)
    returns (b': Pointer)
    requires Holds(r, q, b) && Between(q) && Full(q) && !NoRoom(q)
    ensures var cs := [Inputs(x, true, false, reason, false, true), Inputs(y, true, true, reason, false, false)];
            && Carries(cs, [x, y])
            && Holds(After(r, cs), Queue(q.packets[1..] + [Packet(reason, [y])], [], false), b')
  {
    var i0, i1 := Inputs(x, true, false, reason, false, true), Inputs(y, true, true, reason, false, false);
    var rest := q.packets[1..];
    assert |Flat(rest)| <= |Flat(q.packets)| <= BYTES by { RoomLeft(r, q, b); }
    TwoCycles(r, i0, i1);
    var q1 := QueueNext(q, i0);
    assert q1 == Queue(rest, [], false);
    assert QueueNext(q1, i1) == Queue(rest + [Packet(reason, [y])], [], false) by {
      assert [] + [y] == [y];
    }
    hide Holds, RingBuffer.Next, QueueNext;
    var b1 := RingRefines(r, q, b, i0);
    b' := RingRefines(RingBuffer.Next(r, i0), q1, b1, i1);
  }

  lemma {:induction false} RoomLeft(r: Regs, q: Queue, b: Pointer)
    requires Holds(r, q, b) && q.packets != []
    ensures |Flat(q.packets[1..])| <= |Flat(q.packets)| <= BYTES
  {
    WindowSize(r.mem, b, Flat(q.packets) + q.current);
  }

  lemma {:induction false} TwoCycles(r: Regs, i0: Inputs, i1: Inputs)
    ensures After(r, [i0, i1]) == RingBuffer.Next(RingBuffer.Next(r, i0), i1)
    ensures i0.valid && !i0.last && i1.valid && i1.last ==> Carries([i0, i1], [i0.data, i1.data])
  {
    hide RingBuffer.Next;
    assert [i0, i1][..1] == [i0] && [i0][..0] == [];
    assert After(r, [i0]) == RingBuffer.Next(r, i0);
    assert Bytes([i0]) == [] + if i0.valid then [i0.data] else [];
  }

  const ONE_BYTE := Inputs(Zeros(8), true, true, Filter.MacMatches, false, false)

  function Fill(n: nat): (cs: seq<Inputs>)
    ensures |cs| == n
  {
    seq(n, _ => ONE_BYTE)
  }

  function Stored(n: nat): (ps: seq<Packet>)
    ensures |ps| == n
  {
    seq(n, _ => Packet(Filter.MacMatches, [Zeros(8)]))
  }

  lemma {:induction false} FillStores(n: nat)
    requires n <= 8
    ensures QueueAfter(Queue([], [], false), Fill(n)) == Queue(Stored(n), [], false) && |Flat(Stored(n))| == n
  {
    if n > 0 {
      FillStores(n - 1);
      assert Fill(n)[..n - 1] == Fill(n - 1);
      assert [] + [Zeros(8)] == [Zeros(8)];
      assert Stored(n) == Stored(n - 1) + [Packet(Filter.MacMatches, [Zeros(8)])];
      FlatSnoc(Stored(n - 1), Packet(Filter.MacMatches, [Zeros(8)]));
    }
  }

  lemma {:induction false} AfterSplit(r: Regs, a: seq<Inputs>, b: seq<Inputs>)
    ensures After(r, a + b) == After(After(r, a), b)
  {
    hide RingBuffer.Next;
    if b == [] {
      assert a + b == a;
    } else {
      assert (a + b)[..|a + b| - 1] == a + b[..|b| - 1];
      AfterSplit(r, a, b[..|b| - 1]);
    }
  }

  /** From an empty buffer: eight packets fill the table; of the next, two bytes long, only the
      second is stored. */
  lemma {:induction false} IncompleteFromEmpty(r: Regs, x: Byte, y: Byte, reason: Filter.Reason) returns (b: Pointer)
    requires Empty(r)
    ensures var cs := [Inputs(x, true, false, reason, false, true), Inputs(y, true, true, reason, false, false)];
            && Carries(cs, [x, y])
            && Holds(After(r, Fill(8) + cs), Queue(Stored(8)[1..] + [Packet(reason, [y])], [], false), b)
  {
    var empty := Queue([], [], false);
    EmptyHolds(r);
    forall i | 0 <= i < 8 && Fill(8)[i].valid ensures |QueueAfter(empty, Fill(8)[..i]).current| < BYTES {
      assert Fill(8)[..i] == Fill(i);
      FillStores(i);
    }
    FillStores(8);
    hide Holds, QueueNext, RingBuffer.Next, QueueAfter, Flat;
    var b1 := RunRefines(r, empty, r.ptrs.head, Fill(8));
    b := IncompletePacketStored(After(r, Fill(8)), Queue(Stored(8), [], false), b1, x, y, reason);
    AfterSplit(r, Fill(8), [Inputs(x, true, false, reason, false, true), Inputs(y, true, true, reason, false, false)]);
  }

  // ---- The packet-queue model ----

  /** What the model does with a packet that has arrived. */
  function ModelReceive(ps: seq<Packet>, reason: Filter.Reason, p: seq<Byte>, promiscuous: bool): seq<Packet> {
    if promiscuous || reason != Filter.NonMacMatch then
      if |ps| >= 8 then ps
      else if |Flat(ps)| + |p| > 8192 then ps
      else ps + [Packet(reason, p)]
    else ps
  }

  /** Whether the model reports the packet lost. */
  predicate ModelLost(ps: seq<Packet>, reason: Filter.Reason, p: seq<Byte>, promiscuous: bool) {
    (promiscuous || reason != Filter.NonMacMatch) && (|ps| >= 8 || |Flat(ps)| + |p| > 8192)
  }

  datatype Arrival = Nothing | InProgress(data: seq<Byte>)

  /** The model itself: the packets held and the one in progress. */
  class AxiEthernetModel {
    var rxPackets: seq<Packet>
    var packetLost: bool
    var rxPacketInProgress: Arrival
    var promiscuous: bool
    var macAddress: Filter.MacAddress

    method SumOfLengths() returns (sum: nat)
      ensures sum == |Flat(rxPackets)|
    {
      sum := 0;
      var i := |rxPackets|;
      while i > 0
        invariant 0 <= i <= |rxPackets| && sum == |Flat(rxPackets[i..])|
      {
        i := i - 1;
        assert rxPackets[i..][1..] == rxPackets[i + 1..];
        sum := sum + |rxPackets[i].data|;
      }
      assert rxPackets[0..] == rxPackets;
    }

    method WaitForRxDone()
      modifies this
      ensures rxPacketInProgress == Nothing
      ensures promiscuous == old(promiscuous) && macAddress == old(macAddress)
      ensures old(rxPacketInProgress) == Nothing ==> rxPackets == old(rxPackets) && packetLost == old(packetLost)
      ensures old(rxPacketInProgress).InProgress? ==>
                var p := old(rxPacketInProgress).data;
                var reason := Filter.Classify(p, macAddress);
                && rxPackets == ModelReceive(old(rxPackets), reason, p, promiscuous)
                && packetLost == (old(packetLost) || ModelLost(old(rxPackets), reason, p, promiscuous))
      ensures old(rxPacketInProgress).InProgress? ==>
                var p := old(rxPacketInProgress).data;
                var reason := Filter.Classify(p, macAddress);
                if !promiscuous && reason == Filter.NonMacMatch then
                  rxPackets == old(rxPackets) && packetLost == old(packetLost)
                else
                  && packetLost == (old(packetLost) || rxPackets == old(rxPackets))
                  && rxPackets == old(rxPackets) + if |old(rxPackets)| < 8 && |Flat(old(rxPackets))| + |p| <= 8192
                                                   then [Packet(reason, p)] else []
    {
      var arrived := rxPacketInProgress;
      rxPacketInProgress := Nothing;
      if arrived == Nothing {
        return;
      }
      var reason := Filter.Classify(arrived.data, macAddress);
      if promiscuous || reason != Filter.NonMacMatch {
        var sum := SumOfLengths();
        if |rxPackets| >= 8 {
          packetLost := true;
        } else if sum + |arrived.data| > 8192 {
          packetLost := true;
        } else {
          rxPackets := rxPackets + [Packet(reason, arrived.data)];
        }
      }
    }

    method RxPopPacket()
      modifies this`rxPackets
      ensures rxPackets == if old(rxPackets) == [] then [] else old(rxPackets)[1..]
    {
      if rxPackets != [] {
        rxPackets := rxPackets[1..];
      }
    }
  }

  ghost predicate NoPop(cs: seq<Inputs>) { forall i | i in cs :: !i.pop }

  ghost predicate AnyAbandon(cs: seq<Inputs>) { exists i | i in cs :: i.valid && i.abandon }

  lemma {:induction false} AnyAbandonSnoc(cs: seq<Inputs>)
    requires cs != []
    ensures var n := |cs| - 1;
            AnyAbandon(cs) <==> AnyAbandon(cs[..n]) || (cs[n].valid && cs[n].abandon)
  {
    var n := |cs| - 1;
    assert forall i :: i in cs <==> i in cs[..n] || i == cs[n] by {
      assert cs == cs[..n] + [cs[n]];
    }
  }

  /** With no pop and a table not full, a packet is spoiled exactly when it is abandoned or does not
      fit beside those stored. */
  lemma {:induction false} SpoiledIff(q: Queue, cs: seq<Inputs>)
    requires Between(q) && !Full(q) && NoPop(cs) && |Flat(q.packets)| <= BYTES
    requires cs != [] ==> NoneLast(cs[..|cs| - 1])
    ensures Left(q.packets, cs) == q.packets && !MetFullTable(q, cs)
    ensures Spoiled(q, cs)
       <==> AnyAbandon(cs) || (q.packets != [] && |Flat(q.packets)| + |Bytes(cs)| > BYTES)
  {
    if cs != [] {
      var n := |cs| - 1;
      AnyAbandonSnoc(cs);
      assert n > 0 ==> NoneLast(cs[..n][..n - 1]);
      SpoiledIff(q, cs[..n]);
      Arriving(q, cs[..n]);
      KeptIntact(q, cs[..n]);
      hide AnyAbandon, Full;
      assert cs[n] in cs;
    }
  }

  lemma {:induction false} StillFull(q: Queue, cs: seq<Inputs>)
    requires Between(q) && NoneLast(cs) && NoPop(cs)
    ensures Left(q.packets, cs) == q.packets && QueueAfter(q, cs).packets == q.packets
  {
    Arriving(q, cs);
    LeftAll(q.packets, cs);
  }

  lemma {:induction false} LeftAll(ps: seq<Packet>, cs: seq<Inputs>)
    requires NoPop(cs)
    ensures Left(ps, cs) == ps
  {
    if cs != [] {
      LeftAll(ps, cs[..|cs| - 1]);
      assert cs[|cs| - 1] in cs;
    }
  }

  /** One packet with no pop meanwhile is stored whole, once, exactly when it is not abandoned, the
      table has an entry free and its bytes fit. */
  lemma {:induction false} NoPopOutcome(q: Queue, cs: seq<Inputs>, p: seq<Byte>)
    requires Between(q) && Carries(cs, p) && NoPop(cs) && |Flat(q.packets)| <= BYTES && |q.packets| <= DEPTH
    requires |p| <= BYTES
    ensures Between(QueueAfter(q, cs))
    ensures QueueAfter(q, cs).packets
         == if AnyAbandon(cs) then q.packets
            else ModelReceive(q.packets, cs[|cs| - 1].reason, p, true)
  {
    var n := |cs| - 1;
    PacketOutcome(q, cs, p);
    StillFull(q, cs[..n]);
    LeftAll(q.packets, cs);
    if !Full(q) {
      SpoiledIff(q, cs);
      KeptIntact(q, cs);
    }
  }

  /** The cycles in which the lost-packet output pulses. */
  function LostPulses(q: Queue, cs: seq<Inputs>): nat {
    if cs == [] then 0 else
      var n := |cs| - 1;
      LostPulses(q, cs[..n]) + if QueueLost(QueueAfter(q, cs[..n]), cs[n]) then 1 else 0
  }

  lemma {:induction false} LostBefore(q: Queue, cs: seq<Inputs>)
    requires Between(q) && NoneLast(cs) && !AnyAbandon(cs)
    ensures LostPulses(q, cs) == if Spoiled(q, cs) then 1 else 0
  {
    if cs != [] {
      var n := |cs| - 1;
      AnyAbandonSnoc(cs);
      LostBefore(q, cs[..n]);
      Arriving(q, cs[..n]);
      hide AnyAbandon, Full, NoRoom;
      assert cs[n] in cs;
    }
  }

  /** A packet that nothing abandons pulses the output once if it is not stored and never if it is,
      whatever is popped meanwhile. */
  lemma {:induction false} LostOnce(q: Queue, cs: seq<Inputs>, p: seq<Byte>)
    requires Between(q) && Carries(cs, p) && !AnyAbandon(cs)
    ensures LostPulses(q, cs) == if |QueueAfter(q, cs).packets| == |Left(q.packets, cs)| + 1 then 0 else 1
  {
    var n := |cs| - 1;
    AnyAbandonSnoc(cs);
    LostBefore(q, cs[..n]);
    Arriving(q, cs[..n]);
    PacketOutcome(q, cs, p);
    hide AnyAbandon, Full, NoRoom;
  }

  // ---- Behind the address filter ----

  /** The ring's inputs when the stream `cs` arrives between packets and nothing is popped. */
  function Filtered(cs: seq<Signals.Axis>, mac: Filter.MacAddress, promiscuous: bool): (i: seq<Inputs>)
    ensures |i| == |cs|
  {
    seq(|cs|, k requires 0 <= k < |cs| =>
      var f := Filter.After(Filter.RESET, cs[..k], mac);
      var abandon := Filter.Abandon(f, cs[k], promiscuous);
      Inputs(cs[k].data, cs[k].valid, cs[k].last, Filter.CaptureReason(f), abandon, false))
  }

  lemma {:induction false} FilteredBytes(cs: seq<Signals.Axis>, mac: Filter.MacAddress, promiscuous: bool)
    ensures Bytes(Filtered(cs, mac, promiscuous)) == Filter.Bytes(cs)
  {
    hide Filter.After, Filter.CaptureReason, Filter.Abandon;
    if cs != [] {
      var n := |cs| - 1;
      FilteredBytes(cs[..n], mac, promiscuous);
      FilteredPrefix(cs, mac, promiscuous, n);
    }
  }

  lemma {:induction false} FilteredPrefix(cs: seq<Signals.Axis>, mac: Filter.MacAddress, promiscuous: bool, n: nat)
    requires n <= |cs|
    ensures Filtered(cs, mac, promiscuous)[..n] == Filtered(cs[..n], mac, promiscuous)
  {
    hide Filter.After, Filter.CaptureReason, Filter.Abandon;
    forall k | 0 <= k < n ensures Filtered(cs, mac, promiscuous)[k] == Filtered(cs[..n], mac, promiscuous)[k] {
      assert cs[..n][..k] == cs[..k];
    }
  }

  lemma {:induction false} FilteredCarries(cs: seq<Signals.Axis>, p: seq<Byte>, mac: Filter.MacAddress,
                                           promiscuous: bool)
    requires Filter.Presents(cs, p)
    ensures Carries(Filtered(cs, mac, promiscuous), p) && NoPop(Filtered(cs, mac, promiscuous))
  {
    FilteredBytes(cs, mac, promiscuous);
    hide Filter.After, Filter.CaptureReason, Filter.Abandon, Bytes, Filter.Bytes;
    var i, n := Filtered(cs, mac, promiscuous), |cs| - 1;
    forall x | x in i[..n] ensures !(x.valid && x.last) {
      var k :| 0 <= k < n && i[k] == x;
      assert cs[..n][k] in cs[..n];
    }
  }

  lemma {:induction false} FilteredAbandon(cs: seq<Signals.Axis>, mac: Filter.MacAddress, promiscuous: bool)
    ensures AnyAbandon(Filtered(cs, mac, promiscuous))
       <==> exists k: nat | k < |cs| :: Filter.AbandonedAt(cs, mac, promiscuous, k)
  {
    hide Filter.After, Filter.CaptureReason, Filter.Abandon;
    var i := Filtered(cs, mac, promiscuous);
    if AnyAbandon(i) {
      var x :| x in i && x.valid && x.abandon;
      var k: nat :| k < |i| && i[k] == x;
      assert Filter.AbandonedAt(cs, mac, promiscuous, k);
    }
    forall k: nat | k < |cs| && Filter.AbandonedAt(cs, mac, promiscuous, k) ensures AnyAbandon(i) {
      assert i[k] in i;
    }
  }

  /** A beat marked bad by the MAC. */
  ghost predicate AnyBad(cs: seq<Signals.Axis>) { exists c | c in cs :: c.valid && c.user }

  lemma {:induction false} CurrentBound(q: Queue, cs: seq<Inputs>)
    requires Between(q) && NoneLast(cs)
    ensures |QueueAfter(q, cs).current| <= |Bytes(cs)|
  {
    hide Full, NoRoom;
    if cs != [] {
      CurrentBound(q, cs[..|cs| - 1]);
      assert cs[|cs| - 1] in cs;
    }
  }

  lemma {:induction false} BytesBefore(cs: seq<Inputs>, i: nat)
    requires i < |cs| && cs[i].valid
    ensures |Bytes(cs[..i])| < |Bytes(cs)|
    decreases |cs|
  {
    var n := |cs| - 1;
    if i < n {
      BytesBefore(cs[..n], i);
      assert cs[..n][..i] == cs[..i];
    }
  }

  lemma {:induction false} CarriedFits(q: Queue, cs: seq<Inputs>, p: seq<Byte>)
    requires Between(q) && Carries(cs, p) && |p| <= BYTES
    ensures Fit(q, cs)
  {
    hide QueueAfter, Bytes;
    var n := |cs| - 1;
    forall i | 0 <= i < |cs| && cs[i].valid ensures |QueueAfter(q, cs[..i]).current| < BYTES {
      assert cs[..i] == cs[..n][..i];
      CurrentBound(q, cs[..i]);
      BytesBefore(cs, i);
    }
  }
}
