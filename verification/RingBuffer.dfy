/** The receive buffer: a byte ring, a write pointer that can go back to the start of the packet, and
    a table of descriptors; it refines a queue of packets. */
module RingBuffer {
  import opened Bits
  import Filter = MacFilter
  import opened DescriptorFifo

  const BYTES := 8192

  type Memory = m: seq<Byte> | |m| == 8192 witness seq(8192, _ => Zeros(8))

  /** The write pointer and the start of the packet being written. */
  datatype Pointers = Pointers(wr: Pointer, head: Pointer)

  function PointersNext(p: Pointers, valid: bool, commit: bool, abandon: bool): Pointers {
    Pointers(if !valid then p.wr else if abandon then p.head else (p.wr + 1) % BYTES,
             if commit && valid then (p.wr + 1) % BYTES else p.head)
  }

  datatype Regs = Regs(ptrs: Pointers, fifo: Fifo, sticky: bool, mem: Memory)

  /** One cycle of the packet input, and the pop request. */
  datatype Inputs = Inputs(data: Byte, valid: bool, last: bool, reason: Filter.Reason, abandon: bool, pop: bool)

  const QUIET := Inputs(Zeros(8), false, false, Filter.MacMatches, false, false)

  predicate BufFull(r: Regs) { r.fifo.depth != 0 && r.fifo.storage[r.fifo.rptr].head == r.ptrs.wr }

  predicate TableFull(r: Regs) { r.fifo.depth == DEPTH }

  predicate AbandonThis(r: Regs, i: Inputs) { r.sticky || i.abandon || BufFull(r) || TableFull(r) }

  predicate PacketLost(r: Regs, i: Inputs) {
    ((BufFull(r) && i.valid) || (TableFull(r) && i.last && i.valid)) && !r.sticky
  }

  predicate BufWrite(r: Regs, i: Inputs) { i.valid && !BufFull(r) && !AbandonThis(r, i) }

  function CurrentDesc(r: Regs, i: Inputs): Desc {
    Desc((r.ptrs.wr + 1 - r.ptrs.head) % BYTES % 2048, i.reason, r.ptrs.head)
  }

  function Next(r: Regs, i: Inputs): Regs {
    var commit := i.valid && i.last && !AbandonThis(r, i);
    var abandon := i.valid && i.last && AbandonThis(r, i);
    Regs(PointersNext(r.ptrs, BufWrite(r, i) || abandon, commit, abandon),
         FifoNext(r.fifo, commit, CurrentDesc(r, i), i.pop),
         if i.last && i.valid then false else (i.abandon && i.valid) || PacketLost(r, i) || r.sticky,
         if BufWrite(r, i) then r.mem[r.ptrs.wr := i.data] else r.mem)
  }

  class WrPtrLogic {
    var wrPtr: Pointer
    var headPtr: Pointer

    constructor ()
      ensures State() == Pointers(0, 0)
    {
      wrPtr, headPtr := 0, 0;
    }

    function State(): Pointers
      reads this
    {
      Pointers(wrPtr, headPtr)
    }

    method Clock(valid: bool, commit: bool, abandon: bool)
      modifies this
      ensures State() == PointersNext(old(State()), valid, commit, abandon)
    {
      var wr: int := wrPtr;
      if valid {
        wrPtr := if abandon then headPtr else (wr + 1) % 8192;
      }
      if commit && valid {
        headPtr := (wr + 1) % 8192;
      }
    }
  }

  class AxisPktRingBuffer {
    const bufWrPtrLogic: WrPtrLogic
    const descriptionTable: RandomAccessFifo
    const ram: array<Byte>
    var abandonSticky: bool

    /** Reset; it leaves the memory as it was. */
    constructor (initial: Memory)
      ensures Valid() && fresh(bufWrPtrLogic) && fresh(descriptionTable)
      ensures fresh(descriptionTable.fifoStorage) && fresh(ram)
      ensures JustReset(State()) && State().mem == initial && State().ptrs == Pointers(0, 0)
    {
      bufWrPtrLogic := new WrPtrLogic();
      descriptionTable := new RandomAccessFifo();
      ram := new Byte[8192](k requires 0 <= k < 8192 => initial[k]);
      abandonSticky := false;
    }

    predicate Valid()
      reads this
    {
      ram.Length == 8192 && descriptionTable.fifoStorage.Length == 8
    }

    ghost function State(): Regs
      reads this, bufWrPtrLogic, descriptionTable, descriptionTable.fifoStorage, ram
      requires Valid()
    {
      Regs(bufWrPtrLogic.State(), descriptionTable.State(), abandonSticky, ram[..])
    }

    /** The combinational signals. */
    method Decide(i: Inputs) returns (bufWrite: bool, commit: bool, abandon: bool, lost: bool)
      requires Valid()
      ensures bufWrite == BufWrite(State(), i) && lost == PacketLost(State(), i)
      ensures commit == (i.valid && i.last && !AbandonThis(State(), i))
      ensures abandon == (i.valid && i.last && AbandonThis(State(), i))
    {
      var tableFull, empty := descriptionTable.Status();
      var oldest, err := descriptionTable.ReadAt(0);
      var bufFull := !empty && oldest.head == bufWrPtrLogic.wrPtr;
      var abandonThis := abandonSticky || i.abandon || bufFull || tableFull;
      lost := ((bufFull && i.valid) || (tableFull && i.last && i.valid)) && !abandonSticky;
      bufWrite := i.valid && !bufFull && !abandonThis;
      commit := i.valid && i.last && !abandonThis;
      abandon := i.valid && i.last && abandonThis;
    }

    /** One clock edge. */
    method Clock(i: Inputs) returns (packetLost: bool)
      requires Valid()
      modifies this, bufWrPtrLogic, descriptionTable, descriptionTable.fifoStorage, ram
      ensures State() == Next(old(State()), i)
      ensures packetLost == PacketLost(old(State()), i)
    {
      var bufWrite, commit, abandon, lost := Decide(i);
      packetLost := lost;
      hide BufFull, AbandonThis, FifoNext, PointersNext;
      var wr: int, head: Pointer := bufWrPtrLogic.wrPtr, bufWrPtrLogic.headPtr;
      var desc := Desc((wr + 1 - head) % 8192 % 2048, i.reason, head);
      if bufWrite {
        ram[wr] := i.data;
      }
      abandonSticky := if i.last && i.valid then false else (i.abandon && i.valid) || lost || abandonSticky;
      descriptionTable.Clock(commit, desc, i.pop);
      bufWrPtrLogic.Clock(bufWrite || abandon, commit, abandon);
    }
  }

  ghost predicate NothingHeld(r: Regs) {
    r.ptrs.wr == r.ptrs.head && r.fifo.depth == 0 && r.fifo.wptr == r.fifo.rptr && !r.sticky
  }

  ghost predicate JustReset(r: Regs) { NothingHeld(r) && r.fifo.underRst }

  ghost predicate Empty(r: Regs) { NothingHeld(r) && !r.fifo.underRst }

  // ---- The queue ----

  datatype Packet = Packet(reason: Filter.Reason, data: seq<Byte>)

  /** The packets held, the bytes kept of the packet arriving, and whether that is given up. */
  datatype Queue = Queue(packets: seq<Packet>, current: seq<Byte>, lost: bool)

  function Flat(ps: seq<Packet>): seq<Byte> {
    if ps == [] then [] else ps[0].data + Flat(ps[1..])
  }

  predicate NoRoom(q: Queue) { q.packets != [] && |Flat(q.packets)| + |q.current| == BYTES }

  predicate Full(q: Queue) { |q.packets| == DEPTH }

  predicate Dropped(q: Queue, i: Inputs) { q.lost || i.abandon || NoRoom(q) || Full(q) }

  function QueueNext(q: Queue, i: Inputs): Queue {
    var kept := if i.pop && q.packets != [] then q.packets[1..] else q.packets;
    if !i.valid then
      Queue(kept, q.current, q.lost)
    else if i.last then
      Queue(if Dropped(q, i) then kept else kept + [Packet(i.reason, q.current + [i.data])], [], false)
    else
      Queue(kept, if Dropped(q, i) then q.current else q.current + [i.data], q.lost || i.abandon || NoRoom(q))
  }

  // ---- Refinement ----

  /** The descriptors are those of the packets, laid end to end from `b` to `e`; a length is kept
      modulo 2048. */
  ghost predicate Chain(ds: seq<Desc>, ps: seq<Packet>, b: Pointer, e: Pointer)
    decreases |ps|
  {
    if ps == [] then ds == [] && b == e
    else
      && ds != [] && ds[0] == Desc(|ps[0].data| % 2048, ps[0].reason, b) && 0 < |ps[0].data|
      && Chain(ds[1..], ps[1..], (b + |ps[0].data|) % BYTES, e)
  }

  /** The ring holds these bytes from `b`. */
  ghost predicate Window(mem: Memory, b: Pointer, flat: seq<Byte>) {
    |flat| <= BYTES && forall i | 0 <= i < |flat| :: mem[(b + i) % BYTES] == flat[i]
  }

  /** The pointers, the table and the ring hold the queue, whose oldest byte is at `b`. */
  ghost predicate Holds(r: Regs, q: Queue, b: Pointer) {
    && WellFormed(r.fifo)
    && Chain(Contents(r.fifo), q.packets, b, r.ptrs.head)
    && r.ptrs.wr == (r.ptrs.head + |q.current|) % BYTES
    && Window(r.mem, b, Flat(q.packets) + q.current)
    && r.sticky == q.lost && |q.packets| <= DEPTH
  }

  lemma {:induction false} EmptyHolds(r: Regs)
    requires Empty(r)
    ensures Holds(r, Queue([], [], false), r.ptrs.head)
  {
  }

  /** Only the pointer, the bytes and the flag tell what is held when the table is empty. */
  lemma {:induction false} EmptyTable(r: Regs, q: Queue)
    requires WellFormed(r.fifo) && r.fifo.depth == 0 && q.packets == [] && r.sticky == q.lost
    requires r.ptrs.wr == (r.ptrs.head + |q.current|) % BYTES && Window(r.mem, r.ptrs.head, q.current)
    ensures Holds(r, q, r.ptrs.head)
  {
    assert Flat([]) + q.current == q.current;
    assert Contents(r.fifo) == [];
    hide Window, WellFormed, Contents;
  }

  /** The first cycle after reset: a packet of one beat leaves no entry, and is not reported lost;
      any other beat is taken as from an empty queue. */
  lemma {:induction false} FirstCycle(r: Regs, i: Inputs)
    requires JustReset(r)
    ensures i.valid && i.last ==> Empty(Next(r, i))
    ensures !(i.valid && i.last) ==> Holds(Next(r, i), QueueNext(Queue([], [], false), i), r.ptrs.head)
    ensures !PacketLost(r, i)
  {
    FirstCycleIgnored(r.fifo, i.valid && i.last && !AbandonThis(r, i), CurrentDesc(r, i), i.pop);
    var r', q' := Next(r, i), QueueNext(Queue([], [], false), i);
    if !(i.valid && i.last) {
      assert q'.packets == [] && q'.current == if i.valid && !i.abandon then [i.data] else [];
      EmptyTable(r', q');
    }
  }

  lemma {:induction false} Wrapped(b: nat, at: nat, j: nat)
    ensures ((b + at) % BYTES + j) % BYTES == (b + (at + j)) % BYTES
  {
  }

  lemma {:induction false} ChainEnd(ds: seq<Desc>, ps: seq<Packet>, b: Pointer, e: Pointer)
    requires Chain(ds, ps, b, e)
    ensures |ds| == |ps| && e == (b + |Flat(ps)|) % BYTES && |ps| <= |Flat(ps)|
    decreases |ps|
  {
    if ps == [] {
      NoOffset(b);
    } else {
      var n := |ps[0].data|;
      ChainEnd(ds[1..], ps[1..], (b + n) % BYTES, e);
      Wrapped(b, n, |Flat(ps[1..])|);
      hide BYTES;
    }
  }

  lemma {:induction false} ChainSnoc(ds: seq<Desc>, ps: seq<Packet>, b: Pointer, e: Pointer, p: Packet)
    requires Chain(ds, ps, b, e) && 0 < |p.data|
    ensures Chain(ds + [Desc(|p.data| % 2048, p.reason, e)], ps + [p], b, (e + |p.data|) % BYTES)
    decreases |ps|
  {
    var d := Desc(|p.data| % 2048, p.reason, e);
    if ps == [] {
      assert ds + [d] == [d] && ps + [p] == [p];
      assert [d][1..] == [] && [p][1..] == [];
    } else {
      var b' := (b + |ps[0].data|) % BYTES;
      ChainSnoc(ds[1..], ps[1..], b', e, p);
      assert (ds + [d])[1..] == ds[1..] + [d] && (ps + [p])[1..] == ps[1..] + [p];
    }
  }

  lemma {:induction false} FlatSnoc(ps: seq<Packet>, p: Packet)
    ensures Flat(ps + [p]) == Flat(ps) + p.data
  {
    if ps == [] {
      assert [p][1..] == [] && ps + [p] == [p];
    } else {
      assert (ps + [p])[1..] == ps[1..] + [p];
      FlatSnoc(ps[1..], p);
    }
  }

  /** The full flag is exactly a ring with no byte to spare. */
  lemma {:induction false} FullFlags(r: Regs, q: Queue, b: Pointer)
    requires Holds(r, q, b)
    ensures BufFull(r) == NoRoom(q) && TableFull(r) == Full(q)
    ensures |Flat(q.packets)| + |q.current| <= BYTES
    ensures r.ptrs.wr == (b + |Flat(q.packets)| + |q.current|) % BYTES
  {
    ChainEnd(Contents(r.fifo), q.packets, b, r.ptrs.head);
    assert q.packets != [] ==> Contents(r.fifo)[0].head == b;
    hide Chain, Window, Flat;
    assert |Flat(q.packets) + q.current| <= BYTES by { WindowSize(r.mem, b, Flat(q.packets) + q.current); }
    assert q.packets != [] ==> r.fifo.storage[r.fifo.rptr] == Contents(r.fifo)[0];
  }

  lemma {:induction false} WindowSize(mem: Memory, b: Pointer, flat: seq<Byte>)
    requires Window(mem, b, flat)
    ensures |flat| <= BYTES
  {
  }

  lemma {:induction false} WindowMore(mem: Memory, b: Pointer, flat: seq<Byte>, at: Pointer, x: Byte)
    requires Window(mem, b, flat) && |flat| < BYTES && at == (b + |flat|) % BYTES
    ensures Window(mem[at := x], b, flat + [x])
  {
    forall i | 0 <= i < |flat| + 1 ensures mem[at := x][(b + i) % BYTES] == (flat + [x])[i] {
      if i < |flat| {
        assert mem[(b + i) % BYTES] == flat[i];
        assert (b + i) % BYTES != at;
      }
    }
  }

  lemma {:induction false} WindowLess(mem: Memory, b: Pointer, front: seq<Byte>, rest: seq<Byte>, b': Pointer)
    requires Window(mem, b, front + rest) && b' == (b + |front|) % BYTES
    ensures Window(mem, b', rest)
  {
    forall i | 0 <= i < |rest| ensures mem[(b' + i) % BYTES] == rest[i] {
      var j := |front| + i;
      assert mem[(b + j) % BYTES] == (front + rest)[j];
      assert (b' + i) % BYTES == (b + j) % BYTES;
    }
  }

  lemma {:induction false} WindowPrefix(mem: Memory, b: Pointer, flat: seq<Byte>, more: seq<Byte>)
    requires Window(mem, b, flat + more)
    ensures Window(mem, b, flat)
  {
    forall i | 0 <= i < |flat| ensures mem[(b + i) % BYTES] == flat[i] {
      assert (flat + more)[i] == flat[i];
    }
  }

  lemma {:induction false} NoOffset(a: Pointer)
    ensures (a + 0) % BYTES == a
  {
  }

  /** A queue that gives this packet up, with the packets now held. */
  lemma {:induction false} Reset(r: Regs, q: Queue, b: Pointer, r': Regs)
    requires Holds(r, q, b)
    requires r'.fifo == r.fifo && r'.mem == r.mem && r'.ptrs == Pointers(r.ptrs.head, r.ptrs.head) && !r'.sticky
    ensures Holds(r', Queue(q.packets, [], false), b)
  {
    hide Chain, Window, WellFormed, Contents, Flat, BYTES, NoRoom, Full;
    var flat, head := Flat(q.packets), r.ptrs.head;
    WindowPrefix(r.mem, b, flat, q.current);
    NoOffset(head);
    Nothing(flat);
  }

  lemma {:induction false} Nothing(flat: seq<Byte>)
    ensures flat + [] == flat
  {
  }

  lemma {:induction false} WrapNext(a: nat, n: nat)
    ensures ((a + n) % BYTES + 1) % BYTES == (a + (n + 1)) % BYTES
  {
  }

  /** A byte kept. */
  lemma {:induction false} Keep(r: Regs, q: Queue, b: Pointer, x: Byte, r': Regs)
    requires Holds(r, q, b) && !NoRoom(q) && |q.current| < BYTES
    requires r'.fifo == r.fifo && r'.mem == r.mem[r.ptrs.wr := x] && r'.sticky == r.sticky
    requires r'.ptrs == Pointers((r.ptrs.wr + 1) % BYTES, r.ptrs.head)
    ensures Holds(r', Queue(q.packets, q.current + [x], q.lost), b)
  {
    FullFlags(r, q, b);
    var flat := Flat(q.packets) + q.current;
    WindowSize(r.mem, b, flat);
    assert |flat| == |Flat(q.packets)| + |q.current|;
    hide Chain, WellFormed, Flat, BufFull, TableFull, Full, Contents;
    WindowMore(r.mem, b, flat, r.ptrs.wr, x);
    hide Window;
    WrapNext(r.ptrs.head, |q.current|);
    assert flat + [x] == Flat(q.packets) + (q.current + [x]);
  }

  /** The packet so far becomes the newest of the table. */
  lemma {:induction false} Commit(r: Regs, q: Queue, b: Pointer, reason: Filter.Reason, r': Regs)
    requires Holds(r, q, b) && q.current != [] && |q.packets| < DEPTH
    requires r'.mem == r.mem && !r'.sticky && r'.ptrs == Pointers(r.ptrs.wr, r.ptrs.wr) && WellFormed(r'.fifo)
    requires Contents(r'.fifo) == Contents(r.fifo) + [Desc(|q.current| % 2048, reason, r.ptrs.head)]
    ensures Holds(r', Queue(q.packets + [Packet(reason, q.current)], [], false), b)
  {
    hide Chain, Window, WellFormed, Contents, Flat, BYTES;
    var p := Packet(reason, q.current);
    ChainSnoc(Contents(r.fifo), q.packets, b, r.ptrs.head, p);
    FlatSnoc(q.packets, p);
    Nothing(Flat(q.packets + [p]));
    NoOffset(r.ptrs.wr);
  }

  /** The oldest packet goes. */
  lemma {:induction false} Pop(r: Regs, q: Queue, b: Pointer, r': Regs) returns (b': Pointer)
    requires Holds(r, q, b) && q.packets != []
    requires r'.mem == r.mem && r'.sticky == r.sticky && r'.ptrs == r.ptrs && WellFormed(r'.fifo)
    requires Contents(r'.fifo) == Contents(r.fifo)[1..]
    ensures Holds(r', Queue(q.packets[1..], q.current, q.lost), b')
  {
    var p := q.packets[0].data;
    b' := (b + |p|) % BYTES;
    var rest := Flat(q.packets[1..]) + q.current;
    assert Flat(q.packets) + q.current == p + rest;
    WindowLess(r.mem, b, p, rest, b');
    hide Window, WellFormed, Contents;
  }

  /** The descriptor's length is the packet's. */
  lemma {:induction false} CurrentLength(r: Regs, q: Queue, b: Pointer, i: Inputs)
    requires Holds(r, q, b) && |q.current| < BYTES
    ensures CurrentDesc(r, i) == Desc((|q.current| + 1) % 2048, i.reason, r.ptrs.head)
  {
    hide Chain, Window, WellFormed, Contents;
  }

  /** One cycle of the packet input, without the pop. */
  lemma {:induction false} WriteStep(r: Regs, q: Queue, b: Pointer, i: Inputs, r': Regs)
    requires Holds(r, q, b) && (i.valid ==> |q.current| < BYTES)
    requires r'.ptrs == Next(r, i).ptrs && r'.mem == Next(r, i).mem && r'.sticky == Next(r, i).sticky
    requires WellFormed(r'.fifo)
    requires Contents(r'.fifo)
          == Contents(r.fifo) + if i.valid && i.last && !AbandonThis(r, i) then [CurrentDesc(r, i)] else []
    ensures Holds(r', QueueNext(q, i.(pop := false)), b)
  {
    FullFlags(r, q, b);
    CurrentLengthIf(r, q, b, i);
    var q' := QueueNext(q, i.(pop := false));
    var kept := Regs(Pointers((r.ptrs.wr + 1) % BYTES, r.ptrs.head), r.fifo, r.sticky, r.mem[r.ptrs.wr := i.data]);
    assert Contents(r.fifo) + [] == Contents(r.fifo);
    if i.valid && !Dropped(q, i) {
      Keep(r, q, b, i.data, kept);
      if i.last {
        hide Holds, BufFull, TableFull, NoRoom, Contents, WellFormed, CurrentDesc;
        Commit(kept, Queue(q.packets, q.current + [i.data], q.lost), b, i.reason, r');
      } else {
        SameTable(kept, Queue(q.packets, q.current + [i.data], q.lost), b, r');
      }
    } else if i.valid && i.last {
      var back := Regs(Pointers(r.ptrs.head, r.ptrs.head), r.fifo, false, r.mem);
      Reset(r, q, b, back);
      hide Holds, BufFull, TableFull, NoRoom, Contents, WellFormed, CurrentDesc;
      SameTable(back, q', b, r');
    } else {
      hide BufFull, TableFull, NoRoom, Contents, WellFormed, CurrentDesc, Chain, Window;
    }
  }

  lemma {:induction false} CurrentLengthIf(r: Regs, q: Queue, b: Pointer, i: Inputs)
    requires Holds(r, q, b) && (i.valid ==> |q.current| < BYTES)
    ensures i.valid ==> CurrentDesc(r, i) == Desc((|q.current| + 1) % 2048, i.reason, r.ptrs.head)
  {
    if i.valid {
      CurrentLength(r, q, b, i);
    }
  }

  /** The table counts only for its contents. */
  lemma {:induction false} SameTable(r: Regs, q: Queue, b: Pointer, r': Regs)
    requires Holds(r, q, b) && r'.ptrs == r.ptrs && r'.mem == r.mem && r'.sticky == r.sticky
    requires WellFormed(r'.fifo) && Contents(r'.fifo) == Contents(r.fifo)
    ensures Holds(r', q, b)
  {
    hide Chain, Window, WellFormed, Contents;
  }

  predicate QueueLost(q: Queue, i: Inputs) {
    i.valid && !q.lost && (NoRoom(q) || (Full(q) && i.last))
  }

  /** Ring refines queue: one cycle of the hardware, with or without a pop, is one cycle of the
      queue, for packets that fit the ring. */
  lemma {:induction false} RingRefines(r: Regs, q: Queue, b: Pointer, i: Inputs) returns (b': Pointer)
    requires Holds(r, q, b) && (i.valid ==> |q.current| < BYTES)
    ensures Holds(Next(r, i), QueueNext(q, i), b') && PacketLost(r, i) == QueueLost(q, i)
    ensures !i.pop ==> b' == b
  {
    FullFlags(r, q, b);
    var commit, desc := i.valid && i.last && !AbandonThis(r, i), CurrentDesc(r, i);
    var r' := Next(r, i);
    var f1 := FifoNext(r.fifo, commit, desc, false);
    NextContents(r.fifo, commit, desc, false);
    NextContents(r.fifo, commit, desc, i.pop);
    HoldsSize(r, q, b);
    var r1 := r'.(fifo := f1);
    hide FifoNext, Contents, WellFormed, Holds, BufFull, TableFull, NoRoom, Full, Flat, CurrentDesc, PointersNext,
         BYTES;
    WriteStep(r, q, b, i, r1);
    var q1 := QueueNext(q, i.(pop := false));
    if i.pop && q.packets != [] {
      assert Contents(r'.fifo) == Contents(f1)[1..];
      b' := Pop(r1, q1, b, r');
      assert QueueNext(q, i) == Queue(q1.packets[1..], q1.current, q1.lost);
    } else {
      b' := b;
      SameTable(r1, q1, b, r');
    }
  }

  /** With no other packet stored, a ring all of whose bytes are the arriving packet's is as one that
      holds nothing. */
  lemma {:induction false} FullRoundEmpty(r: Regs, q: Queue, b: Pointer)
    requires Holds(r, q, b) && q.packets == [] && |q.current| == BYTES
    ensures Holds(r, Queue([], [], q.lost), b)
  {
    WindowPrefix(r.mem, b, Flat(q.packets), q.current);
    Nothing(Flat(q.packets));
    NoOffset(b);
    hide Window, WellFormed, Contents;
  }

  /** So a packet longer than the ring is not stopped: its next byte replaces its first, and the ring
      goes on as if the packet began there; it no longer holds the packet. */
  lemma {:induction false} RingOverrun(r: Regs, q: Queue, b: Pointer, i: Inputs) returns (b1: Pointer)
    requires Holds(r, q, b) && q.packets == [] && |q.current| == BYTES
    requires i.valid && !i.abandon && !q.lost
    ensures BufWrite(r, i) && Next(r, i).mem[b] == i.data
    ensures Holds(Next(r, i), QueueNext(Queue([], [], false), i), b1) && !PacketLost(r, i)
    ensures forall b' :: !Holds(Next(r, i), QueueNext(q, i), b')
  {
    FullFlags(r, q, b);
    FullRoundEmpty(r, q, b);
    assert r.ptrs.wr == b;
    var q' := QueueNext(q, i);
    assert Flat(q'.packets) + q'.current == q.current + [i.data] by {
      FlatOne(Packet(i.reason, q.current + [i.data]));
    }
    forall b' ensures !Holds(Next(r, i), q', b') {
      if Holds(Next(r, i), q', b') {
        WindowSize(Next(r, i).mem, b', q.current + [i.data]);
      }
    }
    hide Holds, Next, QueueNext;
    b1 := RingRefines(r, Queue([], [], false), b, i);
  }

  lemma {:induction false} FlatOne(p: Packet)
    ensures Flat([p]) == p.data && Flat([]) == []
  {
    assert [p][1..] == [];
  }

  lemma {:induction false} HoldsSize(r: Regs, q: Queue, b: Pointer)
    requires Holds(r, q, b)
    ensures |Contents(r.fifo)| == |q.packets|
  {
    ChainEnd(Contents(r.fifo), q.packets, b, r.ptrs.head);
  }
}
