/** What a 64-bit word of the ring, once read, is still good for. */
module RxCache {
  import opened Bits
  import Filter = MacFilter
  import opened DescriptorFifo
  import opened RingBuffer
  import opened RxPackets

  function WordByte(w: Word64, k: nat): Byte
    requires k < 8
  {
    w[8 * k..8 * k + 8]
  }

  /** Eight bytes, the first in the lowest bits. */
  function Join8(a: Vec, b: Vec, c: Vec, d: Vec, e: Vec, f: Vec, g: Vec, h: Vec): Vec {
    a + b + c + d + e + f + g + h
  }

  /** The 64-bit word of eight bytes of the ring. */
  function WordAt(mem: Memory, w: nat): Word64
    requires w < 1024
  {
    Join8(mem[8 * w], mem[8 * w + 1], mem[8 * w + 2], mem[8 * w + 3],
          mem[8 * w + 4], mem[8 * w + 5], mem[8 * w + 6], mem[8 * w + 7])
  }

  lemma {:induction false} WordBytes(mem: Memory, w: nat, k: nat)
    requires w < 1024 && k < 8
    ensures WordByte(WordAt(mem, w), k) == mem[8 * w + k]
  {
  }

  // ---- Bytes already stored ----

  lemma {:induction false} NoPopKeeps(r: Regs, q: Queue, b: Pointer, cs: seq<Inputs>)
    requires Holds(r, q, b) && Fit(q, cs) && NoPop(cs)
    ensures Holds(After(r, cs), QueueAfter(q, cs), b) && q.packets <= QueueAfter(q, cs).packets
  {
    if cs != [] {
      var n := |cs| - 1;
      forall i | 0 <= i < n && cs[i].valid ensures |QueueAfter(q, cs[..n][..i]).current| < BYTES {
        assert cs[..n][..i] == cs[..i];
      }
      NoPopKeeps(r, q, b, cs[..n]);
      assert cs[n] in cs && cs[..n + 1] == cs;
      hide Holds, RingBuffer.Next;
      var b' := RingRefines(After(r, cs[..n]), QueueAfter(q, cs[..n]), b, cs[n]);
    }
  }

  lemma {:induction false} FlatPrefix(ps: seq<Packet>, more: seq<Packet>)
    requires ps <= more
    ensures Flat(ps) <= Flat(more)
  {
    if ps != [] {
      FlatPrefix(ps[1..], more[1..]);
      assert more[0] == ps[0];
    }
  }

  /** Whatever arrives, until a pop the bytes of stored packets stay. */
  lemma {:induction false} LiveByte(r: Regs, q: Queue, b: Pointer, cs: seq<Inputs>, i: nat)
    requires Holds(r, q, b) && Fit(q, cs) && NoPop(cs) && i < |Flat(q.packets)|
    ensures After(r, cs).mem[(b + i) % BYTES] == r.mem[(b + i) % BYTES] == Flat(q.packets)[i]
  {
    var q' := QueueAfter(q, cs);
    NoPopKeeps(r, q, b, cs);
    FlatPrefix(q.packets, q'.packets);
    var flat, flat' := Flat(q.packets) + q.current, Flat(q'.packets) + q'.current;
    assert flat[i] == flat'[i] == Flat(q.packets)[i];
    assert Window(r.mem, b, flat) && Window(After(r, cs).mem, b, flat');
    hide Holds, After, Flat, QueueAfter;
  }

  /** So a byte read through a word is right after every run without a pop if it belonged to a packet
      stored when the word was read. */
  lemma {:induction false} CachedByte(r: Regs, q: Queue, b: Pointer, cs: seq<Inputs>, i: nat)
    requires Holds(r, q, b) && Fit(q, cs) && NoPop(cs) && i < |Flat(q.packets)|
    ensures var a := (b + i) % BYTES;
            WordByte(WordAt(r.mem, a / 8), a % 8) == After(r, cs).mem[a]
  {
    LiveByte(r, q, b, cs, i);
    var a := (b + i) % BYTES;
    WordBytes(r.mem, a / 8, a % 8);
    hide *;
  }

  // ---- The packet after the newest ----

  /** The address `j` bytes on, around the end of the ring. */
  function At(a: Pointer, j: nat): Pointer { (a + j) % BYTES }

  /** The word of the byte before an address. */
  function WordBefore(a: Pointer): nat { (a + BYTES - 1) % BYTES / 8 }

  /** One more packet is stored by a run without a pop, of a length the table can tell. */
  ghost predicate StoresNext(q: Queue, cs: seq<Inputs>) {
    var q' := QueueAfter(q, cs);
    && NoPop(cs) && Fit(q, cs) && q'.packets != [] && q.packets == q'.packets[..|q'.packets| - 1]
    && |q'.packets[|q.packets|].data| < 2048
  }

  /** Read through word `w` as it was before the run, the new packet's bytes are right. */
  ghost predicate RightThrough(r: Regs, q: Queue, cs: seq<Inputs>, w: nat)
    requires |q.packets| < DEPTH && w < 1024 && StoresNext(q, cs)
  {
    var d, p := Read(After(r, cs).fifo, |q.packets|).0, QueueAfter(q, cs).packets[|q.packets|].data;
    forall j | 0 <= j < |p| && At(d.head, j) / 8 == w :: WordByte(WordAt(r.mem, w), At(d.head, j) % 8) == p[j]
  }

  /** The new packet starts where the write pointer was. */
  lemma {:induction false} NextHead(r: Regs, q: Queue, b: Pointer, cs: seq<Inputs>)
    requires Holds(r, q, b) && Between(q) && |q.packets| < DEPTH && StoresNext(q, cs)
    ensures Read(After(r, cs).fifo, |q.packets|).0.head == r.ptrs.wr
  {
    var q' := QueueAfter(q, cs);
    FullFlags(r, q, b);
    NoPopKeeps(r, q, b, cs);
    hide Holds, After, QueueAfter, Read, Fit, NoPop;
    Entry(After(r, cs), q', b, |q.packets|);
    assert q'.packets[..|q.packets|] == q.packets;
    hide BYTES;
  }

  lemma {:induction false} NotBackInWord(wr: Pointer, j: nat)
    requires wr % 8 == 0 && j < 2048
    ensures At(wr, j) / 8 != WordBefore(wr)
  {
    var u, v := wr / 8, j / 8;
    assert wr + j == 8 * (u + v) + j % 8;
    assert (wr + j) % BYTES / 8 == if u + v < 1024 then u + v else u + v - 1024;
    assert (wr + BYTES - 1) % BYTES / 8 == if u == 0 then 1023 else u - 1;
  }

  lemma {:induction false} SameWord(wr: Pointer)
    requires wr % 8 != 0
    ensures wr / 8 == WordBefore(wr)
  {
    assert (wr + BYTES - 1) % BYTES == wr - 1;
  }

  /** A packet of one byte. */
  lemma {:induction false} OneByte(q: Queue, y: Byte)
    requires Between(q) && |q.packets| < DEPTH && |Flat(q.packets)| < BYTES
    ensures var cs := [Inputs(y, true, true, Filter.MacMatches, false, false)];
            && QueueAfter(q, cs) == Queue(q.packets + [Packet(Filter.MacMatches, [y])], [], false)
            && StoresNext(q, cs)
  {
    var i := Inputs(y, true, true, Filter.MacMatches, false, false);
    assert [i][..0] == [] && [] + [y] == [y];
    assert QueueAfter(q, [i]) == QueueNext(q, i);
    hide Flat;
  }

  /** The word cached for the last byte of the newest packet is right for every packet that may be
      stored next, as long as nothing is popped, if and only if the newest packet ends a word. */
  lemma {:induction false} NextPacketIff(r: Regs, q: Queue, b: Pointer)
    requires Holds(r, q, b) && Between(q) && 0 < |q.packets| < DEPTH && |Flat(q.packets)| < BYTES
    ensures var d, w := Read(r.fifo, |q.packets| - 1).0, WordBefore(r.ptrs.wr);
            (forall cs | StoresNext(q, cs) :: RightThrough(r, q, cs, w)) <==> (d.head + d.len) % 8 == 0
  {
    var w := WordBefore(r.ptrs.wr);
    EndOfNewest(r, q, b);
    if r.ptrs.wr % 8 == 0 {
      forall cs | StoresNext(q, cs) ensures RightThrough(r, q, cs, w) {
        RightIfAligned(r, q, b, cs);
      }
    } else {
      var y := Not(r.mem[r.ptrs.wr]);
      assert y[0] != r.mem[r.ptrs.wr][0];
      WrongOtherwise(r, q, b, y);
      OneByte(q, y);
    }
    hide *;
  }

  lemma {:induction false} EndOfNewest(r: Regs, q: Queue, b: Pointer)
    requires Holds(r, q, b) && Between(q) && 0 < |q.packets| <= DEPTH
    ensures var d := Read(r.fifo, |q.packets| - 1).0;
            (d.head + d.len) % 8 == r.ptrs.wr % 8
  {
    hide BYTES, Holds, Read, Flat, BufFull, TableFull, NoRoom, Full;
    var k := |q.packets| - 1;
    var p := q.packets[k].data;
    FullFlags(r, q, b);
    Entry(r, q, b, k);
    FlatSnoc(q.packets[..k], q.packets[k]);
    assert q.packets[..k] + [q.packets[k]] == q.packets;
    var at := Offset(q.packets, k);
    assert b + |Flat(q.packets)| + |q.current| == b + (at + |p|);
    EightsDivide(b, at, |p|);
  }

  lemma {:induction false} EightsDivide(b: nat, at: nat, n: nat)
    ensures ((b + at) % BYTES + n % 2048) % 8 == (b + (at + n)) % BYTES % 8
  {
  }

  lemma {:induction false} RightIfAligned(r: Regs, q: Queue, b: Pointer, cs: seq<Inputs>)
    requires Holds(r, q, b) && Between(q) && |q.packets| < DEPTH && StoresNext(q, cs) && r.ptrs.wr % 8 == 0
    ensures RightThrough(r, q, cs, WordBefore(r.ptrs.wr))
  {
    NextHead(r, q, b, cs);
    hide Holds, Read, After, QueueAfter, WordAt, WordByte, Fit, NoPop, At, WordBefore;
    var w, p := WordBefore(r.ptrs.wr), QueueAfter(q, cs).packets[|q.packets|].data;
    forall j | 0 <= j < |p| ensures At(r.ptrs.wr, j) / 8 != w {
      NotBackInWord(r.ptrs.wr, j);
    }
  }

  lemma {:induction false} WrongOtherwise(r: Regs, q: Queue, b: Pointer, y: Byte)
    requires Holds(r, q, b) && Between(q) && |q.packets| < DEPTH && |Flat(q.packets)| < BYTES
    requires r.ptrs.wr % 8 != 0 && r.mem[r.ptrs.wr] != y
    ensures var cs := [Inputs(y, true, true, Filter.MacMatches, false, false)];
            StoresNext(q, cs) && !RightThrough(r, q, cs, WordBefore(r.ptrs.wr))
  {
    var cs := [Inputs(y, true, true, Filter.MacMatches, false, false)];
    OneByte(q, y);
    NextHead(r, q, b, cs);
    SameWord(r.ptrs.wr);
    WordBytes(r.mem, r.ptrs.wr / 8, r.ptrs.wr % 8);
    NoOffset(r.ptrs.wr);
    assert At(r.ptrs.wr, 0) == r.ptrs.wr;
    hide Holds, Read, After, QueueAfter, WordAt, WordByte, StoresNext, At, WordBefore;
    assert QueueAfter(q, cs).packets[|q.packets|].data[0] == y;
  }
}
