/** The driver's reads of the receive buffer while packets keep arriving. */
module RxDriver {
  import opened Bits
  import Filter = MacFilter
  import opened DescriptorFifo
  import opened RingBuffer
  import opened RxPackets
  import opened RxCache

  // ---- The surroundings ----

  /** The valid beats since the end of a packet, at clock cycle `t`. */
  function Beats(env: nat -> Inputs, t: nat): nat {
    if t == 0 then 0
    else if !env(t - 1).valid then Beats(env, t - 1)
    else if env(t - 1).last then 0
    else Beats(env, t - 1) + 1
  }

  /** Packets no longer than the ring. */
  ghost predicate ShortPackets(env: nat -> Inputs) { forall t :: Beats(env, t) < BYTES }

  /** What arrives in `n` cycles from cycle `t`, with no pop. */
  function Arrivals(env: nat -> Inputs, t: nat, n: nat): (cs: seq<Inputs>)
    ensures |cs| == n
  {
    seq(n, k requires 0 <= k < n => env(t + k).(pop := false))
  }

  /** More packets may have been stored, none popped. */
  ghost predicate Grown(q: Queue, q': Queue) { q.packets <= q'.packets }

  lemma {:induction false} GrowStep(q: Queue, i: Inputs)
    requires !i.pop
    ensures Grown(q, QueueNext(q, i))
  {
  }

  lemma {:induction false} BeatStep(q: Queue, env: nat -> Inputs, t: nat, i: Inputs)
    requires |q.current| <= Beats(env, t) && i.(pop := env(t).pop) == env(t)
    ensures |QueueNext(q, i).current| <= Beats(env, t + 1)
  {
    hide NoRoom, Full;
  }

  lemma {:induction false} TickHolds(r: Regs, q: Queue, b: Pointer, env: nat -> Inputs, t: nat, i: Inputs)
    returns (b': Pointer)
    requires Holds(r, q, b) && ShortPackets(env) && |q.current| <= Beats(env, t) && i.(pop := env(t).pop) == env(t)
    ensures Holds(RingBuffer.Next(r, i), QueueNext(q, i), b') && (!i.pop ==> b' == b)
    ensures |QueueNext(q, i).current| <= Beats(env, t + 1)
  {
    assert Beats(env, t) < BYTES;
    BeatStep(q, env, t, i);
    hide Holds, Beats, RingBuffer.Next, QueueNext;
    b' := RingRefines(r, q, b, i);
  }

  lemma {:induction false} OneMoreArrival(env: nat -> Inputs, t: nat, n: nat, r: Regs, q: Queue)
    ensures var i := env(t + n).(pop := false);
            && After(r, Arrivals(env, t, n + 1)) == RingBuffer.Next(After(r, Arrivals(env, t, n)), i)
            && QueueAfter(q, Arrivals(env, t, n + 1)) == QueueNext(QueueAfter(q, Arrivals(env, t, n)), i)
  {
    hide RingBuffer.Next, QueueNext;
    assert Arrivals(env, t, n + 1)[..n] == Arrivals(env, t, n);
  }

  /** The receive buffer on the bus: `delay` clock cycles pass before the host's next access takes
      place, and `env` is what arrives from the MAC, cycle by cycle; all are arbitrary. Words after the
      end of the ring read as `beyond`. */
  class RxDevice {
    const ring: AxisPktRingBuffer
    const env: nat -> Inputs
    const delay: nat -> nat
    const beyond: (nat, nat) -> Word64
    var now: nat
    var accesses: nat
    ghost var queue: Queue
    ghost var base: Pointer

    /** Reset and one cycle of silence, with any contents of the memory. */
    constructor (initial: Memory, env: nat -> Inputs, delay: nat -> nat, beyond: (nat, nat) -> Word64)
      requires ShortPackets(env)
      ensures Valid() && fresh(Repr()) && queue == Queue([], [], false) && now == accesses == 0
      ensures ring.State().mem == initial && ring.State().ptrs == Pointers(0, 0) && base == 0
      ensures this.env == env && this.delay == delay && this.beyond == beyond
    {
      ring := new AxisPktRingBuffer(initial);
      this.env, this.delay, this.beyond := env, delay, beyond;
      now, accesses := 0, 0;
      queue, base := Queue([], [], false), 0;
      new;
      var lost := ring.Clock(QUIET);
      EmptyHolds(ring.State());
    }

    function Repr(): set<object>
      reads ring
    {
      {this, ring, ring.bufWrPtrLogic, ring.descriptionTable, ring.descriptionTable.fifoStorage, ring.ram}
    }

    ghost predicate Valid()
      reads Repr()
    {
      && ring.Valid() && ShortPackets(env) && |queue.current| <= Beats(env, now)
      && Holds(ring.State(), queue, base)
    }

    /** What the wait for one access has done to ring `r`, queue `q` and the counters. */
    ghost predicate Waited(r: Regs, q: Queue, b: Pointer, t: nat, access: nat)
      reads Repr()
    {
      && ring.Valid() && now == t + delay(access) && accesses == access + 1 && base == b && Grown(q, queue)
      && ring.State() == After(r, Arrivals(env, t, delay(access)))
      && queue == QueueAfter(q, Arrivals(env, t, delay(access)))
    }

    function BeyondByte(t: nat, a: nat): Byte { WordByte(beyond(t, a / 8), a % 8) }

    /** Byte `i` of packet `p`, read at address `head + i`: the packet's up to the end of the ring. */
    ghost predicate ByteRead(x: Byte, p: seq<Byte>, head: Pointer, i: nat)
      requires i < |p|
    {
      if head + i < BYTES then x == p[i] else OnBus(x, head + i)
    }

    /** The bus shows this byte there at some time. */
    ghost predicate OnBus(x: Byte, a: nat) { exists t :: x == BeyondByte(t, a) }

    /** One clock cycle. */
    method Tick(pop: bool)
      requires Valid()
      modifies this`now, this`queue, this`base, Repr() - {this}
      ensures Valid() && now == old(now) + 1
      ensures ring.State() == RingBuffer.Next(old(ring.State()), env(old(now)).(pop := pop))
      ensures queue == QueueNext(old(queue), env(old(now)).(pop := pop))
      ensures !pop ==> base == old(base)
    {
      hide Holds, Beats, RingBuffer.Next, QueueNext, ShortPackets;
      var i := env(now).(pop := pop);
      base := TickHolds(ring.State(), queue, base, env, now, i);
      queue := QueueNext(queue, i);
      var lost := ring.Clock(i);
      now := now + 1;
    }

    /** The cycles before the next access. */
    method Elapse()
      requires Valid()
      modifies Repr()
      ensures Valid() && Waited(old(ring.State()), old(queue), old(base), old(now), old(accesses))
    {
      hide Holds, RingBuffer.Next, QueueNext;
      ghost var r0, q0, t0 := ring.State(), queue, now;
      var n := delay(accesses);
      accesses := accesses + 1;
      assert Arrivals(env, t0, 0) == [];
      for k := 0 to n
        invariant Valid() && Grown(q0, queue) && base == old(base)
        invariant now == t0 + k && accesses == old(accesses) + 1
        invariant ring.State() == After(r0, Arrivals(env, t0, k))
        invariant queue == QueueAfter(q0, Arrivals(env, t0, k))
      {
        GrowStep(queue, env(now).(pop := false));
        OneMoreArrival(env, t0, k, r0, q0);
        Tick(false);
      }
    }

    /** A bus read of one word. */
    method ReadWord(offset: nat) returns (w: Word64)
      requires Valid()
      modifies Repr()
      ensures Valid() && Waited(old(ring.State()), old(queue), old(base), old(now), old(accesses))
      ensures w == if offset < 1024 then WordAt(ring.ram[..], offset) else beyond(now, offset)
    {
      hide Holds;
      Elapse();
      if offset >= 1024 {
        return beyond(now, offset);
      }
      w := ReadRam(offset);
    }

    method ReadRam(offset: nat) returns (w: Word64)
      requires ring.Valid() && offset < 1024
      ensures w == WordAt(ring.ram[..], offset)
    {
      var m, a := ring.ram, 8 * offset;
      w := Join8(m[a], m[a + 1], m[a + 2], m[a + 3], m[a + 4], m[a + 5], m[a + 6], m[a + 7]);
    }

    /** The not-empty status bit. */
    method ReadPending() returns (pending: bool)
      requires Valid()
      modifies Repr()
      ensures Valid() && Waited(old(ring.State()), old(queue), old(base), old(now), old(accesses))
      ensures pending == (queue.packets != [])
    {
      Elapse();
      var full, empty := ring.descriptionTable.Status();
      pending := !empty;
      HoldsSize(ring.State(), queue, base);
    }

    /** Entry `index` of the descriptor table. */
    method ReadTable(index: Index) returns (d: Desc)
      requires Valid()
      modifies Repr()
      ensures Valid() && Waited(old(ring.State()), old(queue), old(base), old(now), old(accesses))
      ensures d == Read(ring.State().fifo, index).0
    {
      hide Holds;
      Elapse();
      var err;
      d, err := ring.descriptionTable.ReadAt(index);
    }

    /** A write to the pop register: `q` is what was held when it took place. */
    method Pop() returns (ghost q: Queue)
      requires Valid()
      modifies Repr()
      ensures Valid() && Grown(old(queue), q)
      ensures if q.packets == [] then |queue.packets| <= 1 else q.packets[1..] <= queue.packets
    {
      hide Holds;
      Elapse();
      q := queue;
      Tick(true);
    }
  }

  // ---- The cached word ----

  /** Of these bytes, held from `b` on, those in word `last` are as the cached word has them. */
  ghost predicate Coherent(last: nat, word: Word64, b: Pointer, bytes: seq<Byte>) {
    forall i: nat | i < |bytes| && At(b, i) / 8 == last :: WordByte(word, At(b, i) % 8) == bytes[i]
  }

  /** A word read from the ring is right for every packet stored when it is read. */
  lemma {:induction false} CacheRead(r: Regs, last: nat, word: Word64, q: Queue, b: Pointer)
    requires Holds(r, q, b) && (last < 1024 ==> word == WordAt(r.mem, last))
    ensures Coherent(last, word, b, Flat(q.packets))
  {
    assert Window(r.mem, b, Flat(q.packets) + q.current);
    hide Holds, WordAt, WordByte, Flat;
    forall i: nat | i < |Flat(q.packets)| && At(b, i) / 8 == last
      ensures WordByte(word, At(b, i) % 8) == Flat(q.packets)[i]
    {
      WordBytes(r.mem, last, At(b, i) % 8);
      assert r.mem[(b + i) % BYTES] == (Flat(q.packets) + q.current)[i];
    }
  }

  lemma {:induction false} FlatGrown(q: Queue, q': Queue, n: nat)
    requires Grown(q, q') && n <= |Flat(q.packets)|
    ensures n <= |Flat(q'.packets)| && Flat(q.packets) <= Flat(q'.packets)
    ensures Flat(q'.packets)[..n] == Flat(q.packets)[..n]
  {
    FlatPrefix(q.packets, q'.packets);
  }

  const NO_WORD := 0xffff

  /** The driver. Ghost: `seen` is how many bytes of packets were stored when the word was cached,
      `fetched` the cycle. */
  class RxDriver {
    const device: RxDevice
    var lastWordOffsetRead: nat
    var word: Word64
    ghost var seen: nat
    ghost var fetched: nat

    constructor (device: RxDevice)
      requires device.Valid()
      ensures this.device == device && lastWordOffsetRead == NO_WORD && Valid()
    {
      this.device := device;
      lastWordOffsetRead, word := 0xffff, Zeros(64);
      seen, fetched := 0, 0;
    }

    /** The cached word is right for the packets stored when it was read. */
    ghost predicate CacheOk()
      reads this, device
    {
      lastWordOffsetRead != NO_WORD ==>
        && seen <= |Flat(device.queue.packets)|
        && Coherent(lastWordOffsetRead, word, device.base, Flat(device.queue.packets)[..seen])
        && (lastWordOffsetRead >= 1024 ==> word == device.beyond(fetched, lastWordOffsetRead))
    }

    ghost predicate Valid()
      reads this, device, device.Repr()
    {
      this !in device.Repr() && device.Valid() && CacheOk()
    }

    /** The cached word, if any, was read while the oldest packet was stored. */
    ghost predicate OldestSeen()
      reads this, device
    {
      lastWordOffsetRead != NO_WORD ==>
        device.queue.packets != [] && seen >= |device.queue.packets[0].data|
    }

    /** The cache is untouched and as good as before. */
    twostate lemma CacheKept()
      requires old(Valid()) && device.Valid() && this !in device.Repr()
      requires lastWordOffsetRead == old(lastWordOffsetRead) && word == old(word) && seen == old(seen)
      requires fetched == old(fetched) && device.base == old(device.base) && Grown(old(device.queue), device.queue)
      ensures Valid() && (old(OldestSeen()) ==> OldestSeen())
    {
      if lastWordOffsetRead != NO_WORD {
        FlatGrown(old(device.queue), device.queue, seen);
      }
    }

    method PacketPending() returns (pending: bool)
      requires Valid()
      modifies this, device.Repr()
      ensures Valid() && Grown(old(device.queue), device.queue) && device.base == old(device.base)
      ensures lastWordOffsetRead == old(lastWordOffsetRead) && word == old(word) && seen == old(seen)
      ensures old(OldestSeen()) ==> OldestSeen()
      ensures pending == (device.queue.packets != [])
      ensures device.Waited(old(device.ring.State()), old(device.queue), old(device.base), old(device.now),
                            old(device.accesses))
    {
      hide Holds;
      pending := device.ReadPending();
      CacheKept();
    }

    /** The descriptor of a stored packet; zeros for an index the table cannot have. */
    method MetadataGet(index: nat) returns (d: Desc)
      requires Valid()
      modifies this, device.Repr()
      ensures Valid() && device.base == old(device.base) && Grown(old(device.queue), device.queue)
      ensures lastWordOffsetRead == old(lastWordOffsetRead) && word == old(word) && seen == old(seen)
      ensures old(OldestSeen()) ==> OldestSeen()
      ensures if index >= DEPTH then
                d == Desc(0, Filter.MacMatches, 0) && device.ring.State() == old(device.ring.State())
              else
                && d == Read(device.ring.State().fifo, index).0
                && device.Waited(old(device.ring.State()), old(device.queue), old(device.base), old(device.now),
                                 old(device.accesses))
    {
      hide Holds, Read;
      if index >= DEPTH {
        return Desc(0, Filter.MacMatches, 0);
      }
      d := device.ReadTable(index);
      CacheKept();
    }

    /** One byte, through the cached word: right for every packet stored when the word was cached, and
        that is now unless the word was cached before. */
    method ReadByte(byteOffset: nat) returns (b: Byte)
      requires Valid() && byteOffset < 0x1_0000
      modifies this, device.Repr()
      ensures Valid() && Grown(old(device.queue), device.queue) && device.base == old(device.base)
      ensures lastWordOffsetRead == byteOffset / 8 && b == WordByte(word, byteOffset % 8)
      ensures if old(lastWordOffsetRead) == byteOffset / 8 then
                && word == old(word) && seen == old(seen) && device.queue == old(device.queue)
              else
                && seen == |Flat(device.queue.packets)|
                && (byteOffset < BYTES ==> word == WordAt(device.ring.ram[..], byteOffset / 8))
                && device.Waited(old(device.ring.State()), old(device.queue), old(device.base), old(device.now),
                                 old(device.accesses))
      ensures forall i: nat | i < seen && At(device.base, i) == byteOffset :: b == Flat(device.queue.packets)[i]
      ensures byteOffset >= BYTES ==> b == WordByte(device.beyond(fetched, byteOffset / 8), byteOffset % 8)
      ensures old(OldestSeen()) && old(device.queue.packets) != [] ==> OldestSeen()
    {
      hide Holds, WordAt, WordByte, Flat;
      if lastWordOffsetRead != byteOffset / 8 {
        word := device.ReadWord(byteOffset / 8);
        lastWordOffsetRead := byteOffset / 8;
        seen, fetched := |Flat(device.queue.packets)|, device.now;
        CacheRead(device.ring.State(), lastWordOffsetRead, word, device.queue, device.base);
        assert Flat(device.queue.packets)[..seen] == Flat(device.queue.packets);
        OldestFlat(device.queue.packets);
      }
      b := WordByte(word, byteOffset % 8);
      forall i: nat | i < seen && At(device.base, i) == byteOffset ensures b == Flat(device.queue.packets)[i] {
        assert Flat(device.queue.packets)[..seen][i] == Flat(device.queue.packets)[i];
      }
    }

    /** Copies `len` bytes from a pointer: right for every packet stored at the call, unless the pointer
        is in the word then cached; and then for those stored when it was, while any other byte of that
        word is as it was. */
    method ReadPacketDataRaw(packetStartPtr: nat, len: nat, data: array<Byte>)
      requires Valid() && data.Length >= len
      requires packetStartPtr + len <= 0x1_0000 && data as object !in device.Repr() + {this}
      modifies this, device.Repr(), data
      ensures Valid() && Grown(old(device.queue), device.queue) && device.base == old(device.base)
      ensures forall i: nat, j: nat | i < |Flat(old(device.queue).packets)| && j < len
                  && At(device.base, i) == packetStartPtr + j
                  && (packetStartPtr / 8 != old(lastWordOffsetRead)
                      || (packetStartPtr + j) / 8 != old(lastWordOffsetRead) || i < old(seen)) ::
                data[j] == Flat(old(device.queue).packets)[i]
      ensures packetStartPtr / 8 == old(lastWordOffsetRead) ==>
                forall j: nat | j < len && (packetStartPtr + j) / 8 == old(lastWordOffsetRead) ::
                  data[j] == WordByte(old(word), (packetStartPtr + j) % 8)
      ensures len > 0 && (packetStartPtr + len - 1) / 8 == old(lastWordOffsetRead) == packetStartPtr / 8 ==>
                device.queue == old(device.queue)
    {
      hide Holds, CacheOk, WordByte, WordAt, Flat, At, RxDevice.Waited;
      ghost var flat := Flat(device.queue.packets);
      var i := 0;
      while i < len
        invariant 0 <= i <= len && Valid() && Grown(old(device.queue), device.queue) && device.base == old(device.base)
        invariant i == 0 ==> lastWordOffsetRead == old(lastWordOffsetRead)
        invariant i > 0 ==> lastWordOffsetRead == (packetStartPtr + i - 1) / 8
        invariant if lastWordOffsetRead == old(lastWordOffsetRead)
                     && (i == 0 || packetStartPtr / 8 == lastWordOffsetRead)
                  then word == old(word) && seen == old(seen) && device.queue == old(device.queue)
                  else seen >= |flat|
        invariant forall k: nat, j: nat | k < |flat| && j < i && At(device.base, k) == packetStartPtr + j
                      && (packetStartPtr / 8 != old(lastWordOffsetRead)
                          || (packetStartPtr + j) / 8 != old(lastWordOffsetRead) || k < old(seen)) ::
                    data[j] == flat[k]
        invariant packetStartPtr / 8 == old(lastWordOffsetRead) ==>
                    forall j: nat | j < i && (packetStartPtr + j) / 8 == old(lastWordOffsetRead) ::
                      data[j] == WordByte(old(word), (packetStartPtr + j) % 8)
      {
        FlatGrown(old(device.queue), device.queue, |flat|);
        var b := ReadByte(packetStartPtr + i);
        FlatGrown(old(device.queue), device.queue, |flat|);
        data[i] := b;
        i := i + 1;
      }
    }

    /** Frees the oldest packet; the cached word may be overwritten from now on. */
    method PopPacket() returns (ghost q: Queue)
      requires Valid()
      modifies this, device.Repr()
      ensures Valid() && lastWordOffsetRead == NO_WORD && OldestSeen()
      ensures Grown(old(device.queue), q)
      ensures if q.packets == [] then |device.queue.packets| <= 1 else q.packets[1..] <= device.queue.packets
    {
      lastWordOffsetRead := 0xffff;
      q := device.Pop();
    }

    /** The copy loop. */
    method CopyOut(head: Pointer, len: nat, data: array<Byte>, ghost stored: Queue)
      requires Valid() && len < 2048 <= data.Length + 1 && data as object !in device.Repr() + {this}
      requires stored.packets != [] && Grown(stored, device.queue) && len <= |stored.packets[0].data|
      requires head == device.base
      modifies this, device.Repr(), data
      ensures Valid() && Grown(stored, device.queue) && device.base == old(device.base)
      ensures forall k: nat | k < len ::
                if Stale(head, k, old(lastWordOffsetRead), old(seen)) then
                  data[k] == WordByte(old(word), (head + k) % 8)
                else
                  device.ByteRead(data[k], stored.packets[0].data, head, k)
    {
      hide Holds, Coherent, WordByte, RxDevice.Waited, Flat, WordAt;
      ghost var p, last, word0, seen0 := stored.packets[0].data, lastWordOffsetRead, word, seen;
      var i := 0;
      while i < len
        invariant 0 <= i <= len && Valid() && Grown(stored, device.queue) && device.base == old(device.base)
        invariant if i == 0 then lastWordOffsetRead == last else lastWordOffsetRead == (head + i - 1) / 8
        invariant if lastWordOffsetRead == last == head / 8 then word == word0 && seen == seen0
                  else i == 0 || seen >= |p|
        invariant forall k: nat | k < i ::
                    if Stale(head, k, last, seen0) then data[k] == WordByte(word0, (head + k) % 8)
                    else device.ByteRead(data[k], p, head, k)
      {
        var b := ReadByte(head + i);
        OldestByteRead(stored, device.queue, i);
        if head + i < BYTES {
          assert At(device.base, i) == head + i;
        } else {
          assert b == device.BeyondByte(fetched, head + i);
        }
        data[i] := b;
        i := i + 1;
      }
    }

    /** Copies out and frees the oldest packet, however packets arrive between the reads. `stored` is
        what was held when the status was read. If nothing was, a length of zero and nothing freed;
        otherwise the oldest's descriptor, as many of its bytes as the descriptor tells, and the others
        kept. Bytes from addresses beyond the end of the ring are what the bus has there; bytes of a
        word cached before the packet was stored are as they were then. */
    method ReadAndPopOldestPacket(data: array<Byte>) returns (metadata: Desc, ghost stored: Queue)
      requires Valid() && data.Length >= 2047 && data as object !in device.Repr() + {this}
      modifies this, device.Repr(), data
      ensures Valid() && Grown(old(device.queue), stored) && (old(OldestSeen()) ==> OldestSeen())
      ensures stored.packets == [] ==>
                metadata.len == 0 && metadata.head == 0 && data[..] == old(data[..]) && device.queue == stored
      ensures stored.packets != [] ==>
                var p, head := stored.packets[0], old(device.base);
                && OldestSeen() && metadata == Desc(|p.data| % 2048, p.reason, head)
                && metadata.len < 2048 && metadata.len <= |p.data|
                && (forall k: nat | k < metadata.len ::
                      if Stale(head, k, old(lastWordOffsetRead), old(seen)) then
                        data[k] == WordByte(old(word), (head + k) % 8)
                      else
                        device.ByteRead(data[k], p.data, head, k))
                && ((old(OldestSeen()) || old(lastWordOffsetRead) != head / 8) && head + metadata.len <= BYTES ==>
                      data[..metadata.len] == p.data[..metadata.len])
                && stored.packets[1..] <= device.queue.packets
    {
      hide Holds, Coherent, Read, WordByte, RxDevice.Waited, RxDevice.ByteRead, Flat;
      var pending := PacketPending();
      stored := device.queue;
      if !pending {
        return Desc(0, Filter.MacMatches, 0), stored;
      }
      metadata := MetadataGet(0);
      Entry(device.ring.State(), device.queue, device.base, 0);
      assert device.queue.packets[0] == stored.packets[0];
      HeadOfOldest(device.queue.packets, device.base);
      LengthBounds(|stored.packets[0].data|);
      CopyOut(metadata.head, metadata.len, data, stored);
      NoneStale(old(device.queue), stored, metadata.head, old(lastWordOffsetRead), old(seen));
      WholeIfNoWrap(device, data[..metadata.len], stored.packets[0].data, metadata.head, old(lastWordOffsetRead),
                    old(seen));
      ghost var q1 := device.queue;
      ghost var q2 := PopPacket();
      assert stored.packets[1..] <= q1.packets[1..] <= q2.packets[1..];
    }
  }

  /** Byte `k` from `head` is in the word `last`, cached before the oldest packet was stored. */
  predicate Stale(head: Pointer, k: nat, last: nat, seen: nat) {
    head / 8 == (head + k) / 8 == last && seen <= k
  }

  lemma {:induction false} NoneStale(q: Queue, stored: Queue, head: Pointer, last: nat, seen: nat)
    requires Grown(q, stored) && stored.packets != []
    ensures last != head / 8 || (q.packets != [] && seen >= |q.packets[0].data|) ==>
              forall k: nat | k < |stored.packets[0].data| :: !Stale(head, k, last, seen)
  {
  }

  lemma {:induction false} OldestFlat(ps: seq<Packet>)
    ensures ps != [] ==> ps[0].data <= Flat(ps)
  {
  }

  lemma {:induction false} LengthBounds(n: nat)
    ensures n % 2048 < 2048 && n % 2048 <= n
  {
  }

  lemma {:induction false} HeadOfOldest(ps: seq<Packet>, b: Pointer)
    requires ps != []
    ensures Offset(ps, 0) == 0 && (b + Offset(ps, 0)) % BYTES == b
  {
    assert ps[..0] == [];
  }

  lemma {:induction false} OldestByteRead(q: Queue, q': Queue, i: nat)
    requires Grown(q, q') && q.packets != [] && i < |q.packets[0].data|
    ensures i < |Flat(q'.packets)| && Flat(q'.packets)[i] == q.packets[0].data[i]
    ensures |q'.packets[0].data| == |q.packets[0].data| <= |Flat(q'.packets)|
  {
    OldestFlat(q'.packets);
  }

  lemma {:induction false} WholeIfNoWrap(device: RxDevice, got: seq<Byte>, p: seq<Byte>, head: Pointer, last: nat,
                                         seen: nat)
    requires |got| <= |p|
    requires forall i: nat | i < |got| && !Stale(head, i, last, seen) :: device.ByteRead(got[i], p, head, i)
    ensures head + |got| <= BYTES && (forall i: nat | i < |got| :: !Stale(head, i, last, seen)) ==> got == p[..|got|]
  {
  }

  // ---- A packet of any age ----

  /** Byte `j` of stored packet `k`, by its place among all the bytes stored and by its address. */
  lemma {:induction false} PacketByte(r: Regs, q: Queue, b: Pointer, k: Index, j: nat)
    requires Holds(r, q, b) && k < |q.packets| && j < |q.packets[k].data|
    ensures var i := Offset(q.packets, k) + j;
            && i < |Flat(q.packets)| && Flat(q.packets)[i] == q.packets[k].data[j]
            && At(b, i) == At(Read(r.fifo, k).0.head, j)
  {
    Entry(r, q, b, k);
    FlatAt(q.packets, k, j);
    Wrapped(b, Offset(q.packets, k), j);
    hide Holds, Flat, Read, Offset;
  }

  /** Reads a stored packet of any age: right unless its first byte is in the word then cached and that
      word was read before the packet was stored. */
  method ReadStoredPacket(driver: RxDriver, index: Index, data: array<Byte>) returns (d: Desc)
    requires driver.Valid() && index < |driver.device.queue.packets| && data.Length >= 2047
    requires data as object !in driver.device.Repr() + {driver}
    modifies driver, driver.device.Repr(), data
    ensures driver.Valid() && Grown(old(driver.device.queue), driver.device.queue)
    ensures var p := old(driver.device.queue).packets[index];
            && d.reason == p.reason && d.len == |p.data| % 2048 && d.len <= |p.data|
            && (d.head + d.len <= BYTES
                && (d.head / 8 != old(driver.lastWordOffsetRead)
                    || old(driver.seen) >= Offset(old(driver.device.queue).packets, index) + d.len) ==>
                  data[..d.len] == p.data[..d.len])
  {
    hide Holds, RxDriver.CacheOk, Read, RxDevice.Waited, Flat, WordByte, WordAt, Coherent, Offset;
    ghost var q0 := driver.device.queue;
    d := driver.MetadataGet(index);
    ghost var q1, r1, b := driver.device.queue, driver.device.ring.State(), driver.device.base;
    assert q1.packets[index] == q0.packets[index];
    SameOffset(q0.packets, q1.packets, index);
    Entry(r1, q1, b, index);
    LengthBounds(|q1.packets[index].data|);
    driver.ReadPacketDataRaw(d.head, d.len, data);
    if d.head + d.len <= BYTES {
      forall j: nat | j < d.len
        ensures (d.head / 8 != old(driver.lastWordOffsetRead) || Offset(q0.packets, index) + j < old(driver.seen)) ==>
                  data[j] == q0.packets[index].data[j]
      {
        PacketByte(r1, q1, b, index, j);
        assert At(d.head, j) == d.head + j;
      }
    }
  }

  lemma {:induction false} SameOffset(ps: seq<Packet>, more: seq<Packet>, k: nat)
    requires ps <= more && k <= |ps|
    ensures Offset(ps, k) == Offset(more, k)
  {
    assert ps[..k] == more[..k];
  }

  // ---- A stale read ----

  function Arrives(x: Byte): Inputs { Inputs(x, true, true, Filter.MacMatches, false, false) }

  lemma {:induction false} TwoPackets(env: nat -> Inputs, x: Byte, y: Byte, t: nat)
    requires env(0) == Arrives(x) && env(1) == Arrives(y) && forall k | k >= 2 :: env(k) == QUIET
    ensures Beats(env, t) == 0
  {
    if t > 0 {
      TwoPackets(env, x, y, t - 1);
    }
  }

  lemma {:induction false} OneArrival(r: Regs, q: Queue, env: nat -> Inputs, t: nat)
    requires env(t).pop == false
    ensures After(r, Arrivals(env, t, 1)) == RingBuffer.Next(r, env(t))
    ensures QueueAfter(q, Arrivals(env, t, 1)) == QueueNext(q, env(t))
  {
    OneMoreArrival(env, t, 0, r, q);
    assert Arrivals(env, t, 0) == [];
    hide RingBuffer.Next, QueueNext;
  }

  lemma {:induction false} StoresOne(r: Regs, q: Queue, b: Pointer, x: Byte)
    requires Holds(r, q, b) && Between(q) && |q.packets| < DEPTH && |Flat(q.packets)| < BYTES
    ensures RingBuffer.Next(r, Arrives(x)).mem == r.mem[r.ptrs.wr := x]
    ensures QueueNext(q, Arrives(x)) == Queue(q.packets + [Packet(Filter.MacMatches, [x])], [], false)
  {
    FullFlags(r, q, b);
    assert [] + [x] == [x];
    hide FifoNext, PointersNext, Holds;
  }

  lemma {:induction false} DeviceHolds(device: RxDevice)
    requires device.Valid()
    ensures Holds(device.ring.State(), device.queue, device.base)
  {
  }

  /** Cycle `t` stores a packet of one byte. */
  lemma {:induction false} CycleStores(r: Regs, q: Queue, env: nat -> Inputs, t: nat, x: Byte)
    requires Holds(r, q, 0) && Between(q) && |q.packets| < DEPTH && |Flat(q.packets)| < BYTES && env(t) == Arrives(x)
    ensures var r', q' := After(r, Arrivals(env, t, 1)), QueueAfter(q, Arrivals(env, t, 1));
            && q' == Queue(q.packets + [Packet(Filter.MacMatches, [x])], [], false)
            && Holds(r', q', 0) && r'.mem == r.mem[r.ptrs.wr := x]
  {
    OneArrival(r, q, env, t);
    StoresOne(r, q, 0, x);
    assert !env(t).pop && |q.current| < BYTES;
    hide Holds, RingBuffer.Next, QueueNext, After, QueueAfter, Arrivals, Flat;
    var b := RingRefines(r, q, 0, env(t));
  }

  lemma {:induction false} StaleRun(r0: Regs, env: nat -> Inputs, x: Byte, y: Byte)
    requires Holds(r0, Queue([], [], false), 0) && r0.ptrs == Pointers(0, 0)
    requires env(0) == Arrives(x) && env(1) == Arrives(y)
    ensures var px, py := Packet(Filter.MacMatches, [x]), Packet(Filter.MacMatches, [y]);
            var r1, q1 := After(r0, Arrivals(env, 0, 1)), QueueAfter(Queue([], [], false), Arrivals(env, 0, 1));
            var r2, q2 := After(r1, Arrivals(env, 1, 1)), QueueAfter(q1, Arrivals(env, 1, 1));
            && q1 == Queue([px], [], false) && q2 == Queue([px, py], [], false)
            && WordByte(WordAt(r1.mem, 0), 1) == r0.mem[1]
            && Read(r2.fifo, 1).0 == Desc(1, Filter.MacMatches, 1)
  {
    FlatOne(Packet(Filter.MacMatches, [x]));
    hide *;
    var q0 := Queue([], [], false);
    assert Between(q0) && |q0.packets| < DEPTH && |Flat(q0.packets)| < BYTES by { EmptyQueue(); }
    CycleStores(r0, q0, env, 0, x);
    var r1, q1 := After(r0, Arrivals(env, 0, 1)), QueueAfter(q0, Arrivals(env, 0, 1));
    WordBytes(r1.mem, 0, 1);
    var px, py := Packet(Filter.MacMatches, [x]), Packet(Filter.MacMatches, [y]);
    assert q0.packets + [px] == [px] && [px] + [py] == [px, py];
    assert Between(q1) && |q1.packets| < DEPTH && |Flat(q1.packets)| < BYTES by { OneQueue(x); }
    CycleStores(r1, q1, env, 1, y);
    TwoEntry(After(r1, Arrivals(env, 1, 1)), x, y);
  }

  lemma {:induction false} EmptyQueue()
    ensures var q := Queue([], [], false);
            Between(q) && |q.packets| < DEPTH && |Flat(q.packets)| < BYTES
  {
  }

  lemma {:induction false} OneQueue(x: Byte)
    ensures var q := Queue([Packet(Filter.MacMatches, [x])], [], false);
            Between(q) && |q.packets| < DEPTH && |Flat(q.packets)| < BYTES
  {
    FlatOne(Packet(Filter.MacMatches, [x]));
  }

  lemma {:induction false} TwoEntry(r: Regs, x: Byte, y: Byte)
    requires Holds(r, Queue([Packet(Filter.MacMatches, [x]), Packet(Filter.MacMatches, [y])], [], false), 0)
    ensures Read(r.fifo, 1).0 == Desc(1, Filter.MacMatches, 1)
  {
    var px, py := Packet(Filter.MacMatches, [x]), Packet(Filter.MacMatches, [y]);
    var q := Queue([px, py], [], false);
    assert q.packets[..1] == [px];
    FlatOne(px);
    assert Offset(q.packets, 1) == 1;
    SmallNumbers();
    hide *;
    Entry(r, q, 0, 1);
  }

  lemma {:induction false} SmallNumbers()
    ensures (0 + 1) % BYTES == 1 && 1 % 2048 == 1
  {
  }

  lemma {:induction false} WaitedOne(device: RxDevice, r: Regs, q: Queue, b: Pointer, t: nat, access: nat)
    requires device.Waited(r, q, b, t, access) && device.delay(access) == 1
    ensures device.ring.State() == After(r, Arrivals(device.env, t, 1))
    ensures device.queue == QueueAfter(q, Arrivals(device.env, t, 1))
    ensures device.now == t + 1 && device.accesses == access + 1 && device.base == b
  {
  }

  /** From an empty device, through the driver's own calls: a packet arrives and a byte of it is read;
      a second arrives, its descriptor is read, and then its data, which comes out as what the memory
      held before. */
  method StaleRead(initial: Memory, x: Byte, y: Byte) returns (driver: RxDriver, d: Desc, got: Byte)
    requires y != initial[1]
    ensures driver.Valid()
    ensures driver.device.queue.packets == [Packet(Filter.MacMatches, [x]), Packet(Filter.MacMatches, [y])]
    ensures d == Desc(1, Filter.MacMatches, 1) && got == initial[1] != y
  {
    hide Holds, Coherent, Read, RingBuffer.Next, QueueNext, WordByte, WordAt, After, QueueAfter, Arrivals, Arrives;
    hide RxDevice.Waited, Flat, RxDriver.CacheOk, RxDriver.OldestSeen, RxDevice.Valid;
    var env: nat -> Inputs := t => if t == 0 then Arrives(x) else if t == 1 then Arrives(y) else QUIET;
    var delay: nat -> nat := n => if n < 2 then 1 else 0;
    forall t ensures Beats(env, t) == 0 {
      TwoPackets(env, x, y, t);
    }
    var device := new RxDevice(initial, env, delay, (_, _) => Zeros(64));
    driver := new RxDriver(device);
    var data := new Byte[1];
    ghost var r0, q0 := device.ring.State(), device.queue;
    assert Holds(r0, q0, 0) by { DeviceHolds(device); }
    StaleRun(r0, env, x, y);
    var first := driver.ReadByte(0);
    WaitedOne(device, r0, q0, 0, 0, 0);
    ghost var r1, q1 := device.ring.State(), device.queue;
    d := driver.MetadataGet(1);
    WaitedOne(device, r1, q1, 0, 1, 1);
    driver.ReadPacketDataRaw(d.head, d.len, data);
    got := data[0];
  }

  lemma {:induction false} WaitedNone(device: RxDevice, r: Regs, q: Queue, b: Pointer, t: nat, access: nat)
    requires device.Waited(r, q, b, t, access) && device.delay(access) == 0
    ensures device.ring.State() == r && device.queue == q && device.now == t
    ensures device.accesses == access + 1 && device.base == b
  {
    assert Arrivals(device.env, t, 0) == [];
  }

  lemma {:induction false} FlatNone()
    ensures |Flat([])| == 0
  {
  }

  /** A byte is read while nothing is stored, and then a packet arrives in its word. */
  method CachedTooSoon(initial: Memory, x: Byte) returns (driver: RxDriver)
    ensures driver.Valid() && fresh(driver) && fresh(driver.device.Repr()) && driver.device.base == 0
    ensures driver.device.queue.packets == [Packet(Filter.MacMatches, [x])]
    ensures driver.lastWordOffsetRead == driver.seen == 0 && WordByte(driver.word, 0) == initial[0]
  {
    hide Holds, Coherent, Read, RingBuffer.Next, QueueNext, WordByte, WordAt, After, QueueAfter, Arrivals, Arrives;
    hide RxDevice.Waited, Flat, RxDriver.CacheOk, RxDriver.OldestSeen, RxDevice.Valid;
    var env: nat -> Inputs := t => if t < 2 then Arrives(x) else QUIET;
    var delay: nat -> nat := n => if n == 1 then 1 else 0;
    forall t ensures Beats(env, t) == 0 {
      TwoPackets(env, x, x, t);
    }
    var device := new RxDevice(initial, env, delay, (_, _) => Zeros(64));
    driver := new RxDriver(device);
    ghost var r0, q0 := device.ring.State(), device.queue;
    assert Holds(r0, q0, 0) by { DeviceHolds(device); }
    StaleRun(r0, env, x, x);
    FlatNone();
    var nothing := driver.ReadByte(0);
    WaitedNone(device, r0, q0, 0, 0, 0);
    WordBytes(initial, 0, 0);
    var pending := driver.PacketPending();
    WaitedOne(device, r0, q0, 0, 0, 1);
  }

  /** The same of the call that reads and frees the oldest packet. */
  method StaleOldest(initial: Memory, x: Byte) returns (metadata: Desc, got: Byte, ghost stored: Queue)
    requires x != initial[0]
    ensures stored.packets != [] && stored.packets[0] == Packet(Filter.MacMatches, [x])
    ensures metadata == Desc(1, Filter.MacMatches, 0) && got == initial[0] != x
  {
    hide Holds, Coherent, Read, WordByte, WordAt, Flat, After, QueueAfter, Arrivals, Stale, Grown;
    hide RxDevice.Waited, RxDevice.ByteRead, RxDevice.Valid, RxDriver.CacheOk, RxDriver.OldestSeen;
    var driver := CachedTooSoon(initial, x);
    var data := new Byte[2047];
    OneOfMany();
    ghost var q := driver.device.queue;
    metadata, stored := driver.ReadAndPopOldestPacket(data);
    FirstStays(q, stored);
    got := data[0];
  }

  lemma {:induction false} FirstStays(q: Queue, stored: Queue)
    requires Grown(q, stored) && q.packets != []
    ensures stored.packets != [] && stored.packets[0] == q.packets[0]
  {
  }

  lemma {:induction false} OneOfMany()
    ensures 1 % 2048 == 1 && Stale(0, 0, 0, 0)
  {
  }
}
