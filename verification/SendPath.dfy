/** From the driver's send call to the wire: host writes, framing and MAC in lockstep. */
module SendPath {
  import opened Bits
  import opened Crc32
  import opened Signals
  import opened TxFraming
  import Mac = GmiiTx
  import opened TxWire

  /** The interpacket gap the MAC is configured with. */
  const IFG := 12

  datatype Device = Device(mac: Mac.Regs, framing: TxFraming.Regs)

  /** One clock edge: the MAC takes the framing's stream, the framing sees the MAC's ready. */
  function Clocked(d: Device, w: Write): Device {
    Device(Mac.Next(d.mac, Mac.Inputs(false, AxisOf(d.framing), true, false, IFG)),
           TxFraming.Next(d.framing, TxFraming.Inputs(d.mac.tready, w)))
  }

  class TxDevice {
    const mac: Mac.AxisGmiiTx
    const framing: EthernetTxFraming

    constructor (mac: Mac.AxisGmiiTx, framing: EthernetTxFraming)
      requires framing.Valid()
      ensures this.mac == mac && this.framing == framing && Valid()
    {
      this.mac, this.framing := mac, framing;
    }

    predicate Valid() { framing.Valid() }

    ghost function State(): Device
      reads mac, framing, framing.txBuffer
      requires Valid()
    {
      Device(mac.State(), framing.State())
    }

    method Clock(w: Write)
      requires Valid()
      modifies mac, framing, framing.txBuffer
      ensures State() == Clocked(old(State()), w)
    {
      hide Mac.Next, TxFraming.Next;
      var ready := mac.sAxisTreadyReg;
      var axis, done := framing.Outputs(ready);
      mac.Clock(Mac.Inputs(false, axis, true, false, IFG));
      framing.Clock(TxFraming.Inputs(ready, w));
    }
  }

  // ---- The driver ----

  /** The MAC has taken the last beat of a packet that needs no padding and finishes the frame, or is
      idle. */
  ghost predicate Draining(m: Mac.Regs) {
    && !m.tready && !m.txEr
    && match m.state
       case Idle => true
       case Last => m.framePtr >= 59
       case FcsBytes => m.framePtr <= 3
       case Ifg => m.ifg < 256
       case _ => false
  }

  /** Nothing left to stream: a send can be accepted, though the last frame may not be out yet. */
  ghost predicate Idle(d: Device) { Stopped(d.framing) && Draining(d.mac) }

  /** The whole packet is in the buffer and its first byte on offer. */
  ghost predicate Loaded(d: Device, p: seq<Byte>) { Sending(d.framing, p, 0) && Draining(d.mac) }

  ghost predicate InPreamble(m: Mac.Regs) {
    m.state == Mac.Preamble && 1 <= m.framePtr <= 7 && m.tready == (m.framePtr == 7)
  }

  /** Byte `a` of packet `p` is on offer and the MAC has taken those before it. */
  ghost predicate InFlight(d: Device, p: seq<Byte>, a: nat) {
    && Sending(d.framing, p, a) && |p| >= 60 && !d.mac.txEr
    && match d.mac.state
       case Preamble => a == 0 && InPreamble(d.mac)
       case Payload => d.mac.tready && d.mac.framePtr + 1 == a
       case _ => a == 0 && Draining(d.mac)
  }

  /** What every cycle keeps. */
  ghost predicate DeviceOk(d: Device) { Idle(d) || exists p, a: nat :: InFlight(d, p, a) }

  /** The wire is silent, but for a gap to end. */
  predicate Silent(d: Device) { d.mac.state == Mac.Idle || d.mac.state == Mac.Ifg }

  /** The cycles until then, once the last beat is taken. */
  function BusyTime(d: Device): nat {
    match d.mac.state
    case Last => 5
    case FcsBytes => if d.mac.framePtr < 4 then 4 - d.mac.framePtr else 1
    case _ => 0
  }

  /** Whatever the driver writes, the frame goes on to its end, and once the wire is silent it stays
      so. */
  lemma {:induction false} FallsSilent(d: Device, w: Write)
    requires Idle(d)
    ensures BusyTime(d) == 0 <==> Silent(d)
    ensures var d' := Clocked(d, w);
            && BusyTime(d') == (if BusyTime(d) == 0 then 0 else BusyTime(d) - 1)
            && (Silent(d) ==> Silent(d') && !Mac.Output(d'.mac).en)
  {
    hide ByteAt, CrcNext, TxFraming.Next;
  }

  lemma {:induction false} IdleAccess(d: Device, w: Write)
    requires Idle(d) && !Kick(w)
    ensures var d' := Clocked(d, w);
            && Idle(d')
            && d'.framing.mem == if w.WriteData? then d.framing.mem[w.offset % 256 := w.word] else d.framing.mem
  {
    hide ByteAt, CrcNext;
  }

  lemma {:induction false} KickAccess(d: Device, len: nat)
    requires Idle(d) && 1 <= len < 2048
    ensures Loaded(Clocked(d, WriteCtrl(len)), Buffer(d.framing.mem)[..len])
  {
    KickStarts(d.framing, len, d.mac.tready);
    hide ByteAt, CrcNext, Buffer, Sending;
  }

  lemma {:induction false} LoadedOk(d: Device, p: seq<Byte>)
    requires Loaded(d, p) && |p| >= 60
    ensures DeviceOk(d)
  {
    assert InFlight(d, p, 0);
  }

  /** A reset cycle of the MAC, with the framing stopped, is a start. */
  lemma {:induction false} ResetOk(d: Device, i: Mac.Inputs)
    requires i.rst && Stopped(d.framing)
    ensures DeviceOk(Device(Mac.Next(d.mac, i), d.framing))
  {
    hide Mac.Advance;
  }

  lemma {:induction false} MacStep(d: Device, p: seq<Byte>, a: nat)
    requires InFlight(d, p, a)
    ensures var m, m' := d.mac, Clocked(d, NoWrite).mac;
            && !m'.txEr
            && (m.tready && a + 1 == |p| ==> Draining(m'))
            && (m.tready && a + 1 < |p| ==> m'.state == Mac.Payload && m'.tready && m'.framePtr == a)
            && (!m.tready ==> Draining(m') || InPreamble(m'))
  {
    hide ByteAt, CrcNext, Buffer, TxFraming.Next;
    StepSending(d.framing, p, a, d.mac.tready);
    SendingBounds(d.framing, p, a);
  }

  lemma {:induction false} StaysOk(d: Device)
    requires DeviceOk(d)
    ensures DeviceOk(Clocked(d, NoWrite))
  {
    if Idle(d) {
      IdleAccess(d, NoWrite);
    } else {
      var p, a: nat :| InFlight(d, p, a);
      FlightGoesOn(d, p, a);
    }
  }

  lemma {:induction false} FlightGoesOn(d: Device, p: seq<Byte>, a: nat)
    requires InFlight(d, p, a)
    ensures DeviceOk(Clocked(d, NoWrite))
  {
    hide ByteAt, Buffer, TxFraming.Next, Mac.Next, Sending;
    MacStep(d, p, a);
    StepSending(d.framing, p, a, d.mac.tready);
    SendingBounds(d.framing, p, a);
    var d' := Clocked(d, NoWrite);
    var a' := if d.mac.tready then a + 1 else a;
    if a' < |p| {
      assert InFlight(d', p, a');
    }
  }

  /** `word |= (uint64_t)b << (8 * j)`. */
  method OrByte(word: Word64, b: Byte, j: nat) returns (r: Word64)
    requires j < 8 && forall i | 8 * j <= i < 64 :: !word[i]
    ensures r[..8 * j] == word[..8 * j] && r[8 * j..8 * j + 8] == b
    ensures forall i | 8 * j + 8 <= i < 64 :: !r[i]
  {
    var shifted := Zeros(8 * j) + b + Zeros(64 - 8 * j - 8);
    r := seq(64, i requires 0 <= i < 64 => word[i] || shifted[i]);
  }

  /** The indices from `from` on, below `to`. */
  function Indices(from: nat, to: nat): (s: set<nat>)
    ensures forall k: nat :: k in s <==> from <= k < to
  {
    if to <= from then {} else Indices(from, to - 1) + {to - 1}
  }

  lemma {:induction false} IndicesJoin(a: nat, b: nat, c: nat)
    requires a <= b <= c
    ensures Indices(a, b) + Indices(b, c) == Indices(a, c) && Indices(a, a) == {}
  {
  }

  /** Byte `j` of the word is the `j`-th of the eight bytes from `8 * i`. */
  ghost predicate Packs(word: Word64, bytes: seq<Byte>, i: nat) {
    8 * i + 8 <= |bytes| && forall j | 0 <= j < 8 :: word[8 * j..8 * j + 8] == bytes[8 * i + j]
  }

  /** The eight bytes from `data[8 * i]`, the first in the lowest bits; and the indices read. */
  method PackWord(data: array<Byte>, i: nat) returns (word: Word64, ghost read: set<nat>)
    requires 8 * i + 8 <= data.Length
    ensures Packs(word, data[..], i)
    ensures read == Indices(8 * i, 8 * i + 8)
  {
    word, read := Zeros(64), {};
    var j := 0;
    while j < 8
      invariant 0 <= j <= 8
      invariant read == Indices(8 * i, 8 * i + j)
      invariant forall k | 8 * j <= k < 64 :: !word[k]
      invariant forall m | 0 <= m < j :: word[8 * m..8 * m + 8] == data[8 * i + m]
    {
      var before := word;
      word := OrByte(word, data[8 * i + j], j);
      read := read + {8 * i + j};
      forall m | 0 <= m < j ensures word[8 * m..8 * m + 8] == data[8 * i + m] {
        SameSlice(before, word, 8 * j, 8 * m, 8 * m + 8);
      }
      j := j + 1;
    }
  }

  lemma {:induction false} SameSlice(a: Vec, b: Vec, n: nat, lo: nat, hi: nat)
    requires lo <= hi <= n <= |a| && n <= |b| && a[..n] == b[..n]
    ensures a[lo..hi] == b[lo..hi]
  {
    forall i | lo <= i < hi ensures a[i] == b[i] {
      assert a[..n][i] == b[..n][i];
    }
  }

  /** The buffer's first bytes are these. */
  ghost predicate Holds(mem: Memory, p: seq<Byte>) {
    |p| <= 2048 && forall a | 0 <= a < |p| :: ByteAt(mem, a) == p[a]
  }

  lemma {:induction false} StoreWord(mem: Memory, word: Word64, i: nat, p: seq<Byte>)
    requires i < 256 && |p| == 8 * i + 8 && Holds(mem, p[..8 * i])
    requires forall j | 0 <= j < 8 :: word[8 * j..8 * j + 8] == p[8 * i + j]
    ensures Holds(mem[i := word], p)
  {
    forall a | 0 <= a < |p| ensures ByteAt(mem[i := word], a) == p[a] {
      if a < 8 * i {
        assert ByteAt(mem, a) == p[..8 * i][a];
      } else {
        assert a / 8 == i && a == 8 * i + a % 8;
        assert word[8 * (a % 8)..8 * (a % 8) + 8] == p[8 * i + a % 8];
      }
    }
  }

  method TxBufferWrite64(device: TxDevice, wordOffset: nat, data: Word64)
    requires device.Valid()
    modifies device.mac, device.framing, device.framing.txBuffer
    ensures device.State() == Clocked(old(device.State()), WriteData(wordOffset, data))
  {
    device.Clock(WriteData(wordOffset, data));
  }

  method TxPacketTrigger(device: TxDevice, lenBytes: nat) returns (code: nat)
    requires device.Valid()
    modifies device.mac, device.framing, device.framing.txBuffer
    ensures code == (if 60 <= lenBytes <= 1518 then 0 else 1)
    ensures device.State()
         == if code == 0 then Clocked(old(device.State()), WriteCtrl(lenBytes)) else old(device.State())
  {
    if lenBytes > 1518 || lenBytes < 60 {
      return 1;
    }
    device.Clock(WriteCtrl(lenBytes));
    return 0;
  }

  /** The body of the copy loop. */
  method CopyWord(device: TxDevice, data: array<Byte>, i: nat) returns (ghost read: set<nat>)
    requires device.Valid() && Idle(device.State()) && i < 256 && 8 * i + 8 <= data.Length
    requires data as object !in {device.mac, device.framing, device.framing.txBuffer}
    requires Holds(device.State().framing.mem, data[..][..8 * i])
    modifies device.mac, device.framing, device.framing.txBuffer
    ensures Idle(device.State()) && Holds(device.State().framing.mem, data[..][..8 * i + 8])
    ensures var busy := old(BusyTime(device.State()));
            BusyTime(device.State()) == if busy == 0 then 0 else busy - 1
    ensures read == Indices(8 * i, 8 * i + 8)
  {
    hide Idle, Holds, Clocked, BusyTime, Silent, Packs, Indices;
    ghost var bytes, before := data[..], device.State();
    var word;
    word, read := PackWord(data, i);
    WordOf(bytes, i, word);
    TxBufferWrite64(device, i, word);
    WordCopied(before, word, i, bytes[..8 * i + 8], bytes[..8 * i]);
  }

  /** The copy loop, in whole words, and the indices it reads. */
  method CopyWords(device: TxDevice, data: array<Byte>, lenWords: nat) returns (ghost read: set<nat>)
    requires device.Valid() && Idle(device.State()) && lenWords <= 256 && 8 * lenWords <= data.Length
    requires data as object !in {device.mac, device.framing, device.framing.txBuffer}
    modifies device.mac, device.framing, device.framing.txBuffer
    ensures Idle(device.State()) && Holds(device.framing.txBuffer[..], data[..8 * lenWords])
    ensures lenWords >= 5 ==> Silent(device.State())
    ensures read == Indices(0, 8 * lenWords)
  {
    BusyAtFirst(device.State());
    IndicesJoin(0, 0, 0);
    ghost var bytes := data[..];
    hide Idle, Holds, Clocked, BusyTime, Silent, Indices;
    read := {};
    var i := 0;
    HoldsNothing(device.State().framing.mem, bytes[..0]);
    while i < lenWords
      invariant 0 <= i <= lenWords && data[..] == bytes
      invariant Idle(device.State()) && Holds(device.State().framing.mem, bytes[..8 * i])
      invariant BusyTime(device.State()) <= if i < 5 then 5 - i else 0
      invariant read == Indices(0, 8 * i)
    {
      var more := CopyWord(device, data, i);
      read := read + more;
      IndicesJoin(0, 8 * i, 8 * i + 8);
      i := i + 1;
    }
    FallsSilent(device.State(), NoWrite);
  }

  lemma {:induction false} WordOf(bytes: seq<Byte>, i: nat, word: Word64)
    requires Packs(word, bytes, i)
    ensures var p := bytes[..8 * i + 8];
            p[..8 * i] == bytes[..8 * i] && Packs(word, p, i)
  {
  }

  /** One word more of the packet. */
  lemma {:induction false} WordCopied(d: Device, word: Word64, i: nat, p: seq<Byte>, before: seq<Byte>)
    requires Idle(d) && i < 256 && |p| == 8 * i + 8 && before == p[..8 * i] && Holds(d.framing.mem, before)
    requires Packs(word, p, i)
    ensures var d' := Clocked(d, WriteData(i, word));
            && Idle(d') && Holds(d'.framing.mem, p)
            && BusyTime(d') == if BusyTime(d) == 0 then 0 else BusyTime(d) - 1
  {
    hide Idle, Holds, Clocked, BusyTime, Silent;
    IdleAccess(d, WriteData(i, word));
    FallsSilent(d, WriteData(i, word));
    StoreWord(d.framing.mem, word, i, p);
  }

  lemma {:induction false} BusyAtFirst(d: Device)
    requires Idle(d)
    ensures BusyTime(d) <= 5
  {
  }

  lemma {:induction false} HoldsNothing(mem: Memory, p: seq<Byte>)
    requires p == []
    ensures Holds(mem, p)
  {
  }

  lemma {:induction false} HoldsBuffer(mem: Memory, p: seq<Byte>, len: nat)
    requires len <= |p| && Holds(mem, p)
    ensures Buffer(mem)[..len] == p[..len]
  {
  }

  lemma {:induction false} NotBusyIdle(d: Device)
    requires DeviceOk(d)
    ensures d.framing.busy || Idle(d)
  {
    if !Idle(d) {
      var p, a: nat :| InFlight(d, p, a);
      SendingBounds(d.framing, p, a);
    }
  }

  /** The bytes of that many and the rest of the last word. */
  function Rounded(lenBytes: nat): nat { (lenBytes + 7) / 8 * 8 }

  /** Returns 1, 2 or 3 and touches nothing when a packet is still being streamed or the length is
      out of range; otherwise the packet is in the buffer and under way, and the frame before it, if
      any, is out but for its gap, since the copying takes longer. `read` are the indices of
      `data` read. */
  method SendPacket(device: TxDevice, data: array<Byte>, lenBytes: nat) returns (code: nat, ghost read: set<nat>)
    requires device.Valid() && DeviceOk(device.State())
    requires !device.framing.txBusy && 60 <= lenBytes <= 1518 ==> data.Length >= Rounded(lenBytes)
    requires data as object !in {device.mac, device.framing, device.framing.txBuffer}
    modifies device.mac, device.framing, device.framing.txBuffer
    ensures code == 0 <==> !old(device.framing.txBusy) && 60 <= lenBytes <= 1518
    ensures code == 1 <==> old(device.framing.txBusy)
    ensures code == 2 <==> !old(device.framing.txBusy) && lenBytes > 1518
    ensures code == 3 <==> !old(device.framing.txBusy) && lenBytes < 60
    ensures code == 0 ==> Loaded(device.State(), data[..lenBytes]) && Silent(device.State())
    ensures DeviceOk(device.State())
    ensures code != 0 ==> device.State() == old(device.State())
    ensures read == if code == 0 then Indices(0, Rounded(lenBytes)) else {}
    ensures (exists k :: k in read && k >= lenBytes)
       <==> !old(device.framing.txBusy) && 60 <= lenBytes <= 1518 && lenBytes % 8 != 0
  {
    read := {};
    RoundedUp(lenBytes);
    if device.framing.txBusy {
      return 1, read;
    }
    NotBusyIdle(device.State());
    if lenBytes > 1518 {
      return 2, read;
    }
    if lenBytes < 60 {
      return 3, read;
    }
    hide Clocked, Holds, Loaded, Buffer, DeviceOk, Idle, Silent, BusyTime;
    var lenWords := (lenBytes + 7) / 8;
    read := CopyWords(device, data, lenWords);
    ghost var before := device.State();
    HoldsBuffer(before.framing.mem, data[..8 * lenWords], lenBytes);
    KickAccess(before, lenBytes);
    FallsSilent(before, WriteCtrl(lenBytes));
    var refused := TxPacketTrigger(device, lenBytes);
    assert data[..8 * lenWords][..lenBytes] == data[..lenBytes];
    LoadedOk(device.State(), data[..lenBytes]);
    assert lenBytes % 8 != 0 ==> lenBytes in read;
    return 0, read;
  }

  /** The least multiple of eight that is not less: at most seven more, and none if and only if it is
      one already. */
  lemma {:induction false} RoundedUp(lenBytes: nat)
    ensures Rounded(lenBytes) % 8 == 0 && lenBytes <= Rounded(lenBytes) < lenBytes + 8
    ensures Rounded(lenBytes) == lenBytes <==> lenBytes % 8 == 0
  {
    var q, r := lenBytes / 8, lenBytes % 8;
    assert lenBytes == 8 * q + r;
    assert (lenBytes + 7) / 8 == if r == 0 then q else q + 1;
  }

  // ---- To the wire ----

  function Run(d: Device, n: nat): Device
    decreases n
  {
    if n == 0 then d else Run(Clocked(d, NoWrite), n - 1)
  }

  /** The MAC's outputs after each of the next `n` cycles. */
  function Shown(d: Device, n: nat): (w: seq<Gmii>)
    ensures |w| == n
    decreases n
  {
    if n == 0 then [] else
      var d' := Clocked(d, NoWrite);
      [Mac.Output(d'.mac)] + Shown(d', n - 1)
  }

  /** The framing is a source that holds valid from its first offer to its last beat. */
  ghost predicate ActsAs(f: TxFraming.Regs, src: Source, p: seq<Byte>) {
    if f.busy then exists a: nat :: AtByte(f, src, p, a)
    else f.addr == 0 && src.beats == []
  }

  ghost predicate AtByte(f: TxFraming.Regs, src: Source, p: seq<Byte>, a: nat) {
    Sending(f, p, a) && src.beats == Beats(p)[a..]
  }

  /** The matching surroundings. */
  function TickOf(f: TxFraming.Regs): Tick { Tick(true, AxisOf(f).(valid := false)) }

  lemma {:induction false} OfferMatches(f: TxFraming.Regs, src: Source, p: seq<Byte>)
    requires ActsAs(f, src, p)
    ensures Offer(src, TickOf(f)) == AxisOf(f)
  {
    if f.busy {
      var a: nat :| AtByte(f, src, p, a);
      StepSending(f, p, a, false);
      hide ByteAt, Buffer;
    }
  }

  lemma {:induction false} SourceMatches(f: TxFraming.Regs, src: Source, p: seq<Byte>, ready: bool)
    requires ActsAs(f, src, p)
    ensures ActsAs(TxFraming.Step(f, ready), Handshake(src, true, ready), p)
  {
    if f.busy {
      var a: nat :| AtByte(f, src, p, a);
      StepSending(f, p, a, ready);
      SendingBounds(f, p, a);
      hide TxFraming.Next, Sending;
      var src', f' := Handshake(src, true, ready), TxFraming.Step(f, ready);
      if !ready {
        assert AtByte(f', src', p, a);
        SendingBounds(f', p, a);
      } else if a + 1 < |p| {
        assert src'.beats == Beats(p)[a + 1..];
        assert AtByte(f', src', p, a + 1);
        SendingBounds(f', p, a + 1);
      } else {
        assert src'.beats == [];
      }
    }
  }

  /** The device's run is a run of the MAC with that source. */
  lemma {:induction false} RunMatches(d: Device, src: Source, p: seq<Byte>, n: nat) returns (ticks: seq<Tick>)
    requires ActsAs(d.framing, src, p)
    ensures |ticks| == n && (n > 0 ==> ticks[0].go)
    ensures Wire(System(d.mac, src), IFG, ticks) == Shown(d, n)
    ensures var e := TxWire.End(System(d.mac, src), IFG, ticks);
            e.regs == Run(d, n).mac && ActsAs(Run(d, n).framing, e.src, p)
    decreases n
  {
    hide Mac.Next, ActsAs, TxFraming.Next;
    if n == 0 {
      ticks := [];
    } else {
      var t := TickOf(d.framing);
      OfferMatches(d.framing, src, p);
      SourceMatches(d.framing, src, p, d.mac.tready);
      var s := System(d.mac, src);
      var s' := TxWire.Step(s, IFG, t);
      var rest := RunMatches(Clocked(d, NoWrite), s'.src, p, n - 1);
      ticks := [t] + rest;
      assert ticks[1..] == rest;
    }
  }

  lemma {:induction false} EmptySource(f: TxFraming.Regs, src: Source, p: seq<Byte>)
    requires ActsAs(f, src, p)
    ensures src.beats == [] ==> Stopped(f)
  {
    if f.busy {
      var a: nat :| AtByte(f, src, p, a);
      assert |Beats(p)[a..]| == |p| - a;
    }
  }

  /** The cycles until a draining MAC is idle. */
  function DrainTime(m: Mac.Regs): nat {
    match m.state
    case Last => 1 + if m.framePtr < 59 then 59 - m.framePtr + 4 + IFG else 4 + IFG
    case Pad => (if m.framePtr < 59 then 60 - m.framePtr else 1) + 4 + IFG
    case FcsBytes => (if m.framePtr < 4 then 4 - m.framePtr else 1) + IFG
    case Ifg => if m.ifg < IFG - 1 then IFG - m.ifg else 1
    case _ => 0
  }

  lemma {:induction false} DrainStep(d: Device, p: seq<Byte>)
    requires Loaded(d, p) && d.mac.state != Mac.Idle
    ensures var d' := Clocked(d, NoWrite);
            Loaded(d', p) && DrainTime(d'.mac) == DrainTime(d.mac) - 1
  {
    hide ByteAt, CrcNext, Buffer, Sending, TxFraming.Next;
    StepSending(d.framing, p, 0, false);
  }

  lemma {:induction false} Drains(d: Device, p: seq<Byte>)
    requires Loaded(d, p)
    ensures var d' := Run(d, DrainTime(d.mac));
            Loaded(d', p) && d'.mac.state == Mac.Idle
    decreases DrainTime(d.mac)
  {
    hide Clocked, Sending;
    if d.mac.state != Mac.Idle {
      DrainStep(d, p);
      Drains(Clocked(d, NoWrite), p);
    }
  }

  lemma {:induction false} RunSplit(d: Device, m: nat, n: nat)
    ensures Shown(d, m + n) == Shown(d, m) + Shown(Run(d, m), n)
    ensures Run(d, m + n) == Run(Run(d, m), n)
    decreases m
  {
    hide Clocked;
    if m > 0 {
      RunSplit(Clocked(d, NoWrite), m - 1, n);
    }
  }

  /** From an idle MAC, the frame takes exactly its length and the gap. */
  lemma {:induction false} IdleSends(d: Device, p: Packet)
    requires Loaded(d, p) && d.mac.state == Mac.Idle && 60 <= |p| <= 1518
    ensures var n := 12 + |p| + IFG;
            && Shown(d, n) == Symbols(PREAMBLE + p + Fcs(p)) + Idles(IFG)
            && Idle(Run(d, n)) && Run(d, n).mac.state == Mac.Idle
  {
    var src := Source(Beats(p), false);
    assert Beats(p)[0..] == Beats(p);
    assert AtByte(d.framing, src, p, 0);
    hide Wire, TxWire.End, Run, Shown, Sending, TxFraming.Next, Mac.Next, TxWire.Step, Fcs;
    SendingBounds(d.framing, p, 0);
    var n := 12 + |p| + IFG;
    var ticks := RunMatches(d, src, p, n);
    PaddedLength(p);
    assert Padded(p) == p;
    assert Beats(p) + [] == Beats(p);
    TxWire.SendPacket(System(d.mac, src), IFG, ticks, p, []);
    assert PREAMBLE + p + Fcs(p) == Frame(p);
    var e := TxWire.End(System(d.mac, src), IFG, ticks);
    EmptySource(Run(d, n).framing, e.src, p);
    LoadedOk(d, p);
    RunOk(d, n);
    NotBusyIdle(Run(d, n));
  }

  lemma {:induction false} RunOk(d: Device, i: nat)
    requires DeviceOk(d)
    ensures DeviceOk(Run(d, i)) && Run(d, i).mac.state != Mac.WaitEnd && !Run(d, i).mac.txEr
    decreases i
  {
    if i == 0 {
      OkNoError(d);
    } else {
      hide DeviceOk, Clocked;
      StaysOk(d);
      RunOk(Clocked(d, NoWrite), i - 1);
    }
  }

  lemma {:induction false} OkNoError(d: Device)
    requires DeviceOk(d)
    ensures d.mac.state != Mac.WaitEnd && !d.mac.txEr
  {
    if !Idle(d) {
      var p, a: nat :| InFlight(d, p, a);
    }
  }

  /** End to end: once the previous frame, if any, and its gap are out, a packet loaded by
      `SendPacket` goes out as preamble, delimiter, exactly the bytes handed over and their check
      sequence, followed by the gap, and the device can take the next; all along the MAC never
      waits for the end of a packet or raises an error. */
  lemma {:induction false} LoadedIsSent(d: Device, p: Packet)
    requires Loaded(d, p) && 60 <= |p| <= 1518
    ensures var t, n := DrainTime(d.mac), 12 + |p| + IFG;
            && Shown(d, t + n) == Shown(d, t) + (Symbols(PREAMBLE + p + Fcs(p)) + Idles(IFG))
            && Idle(Run(d, t + n)) && Run(d, t + n).mac.state == Mac.Idle
    ensures IFG == 12
    ensures forall i: nat :: Run(d, i).mac.state != Mac.WaitEnd && !Run(d, i).mac.txEr
  {
    hide Loaded, Idle, DeviceOk, Run, Shown;
    var t, n := DrainTime(d.mac), 12 + |p| + IFG;
    Drains(d, p);
    IdleSends(Run(d, t), p);
    RunSplit(d, t, n);
    LoadedOk(d, p);
    forall i: nat ensures Run(d, i).mac.state != Mac.WaitEnd && !Run(d, i).mac.txEr {
      RunOk(d, i);
    }
  }
}
