/** The transmit buffer and the state machine that streams it to the MAC. */
module TxFraming {
  import opened Bits
  import opened Signals

  /** 256 words, written by the host and read a byte at a time, least significant byte first. */
  type Memory = m: seq<Word64> | |m| == 256 witness seq(256, _ => Zeros(64))

  function ByteAt(mem: Memory, a: nat): Byte
    requires a < 2048
  {
    mem[a / 8][8 * (a % 8)..8 * (a % 8) + 8]
  }

  function Buffer(mem: Memory): (b: seq<Byte>)
    ensures |b| == 2048 && forall a | 0 <= a < 2048 :: b[a] == ByteAt(mem, a)
  {
    seq(2048, a requires 0 <= a < 2048 => ByteAt(mem, a))
  }

  type Address = a: nat | a < 2048

  /** `len` is the TX_CTRL register. */
  datatype Regs = Regs(busy: bool, addr: Address, len: nat, data: Byte, mem: Memory)

  /** What the host writes in a cycle. */
  datatype Write = NoWrite | WriteData(offset: nat, word: Word64) | WriteCtrl(value: nat)

  datatype Inputs = Inputs(ready: bool, write: Write)

  /** Writing a length other than zero starts a transmission. */
  predicate Kick(w: Write) { w.WriteCtrl? && w.value % 2048 != 0 }

  /** The address is compared with `packet_len - 1` in 32 unsigned bits. */
  predicate Last(r: Regs) { r.addr == (r.len + 0xffff_ffff) % 0x1_0000_0000 }

  function AxisOf(r: Regs): Axis { Axis(r.data, r.busy, Last(r), false) }

  predicate Done(r: Regs, ready: bool) { r.busy && ready && Last(r) }

  function AddrNext(r: Regs, ready: bool): Address {
    if r.busy && ready then (if Last(r) then 0 else (r.addr + 1) % 2048) else r.addr
  }

  /** The registers and the memory after a clock edge. */
  function Next(r: Regs, i: Inputs): Regs {
    var addr := AddrNext(r, i.ready);
    Regs(if Kick(i.write) && !r.busy then true else if Done(r, i.ready) then false else r.busy,
         addr,
         if i.write.WriteCtrl? then i.write.value % 2048 else r.len,
         if r.busy || Kick(i.write) then ByteAt(r.mem, addr) else r.data,
         if i.write.WriteData? then r.mem[i.write.offset % 256 := i.write.word] else r.mem)
  }

  class EthernetTxFraming {
    var txBusy: bool
    var txBufferAddr: Address
    var txPacketLen: nat
    var rdData: Byte
    const txBuffer: array<Word64>

    constructor ()
      ensures Valid() && fresh(txBuffer)
      ensures !State().busy && State().addr == 0 && State().len == 0 && State().data == Zeros(8)
    {
      txBusy, txBufferAddr, txPacketLen, rdData := false, 0, 0, Zeros(8);
      txBuffer := new Word64[256];
    }

    predicate Valid() { txBuffer.Length == 256 }

    ghost function State(): Regs
      reads this, txBuffer
      requires Valid()
    {
      Regs(txBusy, txBufferAddr, txPacketLen, rdData, txBuffer[..])
    }

    /** The combinational outputs: the stream to the MAC and the done pulse. */
    method Outputs(ready: bool) returns (axis: Axis, donePulse: bool)
      requires Valid()
      ensures axis == AxisOf(State()) && donePulse == Done(State(), ready)
    {
      var last := txBufferAddr == (txPacketLen + 0xffff_ffff) % 0x1_0000_0000;
      axis := Axis(rdData, txBusy, last, false);
      donePulse := txBusy && ready && last;
    }

    method ReadByte(a: Address) returns (b: Byte)
      requires Valid()
      ensures b == ByteAt(txBuffer[..], a)
    {
      var word := txBuffer[a / 8];
      b := word[8 * (a % 8)..8 * (a % 8) + 8];
    }

    method StoreWord(write: Write)
      requires Valid()
      modifies txBuffer
      ensures txBuffer[..] == if write.WriteData? then old(txBuffer[..])[write.offset % 256 := write.word]
                              else old(txBuffer[..])
    {
      if write.WriteData? {
        txBuffer[write.offset % 256] := write.word;
      }
    }

    /** One clock edge. */
    method Clock(i: Inputs)
      requires Valid()
      modifies this, txBuffer
      ensures State() == Next(old(State()), i)
    {
      hide ByteAt;
      var kick := i.write.WriteCtrl? && i.write.value % 2048 != 0;
      var axis, done := Outputs(i.ready);
      var addrNext: Address := txBufferAddr;
      if axis.valid && i.ready {
        addrNext := if axis.last then 0 else (txBufferAddr + 1) % 2048;
      }
      if txBusy || kick {
        var b := ReadByte(addrNext);
        rdData := b;
      }
      StoreWord(i.write);
      if kick && !txBusy {
        txBusy := true;
      } else if done {
        txBusy := false;
      }
      txBufferAddr := addrNext;
      if i.write.WriteCtrl? {
        txPacketLen := i.write.value % 2048;
      }
    }
  }

  // ---- A packet under backpressure ----

  function Step(r: Regs, ready: bool): Regs { Next(r, Inputs(ready, NoWrite)) }

  /** The state after cycles with these ready signals and no host access. */
  function End(r: Regs, ready: seq<bool>): Regs
    decreases |ready|
  {
    if ready == [] then r else End(Step(r, ready[0]), ready[1..])
  }

  /** The beats the MAC accepts. */
  function Accepted(r: Regs, ready: seq<bool>): seq<Beat>
    decreases |ready|
  {
    if ready == [] then [] else
      (if r.busy && ready[0] then [Beat(r.data, Last(r))] else []) + Accepted(Step(r, ready[0]), ready[1..])
  }

  /** The number of done pulses. */
  function DonePulses(r: Regs, ready: seq<bool>): nat
    decreases |ready|
  {
    if ready == [] then 0
    else (if Done(r, ready[0]) then 1 else 0) + DonePulses(Step(r, ready[0]), ready[1..])
  }

  /** Sending byte `a` of packet `p`. */
  ghost predicate Sending(r: Regs, p: seq<Byte>, a: nat) {
    && r.busy && a < |p| < 2048 && r.addr == a && r.len == |p| && r.data == p[a]
    && Buffer(r.mem)[..|p|] == p
  }

  ghost predicate Stopped(r: Regs) { !r.busy && r.addr == 0 }

  lemma {:induction false} StepSending(r: Regs, p: seq<Byte>, a: nat, ready: bool)
    requires Sending(r, p, a)
    ensures var r' := Step(r, ready);
            && Last(r) == (a == |p| - 1)
            && (if !ready then Sending(r', p, a)
                else if a + 1 < |p| then Sending(r', p, a + 1)
                else Stopped(r'))
  {
    hide ByteAt;
    if ready && a + 1 < |p| {
      assert Buffer(r.mem)[..|p|][a + 1] == p[a + 1];
    } else if !ready {
      assert Buffer(r.mem)[..|p|][a] == p[a];
    }
  }

  lemma {:induction false} StoppedRun(r: Regs, ready: seq<bool>)
    requires Stopped(r)
    ensures Accepted(r, ready) == [] && DonePulses(r, ready) == 0 && Stopped(End(r, ready))
    decreases |ready|
  {
    if ready != [] {
      StoppedRun(Step(r, ready[0]), ready[1..]);
    }
  }

  function Min(a: nat, b: nat): nat { if a < b then a else b }

  /** Whatever the backpressure, the beats accepted are the packet's, in order and each once, as
      many as there were ready cycles; the transmission is busy until the packet's last beat, which
      alone carries `last` and the done pulse, and leaves the address at zero. */
  lemma {:induction false} StreamsPacket(r: Regs, p: seq<Byte>, a: nat, ready: seq<bool>)
    requires Sending(r, p, a)
    ensures var n := Min(Count(ready), |p| - a);
            && Accepted(r, ready) == Beats(p)[a..a + n]
            && DonePulses(r, ready) == (if a + n == |p| then 1 else 0)
            && (if a + n == |p| then Stopped(End(r, ready)) else Sending(End(r, ready), p, a + n))
    decreases |ready|
  {
    hide Sending, Step, Stopped, Beats;
    assert a < |p| by { SendingBounds(r, p, a); }
    if ready != [] {
      var r' := Step(r, ready[0]);
      SendingBounds(r, p, a);
      StepSending(r, p, a, ready[0]);
      if !ready[0] {
        StreamsPacket(r', p, a, ready[1..]);
      } else if a + 1 < |p| {
        StreamsPacket(r', p, a + 1, ready[1..]);
        var n := Min(Count(ready[1..]), |p| - (a + 1));
        SliceCons(Beats(p), a, n);
      } else {
        StoppedRun(r', ready[1..]);
        SliceCons(Beats(p), a, 0);
      }
    }
  }

  lemma {:induction false} SliceCons(b: seq<Beat>, a: nat, n: nat)
    requires a + 1 + n <= |b|
    ensures b[a..a + 1 + n] == [b[a]] + b[a + 1..a + 1 + n] && b[a + 1..a + 1] == [] && b[a..a] == []
  {
  }

  lemma {:induction false} SendingBounds(r: Regs, p: seq<Byte>, a: nat)
    requires Sending(r, p, a)
    ensures a < |p| && r.busy && r.data == p[a]
  {
  }

  /** Writing a length starts the packet in the buffer from its first byte. */
  lemma {:induction false} KickStarts(r: Regs, len: nat, ready: bool)
    requires Stopped(r) && 1 <= len < 2048
    ensures Sending(Next(r, Inputs(ready, WriteCtrl(len))), Buffer(r.mem)[..len], 0)
  {
  }

  /** Of the value written 11 bits count, and nothing else starts a packet: not a length of 0, nor a
      write to the buffer. */
  lemma {:induction false} StartsIff(r: Regs, i: Inputs)
    requires Stopped(r)
    ensures var r' := Next(r, i);
            if i.write.WriteCtrl? && i.write.value % 2048 != 0
            then Sending(r', Buffer(r.mem)[..i.write.value % 2048], 0)
            else Stopped(r')
  {
    hide ByteAt;
  }
}
