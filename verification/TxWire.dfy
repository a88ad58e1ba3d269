/** What the transmitter puts on the wire in 1000 Mb/s mode. */
module TxWire {
  import opened Bits
  import opened Crc32
  import opened Signals
  import opened GmiiTx

  /** An AXI source: `started` once it has raised valid for the packet at the front, after which it
      holds valid until that packet's last beat is accepted. */
  datatype Source = Source(beats: seq<Beat>, started: bool)

  /** The surroundings in one cycle: whether a source that is not bound to hold valid chooses to
      offer, and what its other outputs show while it does not. */
  datatype Tick = Tick(go: bool, rest: Axis)

  datatype System = System(regs: Regs, src: Source)

  predicate Offers(src: Source, go: bool) { src.beats != [] && (src.started || go) }

  function Offer(src: Source, t: Tick): Axis {
    if Offers(src, t.go) then Axis(src.beats[0].data, true, src.beats[0].last, false)
    else t.rest.(valid := false)
  }

  function Handshake(src: Source, go: bool, ready: bool): Source {
    if !Offers(src, go) then src
    else if ready then Source(src.beats[1..], !src.beats[0].last)
    else src.(started := true)
  }

  /** A cycle with the clock enabled, no reset and the byte-wide interface selected. */
  function Step(s: System, ifg: nat, t: Tick): System {
    System(Next(s.regs, Inputs(false, Offer(s.src, t), true, false, ifg)),
           Handshake(s.src, t.go, s.regs.tready))
  }

  function End(s: System, ifg: nat, ticks: seq<Tick>): System
    decreases |ticks|
  {
    if ticks == [] then s else End(Step(s, ifg, ticks[0]), ifg, ticks[1..])
  }

  /** The registered outputs after each cycle. */
  function Wire(s: System, ifg: nat, ticks: seq<Tick>): (w: seq<Gmii>)
    ensures |w| == |ticks|
    decreases |ticks|
  {
    if ticks == [] then [] else
      var s' := Step(s, ifg, ticks[0]);
      [Output(s'.regs)] + Wire(s', ifg, ticks[1..])
  }

  /** Padding bytes sent after `n` data bytes: up to 60 in all, with `n - 1` seen in 16 bits. */
  function PadCount(n: nat): nat
    requires n >= 1
  {
    if (n - 1) % 0x1_0000 < 59 then 59 - (n - 1) % 0x1_0000 else 0
  }

  function Padded(p: Packet): (b: seq<Byte>)
    ensures |b| == |p| + PadCount(|p|)
  {
    p + seq(PadCount(|p|), _ => Zeros(8))
  }

  /** Payload, padding and check sequence. */
  function Body(p: Packet): (b: seq<Byte>)
    ensures |b| == |Padded(p)| + 4
  {
    Padded(p) + Fcs(Padded(p))
  }

  const PREAMBLE: seq<Byte> := [ETH_PRE, ETH_PRE, ETH_PRE, ETH_PRE, ETH_PRE, ETH_PRE, ETH_PRE, ETH_SFD]

  function Frame(p: Packet): seq<Byte>
  {
    PREAMBLE + Body(p)
  }

  /** Every packet is padded to the minimum frame size, and only then. */
  lemma {:induction false} PaddedLength(p: Packet)
    ensures |Padded(p)| == (if |p| < 60 then 60 else |p|)
       <==> |p| <= 0x1_0000 || (|p| - 1) % 0x1_0000 >= 59
  {
    if |p| <= 0x1_0000 {
      assert (|p| - 1) % 0x1_0000 == |p| - 1;
    }
  }

  /** The transmitter is idle and has nothing to start with. */
  predicate Stays(s: System, t: Tick) { s.regs.state == Idle && !Offers(s.src, t.go) }

  /** No step of these is spent waiting for an offer. */
  ghost predicate Busy(s: System, ifg: nat, ticks: seq<Tick>)
    decreases |ticks|
  {
    ticks != [] ==> !Stays(s, ticks[0]) && Busy(Step(s, ifg, ticks[0]), ifg, ticks[1..])
  }

  // ---- Phase by phase: each lemma follows the frame to its end ----

  ghost predicate Resting(s: System, rest: seq<Beat>) {
    s.regs.state == Idle && !s.regs.tready && s.src.beats == rest
  }

  lemma {:induction false} GapPhase(s: System, ifg: nat, ticks: seq<Tick>, rest: seq<Beat>)
    requires 1 <= ifg < 256 && s.regs.state == Ifg && s.regs.ifg < ifg && |ticks| == ifg - s.regs.ifg
    requires !s.regs.tready && s.src.beats == rest
    ensures Wire(s, ifg, ticks) == Idles(|ticks|) && Resting(End(s, ifg, ticks), rest)
    ensures Busy(s, ifg, ticks) && End(s, ifg, ticks).regs.fcs == s.regs.fcs
    decreases |ticks|
  {
    var s' := Step(s, ifg, ticks[0]);
    assert Output(s'.regs) == IDLE_SYMBOL;
    if |ticks| > 1 {
      GapPhase(s', ifg, ticks[1..], rest);
    } else {
      assert ticks[1..] == [];
    }
    assert Idles(|ticks|) == [IDLE_SYMBOL] + Idles(|ticks| - 1);
  }

  lemma {:induction false} FcsPhase(s: System, ifg: nat, ticks: seq<Tick>, f: seq<Byte>, rest: seq<Beat>)
    requires 1 <= ifg < 256 && s.regs.state == FcsBytes && s.regs.framePtr < 4
    requires |f| == 4 && Flatten(f) == Not(s.regs.crc) && |ticks| == 4 - s.regs.framePtr + ifg
    requires !s.regs.tready && s.src.beats == rest
    ensures Wire(s, ifg, ticks) == Symbols(f[s.regs.framePtr..]) + Idles(ifg)
    ensures Resting(End(s, ifg, ticks), rest)
    ensures Busy(s, ifg, ticks) && End(s, ifg, ticks).regs.fcs == s.regs.crc
    decreases |ticks|
  {
    hide Step;
    var k := s.regs.framePtr;
    var s' := Step(s, ifg, ticks[0]);
    FcsStep(s, ifg, ticks[0], f);
    if k < 3 {
      FcsPhase(s', ifg, ticks[1..], f, rest);
    } else {
      GapPhase(s', ifg, ticks[1..], rest);
      assert Symbols(f[4..]) == [];
    }
    assert Symbols(f[k..]) == [Gmii(f[k], true, false)] + Symbols(f[k + 1..]);
  }

  lemma {:induction false} FcsStep(s: System, ifg: nat, t: Tick, f: seq<Byte>)
    requires s.regs.state == FcsBytes && s.regs.framePtr < 4 && !s.regs.tready
    requires |f| == 4 && Flatten(f) == Not(s.regs.crc)
    ensures var s', k := Step(s, ifg, t), s.regs.framePtr;
            && s'.src.beats == s.src.beats && !s'.regs.tready && s'.regs.crc == s.regs.crc
            && Output(s'.regs) == Gmii(f[k], true, false)
            && (if k < 3 then s'.regs.state == FcsBytes && s'.regs.framePtr == k + 1
                else s'.regs.state == Ifg && s'.regs.ifg == 0 && s'.regs.fcs == s.regs.crc)
  {
    var k := s.regs.framePtr;
    FlattenAt(f, k);
    hide CrcNext, Flatten;
    assert Not(s.regs.crc[8 * k..8 * k + 8]) == Not(s.regs.crc)[8 * k..8 * k + 8];
  }

  lemma {:induction false} FlattenAt(f: seq<Byte>, k: nat)
    requires k < |f|
    ensures Flatten(f)[8 * k..8 * k + 8] == f[k]
  {
    if k > 0 {
      FlattenAt(f[1..], k - 1);
      assert Flatten(f)[8..] == Flatten(f[1..]);
      assert Flatten(f)[8 * k..8 * k + 8] == Flatten(f)[8..][8 * (k - 1)..8 * (k - 1) + 8];
    }
  }

  /** The register has taken in the first `k` bytes. */
  ghost predicate CrcOf(crc: Word32, b: seq<Byte>, k: nat) {
    k <= |b| && crc == CrcBytes(Ones(32), b[..k])
  }

  lemma {:induction false} CrcGrows(crc: Word32, b: seq<Byte>, k: nat)
    requires k < |b| && CrcOf(crc, b, k)
    ensures CrcOf(CrcNext(crc, b[k]), b, k + 1)
  {
    assert b[..k + 1] == b[..k] + [b[k]];
    CrcBytesConcat(Ones(32), b[..k], [b[k]]);
    hide CrcNext;
    assert [b[k]][1..] == [];
    assert CrcBytes(CrcNext(crc, b[k]), []) == CrcNext(crc, b[k]);
  }

  lemma {:induction false} ByteSent(b: seq<Byte>, k: nat)
    requires k < |b|
    ensures Symbols(b[k..]) == [Gmii(b[k], true, false)] + Symbols(b[k + 1..])
  {
  }

  lemma {:induction false} BodyEnd(p: Packet)
    ensures Padded(p)[..|Padded(p)|] == Padded(p) && Body(p)[|Padded(p)|..] == Fcs(Padded(p))
  {
  }

  lemma {:induction false} PadPhase(s: System, ifg: nat, ticks: seq<Tick>, p: Packet, pos: nat, rest: seq<Beat>)
    requires |p| <= pos < |Padded(p)|
    requires 1 <= ifg < 256 && s.regs.state == Pad && s.regs.framePtr == 60 - (|Padded(p)| - pos)
    requires s.regs.tdata == Zeros(8) && CrcOf(s.regs.crc, Padded(p), pos)
    requires |ticks| == |Padded(p)| - pos + 4 + ifg && !s.regs.tready && s.src.beats == rest
    ensures Wire(s, ifg, ticks) == Symbols(Body(p)[pos..]) + Idles(ifg)
    ensures Resting(End(s, ifg, ticks), rest)
    ensures Busy(s, ifg, ticks) && End(s, ifg, ticks).regs.fcs == CrcBytes(Ones(32), Padded(p))
    decreases |ticks|
  {
    hide CrcNext, CrcBytes, Fcs;
    var s' := Step(s, ifg, ticks[0]);
    var b := Padded(p);
    assert b[pos] == Zeros(8);
    CrcGrows(s.regs.crc, b, pos);
    ByteSent(Body(p), pos);
    if pos + 1 < |b| {
      PadPhase(s', ifg, ticks[1..], p, pos + 1, rest);
    } else {
      BodyEnd(p);
      FcsPhase(s', ifg, ticks[1..], Fcs(b), rest);
    }
  }

  lemma {:induction false} LastPhase(s: System, ifg: nat, ticks: seq<Tick>, p: Packet, rest: seq<Beat>)
    requires 1 <= ifg < 256 && s.regs.state == Last && s.regs.framePtr == (|p| - 1) % 0x1_0000
    requires s.regs.tdata == p[|p| - 1] && CrcOf(s.regs.crc, Padded(p), |p| - 1)
    requires |ticks| == |Body(p)| - (|p| - 1) + ifg && !s.regs.tready && s.src.beats == rest
    ensures Wire(s, ifg, ticks) == Symbols(Body(p)[|p| - 1..]) + Idles(ifg)
    ensures Resting(End(s, ifg, ticks), rest)
    ensures Busy(s, ifg, ticks) && End(s, ifg, ticks).regs.fcs == CrcBytes(Ones(32), Padded(p))
  {
    hide CrcNext, CrcBytes, Fcs, Next, Core, Step;
    var s' := Step(s, ifg, ticks[0]);
    LastStep(s, ifg, ticks[0]);
    var b := Padded(p);
    CrcGrows(s.regs.crc, b, |p| - 1);
    ByteSent(Body(p), |p| - 1);
    assert Body(p)[|p| - 1] == p[|p| - 1];
    if PadCount(|p|) > 0 {
      PadPhase(s', ifg, ticks[1..], p, |p|, rest);
    } else {
      BodyEnd(p);
      FcsPhase(s', ifg, ticks[1..], Fcs(b), rest);
    }
  }

  lemma {:induction false} PayloadStep(s: System, ifg: nat, t: Tick)
    requires s.regs.state == Payload && s.regs.tready && s.src.started && s.src.beats != []
    ensures var s', b := Step(s, ifg, t), s.src.beats[0];
            && s'.src == Source(s.src.beats[1..], !b.last)
            && s'.regs.state == (if b.last then Last else Payload)
            && s'.regs.tready == !b.last && s'.regs.tdata == b.data
            && s'.regs.framePtr == (s.regs.framePtr + 1) % 0x1_0000
            && s'.regs.crc == CrcNext(s.regs.crc, s.regs.tdata)
            && Output(s'.regs) == Gmii(s.regs.tdata, true, false)
  {
    hide CrcNext;
  }

  lemma {:induction false} LastStep(s: System, ifg: nat, t: Tick)
    requires s.regs.state == Last && !s.regs.tready
    ensures var s', pad := Step(s, ifg, t), s.regs.framePtr < 59;
            && s'.src.beats == s.src.beats && !s'.regs.tready
            && s'.regs.state == (if pad then Pad else FcsBytes)
            && s'.regs.framePtr == (if pad then s.regs.framePtr + 1 else 0)
            && (pad ==> s'.regs.tdata == Zeros(8))
            && s'.regs.crc == CrcNext(s.regs.crc, s.regs.tdata)
            && Output(s'.regs) == Gmii(s.regs.tdata, true, false)
  {
    hide CrcNext;
  }

  lemma {:induction false} PayloadPhase(s: System, ifg: nat, ticks: seq<Tick>, p: Packet, pos: nat, rest: seq<Beat>)
    requires pos + 2 <= |p|
    requires 1 <= ifg < 256 && s.regs.state == Payload && s.regs.framePtr == pos % 0x1_0000
    requires s.regs.tdata == p[pos] && CrcOf(s.regs.crc, Padded(p), pos)
    requires s.regs.tready && s.src == Source(Beats(p)[pos + 1..] + rest, true)
    requires |ticks| == |Body(p)| - pos + ifg
    ensures Wire(s, ifg, ticks) == Symbols(Body(p)[pos..]) + Idles(ifg)
    ensures Resting(End(s, ifg, ticks), rest)
    ensures Busy(s, ifg, ticks) && End(s, ifg, ticks).regs.fcs == CrcBytes(Ones(32), Padded(p))
    decreases |ticks|
  {
    hide CrcNext, CrcBytes, Fcs, Next, Core, Step;
    var s' := Step(s, ifg, ticks[0]);
    PayloadStep(s, ifg, ticks[0]);
    var b := Padded(p);
    CrcGrows(s.regs.crc, b, pos);
    ByteSent(Body(p), pos);
    assert s.src.beats[0] == Beats(p)[pos + 1];
    assert s'.src.beats == Beats(p)[pos + 2..] + rest;
    if pos + 2 < |p| {
      PayloadPhase(s', ifg, ticks[1..], p, pos + 1, rest);
    } else {
      assert s'.src.beats == rest;
      LastPhase(s', ifg, ticks[1..], p, rest);
    }
  }

  lemma {:induction false} FrameShape(p: Packet)
    ensures |Frame(p)| == 8 + |Body(p)| && Frame(p)[8..] == Body(p)
    ensures forall k | 0 <= k < 7 :: Frame(p)[k] == ETH_PRE
    ensures Frame(p)[7] == ETH_SFD
  {
  }

  /** The same in numbers: seven bytes of 55, a byte of D5, the packet, bytes of 0. */
  lemma {:induction false} FrameValues(p: Packet)
    ensures |Frame(p)| == 12 + |Padded(p)| && |Padded(p)| >= |p|
    ensures forall k | 0 <= k < 7 :: ValueOf(Frame(p)[k]) == 0x55
    ensures ValueOf(Frame(p)[7]) == 0xd5 && Frame(p)[8..8 + |p|] == p
    ensures forall k | 8 + |p| <= k < 8 + |Padded(p)| :: ValueOf(Frame(p)[k]) == 0
  {
    DelimiterValues();
    PaddingZero(p);
    hide ValueOf, Fcs, Body, ETH_PRE, ETH_SFD;
    FrameShape(p);
    var b, f := Body(p), Frame(p);
    assert f[8..8 + |p|] == b[..|p|];
    forall k | 8 + |p| <= k < 8 + |Padded(p)| ensures ValueOf(f[k]) == 0 {
      assert f[k] == b[k - 8];
    }
  }

  lemma {:induction false} DelimiterValues()
    ensures ValueOf(ETH_PRE) == 0x55 && ValueOf(ETH_SFD) == 0xd5
  {
    ByteSum(ETH_PRE);
    ByteSum(ETH_SFD);
  }

  lemma {:induction false} PaddingZero(p: Packet)
    ensures |Body(p)| == |Padded(p)| + 4 && |Padded(p)| >= |p| && Body(p)[..|p|] == p
    ensures forall k | |p| <= k < |Padded(p)| :: ValueOf(Body(p)[k]) == 0
  {
    ByteSum(Zeros(8));
    hide ValueOf, Fcs;
  }

  lemma {:induction false} StartStep(s: System, ifg: nat, t: Tick)
    requires s.regs.state == Idle && Offers(s.src, t.go) && !s.regs.tready
    ensures var s' := Step(s, ifg, t);
            && s'.src == s.src.(started := true) && !s'.regs.tready
            && s'.regs.state == Preamble && s'.regs.framePtr == 1
            && Output(s'.regs) == Gmii(ETH_PRE, true, false)
  {
  }

  lemma {:induction false} PreambleStep(s: System, ifg: nat, t: Tick)
    requires s.regs.state == Preamble && s.regs.framePtr < 7 && !s.regs.tready
    requires s.src.started && s.src.beats != []
    ensures var s' := Step(s, ifg, t);
            && s'.src == s.src && s'.regs.tready == (s.regs.framePtr == 6)
            && s'.regs.state == Preamble && s'.regs.framePtr == s.regs.framePtr + 1
            && Output(s'.regs) == Gmii(ETH_PRE, true, false)
  {
  }

  lemma {:induction false} PreamblePhase(s: System, ifg: nat, ticks: seq<Tick>, p: Packet, rest: seq<Beat>)
    requires 1 <= ifg < 256 && s.regs.state == Preamble && 1 <= s.regs.framePtr <= 7
    requires s.regs.tready == (s.regs.framePtr == 7) && s.src == Source(Beats(p) + rest, true)
    requires |ticks| == |Frame(p)| - s.regs.framePtr + ifg
    ensures Wire(s, ifg, ticks) == Symbols(Frame(p)[s.regs.framePtr..]) + Idles(ifg)
    ensures Resting(End(s, ifg, ticks), rest)
    ensures Busy(s, ifg, ticks) && End(s, ifg, ticks).regs.fcs == CrcBytes(Ones(32), Padded(p))
    decreases |ticks|
  {
    hide Body, Next, Core, Step, Frame;
    FrameShape(p);
    if s.regs.framePtr < 7 {
      var s' := Step(s, ifg, ticks[0]);
      PreambleStep(s, ifg, ticks[0]);
      ByteSent(Frame(p), s.regs.framePtr);
      PreamblePhase(s', ifg, ticks[1..], p, rest);
    } else {
      DelimiterPhase(s, ifg, ticks, p, rest);
    }
  }

  lemma {:induction false} DelimiterPhase(s: System, ifg: nat, ticks: seq<Tick>, p: Packet, rest: seq<Beat>)
    requires 1 <= ifg < 256 && s.regs.state == Preamble && s.regs.framePtr == 7
    requires s.regs.tready && s.src == Source(Beats(p) + rest, true)
    requires |ticks| == |Frame(p)| - 7 + ifg
    ensures Wire(s, ifg, ticks) == Symbols(Frame(p)[7..]) + Idles(ifg)
    ensures Resting(End(s, ifg, ticks), rest)
    ensures Busy(s, ifg, ticks) && End(s, ifg, ticks).regs.fcs == CrcBytes(Ones(32), Padded(p))
  {
    hide CrcNext, CrcBytes, Body;
    var s' := Step(s, ifg, ticks[0]);
    ByteSent(Frame(p), 7);
    assert s.src.beats[0] == Beats(p)[0];
    assert CrcOf(Ones(32), Padded(p), 0) by { NoBytes(Ones(32)); }
    assert s'.src.beats == Beats(p)[1..] + rest;
    PayloadPhase(s', ifg, ticks[1..], p, 0, rest);
    assert Frame(p)[8..] == Body(p)[0..];
  }

  /** Wire shape and exact timing: from idle, with a packet of at least two bytes on offer, exactly
      12 + (padded length) + ifg cycles put preamble, delimiter, padded packet and check sequence
      on the wire without a break, then `ifg` idle symbols, and leave the transmitter idle with
      the rest of the source untouched and the register shown that of the padded packet, whatever
      the surroundings do meanwhile. */
  lemma {:induction false} SendPacket(s: System, ifg: nat, ticks: seq<Tick>, p: Packet, rest: seq<Beat>)
    requires 1 <= ifg < 256
    requires Resting(s, Beats(p) + rest)
    requires |ticks| == 12 + |Padded(p)| + ifg && (s.src.started || ticks[0].go)
    ensures Wire(s, ifg, ticks) == Symbols(Frame(p)) + Idles(ifg)
    ensures Resting(End(s, ifg, ticks), rest)
    ensures Busy(s, ifg, ticks) && End(s, ifg, ticks).regs.fcs == CrcBytes(Ones(32), Padded(p))
  {
    hide Body, Next, Core, Step, Frame;
    StartStep(s, ifg, ticks[0]);
    FrameShape(p);
    PreamblePhase(Step(s, ifg, ticks[0]), ifg, ticks[1..], p, rest);
    ByteSent(Frame(p), 0);
    assert Frame(p)[0..] == Frame(p);
  }

  /** With nothing on offer the transmitter stays idle. */
  lemma {:induction false} StayIdle(s: System, ifg: nat, t: Tick)
    requires s.regs.state == Idle && !s.regs.tready && !Offers(s.src, t.go)
    ensures Resting(Step(s, ifg, t), s.src.beats) && Step(s, ifg, t).src == s.src
    ensures Output(Step(s, ifg, t).regs) == IDLE_SYMBOL
  {
  }

  /** And from then on, with nothing left to send. */
  lemma {:induction false} StaysQuiet(s: System, ifg: nat, ticks: seq<Tick>)
    requires Resting(s, [])
    ensures Wire(s, ifg, ticks) == Idles(|ticks|)
    decreases |ticks|
  {
    if ticks != [] {
      StayIdle(s, ifg, ticks[0]);
      hide Step;
      StaysQuiet(Step(s, ifg, ticks[0]), ifg, ticks[1..]);
      assert Idles(|ticks|) == [IDLE_SYMBOL] + Idles(|ticks| - 1);
    }
  }

  /** A gap setting of zero is never reached: the comparison is unsigned. Any other setting ends
      the gap after that many cycles (`GapPhase`). */
  lemma {:induction false} ZeroGapNeverEnds(s: System, ticks: seq<Tick>)
    requires s.regs.state == Ifg && s.regs.ifg < 256
    ensures End(s, 0, ticks).regs.state == Ifg && Wire(s, 0, ticks) == Idles(|ticks|)
    decreases |ticks|
  {
    if ticks != [] {
      ZeroGapNeverEnds(Step(s, 0, ticks[0]), ticks[1..]);
      assert Idles(|ticks|) == [IDLE_SYMBOL] + Idles(|ticks| - 1);
    }
  }

  // ---- Whole runs ----

  function AllBeats(ps: seq<Packet>): seq<Beat> {
    if ps == [] then [] else Beats(ps[0]) + AllBeats(ps[1..])
  }

  ghost predicate Follows(w: seq<Gmii>, gap: nat, p: Packet, rest: seq<Gmii>) {
    w == Idles(gap) + (Symbols(Frame(p)) + rest)
  }

  /** The wire carries these packets' frames in order, at least `lead` idle symbols before the
      first and at least `ifg` after each, and nothing else. */
  ghost predicate Carries(w: seq<Gmii>, ps: seq<Packet>, lead: nat, ifg: nat)
    decreases |ps|
  {
    if ps == [] then lead <= |w| && w == Idles(|w|)
    else exists gap, rest :: lead <= gap && Follows(w, gap, ps[0], rest) && Carries(rest, ps[1..], ifg, ifg)
  }

  /** The part of an endless environment from cycle `i`. */
  function Ticks(env: nat -> Tick, i: nat, n: nat): (t: seq<Tick>)
    ensures |t| == n
  {
    seq(n, k requires 0 <= k < n => env(i + k))
  }

  ghost predicate OffersFrom(env: nat -> Tick, i: nat) {
    exists j :: i <= j && env(j).go
  }

  ghost predicate Willing(env: nat -> Tick) {
    forall i: nat :: OffersFrom(env, i)
  }

  lemma {:induction false} WireSplit(s: System, ifg: nat, a: seq<Tick>, b: seq<Tick>)
    ensures Wire(s, ifg, a + b) == Wire(s, ifg, a) + Wire(End(s, ifg, a), ifg, b)
    ensures End(s, ifg, a + b) == End(End(s, ifg, a), ifg, b)
    decreases |a|
  {
    hide Step;
    if a == [] {
      assert a + b == b;
    } else {
      assert (a + b)[1..] == a[1..] + b;
      WireSplit(Step(s, ifg, a[0]), ifg, a[1..], b);
    }
  }

  lemma {:induction false} TicksSplit(env: nat -> Tick, i: nat, m: nat, n: nat)
    ensures Ticks(env, i, m + n) == Ticks(env, i, m) + Ticks(env, i + m, n)
  {
  }

  /** The transmitter idles until the source makes its next offer. */
  lemma {:induction false} WaitForOffer(s: System, ifg: nat, env: nat -> Tick, i: nat, j: nat) returns (g: nat)
    requires Resting(s, s.src.beats) && s.src.beats != [] && i <= j && env(j).go
    ensures Wire(s, ifg, Ticks(env, i, g)) == Idles(g)
    ensures var e := End(s, ifg, Ticks(env, i, g));
            Resting(e, s.src.beats) && (e.src.started || env(i + g).go)
    decreases j - i
  {
    if s.src.started || env(i).go {
      g := 0;
    } else {
      var t := Ticks(env, i, 1);
      assert t[0] == env(i) && t[1..] == [];
      StayIdle(s, ifg, env(i));
      var s' := Step(s, ifg, env(i));
      var g' := WaitForOffer(s', ifg, env, i + 1, j);
      g := g' + 1;
      hide Step;
      TicksSplit(env, i, 1, g');
      assert Ticks(env, i, g)[1..] == Ticks(env, i + 1, g');
      assert Idles(g) == [IDLE_SYMBOL] + Idles(g');
    }
  }

  /** The next packet, however long its offer takes. */
  lemma {:induction false} SendOne(s: System, ifg: nat, p: Packet, rest: seq<Beat>, env: nat -> Tick, i: nat)
    returns (g: nat, k: nat)
    requires 1 <= ifg < 256 && Willing(env) && Resting(s, Beats(p) + rest)
    ensures Wire(s, ifg, Ticks(env, i, k)) == Idles(g) + (Symbols(Frame(p)) + Idles(ifg))
    ensures Resting(End(s, ifg, Ticks(env, i, k)), rest)
  {
    hide Step, Wire, End, Ticks, Padded, Frame;
    assert OffersFrom(env, i);
    var j :| i <= j && env(j).go;
    g := WaitForOffer(s, ifg, env, i, j);
    var m := 12 + |Padded(p)| + ifg;
    k := g + m;
    var s1, ticks := End(s, ifg, Ticks(env, i, g)), Ticks(env, i + g, m);
    FirstTick(env, i + g, m);
    SendPacket(s1, ifg, ticks, p, rest);
    TicksSplit(env, i, g, m);
    WireSplit(s, ifg, Ticks(env, i, g), ticks);
  }

  lemma {:induction false} FirstTick(env: nat -> Tick, i: nat, n: nat)
    requires n > 0
    ensures Ticks(env, i, n)[0] == env(i)
  {
  }

  /** From rest, a source that keeps making offers gets all its packets onto the wire, each framed
      and padded, in order and separated by at least the gap. */
  lemma {:induction false} SendAll(s: System, ifg: nat, ps: seq<Packet>, env: nat -> Tick, i: nat, lead: nat)
    returns (n: nat)
    requires 1 <= ifg < 256 && Willing(env) && lead <= ifg
    requires Resting(s, AllBeats(ps))
    ensures Resting(End(s, ifg, Ticks(env, i, n)), [])
    ensures Carries(Idles(lead) + Wire(s, ifg, Ticks(env, i, n)), ps, lead, ifg)
    decreases |ps|
  {
    hide Step, Wire, End, Ticks, Padded, Frame, Carries;
    if ps == [] {
      n := 0;
      NothingSent(s, ifg, env, i, lead);
    } else {
      var g, k := SendOne(s, ifg, ps[0], AllBeats(ps[1..]), env, i);
      var s' := End(s, ifg, Ticks(env, i, k));
      var n' := SendAll(s', ifg, ps[1..], env, i + k, ifg);
      n := k + n';
      hide AllBeats;
      var tail := Wire(s', ifg, Ticks(env, i + k, n'));
      TicksSplit(env, i, k, n');
      WireSplit(s, ifg, Ticks(env, i, k), Ticks(env, i + k, n'));
      CarriesMore(ps, lead, g, ifg, tail);
      JoinWire(lead, g, Symbols(Frame(ps[0])), ifg, tail);
    }
  }

  lemma {:induction false} NothingSent(s: System, ifg: nat, env: nat -> Tick, i: nat, lead: nat)
    ensures End(s, ifg, Ticks(env, i, 0)) == s
    ensures Carries(Idles(lead) + Wire(s, ifg, Ticks(env, i, 0)), [], lead, ifg)
  {
    assert Ticks(env, i, 0) == [];
    assert Idles(lead) + [] == Idles(lead);
  }

  lemma {:induction false} JoinWire(lead: nat, g: nat, f: seq<Gmii>, ifg: nat, tail: seq<Gmii>)
    ensures Idles(lead) + (Idles(g) + (f + Idles(ifg)) + tail) == Idles(lead + g) + (f + (Idles(ifg) + tail))
  {
    assert Idles(lead) + Idles(g) == Idles(lead + g);
    assert (f + Idles(ifg)) + tail == f + (Idles(ifg) + tail);
    assert Idles(g) + (f + Idles(ifg)) + tail == Idles(g) + (f + (Idles(ifg) + tail));
    assert Idles(lead) + (Idles(g) + (f + (Idles(ifg) + tail))) == Idles(lead + g) + (f + (Idles(ifg) + tail));
  }

  lemma {:induction false} CarriesMore(ps: seq<Packet>, lead: nat, g: nat, ifg: nat, tail: seq<Gmii>)
    requires ps != [] && Carries(Idles(ifg) + tail, ps[1..], ifg, ifg)
    ensures Carries(Idles(lead + g) + (Symbols(Frame(ps[0])) + (Idles(ifg) + tail)), ps, lead, ifg)
  {
    hide Frame;
    assert Follows(Idles(lead + g) + (Symbols(Frame(ps[0])) + (Idles(ifg) + tail)), lead + g, ps[0], Idles(ifg) + tail);
  }
}
