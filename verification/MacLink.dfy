/** A transmitter wired to a receiver in 1000 Mb/s mode. */
module MacLink {
  import opened Bits
  import opened Crc32
  import opened Signals
  import Tx = GmiiTx
  import Rx = GmiiRx
  import opened TxWire
  import RxFrames

  /** What comes out of the receiver for these packets: each one whole, padded and marked good. */
  function AllOut(ps: seq<Packet>): seq<RxFrames.OutBeat> {
    if ps == [] then [] else RxFrames.OutBeats(Padded(ps[0]), false) + AllOut(ps[1..])
  }

  /** What the receiver sees in the cycles `0..|ticks|`: the transmitter's registered outputs. */
  function Seen(s: System, ifg: nat, ticks: seq<Tick>): seq<Gmii> {
    [Tx.Output(s.regs)] + Wire(s, ifg, ticks)
  }

  /** A cycle of reset leaves either side ready. */
  lemma {:induction false} ResetReady(t: Tx.Regs, ti: Tx.Inputs, r: Rx.Regs, ri: Rx.Inputs)
    requires ti.rst && ri.rst
    ensures var t', r' := Tx.Next(t, ti), Rx.Next(r, ri);
            && t'.state == Tx.Idle && !t'.tready && !t'.txEn && !t'.txEr
            && RxFrames.Listening(r') && RxFrames.Emitted(r') == [] && !r'.badFrame && !r'.badFcs && !r'.miiOdd
            && t'.fcs == r'.fcs == Ones(32)
  {
    hide Tx.Core, Tx.Advance, Rx.Core, Rx.Delay;
  }

  lemma {:induction false} FrameParts(p: Packet)
    ensures var pre := PREAMBLE[..7];
            ETH_SFD !in pre && Frame(p) == RxFrames.FrameBytes(pre, Padded(p), Fcs(Padded(p)))
  {
    var pre := PREAMBLE[..7];
    assert forall i | 0 <= i < 7 :: pre[i] == ETH_PRE;
    assert ETH_PRE[7] != ETH_SFD[7];
    assert PREAMBLE == pre + [ETH_SFD];
    assert pre + [ETH_SFD] + (Padded(p) + Fcs(Padded(p))) == pre + [ETH_SFD] + Padded(p) + Fcs(Padded(p));
  }

  lemma {:induction false} HearNothing(r: Rx.Regs, n: nat)
    requires RxFrames.Listening(r)
    ensures RxFrames.Received(r, Idles(n)) == [] && RxFrames.Listening(RxFrames.End(r, Idles(n)))
    decreases n
  {
    if n > 0 {
      RxFrames.QuietStep(r, IDLE_SYMBOL);
      hide RxFrames.Step, RxFrames.Listening;
      assert Idles(n)[1..] == Idles(n - 1);
      HearNothing(RxFrames.Step(r, IDLE_SYMBOL), n - 1);
    }
  }

  /** A wire that begins with a gap still carries the packets without its first symbol. */
  lemma {:induction false} DropIdle(w: seq<Gmii>, ps: seq<Packet>, lead: nat, ifg: nat)
    requires 1 <= lead && Carries(w, ps, lead, ifg)
    ensures w != [] && w[0] == IDLE_SYMBOL && Carries(w[1..], ps, lead - 1, ifg)
  {
    hide Frame;
    if ps == [] {
      assert w[1..] == Idles(|w| - 1);
    } else {
      var gap, rest :| lead <= gap && Follows(w, gap, ps[0], rest) && Carries(rest, ps[1..], ifg, ifg);
      var body := Symbols(Frame(ps[0])) + rest;
      assert w == [IDLE_SYMBOL] + (Idles(gap - 1) + body) by {
        assert Idles(gap) == [IDLE_SYMBOL] + Idles(gap - 1);
      }
      assert Follows(w[1..], gap - 1, ps[0], rest);
    }
  }

  /** The receiver turns any wire that carries the packets into exactly those packets. */
  lemma {:induction false} ReceiveAll(r: Rx.Regs, w: seq<Gmii>, ps: seq<Packet>, lead: nat, ifg: nat)
    requires RxFrames.Listening(r) && ifg >= 1 && Carries(w, ps, lead, ifg)
    ensures RxFrames.Received(r, w) == AllOut(ps) && RxFrames.Listening(RxFrames.End(r, w))
    decreases |ps|
  {
    hide Frame, Padded, RxFrames.Received, RxFrames.End, RxFrames.Listening;
    if ps == [] {
      HearNothing(r, |w|);
    } else {
      var gap, rest :| lead <= gap && Follows(w, gap, ps[0], rest) && Carries(rest, ps[1..], ifg, ifg);
      DropIdle(rest, ps[1..], ifg, ifg);
      hide Carries;
      var r' := HearPacket(r, w, gap, ps[0], rest);
      ReceiveAll(r', rest[1..], ps[1..], ifg - 1, ifg);
    }
  }

  /** One packet off the wire, up to and including the first idle symbol after it. */
  lemma {:induction false} HearPacket(r: Rx.Regs, w: seq<Gmii>, gap: nat, p: Packet,
                                      rest: seq<Gmii>) returns (r': Rx.Regs)
    requires RxFrames.Listening(r) && Follows(w, gap, p, rest) && rest != [] && rest[0] == IDLE_SYMBOL
    ensures RxFrames.Listening(r')
    ensures RxFrames.Received(r, w) == RxFrames.OutBeats(Padded(p), false) + RxFrames.Received(r', rest[1..])
    ensures RxFrames.End(r, w) == RxFrames.End(r', rest[1..])
  {
    hide Frame, Padded, RxFrames.Received, RxFrames.End, RxFrames.Listening, RxFrames.OutBeats;
    HearNothing(r, gap);
    var r1 := RxFrames.End(r, Idles(gap));
    HearFrame(r1, p, IDLE_SYMBOL);
    var unit := Symbols(Frame(p)) + [IDLE_SYMBOL];
    r' := RxFrames.End(r1, unit);
    assert Symbols(Frame(p)) + rest == unit + rest[1..];
    RxFrames.ReceivedSplit(r1, unit, rest[1..]);
    RxFrames.ReceivedSplit(r, Idles(gap), unit + rest[1..]);
  }

  lemma {:induction false} HearFrame(r: Rx.Regs, p: Packet, quiet: Gmii)
    requires RxFrames.Listening(r) && !quiet.en
    ensures var w := Symbols(Frame(p)) + [quiet];
            && RxFrames.Received(r, w) == RxFrames.OutBeats(Padded(p), false)
            && RxFrames.Listening(RxFrames.End(r, w))
  {
    hide Frame, Padded, RxFrames.Received, RxFrames.End, RxFrames.Listening, Fcs, RxFrames.FrameBytes;
    FrameParts(p);
    RxFrames.ReceiveIntact(r, PREAMBLE[..7], Padded(p), quiet);
  }

  /** Packets sent come out of the receiver in order, padded, whole and good: nothing else ever
      comes out, and after `n` cycles everything has. */
  lemma {:induction false} RoundTrip(s: System, r: Rx.Regs, ifg: nat, ps: seq<Packet>,
                                     env: nat -> Tick) returns (n: nat)
    requires 1 <= ifg < 256 && Willing(env)
    requires Resting(s, AllBeats(ps)) && !s.regs.txEn && RxFrames.Listening(r)
    ensures forall m: nat :: RxFrames.Received(r, Seen(s, ifg, Ticks(env, 0, m))) <= AllOut(ps)
    ensures forall m: nat | m >= n :: RxFrames.Received(r, Seen(s, ifg, Ticks(env, 0, m))) == AllOut(ps)
  {
    n := SendAll(s, ifg, ps, env, 0, 0);
    forall m: nat | m >= n
      ensures RxFrames.Received(r, Seen(s, ifg, Ticks(env, 0, m))) == AllOut(ps)
    {
      EverythingSeen(s, r, ifg, ps, env, n, m);
    }
    forall m: nat
      ensures RxFrames.Received(r, Seen(s, ifg, Ticks(env, 0, m))) <= AllOut(ps)
    {
      if m < n {
        SeenPrefix(s, r, ifg, env, m, n);
      }
    }
  }

  lemma {:induction false} EverythingSeen(s: System, r: Rx.Regs, ifg: nat, ps: seq<Packet>, env: nat -> Tick, n: nat,
                                          m: nat)
    requires 1 <= ifg < 256 && n <= m && !s.regs.txEn && RxFrames.Listening(r)
    requires Resting(End(s, ifg, Ticks(env, 0, n)), [])
    requires Carries(Idles(0) + Wire(s, ifg, Ticks(env, 0, n)), ps, 0, ifg)
    ensures RxFrames.Received(r, Seen(s, ifg, Ticks(env, 0, m))) == AllOut(ps)
  {
    hide Step, Carries, RxFrames.Received, RxFrames.Listening, Resting, RxFrames.End, Wire, End;
    var w := Wire(s, ifg, Ticks(env, 0, n));
    var k: nat := m - n;
    TicksSplit(env, 0, n, k);
    WireSplit(s, ifg, Ticks(env, 0, n), Ticks(env, n, k));
    StaysQuiet(End(s, ifg, Ticks(env, 0, n)), ifg, Ticks(env, n, k));
    var first := Tx.Output(s.regs);
    HearFirst(r, first);
    var r1 := RxFrames.End(r, [first]);
    assert Idles(0) + w == w;
    ReceiveAll(r1, w, ps, 0, ifg);
    HearNothing(RxFrames.End(r1, w), k);
    RxFrames.ReceivedSplit(r1, w, Idles(k));
    RxFrames.ReceivedSplit(r, [first], w + Idles(k));
    assert Seen(s, ifg, Ticks(env, 0, m)) == [first] + (w + Idles(k));
  }

  lemma {:induction false} HearFirst(r: Rx.Regs, rx: Gmii)
    requires RxFrames.Listening(r) && !rx.en
    ensures RxFrames.Received(r, [rx]) == [] && RxFrames.Listening(RxFrames.End(r, [rx]))
  {
    RxFrames.QuietStep(r, rx);
    hide RxFrames.Step, RxFrames.Listening;
    assert [rx][1..] == [];
  }

  lemma {:induction false} SeenPrefix(s: System, r: Rx.Regs, ifg: nat, env: nat -> Tick, m: nat, n: nat)
    requires m <= n
    ensures RxFrames.Received(r, Seen(s, ifg, Ticks(env, 0, m))) <= RxFrames.Received(r, Seen(s, ifg, Ticks(env, 0, n)))
  {
    hide Step, RxFrames.Received, Wire, End;
    var k: nat := n - m;
    TicksSplit(env, 0, m, k);
    WireSplit(s, ifg, Ticks(env, 0, m), Ticks(env, m, k));
    var a, b := Seen(s, ifg, Ticks(env, 0, m)), Wire(End(s, ifg, Ticks(env, 0, m)), ifg, Ticks(env, m, k));
    assert Seen(s, ifg, Ticks(env, 0, n)) == a + b;
    RxFrames.ReceivedSplit(r, a, b);
  }
}
