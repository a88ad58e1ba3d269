/** Loopback: the transmit framing's stream, as the MAC takes it, on the other input of the switch. */
module Loopback {
  import opened Bits
  import Signals
  import Tx = TxFraming
  import RxFrames
  import Filter = MacFilter
  import opened DescriptorFifo
  import Ring = RingBuffer
  import RxPackets
  import opened RxStream
  import opened RxPath
  import opened PacketMux

  /** The stream the switch is given: valid only in cycles in which the MAC is ready. */
  function Gated(r: Tx.Regs, ready: seq<bool>): (s: seq<Signals.Axis>)
    ensures |s| == |ready|
    decreases |ready|
  {
    if ready == [] then [] else
      var axis := Tx.AxisOf(r);
      [axis.(valid := axis.valid && ready[0])] + Gated(Tx.Step(r, ready[0]), ready[1..])
  }

  /** Beats on the receive side, none marked bad. */
  function Unmarked(beats: seq<Signals.Beat>): (b: seq<RxFrames.OutBeat>)
    ensures |b| == |beats|
    ensures forall i | 0 <= i < |beats| :: b[i] == RxFrames.OutBeat(beats[i].data, beats[i].last, false)
  {
    seq(|beats|, i requires 0 <= i < |beats| => RxFrames.OutBeat(beats[i].data, beats[i].last, false))
  }

  lemma {:induction false} GatedBeats(r: Tx.Regs, ready: seq<bool>)
    ensures ValidBeats(Gated(r, ready)) == Unmarked(Tx.Accepted(r, ready))
    decreases |ready|
  {
    hide Tx.Next;
    if ready != [] {
      var r' := Tx.Step(r, ready[0]);
      GatedBeats(r', ready[1..]);
      var axis := Tx.AxisOf(r);
      ValidCons(axis.(valid := axis.valid && ready[0]), Gated(r', ready[1..]));
    }
  }

  lemma {:induction false} WholeUnmarked(p: seq<Byte>)
    requires p != []
    ensures Unmarked(Signals.Beats(p)) == RxFrames.OutBeats(p, false)
  {
    forall i | 0 <= i < |p|
      ensures |RxFrames.OutBeats(p, false)| == |p| && RxFrames.OutBeats(p, false)[i] == Unmarked(Signals.Beats(p))[i]
    {
      RxFrames.OutFromAt(p, false, 0, i);
    }
    RxFrames.OutFromAt(p, false, 0, 0);
  }

  /** Ready signals up to and including the one that takes the packet's last beat. */
  ghost predicate Takes(ready: seq<bool>, n: nat) {
    ready != [] && ready[|ready| - 1] && Count(ready) == n
  }

  lemma {:induction false} LastTaken(r: Tx.Regs, p: seq<Byte>, a: nat, ready: seq<bool>)
    requires Tx.Sending(r, p, a) && Takes(ready, |p| - a)
    ensures var s := Gated(r, ready);
            s[|s| - 1].valid && s[|s| - 1].last
    decreases |ready|
  {
    hide Tx.Next, Tx.Sending;
    Tx.StepSending(r, p, a, ready[0]);
    Tx.SendingBounds(r, p, a);
    var r', later, s := Tx.Step(r, ready[0]), ready[1..], Gated(r, ready);
    assert s[1..] == Gated(r', later);
    hide Tx.Step, Gated;
    if |ready| > 1 {
      SomeReady(later);
      var a' := if ready[0] then a + 1 else a;
      LastTaken(r', p, a', later);
      assert s[|s| - 1] == s[1..][|s| - 2];
    } else {
      assert Count(later) == 0;
    }
  }

  lemma {:induction false} SomeReady(ready: seq<bool>)
    requires ready != [] && ready[|ready| - 1]
    ensures Count(ready) > 0
    decreases |ready|
  {
    if |ready| > 1 {
      SomeReady(ready[1..]);
    }
  }

  /** What the switch is given is the packet, with a gap wherever the MAC is not ready. */
  lemma {:induction false} GatedPresents(r: Tx.Regs, p: seq<Byte>, ready: seq<bool>)
    requires Tx.Sending(r, p, 0) && Takes(ready, |p|)
    ensures Filter.Presents(Gated(r, ready), p) && !RxPackets.AnyBad(Gated(r, ready))
    ensures Tx.Stopped(Tx.End(r, ready))
  {
    Tx.SendingBounds(r, p, 0);
    Tx.StreamsPacket(r, p, 0, ready);
    assert Signals.Beats(p)[0..|p|] == Signals.Beats(p);
    LastTaken(r, p, 0, ready);
    GatedBeats(r, ready);
    WholeUnmarked(p);
    hide *;
    BeatsPresent(Gated(r, ready), p, false);
  }

  /** A packet sent in loopback is in the device's own receive queue, the very bytes, as the model has
      it, however the transmitter paces it and whenever the host pops. */
  lemma {:induction false} SentToSelf(t: Tx.Regs, p: seq<Byte>, ready: seq<bool>, x: Mux, cycles: seq<Cycle>,
                                      pops: seq<bool>, r: Ring.Regs, q: Ring.Queue, b: Pointer, mac: Filter.MacAddress,
                                      promiscuous: bool) returns (b': Pointer)
    requires Tx.Sending(t, p, 0) && Takes(ready, |p|) && |p| >= 7 && |cycles| == |pops| == |ready|
    requires Settled(x, One)
    requires forall i | 0 <= i < |cycles| :: cycles[i].sel && cycles[i].in1 == Gated(t, ready)[i]
    requires Ring.Holds(r, q, b) && RxPackets.Between(q)
    requires Steady(q.packets, p, false, mac, promiscuous, Count(pops))
    ensures var ps := Popped(|q.packets|, Arrived(q.packets, p, false, mac, promiscuous), Count(pops));
            Ring.Holds(RxPackets.After(r, Framed(Switched(x, cycles), pops, mac, promiscuous)),
                       Ring.Queue(ps, [], false), b')
    ensures Tx.Stopped(Tx.End(t, ready))
  {
    assert |p| < 2048;
    GatedPresents(t, p, ready);
    assert forall i | 0 <= i < |cycles| :: Input(cycles[i], One) == Gated(t, ready)[i];
    hide Tx.Sending, Tx.Stopped, Tx.End, Gated, Filter.Presents, Ring.Holds, RxPackets.After, Framed, Settled, Steady,
         Arrived, RxPackets.AnyBad;
    Transparent(x, cycles, One, Gated(t, ready));
    b' := RingMatchesModel(r, q, b, Gated(t, ready), pops, p, mac, promiscuous);
  }
}
