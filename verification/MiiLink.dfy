/** Transmitter wired to receiver with the 4-bit interface selected. */
module MiiLink {
  import opened Bits
  import opened Crc32
  import opened Crc32Check
  import opened Signals
  import Tx = TxWire
  import opened MiiTx
  import opened MiiWire
  import GmiiTx
  import Rx = GmiiRx
  import RxFrames
  import MiiRx
  import MacLink

  /** Ready for a frame in either nibble phase. */
  ghost predicate Ready(r: Rx.Regs) { RxFrames.Listening(r) && !r.miiLocked }

  /** A cycle of reset leaves either side as the theorems below ask, the transmitter in either phase. */
  lemma {:induction false} MiiReset(t: GmiiTx.Regs, ti: GmiiTx.Inputs, src: Tx.Source, r: Rx.Regs, ri: Rx.Inputs)
    requires ti.rst && ri.rst
    ensures EitherPhase(Tx.System(GmiiTx.Next(t, ti), src), src.beats) && Ready(Rx.Next(r, ri))
  {
    MiiResetReady(t, ti, src);
    MacLink.ResetReady(t, ti, r, ri);
    hide GmiiTx.Next, Rx.Core, Rx.Delay, RxFrames.Listening;
  }

  lemma {:induction false} QuietSample(r: Rx.Regs, rx: Gmii)
    requires Ready(r) && !rx.en
    ensures var r' := MiiRx.MiiStep(r, true, rx);
            Ready(r') && RxFrames.Emitted(r') == []
  {
    hide CrcNext;
  }

  /** Samples with the enable low leave it ready and bring nothing out. */
  lemma {:induction false} HearQuiet(r: Rx.Regs, n: seq<Gmii>)
    requires Ready(r) && Quiet(n)
    ensures MiiRx.NibbleReceived(r, n) == [] && Ready(MiiRx.NibbleEnd(r, n))
    decreases |n|
  {
    hide MiiRx.MiiStep, Ready;
    if n != [] {
      QuietSample(r, n[0]);
      HearQuiet(MiiRx.MiiStep(r, true, n[0]), n[1..]);
    }
  }

  // ---- A frame ----

  const PREAMBLE_NIBBLES: seq<Nibble> := seq(15, _ => MiiRx.FIVE)

  /** The nibbles of a sent frame, as the receiver reads them. */
  lemma {:induction false} SentNibbles(p: Packet)
    ensures var b := Tx.Padded(p);
            Split(Tx.Frame(p)) == MiiRx.FrameNibbles(PREAMBLE_NIBBLES, b, Fcs(b))
  {
    var b := Tx.Padded(p);
    SplitConcat(Tx.PREAMBLE, b + Fcs(b));
    DelimiterNibbles();
    hide Split;
  }

  lemma {:induction false} SplitConcat(a: seq<Byte>, b: seq<Byte>)
    ensures Split(a + b) == Split(a) + Split(b)
  {
    if a == [] {
      assert a + b == b;
    } else {
      assert (a + b)[1..] == a[1..] + b;
      SplitConcat(a[1..], b);
    }
  }

  lemma {:induction false} DelimiterNibbles()
    ensures Split(Tx.PREAMBLE) == PREAMBLE_NIBBLES + [MiiRx.THIRTEEN]
  {
    hide Split;
    assert ETH_PRE[..4] == MiiRx.FIVE && ETH_PRE[4..] == MiiRx.FIVE;
    assert ETH_SFD[..4] == MiiRx.FIVE && ETH_SFD[4..] == MiiRx.THIRTEEN;
    var n := Split(Tx.PREAMBLE);
    forall j | 0 <= j < 16 ensures n[j] == (PREAMBLE_NIBBLES + [MiiRx.THIRTEEN])[j] {
      SplitAt(Tx.PREAMBLE, j / 2);
    }
  }

  lemma {:induction false} PreambleNibbles()
    ensures |PREAMBLE_NIBBLES| == 15 && MiiRx.THIRTEEN !in PREAMBLE_NIBBLES && PREAMBLE_NIBBLES[14] == MiiRx.FIVE
  {
    assert MiiRx.FIVE[1] != MiiRx.THIRTEEN[1] || MiiRx.FIVE[3] != MiiRx.THIRTEEN[3];
  }

  /** A frame sampled from the transmitter and the first sample after it. */
  lemma {:induction false} HearFrame(r: Rx.Regs, p: Packet, f: seq<Gmii>, quiet: Gmii)
    requires Ready(r) && ShowsAll(f, Split(Tx.Frame(p))) && !quiet.en
    ensures MiiRx.NibbleReceived(r, f + [quiet]) == RxFrames.OutBeats(Tx.Padded(p), false)
    ensures Ready(MiiRx.NibbleEnd(r, f + [quiet]))
  {
    hide RxFrames.Listening, ShowsAll, RxFrames.OutBeats, Split, Tx.Frame, Tx.Padded, MiiRx.NibbleReceived,
         MiiRx.NibbleEnd, MiiRx.FrameNibbles, PREAMBLE_NIBBLES, Fcs, Accepted;
    var b := Tx.Padded(p);
    SentNibbles(p);
    PreambleNibbles();
    PaddedSome(p);
    MiiRx.MiiReceiveFrame(r, PREAMBLE_NIBBLES, b, Fcs(b), f, quiet);
    SentFrameAccepted(b);
  }

  lemma {:induction false} PaddedSome(p: Packet)
    ensures Tx.Padded(p) != [] && |Fcs(Tx.Padded(p))| == 4
  {
  }

  // ---- All frames ----

  /** Samples that begin low are carried on without the first. */
  lemma {:induction false} DropQuiet(n: seq<Gmii>, ps: seq<Packet>, lead: nat, ifg: nat)
    requires lead >= 1 && MiiCarries(n, ps, lead, ifg)
    ensures n != [] && !n[0].en && MiiCarries(n[1..], ps, lead - 1, ifg)
  {
    hide ShowsAll, Split, Tx.Frame;
    if ps != [] {
      var gap, f, rest :| n == gap + (f + rest) && FrameAfter(gap, f, ps[0], lead)
                       && MiiCarries(rest, ps[1..], 2 * ifg, ifg);
      assert n[1..] == gap[1..] + (f + rest);
      CarriesOne(gap[1..], f, rest, ps, lead - 1, ifg);
    }
  }

  /** The receiver turns samples that carry the packets into exactly those packets. */
  lemma {:induction false} HearAll(r: Rx.Regs, n: seq<Gmii>, ps: seq<Packet>, lead: nat, ifg: nat)
    requires Ready(r) && ifg >= 1 && MiiCarries(n, ps, lead, ifg)
    ensures MiiRx.NibbleReceived(r, n) == MacLink.AllOut(ps) && Ready(MiiRx.NibbleEnd(r, n))
    decreases |ps|
  {
    hide Ready, MiiRx.NibbleReceived, MiiRx.NibbleEnd, ShowsAll, Split, Tx.Frame, Tx.Padded, RxFrames.OutBeats, Quiet;
    if ps == [] {
      HearQuiet(r, n);
    } else {
      var gap, f, rest :| n == gap + (f + rest) && FrameAfter(gap, f, ps[0], lead)
                       && MiiCarries(rest, ps[1..], 2 * ifg, ifg);
      DropQuiet(rest, ps[1..], 2 * ifg, ifg);
      hide MiiCarries;
      var r' := HearPacket(r, gap, f, rest, ps[0]);
      HearAll(r', rest[1..], ps[1..], 2 * ifg - 1, ifg);
    }
  }

  lemma {:induction false} HearPacket(r: Rx.Regs, gap: seq<Gmii>, f: seq<Gmii>, rest: seq<Gmii>, p: Packet)
    returns (r': Rx.Regs)
    requires Ready(r) && Quiet(gap) && ShowsAll(f, Split(Tx.Frame(p))) && rest != [] && !rest[0].en
    ensures Ready(r')
    ensures MiiRx.NibbleReceived(r, gap + (f + rest))
         == RxFrames.OutBeats(Tx.Padded(p), false) + MiiRx.NibbleReceived(r', rest[1..])
    ensures MiiRx.NibbleEnd(r, gap + (f + rest)) == MiiRx.NibbleEnd(r', rest[1..])
  {
    hide *;
    HearQuiet(r, gap);
    var r1 := MiiRx.NibbleEnd(r, gap);
    var unit := f + [rest[0]];
    HearFrame(r1, p, f, rest[0]);
    r' := MiiRx.NibbleEnd(r1, unit);
    assert f + rest == unit + rest[1..];
    MiiRx.NibbleSplit(r, gap, f + rest);
    MiiRx.NibbleSplit(r1, unit, rest[1..]);
    var out, later := MiiRx.NibbleReceived(r1, unit), MiiRx.NibbleReceived(r', rest[1..]);
    assert [] + (out + later) == out + later;
  }

  /** MII round trip: for any clock-enable pattern and any offers that do not cease, and a receiver in
      either nibble phase, all packets sent come out of the receiver in order, padded and good; nothing
      else ever comes out, and from some cycle on everything has. */
  lemma {:induction false} MiiRoundTrip(m: Tx.System, ifg: nat, ps: seq<Packet>, env: nat -> Cycle, r: Rx.Regs)
    returns (k: nat)
    requires 1 <= ifg < 256 && Fair(env) && EitherPhase(m, Tx.AllBeats(ps)) && Ready(r)
    ensures forall n: nat | n >= k :: MiiRx.NibbleReceived(r, Samples(m, ifg, Cycles(env, 0, n))) == MacLink.AllOut(ps)
    ensures forall n: nat :: MiiRx.NibbleReceived(r, Samples(m, ifg, Cycles(env, 0, n))) <= MacLink.AllOut(ps)
  {
    hide *;
    k := MiiDelivers(m, ifg, ps, env);
    forall n: nat | n >= k
      ensures MiiRx.NibbleReceived(r, Samples(m, ifg, Cycles(env, 0, n))) == MacLink.AllOut(ps)
    {
      HearAll(r, Samples(m, ifg, Cycles(env, 0, n)), ps, 0, ifg);
    }
    forall n: nat
      ensures MiiRx.NibbleReceived(r, Samples(m, ifg, Cycles(env, 0, n))) <= MacLink.AllOut(ps)
    {
      EnvSplit(m, ifg, env, 0, n, k);
      var now, more := Samples(m, ifg, Cycles(env, 0, n)),
                       Samples(MiiEnd(m, ifg, Cycles(env, 0, n)), ifg, Cycles(env, n, k));
      MiiRx.NibbleSplit(r, now, more);
      assert MiiRx.NibbleReceived(r, Samples(m, ifg, Cycles(env, 0, n + k))) == MacLink.AllOut(ps);
    }
  }

  /** The same of a receiver that keeps its own clock, and samples what the transmitter shows on the
      cycles in which it is enabled. */
  lemma {:induction false} MiiRoundTripEnabled(m: Tx.System, ifg: nat, ps: seq<Packet>, env: nat -> Cycle, r: Rx.Regs,
                                               n: nat, got: seq<MiiRx.Cycle>)
    requires 1 <= ifg < 256 && Fair(env) && EitherPhase(m, Tx.AllBeats(ps)) && Ready(r)
    requires MiiRx.Sampled(got) == Samples(m, ifg, Cycles(env, 0, n))
    ensures MiiRx.MiiReceived(r, got) <= MacLink.AllOut(ps)
    ensures MiiCarries(Samples(m, ifg, Cycles(env, 0, n)), ps, 0, ifg) ==>
              MiiRx.MiiReceived(r, got) == MacLink.AllOut(ps)
  {
    assert MiiRx.Same(r, r);
    hide *;
    MiiRx.EnabledOnly(r, r, got);
    var k := MiiRoundTrip(m, ifg, ps, env, r);
    if MiiCarries(Samples(m, ifg, Cycles(env, 0, n)), ps, 0, ifg) {
      HearAll(r, Samples(m, ifg, Cycles(env, 0, n)), ps, 0, ifg);
    }
  }
}
