/** From a transmitter to the receive queue at the other end of the wire. */
module HostLink {
  import opened Bits
  import opened Crc32
  import opened Crc32Check
  import opened Signals
  import Tx = GmiiTx
  import TxWire
  import Rx = GmiiRx
  import RxFrames
  import RxErrors
  import MacLink
  import Filter = MacFilter
  import opened DescriptorFifo
  import Ring = RingBuffer
  import RxPackets
  import opened RxStream
  import opened RxPath
  import TxFraming
  import SendPath

  // ---- The wire of a transmitter is a wire of frames ----

  /** The frames hold these packets, padded and with their check sequences. */
  ghost predicate Holding(fs: seq<Frame>, ps: seq<Packet>) {
    |fs| == |ps| && forall i | 0 <= i < |ps| :: Fine(fs[i]) && fs[i].data == TxWire.Padded(ps[i])
                                              && Good(fs[i])
  }

  lemma {:induction false} HoldingCons(f: Frame, fs: seq<Frame>, p: Packet, ps: seq<Packet>)
    requires Holding(fs, ps) && Fine(f) && f.data == TxWire.Padded(p) && Good(f)
    ensures Holding([f] + fs, [p] + ps)
  {
    hide Fine, TxWire.Padded, Good;
  }

  lemma {:induction false} WireCons(f: Frame, fs: seq<Frame>, rest: seq<Gmii>)
    ensures WireOf([f] + fs, rest) == f.gap + (Body(f) + WireOf(fs, rest))
  {
    hide Body;
    assert ([f] + fs)[1..] == fs;
  }

  /** One packet as a frame, with the first idle symbol after it. */
  lemma {:induction false} PacketFrame(p: Packet, gap: nat) returns (f: Frame)
    requires |TxWire.Padded(p)| <= Ring.BYTES
    ensures f.gap == Idles(gap) && f.data == TxWire.Padded(p) && Good(f) && Fine(f)
    ensures Body(f) == Symbols(TxWire.Frame(p)) + [IDLE_SYMBOL]
  {
    MacLink.FrameParts(p);
    SentFrameAccepted(TxWire.Padded(p));
    f := Frame(Idles(gap), TxWire.PREAMBLE[..7], TxWire.Padded(p), Fcs(TxWire.Padded(p)), {},
               [IDLE_SYMBOL]);
    NoFlags(f);
    assert |TxWire.Padded(p)| >= 7 && |f.check| == 4;
    hide Fcs, TxWire.Padded, Accepted, TxWire.Frame, RxErrors.FlaggedFrame;
  }

  lemma {:induction false} NoFlags(f: Frame)
    requires f.flags == {} && f.quiet == [IDLE_SYMBOL] && |f.check| == 4
    ensures RxErrors.FirstFlag(DataFlags(f)) == |f.data| + 4
    ensures Body(f) == Symbols(RxFrames.FrameBytes(f.pre, f.data, f.check)) + [IDLE_SYMBOL]
  {
    var er := DataFlags(f);
    assert forall i | 0 <= i < |er| :: !er[i];
    assert RxErrors.FlaggedFrame(f.pre, f.data, f.check, PreFlags(f), er)
        == Symbols(RxFrames.FrameBytes(f.pre, f.data, f.check));
  }

  /** A wire that carries packets is a wire of their frames. */
  lemma {:induction false} FramesOf(w: seq<Gmii>, ps: seq<Packet>, lead: nat, ifg: nat)
    returns (fs: seq<Frame>, rest: nat)
    requires ifg >= 1 && TxWire.Carries(w, ps, lead, ifg)
    requires forall p | p in ps :: |TxWire.Padded(p)| <= Ring.BYTES
    ensures WireOf(fs, Idles(rest)) == w && Holding(fs, ps)
    decreases |ps|
  {
    hide TxWire.Frame, TxWire.Padded, Fine, Good, Body;
    if ps == [] {
      fs, rest := [], |w|;
    } else {
      var gap, after :| lead <= gap && TxWire.Follows(w, gap, ps[0], after)
                        && TxWire.Carries(after, ps[1..], ifg, ifg);
      MacLink.DropIdle(after, ps[1..], ifg, ifg);
      var f := PacketFrame(ps[0], gap);
      forall p | p in ps[1..] ensures |TxWire.Padded(p)| <= Ring.BYTES {
        assert p in ps;
      }
      hide *;
      var fs';
      fs', rest := FramesOf(after[1..], ps[1..], ifg - 1, ifg);
      fs := [f] + fs';
      FirstFrame(w, f, fs', Idles(rest), gap, ps[0], after);
      HoldingCons(f, fs', ps[0], ps[1..]);
      assert ps == [ps[0]] + ps[1..];
    }
  }

  lemma {:induction false} FirstFrame(w: seq<Gmii>, f: Frame, fs: seq<Frame>, rest: seq<Gmii>, gap: nat, p: Packet,
                                      after: seq<Gmii>)
    requires TxWire.Follows(w, gap, p, after) && f.gap == Idles(gap)
    requires Body(f) == Symbols(TxWire.Frame(p)) + [IDLE_SYMBOL]
    requires after != [] && after[0] == IDLE_SYMBOL && WireOf(fs, rest) == after[1..]
    ensures WireOf([f] + fs, rest) == w
  {
    hide Body, TxWire.Frame, WireOf;
    WireCons(f, fs, rest);
    var body, e := Symbols(TxWire.Frame(p)), [IDLE_SYMBOL];
    assert after == e + after[1..];
    assert body + (e + after[1..]) == (body + e) + after[1..];
  }

  lemma {:induction false} MoreQuiet(fs: seq<Frame>, rest: seq<Gmii>, more: seq<Gmii>)
    ensures WireOf(fs, rest + more) == WireOf(fs, rest) + more
    decreases |fs|
  {
    hide Body;
    if fs != [] {
      MoreQuiet(fs[1..], rest, more);
      var g, b, w := fs[0].gap, Body(fs[0]), WireOf(fs[1..], rest);
      assert g + (b + (w + more)) == (g + (b + w)) + more;
    }
  }

  lemma {:induction false} LongerGap(f: Frame, s: Gmii)
    requires Fine(f) && !s.en
    ensures var g := f.(gap := [s] + f.gap);
            Fine(g) && (Good(g) <==> Good(f)) && Body(g) == Body(f)
  {
    var g := f.(gap := [s] + f.gap);
    assert DataFlags(g) == DataFlags(f) && PreFlags(g) == PreFlags(f);
    assert g.gap + g.quiet == [s] + (f.gap + f.quiet);
    hide Accepted, RxErrors.FlaggedFrame, RxErrors.FirstFlag;
  }

  /** A quiet symbol before the rest belongs to the first gap. */
  lemma {:induction false} QuietFirst(fs: seq<Frame>, ps: seq<Packet>, rest: seq<Gmii>, s: Gmii)
    returns (fs': seq<Frame>, rest': seq<Gmii>)
    requires Holding(fs, ps) && !s.en && forall x | x in rest :: !x.en
    ensures WireOf(fs', rest') == [s] + WireOf(fs, rest) && Holding(fs', ps)
    ensures forall x | x in rest' :: !x.en
    ensures forall more: seq<Gmii> :: WireOf(fs', rest' + more) == [s] + (WireOf(fs, rest) + more)
  {
    hide Good, TxWire.Padded;
    if fs == [] {
      fs', rest' := fs, [s] + rest;
    } else {
      var f := fs[0].(gap := [s] + fs[0].gap);
      LongerGap(fs[0], s);
      hide Fine, Body;
      fs', rest' := [f] + fs[1..], rest;
      WireCons(f, fs[1..], rest);
      assert ([s] + fs[0].gap) + (Body(f) + WireOf(fs[1..], rest)) == [s] + WireOf(fs, rest);
    }
    forall more: seq<Gmii> ensures WireOf(fs', rest' + more) == [s] + (WireOf(fs, rest) + more) {
      MoreQuiet(fs', rest', more);
    }
  }

  /** Whatever packets a transmitter is given, and whenever, its wire is one of their frames. */
  lemma {:induction false} SentFrames(s: TxWire.System, ifg: nat, ps: seq<Packet>, env: nat -> TxWire.Tick)
    returns (n: nat, fs: seq<Frame>, rest: seq<Gmii>)
    requires 1 <= ifg < 256 && TxWire.Willing(env) && TxWire.Resting(s, TxWire.AllBeats(ps)) && !s.regs.txEn
    requires forall p | p in ps :: |TxWire.Padded(p)| <= Ring.BYTES
    ensures Holding(fs, ps) && forall x | x in rest :: !x.en
    ensures forall k: nat :: MacLink.Seen(s, ifg, TxWire.Ticks(env, 0, n + k)) == WireOf(fs, rest + Idles(k))
  {
    n := TxWire.SendAll(s, ifg, ps, env, 0, 0);
    var w := TxWire.Wire(s, ifg, TxWire.Ticks(env, 0, n));
    assert Idles(0) + w == w;
    var fs0, rest0 := FramesOf(w, ps, 0, ifg);
    fs, rest := QuietFirst(fs0, ps, Idles(rest0), Tx.Output(s.regs));
    hide *;
    forall k: nat
      ensures MacLink.Seen(s, ifg, TxWire.Ticks(env, 0, n + k)) == WireOf(fs, rest + Idles(k))
    {
      SeenLater(s, ifg, env, n, k);
      assert WireOf(fs, rest + Idles(k)) == [Tx.Output(s.regs)] + (w + Idles(k));
    }
  }

  /** Once the source has nothing left the wire stays silent. */
  lemma {:induction false} SeenLater(s: TxWire.System, ifg: nat, env: nat -> TxWire.Tick, n: nat, k: nat)
    requires 1 <= ifg < 256 && TxWire.Resting(TxWire.End(s, ifg, TxWire.Ticks(env, 0, n)), [])
    ensures MacLink.Seen(s, ifg, TxWire.Ticks(env, 0, n + k))
         == [Tx.Output(s.regs)] + (TxWire.Wire(s, ifg, TxWire.Ticks(env, 0, n)) + Idles(k))
  {
    hide TxWire.Wire, TxWire.End, TxWire.Ticks, TxWire.Step, TxWire.Resting;
    TxWire.TicksSplit(env, 0, n, k);
    TxWire.WireSplit(s, ifg, TxWire.Ticks(env, 0, n), TxWire.Ticks(env, n, k));
    TxWire.StaysQuiet(TxWire.End(s, ifg, TxWire.Ticks(env, 0, n)), ifg, TxWire.Ticks(env, n, k));
  }

  // ---- Without pops ----

  /** The model's packets after packets that all arrive intact. */
  function AllArrived(qs: seq<Ring.Packet>, ps: seq<Packet>, mac: Filter.MacAddress,
                      promiscuous: bool): seq<Ring.Packet>
    decreases |ps|
  {
    if ps == [] then qs else
      var p := TxWire.Padded(ps[0]);
      AllArrived(RxPackets.ModelReceive(qs, Filter.Classify(p, mac), p, promiscuous), ps[1..], mac, promiscuous)
  }

  function NoPops(n: nat): (p: seq<bool>)
    ensures |p| == n
  {
    seq(n, _ => false)
  }

  lemma {:induction false} NoneThere(pops: seq<bool>)
    requires forall k | 0 <= k < |pops| :: !pops[k]
    ensures Count(pops) == 0
  {
    if pops != [] {
      NoneThere(pops[1..]);
    }
  }

  lemma {:induction false} NoPopModel(qs: seq<Ring.Packet>, fs: seq<Frame>, ps: seq<Packet>, rest: seq<Gmii>,
                                      pops: seq<bool>, mac: Filter.MacAddress, promiscuous: bool)
    requires |pops| == |WireOf(fs, rest)| && (forall k | 0 <= k < |pops| :: !pops[k]) && Holding(fs, ps)
    ensures SteadyPops(qs, fs, rest, pops, mac, promiscuous)
    ensures WireModel(qs, fs, rest, pops, mac, promiscuous) == AllArrived(qs, ps, mac, promiscuous)
    decreases |fs|
  {
    hide Filter.Classify, TxWire.Padded, Good, Fine, Body, Count, RxPackets.ModelReceive, FrameModel, Steady,
         Holding;
    if fs == [] {
      NoneThere(pops);
      SameCount(fs, ps);
    } else {
      HoldingParts(fs, ps);
      var f, fs', ps' := fs[0], fs[1..], ps[1..];
      var n := |f.gap| + |Body(f)|;
      var before, during, after := pops[..|f.gap|], pops[|f.gap|..n], pops[n..];
      NoneThere(before);
      NoneThere(during);
      IntactModel(qs, f, before, during, mac, promiscuous);
      var qs' := FrameModel(qs, f, before, during, mac, promiscuous);
      assert |after| == |WireOf(fs', rest)|;
      assert AllArrived(qs, ps, mac, promiscuous) == AllArrived(qs', ps', mac, promiscuous);
      assert SteadyPops(qs', fs', rest, after, mac, promiscuous) ==> SteadyPops(qs, fs, rest, pops, mac, promiscuous);
      assert WireModel(qs, fs, rest, pops, mac, promiscuous) == WireModel(qs', fs', rest, after, mac, promiscuous);
      hide *;
      NoPopModel(qs', fs', ps', rest, after, mac, promiscuous);
    }
  }

  lemma {:induction false} SameCount(fs: seq<Frame>, ps: seq<Packet>)
    requires Holding(fs, ps)
    ensures |fs| == |ps|
  {
  }

  lemma {:induction false} HoldingParts(fs: seq<Frame>, ps: seq<Packet>)
    requires Holding(fs, ps) && fs != []
    ensures |fs| == |ps| && Holding(fs[1..], ps[1..])
    ensures fs[0].data == TxWire.Padded(ps[0]) && Good(fs[0])
  {
    hide Fine, TxWire.Padded, Good;
  }

  lemma {:induction false} IntactModel(qs: seq<Ring.Packet>, f: Frame, before: seq<bool>, during: seq<bool>,
                                       mac: Filter.MacAddress, promiscuous: bool)
    requires Count(before) == 0 && Count(during) == 0 && Good(f)
    ensures Steady(Popped(|qs|, qs, Count(before)), f.data, !Good(f), mac, promiscuous,
                   Count(during))
    ensures FrameModel(qs, f, before, during, mac, promiscuous)
         == RxPackets.ModelReceive(qs, Filter.Classify(f.data, mac), f.data, promiscuous)
  {
    hide Filter.Classify, Good, Count, RxPackets.ModelReceive;
  }

  /** What the far end sees in the cycles `0..j`, and in cycle `j`. */
  function Until(s: TxWire.System, ifg: nat, env: nat -> TxWire.Tick, j: nat): (w: seq<Gmii>)
    ensures |w| == j + 1
  {
    MacLink.Seen(s, ifg, TxWire.Ticks(env, 0, j))
  }

  /** A schedule of pops for the whole wire, none too late for a packet. */
  ghost predicate InTime(fs: seq<Frame>, rest: seq<Gmii>, q: Ring.Queue, pops: seq<bool>, mac: Filter.MacAddress,
                         promiscuous: bool)
  {
    |pops| == |WireOf(fs, rest)| && SteadyPops(q.packets, fs, rest, pops, mac, promiscuous)
  }

  /** MAC, filter and ring together come to hold these packets, and no more, when the wire shows `w`. */
  ghost predicate Leaves(m: Rx.Regs, w: seq<Gmii>, r: Ring.Regs, pops: seq<bool>, mac: Filter.MacAddress,
                         promiscuous: bool, ps: seq<Ring.Packet>)
  {
    && |pops| == |w|
    && exists b :: Ring.Holds(RxPackets.After(r, Framed(Outputs(m, w), pops, mac, promiscuous)),
                              Ring.Queue(ps, [], false), b)
  }

  lemma {:induction false} FramesLeave(m: Rx.Regs, fs: seq<Frame>, rest: seq<Gmii>, pops: seq<bool>,
                                       r: Ring.Regs, q: Ring.Queue, b: Pointer, mac: Filter.MacAddress,
                                       promiscuous: bool)
    requires RxFrames.Listening(m) && (forall f | f in fs :: Fine(f)) && forall x | x in rest :: !x.en
    requires Ring.Holds(r, q, b) && RxPackets.Between(q) && InTime(fs, rest, q, pops, mac, promiscuous)
    ensures Leaves(m, WireOf(fs, rest), r, pops, mac, promiscuous,
                   WireModel(q.packets, fs, rest, pops, mac, promiscuous))
  {
    hide RxFrames.Listening, Ring.Holds, WireOf, Fine, RxPath.Outputs, Framed, WireModel, SteadyPops;
    var b' := WireToQueue(m, fs, rest, pops, r, q, b, mac, promiscuous);
  }

  lemma {:induction false} HoldingFine(fs: seq<Frame>, ps: seq<Packet>, rest: seq<Gmii>, k: nat)
    requires Holding(fs, ps) && forall x | x in rest :: !x.en
    ensures (forall f | f in fs :: Fine(f)) && forall x | x in rest + Idles(k) :: !x.en
  {
    hide Fine, TxWire.Padded, Good;
  }

  /** Any list of packets, sent at any times, is in the receive queue at the other end as the model has
      it, from some cycle on and for good; whenever the host there pops, and so if it never does. */
  lemma {:induction false} SentToQueue(s: TxWire.System, ifg: nat, ps: seq<Packet>, env: nat -> TxWire.Tick,
                                       m: Rx.Regs, r: Ring.Regs, q: Ring.Queue, b: Pointer, mac: Filter.MacAddress,
                                       promiscuous: bool)
    returns (n: nat, fs: seq<Frame>, rest: seq<Gmii>)
    requires 1 <= ifg < 256 && TxWire.Willing(env) && TxWire.Resting(s, TxWire.AllBeats(ps)) && !s.regs.txEn
    requires forall p | p in ps :: |TxWire.Padded(p)| <= Ring.BYTES
    requires RxFrames.Listening(m) && Ring.Holds(r, q, b) && RxPackets.Between(q)
    ensures Holding(fs, ps)
    ensures forall j: nat, pops | n <= j && InTime(fs, Silence(rest, n, j), q, pops, mac, promiscuous) ::
              && Until(s, ifg, env, j) == WireOf(fs, Silence(rest, n, j))
              && Leaves(m, Until(s, ifg, env, j), r, pops, mac, promiscuous,
                        WireModel(q.packets, fs, Silence(rest, n, j), pops, mac, promiscuous))
    ensures forall j: nat | n <= j :: Leaves(m, Until(s, ifg, env, j), r, NoPops(j + 1), mac, promiscuous,
                                             AllArrived(q.packets, ps, mac, promiscuous))
  {
    n, fs, rest := SentFrames(s, ifg, ps, env);
    hide *;
    forall j: nat | n <= j
      ensures Until(s, ifg, env, j) == WireOf(fs, Silence(rest, n, j))
      ensures forall f | f in fs :: Fine(f)
      ensures forall x | x in Silence(rest, n, j) :: !x.en
    {
      UntilIs(s, ifg, env, j);
      SilenceIs(rest, n, j);
      var k: nat := j - n;
      assert MacLink.Seen(s, ifg, TxWire.Ticks(env, 0, n + k)) == WireOf(fs, rest + Idles(k));
      HoldingFine(fs, ps, rest, k);
    }
    forall j: nat, pops | n <= j && InTime(fs, Silence(rest, n, j), q, pops, mac, promiscuous)
      ensures Leaves(m, Until(s, ifg, env, j), r, pops, mac, promiscuous,
                     WireModel(q.packets, fs, Silence(rest, n, j), pops, mac, promiscuous))
    {
      FramesLeave(m, fs, Silence(rest, n, j), pops, r, q, b, mac, promiscuous);
    }
    forall j: nat | n <= j
      ensures Leaves(m, Until(s, ifg, env, j), r, NoPops(j + 1), mac, promiscuous,
                     AllArrived(q.packets, ps, mac, promiscuous))
    {
      NoneAt(j + 1);
      NoPopModel(q.packets, fs, ps, Silence(rest, n, j), NoPops(j + 1), mac, promiscuous);
      InTimeIs(fs, Silence(rest, n, j), q, NoPops(j + 1), mac, promiscuous);
    }
  }

  /** The silence after the last frame, by cycle `j`. */
  function Silence(rest: seq<Gmii>, n: nat, j: nat): seq<Gmii> { rest + Idles(if n <= j then j - n else 0) }

  lemma {:induction false} SilenceIs(rest: seq<Gmii>, n: nat, j: nat)
    requires n <= j
    ensures Silence(rest, n, j) == rest + Idles(j - n)
  {
  }

  lemma {:induction false} UntilIs(s: TxWire.System, ifg: nat, env: nat -> TxWire.Tick, j: nat)
    ensures Until(s, ifg, env, j) == MacLink.Seen(s, ifg, TxWire.Ticks(env, 0, j))
  {
  }

  lemma {:induction false} NoneAt(n: nat)
    ensures forall k | 0 <= k < n :: !NoPops(n)[k]
  {
  }

  lemma {:induction false} InTimeIs(fs: seq<Frame>, rest: seq<Gmii>, q: Ring.Queue, pops: seq<bool>,
                                    mac: Filter.MacAddress, promiscuous: bool)
    requires |pops| == |WireOf(fs, rest)| && SteadyPops(q.packets, fs, rest, pops, mac, promiscuous)
    ensures InTime(fs, rest, q, pops, mac, promiscuous)
  {
  }

  // ---- From host to host ----

  /** What the wire shows of a loaded packet, as a frame. */
  ghost function LoadedFrame(d: SendPath.Device, p: Packet): (f: Frame) {
    Frame(SendPath.Shown(d, SendPath.DrainTime(d.mac)), TxWire.PREAMBLE[..7], p, Fcs(p), {}, [IDLE_SYMBOL])
  }

  /** The gap the MAC may still have to end is silent. */
  lemma {:induction false} DrainSilent(d: SendPath.Device, p: Packet)
    requires SendPath.Loaded(d, p) && SendPath.Silent(d)
    ensures forall x | x in SendPath.Shown(d, SendPath.DrainTime(d.mac)) :: !x.en
    decreases SendPath.DrainTime(d.mac)
  {
    hide SendPath.Clocked, TxFraming.Sending;
    if d.mac.state != Tx.Idle {
      SendPath.DrainStep(d, p);
      GapSilent(d);
      DrainSilent(SendPath.Clocked(d, TxFraming.NoWrite), p);
    }
  }

  lemma {:induction false} GapSilent(d: SendPath.Device)
    requires d.mac.state == Tx.Ifg
    ensures var d' := SendPath.Clocked(d, TxFraming.NoWrite);
            SendPath.Silent(d') && !Tx.Output(d'.mac).en
  {
    hide CrcNext, TxFraming.Next, TxFraming.ByteAt;
  }

  lemma {:induction false} LoadedBody(d: SendPath.Device, p: Packet)
    requires SendPath.Loaded(d, p) && 60 <= |p| <= 1518 && SendPath.Silent(d)
    ensures var n := SendPath.DrainTime(d.mac) + (12 + |p| + SendPath.IFG);
            SendPath.Shown(d, n) == WireOf([LoadedFrame(d, p)], Idles(SendPath.IFG - 1))
    ensures Fine(LoadedFrame(d, p)) && Good(LoadedFrame(d, p))
  {
    SendPath.LoadedIsSent(d, p);
    DrainSilent(d, p);
    SentFrameAccepted(p);
    WholeFrame(p);
    var f := LoadedFrame(d, p);
    NoFlags(f);
    assert |Fcs(p)| == 4 && 7 <= |p| <= Ring.BYTES;
    hide SendPath.Loaded, SendPath.Shown, SendPath.Run, Fcs, Accepted, SendPath.DrainTime, SendPath.Idle;
    assert [f][1..] == [];
    assert Idles(SendPath.IFG) == [IDLE_SYMBOL] + Idles(SendPath.IFG - 1);
    hide RxFrames.FrameBytes, TxWire.PREAMBLE;
    var body := Symbols(RxFrames.FrameBytes(TxWire.PREAMBLE[..7], p, Fcs(p)));
    assert body + ([IDLE_SYMBOL] + Idles(SendPath.IFG - 1)) == (body + [IDLE_SYMBOL]) + Idles(SendPath.IFG - 1);
  }

  /** A packet that needs no padding. */
  lemma {:induction false} WholeFrame(p: Packet)
    requires 60 <= |p| <= 1518
    ensures |TxWire.PREAMBLE| == 8 && ETH_SFD !in TxWire.PREAMBLE[..7]
    ensures TxWire.PREAMBLE + p + Fcs(p) == RxFrames.FrameBytes(TxWire.PREAMBLE[..7], p, Fcs(p))
  {
    MacLink.FrameParts(p);
    TxWire.PaddedLength(p);
    assert TxWire.Padded(p) == p;
    hide Fcs, TxWire.Padded;
    assert TxWire.PREAMBLE + p + Fcs(p) == TxWire.Frame(p);
  }

  /** After the wire has shown `w` the ring holds these packets, its oldest byte at `b`, and receiver and
      filter are ready for more. */
  ghost predicate Hears(m: Rx.Regs, w: seq<Gmii>, r: Ring.Regs, pops: seq<bool>, mac: Filter.MacAddress,
                        promiscuous: bool, ps: seq<Ring.Packet>, b: Pointer)
  {
    && |pops| == |w| && RxFrames.Listening(RxFrames.End(m, w))
    && Filter.After(Filter.RESET, Outputs(m, w), mac) == Filter.RESET
    && Ring.Holds(RxPackets.After(r, Framed(Outputs(m, w), pops, mac, promiscuous)), Ring.Queue(ps, [], false), b)
  }

  lemma {:induction false} HearsIs(m: Rx.Regs, w: seq<Gmii>, r: Ring.Regs, pops: seq<bool>, mac: Filter.MacAddress,
                                   promiscuous: bool, ps: seq<Ring.Packet>, b: Pointer)
    requires |pops| == |w| && RxFrames.Listening(RxFrames.End(m, w))
    requires Filter.After(Filter.RESET, Outputs(m, w), mac) == Filter.RESET
    requires Ring.Holds(RxPackets.After(r, Framed(Outputs(m, w), pops, mac, promiscuous)), Ring.Queue(ps, [], false), b)
    ensures Hears(m, w, r, pops, mac, promiscuous, ps, b)
  {
  }

  /** Host to host: what `SendPacket` has loaded on one side is in the queue on the other as the model
      has it, the very bytes, whenever the host there pops; and both sides are as they need to be for
      the next. */
  lemma {:induction false} HostToHost(d: SendPath.Device, p: Packet, m: Rx.Regs, pops: seq<bool>, r: Ring.Regs,
                                      q: Ring.Queue, b: Pointer, mac: Filter.MacAddress,
                                      promiscuous: bool) returns (b': Pointer)
    requires SendPath.Loaded(d, p) && 60 <= |p| <= 1518 && SendPath.Silent(d)
    requires RxFrames.Listening(m) && Ring.Holds(r, q, b) && RxPackets.Between(q)
    requires InTime([LoadedFrame(d, p)], Idles(SendPath.IFG - 1), q, pops, mac, promiscuous)
    ensures var n := SendPath.DrainTime(d.mac) + (12 + |p| + SendPath.IFG);
            && SendPath.Idle(SendPath.Run(d, n)) && SendPath.Silent(SendPath.Run(d, n))
            && Hears(m, SendPath.Shown(d, n), r, pops, mac, promiscuous,
                     WireModel(q.packets, [LoadedFrame(d, p)], Idles(SendPath.IFG - 1), pops, mac, promiscuous), b')
  {
    hide *;
    LoadedBody(d, p);
    LoadedLeaves(d, p);
    var f, rest := LoadedFrame(d, p), Idles(SendPath.IFG - 1);
    TimeIs([f], rest, q, pops, mac, promiscuous);
    b' := WireToQueue(m, [f], rest, pops, r, q, b, mac, promiscuous);
    var ps := WireModel(q.packets, [f], rest, pops, mac, promiscuous);
    HearsIs(m, WireOf([f], rest), r, pops, mac, promiscuous, ps, b');
  }

  lemma {:induction false} TimeIs(fs: seq<Frame>, rest: seq<Gmii>, q: Ring.Queue, pops: seq<bool>,
                                  mac: Filter.MacAddress, promiscuous: bool)
    requires InTime(fs, rest, q, pops, mac, promiscuous)
    ensures |pops| == |WireOf(fs, rest)| && SteadyPops(q.packets, fs, rest, pops, mac, promiscuous)
  {
  }

  lemma {:induction false} LoadedLeaves(d: SendPath.Device, p: Packet)
    requires SendPath.Loaded(d, p) && 60 <= |p| <= 1518
    ensures var n := SendPath.DrainTime(d.mac) + (12 + |p| + SendPath.IFG);
            SendPath.Idle(SendPath.Run(d, n)) && SendPath.Silent(SendPath.Run(d, n))
    ensures SendPath.IFG == 12 && forall x | x in Idles(SendPath.IFG - 1) :: !x.en
  {
    hide SendPath.Run, SendPath.Shown, SendPath.Idle, SendPath.DrainTime, SendPath.Loaded, Fcs;
    SendPath.LoadedIsSent(d, p);
  }

  /** With no pop, that is the model's decision on the packet. */
  lemma {:induction false} LoadedArrives(d: SendPath.Device, p: Packet, q: Ring.Queue, pops: seq<bool>,
                                         mac: Filter.MacAddress, promiscuous: bool)
    requires SendPath.Loaded(d, p) && 60 <= |p| <= 1518 && SendPath.Silent(d)
    requires |pops| == SendPath.DrainTime(d.mac) + (12 + |p| + SendPath.IFG)
    requires forall k | 0 <= k < |pops| :: !pops[k]
    ensures InTime([LoadedFrame(d, p)], Idles(SendPath.IFG - 1), q, pops, mac, promiscuous)
    ensures WireModel(q.packets, [LoadedFrame(d, p)], Idles(SendPath.IFG - 1), pops, mac, promiscuous)
         == RxPackets.ModelReceive(q.packets, Filter.Classify(p, mac), p, promiscuous)
  {
    LoadedBody(d, p);
    var f, rest := LoadedFrame(d, p), Idles(SendPath.IFG - 1);
    assert |pops| == |WireOf([f], rest)|;
    hide *;
    LoadedHolding(d, p);
    NoPopModel(q.packets, [f], [p], rest, pops, mac, promiscuous);
    InTimeIs([f], rest, q, pops, mac, promiscuous);
    OneArrived(q.packets, p, mac, promiscuous);
  }

  lemma {:induction false} LoadedHolding(d: SendPath.Device, p: Packet)
    requires 60 <= |p| <= 1518 && Fine(LoadedFrame(d, p)) && Good(LoadedFrame(d, p))
    ensures Holding([LoadedFrame(d, p)], [p])
  {
    TxWire.PaddedLength(p);
    assert TxWire.Padded(p) == p;
    hide TxWire.Padded, Fine, Good, Fcs, SendPath.Shown;
  }

  lemma {:induction false} OneArrived(qs: seq<Ring.Packet>, p: Packet, mac: Filter.MacAddress, promiscuous: bool)
    requires 60 <= |p| <= 1518
    ensures AllArrived(qs, [p], mac, promiscuous)
         == RxPackets.ModelReceive(qs, Filter.Classify(p, mac), p, promiscuous)
  {
    TxWire.PaddedLength(p);
    assert TxWire.Padded(p) == p;
    hide TxWire.Padded, Filter.Classify, RxPackets.ModelReceive;
    assert [p][1..] == [];
  }
}
