/** From the wire to the receive queue, and from one host's send to the other's queue. */
module RxPath {
  import opened Bits
  import opened Crc32
  import opened Crc32Check
  import opened Signals
  import Mac = GmiiRx
  import opened RxFrames
  import opened RxErrors
  import Filter = MacFilter
  import opened DescriptorFifo
  import opened RingBuffer
  import opened RxPackets
  import opened RxStream
  import opened PacketMux

  /** The MAC's output stream, cycle by cycle, while the wire shows `w`. */
  function Outputs(r: Mac.Regs, w: seq<Gmii>): (cs: seq<Axis>)
    ensures |cs| == |w|
    decreases |w|
  {
    if w == [] then [] else [RxFrames.Step(r, w[0]).out] + Outputs(RxFrames.Step(r, w[0]), w[1..])
  }

  /** The valid beats of a stream. */
  function ValidBeats(cs: seq<Axis>): seq<OutBeat> {
    if cs == [] then [] else
      var c := cs[|cs| - 1];
      ValidBeats(cs[..|cs| - 1]) + if c.valid then [OutBeat(c.data, c.last, c.user)] else []
  }

  lemma {:induction false} ValidCons(c: Axis, cs: seq<Axis>)
    ensures ValidBeats([c] + cs) == (if c.valid then [OutBeat(c.data, c.last, c.user)] else []) + ValidBeats(cs)
  {
    if cs == [] {
      assert [c] + cs == [c] && [c][..0] == [];
    } else {
      var n := |cs| - 1;
      assert ([c] + cs)[..n + 1] == [c] + cs[..n];
      ValidCons(c, cs[..n]);
    }
  }

  lemma {:induction false} OutputsValid(r: Mac.Regs, w: seq<Gmii>)
    ensures ValidBeats(Outputs(r, w)) == Received(r, w)
    decreases |w|
  {
    hide RxFrames.Step;
    if w != [] {
      var r' := RxFrames.Step(r, w[0]);
      OutputsValid(r', w[1..]);
      ValidCons(r'.out, Outputs(r', w[1..]));
    }
  }

  /** Bytes and flags of the valid beats. */
  lemma {:induction false} BeatsOf(cs: seq<Axis>)
    ensures |Filter.Bytes(cs)| == |ValidBeats(cs)|
    ensures forall i | 0 <= i < |ValidBeats(cs)| :: Filter.Bytes(cs)[i] == ValidBeats(cs)[i].data
    ensures Filter.NoneLast(cs) <==> forall b | b in ValidBeats(cs) :: !b.last
    ensures AnyBad(cs) <==> exists b :: b in ValidBeats(cs) && b.user
  {
    if cs != [] {
      var n := |cs| - 1;
      BeatsOf(cs[..n]);
      BeatsSnoc(cs[..n], cs[n]);
      assert cs[..n] + [cs[n]] == cs;
    }
  }

  lemma {:induction false} BeatsSnoc(cs: seq<Axis>, c: Axis)
    ensures Filter.NoneLast(cs + [c]) <==> Filter.NoneLast(cs) && !(c.valid && c.last)
    ensures AnyBad(cs + [c]) <==> AnyBad(cs) || (c.valid && c.user)
  {
    assert forall x :: x in cs + [c] <==> x in cs || x == c;
  }

  /** The counter of check bytes has two bits. */
  predicate Counted(r: Mac.Regs) { r.state == Mac.Crc ==> r.crcCnt <= 3 }

  lemma {:induction false} CountedStep(r: Mac.Regs, rx: Gmii)
    requires Counted(r)
    ensures Counted(RxFrames.Step(r, rx))
  {
    hide CrcNext, Mac.FcsGood;
  }

  /** The step that ends a frame puts its last beat out. */
  lemma {:induction false} LastStep(r: Mac.Regs, rx: Gmii)
    requires Counted(r) && RxFrames.Step(r, rx).state == Mac.Crc && RxFrames.Step(r, rx).crcCnt == 0
    ensures RxFrames.Step(r, rx).out.valid && RxFrames.Step(r, rx).out.last
  {
    hide CrcNext, Mac.FcsGood;
  }

  lemma {:induction false} LastOutput(r: Mac.Regs, w: seq<Gmii>) returns (before: Mac.Regs)
    requires w != [] && Counted(r)
    ensures Outputs(r, w)[|w| - 1] == RxFrames.End(r, w).out
    ensures Counted(before) && RxFrames.End(r, w) == RxFrames.Step(before, w[|w| - 1])
    decreases |w|
  {
    hide RxFrames.Step, Counted;
    if |w| > 1 {
      CountedStep(r, w[0]);
      before := LastOutput(RxFrames.Step(r, w[0]), w[1..]);
    } else {
      before := r;
      assert w[1..] == [];
    }
  }

  lemma {:induction false} BeatsPresent(cs: seq<Axis>, data: seq<Byte>, bad: bool)
    requires data != [] && cs != [] && ValidBeats(cs) == OutBeats(data, bad)
    requires cs[|cs| - 1].valid && cs[|cs| - 1].last
    ensures Filter.Presents(cs, data) && (AnyBad(cs) <==> bad)
  {
    var n, b := |cs| - 1, OutBeats(data, bad);
    forall i | 0 <= i < |data|
      ensures |b| == |data| && b[i] == OutBeat(data[i], i == |data| - 1, i == |data| - 1 && bad)
    {
      OutFromAt(data, bad, 0, i);
    }
    assert |b| == |data| by { OutFromAt(data, bad, 0, 0); }
    BeatsOf(cs);
    BeatsOf(cs[..n]);
    hide OutBeats;
    var before := ValidBeats(cs[..n]);
    assert before == b[..|data| - 1];
    assert Filter.Bytes(cs) == data;
    assert b[|data| - 1] in b;
  }

  /** The MAC's output while a frame arrives is one packet, ending as data valid drops, if nothing but
      the preamble is flagged. */
  lemma {:induction false} FramePresents(r: Mac.Regs, pre: seq<Byte>, data: seq<Byte>, check: seq<Byte>,
                                         preEr: seq<bool>, er: seq<bool>, quiet: Gmii)
    requires Listening(r) && ETH_SFD !in pre && data != [] && |check| == 4 && !quiet.en
    requires |preEr| == |pre| && |er| == |data| + 4 && forall i | 0 <= i < |er| :: !er[i]
    ensures var w := FlaggedFrame(pre, data, check, preEr, er) + [quiet];
            var cs := Outputs(r, w);
            && Filter.Presents(cs, data) && (AnyBad(cs) <==> !Accepted(data + check))
            && Listening(RxFrames.End(r, w))
  {
    hide Outputs, RxFrames.End, Received, OutBeats, Accepted, FrameBytes, ValidBeats, Filter.Presents, CrcBytes,
         FlaggedFrame;
    var w := FlaggedFrame(pre, data, check, preEr, er) + [quiet];
    PreambleErrors(r, pre, data, check, preEr, er, quiet);
    var e := RxFrames.End(r, w);
    assert Listening(e) && e.state == Mac.Crc && e.crcCnt == 0 && Counted(r) && w != [];
    hide *;
    OutputsValid(r, w);
    var before := LastOutput(r, w);
    LastStep(before, w[|w| - 1]);
    BeatsPresent(Outputs(r, w), data, !Accepted(data + check));
  }

  /** A packet's beats, and then none. */
  lemma {:induction false} LastBeat(cs: seq<Axis>, p: seq<Byte>, bad: bool) returns (n: nat)
    requires p != [] && ValidBeats(cs) == OutBeats(p, bad)
    ensures 0 < n <= |cs| && ValidBeats(cs[..n]) == OutBeats(p, bad) && cs[n - 1].valid && cs[n - 1].last
    ensures forall k | n <= k < |cs| :: !cs[k].valid
  {
    OutFromAt(p, bad, 0, |p| - 1);
    hide OutBeats;
    n := |cs|;
    assert cs[..n] == cs;
    if cs == [] || !cs[n - 1].valid {
      var m := LastBeat(cs[..n - 1], p, bad);
      assert cs[..n - 1][..m] == cs[..m];
      n := m;
    } else {
      var beats := ValidBeats(cs);
      assert beats[|beats| - 1] == OutBeat(cs[n - 1].data, cs[n - 1].last, cs[n - 1].user);
    }
  }

  // ---- Through the loopback switch ----

  /** The switch's output register after each cycle. */
  function Switched(x: Mux, cs: seq<Cycle>): (s: seq<Axis>)
    ensures |s| == |cs|
    decreases |cs|
  {
    if cs == [] then [] else [PacketMux.Next(x, cs[0]).out] + Switched(PacketMux.Next(x, cs[0]), cs[1..])
  }

  /** With the select line on input `k` the switch shows that input's stream, whatever the other does;
      and from reset it does so at once. */
  lemma {:induction false} Transparent(x: Mux, cs: seq<Cycle>, k: Side, s: seq<Axis>)
    requires Settled(x, k) && Selects(cs, k) && |s| == |cs| && forall i | 0 <= i < |s| :: Input(cs[i], k) == s[i]
    ensures Switched(x, cs) == s && Settled(PacketMux.RESET, k)
    decreases |cs|
  {
    if cs != [] {
      SettledStep(x, cs[0], k);
      hide PacketMux.Next, Settled;
      forall c | c in cs[1..] ensures c.sel == (k == One) {
        assert c in cs;
      }
      Transparent(PacketMux.Next(x, cs[0]), cs[1..], k, s[1..]);
    }
  }

  // ---- From the wire to the queue ----

  /** A frame on the wire: the gap before it, its bytes, which of them the PHY flags, by their places
      in the frame, and the first symbol after it, or two. */
  datatype Frame = Frame(gap: seq<Gmii>, pre: seq<Byte>, data: seq<Byte>, check: seq<Byte>, flags: set<nat>,
                         quiet: seq<Gmii>)

  /** Whether bytes `from` to `from + n` are flagged. */
  function FlagsFrom(flags: set<nat>, from: nat, n: nat): (er: seq<bool>)
    ensures |er| == n
  {
    seq(n, i requires 0 <= i < n => from + i in flags)
  }

  function PreFlags(f: Frame): (er: seq<bool>)
    ensures |er| == |f.pre|
  {
    FlagsFrom(f.flags, 0, |f.pre|)
  }

  function DataFlags(f: Frame): (er: seq<bool>)
    ensures |er| == |f.data| + |f.check|
  {
    FlagsFrom(f.flags, |f.pre| + 1, |f.data| + |f.check|)
  }

  /** Neither data nor check sequence are flagged, and they agree. */
  predicate Good(f: Frame) { Accepted(f.data + f.check) && FirstFlag(DataFlags(f)) == |f.data| + |f.check| }

  /** Any frame with data, of seven bytes or more if it is good; followed by an idle symbol, or two if
      the last data byte is the first that is flagged. */
  ghost predicate Fine(f: Frame) {
    && (forall s | s in f.gap + f.quiet :: !s.en) && ETH_SFD !in f.pre && |f.check| == 4
    && 1 <= |f.data| <= BYTES && (Good(f) ==> 7 <= |f.data|)
    && |f.quiet| == if FirstFlag(DataFlags(f)) + 1 == |f.data| then 2 else 1
  }

  function Body(f: Frame): (w: seq<Gmii>)
    ensures |w| == |f.pre| + |f.data| + |f.check| + 1 + |f.quiet|
  {
    FlaggedFrame(f.pre, f.data, f.check, PreFlags(f), DataFlags(f)) + f.quiet
  }

  /** A wire that shows these frames and then a gap. */
  function WireOf(fs: seq<Frame>, rest: seq<Gmii>): seq<Gmii> {
    if fs == [] then rest else fs[0].gap + (Body(fs[0]) + WireOf(fs[1..], rest))
  }

  /** The model's packets after one frame and the pops in its gap and while it arrives. */
  function FrameModel(ps: seq<RingBuffer.Packet>, f: Frame, before: seq<bool>, during: seq<bool>,
                      mac: Filter.MacAddress, promiscuous: bool): seq<RingBuffer.Packet>
  {
    var held := Popped(|ps|, ps, Count(before));
    Popped(|held|, Arrived(held, f.data, !Good(f), mac, promiscuous), Count(during))
  }

  /** The model's packets after all. */
  function WireModel(ps: seq<RingBuffer.Packet>, fs: seq<Frame>, rest: seq<Gmii>, pops: seq<bool>,
                     mac: Filter.MacAddress, promiscuous: bool): seq<RingBuffer.Packet>
    requires |pops| == |WireOf(fs, rest)|
    decreases |fs|
  {
    if fs == [] then Popped(|ps|, ps, Count(pops)) else
      var g, n := |fs[0].gap|, |fs[0].gap| + |Body(fs[0])|;
      var ps' := FrameModel(ps, fs[0], pops[..g], pops[g..n], mac, promiscuous);
      WireModel(ps', fs[1..], rest, pops[n..], mac, promiscuous)
  }

  /** No pop comes too late for the packet that is arriving: always so if the host pops only in gaps,
      or if every packet finds room when it begins. */
  predicate SteadyPops(ps: seq<RingBuffer.Packet>, fs: seq<Frame>, rest: seq<Gmii>, pops: seq<bool>,
                       mac: Filter.MacAddress, promiscuous: bool)
    requires |pops| == |WireOf(fs, rest)|
    decreases |fs|
  {
    fs != [] ==>
      var g, n, f := |fs[0].gap|, |fs[0].gap| + |Body(fs[0])|, fs[0];
      && Steady(Popped(|ps|, ps, Count(pops[..g])), f.data, !Good(f), mac, promiscuous,
                Count(pops[g..n]))
      && SteadyPops(FrameModel(ps, f, pops[..g], pops[g..n], mac, promiscuous), fs[1..], rest, pops[n..], mac,
                    promiscuous)
  }

  lemma {:induction false} OutputsSplit(r: Mac.Regs, a: seq<Gmii>, b: seq<Gmii>)
    ensures Outputs(r, a + b) == Outputs(r, a) + Outputs(RxFrames.End(r, a), b)
    decreases |a|
  {
    hide RxFrames.Step;
    if a == [] {
      assert a + b == b;
    } else {
      assert (a + b)[1..] == a[1..] + b;
      OutputsSplit(RxFrames.Step(r, a[0]), a[1..], b);
    }
  }

  lemma {:induction false} HearGap(r: Mac.Regs, w: seq<Gmii>)
    requires Listening(r) && forall s | s in w :: !s.en
    ensures Listening(RxFrames.End(r, w)) && forall k | 0 <= k < |w| :: !Outputs(r, w)[k].valid
    decreases |w|
  {
    if w != [] {
      QuietStep(r, w[0]);
      hide RxFrames.Step, Listening;
      HearGap(RxFrames.Step(r, w[0]), w[1..]);
    }
  }

  /** What MAC, filter and ring have done with a frame: ready for the next, the packets the model's. */
  ghost predicate HasHeard(m: Mac.Regs, f: Frame, pops: seq<bool>, r: Regs, q: Queue, b: Pointer,
                           mac: Filter.MacAddress, promiscuous: bool)
    requires |pops| == |Body(f)|
  {
    var cs := Outputs(m, Body(f));
    && Listening(RxFrames.End(m, Body(f))) && Filter.After(Filter.RESET, cs, mac) == Filter.RESET
    && var ps := Popped(|q.packets|, Arrived(q.packets, f.data, !Good(f), mac, promiscuous), Count(pops));
       Holds(RxPackets.After(r, Framed(cs, pops, mac, promiscuous)), Queue(ps, [], false), b)
  }

  /** A frame with no flagged byte but in the preamble. */
  lemma {:induction false} HearPlain(m: Mac.Regs, f: Frame, pops: seq<bool>, r: Regs, q: Queue, b: Pointer,
                                     mac: Filter.MacAddress, promiscuous: bool) returns (b': Pointer)
    requires Listening(m) && Fine(f) && |pops| == |Body(f)| && Holds(r, q, b) && Between(q)
    requires Steady(q.packets, f.data, !Good(f), mac, promiscuous, Count(pops))
    requires FirstFlag(DataFlags(f)) == |f.data| + |f.check|
    ensures HasHeard(m, f, pops, r, q, b', mac, promiscuous)
  {
    var quiet := f.quiet[0];
    assert f.quiet == [quiet] && quiet in f.gap + f.quiet;
    FramePresents(m, f.pre, f.data, f.check, PreFlags(f), DataFlags(f), quiet);
    var cs := Outputs(m, Body(f));
    Filter.ReadyAgain(cs, f.data, mac);
    hide Outputs, Received, RxFrames.End, Accepted, Filter.Presents, Filter.After, RxPackets.After, Framed, Holds,
         Arrived, Steady, Count, Between, AnyBad, FlaggedFrame;
    b' := RingMatchesModel(r, q, b, cs, pops, f.data, mac, promiscuous);
  }

  /** The two parts of a flagged frame's wire: the frame with one idle symbol, and the second, if any. */
  lemma {:induction false} FlaggedBody(f: Frame) returns (w: seq<Gmii>)
    requires Fine(f)
    ensures !f.quiet[0].en && |f.quiet| <= 2 && (|f.quiet| == 2 ==> !f.quiet[1].en)
    ensures |f.quiet| == 2 <==> FirstFlag(DataFlags(f)) + 1 == |f.data|
    ensures w == FlaggedFrame(f.pre, f.data, f.check, PreFlags(f), DataFlags(f)) + [f.quiet[0]]
    ensures Body(f) == if |f.quiet| == 2 then w + [f.quiet[1]] else w
  {
    hide FlaggedFrame, DataFlags, PreFlags, Good;
    assert forall s | s in f.quiet :: s in f.gap + f.quiet;
    w := FlaggedFrame(f.pre, f.data, f.check, PreFlags(f), DataFlags(f)) + [f.quiet[0]];
    assert f.quiet == if |f.quiet| == 2 then [f.quiet[0]] + [f.quiet[1]] else [f.quiet[0]];
  }

  lemma {:induction false} FlaggedOut(m: Mac.Regs, f: Frame)
    requires Listening(m) && Fine(f) && FirstFlag(DataFlags(f)) < |f.data| + |f.check|
    ensures Received(m, Body(f)) == OutBeats(Cut(f.data, FirstFlag(DataFlags(f))), true)
    ensures Listening(RxFrames.End(m, Body(f)))
  {
    var j := FirstFlag(DataFlags(f));
    var w := FlaggedBody(f);
    ErrorFrame(m, f.pre, f.data, f.check, PreFlags(f), DataFlags(f), j, f.quiet[0]);
    assert j + 1 != |f.data| && Over(RxFrames.End(m, w), f.data, j) ==> Listening(RxFrames.End(m, w));
    hide *;
    if |f.quiet| == 2 {
      ErrorFrameOver(RxFrames.End(m, w), f.data, j, f.quiet[1]);
      ReceivedSplit(m, w, [f.quiet[1]]);
      assert OutBeats(Cut(f.data, j), true) + [] == OutBeats(Cut(f.data, j), true);
    }
  }

  /** A flagged frame: its beats are over before the wire is silent. */
  lemma {:induction false} FlaggedBeats(m: Mac.Regs, f: Frame) returns (n: nat)
    requires Listening(m) && Fine(f) && FirstFlag(DataFlags(f)) < |f.data| + |f.check|
    ensures Listening(RxFrames.End(m, Body(f))) && n <= |Body(f)|
    ensures var cs := Outputs(m, Body(f));
            && Filter.Presents(cs[..n], Cut(f.data, FirstFlag(DataFlags(f)))) && AnyBad(cs[..n])
            && forall k | n <= k < |cs| :: !cs[k].valid
  {
    FlaggedOut(m, f);
    var cut := Cut(f.data, FirstFlag(DataFlags(f)));
    assert cut != [];
    hide *;
    OutputsValid(m, Body(f));
    n := LastBeat(Outputs(m, Body(f)), cut, true);
    BeatsPresent(Outputs(m, Body(f))[..n], cut, true);
  }

  lemma {:induction false} HearFlagged(m: Mac.Regs, f: Frame, pops: seq<bool>, r: Regs, q: Queue, b: Pointer,
                                       mac: Filter.MacAddress, promiscuous: bool) returns (b': Pointer)
    requires Listening(m) && Fine(f) && |pops| == |Body(f)| && Holds(r, q, b) && Between(q)
    requires FirstFlag(DataFlags(f)) < |f.data| + |f.check|
    ensures HasHeard(m, f, pops, r, q, b', mac, promiscuous)
  {
    hide *;
    var n := FlaggedBeats(m, f);
    var cs, cut := Outputs(m, Body(f)), Cut(f.data, FirstFlag(DataFlags(f)));
    CutFits(f);
    var c0, c1, p0, p1 := Halves(cs, pops, n);
    b' := BadThenGap(r, q, b, c0, p0, c1, p1, cut, mac, promiscuous);
    NoTrace(m, f, pops, r, q, b', mac, promiscuous);
  }

  lemma {:induction false} CutFits(f: Frame)
    requires Fine(f)
    ensures |Cut(f.data, FirstFlag(DataFlags(f)))| <= BYTES
  {
  }

  lemma {:induction false} Halves(cs: seq<Axis>, pops: seq<bool>, n: nat)
    returns (c0: seq<Axis>, c1: seq<Axis>, p0: seq<bool>, p1: seq<bool>)
    requires n <= |cs| == |pops| && forall k | n <= k < |cs| :: !cs[k].valid
    ensures c0 == cs[..n] && c0 + c1 == cs && p0 + p1 == pops && |c0| == |p0| && |c1| == |p1|
    ensures forall k | 0 <= k < |c1| :: !c1[k].valid
  {
    c0, c1, p0, p1 := cs[..n], cs[n..], pops[..n], pops[n..];
  }

  lemma {:induction false} NoTrace(m: Mac.Regs, f: Frame, pops: seq<bool>, r: Regs, q: Queue, b: Pointer,
                                   mac: Filter.MacAddress, promiscuous: bool)
    requires |pops| == |Body(f)| && FirstFlag(DataFlags(f)) < |f.data| + |f.check|
    requires Listening(RxFrames.End(m, Body(f)))
    requires var cs := Outputs(m, Body(f));
             && Filter.After(Filter.RESET, cs, mac) == Filter.RESET
             && Holds(RxPackets.After(r, Framed(cs, pops, mac, promiscuous)),
                      Queue(Popped(|q.packets|, q.packets, Count(pops)), [], false), b)
    ensures HasHeard(m, f, pops, r, q, b, mac, promiscuous)
  {
    hide Outputs, RxFrames.End, Accepted, Filter.After, RxPackets.After, Framed, Holds, Count, Body, DataFlags, Popped,
         Listening;
  }

  /** One frame: MAC, filter and ring together do what the model does, and are ready for the next. */
  lemma {:induction false} HearFrame(m: Mac.Regs, f: Frame, pops: seq<bool>, r: Regs, q: Queue, b: Pointer,
                                     mac: Filter.MacAddress, promiscuous: bool) returns (b': Pointer)
    requires Listening(m) && Fine(f) && |pops| == |Body(f)| && Holds(r, q, b) && Between(q)
    requires Steady(q.packets, f.data, !Good(f), mac, promiscuous, Count(pops))
    ensures HasHeard(m, f, pops, r, q, b', mac, promiscuous)
  {
    hide *;
    if FirstFlag(DataFlags(f)) < |f.data| + |f.check| {
      b' := HearFlagged(m, f, pops, r, q, b, mac, promiscuous);
    } else {
      b' := HearPlain(m, f, pops, r, q, b, mac, promiscuous);
    }
  }

  /** One frame with the gap before it. */
  lemma {:induction false} HearNext(m: Mac.Regs, f: Frame, before: seq<bool>, during: seq<bool>, r: Regs, q: Queue,
                                    b: Pointer, mac: Filter.MacAddress, promiscuous: bool) returns (b': Pointer)
    requires Listening(m) && Fine(f) && |before| == |f.gap| && |during| == |Body(f)| && Holds(r, q, b) && Between(q)
    requires Steady(Popped(|q.packets|, q.packets, Count(before)), f.data, !Good(f), mac,
                    promiscuous, Count(during))
    ensures var w := f.gap + Body(f);
            var cs, m' := Outputs(m, w), RxFrames.End(m, w);
            && Listening(m') && Filter.After(Filter.RESET, cs, mac) == Filter.RESET
            && Holds(RxPackets.After(r, Framed(cs, before + during, mac, promiscuous)),
                     Queue(FrameModel(q.packets, f, before, during, mac, promiscuous), [], false), b')
  {
    HearGap(m, f.gap);
    var a, m1 := Outputs(m, f.gap), RxFrames.End(m, f.gap);
    hide Outputs, Received, RxFrames.End, Accepted, Filter.Presents, Filter.After, RxPackets.After, Framed, Holds,
         Arrived, Steady, Count, Body, Listening;
    var b1 := GapOutcome(r, q, b, a, before, mac, promiscuous);
    var ps := Popped(|q.packets|, q.packets, Count(before));
    var r1 := RxPackets.After(r, Framed(a, before, mac, promiscuous));
    b' := HearFrame(m1, f, during, r1, Queue(ps, [], false), b1, mac, promiscuous);
    assert HasHeard(m1, f, during, r1, Queue(ps, [], false), b', mac, promiscuous);
    HearJoined(m, f.gap, Body(f), r, before, during, mac, promiscuous);
  }

  /** From wire to queue: however many frames, intact or not, and whenever the host pops, the receive
      queue is the model's; a damaged frame leaves no trace. */
  lemma {:induction false} WireToQueue(m: Mac.Regs, fs: seq<Frame>, rest: seq<Gmii>, pops: seq<bool>,
                                       r: Regs, q: Queue, b: Pointer, mac: Filter.MacAddress,
                                       promiscuous: bool) returns (b': Pointer)
    requires Listening(m) && (forall f | f in fs :: Fine(f)) && (forall s | s in rest :: !s.en)
    requires |pops| == |WireOf(fs, rest)| && SteadyPops(q.packets, fs, rest, pops, mac, promiscuous)
    requires Holds(r, q, b) && Between(q)
    ensures var w := WireOf(fs, rest);
            && Listening(RxFrames.End(m, w)) && Filter.After(Filter.RESET, Outputs(m, w), mac) == Filter.RESET
            && Holds(RxPackets.After(r, Framed(Outputs(m, w), pops, mac, promiscuous)),
                     Queue(WireModel(q.packets, fs, rest, pops, mac, promiscuous), [], false), b')
    decreases |fs|
  {
    hide Outputs, RxFrames.End, Accepted, Filter.After, RxPackets.After, Framed, Holds, Steady, Count, Body, Listening,
         FrameModel, Popped, Fine;
    if fs == [] {
      HearGap(m, rest);
      b' := GapOutcome(r, q, b, Outputs(m, rest), pops, mac, promiscuous);
    } else {
      var f, w1 := fs[0], WireOf(fs[1..], rest);
      var g, n := |f.gap|, |f.gap| + |Body(f)|;
      var before, during, after := pops[..g], pops[g..n], pops[n..];
      var w0, qs := f.gap + Body(f), FrameModel(q.packets, f, before, during, mac, promiscuous);
      assert SteadyPops(qs, fs[1..], rest, after, mac, promiscuous);
      assert WireModel(q.packets, fs, rest, pops, mac, promiscuous)
          == WireModel(qs, fs[1..], rest, after, mac, promiscuous);
      hide SteadyPops, WireModel;
      var b1 := HearNext(m, f, before, during, r, q, b, mac, promiscuous);
      var c0, m1 := Outputs(m, w0), RxFrames.End(m, w0);
      var r1 := RxPackets.After(r, Framed(c0, before + during, mac, promiscuous));
      b' := WireToQueue(m1, fs[1..], rest, after, r1, Queue(qs, [], false), b1, mac, promiscuous);
      assert WireOf(fs, rest) == w0 + w1;
      assert pops == (before + during) + after;
      HearJoined(m, w0, w1, r, before + during, after, mac, promiscuous);
    }
  }

  /** What is heard in one stretch of wire and then another. */
  lemma {:induction false} HearJoined(m: Mac.Regs, w0: seq<Gmii>, w1: seq<Gmii>, r: Regs, p0: seq<bool>, p1: seq<bool>,
                                      mac: Filter.MacAddress, promiscuous: bool)
    requires |w0| == |p0| && |w1| == |p1| && Filter.After(Filter.RESET, Outputs(m, w0), mac) == Filter.RESET
    ensures var m1 := RxFrames.End(m, w0);
            && RxFrames.End(m, w0 + w1) == RxFrames.End(m1, w1)
            && Filter.After(Filter.RESET, Outputs(m, w0 + w1), mac) == Filter.After(Filter.RESET, Outputs(m1, w1), mac)
            && RxPackets.After(r, Framed(Outputs(m, w0 + w1), p0 + p1, mac, promiscuous))
               == RxPackets.After(RxPackets.After(r, Framed(Outputs(m, w0), p0, mac, promiscuous)),
                                  Framed(Outputs(m1, w1), p1, mac, promiscuous))
  {
    hide Outputs, RxFrames.End, Filter.After, RxPackets.After, Framed, Received;
    OutputsSplit(m, w0, w1);
    ReceivedSplit(m, w0, w1);
    var c0, c1 := Outputs(m, w0), Outputs(RxFrames.End(m, w0), w1);
    RingSplit(r, c0, c1, p0, p1, mac, promiscuous);
    FilterSplit(Filter.RESET, c0, c1, mac);
  }

  /** The same with the loopback switch between MAC and filter, the receiver on input 0. */
  lemma {:induction false} SwitchToQueue(m: Mac.Regs, fs: seq<Frame>, rest: seq<Gmii>, pops: seq<bool>,
                                         x: Mux, cycles: seq<Cycle>, r: Regs, q: Queue, b: Pointer,
                                         mac: Filter.MacAddress, promiscuous: bool) returns (b': Pointer)
    requires Listening(m) && (forall f | f in fs :: Fine(f)) && (forall s | s in rest :: !s.en)
    requires |pops| == |WireOf(fs, rest)| && SteadyPops(q.packets, fs, rest, pops, mac, promiscuous)
    requires Settled(x, Zero) && |cycles| == |pops|
    requires forall i | 0 <= i < |cycles| :: !cycles[i].sel && cycles[i].in0 == Outputs(m, WireOf(fs, rest))[i]
    requires Holds(r, q, b) && Between(q)
    ensures Holds(RxPackets.After(r, Framed(Switched(x, cycles), pops, mac, promiscuous)),
                  Queue(WireModel(q.packets, fs, rest, pops, mac, promiscuous), [], false), b')
  {
    b' := WireToQueue(m, fs, rest, pops, r, q, b, mac, promiscuous);
    hide Holds, RxPackets.After, Framed, Settled, Listening, SteadyPops;
    Transparent(x, cycles, Zero, Outputs(m, WireOf(fs, rest)));
  }
}
