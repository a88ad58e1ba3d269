/** Whole runs of the transmitter with the 4-bit interface selected, for any clock-enable pattern. */
module MiiWire {
  import opened Bits
  import opened Signals
  import opened GmiiTx
  import opened TxWire
  import opened MiiTx

  /** Part of an endless run. */
  function Cycles(env: nat -> Cycle, i: nat, n: nat): (c: seq<Cycle>)
    ensures |c| == n
  {
    seq(n, k requires 0 <= k < n => env(i + k))
  }

  lemma {:induction false} CyclesSplit(env: nat -> Cycle, i: nat, m: nat, n: nat)
    ensures Cycles(env, i, m + n) == Cycles(env, i, m) + Cycles(env, i + m, n)
  {
  }

  lemma {:induction false} RunSplit(m: System, ifg: nat, a: seq<Cycle>, b: seq<Cycle>)
    ensures var m' := MiiEnd(m, ifg, a);
            && MiiEnd(m, ifg, a + b) == MiiEnd(m', ifg, b)
            && Samples(m, ifg, a + b) == Samples(m, ifg, a) + Samples(m', ifg, b)
            && ByteTicks(m, ifg, a + b) == ByteTicks(m, ifg, a) + ByteTicks(m', ifg, b)
    decreases |a|
  {
    hide MiiStep;
    if a == [] {
      assert a + b == b;
    } else {
      assert (a + b)[1..] == a[1..] + b;
      RunSplit(MiiStep(m, ifg, a[0]), ifg, a[1..], b);
      hide Now, ByteTick;
    }
  }

  /** The same of an endless run. */
  lemma {:induction false} EnvSplit(m: System, ifg: nat, env: nat -> Cycle, i: nat, j: nat, k: nat)
    ensures var m' := MiiEnd(m, ifg, Cycles(env, i, j));
            && MiiEnd(m, ifg, Cycles(env, i, j + k)) == MiiEnd(m', ifg, Cycles(env, i + j, k))
            && Samples(m, ifg, Cycles(env, i, j + k))
               == Samples(m, ifg, Cycles(env, i, j)) + Samples(m', ifg, Cycles(env, i + j, k))
            && ByteTicks(m, ifg, Cycles(env, i, j + k))
               == ByteTicks(m, ifg, Cycles(env, i, j)) + ByteTicks(m', ifg, Cycles(env, i + j, k))
  {
    hide *;
    CyclesSplit(env, i, j, k);
    RunSplit(m, ifg, Cycles(env, i, j), Cycles(env, i + j, k));
  }

  lemma {:induction false} NoCycles(m: System, ifg: nat, env: nat -> Cycle, i: nat)
    ensures var c := Cycles(env, i, 0);
            MiiEnd(m, ifg, c) == m && Samples(m, ifg, c) == [] && ByteTicks(m, ifg, c) == []
  {
  }

  lemma {:induction false} OneCycleRun(m: System, ifg: nat, env: nat -> Cycle, i: nat)
    ensures var c, m' := Cycles(env, i, 1), MiiStep(m, ifg, env(i));
            && MiiEnd(m, ifg, c) == m' && Samples(m, ifg, c) == Now(m', env(i))
            && ByteTicks(m, ifg, c) == ByteTick(m, env(i))
  {
    hide MiiStep, Now, ByteTick;
    var c := Cycles(env, i, 1);
    assert c[0] == env(i) && c[1..] == [];
    assert Now(MiiStep(m, ifg, env(i)), env(i)) + [] == Now(MiiStep(m, ifg, env(i)), env(i));
    assert ByteTick(m, env(i)) + [] == ByteTick(m, env(i));
  }

  // ---- Fairness and progress ----

  ghost predicate EnabledFrom(env: nat -> Cycle, i: nat) { exists j :: i <= j && env(j).enable }

  ghost predicate OffersFrom(env: nat -> Cycle, i: nat) { exists j :: i <= j && env(j).tick.go }

  /** The clock is enabled, and the source makes offers, again and again. */
  ghost predicate Fair(env: nat -> Cycle) { forall i: nat :: EnabledFrom(env, i) && OffersFrom(env, i) }

  lemma {:induction false} OddToggles(m: System, ifg: nat, c: Cycle)
    ensures var m' := MiiStep(m, ifg, c);
            && (!c.enable ==> m'.regs.miiOdd == m.regs.miiOdd)
            && (c.enable && m.regs.miiOdd ==> !m'.regs.miiOdd)
  {
    hide Core;
  }

  /** On to the next enabled cycle. */
  lemma {:induction false} ToEnabled(m: System, ifg: nat, env: nat -> Cycle, i: nat, j: nat) returns (k: nat)
    requires i <= j && env(j).enable
    ensures |ByteTicks(m, ifg, Cycles(env, i, k))| == if m.regs.miiOdd then 0 else 1
    ensures m.regs.miiOdd ==> !MiiEnd(m, ifg, Cycles(env, i, k)).regs.miiOdd
    decreases j - i
  {
    OneCycleRun(m, ifg, env, i);
    OddToggles(m, ifg, env(i));
    hide Cycles, MiiStep, MiiEnd, Samples, Match;
    if env(i).enable {
      k := 1;
    } else {
      var k' := ToEnabled(MiiStep(m, ifg, env(i)), ifg, env, i + 1, j);
      k := 1 + k';
      EnvSplit(m, ifg, env, i, 1, k');
    }
  }

  lemma {:induction false} NextEnabled(m: System, ifg: nat, env: nat -> Cycle, i: nat) returns (k: nat)
    requires Fair(env)
    ensures |ByteTicks(m, ifg, Cycles(env, i, k))| == if m.regs.miiOdd then 0 else 1
    ensures m.regs.miiOdd ==> !MiiEnd(m, ifg, Cycles(env, i, k)).regs.miiOdd
  {
    hide Cycles, MiiEnd, ByteTicks;
    assert EnabledFrom(env, i);
    var j :| i <= j && env(j).enable;
    k := ToEnabled(m, ifg, env, i, j);
  }

  /** Any number of steps of the byte-wide transmitter is reached. */
  lemma {:induction false} ReachTicks(m: System, ifg: nat, env: nat -> Cycle, i: nat, n: nat) returns (k: nat)
    requires Fair(env)
    ensures |ByteTicks(m, ifg, Cycles(env, i, k))| == n
    decreases n, m.regs.miiOdd
  {
    hide Cycles, MiiEnd, ByteTicks, Samples, Fair;
    if n == 0 {
      k := 0;
      NoCycles(m, ifg, env, i);
    } else {
      var j := NextEnabled(m, ifg, env, i);
      var m' := MiiEnd(m, ifg, Cycles(env, i, j));
      var k' := ReachTicks(m', ifg, env, i + j, if m.regs.miiOdd then n else n - 1);
      k := j + k';
      EnvSplit(m, ifg, env, i, j, k');
    }
  }

  /** And then the end of the last of them. */
  lemma {:induction false} TicksDone(m: System, ifg: nat, env: nat -> Cycle, i: nat, n: nat) returns (k: nat)
    requires Fair(env)
    ensures |ByteTicks(m, ifg, Cycles(env, i, k))| == n && !MiiEnd(m, ifg, Cycles(env, i, k)).regs.miiOdd
  {
    hide Cycles, MiiEnd, ByteTicks, Samples, Fair;
    var j := ReachTicks(m, ifg, env, i, n);
    var m' := MiiEnd(m, ifg, Cycles(env, i, j));
    if m'.regs.miiOdd {
      var k' := NextEnabled(m', ifg, env, i + j);
      k := j + k';
      EnvSplit(m, ifg, env, i, j, k');
    } else {
      k := j;
    }
  }

  // ---- Waiting ----

  /** Idle, the samples complete, these beats to send. */
  ghost predicate MiiResting(m: System, rest: seq<Beat>) { Resting(m, rest) && !m.regs.miiOdd }

  lemma {:induction false} IdleCycle(m: System, ifg: nat, c: Cycle)
    requires MiiResting(m, m.src.beats) && !Offers(m.src, c.tick.go)
    ensures var m' := MiiStep(m, ifg, c);
            MiiResting(m', m.src.beats) && m'.src == m.src && Quiet(Now(m', c))
  {
  }

  lemma {:induction false} QuietJoin(a: seq<Gmii>, b: seq<Gmii>)
    requires Quiet(a) && Quiet(b)
    ensures Quiet(a + b)
  {
  }

  lemma {:induction false} WaitForStart(m: System, ifg: nat, env: nat -> Cycle, i: nat, j: nat) returns (k: nat)
    requires MiiResting(m, m.src.beats) && m.src.beats != [] && i <= j && env(j).tick.go
    ensures Quiet(Samples(m, ifg, Cycles(env, i, k)))
    ensures var e := MiiEnd(m, ifg, Cycles(env, i, k));
            MiiResting(e, m.src.beats) && (e.src.started || env(i + k).tick.go)
    decreases j - i
  {
    assert Offers(m.src, env(i).tick.go) ==> m.src.started || env(i).tick.go;
    hide *;
    if m.src.started || env(i).tick.go {
      k := 0;
      NoCycles(m, ifg, env, i);
      NothingQuiet();
    } else {
      IdleCycle(m, ifg, env(i));
      var i1, m1 := i + 1, MiiStep(m, ifg, env(i));
      assert m1.src.beats == m.src.beats;
      var k1 := WaitForStart(m1, ifg, env, i1, j);
      QuietThen(m, ifg, env, i, i1, k1, m1);
      k := 1 + k1;
      assert i + k == i1 + k1;
    }
  }

  /** A quiet cycle and then a quiet run. */
  lemma {:induction false} QuietThen(m: System, ifg: nat, env: nat -> Cycle, i: nat, i1: nat, k1: nat, m1: System)
    requires i1 == i + 1 && m1 == MiiStep(m, ifg, env(i)) && Quiet(Now(m1, env(i)))
    requires Quiet(Samples(m1, ifg, Cycles(env, i1, k1)))
    ensures Quiet(Samples(m, ifg, Cycles(env, i, 1 + k1)))
    ensures MiiEnd(m, ifg, Cycles(env, i, 1 + k1)) == MiiEnd(m1, ifg, Cycles(env, i1, k1))
  {
    hide *;
    OneCycleRun(m, ifg, env, i);
    EnvSplit(m, ifg, env, i, 1, k1);
    QuietJoin(Now(m1, env(i)), Samples(m1, ifg, Cycles(env, i1, k1)));
  }

  lemma {:induction false} NothingQuiet()
    ensures Quiet([])
  {
  }

  /** With nothing left, quiet for ever. */
  lemma {:induction false} StaysQuietMii(m: System, ifg: nat, cycles: seq<Cycle>)
    requires MiiResting(m, [])
    ensures Quiet(Samples(m, ifg, cycles)) && MiiResting(MiiEnd(m, ifg, cycles), [])
    decreases |cycles|
  {
    if cycles != [] {
      IdleCycle(m, ifg, cycles[0]);
      hide MiiStep, Now, Quiet;
      var m' := MiiStep(m, ifg, cycles[0]);
      StaysQuietMii(m', ifg, cycles[1..]);
      QuietJoin(Now(m', cycles[0]), Samples(m', ifg, cycles[1..]));
    }
  }

  /** Once an offer has been made, the first step takes it. */
  lemma {:induction false} FirstTakesOffer(m: System, ifg: nat, cycles: seq<Cycle>)
    requires MiiResting(m, m.src.beats) && m.src.beats != [] && cycles != []
    requires m.src.started || cycles[0].tick.go
    requires ByteTicks(m, ifg, cycles) != []
    ensures ByteTicks(m, ifg, cycles)[0].go
    decreases |cycles|
  {
    if !cycles[0].enable {
      OfferKept(m, ifg, cycles[0]);
      hide MiiStep;
      var m' := MiiStep(m, ifg, cycles[0]);
      assert ByteTicks(m, ifg, cycles) == [] + ByteTicks(m', ifg, cycles[1..]) == ByteTicks(m', ifg, cycles[1..]);
      FirstTakesOffer(m', ifg, cycles[1..]);
    }
  }

  lemma {:induction false} OfferKept(m: System, ifg: nat, c: Cycle)
    requires MiiResting(m, m.src.beats) && Offers(m.src, c.tick.go) && !c.enable
    ensures var m' := MiiStep(m, ifg, c);
            MiiResting(m', m.src.beats) && m'.src == m.src.(started := true)
  {
  }

  // ---- A packet ----

  ghost predicate PairsAll(n: seq<Gmii>, w: seq<Gmii>) {
    |n| == 2 * |w| && forall i | 0 <= i < |w| :: Pair(n[2 * i], n[2 * i + 1], w[i])
  }

  /** A run that never waits gives two samples a symbol. */
  lemma {:induction false} BusyPairs(g: System, ifg: nat, ticks: seq<Tick>, n: seq<Gmii>)
    requires Busy(g, ifg, ticks) && Expands(g, ifg, ticks, n)
    ensures PairsAll(n, Wire(g, ifg, ticks))
    decreases |ticks|
  {
    hide Step, Pair, Stays;
    if ticks != [] {
      var g' := Step(g, ifg, ticks[0]);
      var w' := Wire(g', ifg, ticks[1..]);
      var w := [Output(g'.regs)] + w';
      BusyPairs(g', ifg, ticks[1..], n[2..]);
      forall i | 0 <= i < |w| ensures Pair(n[2 * i], n[2 * i + 1], w[i]) {
        if i > 0 {
          assert w[i] == w'[i - 1] && n[2 * i] == n[2..][2 * (i - 1)] && n[2 * i + 1] == n[2..][2 * (i - 1) + 1];
        }
      }
    }
  }

  /** A frame and a gap on the byte-wide wire, in samples. */
  lemma {:induction false} FrameSamples(n: seq<Gmii>, bytes: seq<Byte>, gap: nat)
    requires PairsAll(n, Symbols(bytes) + Idles(gap))
    ensures |n| == 2 * |bytes| + 2 * gap
    ensures ShowsAll(n[..2 * |bytes|], Split(bytes)) && Quiet(n[2 * |bytes|..])
  {
    hide Split, Shows;
    var w, k := Symbols(bytes) + Idles(gap), |bytes|;
    forall i | 0 <= i < 2 * k ensures Shows(n[i], Split(bytes)[i]) {
      SplitAt(bytes, i / 2);
      assert w[i / 2] == Gmii(bytes[i / 2], true, false);
      assert Pair(n[2 * (i / 2)], n[2 * (i / 2) + 1], w[i / 2]);
    }
    forall i | 2 * k <= i < |n| ensures !n[i].en {
      assert w[i / 2] == IDLE_SYMBOL;
      assert Pair(n[2 * (i / 2)], n[2 * (i / 2) + 1], w[i / 2]);
    }
  }

  lemma {:induction false} AllBeatsFresh(ps: seq<Packet>)
    ensures Fresh(AllBeats(ps)) && (ps != [] ==> AllBeats(ps) != [])
  {
    if ps != [] {
      AllBeatsFresh(ps[1..]);
      var b, rest := Beats(ps[0]), AllBeats(ps[1..]);
      assert AllBeats(ps) == b + rest;
    }
  }

  lemma {:induction false} EvenSelf(m: System, ps: seq<Packet>)
    requires MiiResting(m, AllBeats(ps))
    ensures Even(m, m)
  {
    AllBeatsFresh(ps);
    hide Fresh, AllBeats;
    assert Tidy(AllBeats(ps)) by { FreshTidy(AllBeats(ps)); }
  }

  lemma {:induction false} FreshTidy(beats: seq<Beat>)
    requires Fresh(beats)
    ensures Tidy(beats)
  {
  }

  /** Where both are at rest. */
  lemma {:induction false} RestTogether(m: System, g: System, rest: seq<Beat>)
    requires (Even(m, g) || Odd(m, g)) && !m.regs.miiOdd && Resting(g, rest)
    ensures MiiResting(m, rest)
  {
  }

  /** Once offered, the packet's frame and twice the gap are sampled, with the enable high throughout
      the one and low throughout the other. */
  lemma {:induction false} OfferedPacket(m: System, ifg: nat, ps: seq<Packet>, env: nat -> Cycle, i: nat)
    returns (k: nat)
    requires 1 <= ifg < 256 && Fair(env) && ps != [] && MiiResting(m, AllBeats(ps))
    requires m.src.started || env(i).tick.go
    ensures MiiResting(MiiEnd(m, ifg, Cycles(env, i, k)), AllBeats(ps[1..]))
    ensures var n, f := Samples(m, ifg, Cycles(env, i, k)), 2 * |Frame(ps[0])|;
            && |n| == f + 2 * ifg
            && ShowsAll(n[..f], Split(Frame(ps[0]))) && Quiet(n[f..])
  {
    hide Padded, Frame, Samples, ByteTicks, MiiEnd, Wire, End, Even, Odd, Split, Fair, Busy, Expands, PairsAll;
    var p, rest := ps[0], AllBeats(ps[1..]);
    var steps := 12 + |Padded(p)| + ifg;
    k := TicksDone(m, ifg, env, i, steps);
    var cycles := Cycles(env, i, k);
    var ticks := ByteTicks(m, ifg, cycles);
    assert k > 0 by { NoCycles(m, ifg, env, i); }
    assert cycles[0] == env(i);
    AllBeatsFresh(ps);
    FirstTakesOffer(m, ifg, cycles);
    EvenSelf(m, ps);
    MiiRefines(m, m, ifg, cycles);
    SendPacket(m, ifg, ticks, p, rest);
    var m', g' := MiiEnd(m, ifg, cycles), End(m, ifg, ticks);
    var n := Samples(m, ifg, cycles);
    assert Owed(m', g') == [] && n + [] == n;
    BusyPairs(m, ifg, ticks, n);
    FrameSamples(n, Frame(p), ifg);
    RestTogether(m', g', rest);
  }

  // ---- All packets ----

  /** The samples carry these packets' frames in order, each whole with the enable high throughout,
      at least `lead` samples with it low before the first and twice the gap after each, and nothing
      else. */
  ghost predicate MiiCarries(n: seq<Gmii>, ps: seq<Packet>, lead: nat, ifg: nat)
    decreases |ps|
  {
    if ps == [] then lead <= |n| && Quiet(n)
    else exists gap, f, rest ::
      n == gap + (f + rest) && FrameAfter(gap, f, ps[0], lead) && MiiCarries(rest, ps[1..], 2 * ifg, ifg)
  }

  ghost predicate FrameAfter(gap: seq<Gmii>, f: seq<Gmii>, p: Packet, lead: nat) {
    lead <= |gap| && Quiet(gap) && ShowsAll(f, Split(Frame(p)))
  }

  lemma {:induction false} CarriesOne(gap: seq<Gmii>, f: seq<Gmii>, rest: seq<Gmii>, ps: seq<Packet>, lead: nat,
                                      ifg: nat)
    requires ps != [] && FrameAfter(gap, f, ps[0], lead) && MiiCarries(rest, ps[1..], 2 * ifg, ifg)
    ensures MiiCarries(gap + (f + rest), ps, lead, ifg)
  {
  }

  /** A quiet end is no more than that. */
  lemma {:induction false} CarriesQuiet(n: seq<Gmii>, quiet: seq<Gmii>, ps: seq<Packet>, lead: nat, ifg: nat)
    requires MiiCarries(n, ps, lead, ifg) && Quiet(quiet)
    ensures MiiCarries(n + quiet, ps, lead, ifg)
    decreases |ps|
  {
    hide FrameAfter;
    if ps != [] {
      var gap, f, rest :| n == gap + (f + rest) && FrameAfter(gap, f, ps[0], lead)
                       && MiiCarries(rest, ps[1..], 2 * ifg, ifg);
      CarriesQuiet(rest, quiet, ps[1..], 2 * ifg, ifg);
      CarriesOne(gap, f, rest + quiet, ps, lead, ifg);
      assert n + quiet == gap + (f + (rest + quiet));
    } else {
      QuietJoin(n, quiet);
    }
  }

  /** Whatever the clock-enable pattern and the offers, as long as neither ceases, all packets go out,
      in order, each frame without a break and with twice the gap in samples after it. */
  lemma {:induction false} MiiSendAll(m: System, ifg: nat, ps: seq<Packet>, env: nat -> Cycle, i: nat,
                                      before: seq<Gmii>)
    returns (k: nat)
    requires 1 <= ifg < 256 && Fair(env) && MiiResting(m, AllBeats(ps)) && Quiet(before)
    ensures MiiResting(MiiEnd(m, ifg, Cycles(env, i, k)), [])
    ensures MiiCarries(before + Samples(m, ifg, Cycles(env, i, k)), ps, |before|, ifg)
    decreases |ps|
  {
    hide Samples, MiiEnd, Cycles, Fair, Quiet, ShowsAll, MiiCarries, Frame, MiiResting;
    if ps == [] {
      k := 0;
      NothingToSend(m, ifg, env, i, before);
    } else {
      var k1, gap, f, tail := SendNext(m, ifg, ps, env, i);
      var i2, m2 := i + k1, MiiEnd(m, ifg, Cycles(env, i, k1));
      var k2 := MiiSendAll(m2, ifg, ps[1..], env, i2, tail);
      k := k1 + k2;
      EnvSplit(m, ifg, env, i, k1, k2);
      JoinPacket(before, gap, f, tail, Samples(m2, ifg, Cycles(env, i2, k2)), ps, ifg);
    }
  }

  /** The next packet, however long its offer takes. */
  lemma {:induction false} SendNext(m: System, ifg: nat, ps: seq<Packet>, env: nat -> Cycle, i: nat)
    returns (k: nat, gap: seq<Gmii>, f: seq<Gmii>, tail: seq<Gmii>)
    requires 1 <= ifg < 256 && Fair(env) && ps != [] && MiiResting(m, AllBeats(ps))
    ensures MiiResting(MiiEnd(m, ifg, Cycles(env, i, k)), AllBeats(ps[1..]))
    ensures Samples(m, ifg, Cycles(env, i, k)) == gap + (f + tail)
    ensures Quiet(gap) && ShowsAll(f, Split(Frame(ps[0]))) && Quiet(tail) && |tail| == 2 * ifg
  {
    hide *;
    var j := StartOfNext(m, ifg, ps, env, i);
    var i1, m1 := i + j, MiiEnd(m, ifg, Cycles(env, i, j));
    gap := Samples(m, ifg, Cycles(env, i, j));
    var k1 := OfferedPacket(m1, ifg, ps, env, i1);
    var n1 := Samples(m1, ifg, Cycles(env, i1, k1));
    var cut := 2 * |Frame(ps[0])|;
    f, tail := n1[..cut], n1[cut..];
    assert n1 == f + tail;
    k := j + k1;
    EnvSplit(m, ifg, env, i, j, k1);
  }

  lemma {:induction false} JoinPacket(before: seq<Gmii>, gap: seq<Gmii>, f: seq<Gmii>, tail: seq<Gmii>,
                                      later: seq<Gmii>, ps: seq<Packet>, ifg: nat)
    requires ps != [] && Quiet(before) && Quiet(gap) && ShowsAll(f, Split(Frame(ps[0])))
    requires MiiCarries(tail + later, ps[1..], 2 * ifg, ifg)
    ensures MiiCarries(before + (gap + (f + tail) + later), ps, |before|, ifg)
  {
    QuietJoin(before, gap);
    assert FrameAfter(before + gap, f, ps[0], |before|);
    hide *;
    CarriesOne(before + gap, f, tail + later, ps, |before|, ifg);
    JoinSeqs(before, gap, f, tail, later);
  }

  lemma {:induction false} JoinSeqs(before: seq<Gmii>, gap: seq<Gmii>, f: seq<Gmii>, tail: seq<Gmii>,
                                    later: seq<Gmii>)
    ensures before + (gap + (f + tail) + later) == (before + gap) + (f + (tail + later))
  {
    assert gap + (f + tail) + later == gap + (f + (tail + later));
  }

  lemma {:induction false} NothingToSend(m: System, ifg: nat, env: nat -> Cycle, i: nat, before: seq<Gmii>)
    requires MiiResting(m, AllBeats([])) && Quiet(before)
    ensures MiiResting(MiiEnd(m, ifg, Cycles(env, i, 0)), [])
    ensures MiiCarries(before + Samples(m, ifg, Cycles(env, i, 0)), [], |before|, ifg)
  {
    NoCycles(m, ifg, env, i);
    assert before + [] == before;
  }

  lemma {:induction false} StartOfNext(m: System, ifg: nat, ps: seq<Packet>, env: nat -> Cycle, i: nat)
    returns (j: nat)
    requires Fair(env) && ps != [] && MiiResting(m, AllBeats(ps))
    ensures Quiet(Samples(m, ifg, Cycles(env, i, j)))
    ensures var e := MiiEnd(m, ifg, Cycles(env, i, j));
            MiiResting(e, AllBeats(ps)) && (e.src.started || env(i + j).tick.go)
  {
    AllBeatsFresh(ps);
    assert OffersFrom(env, i);
    var o :| i <= o && env(o).tick.go;
    hide Samples, MiiEnd, Cycles, AllBeats, Quiet;
    j := WaitForStart(m, ifg, env, i, o);
  }

  /** From some cycle on, the samples carry the packets and the transmitter rests. */
  lemma {:induction false} CarriedFrom(m: System, ifg: nat, ps: seq<Packet>, env: nat -> Cycle, k: nat, n: nat)
    requires MiiResting(MiiEnd(m, ifg, Cycles(env, 0, k)), [])
    requires MiiCarries(Samples(m, ifg, Cycles(env, 0, k)), ps, 0, ifg)
    ensures MiiCarries(Samples(m, ifg, Cycles(env, 0, k + n)), ps, 0, ifg)
  {
    hide *;
    EnvSplit(m, ifg, env, 0, k, n);
    var e := MiiEnd(m, ifg, Cycles(env, 0, k));
    StaysQuietMii(e, ifg, Cycles(env, k, n));
    CarriesQuiet(Samples(m, ifg, Cycles(env, 0, k)), Samples(e, ifg, Cycles(env, k, n)), ps, 0, ifg);
  }

  /** Idle in either nibble phase, as reset leaves it. */
  ghost predicate EitherPhase(m: System, rest: seq<Beat>) {
    Resting(m, rest) && (m.regs.miiOdd ==> !m.regs.txEn)
  }

  /** Reset spares the phase. */
  lemma {:induction false} MiiResetReady(r: Regs, i: Inputs, src: Source)
    requires i.rst
    ensures EitherPhase(System(Next(r, i), src), src.beats)
  {
    hide Core, Advance;
  }

  lemma {:induction false} OddIdleCycle(m: System, ifg: nat, c: Cycle, rest: seq<Beat>)
    requires EitherPhase(m, rest) && m.regs.miiOdd
    ensures var m' := MiiStep(m, ifg, c);
            && EitherPhase(m', rest) && Quiet(Now(m', c))
            && (if c.enable then MiiResting(m', rest) else m'.regs.miiOdd)
  {
  }

  /** The first enabled cycle at the latest puts the phase right, with a quiet sample. */
  lemma {:induction false} PhaseRight(m: System, ifg: nat, env: nat -> Cycle, i: nat, j: nat, rest: seq<Beat>)
    returns (k: nat)
    requires EitherPhase(m, rest) && i <= j && env(j).enable
    ensures MiiResting(MiiEnd(m, ifg, Cycles(env, i, k)), rest) && Quiet(Samples(m, ifg, Cycles(env, i, k)))
    decreases j - i
  {
    NothingQuiet();
    NoCycles(m, ifg, env, i);
    if !m.regs.miiOdd {
      k := 0;
    } else {
      OddIdleCycle(m, ifg, env(i), rest);
      hide *;
      var i1, m1, k1 := i + 1, MiiStep(m, ifg, env(i)), 0;
      if env(i).enable {
        NoCycles(m1, ifg, env, i1);
      } else {
        k1 := PhaseRight(m1, ifg, env, i1, j, rest);
      }
      QuietThen(m, ifg, env, i, i1, k1, m1);
      k := 1 + k1;
    }
  }

  lemma {:induction false} FairEnabled(env: nat -> Cycle) returns (j: nat)
    requires Fair(env)
    ensures env(j).enable
  {
    assert EnabledFrom(env, 0);
    j :| 0 <= j && env(j).enable;
  }

  /** Phase and packets together. */
  lemma {:induction false} SendFromReset(m: System, ifg: nat, ps: seq<Packet>, env: nat -> Cycle) returns (k: nat)
    requires 1 <= ifg < 256 && Fair(env) && EitherPhase(m, AllBeats(ps))
    ensures MiiResting(MiiEnd(m, ifg, Cycles(env, 0, k)), [])
    ensures MiiCarries(Samples(m, ifg, Cycles(env, 0, k)), ps, 0, ifg)
  {
    hide *;
    var j := FairEnabled(env);
    var k0 := PhaseRight(m, ifg, env, 0, j, AllBeats(ps));
    var m0, before := MiiEnd(m, ifg, Cycles(env, 0, k0)), Samples(m, ifg, Cycles(env, 0, k0));
    var k1 := MiiSendAll(m0, ifg, ps, env, k0, before);
    EnvSplit(m, ifg, env, 0, k0, k1);
    LeadLess(before + Samples(m0, ifg, Cycles(env, k0, k1)), ps, |before|, ifg);
    k := k0 + k1;
  }

  /** All packets, from the first cycle. */
  lemma {:induction false} MiiDelivers(m: System, ifg: nat, ps: seq<Packet>, env: nat -> Cycle) returns (k: nat)
    requires 1 <= ifg < 256 && Fair(env) && EitherPhase(m, AllBeats(ps))
    ensures forall n: nat | n >= k :: MiiCarries(Samples(m, ifg, Cycles(env, 0, n)), ps, 0, ifg)
  {
    hide *;
    k := SendFromReset(m, ifg, ps, env);
    forall n: nat | n >= k ensures MiiCarries(Samples(m, ifg, Cycles(env, 0, n)), ps, 0, ifg) {
      CarriedFrom(m, ifg, ps, env, k, n - k);
    }
  }

  lemma {:induction false} LeadLess(n: seq<Gmii>, ps: seq<Packet>, lead: nat, ifg: nat)
    requires MiiCarries(n, ps, lead, ifg)
    ensures MiiCarries(n, ps, 0, ifg)
  {
  }

  /** What a finite run shows is the beginning of samples that carry the packets. */
  lemma {:induction false} MiiSafe(m: System, ifg: nat, ps: seq<Packet>, cycles: seq<Cycle>) returns (more: seq<Gmii>)
    requires 1 <= ifg < 256 && EitherPhase(m, AllBeats(ps))
    ensures MiiCarries(Samples(m, ifg, cycles) + more, ps, 0, ifg)
  {
    hide *;
    var env := Continued(cycles);
    var n := |cycles|;
    var k := MiiDelivers(m, ifg, ps, env);
    more := Samples(MiiEnd(m, ifg, cycles), ifg, Cycles(env, n, k));
    EnvSplit(m, ifg, env, 0, n, k);
    assert MiiCarries(Samples(m, ifg, Cycles(env, 0, n + k)), ps, 0, ifg);
  }

  /** Any finite run begins one that is fair. */
  lemma {:induction false} Continued(cycles: seq<Cycle>) returns (env: nat -> Cycle)
    ensures Fair(env) && Cycles(env, 0, |cycles|) == cycles
  {
    var always := Cycle(true, Tick(true, Axis(Zeros(8), false, false, false)));
    env := (i: nat) => if i < |cycles| then cycles[i] else always;
    forall i: nat ensures EnabledFrom(env, i) && OffersFrom(env, i) {
      assert i <= i + |cycles| && env(i + |cycles|).enable && env(i + |cycles|).tick.go;
    }
  }
}
