/** The transmitter with the 4-bit interface selected refines the 1000 Mb/s transmitter, whatever
    the clock-enable pattern. */
module MiiTx {
  import opened Bits
  import opened Crc32
  import opened Signals
  import opened GmiiTx
  import opened TxWire

  datatype Cycle = Cycle(enable: bool, tick: Tick)

  /** One clock cycle with the nibble interface selected. */
  function MiiStep(m: System, ifg: nat, c: Cycle): System {
    System(Next(m.regs, Inputs(false, Offer(m.src, c.tick), c.enable, true, ifg)),
           Handshake(m.src, c.tick.go, m.regs.tready))
  }

  function MiiEnd(m: System, ifg: nat, cycles: seq<Cycle>): System
    decreases |cycles|
  {
    if cycles == [] then m else MiiEnd(MiiStep(m, ifg, cycles[0]), ifg, cycles[1..])
  }

  /** The symbol sampled after an enabled cycle. */
  function Now(m: System, c: Cycle): seq<Gmii> { if c.enable then [Output(m.regs)] else [] }

  /** What an interface that samples on enabled cycles sees, with the enable output high or low. */
  function Samples(m: System, ifg: nat, cycles: seq<Cycle>): seq<Gmii>
    decreases |cycles|
  {
    if cycles == [] then [] else
      var m' := MiiStep(m, ifg, cycles[0]);
      Now(m', cycles[0]) + Samples(m', ifg, cycles[1..])
  }

  /** A sample of this nibble; the upper half of the port is ignored. */
  ghost predicate Shows(x: Gmii, n: Nibble) { x.en && !x.er && x.data[..4] == n }

  ghost predicate ShowsAll(w: seq<Gmii>, n: seq<Nibble>) {
    |w| == |n| && forall i | 0 <= i < |w| :: Shows(w[i], n[i])
  }

  /** Samples with the enable low. */
  ghost predicate Quiet(w: seq<Gmii>) { forall i | 0 <= i < |w| :: !w[i].en }

  /** Bytes as nibbles, low nibble first. */
  function Split(bytes: seq<Byte>): (n: seq<Nibble>)
    ensures |n| == 2 * |bytes|
  {
    if bytes == [] then [] else [bytes[0][..4], bytes[0][4..]] + Split(bytes[1..])
  }

  lemma {:induction false} SplitAt(bytes: seq<Byte>, i: nat)
    requires i < |bytes|
    ensures Split(bytes)[2 * i] == bytes[i][..4] && Split(bytes)[2 * i + 1] == bytes[i][4..]
  {
    if i > 0 {
      SplitAt(bytes[1..], i - 1);
    }
  }

  // ---- The relation between the two transmitters ----

  /** Complete packets of at least two beats, the first perhaps already begun. */
  ghost predicate Tidy(beats: seq<Beat>) {
    && (beats != [] ==> beats[|beats| - 1].last)
    && forall i | 1 <= i < |beats| && beats[i - 1].last :: !beats[i].last
  }

  ghost predicate Fresh(beats: seq<Beat>) { Tidy(beats) && (beats != [] ==> !beats[0].last) }

  /** The delimiter is next: the byte-wide source is about to hand over its first beat, which the
      nibble-wide source has already handed over. */
  predicate AtDelimiter(r: Regs) { r.state == Preamble && r.framePtr == 7 }

  ghost predicate SameSource(src: Source, g: System) {
    if AtDelimiter(g.regs) then
      && Fresh(g.src.beats) && g.src.beats != [] && g.src.started && g.regs.tdata == g.src.beats[0].data
      && src == Source(g.src.beats[1..], true)
    else
      && src.beats == g.src.beats && (g.src.started ==> src.started)
      && Tidy(src.beats)
      && (g.regs.state != Payload ==> Fresh(src.beats))
      && (g.regs.state in {Preamble, Payload} ==> g.src.started && src.beats != [])
  }

  ghost predicate SameRegs(r: Regs, q: Regs) {
    && r.state == q.state && r.tdata == q.tdata && r.ifg == q.ifg && r.framePtr == q.framePtr && r.crc == q.crc
    && q.state != WaitEnd && q.tready == (q.state == Payload || AtDelimiter(q))
    && (q.state == Preamble ==> 1 <= q.framePtr <= 7)
  }

  /** The nibble transmitter is at the first nibble of a byte, or idle. */
  ghost predicate Even(m: System, g: System) {
    && !m.regs.miiOdd && !m.regs.tready
    && SameRegs(m.regs, g.regs) && SameSource(m.src, g)
  }

  /** The nibble transmitter owes the second nibble of the byte the other has just put out, and
      perhaps a handshake. */
  ghost predicate Odd(m: System, g: System) {
    && m.regs.miiOdd && m.regs.txEn == g.regs.txEn && m.regs.miiMsn == g.regs.txd[4..] && !m.regs.txEr
    && SameRegs(m.regs, g.regs)
    && (if m.regs.tready then
          && m.src.beats != [] && m.src.started
          && SameSource(Source(m.src.beats[1..], !m.src.beats[0].last), g)
        else SameSource(m.src, g))
  }

  /** What the byte-wide source does in the step that corresponds to an enabled first nibble. */
  function Match(m: System, t: Tick): Tick { Tick(Offers(m.src, t.go), t.rest) }

  lemma {:induction false} TidyTail(beats: seq<Beat>)
    requires Tidy(beats) && beats != []
    ensures Tidy(beats[1..]) && (beats[0].last ==> Fresh(beats[1..]))
    ensures !beats[0].last ==> beats[1..] != []
  {
  }

  /** A disabled cycle changes nothing but the handshake. */
  lemma {:induction false} DisabledStep(m: System, g: System, ifg: nat, c: Cycle)
    requires !c.enable && (Even(m, g) || Odd(m, g))
    ensures var m' := MiiStep(m, ifg, c);
            && (Even(m, g) ==> Even(m', g)) && (Odd(m, g) ==> Odd(m', g))
            && m'.regs.miiOdd == m.regs.miiOdd
  {
    hide Core, Tidy, Fresh;
  }

  /** The second nibble. */
  lemma {:induction false} OddStep(m: System, g: System, ifg: nat, c: Cycle)
    requires c.enable && Odd(m, g)
    ensures var m' := MiiStep(m, ifg, c);
            && Even(m', g) && m'.regs.txEn == g.regs.txEn && m'.regs.txd[..4] == g.regs.txd[4..]
            && !m'.regs.txEr
  {
    hide Core, Tidy, Fresh;
  }

  /** After the first nibble and one step of the other transmitter: the same output, and the
      second nibble owed if and only if they do not stay idle. */
  ghost predicate Stepped(m: System, g: System, ifg: nat, c: Cycle) {
    var m', g' := MiiStep(m, ifg, c), Step(g, ifg, Match(m, c.tick));
    && m'.regs.txEn == g'.regs.txEn && m'.regs.txd[..4] == g'.regs.txd[..4] && !m'.regs.txEr
    && (if Stays(g, Match(m, c.tick)) then Even(m', g') && !g'.regs.txEn else Odd(m', g'))
  }

  lemma {:induction false} IdleStep(m: System, g: System, ifg: nat, c: Cycle)
    requires c.enable && Even(m, g) && g.regs.state == Idle
    ensures Stepped(m, g, ifg, c)
  {
    hide CrcNext, Tidy, Fresh;
  }

  lemma {:induction false} PreambleEven(m: System, g: System, ifg: nat, c: Cycle)
    requires c.enable && Even(m, g) && g.regs.state == Preamble
    ensures Stepped(m, g, ifg, c)
  {
    hide CrcNext, Tidy;
    TidyTail(g.src.beats);
  }

  lemma {:induction false} PayloadEven(m: System, g: System, ifg: nat, c: Cycle)
    requires c.enable && Even(m, g) && g.regs.state == Payload
    ensures Stepped(m, g, ifg, c)
  {
    hide CrcNext, Tidy, Fresh;
    TidyTail(g.src.beats);
  }

  lemma {:induction false} LastEven(m: System, g: System, ifg: nat, c: Cycle)
    requires c.enable && Even(m, g) && g.regs.state == Last
    ensures Stepped(m, g, ifg, c)
  {
    hide CrcNext, Tidy, Fresh;
  }

  lemma {:induction false} PadEven(m: System, g: System, ifg: nat, c: Cycle)
    requires c.enable && Even(m, g) && g.regs.state == Pad
    ensures Stepped(m, g, ifg, c)
  {
    hide CrcNext, Tidy, Fresh;
  }

  lemma {:induction false} FcsEven(m: System, g: System, ifg: nat, c: Cycle)
    requires c.enable && Even(m, g) && g.regs.state == FcsBytes
    ensures Stepped(m, g, ifg, c)
  {
    hide CrcNext, Tidy, Fresh, Not;
  }

  lemma {:induction false} GapEven(m: System, g: System, ifg: nat, c: Cycle)
    requires c.enable && Even(m, g) && g.regs.state == Ifg
    ensures Stepped(m, g, ifg, c)
  {
    hide CrcNext, Tidy, Fresh;
  }

  lemma {:induction false} EvenStep(m: System, g: System, ifg: nat, c: Cycle)
    requires c.enable && Even(m, g)
    ensures Stepped(m, g, ifg, c)
  {
    hide Stepped;
    match g.regs.state
    case Idle => IdleStep(m, g, ifg, c);
    case Preamble => PreambleEven(m, g, ifg, c);
    case Payload => PayloadEven(m, g, ifg, c);
    case Last => LastEven(m, g, ifg, c);
    case Pad => PadEven(m, g, ifg, c);
    case FcsBytes => FcsEven(m, g, ifg, c);
    case Ifg => GapEven(m, g, ifg, c);
  }

  // ---- Runs ----

  /** The byte-wide transmitter steps on an enabled first nibble. */
  function ByteTick(m: System, c: Cycle): seq<Tick> {
    if c.enable && !m.regs.miiOdd then [Match(m, c.tick)] else []
  }

  /** The steps of the byte-wide transmitter over a run. */
  function ByteTicks(m: System, ifg: nat, cycles: seq<Cycle>): seq<Tick>
    decreases |cycles|
  {
    if cycles == [] then []
    else ByteTick(m, cycles[0]) + ByteTicks(MiiStep(m, ifg, cycles[0]), ifg, cycles[1..])
  }

  /** The two samples of a byte, or of its absence. */
  ghost predicate Pair(a: Gmii, b: Gmii, y: Gmii) {
    if y.en then Shows(a, y.data[..4]) && Shows(b, y.data[4..]) else !a.en && !b.en
  }

  /** These samples are the steps of the byte-wide transmitter: each two, low nibble first, with the
      enable as it has it; one where it stays idle. */
  ghost predicate Expands(g: System, ifg: nat, ticks: seq<Tick>, n: seq<Gmii>)
    decreases |ticks|
  {
    if ticks == [] then n == [] else
      var g' := Step(g, ifg, ticks[0]);
      if Stays(g, ticks[0]) then
        n != [] && !n[0].en && Expands(g', ifg, ticks[1..], n[1..])
      else
        |n| >= 2 && Pair(n[0], n[1], Output(g'.regs)) && Expands(g', ifg, ticks[1..], n[2..])
  }

  /** The second sample of the step last taken, while it is owed. */
  function Owed(m: System, g: System): seq<Gmii> {
    if m.regs.miiOdd then [Gmii(g.regs.txd[4..] + Zeros(4), g.regs.txEn, false)] else []
  }

  ghost predicate Half(x: Gmii, g: System) { if g.regs.txEn then Shows(x, g.regs.txd[4..]) else !x.en }

  /** The same from the middle of a step on. */
  ghost predicate Explains(m: System, g: System, ifg: nat, ticks: seq<Tick>, n: seq<Gmii>) {
    if m.regs.miiOdd then n != [] && Half(n[0], g) && Expands(g, ifg, ticks, n[1..])
    else Expands(g, ifg, ticks, n)
  }

  lemma {:induction false} OddShape(m: System, g: System)
    requires Even(m, g) || Odd(m, g)
    ensures m.regs.miiOdd <==> !Even(m, g)
    ensures m.regs.miiOdd <==> Odd(m, g)
  {
  }

  lemma {:induction false} SteppedShape(m: System, g: System, ifg: nat, c: Cycle)
    requires Stepped(m, g, ifg, c)
    ensures var m', g' := MiiStep(m, ifg, c), Step(g, ifg, Match(m, c.tick));
            && (Even(m', g') || Odd(m', g'))
            && m'.regs.txEn == g'.regs.txEn && m'.regs.txd[..4] == g'.regs.txd[..4] && !m'.regs.txEr
            && (if Stays(g, Match(m, c.tick)) then !m'.regs.miiOdd && !g'.regs.txEn else m'.regs.miiOdd)
  {
    hide MiiStep, Step, Match;
  }

  /** One cycle keeps the account. */
  lemma {:induction false} OneCycle(m: System, g: System, ifg: nat, c: Cycle, later: seq<Tick>, n: seq<Gmii>)
    requires Even(m, g) || Odd(m, g)
    requires var m', t := MiiStep(m, ifg, c), ByteTick(m, c);
             var g' := End(g, ifg, t);
             (Even(m', g') || Odd(m', g')) ==> Explains(m', g', ifg, later, n)
    ensures var m', t := MiiStep(m, ifg, c), ByteTick(m, c);
            var g' := End(g, ifg, t);
            && (Even(m', g') || Odd(m', g'))
            && End(g, ifg, t + later) == End(g', ifg, later)
            && Explains(m, g, ifg, t + later, Now(m', c) + n)
  {
    CycleRelated(m, g, ifg, c);
    hide Even, Odd, MiiStep, Step, Match, SameRegs, SameSource, Expands;
    var m' := MiiStep(m, ifg, c);
    OddShape(m, g);
    assert [] + later == later && [] + n == n;
    if !c.enable {
      DisabledStep(m, g, ifg, c);
    } else if m.regs.miiOdd {
      OddStep(m, g, ifg, c);
      OddShape(m', g);
      assert ([Output(m'.regs)] + n)[1..] == n;
    } else {
      var t := Match(m, c.tick);
      EvenStep(m, g, ifg, c);
      SteppedShape(m, g, ifg, c);
      assert [t][1..] == [] && ([t] + later)[1..] == later;
      FirstSample(m', g, Step(g, ifg, t), ifg, t, later, n);
    }
  }

  lemma {:induction false} FirstSample(m': System, g: System, g': System, ifg: nat, t: Tick, later: seq<Tick>,
                                       n: seq<Gmii>)
    requires g' == Step(g, ifg, t) && Explains(m', g', ifg, later, n)
    requires m'.regs.txEn == g'.regs.txEn && m'.regs.txd[..4] == g'.regs.txd[..4] && !m'.regs.txEr
    requires if Stays(g, t) then !m'.regs.miiOdd && !g'.regs.txEn else m'.regs.miiOdd
    ensures Expands(g, ifg, [t] + later, [Output(m'.regs)] + n)
  {
    hide Step;
    var x := Output(m'.regs);
    assert ([t] + later)[1..] == later && ([x] + n)[1..] == n;
    assert n != [] ==> ([x] + n)[2..] == n[1..];
  }

  /** The relation is kept, whatever follows. */
  lemma {:induction false} CycleRelated(m: System, g: System, ifg: nat, c: Cycle)
    requires Even(m, g) || Odd(m, g)
    ensures var m', g' := MiiStep(m, ifg, c), End(g, ifg, ByteTick(m, c));
            Even(m', g') || Odd(m', g')
  {
    hide Even, Odd, MiiStep, Step, Match, SameRegs, SameSource;
    OddShape(m, g);
    if !c.enable {
      DisabledStep(m, g, ifg, c);
    } else if m.regs.miiOdd {
      OddStep(m, g, ifg, c);
    } else {
      EvenStep(m, g, ifg, c);
      SteppedShape(m, g, ifg, c);
      assert [Match(m, c.tick)][1..] == [];
    }
  }

  /** For every clock-enable pattern the samples, with the one still owed, are those of a run of the
      1000 Mb/s transmitter. */
  lemma {:induction false} MiiRefines(m: System, g: System, ifg: nat, cycles: seq<Cycle>)
    requires Even(m, g) || Odd(m, g)
    ensures var ticks := ByteTicks(m, ifg, cycles);
            var m', g' := MiiEnd(m, ifg, cycles), End(g, ifg, ticks);
            && (Even(m', g') || Odd(m', g'))
            && Explains(m, g, ifg, ticks, Samples(m, ifg, cycles) + Owed(m', g'))
    decreases |cycles|
  {
    hide Even, Odd, MiiStep, Step, Match;
    if cycles == [] {
      hide Output;
      assert [] + Owed(m, g) == Owed(m, g);
      OwedHalf(m, g);
    } else {
      var c := cycles[0];
      var m1, later, t := MiiStep(m, ifg, c), ByteTicks(MiiStep(m, ifg, c), ifg, cycles[1..]), ByteTick(m, c);
      var g1 := End(g, ifg, t);
      CycleRelated(m, g, ifg, c);
      MiiRefines(m1, g1, ifg, cycles[1..]);
      hide End, ByteTick, Now, Owed, Explains;
      var rest, owed := Samples(m1, ifg, cycles[1..]), Owed(MiiEnd(m1, ifg, cycles[1..]), End(g1, ifg, later));
      OneCycle(m, g, ifg, c, later, rest + owed);
      assert Now(m1, c) + rest + owed == Now(m1, c) + (rest + owed);
    }
  }

  lemma {:induction false} OwedHalf(m: System, g: System)
    ensures forall ifg :: Explains(m, g, ifg, [], Owed(m, g))
  {
    assert (g.regs.txd[4..] + Zeros(4))[..4] == g.regs.txd[4..];
  }
}
