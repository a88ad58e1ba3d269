/** Two packet streams multiplexed without backpressure: each passes an isolator that changes its
    mind only between packets, and each isolator waits for the other. */
module PacketMux {
  import opened Bits
  import opened Signals

  // ---- The isolator ----

  /** `held` is the isolator's own copy of its state, kept while a packet is in progress. */
  datatype Isolator = Isolator(inProgress: bool, held: bool)

  function Isolated(r: Isolator, isolate: bool): bool {
    if r.inProgress then r.held else isolate
  }

  function Gate(r: Isolator, axis: Axis, isolate: bool): Axis {
    if Isolated(r, isolate) then BLANK else axis
  }

  function IsolatorNext(r: Isolator, axis: Axis, isolate: bool): Isolator {
    Isolator(if axis.valid then !axis.last else r.inProgress, if r.inProgress then r.held else isolate)
  }

  class AxisPktIsolate {
    var packetInProgress: bool
    var isolatedQ: bool

    constructor ()
      ensures State() == Isolator(false, true)
    {
      packetInProgress, isolatedQ := false, true;
    }

    function State(): Isolator
      reads this
    {
      Isolator(packetInProgress, isolatedQ)
    }

    /** The combinational outputs. */
    method Outputs(axis: Axis, isolate: bool) returns (axisO: Axis, isolatedO: bool)
      ensures isolatedO == Isolated(State(), isolate) && axisO == Gate(State(), axis, isolate)
    {
      isolatedO := if packetInProgress then isolatedQ else isolate;
      axisO := if isolatedO then BLANK else axis;
    }

    method Clock(axis: Axis, isolate: bool)
      modifies this
      ensures State() == IsolatorNext(old(State()), axis, isolate)
    {
      if !packetInProgress {
        isolatedQ := isolate;
      }
      if axis.valid {
        packetInProgress := !axis.last;
      }
    }
  }

  // ---- The multiplexor ----

  datatype Side = Zero | One

  function Other(k: Side): Side { if k == Zero then One else Zero }

  datatype Mux = Mux(iso0: Isolator, iso1: Isolator, q0: bool, q1: bool, out: Axis)

  datatype Cycle = Cycle(sel: bool, in0: Axis, in1: Axis)

  const RESET := Mux(Isolator(false, true), Isolator(false, true), true, true, BLANK)

  function Or(a: Vec, b: Vec): (v: Vec)
    requires |a| == |b|
    ensures |v| == |a| && forall i | 0 <= i < |a| :: v[i] == (a[i] || b[i])
  {
    seq(|a|, i requires 0 <= i < |a| => a[i] || b[i])
  }

  function OrAxis(a: Axis, b: Axis): Axis {
    Axis(Or(a.data, b.data), a.valid || b.valid, a.last || b.last, a.user || b.user)
  }

  function Input(c: Cycle, k: Side): Axis { if k == Zero then c.in0 else c.in1 }

  function Iso(m: Mux, k: Side): Isolator { if k == Zero then m.iso0 else m.iso1 }

  function Q(m: Mux, k: Side): bool { if k == Zero then m.q0 else m.q1 }

  /** The selected input: `sel` chooses input 1. */
  predicate Deselected(c: Cycle, k: Side) { if k == Zero then c.sel else !c.sel }

  function IsolateInput(m: Mux, c: Cycle, k: Side): bool { Deselected(c, k) || !Q(m, Other(k)) }

  /** Output `isolated` of the isolator of input `k`. */
  function Blocked(m: Mux, c: Cycle, k: Side): bool { Isolated(Iso(m, k), IsolateInput(m, c, k)) }

  function Next(m: Mux, c: Cycle): Mux {
    Mux(IsolatorNext(m.iso0, c.in0, IsolateInput(m, c, Zero)),
        IsolatorNext(m.iso1, c.in1, IsolateInput(m, c, One)),
        Blocked(m, c, Zero), Blocked(m, c, One),
        OrAxis(Gate(m.iso0, c.in0, IsolateInput(m, c, Zero)), Gate(m.iso1, c.in1, IsolateInput(m, c, One))))
  }

  class AxisPktMux {
    const isolate0: AxisPktIsolate
    const isolate1: AxisPktIsolate
    var isolatedQ0: bool
    var isolatedQ1: bool
    var axisO: Axis

    constructor ()
      ensures isolate0 != isolate1 && fresh(isolate0) && fresh(isolate1) && State() == RESET
    {
      isolate0 := new AxisPktIsolate();
      isolate1 := new AxisPktIsolate();
      isolatedQ0, isolatedQ1, axisO := true, true, BLANK;
    }

    function State(): Mux
      reads this, isolate0, isolate1
    {
      Mux(isolate0.State(), isolate1.State(), isolatedQ0, isolatedQ1, axisO)
    }

    /** One clock edge; `passthrough` is the combinational output before it. */
    method Clock(c: Cycle) returns (passthrough: bool)
      requires isolate0 != isolate1
      modifies this, isolate0, isolate1
      ensures State() == Next(old(State()), c)
      ensures passthrough == !(Blocked(old(State()), c, Zero) && Blocked(old(State()), c, One))
    {
      var wait0, wait1 := c.sel || !isolatedQ1, !c.sel || !isolatedQ0;
      var axis0, isolated0 := isolate0.Outputs(c.in0, wait0);
      var axis1, isolated1 := isolate1.Outputs(c.in1, wait1);
      passthrough := !isolated0 || !isolated1;
      isolate0.Clock(c.in0, wait0);
      isolate1.Clock(c.in1, wait1);
      axisO := OrAxis(axis0, axis1);
      isolatedQ0, isolatedQ1 := isolated0, isolated1;
    }
  }

  // ---- The latch ----

  /** What every reachable state keeps: the isolators' copies agree with the registered feedback,
      and at most one input was let through in the last cycle. */
  ghost predicate Safe(m: Mux) {
    m.iso0.held == m.q0 && m.iso1.held == m.q1 && (m.q0 || m.q1)
  }

  /** Never both un-isolated. */
  lemma {:induction false} NeverMixPaths(m: Mux, c: Cycle)
    requires Safe(m)
    ensures Safe(Next(m, c)) && (Blocked(m, c, Zero) || Blocked(m, c, One))
  {
  }

  /** The state after the cycles `cs`. */
  function After(m: Mux, cs: seq<Cycle>): Mux {
    if cs == [] then m else Next(After(m, cs[..|cs| - 1]), cs[|cs| - 1])
  }

  lemma {:induction false} StaysSafe(m: Mux, cs: seq<Cycle>)
    requires Safe(m)
    ensures Safe(After(m, cs))
  {
    hide Safe, Next;
    if cs != [] {
      StaysSafe(m, cs[..|cs| - 1]);
      NeverMixPaths(After(m, cs[..|cs| - 1]), cs[|cs| - 1]);
    }
  }

  // ---- No splice ----

  /** The valid beats of input `k`. */
  function Stream(cs: seq<Cycle>, k: Side): seq<Axis> {
    if cs == [] then [] else
      var a := Input(cs[|cs| - 1], k);
      Stream(cs[..|cs| - 1], k) + if a.valid then [a] else []
  }

  /** The valid beats of the output register. */
  function Output(m: Mux, cs: seq<Cycle>): seq<Axis> {
    if cs == [] then [] else
      var a := After(m, cs).out;
      Output(m, cs[..|cs| - 1]) + if a.valid then [a] else []
  }

  /** The beats of the packet not yet complete, and the packets complete. */
  function Open(beats: seq<Axis>): seq<Axis> {
    if beats == [] || beats[|beats| - 1].last then []
    else Open(beats[..|beats| - 1]) + [beats[|beats| - 1]]
  }

  function Complete(beats: seq<Axis>): seq<seq<Axis>> {
    if beats == [] then [] else
      var before, b := beats[..|beats| - 1], beats[|beats| - 1];
      if b.last then Complete(before) + [Open(before) + [b]] else Complete(before)
  }

  lemma {:induction false} OpenNoLast(beats: seq<Axis>)
    ensures forall b | b in Open(beats) :: !b.last
  {
    if beats != [] {
      OpenNoLast(beats[..|beats| - 1]);
    }
  }

  lemma {:induction false} ClosedPacket(before: seq<Axis>, b: Axis)
    requires b.last
    ensures IsPacket(Open(before) + [b])
  {
    OpenNoLast(before);
    var p := Open(before) + [b];
    assert forall i | 0 <= i < |p| - 1 :: p[i] in Open(before);
  }

  lemma {:induction false} CompleteArePackets(beats: seq<Axis>)
    ensures forall p | p in Complete(beats) :: IsPacket(p)
  {
    if beats != [] {
      var before, b := beats[..|beats| - 1], beats[|beats| - 1];
      CompleteArePackets(before);
      if b.last {
        ClosedPacket(before, b);
        hide Open, IsPacket;
      }
    }
  }

  lemma {:induction false} Appended(done: seq<Axis>, open: seq<Axis>, b: Axis, beats: seq<Axis>)
    requires beats != [] && done + open == beats[..|beats| - 1] && b == beats[|beats| - 1]
    ensures done + (open + [b]) == beats && (done + (open + [b])) + [] == beats
  {
    assert beats == (done + open) + [b];
  }

  /** Cutting a stream into packets loses nothing. */
  lemma {:induction false} PacketsWhole(beats: seq<Axis>)
    ensures Concat(Complete(beats)) + Open(beats) == beats
  {
    if beats != [] {
      var before, b := beats[..|beats| - 1], beats[|beats| - 1];
      PacketsWhole(before);
      ConcatSnoc(Complete(before), Open(before) + [b]);
      Appended(Concat(Complete(before)), Open(before), b, beats);
      hide Concat;
    }
  }

  ghost predicate IsPacket(p: seq<Axis>) {
    p != [] && forall i | 0 <= i < |p| :: p[i].last == (i == |p| - 1)
  }

  function Concat(ps: seq<seq<Axis>>): seq<Axis> {
    if ps == [] then [] else ps[0] + Concat(ps[1..])
  }

  lemma {:induction false} ConcatSnoc(ps: seq<seq<Axis>>, p: seq<Axis>)
    ensures Concat(ps + [p]) == Concat(ps) + p
  {
    if ps == [] {
      assert [p][1..] == [];
    } else {
      assert (ps + [p])[1..] == ps[1..] + [p];
      ConcatSnoc(ps[1..], p);
    }
  }

  /** A packet on the output and the input it came from. */
  datatype Passed = Passed(from: Side, packet: seq<Axis>)

  function Bodies(log: seq<Passed>): seq<seq<Axis>> {
    if log == [] then [] else Bodies(log[..|log| - 1]) + [log[|log| - 1].packet]
  }

  function From(log: seq<Passed>, k: Side): seq<seq<Axis>> {
    if log == [] then [] else
      From(log[..|log| - 1], k) + if log[|log| - 1].from == k then [log[|log| - 1].packet] else []
  }

  /** `a` is `b` with some elements left out. */
  ghost predicate Subsequence<T>(a: seq<T>, b: seq<T>) {
    if b == [] then a == [] else
      (|| Subsequence(a, b[..|b| - 1])
       || (a != [] && a[|a| - 1] == b[|b| - 1] && Subsequence(a[..|a| - 1], b[..|b| - 1])))
  }

  /** The packet now passing: the open packet of the input let through. */
  function Passing(m: Mux, cs: seq<Cycle>): seq<Axis> {
    if !m.q0 then Open(Stream(cs, Zero)) else if !m.q1 then Open(Stream(cs, One)) else []
  }

  /** The packets let through so far, in the order in which they ended. */
  function Log(m: Mux, cs: seq<Cycle>): seq<Passed> {
    if cs == [] then [] else
      var before, c := cs[..|cs| - 1], cs[|cs| - 1];
      Log(m, before) + Ended(After(m, before), before, c)
  }

  function Ended(s: Mux, before: seq<Cycle>, c: Cycle): seq<Passed> {
    if !Blocked(s, c, Zero) && c.in0.valid && c.in0.last then [Passed(Zero, Open(Stream(before, Zero)) + [c.in0])]
    else if !Blocked(s, c, One) && c.in1.valid && c.in1.last then [Passed(One, Open(Stream(before, One)) + [c.in1])]
    else []
  }

  ghost predicate InStep(s: Mux, cs: seq<Cycle>) {
    && Safe(s)
    && (s.iso0.inProgress <==> Open(Stream(cs, Zero)) != [])
    && (s.iso1.inProgress <==> Open(Stream(cs, One)) != [])
  }

  lemma {:induction false} StreamSnoc(cs: seq<Cycle>, c: Cycle, k: Side)
    ensures var a := Input(c, k);
            Stream(cs + [c], k) == Stream(cs, k) + if a.valid then [a] else []
    ensures var a := Input(c, k);
            Open(Stream(cs + [c], k))
            == if !a.valid then Open(Stream(cs, k)) else if a.last then [] else Open(Stream(cs, k)) + [a]
    ensures var a := Input(c, k);
            Complete(Stream(cs + [c], k))
            == Complete(Stream(cs, k)) + if a.valid && a.last then [Open(Stream(cs, k)) + [a]] else []
  {
    assert (cs + [c])[..|cs|] == cs;
    var a, before := Input(c, k), Stream(cs, k);
    assert (before + [a])[..|before|] == before;
    assert before + [] == before && Complete(before) + [] == Complete(before);
  }

  lemma {:induction false} OrBlank(a: Axis)
    ensures OrAxis(a, BLANK) == a && OrAxis(BLANK, a) == a
  {
    assert Or(a.data, Zeros(8)) == a.data && Or(Zeros(8), a.data) == a.data;
  }

  /** What a cycle puts into the output register. */
  lemma {:induction false} OutStep(s: Mux, c: Cycle)
    requires Safe(s)
    ensures Next(s, c).out == if !Blocked(s, c, Zero) then c.in0 else if !Blocked(s, c, One) then c.in1 else BLANK
  {
    NeverMixPaths(s, c);
    OrBlank(c.in0);
    OrBlank(c.in1);
    OrBlank(BLANK);
    hide OrAxis;
  }

  lemma {:induction false} InStepKept(s: Mux, cs: seq<Cycle>, c: Cycle)
    requires InStep(s, cs)
    ensures InStep(Next(s, c), cs + [c])
  {
    hide Stream, Open, Complete, OrAxis;
    StreamSnoc(cs, c, Zero);
    StreamSnoc(cs, c, One);
    NeverMixPaths(s, c);
  }

  /** One cycle: what was passing and the beat now put out are the packet that ends, if one does,
      and what passes next. */
  lemma {:induction false} PassStep(s: Mux, cs: seq<Cycle>, c: Cycle)
    requires InStep(s, cs)
    ensures var out := Next(s, c).out;
            Passing(s, cs) + (if out.valid then [out] else [])
            == Concat(Bodies(Ended(s, cs, c))) + Passing(Next(s, c), cs + [c])
  {
    hide Stream, Open, Complete, OrAxis;
    StreamSnoc(cs, c, Zero);
    StreamSnoc(cs, c, One);
    OutStep(s, c);
    var e := Ended(s, cs, c);
    if e != [] {
      assert Bodies(e) == [e[0].packet];
      assert Concat([e[0].packet]) == e[0].packet + Concat([]);
    }
  }

  lemma {:induction false} BodiesConcat(a: seq<Passed>, b: seq<Passed>)
    requires |b| <= 1
    ensures Bodies(a + b) == Bodies(a) + Bodies(b)
  {
    if b == [] {
      assert a + b == a;
    } else {
      assert (a + b)[..|a|] == a && b[..0] == [];
    }
  }

  lemma {:induction false} ConcatJoin(a: seq<seq<Axis>>, b: seq<seq<Axis>>)
    ensures Concat(a + b) == Concat(a) + Concat(b)
  {
    if a == [] {
      assert a + b == b;
    } else {
      assert (a + b)[1..] == a[1..] + b;
      ConcatJoin(a[1..], b);
    }
  }

  /** What input `k` delivers in a cycle that ends one of its packets is among the packets of its
      stream; a cycle that ends none lets none through. */
  lemma {:induction false} EndedFrom(s: Mux, cs: seq<Cycle>, c: Cycle, k: Side)
    requires InStep(s, cs)
    ensures var f, a := From(Ended(s, cs, c), k), Input(c, k);
            f == (if !Blocked(s, c, k) && a.valid && a.last then [Open(Stream(cs, k)) + [a]] else [])
    ensures |Ended(s, cs, c)| <= 1
  {
    hide Stream, Open;
    NeverMixPaths(s, c);
    var e := Ended(s, cs, c);
    if e != [] {
      assert e[..0] == [];
    }
  }

  lemma {:induction false} FromConcat(a: seq<Passed>, b: seq<Passed>, k: Side)
    requires |b| <= 1
    ensures From(a + b, k) == From(a, k) + From(b, k)
  {
    if b == [] {
      assert a + b == a;
    } else {
      assert (a + b)[..|a|] == a && b[..0] == [];
    }
  }

  /** In every run from reset, whatever the select line does, the valid output beats are whole
      packets one after the other, each from one input, and the beginning of the packet now
      passing; the packets from an input are among its packets, in order. */
  lemma {:induction false} NoSplice(cs: seq<Cycle>)
    ensures var s, log := After(RESET, cs), Log(RESET, cs);
            && InStep(s, cs)
            && Output(RESET, cs) == Concat(Bodies(log)) + Passing(s, cs)
            && Subsequence(From(log, Zero), Complete(Stream(cs, Zero)))
            && Subsequence(From(log, One), Complete(Stream(cs, One)))
  {
    if cs != [] {
      var before, c := cs[..|cs| - 1], cs[|cs| - 1];
      assert before + [c] == cs;
      NoSplice(before);
      var s, log := After(RESET, before), Log(RESET, before);
      var e := Ended(s, before, c);
      InStepKept(s, before, c);
      PassStep(s, before, c);
      BodiesConcat(log, e);
      ConcatJoin(Bodies(log), Bodies(e));
      OneMore(s, before, c, log, Zero);
      OneMore(s, before, c, log, One);
      hide Passing, Stream, Bodies, Concat, Ended, Subsequence, From, Complete, InStep, OrAxis, Next;
      Regroup(Concat(Bodies(log)), Passing(s, before), Concat(Bodies(e)), Passing(Next(s, c), cs),
              Output(RESET, before), if Next(s, c).out.valid then [Next(s, c).out] else []);
    }
  }

  /** The packets let through are whole: their last beat, and no other, ends them; and the one now
      passing has not ended. */
  lemma {:induction false} PassedWhole(m: Mux, cs: seq<Cycle>)
    ensures forall e | e in Log(m, cs) :: IsPacket(e.packet)
    ensures forall b | b in Passing(After(m, cs), cs) :: !b.last
  {
    OpenNoLast(Stream(cs, Zero));
    OpenNoLast(Stream(cs, One));
    hide Open, IsPacket, Stream, Blocked;
    if cs != [] {
      var before, c := cs[..|cs| - 1], cs[|cs| - 1];
      PassedWhole(m, before);
      if c.in0.last {
        ClosedPacket(Stream(before, Zero), c.in0);
      }
      if c.in1.last {
        ClosedPacket(Stream(before, One), c.in1);
      }
    }
  }

  lemma {:induction false} Regroup(done: seq<Axis>, pass: seq<Axis>, ended: seq<Axis>, next: seq<Axis>,
                                   out: seq<Axis>, now: seq<Axis>)
    requires out == done + pass && pass + now == ended + next
    ensures out + now == done + ended + next
  {
    assert out + now == done + (pass + now);
  }

  lemma {:induction false} OneMore(s: Mux, before: seq<Cycle>, c: Cycle, log: seq<Passed>, k: Side)
    requires InStep(s, before) && Subsequence(From(log, k), Complete(Stream(before, k)))
    ensures Subsequence(From(log + Ended(s, before, c), k), Complete(Stream(before + [c], k)))
  {
    hide *;
    var e := Ended(s, before, c);
    EndedFrom(s, before, c, k);
    FromConcat(log, e, k);
    StreamSnoc(before, c, k);
    SubsequenceMore(From(log, k), Complete(Stream(before, k)), Open(Stream(before, k)) + [Input(c, k)]);
  }

  lemma {:induction false} SubsequenceMore(a: seq<seq<Axis>>, all: seq<seq<Axis>>, p: seq<Axis>)
    requires Subsequence(a, all)
    ensures Subsequence(a, all + [p]) && Subsequence(a + [p], all + [p])
    ensures Subsequence(a + [], all + []) && Subsequence(a + [], all + [p])
  {
    assert (all + [p])[..|all|] == all && (a + [p])[..|a|] == a;
    assert a + [] == a && all + [] == all;
  }

  // ---- Switching over ----

  predicate Busy(m: Mux, cs: seq<Cycle>, k: Side, i: nat)
    requires i <= |cs|
  {
    Iso(After(m, cs[..i]), k).inProgress
  }

  predicate BlockedAt(m: Mux, cs: seq<Cycle>, k: Side, i: nat)
    requires i < |cs|
  {
    Blocked(After(m, cs[..i]), cs[i], k)
  }

  /** Input `k` is never in the middle of a packet for more than `L` consecutive cycles. */
  ghost predicate Bounded(m: Mux, cs: seq<Cycle>, k: Side, L: nat) {
    forall j: nat :: j + L < |cs| ==> FreeWithin(m, cs, k, j, L)
  }

  ghost predicate FreeWithin(m: Mux, cs: seq<Cycle>, k: Side, j: nat, L: nat)
    requires j + L < |cs|
  {
    exists i :: j <= i <= j + L && !Busy(m, cs, k, i)
  }

  /** The select line stays high for input 1, low for input 0. */
  ghost predicate Selects(cs: seq<Cycle>, k: Side) { forall c | c in cs :: c.sel == (k == One) }

  lemma {:induction false} NextAt(m: Mux, cs: seq<Cycle>, i: nat)
    requires i < |cs|
    ensures After(m, cs[..i + 1]) == Next(After(m, cs[..i]), cs[i])
  {
    assert cs[..i + 1][..i] == cs[..i];
  }

  /** An input that is not selected, once blocked, stays blocked. */
  lemma {:induction false} StaysBlocked(m: Mux, cs: seq<Cycle>, k: Side, i: nat, j: nat)
    requires Safe(m) && Selects(cs, Other(k)) && i <= j < |cs| && BlockedAt(m, cs, k, i)
    ensures BlockedAt(m, cs, k, j) && Q(After(m, cs[..j + 1]), k)
    decreases j - i
  {
    hide After;
    NextAt(m, cs, j);
    StaysSafe(m, cs[..j]);
    if i < j {
      StaysBlocked(m, cs, k, i, j - 1);
      assert cs[j] in cs;
    }
  }

  /** The selected input, once let through with the other blocked, stays let through. */
  lemma {:induction false} StaysOpen(m: Mux, cs: seq<Cycle>, k: Side, b: nat, i: nat, j: nat)
    requires Safe(m) && Selects(cs, k) && b < i <= j < |cs|
    requires BlockedAt(m, cs, Other(k), b) && !BlockedAt(m, cs, k, i)
    ensures !BlockedAt(m, cs, k, j) && !Q(After(m, cs[..j + 1]), k)
    decreases j - i
  {
    hide After;
    NextAt(m, cs, j);
    StaysSafe(m, cs[..j]);
    if i < j {
      StaysOpen(m, cs, k, b, i, j - 1);
      StaysBlocked(m, cs, Other(k), b, j - 1);
      assert cs[j] in cs;
    }
  }

  /** Bounded switch-over: with the select line on input `k` and neither input in the middle of a
      packet for more than `L` cycles on end, within `2 * L + 1` cycles input `k` is let through,
      and from then on the output shows its beats and nothing else. */
  lemma {:induction false} SwitchOver(m: Mux, cs: seq<Cycle>, k: Side, L: nat) returns (t: nat)
    requires Safe(m) && Selects(cs, k) && |cs| > 2 * L + 1
    requires Bounded(m, cs, k, L) && Bounded(m, cs, Other(k), L)
    ensures t <= 2 * L + 1
    ensures forall j | t <= j < |cs| :: !BlockedAt(m, cs, k, j)
    ensures forall n | t <= n <= |cs| :: Output(m, cs[..n]) == Output(m, cs[..t]) + Stream(cs[t..n], k)
  {
    hide After, Output, Stream;
    assert FreeWithin(m, cs, Other(k), 0, L);
    var b :| 0 <= b <= L && !Busy(m, cs, Other(k), b);
    assert cs[b] in cs;
    assert BlockedAt(m, cs, Other(k), b);
    assert FreeWithin(m, cs, k, b + 1, L);
    t :| b + 1 <= t <= b + 1 + L && !Busy(m, cs, k, t);
    StaysBlocked(m, cs, Other(k), b, t - 1);
    assert cs[t] in cs;
    assert !BlockedAt(m, cs, k, t);
    forall j | t <= j < |cs| ensures !BlockedAt(m, cs, k, j) {
      StaysOpen(m, cs, k, b, t, j);
    }
    forall n | t <= n <= |cs| ensures Output(m, cs[..n]) == Output(m, cs[..t]) + Stream(cs[t..n], k) {
      ShowsInput(m, cs, k, t, n);
    }
  }

  lemma {:induction false} ShowsInput(m: Mux, cs: seq<Cycle>, k: Side, t: nat, n: nat)
    requires Safe(m) && t <= n <= |cs|
    requires forall j | t <= j < |cs| :: !BlockedAt(m, cs, k, j)
    ensures Output(m, cs[..n]) == Output(m, cs[..t]) + Stream(cs[t..n], k)
    decreases n
  {
    hide *;
    if t == n {
      NoBeats(cs[t..n], k);
    } else {
      ShowsInput(m, cs, k, t, n - 1);
      OneMoreShown(m, cs, k, n);
      OneMoreBeat(cs, k, t, n);
    }
  }

  function Beat(c: Cycle, k: Side): seq<Axis> { if Input(c, k).valid then [Input(c, k)] else [] }

  lemma {:induction false} OneMoreShown(m: Mux, cs: seq<Cycle>, k: Side, n: nat)
    requires Safe(m) && 0 < n <= |cs| && !BlockedAt(m, cs, k, n - 1)
    ensures Output(m, cs[..n]) == Output(m, cs[..n - 1]) + Beat(cs[n - 1], k)
  {
    StaysSafe(m, cs[..n - 1]);
    NextAt(m, cs, n - 1);
    OpenShows(After(m, cs[..n - 1]), cs[n - 1], k);
    OutputSnoc(m, cs[..n]);
    assert cs[..n][..n - 1] == cs[..n - 1];
    hide Next, OrAxis, Safe, Blocked, Output, After;
  }

  lemma {:induction false} OneMoreBeat(cs: seq<Cycle>, k: Side, t: nat, n: nat)
    requires t < n <= |cs|
    ensures Stream(cs[t..n], k) == Stream(cs[t..n - 1], k) + Beat(cs[n - 1], k)
  {
    assert cs[t..n] == cs[t..n - 1] + [cs[n - 1]];
    StreamSnoc(cs[t..n - 1], cs[n - 1], k);
  }

  lemma {:induction false} NoBeats(cs: seq<Cycle>, k: Side)
    requires cs == []
    ensures Stream(cs, k) == []
  {
  }

  lemma {:induction false} OpenShows(s: Mux, c: Cycle, k: Side)
    requires Safe(s) && !Blocked(s, c, k)
    ensures Next(s, c).out == Input(c, k)
  {
    hide OrAxis;
    OutStep(s, c);
    NeverMixPaths(s, c);
  }

  lemma {:induction false} OutputSnoc(m: Mux, cs: seq<Cycle>)
    requires cs != []
    ensures var a := After(m, cs).out;
            Output(m, cs) == Output(m, cs[..|cs| - 1]) + if a.valid then [a] else []
  {
  }

  // ---- Without a switch-over ----

  /** Input `k` is let through, or will be as soon as it is selected and between packets; the other
      is not. */
  ghost predicate Settled(x: Mux, k: Side) {
    Safe(x) && Q(x, Other(k)) && (!Q(x, k) || !Iso(x, k).inProgress)
  }

  lemma {:induction false} SettledStep(x: Mux, c: Cycle, k: Side)
    requires Settled(x, k) && c.sel == (k == One)
    ensures Settled(Next(x, c), k) && Next(x, c).out == Input(c, k)
  {
    OutStep(x, c);
    NeverMixPaths(x, c);
    hide OrAxis;
  }

  /** With the select line constant, the output is the selected input's beats and nothing else. */
  lemma {:induction false} SelectedShown(x: Mux, cs: seq<Cycle>, k: Side)
    requires Settled(x, k) && Selects(cs, k)
    ensures Output(x, cs) == Stream(cs, k) && Settled(After(x, cs), k)
  {
    hide Settled, Next, Input;
    if cs != [] {
      var n := |cs| - 1;
      forall c | c in cs[..n] ensures c.sel == (k == One) {
        assert c in cs;
      }
      SelectedShown(x, cs[..n], k);
      SettledStep(After(x, cs[..n]), cs[n], k);
    }
  }

  lemma {:induction false} SelectedRegister(x: Mux, cs: seq<Cycle>, k: Side, i: nat)
    requires Settled(x, k) && Selects(cs, k) && i < |cs|
    ensures After(x, cs[..i + 1]).out == Input(cs[i], k)
  {
    hide Settled, Next, Input, After;
    NextAt(x, cs, i);
    forall c | c in cs[..i] ensures c.sel == (k == One) {
      assert c in cs;
    }
    SelectedShown(x, cs[..i], k);
    assert cs[i] in cs;
    SettledStep(After(x, cs[..i]), cs[i], k);
  }

  /** From reset: with the select line low the output register shows input 0, with it high input 1, one
      cycle later; and the beats put out are that input's. */
  lemma {:induction false} SelectedFromReset(cs: seq<Cycle>)
    ensures (forall c | c in cs :: !c.sel) ==>
              && Output(RESET, cs) == Stream(cs, Zero)
              && forall i: nat | i < |cs| :: After(RESET, cs[..i + 1]).out == cs[i].in0
    ensures (forall c | c in cs :: c.sel) ==>
              && Output(RESET, cs) == Stream(cs, One)
              && forall i: nat | i < |cs| :: After(RESET, cs[..i + 1]).out == cs[i].in1
  {
    assert Settled(RESET, Zero) && Settled(RESET, One);
    hide Output, Stream, After, Settled;
    if forall c | c in cs :: !c.sel {
      SelectedShown(RESET, cs, Zero);
      forall i: nat | i < |cs| ensures After(RESET, cs[..i + 1]).out == cs[i].in0 {
        SelectedRegister(RESET, cs, Zero, i);
      }
    }
    if forall c | c in cs :: c.sel {
      SelectedShown(RESET, cs, One);
      forall i: nat | i < |cs| ensures After(RESET, cs[..i + 1]).out == cs[i].in1 {
        SelectedRegister(RESET, cs, One, i);
      }
    }
  }
}
