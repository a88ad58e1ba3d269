/** What the receiver makes of the wire in 1000 Mb/s mode. */
module RxFrames {
  import opened Bits
  import opened Crc32
  import opened Crc32Check
  import opened Signals
  import opened GmiiRx

  /** A beat of the output stream; `user` marks a bad packet. */
  datatype OutBeat = OutBeat(data: Byte, last: bool, user: bool)

  /** A cycle with the clock enabled, no reset and the byte-wide interface selected. */
  function Step(r: Regs, rx: Gmii): Regs { Next(r, Inputs(false, rx, true, false)) }

  function End(r: Regs, w: seq<Gmii>): Regs
    decreases |w|
  {
    if w == [] then r else End(Step(r, w[0]), w[1..])
  }

  function Emitted(r: Regs): seq<OutBeat> {
    if r.out.valid then [OutBeat(r.out.data, r.out.last, r.out.user)] else []
  }

  /** The beats that come out while the wire shows `w`. */
  function Received(r: Regs, w: seq<Gmii>): seq<OutBeat>
    decreases |w|
  {
    if w == [] then [] else Emitted(Step(r, w[0])) + Received(Step(r, w[0]), w[1..])
  }

  /** A packet's beats from byte `k`: last and user on the final one. */
  function OutFrom(p: seq<Byte>, bad: bool, k: nat): seq<OutBeat>
    requires k <= |p|
    decreases |p| - k
  {
    if k == |p| then [] else
      var last := k == |p| - 1;
      [OutBeat(p[k], last, last && bad)] + OutFrom(p, bad, k + 1)
  }

  /** A packet on the output. */
  function OutBeats(p: seq<Byte>, bad: bool): seq<OutBeat> { OutFrom(p, bad, 0) }

  lemma {:induction false} OutFromAt(p: seq<Byte>, bad: bool, k: nat, i: nat)
    requires k <= i < |p|
    ensures |OutFrom(p, bad, k)| == |p| - k
    ensures OutFrom(p, bad, k)[i - k] == OutBeat(p[i], i == |p| - 1, i == |p| - 1 && bad)
    decreases |p| - k
  {
    if k < i {
      OutFromAt(p, bad, k + 1, i);
    } else if k + 1 < |p| {
      OutFromAt(p, bad, k + 1, k + 1);
    }
  }

  /** No data valid in the delay line, and no packet open. */
  ghost predicate Listening(r: Regs) {
    && (r.state == Idle || (r.state == Crc && r.crcCnt <= 3))
    && !r.d0.dv && !r.d1.dv && !r.d2.dv && !r.d3.dv && !r.d4.dv
  }

  lemma {:induction false} ReceivedSplit(r: Regs, a: seq<Gmii>, b: seq<Gmii>)
    ensures Received(r, a + b) == Received(r, a) + Received(End(r, a), b)
    ensures End(r, a + b) == End(End(r, a), b)
    decreases |a|
  {
    hide Step;
    if a == [] {
      assert a + b == b;
    } else {
      assert (a + b)[1..] == a[1..] + b;
      ReceivedSplit(Step(r, a[0]), a[1..], b);
    }
  }

  lemma {:induction false} QuietStep(r: Regs, rx: Gmii)
    requires Listening(r) && !rx.en
    ensures Listening(Step(r, rx)) && Emitted(Step(r, rx)) == []
  {
    hide CrcNext;
  }

  // ---- One frame ----

  /** Stage `i` of the delay line after the first `t` symbols of `f`. */
  ghost predicate Stage(tap: Tap, f: seq<Gmii>, t: nat, i: nat)
    requires t <= |f|
  {
    if i < t then tap == Tap(f[t - 1 - i].data, true, f[t - 1 - i].er) else !tap.dv
  }

  ghost predicate Line(r: Regs, f: seq<Gmii>, t: nat)
    requires t <= |f|
  {
    && Stage(r.d0, f, t, 0) && Stage(r.d1, f, t, 1) && Stage(r.d2, f, t, 2)
    && Stage(r.d3, f, t, 3) && Stage(r.d4, f, t, 4)
  }

  lemma {:induction false} StageStep(tap: Tap, f: seq<Gmii>, t: nat, i: nat)
    requires t < |f| && Stage(tap, f, t, i)
    ensures Stage(tap, f, t + 1, i + 1)
  {
  }

  lemma {:induction false} LineStep(r: Regs, f: seq<Gmii>, t: nat)
    requires t < |f| && Line(r, f, t) && f[t].en
    ensures Line(Step(r, f[t]), f, t + 1)
  {
    StageStep(r.d0, f, t, 0);
    StageStep(r.d1, f, t, 1);
    StageStep(r.d2, f, t, 2);
    StageStep(r.d3, f, t, 3);
    var n := Tap(f[t].data, true, f[t].er);
    assert Stage(n, f, t + 1, 0);
    hide Stage;
    ShiftStep(r, f[t]);
    hide Step;
  }

  lemma {:induction false} ShiftStep(r: Regs, rx: Gmii)
    requires rx.en
    ensures var r' := Step(r, rx);
            r'.d0 == Tap(rx.data, true, rx.er) && r'.d1 == r.d0 && r'.d2 == r.d1 && r'.d3 == r.d2 && r'.d4 == r.d3
  {
    CoreKeepsLine(r, rx.en);
    hide Core;
  }

  lemma {:induction false} CoreKeepsLine(r: Regs, dv: bool)
    ensures var c := Core(r, dv);
            c.d0 == r.d0 && c.d1 == r.d1 && c.d2 == r.d2 && c.d3 == r.d3 && c.d4 == r.d4
  {
    hide CrcNext;
  }

  /** A frame as received: anything without a delimiter, the delimiter, data and four check bytes. */
  function FrameBytes(pre: seq<Byte>, data: seq<Byte>, check: seq<Byte>): (f: seq<Byte>)
    ensures |f| == |pre| + 1 + |data| + |check|
  {
    pre + [ETH_SFD] + data + check
  }

  /** The oldest stage during the data, and the others when the frame ends. */
  lemma {:induction false} LineInData(r: Regs, pre: seq<Byte>, data: seq<Byte>, check: seq<Byte>, k: nat, t: nat)
    requires k < |data| && |check| == 4 && t == |pre| + 6 + k && Line(r, Symbols(FrameBytes(pre, data, check)), t)
    ensures r.d4 == Tap(data[k], true, false)
    ensures k + 1 == |data| ==>
              && r.d0 == Tap(check[3], true, false) && r.d1 == Tap(check[2], true, false)
              && r.d2 == Tap(check[1], true, false) && r.d3 == Tap(check[0], true, false)
  {
  }

  /** The rest of a frame from symbol `t`, and the first symbol after it. */
  function Tail(f: seq<Gmii>, t: nat, quiet: Gmii): (w: seq<Gmii>)
    requires t <= |f|
  {
    f[t..] + [quiet]
  }

  lemma {:induction false} TailStep(r: Regs, f: seq<Gmii>, t: nat, quiet: Gmii)
    requires t <= |f|
    ensures var rx := if t < |f| then f[t] else quiet;
            var r', w := Step(r, rx), Tail(f, t, quiet);
            if t < |f| then
              && Received(r, w) == Emitted(r') + Received(r', Tail(f, t + 1, quiet))
              && End(r, w) == End(r', Tail(f, t + 1, quiet))
            else
              Received(r, w) == Emitted(r') && End(r, w) == r'
  {
    hide Step;
    var w := Tail(f, t, quiet);
    assert w[0] == if t < |f| then f[t] else quiet;
    assert w[1..] == if t < |f| then Tail(f, t + 1, quiet) else [];
  }

  /** The state in which a frame leaves the receiver: the packet is out, its check bytes are still
      in the delay line, the register holds what the data bytes made of it, and the error outputs say
      whether the check failed. */
  ghost predicate Delivered(r: Regs, data: seq<Byte>, check: seq<Byte>)
    requires |check| == 4
  {
    && Listening(r) && r.state == Crc && r.crcCnt == 0 && r.crc == CrcBytes(Ones(32), data)
    && r.d4.data == check[0] && r.d3.data == check[1] && r.d2.data == check[2] && r.d1.data == check[3]
    && r.badFrame == r.badFcs == !Accepted(data + check)
  }

  lemma {:induction false} DataPhase(r: Regs, pre: seq<Byte>, data: seq<Byte>, check: seq<Byte>,
                                     k: nat, t: nat, quiet: Gmii)
    requires k < |data| && |check| == 4 && !quiet.en && t == |pre| + 6 + k
    requires r.state == Payload && Line(r, Symbols(FrameBytes(pre, data, check)), t)
    requires r.crc == CrcBytes(Ones(32), data[..k])
    ensures var w := Tail(Symbols(FrameBytes(pre, data, check)), t, quiet);
            && Received(r, w) == OutFrom(data, !Accepted(data + check), k)
            && Delivered(End(r, w), data, check)
    decreases |data| - k
  {
    hide CrcNext, CrcBytes, Accepted, Step, Line, FrameBytes, Delivered, Received, End, Tail;
    var f := Symbols(FrameBytes(pre, data, check));
    TailStep(r, f, t, quiet);
    LineInData(r, pre, data, check, k, t);
    CrcSnoc(data, k);
    if k + 1 < |data| {
      DataStep(r, f[t]);
      LineStep(r, f, t);
      DataPhase(Step(r, f[t]), pre, data, check, k + 1, t + 1, quiet);
    } else {
      assert data[..k + 1] == data;
      TailStep(r, f, |f|, quiet);
      LastDataStep(r, quiet, data, check);
    }
  }

  lemma {:induction false} CrcSnoc(data: seq<Byte>, k: nat)
    requires k < |data|
    ensures CrcNext(CrcBytes(Ones(32), data[..k]), data[k]) == CrcBytes(Ones(32), data[..k + 1])
  {
    assert data[..k + 1] == data[..k] + [data[k]];
    CrcBytesConcat(Ones(32), data[..k], [data[k]]);
    hide CrcNext;
    assert [data[k]][1..] == [];
  }

  lemma {:induction false} DataStep(r: Regs, rx: Gmii)
    requires r.state == Payload && rx.en && !r.d4.er
    ensures var r' := Step(r, rx);
            && r'.state == Payload && r'.crc == CrcNext(r.crc, r.d4.data)
            && Emitted(r') == [OutBeat(r.d4.data, false, false)] && !r'.badFrame && !r'.badFcs
  {
    hide CrcNext;
  }

  lemma {:induction false} LastDataStep(r: Regs, quiet: Gmii, data: seq<Byte>, check: seq<Byte>)
    requires data != [] && |check| == 4 && !quiet.en && r.state == Payload
    requires r.d0 == Tap(check[3], true, false) && r.d1 == Tap(check[2], true, false)
    requires r.d2 == Tap(check[1], true, false) && r.d3 == Tap(check[0], true, false)
    requires r.d4 == Tap(data[|data| - 1], true, false)
    requires CrcNext(r.crc, r.d4.data) == CrcBytes(Ones(32), data)
    ensures Delivered(Step(r, quiet), data, check)
    ensures Emitted(Step(r, quiet)) == [OutBeat(r.d4.data, true, !Accepted(data + check))]
  {
    hide CrcNext, CrcBytes;
    CheckBytes(data, check);
  }

  /** The four bytes compared in the delay line are the check sequence. */
  lemma {:induction false} CheckBytes(data: seq<Byte>, check: seq<Byte>)
    requires |check| == 4
    ensures Join4(check[0], check[1], check[2], check[3]) == Not(CrcBytes(Ones(32), data))
       <==> Accepted(data + check)
  {
    CrcBytesConcat(Ones(32), data, check);
    ComplementIffResidue(CrcBytes(Ones(32), data), check);
    FlattenFour(check);
  }

  lemma {:induction false} FlattenFour(f: seq<Byte>)
    requires |f| == 4
    ensures Flatten(f) == Join4(f[0], f[1], f[2], f[3])
  {
    assert Flatten(f) == f[0] + Flatten(f[1..]);
    assert Flatten(f[1..]) == f[1] + Flatten(f[1..][1..]) && f[1..][1..] == f[2..];
    assert Flatten(f[2..]) == f[2] + Flatten(f[2..][1..]) && f[2..][1..] == f[3..];
    assert Flatten(f[3..]) == f[3] + Flatten(f[3..][1..]) && f[3..][1..] == [];
    assert Flatten([]) == [];
  }

  /** A frame begins with these bytes, whatever is flagged in them, and a delimiter, not flagged. */
  ghost predicate Begins(f: seq<Gmii>, pre: seq<Byte>) {
    && |f| >= |pre| + 6 && (forall i | 0 <= i < |f| :: f[i].en)
    && (forall i | 0 <= i < |pre| :: f[i].data == pre[i] && pre[i] != ETH_SFD)
    && f[|pre|] == Gmii(ETH_SFD, true, false)
  }

  lemma {:induction false} LineInPreamble(r: Regs, f: seq<Gmii>, pre: seq<Byte>, t: nat)
    requires Begins(f, pre) && t <= |pre| + 5 && Line(r, f, t)
    ensures t < |pre| + 5 ==> !(r.d4.dv && r.d4.data == ETH_SFD)
    ensures t == |pre| + 5 ==> r.d4 == Tap(ETH_SFD, true, false)
  {
  }

  /** Nothing comes out until the delimiter has gone through the delay line. */
  lemma {:induction false} Hunt(r: Regs, f: seq<Gmii>, pre: seq<Byte>, t: nat, quiet: Gmii) returns (r': Regs)
    requires Begins(f, pre) && t <= |pre| + 5 && Line(r, f, t)
    requires r.state == Idle || (r.state == Crc && t <= |pre| + 1 + r.crcCnt && r.crcCnt <= 3)
    ensures r'.state == Payload && r'.crc == Ones(32) && Line(r', f, |pre| + 6)
    ensures var w, w' := Tail(f, t, quiet), Tail(f, |pre| + 6, quiet);
            Received(r, w) == Received(r', w') && End(r, w) == End(r', w')
    decreases |pre| + 5 - t
  {
    hide CrcNext, Step, Line, Received, End, Tail;
    TailStep(r, f, t, quiet);
    LineInPreamble(r, f, pre, t);
    LineStep(r, f, t);
    if t < |pre| + 5 {
      HuntStep(r, f[t]);
      r' := Hunt(Step(r, f[t]), f, pre, t + 1, quiet);
    } else {
      FoundStep(r, f[t]);
      r' := Step(r, f[t]);
    }
  }

  lemma {:induction false} HuntPhase(r: Regs, pre: seq<Byte>, data: seq<Byte>, check: seq<Byte>, t: nat, quiet: Gmii)
    requires ETH_SFD !in pre && data != [] && |check| == 4 && !quiet.en && t <= |pre| + 5
    requires Line(r, Symbols(FrameBytes(pre, data, check)), t)
    requires r.state == Idle || (r.state == Crc && t <= |pre| + 1 + r.crcCnt && r.crcCnt <= 3)
    ensures var w := Tail(Symbols(FrameBytes(pre, data, check)), t, quiet);
            && Received(r, w) == OutBeats(data, !Accepted(data + check))
            && Delivered(End(r, w), data, check)
  {
    hide *;
    var f, u := Symbols(FrameBytes(pre, data, check)), |pre| + 6;
    FrameBegins(pre, data, check);
    var r' := Hunt(r, f, pre, t, quiet);
    PayloadPhase(r', pre, data, check, u, quiet);
  }

  lemma {:induction false} FrameBegins(pre: seq<Byte>, data: seq<Byte>, check: seq<Byte>)
    requires ETH_SFD !in pre && data != [] && |check| == 4
    ensures Begins(Symbols(FrameBytes(pre, data, check)), pre)
  {
  }

  /** From the first data byte. */
  lemma {:induction false} PayloadPhase(r: Regs, pre: seq<Byte>, data: seq<Byte>, check: seq<Byte>, u: nat, quiet: Gmii)
    requires data != [] && |check| == 4 && !quiet.en && u == |pre| + 6
    requires r.state == Payload && r.crc == Ones(32) && Line(r, Symbols(FrameBytes(pre, data, check)), u)
    ensures var w := Tail(Symbols(FrameBytes(pre, data, check)), u, quiet);
            && Received(r, w) == OutBeats(data, !Accepted(data + check))
            && Delivered(End(r, w), data, check)
  {
    NoBytes(Ones(32));
    assert data[..0] == [];
    hide CrcNext, CrcBytes, Accepted, Step, Line, FrameBytes, Delivered, Received, End, Tail, OutFrom;
    DataPhase(r, pre, data, check, 0, u, quiet);
  }

  lemma {:induction false} HuntStep(r: Regs, rx: Gmii)
    requires r.state == Crc || (r.state == Idle && !(r.d4.dv && !r.d4.er && r.d4.data == ETH_SFD))
    ensures var r' := Step(r, rx);
            && Emitted(r') == [] && !r'.badFrame && !r'.badFcs
            && (r.state == Idle ==> r'.state == Idle)
            && (r.state == Crc ==>
                  if r.crcCnt == 3 then r'.state == Idle
                  else r'.state == Crc && r'.crcCnt == (r.crcCnt + 1) % 4)
  {
    hide CrcNext;
  }

  lemma {:induction false} FoundStep(r: Regs, rx: Gmii)
    requires r.state == Idle && r.d4 == Tap(ETH_SFD, true, false)
    ensures var r' := Step(r, rx);
            Emitted(r') == [] && r'.state == Payload && r'.crc == Ones(32)
  {
    hide CrcNext;
  }

  /** Any frame, intact or not: whatever precedes the delimiter, the data bytes come out as one
      packet as soon as data valid drops, marked bad exactly when the check fails. */
  lemma {:induction false} ReceiveFrame(r: Regs, pre: seq<Byte>, data: seq<Byte>, check: seq<Byte>, quiet: Gmii)
    requires Listening(r) && ETH_SFD !in pre && data != [] && |check| == 4 && !quiet.en
    ensures var w := Symbols(FrameBytes(pre, data, check)) + [quiet];
            && Received(r, w) == OutBeats(data, !Accepted(data + check))
            && Delivered(End(r, w), data, check)
  {
    var f := Symbols(FrameBytes(pre, data, check));
    assert f[0..] == f;
    hide FrameBytes;
    HuntPhase(r, pre, data, check, 0, quiet);
  }

  /** Four cycles later, whatever the wire shows, the check bytes have gone through the register. */
  lemma {:induction false} ResidueEquivalence(r: Regs, pre: seq<Byte>, data: seq<Byte>, check: seq<Byte>,
                                              after: seq<Gmii>)
    requires Listening(r) && ETH_SFD !in pre && data != [] && |check| == 4
    requires |after| == 5 && !after[0].en
    ensures var r' := End(r, Symbols(FrameBytes(pre, data, check)) + after);
            && r'.state == Idle && r'.fcs == CrcBytes(Ones(32), data + check)
            && (r'.fcs == RESIDUE <==> Received(r, Symbols(FrameBytes(pre, data, check)) + [after[0]])
                                       == OutBeats(data, false))
  {
    hide CrcNext, CrcBytes, FrameBytes, RESIDUE, Step, OutBeats;
    var w := Symbols(FrameBytes(pre, data, check)) + [after[0]];
    ReceiveFrame(r, pre, data, check, after[0]);
    assert Symbols(FrameBytes(pre, data, check)) + after == w + after[1..];
    ReceivedSplit(r, w, after[1..]);
    var r0 := End(r, w);
    hide Received;
    CheckPhase(r0, check, after[1..]);
    CrcBytesConcat(Ones(32), data, check);
    GoodIsGood(data);
  }

  lemma {:induction false} GoodIsGood(data: seq<Byte>)
    requires data != []
    ensures OutBeats(data, true) != OutBeats(data, false)
  {
    OutFromAt(data, true, 0, |data| - 1);
    OutFromAt(data, false, 0, |data| - 1);
  }

  /** The check bytes still in the delay line pass through the register. */
  lemma {:induction false} CheckPhase(r: Regs, bytes: seq<Byte>, w: seq<Gmii>)
    requires 0 < |bytes| == |w| <= 4 && r.state == Crc && r.crcCnt == 4 - |w|
    requires r.d4.data == bytes[0]
    requires |w| > 1 ==> r.d3.data == bytes[1]
    requires |w| > 2 ==> r.d2.data == bytes[2]
    requires |w| > 3 ==> r.d1.data == bytes[3]
    ensures End(r, w).state == Idle && End(r, w).fcs == CrcBytes(r.crc, bytes)
    decreases |w|
  {
    hide Step, CrcNext;
    CheckStep(r, w[0]);
    if |w| > 1 {
      CheckPhase(Step(r, w[0]), bytes[1..], w[1..]);
    } else {
      assert w[1..] == [] && bytes[1..] == [];
    }
  }

  lemma {:induction false} CheckStep(r: Regs, rx: Gmii)
    requires r.state == Crc && r.crcCnt <= 3
    ensures var r' := Step(r, rx);
            && r'.crc == CrcNext(r.crc, r.d4.data)
            && r'.d4.data == r.d3.data && r'.d3.data == r.d2.data && r'.d2.data == r.d1.data
            && (if r.crcCnt == 3 then r'.state == Idle && r'.fcs == r'.crc
                else r'.state == Crc && r'.crcCnt == r.crcCnt + 1 && r'.fcs == Zeros(32))
  {
    hide CrcNext;
  }

  /** A frame sent intact: data and its own check sequence. */
  lemma {:induction false} ReceiveIntact(r: Regs, pre: seq<Byte>, data: seq<Byte>, quiet: Gmii)
    requires Listening(r) && ETH_SFD !in pre && data != [] && !quiet.en
    ensures var w := Symbols(FrameBytes(pre, data, Fcs(data))) + [quiet];
            Received(r, w) == OutBeats(data, false) && Listening(End(r, w))
  {
    ReceiveFrame(r, pre, data, Fcs(data), quiet);
    SentFrameAccepted(data);
  }

  /** A frame damaged by any burst within 32 consecutive bits of its data and check sequence, its
      length unchanged, comes out as one packet whose last beat is marked bad. */
  lemma {:induction false} ReceiveBurst(r: Regs, pre: seq<Byte>, data: seq<Byte>, got: seq<Byte>, check: seq<Byte>,
                     first: nat, quiet: Gmii)
    requires Listening(r) && ETH_SFD !in pre && data != [] && !quiet.en
    requires |got| == |data| && |check| == 4 && got + check != data + Fcs(data)
    requires forall i | 0 <= i < 8 * |data| + 32 ::
               Flatten(data + Fcs(data))[i] != Flatten(got + check)[i] ==> first <= i < first + 32
    ensures Received(r, Symbols(FrameBytes(pre, got, check)) + [quiet]) == OutBeats(got, true)
  {
    ReceiveFrame(r, pre, got, check, quiet);
    SentFrameAccepted(data);
    BurstDetected(data + Fcs(data), got + check, first);
  }
}
