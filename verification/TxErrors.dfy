/** Packets that the source abandons: with an error on its last beat, or by falling silent. */
module TxErrors {
  import opened Bits
  import opened Crc32
  import opened Signals
  import opened GmiiTx
  import TxWire
  import Rx = GmiiRx
  import RxFrames
  import RxErrors

  /** A cycle with the clock enabled, no reset and the byte-wide interface selected. */
  function Clocked(r: Regs, ifg: nat, axis: Axis): Regs { Next(r, Inputs(false, axis, true, false, ifg)) }

  function After(r: Regs, ifg: nat, axes: seq<Axis>): Regs
    decreases |axes|
  {
    if axes == [] then r else After(Clocked(r, ifg, axes[0]), ifg, axes[1..])
  }

  /** The registered outputs after each cycle. */
  function Shown(r: Regs, ifg: nat, axes: seq<Axis>): (w: seq<Gmii>)
    ensures |w| == |axes|
    decreases |axes|
  {
    if axes == [] then [] else
      var r' := Clocked(r, ifg, axes[0]);
      [Output(r')] + Shown(r', ifg, axes[1..])
  }

  /** Nothing on offer, or a last beat marked as an error. */
  predicate Aborts(axis: Axis) { !axis.valid || (axis.last && axis.user) }

  /** The source offers the first byte until the delimiter goes out, then a byte a cycle, none the last,
      and then abandons the packet. */
  ghost predicate Feeds(head: seq<Axis>, body: seq<Axis>, p: seq<Byte>) {
    && p != [] && |head| == 8 && |body| == |p|
    && (forall t | 0 <= t < 8 :: head[t].valid && head[t].data == p[0])
    && (forall j | 0 <= j < |p| - 1 :: body[j].valid && body[j].data == p[j + 1] && !body[j].last)
    && Aborts(body[|p| - 1])
  }

  lemma {:induction false} ShownSplit(r: Regs, ifg: nat, a: seq<Axis>, b: seq<Axis>)
    ensures Shown(r, ifg, a + b) == Shown(r, ifg, a) + Shown(After(r, ifg, a), ifg, b)
    ensures After(r, ifg, a + b) == After(After(r, ifg, a), ifg, b)
    decreases |a|
  {
    hide Clocked;
    if a == [] {
      assert a + b == b;
    } else {
      assert (a + b)[1..] == a[1..] + b;
      ShownSplit(Clocked(r, ifg, a[0]), ifg, a[1..], b);
    }
  }

  /** What is on the wire: the bytes taken, the last of them flagged. */
  function CutShort(p: seq<Byte>): seq<Gmii>
    requires p != []
  {
    Symbols(TxWire.PREAMBLE + p[..|p| - 1]) + [Gmii(p[|p| - 1], true, true)]
  }

  lemma {:induction false} PreambleStep(r: Regs, ifg: nat, axis: Axis, x: Byte)
    requires r.state == Idle || (r.state == Preamble && 1 <= r.framePtr <= 7)
    requires axis.valid && axis.data == x && (r.state == Preamble && r.framePtr == 7 ==> r.tready)
    ensures var r', k := Clocked(r, ifg, axis), if r.state == Idle then 0 else r.framePtr;
            if k < 7 then
              && Output(r') == Gmii(ETH_PRE, true, false) && r'.state == Preamble && r'.framePtr == k + 1
              && (k == 6 ==> r'.tready)
            else
              Output(r') == Gmii(ETH_SFD, true, false) && r'.state == Payload && r'.tdata == x
  {
  }

  lemma {:induction false} PayloadStep(r: Regs, ifg: nat, axis: Axis)
    requires r.state == Payload
    ensures var r' := Clocked(r, ifg, axis);
            && (axis.valid && !axis.last ==>
                  Output(r') == Gmii(r.tdata, true, false) && r'.state == Payload && r'.tdata == axis.data)
            && (Aborts(axis) ==>
                  && Output(r') == Gmii(r.tdata, true, true)
                  && (if axis.valid then r'.state == Ifg && r'.ifg == 0 else r'.state == WaitEnd))
  {
    hide CrcNext;
  }

  lemma {:induction false} PayloadRun(r: Regs, ifg: nat, axes: seq<Axis>, p: seq<Byte>, k: nat)
    requires r.state == Payload && k < |p| && r.tdata == p[k] && |axes| == |p| - k
    requires forall j | 0 <= j < |axes| - 1 :: axes[j].valid && axes[j].data == p[k + 1 + j] && !axes[j].last
    requires Aborts(axes[|axes| - 1])
    ensures Shown(r, ifg, axes) == Symbols(p[k..|p| - 1]) + [Gmii(p[|p| - 1], true, true)]
    ensures var r' := After(r, ifg, axes);
            if axes[|axes| - 1].valid then r'.state == Ifg && r'.ifg == 0 else r'.state == WaitEnd
    decreases |axes|
  {
    hide Clocked, Output;
    var n, k1 := |p| - 1, k + 1;
    PayloadStep(r, ifg, axes[0]);
    if k < n {
      var rest := axes[1..];
      assert axes[0].data == p[k1];
      forall j | 0 <= j < |rest| - 1 ensures rest[j].valid && rest[j].data == p[k1 + 1 + j] && !rest[j].last {
        assert rest[j] == axes[j + 1];
      }
      PayloadRun(Clocked(r, ifg, axes[0]), ifg, rest, p, k1);
      assert Symbols(p[k..n]) == [Gmii(p[k], true, false)] + Symbols(p[k1..n]);
    } else {
      assert axes[1..] == [] && Symbols(p[k..n]) == [];
    }
  }

  lemma {:induction false} PreambleRun(r: Regs, ifg: nat, axes: seq<Axis>, x: Byte, k: nat)
    requires k <= 7 && |axes| == 8 - k && forall t | 0 <= t < |axes| :: axes[t].valid && axes[t].data == x
    requires if k == 0 then r.state == Idle else r.state == Preamble && r.framePtr == k && (k == 7 ==> r.tready)
    ensures Shown(r, ifg, axes) == Symbols(TxWire.PREAMBLE[k..])
    ensures After(r, ifg, axes).state == Payload && After(r, ifg, axes).tdata == x
    decreases |axes|
  {
    hide Clocked, Output, TxWire.PREAMBLE;
    var r', rest, k1 := Clocked(r, ifg, axes[0]), axes[1..], k + 1;
    PreambleStep(r, ifg, axes[0], x);
    PreambleCons(k);
    if k < 7 {
      PreambleRun(r', ifg, rest, x, k1);
    } else {
      assert rest == [] && TxWire.PREAMBLE[8..] == [];
    }
  }

  lemma {:induction false} PreambleCons(k: nat)
    requires k <= 7
    ensures |TxWire.PREAMBLE| == 8
    ensures Symbols(TxWire.PREAMBLE[k..])
         == [Gmii(if k < 7 then ETH_PRE else ETH_SFD, true, false)] + Symbols(TxWire.PREAMBLE[k + 1..])
  {
    assert TxWire.PREAMBLE[k] == if k < 7 then ETH_PRE else ETH_SFD;
  }

  /** An abandoned packet: preamble, delimiter and the bytes taken, the last of them flagged; no check
      sequence. With an error on the last beat the gap follows, after silence the transmitter waits
      for the end of the packet. */
  lemma {:induction false} Abandoned(r: Regs, ifg: nat, head: seq<Axis>, body: seq<Axis>, p: seq<Byte>)
    requires r.state == Idle && Feeds(head, body, p)
    ensures Shown(r, ifg, head + body) == CutShort(p)
    ensures var r' := After(r, ifg, head + body);
            if body[|p| - 1].valid then r'.state == Ifg && r'.ifg == 0 else r'.state == WaitEnd
  {
    hide Clocked, Output, Aborts, Shown, After;
    var n := |p| - 1;
    PreambleRun(r, ifg, head, p[0], 0);
    PayloadRun(After(r, ifg, head), ifg, body, p, 0);
    ShownSplit(r, ifg, head, body);
    assert TxWire.PREAMBLE[0..] == TxWire.PREAMBLE && p[0..n] == p[..n];
    assert Symbols(TxWire.PREAMBLE + p[..n]) == Symbols(TxWire.PREAMBLE) + Symbols(p[..n]);
    var a, b, c := Symbols(TxWire.PREAMBLE), Symbols(p[..n]), [Gmii(p[n], true, true)];
    assert a + (b + c) == (a + b) + c;
  }

  /** While it waits it takes whatever the source still has, and shows nothing; the last beat ends it. */
  lemma {:induction false} WaitsForEnd(r: Regs, ifg: nat, axis: Axis)
    requires r.state == WaitEnd
    ensures var r' := Clocked(r, ifg, axis);
            && !Output(r').en && !Output(r').er
            && (if axis.valid && axis.last then r'.state == Ifg && r'.ifg == 0 && !r'.tready
                else r'.state == WaitEnd && r'.tready)
  {
  }

  lemma {:induction false} GapShowsNothing(r: Regs, ifg: nat, axis: Axis)
    requires r.state == Ifg
    ensures !Output(Clocked(r, ifg, axis)).en && !Output(Clocked(r, ifg, axis)).er
  {
  }

  /** At the other end: of five bytes or more, all but the last four come out, with one last beat,
      marked bad: an abandoned packet is never taken for a whole one. */
  lemma {:induction false} AbandonedIsBad(m: Rx.Regs, p: seq<Byte>, quiet: Gmii)
    requires RxFrames.Listening(m) && |p| >= 5 && !quiet.en
    ensures var w := CutShort(p) + [quiet];
            && RxFrames.Received(m, w) == RxFrames.OutBeats(p[..|p| - 4], true)
            && RxFrames.Listening(RxFrames.End(m, w))
  {
    var n := |p| - 4;
    var data, check, er := p[..n], p[n..], seq(|p|, i => i == |p| - 1);
    var preEr := seq(7, _ => false);
    var pre := TxWire.PREAMBLE[..7];
    assert ETH_PRE[7] != ETH_SFD[7];
    assert RxErrors.FirstError(er, |p| - 1);
    CutFrame(p, data, check, pre, preEr, er);
    hide RxFrames.Received, RxFrames.End, RxErrors.FlaggedFrame, CutShort, RxFrames.Listening, TxWire.PREAMBLE;
    RxErrors.ErrorFrame(m, pre, data, check, preEr, er, |p| - 1, quiet);
  }

  lemma {:induction false} CutFrame(p: seq<Byte>, data: seq<Byte>, check: seq<Byte>, pre: seq<Byte>, preEr: seq<bool>,
                                    er: seq<bool>)
    requires |p| >= 5 && data + check == p && |check| == 4 && pre == TxWire.PREAMBLE[..7] && |er| == |p|
    requires |preEr| == 7 && (forall i | 0 <= i < 7 :: !preEr[i]) && forall i | 0 <= i < |p| :: er[i] == (i == |p| - 1)
    ensures RxErrors.FlaggedFrame(pre, data, check, preEr, er) == CutShort(p)
  {
    var f, c, n := RxErrors.FlaggedFrame(pre, data, check, preEr, er), CutShort(p), |p| - 1;
    var bytes, flags := RxFrames.FrameBytes(pre, data, check), preEr + [false] + er;
    assert TxWire.PREAMBLE == pre + [ETH_SFD];
    assert bytes == TxWire.PREAMBLE + p;
    assert |f| == |c| == 8 + |p|;
    forall i | 0 <= i < |f| ensures f[i] == c[i] {
      assert f[i] == Gmii(bytes[i], true, flags[i]);
      assert flags[i] == (i == 8 + n);
      assert i < 8 + n ==> (TxWire.PREAMBLE + p[..n])[i] == bytes[i];
    }
  }
}
