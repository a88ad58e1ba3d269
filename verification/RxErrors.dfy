/** Frames in which the PHY raises the error input, in 1000 Mb/s mode. */
module RxErrors {
  import opened Bits
  import opened Crc32
  import Crc32Check
  import opened Signals
  import opened GmiiRx
  import opened Words
  import opened RxFrames

  /** Bytes on the wire, some of them with the error input high. */
  function Flagged(bytes: seq<Byte>, er: seq<bool>): (w: seq<Gmii>)
    requires |er| == |bytes|
    ensures |w| == |bytes| && forall i | 0 <= i < |bytes| :: w[i] == Gmii(bytes[i], true, er[i])
  {
    seq(|bytes|, i requires 0 <= i < |bytes| => Gmii(bytes[i], true, er[i]))
  }

  /** A frame: any bytes of the preamble, of the data and of the check sequence may be flagged. */
  function FlaggedFrame(pre: seq<Byte>, data: seq<Byte>, check: seq<Byte>, preEr: seq<bool>, er: seq<bool>): seq<Gmii>
    requires |preEr| == |pre| && |er| == |data| + |check|
  {
    Flagged(FrameBytes(pre, data, check), preEr + [false] + er)
  }

  /** `j` is the first flagged byte of data and check sequence. */
  ghost predicate FirstError(er: seq<bool>, j: nat) {
    j < |er| && er[j] && forall i | 0 <= i < j :: !er[i]
  }

  /** The first flagged byte, or the number of bytes if none is. */
  function FirstFlag(er: seq<bool>): (j: nat)
    ensures j <= |er| && (forall i | 0 <= i < j :: !er[i]) && (j < |er| ==> FirstError(er, j))
  {
    if er == [] || er[0] then 0 else 1 + FirstFlag(er[1..])
  }

  /** The data bytes up to the first flagged byte. */
  function Cut(data: seq<Byte>, j: nat): seq<Byte> { if j < |data| then data[..j + 1] else data }

  lemma {:induction false} LineInFrame(r: Regs, pre: seq<Byte>, data: seq<Byte>, check: seq<Byte>, preEr: seq<bool>,
                                       er: seq<bool>, k: nat, t: nat)
    requires k < |data| && |check| == 4 && |preEr| == |pre| && |er| == |data| + 4 && t == |pre| + 6 + k
    requires Line(r, FlaggedFrame(pre, data, check, preEr, er), t)
    ensures r.d4 == Tap(data[k], true, er[k])
    ensures k + 1 == |data| ==>
              && r.d0.er == er[|data| + 3] && r.d1.er == er[|data| + 2] && r.d2.er == er[|data| + 1]
              && r.d3.er == er[|data|]
  {
  }

  // ---- Once the packet is given up ----

  /** Waiting for the end of the frame. */
  ghost predicate Waiting(r: Regs) { r.state == WaitLast }

  /** Whatever is on the wire, nothing comes out while the enable stays high, and one symbol with the
      enable low ends it. */
  lemma {:induction false} WaitStep(r: Regs, rx: Gmii)
    requires Waiting(r)
    ensures Emitted(Step(r, rx)) == []
    ensures if rx.en then Waiting(Step(r, rx)) else Listening(Step(r, rx))
  {
    hide CrcNext;
  }

  lemma {:induction false} WaitPhase(r: Regs, f: seq<Gmii>, t: nat, quiet: Gmii)
    requires Waiting(r) && t <= |f| && (forall i | 0 <= i < |f| :: f[i].en) && !quiet.en
    ensures Received(r, Tail(f, t, quiet)) == [] && Listening(End(r, Tail(f, t, quiet)))
    decreases |f| - t
  {
    hide Step, Received, End, Tail, Waiting, Listening;
    TailStep(r, f, t, quiet);
    WaitStep(r, if t < |f| then f[t] else quiet);
    if t < |f| {
      WaitPhase(Step(r, f[t]), f, t + 1, quiet);
    }
  }

  // ---- The beat with which it is given up ----

  lemma {:induction false} ErrorStep(r: Regs, rx: Gmii)
    requires r.state == Payload && r.d4.dv && r.d4.er
    ensures Waiting(Step(r, rx)) && Emitted(Step(r, rx)) == [OutBeat(r.d4.data, true, true)]
    ensures Step(r, rx).badFrame && !Step(r, rx).badFcs && Step(r, rx).fcs == Word(0xdeadbeef)
  {
    hide CrcNext;
  }

  lemma {:induction false} CheckErrorStep(r: Regs, rx: Gmii)
    requires r.state == Payload && !r.d4.er && !rx.en && (r.d0.er || r.d1.er || r.d2.er || r.d3.er)
    ensures Listening(Step(r, rx)) && Emitted(Step(r, rx)) == [OutBeat(r.d4.data, true, true)]
    ensures Step(r, rx).badFrame && !Step(r, rx).badFcs
  {
    hide CrcNext;
  }

  lemma {:induction false} LastOut(p: seq<Byte>, k: nat)
    requires k + 1 == |p|
    ensures OutFrom(p, true, k) == [OutBeat(p[k], true, true)]
  {
  }

  lemma {:induction false} NextOut(p: seq<Byte>, k: nat)
    requires k + 1 < |p|
    ensures OutFrom(p, true, k) == [OutBeat(p[k], false, false)] + OutFrom(p, true, k + 1)
  {
  }

  /** After the frame and one symbol: ready for the next frame, but that an error with the very last
      data byte takes one symbol more. */
  ghost predicate Over(r: Regs, data: seq<Byte>, j: nat) {
    if j + 1 == |data| then Waiting(r) else Listening(r)
  }

  /** The first flagged byte is the one next to come out. */
  lemma {:induction false} StopPhase(r: Regs, f: seq<Gmii>, data: seq<Byte>, j: nat, t: nat, quiet: Gmii)
    requires r.state == Payload && j < |data| && r.d4 == Tap(data[j], true, true)
    requires t <= |f| && (t < |f| <==> j + 1 < |data|) && (forall i | 0 <= i < |f| :: f[i].en) && !quiet.en
    ensures Received(r, Tail(f, t, quiet)) == OutFrom(Cut(data, j), true, j)
    ensures Over(End(r, Tail(f, t, quiet)), data, j)
  {
    hide Step, Received, End, Tail, Waiting, Listening, OutFrom;
    TailStep(r, f, t, quiet);
    LastOut(Cut(data, j), j);
    var rx := if t < |f| then f[t] else quiet;
    ErrorStep(r, rx);
    if t < |f| {
      WaitPhase(Step(r, rx), f, t + 1, quiet);
    }
  }

  /** The flagged byte is of the check sequence, and the data end here. */
  lemma {:induction false} CheckErrorPhase(r: Regs, f: seq<Gmii>, data: seq<Byte>, j: nat, k: nat, quiet: Gmii)
    requires r.state == Payload && k + 1 == |data| <= j && r.d4 == Tap(data[k], true, false) && !quiet.en
    requires r.d0.er || r.d1.er || r.d2.er || r.d3.er
    ensures Received(r, Tail(f, |f|, quiet)) == OutFrom(Cut(data, j), true, k)
    ensures Over(End(r, Tail(f, |f|, quiet)), data, j)
  {
    hide Step, Received, End, Tail, Waiting, Listening, OutFrom;
    CheckErrorStep(r, quiet);
    TailStep(r, f, |f|, quiet);
    LastOut(data, k);
  }

  /** One more data byte before the flagged one. */
  lemma {:induction false} MorePhase(r: Regs, f: seq<Gmii>, data: seq<Byte>, j: nat, k: nat, t: nat, quiet: Gmii)
    requires r.state == Payload && k < j && k + 1 < |data| && r.d4 == Tap(data[k], true, false)
    requires t < |f| && f[t].en && Line(r, f, t)
    ensures var r', cut := Step(r, f[t]), Cut(data, j);
            && r'.state == Payload && Line(r', f, t + 1) && End(r, Tail(f, t, quiet)) == End(r', Tail(f, t + 1, quiet))
            && k + 1 < |cut| && OutFrom(cut, true, k) == [OutBeat(data[k], false, false)] + OutFrom(cut, true, k + 1)
            && Received(r, Tail(f, t, quiet)) == [OutBeat(data[k], false, false)] + Received(r', Tail(f, t + 1, quiet))
  {
    hide Step, Received, End, Tail, Line, OutFrom, CrcNext;
    DataStep(r, f[t]);
    LineStep(r, f, t);
    TailStep(r, f, t, quiet);
    NextOut(Cut(data, j), k);
  }

  /** What the next step meets. */
  lemma {:induction false} NextByte(r: Regs, pre: seq<Byte>, data: seq<Byte>, check: seq<Byte>, preEr: seq<bool>,
                                    er: seq<bool>, j: nat, k: nat, t: nat)
    requires |check| == 4 && |preEr| == |pre| && |er| == |data| + 4 && FirstError(er, j)
    requires k <= j && k < |data| && t == |pre| + 6 + k && Line(r, FlaggedFrame(pre, data, check, preEr, er), t)
    ensures var f := FlaggedFrame(pre, data, check, preEr, er);
            && (forall i | 0 <= i < |f| :: f[i].en) && (if k + 1 < |data| then t < |f| else t == |f|)
            && r.d4 == Tap(data[k], true, k == j)
            && (k + 1 == |data| && k < j ==> r.d0.er || r.d1.er || r.d2.er || r.d3.er)
  {
    LineInFrame(r, pre, data, check, preEr, er, k, t);
    hide Line;
    assert k < j ==> !er[k];
    assert k + 1 == |data| && k < j ==> er[|data|] || er[|data| + 1] || er[|data| + 2] || er[|data| + 3];
  }

  /** From data byte `k` on. */
  lemma {:induction false} ErrorPhase(r: Regs, pre: seq<Byte>, data: seq<Byte>, check: seq<Byte>, preEr: seq<bool>,
                                      er: seq<bool>, j: nat, k: nat, t: nat, quiet: Gmii)
    requires |check| == 4 && |preEr| == |pre| && |er| == |data| + 4 && !quiet.en
    requires FirstError(er, j) && k <= j && k < |data| && t == |pre| + 6 + k
    requires r.state == Payload && Line(r, FlaggedFrame(pre, data, check, preEr, er), t)
    ensures var w := Tail(FlaggedFrame(pre, data, check, preEr, er), t, quiet);
            Received(r, w) == OutFrom(Cut(data, j), true, k) && Over(End(r, w), data, j)
    decreases |data| - k
  {
    hide *;
    var f, k1, t1 := FlaggedFrame(pre, data, check, preEr, er), k + 1, t + 1;
    NextByte(r, pre, data, check, preEr, er, j, k, t);
    if k == j {
      StopPhase(r, f, data, j, t, quiet);
    } else if k1 == |data| {
      CheckErrorPhase(r, f, data, j, k, quiet);
    } else {
      MorePhase(r, f, data, j, k, t, quiet);
      ErrorPhase(Step(r, f[t]), pre, data, check, preEr, er, j, k1, t1, quiet);
    }
  }

  /** From anywhere in the preamble: a frame with flagged bytes, and one without. */
  lemma {:induction false} HuntFlagged(r: Regs, pre: seq<Byte>, data: seq<Byte>, check: seq<Byte>, preEr: seq<bool>,
                                       er: seq<bool>, t: nat, quiet: Gmii)
    requires ETH_SFD !in pre && data != [] && |check| == 4 && !quiet.en && t <= |pre| + 5
    requires |preEr| == |pre| && |er| == |data| + 4 && Line(r, FlaggedFrame(pre, data, check, preEr, er), t)
    requires r.state == Idle || (r.state == Crc && t <= |pre| + 1 + r.crcCnt && r.crcCnt <= 3)
    ensures var w, j := Tail(FlaggedFrame(pre, data, check, preEr, er), t, quiet), FirstFlag(er);
            if j < |er| then
              Received(r, w) == OutBeats(Cut(data, j), true) && Over(End(r, w), data, j)
            else
              Received(r, w) == OutBeats(data, !Crc32Check.Accepted(data + check)) && Delivered(End(r, w), data, check)
  {
    hide *;
    var f, j, u := FlaggedFrame(pre, data, check, preEr, er), FirstFlag(er), |pre| + 6;
    FlaggedBegins(pre, data, check, preEr, er);
    var r' := Hunt(r, f, pre, t, quiet);
    if j < |er| {
      ErrorPhase(r', pre, data, check, preEr, er, j, 0, u, quiet);
      WholeOut(Cut(data, j), true);
    } else {
      PlainPhase(r', pre, data, check, preEr, er, u, quiet);
    }
  }

  lemma {:induction false} WholeOut(p: seq<Byte>, bad: bool)
    ensures OutFrom(p, bad, 0) == OutBeats(p, bad)
  {
  }

  lemma {:induction false} FlaggedBegins(pre: seq<Byte>, data: seq<Byte>, check: seq<Byte>, preEr: seq<bool>,
                                         er: seq<bool>)
    requires ETH_SFD !in pre && data != [] && |check| == 4 && |preEr| == |pre| && |er| == |data| + 4
    ensures Begins(FlaggedFrame(pre, data, check, preEr, er), pre)
  {
  }

  /** The data phase of a frame with none flagged. */
  lemma {:induction false} PlainPhase(r: Regs, pre: seq<Byte>, data: seq<Byte>, check: seq<Byte>, preEr: seq<bool>,
                                      er: seq<bool>, u: nat, quiet: Gmii)
    requires data != [] && |check| == 4 && !quiet.en && u == |pre| + 6
    requires |preEr| == |pre| && |er| == |data| + 4 && forall i | 0 <= i < |er| :: !er[i]
    requires r.state == Payload && r.crc == Ones(32) && Line(r, FlaggedFrame(pre, data, check, preEr, er), u)
    ensures var w := Tail(FlaggedFrame(pre, data, check, preEr, er), u, quiet);
            && Received(r, w) == OutBeats(data, !Crc32Check.Accepted(data + check))
            && Delivered(End(r, w), data, check)
  {
    var f, g := FlaggedFrame(pre, data, check, preEr, er), Symbols(FrameBytes(pre, data, check));
    assert forall i | |pre| < i < |f| :: f[i] == g[i];
    assert f[u..] == g[u..];
    SameLine(r, f, g, u);
    hide CrcBytes, Crc32Check.Accepted, FlaggedFrame, FrameBytes, Step, Received, End, Line, Delivered;
    PayloadPhase(r, pre, data, check, u, quiet);
  }

  lemma {:induction false} OneFirst(er: seq<bool>, j: nat)
    requires FirstError(er, j)
    ensures FirstFlag(er) == j
  {
  }

  /** An error with any byte of data or check sequence, others following or not and the preamble
      flagged or not: the data bytes up to the first flagged one come out, or all if that is of the
      check sequence, with one last beat, marked bad, whatever the check sequence. */
  lemma {:induction false} ErrorFrame(r: Regs, pre: seq<Byte>, data: seq<Byte>, check: seq<Byte>, preEr: seq<bool>,
                                      er: seq<bool>, j: nat, quiet: Gmii)
    requires Listening(r) && ETH_SFD !in pre && data != [] && |check| == 4 && !quiet.en
    requires |preEr| == |pre| && |er| == |data| + 4 && FirstError(er, j)
    ensures var w := FlaggedFrame(pre, data, check, preEr, er) + [quiet];
            && Received(r, w) == OutBeats(Cut(data, j), true)
            && Over(End(r, w), data, j)
  {
    var f := FlaggedFrame(pre, data, check, preEr, er);
    assert f[0..] == f && Line(r, f, 0);
    OneFirst(er, j);
    hide FlaggedFrame, Step, Received, End, Over, Line, FirstFlag;
    HuntFlagged(r, pre, data, check, preEr, er, 0, quiet);
  }

  /** Errors within the preamble alone change nothing. */
  lemma {:induction false} PreambleErrors(r: Regs, pre: seq<Byte>, data: seq<Byte>, check: seq<Byte>, preEr: seq<bool>,
                                          er: seq<bool>, quiet: Gmii)
    requires Listening(r) && ETH_SFD !in pre && data != [] && |check| == 4 && !quiet.en
    requires |preEr| == |pre| && |er| == |data| + 4 && forall i | 0 <= i < |er| :: !er[i]
    ensures var w := FlaggedFrame(pre, data, check, preEr, er) + [quiet];
            && Received(r, w) == OutBeats(data, !Crc32Check.Accepted(data + check))
            && Delivered(End(r, w), data, check)
  {
    var f := FlaggedFrame(pre, data, check, preEr, er);
    assert f[0..] == f && Line(r, f, 0);
    assert FirstFlag(er) == |er|;
    hide FlaggedFrame, Step, Received, End, Delivered, Line, FirstFlag;
    HuntFlagged(r, pre, data, check, preEr, er, 0, quiet);
  }

  // ---- No delimiter ----

  /** Not taken for a delimiter: the byte differs, or is flagged. */
  predicate NoStart(t: Tap) { t.dv && t.data == ETH_SFD ==> t.er }

  ghost predicate Deaf(r: Regs) {
    && (r.state == Idle || (r.state == Crc && r.crcCnt <= 3))
    && NoStart(r.d0) && NoStart(r.d1) && NoStart(r.d2) && NoStart(r.d3) && NoStart(r.d4)
  }

  lemma {:induction false} DeafStep(r: Regs, rx: Gmii)
    requires Deaf(r) && (rx.en && rx.data == ETH_SFD ==> rx.er)
    ensures Emitted(Step(r, rx)) == [] && Deaf(Step(r, rx))
    ensures !rx.en ==> Listening(Step(r, rx))
  {
    hide CrcNext;
  }

  /** Whatever is on the wire, as long as no delimiter is on it that is not flagged, nothing comes out;
      and the receiver listens when the wire falls silent. */
  lemma {:induction false} NoPacketWithoutDelimiter(r: Regs, w: seq<Gmii>)
    requires Deaf(r) && forall s | s in w :: s.en && s.data == ETH_SFD ==> s.er
    ensures Received(r, w) == [] && Deaf(End(r, w))
    ensures w != [] && !w[|w| - 1].en ==> Listening(End(r, w))
    decreases |w|
  {
    hide Step, Deaf, Listening;
    if w != [] {
      DeafStep(r, w[0]);
      NoPacketWithoutDelimiter(Step(r, w[0]), w[1..]);
      assert |w| == 1 ==> w[1..] == [];
    }
  }

  /** So a frame whose delimiter is flagged is lost without a trace, unless another follows in it. */
  lemma {:induction false} FlaggedDelimiter(r: Regs, pre: seq<Gmii>, d: Gmii, tail: seq<Gmii>, quiet: Gmii)
    requires Listening(r) && d.er && !quiet.en
    requires ETH_SFD !in DataOf(pre) && ETH_SFD !in DataOf(tail)
    ensures var w := pre + [d] + tail + [quiet];
            Received(r, w) == [] && Listening(End(r, w))
  {
    var w := pre + [d] + tail + [quiet];
    forall s | s in w ensures s.en && s.data == ETH_SFD ==> s.er {
      if s in pre {
        var i :| 0 <= i < |pre| && pre[i] == s;
        assert DataOf(pre)[i] == s.data;
      } else if s in tail {
        var i :| 0 <= i < |tail| && tail[i] == s;
        assert DataOf(tail)[i] == s.data;
      }
    }
    hide Received, End;
    NoPacketWithoutDelimiter(r, w);
  }

  function DataOf(w: seq<Gmii>): (b: seq<Byte>)
    ensures |b| == |w| && forall i | 0 <= i < |w| :: b[i] == w[i].data
  {
    seq(|w|, i requires 0 <= i < |w| => w[i].data)
  }

  lemma {:induction false} SameLine(r: Regs, f: seq<Gmii>, g: seq<Gmii>, t: nat)
    requires 5 <= t <= |f| == |g| && Line(r, f, t) && forall i | t - 5 <= i < |f| :: f[i] == g[i]
    ensures Line(r, g, t)
  {
  }

  /** With two quiet symbols after it the frame leaves the receiver listening wherever the error is. */
  lemma {:induction false} ErrorFrameOver(r: Regs, data: seq<Byte>, j: nat, quiet: Gmii)
    requires Over(r, data, j) && !quiet.en
    ensures Received(r, [quiet]) == [] && Listening(End(r, [quiet]))
  {
    hide Step, Listening, Waiting;
    assert [quiet][1..] == [];
    if j + 1 == |data| {
      WaitStep(r, quiet);
    } else {
      QuietStep(r, quiet);
    }
  }

  /** With one, after an error with the last data byte, the next frame is not received at all. */
  lemma {:induction false} NextFrameLost(r: Regs, data: seq<Byte>, j: nat, next: seq<Gmii>, quiet: Gmii)
    requires Over(r, data, j) && j + 1 == |data| && (forall i | 0 <= i < |next| :: next[i].en) && !quiet.en
    ensures Received(r, next + [quiet]) == [] && Listening(End(r, next + [quiet]))
  {
    hide Received, End, Waiting, Listening;
    assert next[0..] == next;
    WaitPhase(r, next, 0, quiet);
  }
}
