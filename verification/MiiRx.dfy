/** The receiver with the 4-bit interface selected: it finds the byte boundary from the delimiter
    and then does what the 1000 Mb/s receiver does. */
module MiiRx {
  import opened Bits
  import opened Crc32
  import opened Crc32Check
  import opened Signals
  import opened GmiiRx
  import opened Words
  import opened RxFrames
  import opened RxErrors
  import MiiTx

  const FIVE: Nibble := [true, false, true, false]
  const THIRTEEN: Nibble := [true, false, true, true]

  /** In numbers, the delimiter being low nibble first; and of any byte the first nibble is the low. */
  lemma {:induction false} NibbleValues(b: Byte)
    ensures ValueOf(FIVE) == 5 && ValueOf(THIRTEEN) == 13 && MiiTx.Split([ETH_SFD]) == [FIVE, THIRTEEN]
    ensures var n := MiiTx.Split([b]);
            |n| == 2 && ValueOf(b) == ValueOf(n[0]) + 16 * ValueOf(n[1])
  {
    NibbleValue(FIVE);
    NibbleValue(THIRTEEN);
    assert [b][1..] == [] && [ETH_SFD][1..] == [];
    ByteNibbles(b);
    hide ValueOf;
    assert ETH_SFD[..4] == FIVE && ETH_SFD[4..] == THIRTEEN;
  }

  /** A cycle with the nibble interface selected and no reset. */
  function MiiStep(r: Regs, enable: bool, rx: Gmii): Regs { Next(r, Inputs(false, rx, enable, true)) }

  datatype Cycle = Cycle(enable: bool, rx: Gmii)

  /** The beats that come out during these cycles. */
  function MiiReceived(r: Regs, cycles: seq<Cycle>): seq<OutBeat>
    decreases |cycles|
  {
    if cycles == [] then [] else
      var r' := MiiStep(r, cycles[0].enable, cycles[0].rx);
      Emitted(r') + MiiReceived(r', cycles[1..])
  }

  /** The symbols sampled on enabled cycles. */
  function Sampled(cycles: seq<Cycle>): seq<Gmii> {
    if cycles == [] then []
    else (if cycles[0].enable then [cycles[0].rx] else []) + Sampled(cycles[1..])
  }

  function NibbleReceived(r: Regs, w: seq<Gmii>): seq<OutBeat>
    decreases |w|
  {
    if w == [] then [] else
      var r' := MiiStep(r, true, w[0]);
      Emitted(r') + NibbleReceived(r', w[1..])
  }

  function NibbleEnd(r: Regs, w: seq<Gmii>): Regs
    decreases |w|
  {
    if w == [] then r else NibbleEnd(MiiStep(r, true, w[0]), w[1..])
  }

  /** Equal but for the output registers and the nibble bookkeeping. */
  ghost predicate Same(r: Regs, g: Regs) {
    && r.state == g.state && r.d0 == g.d0 && r.d1 == g.d1 && r.d2 == g.d2 && r.d3 == g.d3 && r.d4 == g.d4
    && r.fcs == g.fcs && r.crc == g.crc && r.crcCnt == g.crcCnt
  }

  lemma {:induction false} DisabledHolds(r: Regs, rx: Gmii)
    ensures var r' := MiiStep(r, false, rx);
            Same(r, r') && r'.miiOdd == r.miiOdd && r'.miiLocked == r.miiLocked && Emitted(r') == []
  {
    hide Core, Delay;
  }

  /** The output registers are not read. */
  lemma {:induction false} OutputsUnread(r: Regs, q: Regs, rx: Gmii)
    requires Same(r, q) && r.miiOdd == q.miiOdd && r.miiLocked == q.miiLocked
    ensures MiiStep(r, true, rx) == MiiStep(q, true, rx)
  {
    hide CrcNext;
  }

  /** Only the enabled cycles matter. */
  lemma {:induction false} EnabledOnly(r: Regs, q: Regs, cycles: seq<Cycle>)
    requires Same(r, q) && r.miiOdd == q.miiOdd && r.miiLocked == q.miiLocked
    ensures MiiReceived(r, cycles) == NibbleReceived(q, Sampled(cycles))
    decreases |cycles|
  {
    hide MiiStep;
    if cycles != [] {
      var c := cycles[0];
      var r' := MiiStep(r, c.enable, c.rx);
      if c.enable {
        OutputsUnread(r, q, c.rx);
        EnabledOnly(r', r', cycles[1..]);
        assert ([c.rx] + Sampled(cycles[1..]))[1..] == Sampled(cycles[1..]);
      } else {
        DisabledHolds(r, c.rx);
        EnabledOnly(r', q, cycles[1..]);
        assert [] + Sampled(cycles[1..]) == Sampled(cycles[1..]);
      }
    }
  }

  lemma {:induction false} NibbleSplit(r: Regs, a: seq<Gmii>, b: seq<Gmii>)
    ensures NibbleReceived(r, a + b) == NibbleReceived(r, a) + NibbleReceived(NibbleEnd(r, a), b)
    ensures NibbleEnd(r, a + b) == NibbleEnd(NibbleEnd(r, a), b)
    decreases |a|
  {
    hide MiiStep;
    if a == [] {
      assert a + b == b;
    } else {
      assert (a + b)[1..] == a[1..] + b;
      NibbleSplit(MiiStep(r, true, a[0]), a[1..], b);
    }
  }

  // ---- Locked ----

  /** A sample of this nibble, flagged or not. */
  ghost predicate Bears(x: Gmii, n: Nibble) { x.en && x.data[..4] == n }

  ghost predicate BearsAll(w: seq<Gmii>, n: seq<Nibble>) {
    |w| == |n| && forall i | 0 <= i < |w| :: Bears(w[i], n[i])
  }

  lemma {:induction false} BearsRest(w: seq<Gmii>, n: seq<Nibble>, k: nat)
    requires BearsAll(w, n) && k <= |w|
    ensures BearsAll(w[k..], n[k..])
  {
    hide Bears;
    forall i | 0 <= i < |w| - k ensures Bears(w[k..][i], n[k..][i]) {
      assert Bears(w[k + i], n[k + i]);
    }
  }

  lemma {:induction false} ShownBears(w: seq<Gmii>, n: seq<Nibble>)
    requires MiiTx.ShowsAll(w, n)
    ensures BearsAll(w, n)
  {
    forall i | 0 <= i < |w| ensures Bears(w[i], n[i]) {
      assert MiiTx.Shows(w[i], n[i]);
    }
  }

  /** The flags of the second samples. */
  function HighFlags(w: seq<Gmii>): (er: seq<bool>)
    ensures |er| == |w| / 2 && forall i | 0 <= i < |w| / 2 :: er[i] == w[2 * i + 1].er
  {
    seq(|w| / 2, i requires 0 <= i < |w| / 2 => w[2 * i + 1].er)
  }

  /** Two nibbles are one byte to the 1000 Mb/s receiver, flagged if the second is: a flag with the
      first alone is overwritten. */
  lemma {:induction false} PairStep(r: Regs, g: Regs, b: Byte, low: Gmii, high: Gmii)
    requires Same(r, g) && r.miiOdd && r.miiLocked
    requires Bears(low, b[..4]) && Bears(high, b[4..])
    ensures var m := MiiStep(r, true, low);
            var r', g' := MiiStep(m, true, high), Step(g, Gmii(b, true, high.er));
            && Same(r', g') && r'.miiOdd && r'.miiLocked
            && Emitted(m) == Emitted(g') && Emitted(r') == []
  {
    hide CrcNext;
    CoreSame(r, g, true);
    CoreKeepsLine(r, true);
    CoreKeepsLine(g, true);
    hide Core;
    assert b == b[..4] + b[4..];
  }

  /** The same but for the nibble bookkeeping, which is as in `r`. */
  ghost predicate Alike(c: Regs, d: Regs, r: Regs) {
    Same(c, d) && c.out == d.out && c.miiOdd == r.miiOdd && c.miiLocked == r.miiLocked
  }

  lemma {:induction false} CoreSameIdle(r: Regs, g: Regs, dv: bool)
    requires Same(r, g) && r.state == Idle
    ensures Alike(Core(r, dv), Core(g, dv), r)
  {
    FcsSame(r, g);
    hide CrcNext, FcsGood, Word, Zeros, Ones;
  }

  lemma {:induction false} CoreSamePayload(r: Regs, g: Regs, dv: bool)
    requires Same(r, g) && r.state == Payload
    ensures Alike(Core(r, dv), Core(g, dv), r)
  {
    FcsSame(r, g);
    hide CrcNext, FcsGood, Word, Zeros, Ones;
  }

  lemma {:induction false} CoreSameCrc(r: Regs, g: Regs, dv: bool)
    requires Same(r, g) && r.state == Crc
    ensures Alike(Core(r, dv), Core(g, dv), r)
  {
    FcsSame(r, g);
    hide CrcNext, FcsGood, Word, Zeros, Ones;
  }

  lemma {:induction false} CoreSameWaitLast(r: Regs, g: Regs, dv: bool)
    requires Same(r, g) && r.state == WaitLast
    ensures Alike(Core(r, dv), Core(g, dv), r)
  {
    FcsSame(r, g);
    hide CrcNext, FcsGood, Word, Zeros, Ones;
  }

  lemma {:induction false} CoreSame(r: Regs, g: Regs, dv: bool)
    requires Same(r, g)
    ensures Alike(Core(r, dv), Core(g, dv), r)
  {
    hide Core, Same, Alike;
    match r.state
    case Idle => CoreSameIdle(r, g, dv);
    case Payload => CoreSamePayload(r, g, dv);
    case Crc => CoreSameCrc(r, g, dv);
    case WaitLast => CoreSameWaitLast(r, g, dv);
  }

  lemma {:induction false} FcsSame(r: Regs, g: Regs)
    requires Same(r, g)
    ensures FcsGood(r) == FcsGood(g)
  {
    hide CrcNext, Not, Join4;
  }

  /** Once locked, a run of whole bytes is received as the 1000 Mb/s receiver does, with the flags of
      the second nibbles. */
  lemma {:induction false} LockedRefines(r: Regs, g: Regs, bytes: seq<Byte>, w: seq<Gmii>)
    requires Same(r, g) && r.miiOdd && r.miiLocked && BearsAll(w, MiiTx.Split(bytes))
    ensures NibbleReceived(r, w) == Received(g, Flagged(bytes, HighFlags(w)))
    ensures var r' := NibbleEnd(r, w);
            Same(r', End(g, Flagged(bytes, HighFlags(w)))) && r'.miiOdd && r'.miiLocked
    decreases |bytes|
  {
    assert |w| == 2 * |bytes|;
    if bytes == [] {
      NoPairs(bytes, w);
      hide Same;
    } else {
      hide *;
      var rest := w[2..];
      var s := FirstPair(bytes, w, rest);
      PairStep(r, g, bytes[0], w[0], w[1]);
      var r' := TwoSteps(r, w, rest);
      var g' := Step(g, s[0]);
      ReceivedCons(g, s);
      LockedRefines(r', g', bytes[1..], rest);
      assert [] + NibbleReceived(r', rest) == NibbleReceived(r', rest);
    }
  }

  lemma {:induction false} TwoSteps(r: Regs, w: seq<Gmii>, rest: seq<Gmii>) returns (r': Regs)
    requires |w| >= 2 && rest == w[2..]
    ensures r' == MiiStep(MiiStep(r, true, w[0]), true, w[1]) && NibbleEnd(r, w) == NibbleEnd(r', rest)
    ensures NibbleReceived(r, w)
         == Emitted(MiiStep(r, true, w[0])) + (Emitted(r') + NibbleReceived(r', rest))
  {
    hide MiiStep, Emitted;
    var m := MiiStep(r, true, w[0]);
    r' := MiiStep(m, true, w[1]);
    assert w[1..][1..] == rest && w[1..][0] == w[1];
    assert NibbleReceived(m, w[1..]) == Emitted(r') + NibbleReceived(r', rest);
    assert NibbleEnd(m, w[1..]) == NibbleEnd(r', rest);
  }

  lemma {:induction false} ReceivedCons(g: Regs, s: seq<Gmii>)
    requires s != []
    ensures Received(g, s) == Emitted(Step(g, s[0])) + Received(Step(g, s[0]), s[1..])
    ensures End(g, s) == End(Step(g, s[0]), s[1..])
  {
  }

  lemma {:induction false} NoPairs(bytes: seq<Byte>, w: seq<Gmii>)
    requires bytes == [] && BearsAll(w, MiiTx.Split(bytes))
    ensures w == [] && |HighFlags(w)| == |bytes| && Flagged(bytes, HighFlags(w)) == []
  {
  }

  lemma {:induction false} FirstPair(bytes: seq<Byte>, w: seq<Gmii>, rest: seq<Gmii>) returns (s: seq<Gmii>)
    requires bytes != [] && BearsAll(w, MiiTx.Split(bytes)) && |w| >= 2 && rest == w[2..]
    ensures Bears(w[0], bytes[0][..4]) && Bears(w[1], bytes[0][4..]) && BearsAll(rest, MiiTx.Split(bytes[1..]))
    ensures |HighFlags(w)| == |bytes| && |HighFlags(rest)| == |bytes[1..]|
    ensures s == Flagged(bytes, HighFlags(w)) && s != []
    ensures s[0] == Gmii(bytes[0], true, w[1].er) && s[1..] == Flagged(bytes[1..], HighFlags(rest))
  {
    hide Bears;
    var n := MiiTx.Split(bytes);
    assert Bears(w[0], n[0]) && Bears(w[1], n[1]);
    assert n[2..] == MiiTx.Split(bytes[1..]);
    BearsRest(w, n, 2);
    assert |w| == 2 * |bytes|;
    hide *;
    FirstFlags(bytes, w, rest);
    s := Flagged(bytes, HighFlags(w));
  }

  lemma {:induction false} FirstFlags(bytes: seq<Byte>, w: seq<Gmii>, rest: seq<Gmii>)
    requires bytes != [] && |w| == 2 * |bytes| && rest == w[2..]
    ensures |HighFlags(w)| == |bytes| && |HighFlags(rest)| == |bytes[1..]|
    ensures var s := Flagged(bytes, HighFlags(w));
            s[0] == Gmii(bytes[0], true, w[1].er) && s[1..] == Flagged(bytes[1..], HighFlags(rest))
  {
    var s, t := Flagged(bytes, HighFlags(w)), Flagged(bytes[1..], HighFlags(rest));
    forall i | 0 <= i < |bytes| - 1 ensures s[i + 1] == t[i] {
      assert HighFlags(rest)[i] == rest[2 * i + 1].er == w[2 * (i + 1) + 1].er;
    }
  }

  /** The first sample without data valid. */
  lemma {:induction false} QuietPair(r: Regs, g: Regs, quiet: Gmii)
    requires Same(r, g) && r.miiOdd && !quiet.en
    ensures var r', g' := MiiStep(r, true, quiet), Step(g, quiet);
            && Emitted(r') == Emitted(g') && !r'.miiLocked && !r'.miiOdd && r'.state == g'.state
            && (Listening(g') ==> Listening(r'))
  {
    hide CrcNext;
    CoreSame(r, g, false);
    CoreKeepsLine(r, false);
    CoreKeepsLine(g, false);
    CoreState(r, g, quiet);
    hide Core;
  }

  lemma {:induction false} CoreState(r: Regs, g: Regs, rx: Gmii)
    requires Same(r, g)
    ensures Step(g, rx).state == Core(r, rx.en).state && Step(g, rx).crcCnt == Core(r, rx.en).crcCnt
  {
    CoreSame(r, g, rx.en);
    hide Core;
  }

  // ---- Finding the byte boundary ----

  /** A stage that cannot be taken for the delimiter. */
  ghost predicate Harmless(t: Tap) { t.dv ==> t.data != ETH_SFD }

  /** No packet open, no delimiter seen, and the valid stages are the newest ones. */
  ghost predicate Hunting(r: Regs) {
    && (r.state == Idle || (r.state == Crc && r.crcCnt <= 3))
    && Harmless(r.d0) && Harmless(r.d1) && Harmless(r.d2) && Harmless(r.d3) && Harmless(r.d4)
    && (r.d4.dv ==> r.d3.dv) && (r.d3.dv ==> r.d2.dv) && (r.d2.dv ==> r.d1.dv) && (r.d1.dv ==> r.d0.dv)
  }

  /** A five, flagged or not, went into the newest stage, which is valid if it is about to be shifted
      on. */
  ghost predicate AfterFive(r: Regs, flagged: bool) {
    r.d0.data[4..] == FIVE && (r.miiOdd ==> r.d0.dv && r.d0.er == flagged)
  }

  lemma {:induction false} HuntCore(r: Regs, dv: bool)
    requires Hunting(r)
    ensures var c := Core(r, dv);
            && Emitted(c) == [] && (c.state == Idle || (c.state == Crc && c.crcCnt <= 3))
            && c.miiOdd == r.miiOdd && c.miiLocked == r.miiLocked
  {
    hide CrcNext;
  }

  lemma {:induction false} NotDelimiter(low: Nibble, n: Nibble)
    ensures low + n == ETH_SFD <==> low == FIVE && n == THIRTEEN
  {
    assert ETH_SFD[..4] == FIVE && ETH_SFD[4..] == THIRTEEN;
    assert (low + n)[..4] == low && (low + n)[4..] == n;
    assert FIVE + THIRTEEN == ETH_SFD;
  }

  lemma {:induction false} HuntStep(r: Regs, rx: Gmii, n: Nibble)
    requires Hunting(r) && !r.miiLocked && Bears(rx, n) && n != THIRTEEN
    ensures var r' := MiiStep(r, true, rx);
            && Hunting(r') && !r'.miiLocked && Emitted(r') == [] && r'.miiOdd == !r.miiOdd
            && (n == FIVE ==> AfterFive(r', rx.er))
  {
    hide CrcNext;
    HuntCore(r, true);
    CoreKeepsLine(r, true);
    NotDelimiter(r.d0.data[4..], n);
    assert (r.d0.data[4..] + n)[4..] == n;
    hide Core;
  }

  /** The delimiter's second nibble has arrived: the newest stage holds the delimiter, flagged or not. */
  ghost predicate Found(r: Regs, flagged: bool) {
    && r.miiOdd && r.miiLocked && r.d0 == Tap(ETH_SFD, true, flagged)
    && (r.state == Idle || (r.state == Crc && r.crcCnt <= 3))
    && Harmless(r.d1) && Harmless(r.d2) && Harmless(r.d3) && Harmless(r.d4)
    && (r.d4.dv ==> r.d3.dv) && (r.d3.dv ==> r.d2.dv) && (r.d2.dv ==> r.d1.dv)
  }

  lemma {:induction false} LockStep(r: Regs, rx: Gmii, flagged: bool)
    requires Hunting(r) && !r.miiLocked && AfterFive(r, flagged) && Bears(rx, THIRTEEN)
    ensures Found(MiiStep(r, true, rx), rx.er || (r.miiOdd && flagged)) && Emitted(MiiStep(r, true, rx)) == []
  {
    hide CrcNext;
    HuntCore(r, true);
    CoreKeepsLine(r, true);
    NotDelimiter(r.d0.data[4..], THIRTEEN);
    hide Core;
  }

  /** The delimiter counts as flagged if its second nibble is, or its first and the phase is such that
      the two were taken for one byte all along. */
  function DelimiterFlag(odd: bool, n: nat, five: bool, thirteen: bool): bool {
    thirteen || (odd == (n % 2 == 0) && five)
  }

  lemma {:induction false} HuntNibbles(r: Regs, pre: seq<Nibble>, w: seq<Gmii>, flagged: bool)
    requires Hunting(r) && !r.miiLocked && THIRTEEN !in pre && BearsAll(w, pre + [THIRTEEN])
    requires if pre == [] then AfterFive(r, flagged) else pre[|pre| - 1] == FIVE && flagged == w[|pre| - 1].er
    ensures NibbleReceived(r, w) == []
    ensures Found(NibbleEnd(r, w), DelimiterFlag(r.miiOdd, |pre|, flagged, w[|pre|].er))
    decreases |pre|
  {
    hide Hunting, AfterFive, Found, MiiStep;
    var n := pre + [THIRTEEN];
    assert Bears(w[0], n[0]);
    var r' := MiiStep(r, true, w[0]);
    if pre == [] {
      LockStep(r, w[0], flagged);
      assert w[1..] == [];
    } else {
      HuntStep(r, w[0], pre[0]);
      assert n[1..] == pre[1..] + [THIRTEEN];
      BearsRest(w, n, 1);
      HuntNibbles(r', pre[1..], w[1..], flagged);
      Alternates(|pre|, r.miiOdd);
    }
  }

  lemma {:induction false} Alternates(n: nat, odd: bool)
    requires n > 0
    ensures (!odd == ((n - 1) % 2 == 0)) == (odd == (n % 2 == 0))
  {
  }

  /** What the delay line holds when locked, read as the beginning of a frame. */
  lemma {:induction false} FoundLine(r: Regs, data: seq<Byte>, check: seq<Byte>, er: seq<bool>)
    returns (pre: seq<Byte>, preEr: seq<bool>)
    requires Found(r, false) && |check| == 4 && |er| == |data| + 4
    ensures |preEr| == |pre| <= 4 && ETH_SFD !in pre
    ensures Line(r, FlaggedFrame(pre, data, check, preEr, er), |pre| + 1)
  {
    if r.d4.dv {
      pre, preEr := [r.d4.data, r.d3.data, r.d2.data, r.d1.data], [r.d4.er, r.d3.er, r.d2.er, r.d1.er];
    } else if r.d3.dv {
      pre, preEr := [r.d3.data, r.d2.data, r.d1.data], [r.d3.er, r.d2.er, r.d1.er];
    } else if r.d2.dv {
      pre, preEr := [r.d2.data, r.d1.data], [r.d2.er, r.d1.er];
    } else if r.d1.dv {
      pre, preEr := [r.d1.data], [r.d1.er];
    } else {
      pre, preEr := [], [];
    }
  }

  /** The nibbles of a frame whose data and check bytes these are, after a preamble of nibbles. */
  function FrameNibbles(pre: seq<Nibble>, data: seq<Byte>, check: seq<Byte>): seq<Nibble> {
    pre + [THIRTEEN] + MiiTx.Split(data + check)
  }

  lemma {:induction false} Halves(w: seq<Gmii>, a: seq<Nibble>, b: seq<Nibble>)
    requires BearsAll(w, a + b)
    ensures BearsAll(w[..|a|], a) && BearsAll(w[|a|..], b)
  {
    forall i | 0 <= i < |b| ensures Bears(w[|a| + i], b[i]) {
      assert (a + b)[|a| + i] == b[i];
    }
  }

  /** What comes out for a frame with these flags, and the state afterwards. */
  ghost predicate FrameOut(out: seq<OutBeat>, r: Regs, data: seq<Byte>, check: seq<Byte>, er: seq<bool>)
    requires |er| == |data| + 4
  {
    var j := FirstFlag(er);
    if j < |er| then out == OutBeats(Cut(data, j), true) && Over(r, data, j)
    else out == OutBeats(data, !Accepted(data + check)) && Listening(r)
  }

  /** The 1000 Mb/s receiver, in the state in which the other locks. */
  lemma {:induction false} ByteWideRest(r: Regs, data: seq<Byte>, check: seq<Byte>, er: seq<bool>, quiet: Gmii)
    requires Found(r, false) && data != [] && |check| == 4 && |er| == |data| + 4 && !quiet.en
    ensures var w := Flagged(data + check, er) + [quiet];
            FrameOut(Received(r, w), End(r, w), data, check, er)
  {
    hide *;
    var pre, preEr := FoundLine(r, data, check, er);
    var t := |pre| + 1;
    FoundState(r);
    AfterDelimiter(pre, data, check, preEr, er, quiet, t);
    HuntFlagged(r, pre, data, check, preEr, er, t, quiet);
    var w := Flagged(data + check, er) + [quiet];
    OutIs(Received(r, w), End(r, w), data, check, er);
  }

  lemma {:induction false} FoundState(r: Regs)
    requires Found(r, false)
    ensures r.state == Idle || (r.state == Crc && r.crcCnt <= 3)
  {
  }

  lemma {:induction false} AfterDelimiter(pre: seq<Byte>, data: seq<Byte>, check: seq<Byte>, preEr: seq<bool>,
                                          er: seq<bool>, quiet: Gmii, t: nat)
    requires |preEr| == |pre| && |er| == |data| + |check| && t == |pre| + 1
    ensures var f := FlaggedFrame(pre, data, check, preEr, er);
            t <= |f| && Tail(f, t, quiet) == Flagged(data + check, er) + [quiet]
  {
    var f, g := FlaggedFrame(pre, data, check, preEr, er), Flagged(data + check, er);
    assert |f| == t + |g|;
    forall i | 0 <= i < |g| ensures f[t + i] == g[i] {
      assert FrameBytes(pre, data, check)[t + i] == (data + check)[i];
      assert (preEr + [false] + er)[t + i] == er[i];
    }
    assert f[t..] == g;
  }

  lemma {:induction false} OutIs(out: seq<OutBeat>, r: Regs, data: seq<Byte>, check: seq<Byte>, er: seq<bool>)
    requires |er| == |data| + 4 && |check| == 4
    requires var j := FirstFlag(er);
             if j < |er| then out == OutBeats(Cut(data, j), true) && Over(r, data, j)
             else out == OutBeats(data, !Accepted(data + check)) && Delivered(r, data, check)
    ensures FrameOut(out, r, data, check, er)
  {
    hide OutBeats, Accepted, FirstFlag, Listening;
  }

  /** It hears nothing after a flagged delimiter. */
  lemma {:induction false} ByteWideDeaf(r: Regs, bytes: seq<Byte>, er: seq<bool>, quiet: Gmii)
    requires Found(r, true) && |er| == |bytes| && !quiet.en
    requires forall i | 0 <= i < |bytes| && bytes[i] == ETH_SFD :: er[i]
    ensures var w := Flagged(bytes, er) + [quiet];
            Received(r, w) == [] && Listening(End(r, w))
  {
    hide Received, End;
    NoPacketWithoutDelimiter(r, Flagged(bytes, er) + [quiet]);
  }

  /** From the lock on: the nibbles of the bytes, and the first sample without data valid. */
  lemma {:induction false} LockedRun(r: Regs, bytes: seq<Byte>, w: seq<Gmii>, quiet: Gmii)
    requires r.miiOdd && r.miiLocked && BearsAll(w, MiiTx.Split(bytes)) && !quiet.en
    ensures var s, r' := Flagged(bytes, HighFlags(w)) + [quiet], NibbleEnd(r, w + [quiet]);
            && NibbleReceived(r, w + [quiet]) == Received(r, s)
            && !r'.miiLocked && !r'.miiOdd && r'.state == End(r, s).state
            && (Listening(End(r, s)) ==> Listening(r'))
  {
    assert Same(r, r);
    hide *;
    LockedRefines(r, r, bytes, w);
    var s := Flagged(bytes, HighFlags(w));
    ReceivedSplit(r, s, [quiet]);
    NibbleSplit(r, w, [quiet]);
    var r1, g1 := NibbleEnd(r, w), End(r, s);
    QuietPair(r1, g1, quiet);
    OneSymbol(r1, g1, quiet);
  }

  /** Whatever the phase of the receiver, however long the preamble (its nibbles other than 13, the
      last of them 5), whatever is flagged: with the delimiter not flagged, the data bytes up to the
      first whose second nibble is flagged come out with one last beat, marked bad; if there is none,
      in data or check sequence, all come out, marked bad exactly when the check fails. */
  lemma {:induction false} MiiAnyFrame(r: Regs, pre: seq<Nibble>, data: seq<Byte>, check: seq<Byte>,
                                       w: seq<Gmii>, quiet: Gmii)
    requires Listening(r) && !r.miiLocked && data != [] && |check| == 4 && !quiet.en
    requires pre != [] && THIRTEEN !in pre && pre[|pre| - 1] == FIVE
    requires BearsAll(w, FrameNibbles(pre, data, check))
    requires !DelimiterFlag(r.miiOdd, |pre|, w[|pre| - 1].er, w[|pre|].er)
    ensures var er, r' := HighFlags(w[|pre| + 1..]), NibbleEnd(r, w + [quiet]);
            && |er| == |data| + 4 && FrameOut(NibbleReceived(r, w + [quiet]), r', data, check, er) && !r'.miiLocked
  {
    var k := |pre| + 1;
    var w0, w1, bytes := w[..k], w[k..], data + check;
    Halves(w, pre + [THIRTEEN], MiiTx.Split(bytes));
    assert Hunting(r);
    assert w + [quiet] == w0 + (w1 + [quiet]);
    var er := HighFlags(w1);
    assert |er| == |data| + 4 && w0[|pre| - 1] == w[|pre| - 1] && w0[|pre|] == w[|pre|];
    hide *;
    HuntNibbles(r, pre, w0, w[|pre| - 1].er);
    var r1 := NibbleEnd(r, w0);
    NibbleSplit(r, w0, w1 + [quiet]);
    FoundPhase(r1, false);
    LockedRun(r1, bytes, w1, quiet);
    ByteWideRest(r1, data, check, er, quiet);
    SameOut(NibbleReceived(r1, w1 + [quiet]), End(r1, Flagged(bytes, er) + [quiet]), NibbleEnd(r1, w1 + [quiet]), data,
            check, er);
  }

  lemma {:induction false} FoundPhase(r: Regs, flagged: bool)
    requires Found(r, flagged)
    ensures r.miiOdd && r.miiLocked
  {
  }

  lemma {:induction false} SameOut(out: seq<OutBeat>, g: Regs, r: Regs, data: seq<Byte>, check: seq<Byte>,
                                   er: seq<bool>)
    requires |er| == |data| + 4 && FrameOut(out, g, data, check, er)
    requires r.state == g.state && (Listening(g) ==> Listening(r))
    ensures FrameOut(out, r, data, check, er)
  {
    hide OutBeats, Accepted, FirstFlag, Listening;
  }

  /** With the delimiter flagged nothing comes out, unless the byte of the delimiter is in the frame. */
  lemma {:induction false} MiiFlaggedDelimiter(r: Regs, pre: seq<Nibble>, data: seq<Byte>, check: seq<Byte>,
                                               w: seq<Gmii>, quiet: Gmii)
    requires Listening(r) && !r.miiLocked && !quiet.en && ETH_SFD !in data + check
    requires pre != [] && THIRTEEN !in pre && pre[|pre| - 1] == FIVE
    requires BearsAll(w, FrameNibbles(pre, data, check))
    requires DelimiterFlag(r.miiOdd, |pre|, w[|pre| - 1].er, w[|pre|].er)
    ensures NibbleReceived(r, w + [quiet]) == []
    ensures Listening(NibbleEnd(r, w + [quiet])) && !NibbleEnd(r, w + [quiet]).miiLocked
  {
    var k := |pre| + 1;
    var w0, w1, bytes := w[..k], w[k..], data + check;
    Halves(w, pre + [THIRTEEN], MiiTx.Split(bytes));
    assert Hunting(r);
    assert w + [quiet] == w0 + (w1 + [quiet]);
    var er := HighFlags(w1);
    assert |er| == |bytes| && w0[|pre| - 1] == w[|pre| - 1] && w0[|pre|] == w[|pre|];
    hide *;
    HuntNibbles(r, pre, w0, w[|pre| - 1].er);
    var r1 := NibbleEnd(r, w0);
    NibbleSplit(r, w0, w1 + [quiet]);
    FoundPhase(r1, true);
    LockedRun(r1, bytes, w1, quiet);
    ByteWideDeaf(r1, bytes, er, quiet);
  }

  /** With nothing flagged: the packet, marked bad exactly when the check fails, and the receiver ready
      for the next frame in either phase. */
  lemma {:induction false} MiiReceiveFrame(r: Regs, pre: seq<Nibble>, data: seq<Byte>, check: seq<Byte>,
                                           w: seq<Gmii>, quiet: Gmii)
    requires Listening(r) && !r.miiLocked && data != [] && |check| == 4 && !quiet.en
    requires pre != [] && THIRTEEN !in pre && pre[|pre| - 1] == FIVE
    requires MiiTx.ShowsAll(w, FrameNibbles(pre, data, check))
    ensures NibbleReceived(r, w + [quiet]) == OutBeats(data, !Accepted(data + check))
    ensures Listening(NibbleEnd(r, w + [quiet])) && !NibbleEnd(r, w + [quiet]).miiLocked
  {
    var n := FrameNibbles(pre, data, check);
    ShownBears(w, n);
    forall i | 0 <= i < |w| ensures !w[i].er {
      assert MiiTx.Shows(w[i], n[i]);
    }
    var er := HighFlags(w[|pre| + 1..]);
    assert forall i | 0 <= i < |er| :: !er[i];
    hide BearsAll, NibbleReceived, NibbleEnd, OutBeats, Accepted, Listening, MiiTx.Split, MiiTx.ShowsAll, Over;
    MiiAnyFrame(r, pre, data, check, w, quiet);
    assert FirstFlag(er) == |er|;
  }

  /** An error the PHY flags with the first nibbles of bytes alone goes unseen: an intact frame comes
      out unmarked. */
  lemma {:induction false} MiiErrorUnseen(r: Regs, pre: seq<Nibble>, data: seq<Byte>, w: seq<Gmii>, quiet: Gmii,
                                          i: nat)
    requires Listening(r) && !r.miiLocked && data != [] && !quiet.en
    requires pre != [] && THIRTEEN !in pre && pre[|pre| - 1] == FIVE
    requires BearsAll(w, FrameNibbles(pre, data, Fcs(data))) && !w[|pre| - 1].er && !w[|pre|].er
    requires forall j | 0 <= j < |data| + 4 :: !w[|pre| + 1 + 2 * j + 1].er
    requires i < |data| && w[|pre| + 1 + 2 * i].er
    ensures NibbleReceived(r, w + [quiet]) == OutBeats(data, false)
  {
    SentFrameAccepted(data);
    var er := HighFlags(w[|pre| + 1..]);
    hide BearsAll, NibbleReceived, NibbleEnd, OutBeats, Accepted, Listening, MiiTx.Split, Over, Fcs;
    MiiAnyFrame(r, pre, data, Fcs(data), w, quiet);
    assert forall j | 0 <= j < |er| :: !er[j];
    assert FirstFlag(er) == |er|;
  }

  lemma {:induction false} OneSymbol(r: Regs, g: Regs, rx: Gmii)
    ensures NibbleReceived(r, [rx]) == Emitted(MiiStep(r, true, rx)) && NibbleEnd(r, [rx]) == MiiStep(r, true, rx)
    ensures Received(g, [rx]) == Emitted(Step(g, rx)) && End(g, [rx]) == Step(g, rx)
  {
    hide MiiStep, Step;
    assert [rx][1..] == [];
  }
}
