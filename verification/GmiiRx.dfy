/** The GMII frame receiver. */
module GmiiRx {
  import opened Bits
  import opened Crc32
  import opened Words
  import opened Signals

  datatype State = Idle | Payload | WaitLast | Crc

  /** One stage of the input delay line. */
  datatype Tap = Tap(data: Byte, dv: bool, er: bool)

  datatype Regs = Regs(
    state: State, miiOdd: bool, miiLocked: bool,
    d0: Tap, d1: Tap, d2: Tap, d3: Tap, d4: Tap,
    out: Axis, badFrame: bool, badFcs: bool,
    fcs: Word32, crc: Word32, crcCnt: nat)

  datatype Inputs = Inputs(rst: bool, rx: Gmii, clkEnable: bool, miiSelect: bool)

  /** The four check bytes in the delay line are the complement of `crc_next`. */
  predicate FcsGood(r: Regs) {
    Join4(r.d3.data, r.d2.data, r.d1.data, r.d0.data) == Not(CrcNext(r.crc, r.d4.data))
  }

  /** The case over the states; the delay line is left alone. */
  function Core(r: Regs, dv: bool): Regs {
    var d := r.(out := BLANK, badFrame := false, badFcs := false);
    var crcNext := CrcNext(r.crc, r.d4.data);
    match r.state
    case Idle =>
      var d := d.(crc := Ones(32));
      if r.d4.dv && !r.d4.er && r.d4.data == ETH_SFD then d.(state := Payload) else d.(state := Idle)
    case Payload =>
      var d := d.(crc := crcNext);
      if r.d4.dv && r.d4.er then
        d.(state := WaitLast, out := Axis(r.d4.data, true, true, true), badFrame := true,
           fcs := Word(0xdeadbeef))
      else if !dv then
        var err := r.d0.er || r.d1.er || r.d2.er || r.d3.er;
        var bad := !err && !FcsGood(r);
        d.(state := Crc, out := Axis(r.d4.data, true, true, err || bad), badFrame := err || bad,
           badFcs := bad, crcCnt := 0)
      else
        d.(state := Payload, out := Axis(r.d4.data, true, false, false))
    case Crc =>
      var d := d.(crc := crcNext, crcCnt := (r.crcCnt + 1) % 4,
                  out := Axis(r.d4.data, false, false, false));
      if r.crcCnt == 3 then d.(state := Idle, fcs := crcNext) else d.(state := Crc, fcs := Zeros(32))
    case WaitLast =>
      if !dv then d.(state := Idle) else d.(state := WaitLast)
  }

  /** The nibble just received joined to the upper half of the newest byte. */
  function Joined(r: Regs, rx: Gmii): Byte { r.d0.data[4..] + rx.data[..4] }

  /** The delay line and the nibble lock on an enabled cycle. */
  function Delay(r: Regs, rx: Gmii, miiSelect: bool): Regs {
    if !miiSelect then
      r.(d0 := Tap(rx.data, rx.en, rx.er),
         d1 := Tap(r.d0.data, r.d0.dv && rx.en, r.d0.er),
         d2 := Tap(r.d1.data, r.d1.dv && rx.en, r.d1.er),
         d3 := Tap(r.d2.data, r.d2.dv && rx.en, r.d2.er),
         d4 := Tap(r.d3.data, r.d3.dv && rx.en, r.d3.er))
    else
      var lock := !r.miiLocked && rx.en && Joined(r, rx) == ETH_SFD;
      var n := r.(miiOdd := if lock then true else !r.miiOdd,
                  miiLocked := if r.miiLocked then rx.en else lock);
      if r.miiOdd then
        n.(d0 := Tap(Joined(r, rx), rx.en && r.d0.dv, rx.er || r.d0.er),
           d1 := Tap(r.d0.data, r.d0.dv && rx.en, r.d0.er),
           d2 := Tap(r.d1.data, r.d1.dv && rx.en, r.d1.er),
           d3 := Tap(r.d2.data, r.d2.dv && rx.en, r.d2.er),
           d4 := Tap(r.d3.data, r.d3.dv && rx.en, r.d3.er))
      else
        n.(d0 := Tap(Joined(r, rx), rx.en, rx.er))
  }

  /** The registers after a clock edge; reset spares the data registers. */
  function Next(r: Regs, i: Inputs): Regs {
    var hold := r.(out := BLANK, badFrame := false, badFcs := false);
    var c := if !i.clkEnable || (i.miiSelect && !r.miiOdd) then hold else Core(r, i.rx.en);
    var n := if i.clkEnable then Delay(c, i.rx, i.miiSelect) else c;
    if i.rst then
      n.(state := Idle, out := n.out.(valid := false), badFrame := false, badFcs := false,
         fcs := Ones(32), crc := Ones(32), crcCnt := 0, miiOdd := false, miiLocked := false,
         d0 := n.d0.(dv := false), d1 := n.d1.(dv := false), d2 := n.d2.(dv := false),
         d3 := n.d3.(dv := false), d4 := n.d4.(dv := false))
    else n
  }

  /** The module itself: a delay stage's three registers are kept together. */
  class AxisGmiiRx {
    var stateReg: State
    var miiOdd: bool
    var miiLocked: bool
    var d0: Tap
    var d1: Tap
    var d2: Tap
    var d3: Tap
    var d4: Tap
    var mAxis: Axis
    var errorBadFrame: bool
    var errorBadFcs: bool
    var fcsReg: Word32
    var crcState: Word32
    var crcCnt: nat

    ghost function State(): Regs
      reads this
    {
      Regs(stateReg, miiOdd, miiLocked, d0, d1, d2, d3, d4, mAxis, errorBadFrame, errorBadFcs,
           fcsReg, crcState, crcCnt)
    }

    /** The case over the states: the next value of every register it drives. */
    method Decide(rxDv: bool)
      returns (stateNext: State, outNext: Axis, badFrameNext: bool, badFcsNext: bool,
               fcsNext: Word32, crcNext: Word32, crcCntNext: nat)
      ensures Core(State(), rxDv)
           == State().(state := stateNext, out := outNext, badFrame := badFrameNext,
                       badFcs := badFcsNext, fcs := fcsNext, crc := crcNext, crcCnt := crcCntNext)
    {
      outNext, badFrameNext, badFcsNext := BLANK, false, false;
      fcsNext, crcNext, crcCntNext := fcsReg, crcState, crcCnt;
      match stateReg {
        case Idle =>
          crcNext := Ones(32);
          stateNext := Idle;
          if d4.dv && !d4.er && d4.data == ETH_SFD {
            stateNext := Payload;
          }
          return;
        case Payload =>
          crcNext := CrcNext(crcState, d4.data);
          if d4.dv && d4.er {
            outNext := Axis(d4.data, true, true, true);
            badFrameNext := true;
            fcsNext := Word(0xdeadbeef);
            stateNext := WaitLast;
          } else if !rxDv {
            outNext := Axis(d4.data, true, true, false);
            if d0.er || d1.er || d2.er || d3.er {
              outNext := outNext.(user := true);
              badFrameNext := true;
            } else if Join4(d3.data, d2.data, d1.data, d0.data) == Not(crcNext) {
              outNext := outNext.(user := false);
            } else {
              outNext := outNext.(user := true);
              badFrameNext := true;
              badFcsNext := true;
            }
            crcCntNext := 0;
            stateNext := Crc;
          } else {
            outNext := Axis(d4.data, true, false, false);
            stateNext := Payload;
          }
          return;
        case Crc =>
          crcNext := CrcNext(crcState, d4.data);
          outNext := Axis(d4.data, false, false, false);
          crcCntNext := (crcCnt + 1) % 4;
          if crcCnt == 3 {
            fcsNext := crcNext;
            stateNext := Idle;
          } else {
            fcsNext := Zeros(32);
            stateNext := Crc;
          }
          return;
        case WaitLast =>
          stateNext := WaitLast;
          if !rxDv {
            stateNext := Idle;
          }
          return;
      }
    }

    /** Moves the delay line on; a low data-valid clears the flags behind it. */
    method ShiftLine(tap: Tap, rxDv: bool)
      modifies `d0, `d1, `d2, `d3, `d4
      ensures d0 == tap
      ensures d1 == old(d0).(dv := old(d0).dv && rxDv) && d2 == old(d1).(dv := old(d1).dv && rxDv)
      ensures d3 == old(d2).(dv := old(d2).dv && rxDv) && d4 == old(d3).(dv := old(d3).dv && rxDv)
    {
      d4 := d3.(dv := d3.dv && rxDv);
      d3 := d2.(dv := d2.dv && rxDv);
      d2 := d1.(dv := d1.dv && rxDv);
      d1 := d0.(dv := d0.dv && rxDv);
      d0 := tap;
    }

    /** The nibble lock: the delimiter's second nibble fixes which nibble is the first of a byte. */
    method Lock(rx: Gmii)
      modifies `miiOdd, `miiLocked
      ensures var lock := !old(miiLocked) && rx.en && d0.data[4..] + rx.data[..4] == ETH_SFD;
              && miiOdd == (if lock then true else !old(miiOdd))
              && miiLocked == (if old(miiLocked) then rx.en else lock)
    {
      miiOdd := !miiOdd;
      if miiLocked {
        miiLocked := rx.en;
      } else if rx.en && d0.data[4..] + rx.data[..4] == ETH_SFD {
        miiLocked := true;
        miiOdd := true;
      }
    }

    /** The input delay line and the nibble lock. */
    method ShiftIn(rx: Gmii, miiSelect: bool)
      modifies `d0, `d1, `d2, `d3, `d4, `miiOdd, `miiLocked
      ensures State() == Delay(old(State()), rx, miiSelect)
    {
      if !miiSelect {
        ShiftLine(Tap(rx.data, rx.en, rx.er), rx.en);
        return;
      }
      var byte := d0.data[4..] + rx.data[..4];
      var odd := miiOdd;
      Lock(rx);
      if odd {
        ShiftLine(Tap(byte, rx.en && d0.dv, rx.er || d0.er), rx.en);
      } else {
        d0 := Tap(byte, rx.en, rx.er);
      }
    }

    method ResetControl()
      modifies `stateReg, `mAxis, `errorBadFrame, `errorBadFcs, `fcsReg, `crcState, `crcCnt, `miiOdd, `miiLocked
      ensures stateReg == Idle && mAxis == old(mAxis).(valid := false) && !errorBadFrame && !errorBadFcs
      ensures fcsReg == crcState == Ones(32) && crcCnt == 0 && !miiOdd && !miiLocked
    {
      stateReg := Idle;
      mAxis := mAxis.(valid := false);
      errorBadFrame, errorBadFcs := false, false;
      fcsReg, crcState, crcCnt := Ones(32), Ones(32), 0;
      miiOdd, miiLocked := false, false;
    }

    method ResetLine()
      modifies `d0, `d1, `d2, `d3, `d4
      ensures d0 == old(d0).(dv := false) && d1 == old(d1).(dv := false) && d2 == old(d2).(dv := false)
      ensures d3 == old(d3).(dv := false) && d4 == old(d4).(dv := false)
    {
      d0 := d0.(dv := false);
      d1 := d1.(dv := false);
      d2 := d2.(dv := false);
      d3 := d3.(dv := false);
      d4 := d4.(dv := false);
    }

    method Latch(stateNext: State, outNext: Axis, badFrameNext: bool, badFcsNext: bool,
                 fcsNext: Word32, crcNext: Word32, crcCntNext: nat)
      modifies `stateReg, `mAxis, `errorBadFrame, `errorBadFcs, `fcsReg, `crcState, `crcCnt
      ensures stateReg == stateNext && mAxis == outNext && errorBadFrame == badFrameNext
      ensures errorBadFcs == badFcsNext && fcsReg == fcsNext && crcState == crcNext && crcCnt == crcCntNext
    {
      stateReg, mAxis, errorBadFrame, errorBadFcs := stateNext, outNext, badFrameNext, badFcsNext;
      fcsReg, crcState, crcCnt := fcsNext, crcNext, crcCntNext;
    }

    /** One clock edge. */
    method Clock(i: Inputs)
      modifies this
      ensures State() == Next(old(State()), i)
    {
      hide Core, Delay, Ones;
      var stateNext, outNext, badFrameNext, badFcsNext, fcsNext, crcNext, crcCntNext :=
        stateReg, BLANK, false, false, fcsReg, crcState, crcCnt;
      if i.clkEnable && !(i.miiSelect && !miiOdd) {
        stateNext, outNext, badFrameNext, badFcsNext, fcsNext, crcNext, crcCntNext := Decide(i.rx.en);
      }
      Latch(stateNext, outNext, badFrameNext, badFcsNext, fcsNext, crcNext, crcCntNext);
      if i.clkEnable {
        ShiftIn(i.rx, i.miiSelect);
      }
      if i.rst {
        ResetControl();
        ResetLine();
      }
    }
  }
}
