/** The GMII frame transmitter. */
module GmiiTx {
  import opened Bits
  import opened Crc32
  import opened Signals

  const MIN_FRAME_LENGTH := 64

  datatype State = Idle | Preamble | Payload | Last | Pad | FcsBytes | WaitEnd | Ifg

  /** The registers; `framePtr` has 16 bits and `ifg` 8. */
  datatype Regs = Regs(
    state: State, tdata: Byte, ifg: nat, miiOdd: bool, miiMsn: Nibble, framePtr: nat,
    txd: Byte, txEn: bool, txEr: bool, tready: bool, crc: Word32, fcs: Word32)

  datatype Inputs = Inputs(rst: bool, axis: Axis, clkEnable: bool, miiSelect: bool, ifgDelay: nat)

  /** Register `ifg` compared with `ifg_delay - 1`, which is computed in 32 unsigned bits. */
  predicate GapContinues(ifg: nat, ifgDelay: nat) {
    ifg < (ifgDelay + 0xffff_ffff) % 0x1_0000_0000
  }

  /** The case over the states, on an enabled cycle that is not the second half of a byte. */
  function Core(r: Regs, axis: Axis, ifgDelay: nat): Regs {
    var d := r.(txd := Zeros(8), txEn := false, txEr := false, tready := false);
    var next := (r.framePtr + 1) % 0x1_0000;
    var crcNext := CrcNext(r.crc, r.tdata);
    match r.state
    case Idle =>
      if axis.valid then
        d.(state := Preamble, crc := Ones(32), miiOdd := true, framePtr := 1, txd := ETH_PRE, txEn := true)
      else
        d.(state := Idle, crc := Ones(32), miiOdd := false)
    case Preamble =>
      var d := d.(crc := Ones(32), miiOdd := true, framePtr := next, txd := ETH_PRE, txEn := true);
      if r.framePtr == 6 then
        d.(state := Preamble, tready := true, tdata := axis.data)
      else if r.framePtr == 7 then
        d.(state := Payload, framePtr := 0, txd := ETH_SFD, tready := r.tready,
           tdata := if r.tready then axis.data else r.tdata)
      else
        d.(state := Preamble)
    case Payload =>
      var d := d.(crc := crcNext, tready := true, miiOdd := true, framePtr := next,
                  txd := r.tdata, txEn := true, tdata := axis.data);
      if axis.valid then
        if axis.last then
          if axis.user then
            d.(state := Ifg, tready := !r.tready, txEr := true, framePtr := 0, ifg := 0)
          else
            d.(state := Last, tready := !r.tready)
        else
          d.(state := Payload)
      else
        d.(state := WaitEnd, txEr := true, framePtr := 0)
    case Last =>
      var d := d.(crc := crcNext, miiOdd := true, framePtr := next, txd := r.tdata, txEn := true);
      if r.framePtr < MIN_FRAME_LENGTH - 5 then
        d.(state := Pad, tdata := Zeros(8))
      else
        d.(state := FcsBytes, framePtr := 0)
    case Pad =>
      var d := d.(crc := crcNext, miiOdd := true, framePtr := next, txEn := true, tdata := Zeros(8));
      if r.framePtr < MIN_FRAME_LENGTH - 5 then
        d.(state := Pad)
      else
        d.(state := FcsBytes, framePtr := 0)
    case FcsBytes =>
      var d := d.(miiOdd := true, framePtr := next, txEn := true,
                  txd := if r.framePtr < 4 then Not(r.crc[8 * r.framePtr..8 * r.framePtr + 8]) else Zeros(8));
      if r.framePtr < 3 then
        d.(state := FcsBytes)
      else
        d.(state := Ifg, framePtr := 0, fcs := r.crc, ifg := 0)
    case WaitEnd =>
      var d := d.(crc := Ones(32), miiOdd := true, framePtr := next, tready := true);
      if axis.valid && axis.last then
        d.(state := Ifg, tready := false, ifg := 0)
      else
        d.(state := WaitEnd)
    case Ifg =>
      var d := d.(crc := Ones(32), miiOdd := true, framePtr := next);
      if GapContinues(r.ifg, ifgDelay) then
        d.(state := Ifg, ifg := (r.ifg + 1) % 256)
      else
        d.(state := Idle)
  }

  /** The combinational next values: hold while disabled, finish a byte's second nibble, or act. */
  function Advance(r: Regs, i: Inputs): Regs {
    if !i.clkEnable then
      r.(tready := false)
    else if i.miiSelect && r.miiOdd then
      r.(tready := false, miiOdd := false, txd := r.miiMsn + Zeros(4))
    else
      var n := Core(r, i.axis, i.ifgDelay);
      if i.miiSelect then n.(miiMsn := n.txd[4..], txd := n.txd[..4] + Zeros(4)) else n
  }

  /** The registers after a clock edge; reset spares the data registers. */
  function Next(r: Regs, i: Inputs): Regs {
    var n := Advance(r, i);
    if i.rst then
      n.(state := Idle, framePtr := 0, tready := false, txEn := false, txEr := false,
         crc := Ones(32), fcs := Ones(32), ifg := 0)
    else n
  }

  function Output(r: Regs): Gmii { Gmii(r.txd, r.txEn, r.txEr) }

  /** The module itself: one register per field, one clock edge per call. */
  class AxisGmiiTx {
    var stateReg: State
    var sTdataReg: Byte
    var ifgReg: nat
    var miiOddReg: bool
    var miiMsnReg: Nibble
    var framePtrReg: nat
    var gmiiTxdReg: Byte
    var gmiiTxEnReg: bool
    var gmiiTxErReg: bool
    var sAxisTreadyReg: bool
    var crcState: Word32
    var fcsReg: Word32

    ghost function State(): Regs
      reads this
    {
      Regs(stateReg, sTdataReg, ifgReg, miiOddReg, miiMsnReg, framePtrReg,
           gmiiTxdReg, gmiiTxEnReg, gmiiTxErReg, sAxisTreadyReg, crcState, fcsReg)
    }

    /** The case over the states: the next value of every register. */
    method Decide(axis: Axis, ifgDelay: nat)
      returns (stateNext: State, tdataNext: Byte, ifgNext: nat, miiOddNext: bool, framePtrNext: nat,
               txdNext: Byte, txEnNext: bool, txErNext: bool, treadyNext: bool, crcNext: Word32,
               fcsNext: Word32)
      ensures Regs(stateNext, tdataNext, ifgNext, miiOddNext, miiMsnReg, framePtrNext,
                   txdNext, txEnNext, txErNext, treadyNext, crcNext, fcsNext)
           == Core(State(), axis, ifgDelay)
    {
      stateNext := Idle;
      miiOddNext, framePtrNext, fcsNext, ifgNext := miiOddReg, framePtrReg, fcsReg, ifgReg;
      treadyNext := false;
      tdataNext := sTdataReg;
      txdNext, txEnNext, txErNext := Zeros(8), false, false;
      crcNext := crcState;
      match stateReg {
        case Idle =>
          crcNext := Ones(32);
          miiOddNext := false;
          if axis.valid {
            miiOddNext := true;
            framePtrNext := 1;
            txdNext, txEnNext := ETH_PRE, true;
            stateNext := Preamble;
          }
          return;
        case Preamble =>
          crcNext := Ones(32);
          miiOddNext := true;
          framePtrNext := (framePtrReg + 1) % 0x1_0000;
          txdNext, txEnNext := ETH_PRE, true;
          if framePtrReg == 6 {
            treadyNext := true;
            tdataNext := axis.data;
            stateNext := Preamble;
          } else if framePtrReg == 7 {
            framePtrNext := 0;
            if sAxisTreadyReg {
              treadyNext := true;
              tdataNext := axis.data;
            }
            txdNext := ETH_SFD;
            stateNext := Payload;
          } else {
            stateNext := Preamble;
          }
          return;
        case Payload =>
          crcNext := CrcNext(crcState, sTdataReg);
          treadyNext := true;
          miiOddNext := true;
          framePtrNext := (framePtrReg + 1) % 0x1_0000;
          txdNext, txEnNext := sTdataReg, true;
          tdataNext := axis.data;
          if axis.valid {
            if axis.last {
              treadyNext := !sAxisTreadyReg;
              if axis.user {
                txErNext := true;
                framePtrNext := 0;
                ifgNext := 0;
                stateNext := Ifg;
              } else {
                stateNext := Last;
              }
            } else {
              stateNext := Payload;
            }
          } else {
            txErNext := true;
            framePtrNext := 0;
            stateNext := WaitEnd;
          }
          return;
        case Last =>
          crcNext := CrcNext(crcState, sTdataReg);
          miiOddNext := true;
          framePtrNext := (framePtrReg + 1) % 0x1_0000;
          txdNext, txEnNext := sTdataReg, true;
          if framePtrReg < MIN_FRAME_LENGTH - 5 {
            tdataNext := Zeros(8);
            stateNext := Pad;
          } else {
            framePtrNext := 0;
            stateNext := FcsBytes;
          }
          return;
        case Pad =>
          crcNext := CrcNext(crcState, sTdataReg);
          miiOddNext := true;
          framePtrNext := (framePtrReg + 1) % 0x1_0000;
          txdNext, txEnNext := Zeros(8), true;
          tdataNext := Zeros(8);
          if framePtrReg < MIN_FRAME_LENGTH - 5 {
            stateNext := Pad;
          } else {
            framePtrNext := 0;
            stateNext := FcsBytes;
          }
          return;
        case FcsBytes =>
          miiOddNext := true;
          framePtrNext := (framePtrReg + 1) % 0x1_0000;
          if framePtrReg < 4 {
            txdNext := Not(crcState[8 * framePtrReg..8 * framePtrReg + 8]);
          }
          txEnNext := true;
          if framePtrReg < 3 {
            stateNext := FcsBytes;
          } else {
            framePtrNext := 0;
            fcsNext := crcState;
            ifgNext := 0;
            stateNext := Ifg;
          }
          return;
        case WaitEnd =>
          crcNext := Ones(32);
          miiOddNext := true;
          framePtrNext := (framePtrReg + 1) % 0x1_0000;
          treadyNext := true;
          if axis.valid && axis.last {
            treadyNext := false;
            ifgNext := 0;
            stateNext := Ifg;
          } else {
            stateNext := WaitEnd;
          }
          return;
        case Ifg =>
          crcNext := Ones(32);
          miiOddNext := true;
          framePtrNext := (framePtrReg + 1) % 0x1_0000;
          if GapContinues(ifgReg, ifgDelay) {
            ifgNext := (ifgReg + 1) % 256;
            stateNext := Ifg;
          } else {
            stateNext := Idle;
          }
          return;
      }
    }

    method Combinational(i: Inputs)
      returns (stateNext: State, tdataNext: Byte, ifgNext: nat, miiOddNext: bool, miiMsnNext: Nibble,
               framePtrNext: nat, txdNext: Byte, txEnNext: bool, txErNext: bool, treadyNext: bool,
               crcNext: Word32, fcsNext: Word32)
      ensures Regs(stateNext, tdataNext, ifgNext, miiOddNext, miiMsnNext, framePtrNext,
                   txdNext, txEnNext, txErNext, treadyNext, crcNext, fcsNext)
           == Advance(State(), i)
    {
      hide Core, Zeros, CrcNext;
      stateNext, tdataNext, ifgNext := stateReg, sTdataReg, ifgReg;
      miiOddNext, miiMsnNext, framePtrNext := miiOddReg, miiMsnReg, framePtrReg;
      txdNext, txEnNext, txErNext := gmiiTxdReg, gmiiTxEnReg, gmiiTxErReg;
      treadyNext, crcNext, fcsNext := false, crcState, fcsReg;
      if !i.clkEnable {
        return;
      }
      if i.miiSelect && miiOddReg {
        miiOddNext := false;
        txdNext := miiMsnReg + Zeros(4);
        return;
      }
      stateNext, tdataNext, ifgNext, miiOddNext, framePtrNext,
        txdNext, txEnNext, txErNext, treadyNext, crcNext, fcsNext := Decide(i.axis, i.ifgDelay);
      if i.miiSelect {
        miiMsnNext := txdNext[4..];
        txdNext := txdNext[..4] + Zeros(4);
      }
    }

    method Latch(stateNext: State, tdataNext: Byte, ifgNext: nat, miiOddNext: bool, miiMsnNext: Nibble,
                 framePtrNext: nat, txdNext: Byte, txEnNext: bool, txErNext: bool, treadyNext: bool,
                 crcNext: Word32, fcsNext: Word32)
      modifies this
      ensures stateReg == stateNext && sTdataReg == tdataNext && ifgReg == ifgNext && miiOddReg == miiOddNext
      ensures miiMsnReg == miiMsnNext && framePtrReg == framePtrNext && gmiiTxdReg == txdNext
      ensures gmiiTxEnReg == txEnNext && gmiiTxErReg == txErNext && sAxisTreadyReg == treadyNext
      ensures crcState == crcNext && fcsReg == fcsNext
    {
      stateReg, framePtrReg, sAxisTreadyReg := stateNext, framePtrNext, treadyNext;
      gmiiTxEnReg, gmiiTxErReg := txEnNext, txErNext;
      fcsReg, ifgReg, crcState := fcsNext, ifgNext, crcNext;
      miiOddReg, miiMsnReg := miiOddNext, miiMsnNext;
      sTdataReg, gmiiTxdReg := tdataNext, txdNext;
    }

    /** One clock edge. */
    method Clock(i: Inputs)
      modifies this
      ensures State() == Next(old(State()), i)
    {
      hide Advance, Ones;
      var stateNext, tdataNext, ifgNext, miiOddNext, miiMsnNext, framePtrNext,
        txdNext, txEnNext, txErNext, treadyNext, crcNext, fcsNext := Combinational(i);
      if i.rst {
        stateNext, framePtrNext, treadyNext := Idle, 0, false;
        txEnNext, txErNext := false, false;
        crcNext, fcsNext, ifgNext := Ones(32), Ones(32), 0;
      }
      Latch(stateNext, tdataNext, ifgNext, miiOddNext, miiMsnNext, framePtrNext,
            txdNext, txEnNext, txErNext, treadyNext, crcNext, fcsNext);
    }
  }
}
