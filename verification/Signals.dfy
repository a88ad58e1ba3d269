/** The two interfaces of the MAC. */
module Signals {
  import opened Bits

  /** One cycle of a byte-wide AXI stream. */
  datatype Axis = Axis(data: Byte, valid: bool, last: bool, user: bool)

  const BLANK := Axis(Zeros(8), false, false, false)

  /** One cycle of a GMII port. */
  datatype Gmii = Gmii(data: Byte, en: bool, er: bool)

  const ETH_PRE: Byte := [true, false, true, false, true, false, true, false]  // 8'h55
  const ETH_SFD: Byte := [true, false, true, false, true, false, true, true]   // 8'hD5

  /** A beat of a packet. */
  datatype Beat = Beat(data: Byte, last: bool)

  /** What the transmitter may be given: at least two bytes. */
  type Packet = p: seq<Byte> | |p| >= 2 witness [ETH_PRE, ETH_PRE]

  function Beats(p: seq<Byte>): (b: seq<Beat>)
    ensures |b| == |p| && forall i | 0 <= i < |p| :: b[i] == Beat(p[i], i == |p| - 1)
  {
    seq(|p|, i requires 0 <= i < |p| => Beat(p[i], i == |p| - 1))
  }

  const IDLE_SYMBOL := Gmii(Zeros(8), false, false)

  function Idles(n: nat): (w: seq<Gmii>)
    ensures |w| == n && forall i | 0 <= i < n :: w[i] == IDLE_SYMBOL
  {
    seq(n, _ => IDLE_SYMBOL)
  }

  /** Bytes on the wire with the enable high. */
  function Symbols(bytes: seq<Byte>): (w: seq<Gmii>)
    ensures |w| == |bytes| && forall i | 0 <= i < |bytes| :: w[i] == Gmii(bytes[i], true, false)
  {
    seq(|bytes|, i requires 0 <= i < |bytes| => Gmii(bytes[i], true, false))
  }
}
