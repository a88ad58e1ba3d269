/** The destination-address filter, byte by byte, and the whole-packet classification it must agree
    with. */
module MacFilter {
  import opened Bits
  import opened Signals

  type MacAddress = a: Vec | |a| == 48 witness Zeros(48)

  datatype Reason = MacMatches | MacMulticast | MacBroadcast | NonMacMatch

  const BROADCAST_BYTE: Byte := [true, true, true, true, true, true, true, true]

  /** 24'h01005E, first byte first. */
  const MULTICAST_PREFIX: seq<Byte> := [
    [true, false, false, false, false, false, false, false],
    [false, false, false, false, false, false, false, false],
    [false, true, true, true, true, false, true, false]]

  // ---- The streaming filter ----

  datatype Regs = Regs(checked: nat, broadcast: bool, match_: bool, multicast: bool)

  const RESET := Regs(0, true, true, true)

  /** `mac_addr[47 - 8 * k -: 8]`. */
  function AddressByte(mac: MacAddress, k: nat): Byte
    requires k < 6
  {
    mac[40 - 8 * k..48 - 8 * k]
  }

  function CaptureReason(r: Regs): Reason {
    if r.match_ then MacMatches
    else if r.multicast then MacMulticast
    else if r.broadcast then MacBroadcast
    else NonMacMatch
  }

  function Next(r: Regs, axis: Axis, mac: MacAddress): Regs {
    if !axis.valid then r
    else if axis.last then RESET
    else Regs(if r.checked < 6 then r.checked + 1 else r.checked,
              if r.checked < 6 then r.broadcast && axis.data == BROADCAST_BYTE else r.broadcast,
              if r.checked < 6 then r.match_ && axis.data == AddressByte(mac, r.checked) else r.match_,
              if r.checked < 3 then r.multicast && axis.data == MULTICAST_PREFIX[r.checked] else r.multicast)
  }

  class MacAddressFilter {
    var nMacBytesChecked: nat
    var couldBeBroadcast: bool
    var couldBeMacMatch: bool
    var couldBeMulticast: bool

    constructor ()
      ensures State() == RESET
    {
      nMacBytesChecked, couldBeBroadcast, couldBeMacMatch, couldBeMulticast := 0, true, true, true;
    }

    function State(): Regs
      reads this
    {
      Regs(nMacBytesChecked, couldBeBroadcast, couldBeMacMatch, couldBeMulticast)
    }

    method Output() returns (reason: Reason)
      ensures reason == CaptureReason(State())
    {
      if couldBeMacMatch {
        return MacMatches;
      } else if couldBeMulticast {
        return MacMulticast;
      } else if couldBeBroadcast {
        return MacBroadcast;
      } else {
        return NonMacMatch;
      }
    }

    method Clock(axis: Axis, mac: MacAddress)
      modifies this
      ensures State() == Next(old(State()), axis, mac)
    {
      var n := nMacBytesChecked;
      if axis.valid && axis.last {
        nMacBytesChecked := 0;
        couldBeBroadcast, couldBeMacMatch, couldBeMulticast := true, true, true;
        return;
      }
      if axis.valid && n < 6 {
        nMacBytesChecked := n + 1;
        couldBeBroadcast := couldBeBroadcast && axis.data == BROADCAST_BYTE;
        couldBeMacMatch := couldBeMacMatch && axis.data == AddressByte(mac, n);
      }
      if axis.valid && n < 3 {
        couldBeMulticast := couldBeMulticast && axis.data == MULTICAST_PREFIX[n];
      }
    }
  }

  // ---- The classification of a whole packet ----

  function Take(p: seq<Byte>, n: nat): seq<Byte> { if |p| < n then p else p[..n] }

  /** The address as the model keeps it: six bytes, least significant first. */
  function AddressList(mac: MacAddress): (b: seq<Byte>)
    ensures |b| == 6
  {
    [mac[0..8], mac[8..16], mac[16..24], mac[24..32], mac[32..40], mac[40..48]]
  }

  function Classify(p: seq<Byte>, mac: MacAddress): Reason {
    if Take(p, 6) == Reverse(AddressList(mac)) then MacMatches
    else if Take(p, 6) == BROADCAST then MacBroadcast
    else if Take(p, 3) == MULTICAST_PREFIX then MacMulticast
    else NonMacMatch
  }

  // ---- The classes in numbers ----

  /** Bytes as a number, the most significant first, as an address is written. */
  function Number(bytes: seq<Byte>): nat {
    if bytes == [] then 0 else 256 * Number(bytes[..|bytes| - 1]) + ValueOf(bytes[|bytes| - 1])
  }

  lemma {:induction false} SameDigits(x: nat, y: nat, a: nat, b: nat)
    requires 256 * x + a == 256 * y + b && a < 256 && b < 256
    ensures x == y && a == b
  {
  }

  lemma {:induction false} SameNumber(a: seq<Byte>, b: seq<Byte>)
    requires |a| == |b| && Number(a) == Number(b)
    ensures a == b
  {
    hide ValueOf;
    if a != [] {
      var n := |a| - 1;
      ByteNibbles(a[n]);
      ByteNibbles(b[n]);
      SameDigits(Number(a[..n]), Number(b[..n]), ValueOf(a[n]), ValueOf(b[n]));
      SameValue(a[n], b[n]);
      SameNumber(a[..n], b[..n]);
      assert a == a[..n] + [a[n]] && b == b[..n] + [b[n]];
    }
  }

  lemma {:induction false} NumberSnoc(bytes: seq<Byte>, b: Byte)
    ensures Number(bytes + [b]) == 256 * Number(bytes) + ValueOf(b)
  {
    assert (bytes + [b])[..|bytes|] == bytes;
  }

  /** The vector of an address, its bytes from the most significant down. */
  lemma {:induction false} AddressUpTo(mac: MacAddress, k: nat)
    requires k <= 6
    ensures Number(Address(mac)[..k]) == ValueOf(mac[48 - 8 * k..])
  {
    if k == 0 {
      assert mac[48..] == [];
    } else {
      var rest, j := mac[48 - 8 * k..], k - 1;
      AddressUpTo(mac, j);
      AddressSlices(mac, k, j, rest);
      hide ValueOf, Number, AddressByte, Address;
      ValueSplit(rest);
      NumberSnoc(Address(mac)[..j], AddressByte(mac, j));
    }
  }

  lemma {:induction false} AddressSlices(mac: MacAddress, k: nat, j: nat, rest: Vec)
    requires 0 < k <= 6 && j == k - 1 && rest == mac[48 - 8 * k..]
    ensures rest[..8] == AddressByte(mac, j) && rest[8..] == mac[48 - 8 * j..]
    ensures Address(mac)[..k] == Address(mac)[..j] + [AddressByte(mac, j)]
  {
    hide ValueOf;
  }

  lemma {:induction false} ConstantValues()
    ensures ValueOf(BROADCAST_BYTE) == 0xff && |MULTICAST_PREFIX| == 3
    ensures ValueOf(MULTICAST_PREFIX[0]) == 0x01
    ensures ValueOf(MULTICAST_PREFIX[1]) == 0x00
    ensures ValueOf(MULTICAST_PREFIX[2]) == 0x5e
  {
    AllOnes(BROADCAST_BYTE);
    PrefixFirst(MULTICAST_PREFIX[0]);
    PrefixSecond(MULTICAST_PREFIX[1]);
    PrefixThird(MULTICAST_PREFIX[2]);
    hide ValueOf;
  }

  lemma {:induction false} AllOnes(b: Byte)
    requires b == BROADCAST_BYTE
    ensures ValueOf(b) == 0xff
  {
    assert BitValue(b[0]) == 1 && BitValue(b[1]) == 1 && BitValue(b[2]) == 1 && BitValue(b[3]) == 1;
    assert BitValue(b[4]) == 1 && BitValue(b[5]) == 1 && BitValue(b[6]) == 1 && BitValue(b[7]) == 1;
    hide ValueOf, BitValue, MULTICAST_PREFIX, BROADCAST_BYTE;
    ByteSum(b);
  }

  lemma {:induction false} PrefixFirst(b: Byte)
    requires b == MULTICAST_PREFIX[0]
    ensures ValueOf(b) == 0x1
  {
    assert BitValue(b[0]) == 1 && BitValue(b[1]) == 0 && BitValue(b[2]) == 0 && BitValue(b[3]) == 0;
    assert BitValue(b[4]) == 0 && BitValue(b[5]) == 0 && BitValue(b[6]) == 0 && BitValue(b[7]) == 0;
    hide ValueOf, BitValue, MULTICAST_PREFIX, BROADCAST_BYTE;
    ByteSum(b);
  }

  lemma {:induction false} PrefixSecond(b: Byte)
    requires b == MULTICAST_PREFIX[1]
    ensures ValueOf(b) == 0x0
  {
    assert BitValue(b[0]) == 0 && BitValue(b[1]) == 0 && BitValue(b[2]) == 0 && BitValue(b[3]) == 0;
    assert BitValue(b[4]) == 0 && BitValue(b[5]) == 0 && BitValue(b[6]) == 0 && BitValue(b[7]) == 0;
    hide ValueOf, BitValue, MULTICAST_PREFIX, BROADCAST_BYTE;
    ByteSum(b);
  }

  lemma {:induction false} PrefixThird(b: Byte)
    requires b == MULTICAST_PREFIX[2]
    ensures ValueOf(b) == 0x5e
  {
    assert BitValue(b[0]) == 0 && BitValue(b[1]) == 1 && BitValue(b[2]) == 1 && BitValue(b[3]) == 1;
    assert BitValue(b[4]) == 1 && BitValue(b[5]) == 0 && BitValue(b[6]) == 1 && BitValue(b[7]) == 0;
    hide ValueOf, BitValue, MULTICAST_PREFIX, BROADCAST_BYTE;
    ByteSum(b);
  }

  /** Which addresses are accepted, as numbers: our own; any that begins 01-00-5E; FF-FF-FF-FF-FF-FF. */
  lemma {:induction false} ClassesInNumbers(p: seq<Byte>, mac: MacAddress)
    requires |p| >= 6
    ensures Classify(p, mac) == MacMatches <==> Number(p[..6]) == ValueOf(mac)
    ensures Classify(p, mac) == MacMulticast
       <==> Number(p[..6]) != ValueOf(mac) && ValueOf(p[0]) == 0x01 && ValueOf(p[1]) == 0x00 && ValueOf(p[2]) == 0x5e
    ensures Classify(p, mac) == MacBroadcast
       <==> Number(p[..6]) != ValueOf(mac) && forall k | 0 <= k < 6 :: ValueOf(p[k]) == 0xff
  {
    hide Number, ValueOf, AddressList, Reverse, Address, MULTICAST_PREFIX, BROADCAST, BROADCAST_BYTE;
    AddressReversed(mac);
    AddressUpTo(mac, 6);
    assert mac[0..] == mac && Address(mac)[..6] == Address(mac);
    if Number(p[..6]) == ValueOf(mac) {
      SameNumber(p[..6], Address(mac));
    }
    PrefixByValue(p);
    BroadcastByValue(p);
    BroadcastNotMulticast(p);
  }

  lemma {:induction false} PrefixByValue(p: seq<Byte>)
    requires |p| >= 6
    ensures Take(p, 3) == MULTICAST_PREFIX <==> ValueOf(p[0]) == 0x01 && ValueOf(p[1]) == 0x00 && ValueOf(p[2]) == 0x5e
  {
    ConstantValues();
    if ValueOf(p[0]) == 0x01 && ValueOf(p[1]) == 0x00 && ValueOf(p[2]) == 0x5e {
      SameValue(p[0], MULTICAST_PREFIX[0]);
      SameValue(p[1], MULTICAST_PREFIX[1]);
      SameValue(p[2], MULTICAST_PREFIX[2]);
    }
    if Take(p, 3) == MULTICAST_PREFIX {
      assert p[0] == Take(p, 3)[0] && p[1] == Take(p, 3)[1] && p[2] == Take(p, 3)[2];
    }
    hide ValueOf, MULTICAST_PREFIX;
  }

  lemma {:induction false} BroadcastByValue(p: seq<Byte>)
    requires |p| >= 6
    ensures Take(p, 6) == BROADCAST <==> forall k | 0 <= k < 6 :: ValueOf(p[k]) == 0xff
  {
    ConstantValues();
    if Take(p, 6) == BROADCAST {
      forall k | 0 <= k < 6 ensures ValueOf(p[k]) == 0xff {
        assert p[k] == Take(p, 6)[k] == BROADCAST[k];
      }
    } else if forall k | 0 <= k < 6 :: ValueOf(p[k]) == 0xff {
      forall k | 0 <= k < 6 ensures p[k] == BROADCAST_BYTE {
        SameValue(p[k], BROADCAST_BYTE);
      }
    }
    hide ValueOf, BROADCAST_BYTE;
  }

  // ---- A packet with gaps ----

  /** The state after the cycles `cs`. */
  function After(r: Regs, cs: seq<Axis>, mac: MacAddress): Regs {
    if cs == [] then r else Next(After(r, cs[..|cs| - 1], mac), cs[|cs| - 1], mac)
  }

  function Bytes(cs: seq<Axis>): seq<Byte> {
    if cs == [] then [] else
      Bytes(cs[..|cs| - 1]) + if cs[|cs| - 1].valid then [cs[|cs| - 1].data] else []
  }

  /** As far as both go, the bytes are these. */
  ghost predicate Agree(d: seq<Byte>, want: seq<Byte>) {
    forall i | 0 <= i < |d| && i < |want| :: d[i] == want[i]
  }

  lemma {:induction false} AgreeMore(d: seq<Byte>, b: Byte, want: seq<Byte>)
    ensures Agree(d + [b], want) <==> Agree(d, want) && (|d| < |want| ==> b == want[|d|])
  {
    if Agree(d + [b], want) {
      forall i | 0 <= i < |d| && i < |want| ensures d[i] == want[i] {
        assert (d + [b])[i] == want[i];
      }
      assert |d| < |want| ==> (d + [b])[|d|] == want[|d|];
    }
  }

  lemma {:induction false} AgreeWhole(d: seq<Byte>, p: seq<Byte>, want: seq<Byte>)
    requires d <= p
    ensures Take(p, |want|) == want ==> Agree(d, want)
    ensures Agree(d, want) && |d| >= |want| ==> Take(p, |want|) == want
  {
    if Take(p, |want|) == want {
      forall i | 0 <= i < |d| && i < |want| ensures d[i] == want[i] {
        assert Take(p, |want|)[i] == p[i];
      }
    }
  }

  function Address(mac: MacAddress): (b: seq<Byte>)
    ensures |b| == 6 && forall i | 0 <= i < 6 :: b[i] == AddressByte(mac, i)
  {
    seq(6, i requires 0 <= i < 6 => AddressByte(mac, i))
  }

  const BROADCAST: seq<Byte> := [
    BROADCAST_BYTE, BROADCAST_BYTE, BROADCAST_BYTE, BROADCAST_BYTE, BROADCAST_BYTE, BROADCAST_BYTE]

  /** The state agrees with the bytes of the packet so far. */
  ghost predicate Tracks(r: Regs, d: seq<Byte>, mac: MacAddress) {
    && r.checked == (if |d| < 6 then |d| else 6)
    && (r.broadcast <==> Agree(d, BROADCAST))
    && (r.match_ <==> Agree(d, Address(mac)))
    && (r.multicast <==> Agree(d, MULTICAST_PREFIX))
  }

  lemma {:induction false} TracksMore(r: Regs, d: seq<Byte>, axis: Axis, mac: MacAddress)
    requires Tracks(r, d, mac) && axis.valid && !axis.last
    ensures Tracks(Next(r, axis, mac), d + [axis.data], mac)
  {
    AgreeMore(d, axis.data, BROADCAST);
    AgreeMore(d, axis.data, Address(mac));
    AgreeMore(d, axis.data, MULTICAST_PREFIX);
    hide AddressByte, Agree;
  }

  ghost predicate NoneLast(cs: seq<Axis>) { forall c | c in cs :: !(c.valid && c.last) }

  lemma {:induction false} TracksRun(cs: seq<Axis>, mac: MacAddress)
    requires NoneLast(cs)
    ensures Tracks(After(RESET, cs, mac), Bytes(cs), mac)
  {
    if cs != [] {
      var before, c := cs[..|cs| - 1], cs[|cs| - 1];
      TracksRun(before, mac);
      if c.valid {
        TracksMore(After(RESET, before, mac), Bytes(before), c, mac);
      } else {
        assert Bytes(before) + [] == Bytes(before);
      }
    }
  }

  lemma {:induction false} AddressReversed(mac: MacAddress)
    ensures Reverse(AddressList(mac)) == Address(mac)
  {
    var r, l := Reverse(AddressList(mac)), AddressList(mac);
    assert r == [l[5], l[4], l[3], l[2], l[1], l[0]];
  }

  lemma {:induction false} BroadcastNotMulticast(p: seq<Byte>)
    ensures !(Take(p, 6) == BROADCAST && Take(p, 3) == MULTICAST_PREFIX)
  {
    assert BROADCAST_BYTE[1] != MULTICAST_PREFIX[0][1];
    if Take(p, 3) == MULTICAST_PREFIX {
      assert Take(p, 3)[0] == p[0];
      assert |p| >= 6 ==> Take(p, 6)[0] == p[0];
    }
  }

  /** After six bytes the filter has decided, as the classification would. */
  lemma {:induction false} Decided(r: Regs, d: seq<Byte>, p: seq<Byte>, mac: MacAddress)
    requires Tracks(r, d, mac) && |d| >= 6 && d <= p
    ensures CaptureReason(r) == Classify(p, mac)
  {
    AddressReversed(mac);
    AgreeWhole(d, p, Address(mac));
    AgreeWhole(d, p, BROADCAST);
    AgreeWhole(d, p, MULTICAST_PREFIX);
    BroadcastNotMulticast(p);
    hide AddressByte, AddressList, Agree, Take, Reverse, Address, MULTICAST_PREFIX;
    assert |MULTICAST_PREFIX| == 3 by { PrefixLength(); }
  }

  lemma {:induction false} PrefixLength()
    ensures |MULTICAST_PREFIX| == 3
  {
  }

  /** Before that, a packet that will be accepted is never rejected. */
  lemma {:induction false} Undecided(r: Regs, d: seq<Byte>, p: seq<Byte>, mac: MacAddress)
    requires Tracks(r, d, mac) && d <= p && Classify(p, mac) != NonMacMatch
    ensures CaptureReason(r) != NonMacMatch
  {
    AddressReversed(mac);
    AgreeWhole(d, p, Address(mac));
    AgreeWhole(d, p, BROADCAST);
    AgreeWhole(d, p, MULTICAST_PREFIX);
    hide AddressByte, AddressList, Agree, Take, Reverse, Address;
  }

  /** These cycles carry packet `p`, with any gaps, from the cycle after the previous packet's end
      to its last beat. */
  ghost predicate Presents(cs: seq<Axis>, p: seq<Byte>) {
    && cs != [] && cs[|cs| - 1].valid && cs[|cs| - 1].last && NoneLast(cs[..|cs| - 1])
    && Bytes(cs) == p
  }

  lemma {:induction false} BytesPrefix(cs: seq<Axis>, i: nat)
    requires i <= |cs|
    ensures Bytes(cs[..i]) <= Bytes(cs)
    decreases |cs|
  {
    if i < |cs| {
      var before := cs[..|cs| - 1];
      BytesPrefix(before, i);
      assert before[..i] == cs[..i];
    } else {
      assert cs[..i] == cs;
    }
  }

  lemma {:induction false} ReadyAgain(cs: seq<Axis>, p: seq<Byte>, mac: MacAddress)
    requires Presents(cs, p)
    ensures After(RESET, cs, mac) == RESET
  {
  }

  lemma {:induction false} NoneLastPrefix(cs: seq<Axis>, n: nat, i: nat)
    requires i <= n <= |cs| && NoneLast(cs[..n])
    ensures NoneLast(cs[..i])
  {
    assert cs[..i] == cs[..n][..i];
  }

  /** The reason shown with the last beat of a packet of at least seven is the classification of the
      whole packet, the filter is ready for the next packet, and in no cycle of an acceptable packet
      does it say otherwise. */
  lemma {:induction false} FilterAgrees(cs: seq<Axis>, p: seq<Byte>, mac: MacAddress)
    requires Presents(cs, p) && |p| >= 7
    ensures CaptureReason(After(RESET, cs[..|cs| - 1], mac)) == Classify(p, mac)
    ensures After(RESET, cs, mac) == RESET
    ensures Classify(p, mac) != NonMacMatch ==>
              forall i | 0 <= i < |cs| :: CaptureReason(After(RESET, cs[..i], mac)) != NonMacMatch
  {
    ReadyAgain(cs, p, mac);
    hide Tracks, Classify, CaptureReason, After, Next, Bytes;
    var n := |cs| - 1;
    TracksRun(cs[..n], mac);
    BytesPrefix(cs, n);
    Decided(After(RESET, cs[..n], mac), Bytes(cs[..n]), p, mac);
    if Classify(p, mac) != NonMacMatch {
      forall i | 0 <= i < |cs| ensures CaptureReason(After(RESET, cs[..i], mac)) != NonMacMatch {
        NoneLastPrefix(cs, n, i);
        TracksRun(cs[..i], mac);
        BytesPrefix(cs, i);
        Undecided(After(RESET, cs[..i], mac), Bytes(cs[..i]), p, mac);
      }
    }
  }

  // ---- Abandoning a packet ----

  /** The receive framing's request to the ring buffer to drop the packet. */
  predicate Abandon(r: Regs, axis: Axis, promiscuous: bool) {
    (CaptureReason(r) == NonMacMatch && !promiscuous) || (axis.user && axis.valid)
  }

  ghost predicate AbandonedAt(cs: seq<Axis>, mac: MacAddress, promiscuous: bool, i: nat)
    requires i < |cs|
  {
    cs[i].valid && Abandon(After(RESET, cs[..i], mac), cs[i], promiscuous)
  }

  /** A packet is dropped exactly when a beat is marked bad, or its address is neither ours, nor
      broadcast, nor multicast and the filter is on. */
  lemma {:induction false} AbandonedExactly(cs: seq<Axis>, p: seq<Byte>, mac: MacAddress, promiscuous: bool)
    requires Presents(cs, p) && |p| >= 7
    ensures (exists i: nat | i < |cs| :: AbandonedAt(cs, mac, promiscuous, i))
       <==> (exists c | c in cs :: c.valid && c.user) || (!promiscuous && Classify(p, mac) == NonMacMatch)
  {
    hide Classify, CaptureReason;
    FilterAgrees(cs, p, mac);
    var n := |cs| - 1;
    if exists c | c in cs :: c.valid && c.user {
      var c :| c in cs && c.valid && c.user;
      var i :| 0 <= i < |cs| && cs[i] == c;
      assert AbandonedAt(cs, mac, promiscuous, i);
    }
    if !promiscuous && Classify(p, mac) == NonMacMatch {
      assert AbandonedAt(cs, mac, promiscuous, n);
    }
    forall i: nat | i < |cs| && AbandonedAt(cs, mac, promiscuous, i)
      ensures (exists c | c in cs :: c.valid && c.user) || (!promiscuous && Classify(p, mac) == NonMacMatch)
    {
      assert cs[i] in cs;
    }
  }

  // ---- Packets of six bytes or fewer ----

  /** What the filter says of such a packet: the reason is sampled before the last byte counts, so it
      is that of the bytes before, as far as they go. */
  ghost function ShortReason(p: seq<Byte>, mac: MacAddress): Reason
    requires p != []
  {
    var d := p[..|p| - 1];
    if Agree(d, Address(mac)) then MacMatches
    else if Agree(d, MULTICAST_PREFIX) then MacMulticast
    else if Agree(d, BROADCAST) then MacBroadcast
    else NonMacMatch
  }

  lemma {:induction false} ShortPacketReason(cs: seq<Axis>, p: seq<Byte>, mac: MacAddress)
    requires Presents(cs, p) && |p| <= 6
    ensures CaptureReason(After(RESET, cs[..|cs| - 1], mac)) == ShortReason(p, mac)
    ensures After(RESET, cs, mac) == RESET
  {
    var n := |cs| - 1;
    ReadyAgain(cs, p, mac);
    assert Bytes(cs[..n]) == p[..|p| - 1];
    hide After, Next, Bytes, Agree, Address;
    TracksRun(cs[..n], mac);
  }

  /** The classification, from all the bytes but the last and the whole packet. */
  lemma {:induction false} ShortClassified(p: seq<Byte>, mac: MacAddress)
    requires 0 < |p| <= 6
    ensures p == Address(mac) ==> Agree(p[..|p| - 1], Address(mac))
    ensures MULTICAST_PREFIX <= p ==> Agree(p[..|p| - 1], MULTICAST_PREFIX)
    ensures p == BROADCAST ==> Agree(p[..|p| - 1], BROADCAST)
    ensures Classify(p, mac) == if p == Address(mac) then MacMatches
                                else if p == BROADCAST then MacBroadcast
                                else if MULTICAST_PREFIX <= p then MacMulticast
                                else NonMacMatch
  {
    AddressReversed(mac);
    assert Take(p, 6) == p;
    assert Take(p, 3) == MULTICAST_PREFIX <==> MULTICAST_PREFIX <= p;
    hide AddressByte, AddressList;
  }

  /** It is the whole-packet classification if and only if the last byte bears out those before: they
      begin our address and the packet is our address, or they agree with the multicast prefix and the
      packet has it whole, or they begin the broadcast address and the packet is that, or none of
      these. When it is not, a packet is accepted that the classification rejects or accepted for
      another reason, never the other way. */
  lemma {:induction false} ShortPacketAgrees(p: seq<Byte>, mac: MacAddress)
    requires 0 < |p| <= 6
    ensures var d := p[..|p| - 1];
            ShortReason(p, mac) == Classify(p, mac)
            <==> if Agree(d, Address(mac)) then p == Address(mac)
                 else if Agree(d, MULTICAST_PREFIX) then MULTICAST_PREFIX <= p
                 else Agree(d, BROADCAST) ==> p == BROADCAST
    ensures ShortReason(p, mac) == NonMacMatch ==> Classify(p, mac) == NonMacMatch
  {
    ShortClassified(p, mac);
    BroadcastNotMulticast(p);
    assert p == BROADCAST ==> Take(p, 6) == BROADCAST;
    assert MULTICAST_PREFIX <= p ==> Take(p, 3) == MULTICAST_PREFIX;
    hide Agree, Address, Classify, Take;
  }

  /** A packet of one byte is always taken for one of ours. */
  lemma {:induction false} OneBytePacket(cs: seq<Axis>, x: Byte, mac: MacAddress)
    requires Presents(cs, [x])
    ensures CaptureReason(After(RESET, cs[..|cs| - 1], mac)) == MacMatches && Classify([x], mac) == NonMacMatch
  {
    ShortPacketReason(cs, [x], mac);
    ShortClassified([x], mac);
    assert [x][..0] == [] && |Address(mac)| == 6;
    hide After, Classify, Presents, Address;
  }
}
