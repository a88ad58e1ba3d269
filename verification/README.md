# Ethernet device: proofs

A model in Dafny of the gigabit Ethernet device and of the properties it is built for. Clocked modules are
modelled one for one: a record of registers, a function `Next` from registers and inputs to registers, and a
class whose `Clock` method updates one field per register, branch by branch as the source does, and is proved
to do what `Next` says. The theorems are about runs of `Next`, of any length and for every input.

Vectors are sequences of bits, element `i` being bit `i` (`Bits`), and stand for the numbers `Bits.ValueOf` gives;
pointers, counters and comparisons carry their widths explicitly.

| files | subject |
|---|---|
| `Bits`, `Words`, `Signals` | vectors, 32-bit constants, AXI stream and GMII signals |
| `SerialLfsr`, `MaskTable`, `RgmiiLfsr` | the shift register, its compiled masks, the module that elaborates them |
| `Crc32`, `Crc32Check`, `Remainder` | the Ethernet CRC: residue, burst errors, polynomial division |
| `GmiiTx`, `TxWire`, `TxErrors` | the transmitter, what it puts on the wire, packets its source abandons |
| `GmiiRx`, `RxFrames`, `RxErrors`, `RxRunts`, `MacLink` | the receiver, frames flagged by the PHY, frames without data, and the two connected |
| `MiiTx`, `MiiWire`, `MiiRx`, `MiiLink` | the same with the 4-bit interface selected |
| `PacketMux` | the packet-safe switch |
| `TxFraming`, `SendPath` | transmit buffer, driver send call, and both joined to the transmitter |
| `MacFilter`, `DescriptorFifo`, `RingBuffer`, `RxPackets` | address filter, descriptor table, ring, whole packets |
| `RxStream`, `RxPath`, `HostLink`, `Loopback` | filter and ring under pops, wire to queue, transmitter to queue, a device to its own queue |
| `RxLost` | when a packet is reported lost |
| `RxCache`, `RxDriver`, `ModelReader` | the cached word, the driver's reads under concurrent arrivals; the test environment's wrapping reader |

Automatic induction is switched off on every lemma, so that each proof is the one written in its body. `dafny
verify dfyconfig.toml` checks everything.

## What was found

Where the code does not do what its documentation or comments say, the model follows the code, the failure has
a lemma, and the exact condition is proved.

- **Incomplete packets can be stored.** The repository's README (line 136) says a spliced or incomplete packet
  never appears in the receive buffer. While the descriptor table is full, arriving bytes are not written, but the
  packet is not given up (only a full ring makes `abandon_sticky` stick); a pop before the packet ends lets it be
  committed without those bytes (`RxPackets.IncompletePacketStored`; from an empty buffer,
  `RxPackets.IncompleteFromEmpty`). A stored packet is whole if and only if the table was not full when its first
  byte arrived (`RxPackets.CutShortIff`).
- **The driver's cached word can be stale without a pop.** The comment in `ethernet_rx_buffer_read_byte` says the
  buffer cannot change until a pop. That is so for every byte of every packet stored when the word was read
  (`RxCache.CachedByte`). The next packet starts where the last ended: the word cached for the end of the newest
  packet is right for every packet that may follow if and only if `(head + len) % 8 == 0`
  (`RxCache.NextPacketIff`). From an empty device, through the driver's own calls, `RxDriver.StaleRead` reads a
  packet of one byte and gets another value. `ethernet_read_and_pop_oldest_packet` fails too, but only for a word
  cached while its packet was not yet stored: if the oldest packet was stored when the word was cached, or begins in
  another word, its bytes are right (`RxDriver.RxDriver.ReadAndPopOldestPacket`); after a byte was read while nothing
  was stored they need not be (`RxDriver.StaleOldest`).
- **The driver's reads do not wrap.** Bytes of a packet that crosses the end of the ring are read from beyond it, and
  are whatever the bus has there; a packet is read whole if `head + len <= 8192`
  (`RxDriver.RxDriver.ReadAndPopOldestPacket`, `RxDriver.ReadStoredPacket`).
- **A packet the filter would drop may be reported lost**, against `packet_lost_non_match_test`
  (`src/hw/axi_eth/verif/coco_top.py:733-755`). `RxLost.LostIff` gives the exact condition in terms of what is
  stored and the packet's bytes: for a rejected packet, packets are stored and the free bytes are no more than it
  takes to see that the address is foreign; or the table is full and no byte is free, or the foreign byte is the
  last but one. With the table full, a packet for us with a wrong check sequence is reported too
  (`RxLost.FullTable`). For good packets that the filter accepts the output agrees with the model
  (`RxLost.LostMatchesModel`).
- **Lengths are kept modulo 2048.** The receive path does not stop a longer packet: it is stored, and its
  descriptor's length is right if and only if it is shorter (`RxPackets.ReadsPacket`). One of more than 8192 bytes
  arriving in an empty buffer overwrites itself, and what is stored is what came after the last time round
  (`RingBuffer.RingOverrun`, `RxPackets.AnyRunRefines`).
- **A packet of one beat in the first cycle after reset** leaves no entry and is not reported lost
  (`RingBuffer.FirstCycle`).
- **Packets shorter than seven beats** are judged by their bytes but the last, so they may be accepted, or accepted
  for another reason, against the classification: exactly when `MacFilter.ShortPacketAgrees` says. A packet of one
  byte is always taken for ours (`MacFilter.OneBytePacket`).
- **A frame with exactly four bytes after the delimiter** opens a packet as data valid drops (`RxRunts.RuntFrame`): a
  second idle symbol brings out a stray beat with the first of the four bytes, marked bad unless the rest happen to be
  its check sequence (`RxRunts.StrayBeat`), and a frame that begins after a single idle symbol is joined to it
  (`RxRunts.JoinedFrame`). Fewer bytes leave no trace.
- **An error flagged with the last data byte** keeps the receiver waiting one symbol longer than any other, so a frame
  after a single idle symbol would be missed (`RxErrors.NextFrameLost`); standard gaps are longer.
- **With the 4-bit interface an error is seen on the second nibble of a byte only.** The receiver joins the error flags
  of two nibbles (line 331), but once it has found the byte boundary the join happens between the second nibble of a
  byte and the first of the next, and is overwritten by the next sample. Two nibbles act as a byte flagged if and only
  if the second is (`MiiRx.LockedRefines`): a frame is cut short and marked bad if and only if a second nibble of its
  data or check sequence is flagged (`MiiRx.MiiAnyFrame`), and an intact frame flagged on first nibbles alone comes out
  as a good packet (`MiiRx.MiiErrorUnseen`).
- **Padding is decided by a 16-bit count**, so it is the minimum frame's exactly for the lengths given by
  `TxWire.PaddedLength`; an interpacket gap of 0 never ends (`TxWire.ZeroGapNeverEnds`).
- **`ethernet_send_packet` reads beyond the packet** if and only if it is accepted and its length is not a multiple
  of 8: to the end of the word, at most seven bytes (`SendPath.SendPacket`, `SendPath.RoundedUp`).
- **The test environment's reader** passes its own length check if and only if the packet reaches the end of its
  first word (`ModelReader.ReadPacket`).

## Model

| member | source | states |
|---|---|---|
| `SerialLfsr.RunSplit` | src/hw/core_eth/mac/rgmii_lfsr.sv:224-296 | shifting in two bit strings one after the other is shifting in their concatenation, state and output |
| `SerialLfsr.RunLinear` | src/hw/core_eth/mac/rgmii_lfsr.sv:224-296 | the machine is linear over GF(2) in state and input together, in every configuration |
| `SerialLfsr.RunInjective` | src/hw/core_eth/mac/rgmii_lfsr.sv:261-296 | a Galois register driven by the same input keeps different states different |
| `SerialLfsr.DescramblerInverts` | src/hw/core_eth/mac/rgmii_lfsr.sv:225-260 | the feed-forward machine undoes the feedback one bit by bit, for every polynomial and input, from equal states, and from any two states once the register's width of bits has passed |
| `SerialLfsr.Recurrence` | src/hw/core_eth/mac/rgmii_lfsr.sv:101-147 | a Fibonacci register's output obeys the recurrence of its polynomial: the data bit, plus the bit as many places back as the register is wide, plus those the middle terms select; over its own output, or with feed-forward over its input |
| `SerialLfsr.ParallelInverts` | src/hw/core_eth/mac/rgmii_lfsr.sv:117-156 | the parallel descrambler undoes the parallel scrambler, every bit in its place, for either bit order |
| `SerialLfsr.ReversedPorts` | src/hw/core_eth/mac/rgmii_lfsr.sv:154-156 | bit reversal is of every port, in and out |
| `MaskTable.StateMaskEqualsSerial` | src/hw/core_eth/mac/rgmii_lfsr.sv:209-353 | every next-state mask, applied by AND and parity, gives its bit of the serial machine's state after all data bits: any width, data width, polynomial, configuration, feed-forward and reversal |
| `MaskTable.OutMaskEqualsSerial` | src/hw/core_eth/mac/rgmii_lfsr.sv:209-353 | the same of the data-out masks and the bits shifted out |
| `RgmiiLfsr.ParallelLfsr.constructor` | src/hw/core_eth/mac/rgmii_lfsr.sv:209-353 | the nested elaboration loops over mask arrays leave exactly those masks |
| `RgmiiLfsr.ParallelLfsr.Evaluate` | src/hw/core_eth/mac/rgmii_lfsr.sv:367-423 | in either evaluation style the outputs are the serial machine's, so the styles agree |
| `Crc32.CrcBytesConcat` | src/hw/core_eth/mac/axis_gmii_tx.sv:121-135 | the register after a concatenation is that of the second part from where the first left it |
| `Crc32.CrcBytesRun` | src/hw/core_eth/mac/axis_gmii_tx.sv:121-135 | a byte a cycle through the compiled module is the serial register fed all bits, least significant first |
| `Crc32Check.ResidueValue` | src/hw/core_eth/mac/axis_gmii_rx.sv:131-145 | four zero bytes take a register of ones to 0xDEBB20E3 |
| `Crc32Check.ComplementIffResidue` | src/hw/core_eth/mac/axis_gmii_rx.sv:200-204 | four check bytes are the complement of the register if and only if they take it to the residue |
| `Crc32Check.SentFrameAccepted` | src/hw/core_eth/mac/axis_gmii_tx.sv:288-311 | data followed by its own check sequence is accepted |
| `Crc32Check.BurstDetected` | src/hw/core_eth/mac/rgmii_lfsr.sv:261-296 | two frames of equal length that differ, and only within 32 consecutive bits, are not both accepted |
| `Remainder.RemainderUnique` | src/hw/core_eth/mac/axis_gmii_tx.sv:121-135 | a polynomial has at most one remainder modulo a monic generator |
| `Remainder.RunDivides` | src/hw/core_eth/mac/rgmii_lfsr.sv:87-126 | after any data a Galois register of any width and polynomial is the remainder of data and initial state modulo the polynomial |
| `Remainder.CrcIsRemainder` | src/hw/core_eth/mac/axis_gmii_tx.sv:121-135 | the Ethernet register is the remainder of the message, its first 32 bits complemented, times x^32 |
| `Remainder.FcsIsIeee` | src/hw/core_eth/mac/axis_gmii_tx.sv:288-311 | the bytes sent are the check sequence of IEEE 802.3 section 3.2.9 and no other value is |
| `GmiiTx.AxisGmiiTx.Clock` | src/hw/core_eth/mac/axis_gmii_tx.sv:137-411 | one clock edge of the transmitter: all states, clock enable, nibble mode, reset |
| `TxWire.SendPacket` | src/hw/core_eth/mac/axis_gmii_tx.sv:172-362 | from idle, a packet of two bytes or more is on the wire as preamble, delimiter, padded packet and check sequence without a break, then the gap; idle again after exactly 12 + padded length + gap cycles, the rest of the source untouched, the register shown that of the padded packet |
| `TxWire.FrameValues` | src/hw/core_eth/mac/axis_gmii_tx.sv:172-287 | the bytes of the frame as numbers: seven of 55, one of D5, the packet's own, padding of 0 |
| `TxWire.PaddedLength` | src/hw/core_eth/mac/axis_gmii_tx.sv:261-287 | the padded length is the larger of 60 and the packet's length if and only if the packet has at most 65536 bytes or its length less one is at least 59 modulo 65536 |
| `TxWire.GapPhase` | src/hw/core_eth/mac/axis_gmii_tx.sv:333-361 | the enable stays low for the rest of the gap, which ends after exactly the configured count |
| `TxWire.ZeroGapNeverEnds` | src/hw/core_eth/mac/axis_gmii_tx.sv:355-360 | with a gap of 0 the comparison is unsigned and the transmitter never leaves the gap |
| `TxErrors.Abandoned` | src/hw/core_eth/mac/axis_gmii_tx.sv:229-248 | a packet whose last beat is an error, or whose source falls silent: preamble, delimiter and the bytes taken, the last of them flagged, and no check sequence; then the gap, or the wait for the packet's end |
| `TxErrors.WaitsForEnd` | src/hw/core_eth/mac/axis_gmii_tx.sv:313-331 | while it waits the transmitter takes every beat and shows nothing, until the last |
| `TxErrors.AbandonedIsBad` | src/hw/core_eth/mac/axis_gmii_rx.sv:195-199 | at the other end an abandoned packet of five bytes or more comes out marked bad |
| `TxWire.SendAll` | src/hw/core_eth/mac/axis_gmii_tx.sv:172-362 | a source that goes on making offers, at whatever times, gets all its packets out in order, each framed and padded, with at least the gap between them |
| `GmiiRx.AxisGmiiRx.Clock` | src/hw/core_eth/mac/axis_gmii_rx.sv:147-353 | one clock edge of the receiver: all states, delay line, nibble lock, reset |
| `RxFrames.ReceiveFrame` | src/hw/core_eth/mac/axis_gmii_rx.sv:169-246 | any frame with data, intact or not, after any preamble without a delimiter: its data bytes come out once, in order, with one last beat, marked bad if and only if the check fails; the two error outputs are high in that cycle if and only if it does |
| `RxFrames.ResidueEquivalence` | src/hw/core_eth/mac/axis_gmii_rx.sv:195-233 | four cycles later the register shown is the residue if and only if the last beat was not marked bad, whatever the wire shows meanwhile |
| `RxFrames.ReceiveIntact` | src/hw/core_eth/mac/axis_gmii_rx.sv:195-216 | a frame sent intact comes out good and the receiver is ready for the next |
| `RxFrames.ReceiveBurst` | src/hw/core_eth/mac/axis_gmii_rx.sv:195-212 | a frame damaged within 32 consecutive bits, data or check sequence or both, comes out marked bad |
| `RxErrors.ErrorFrame` | src/hw/core_eth/mac/axis_gmii_rx.sv:188-199 | an error flagged with any byte of data or check sequence, others following or not: the data up to the first flagged byte come out, with exactly one last beat, marked bad, whatever the check sequence; which state the receiver is left in |
| `RxErrors.PreambleErrors` | src/hw/core_eth/mac/axis_gmii_rx.sv:175-179 | errors flagged within the preamble change nothing |
| `RxErrors.FlaggedDelimiter` | src/hw/core_eth/mac/axis_gmii_rx.sv:175-179 | a frame whose delimiter is flagged leaves no trace, unless another delimiter is in it |
| `RxErrors.NoPacketWithoutDelimiter` | src/hw/core_eth/mac/axis_gmii_rx.sv:171-179 | nothing comes out of a wire without an unflagged delimiter, whatever is on it |
| `RxErrors.ErrorFrameOver` | src/hw/core_eth/mac/axis_gmii_rx.sv:237-245 | two symbols with the enable low leave the receiver listening wherever the error was |
| `RxErrors.NextFrameLost` | src/hw/core_eth/mac/axis_gmii_rx.sv:237-245 | with one, after an error with the last data byte, nothing of the next frame comes out |
| `RxRunts.RuntFrame` | src/hw/core_eth/mac/axis_gmii_rx.sv:171-187 | a frame with at most four bytes after the delimiter, any of them flagged: nothing comes out; after fewer than four the receiver listens, after four a packet is open |
| `RxRunts.StrayBeat` | src/hw/core_eth/mac/axis_gmii_rx.sv:181-216 | after four and a second idle symbol: one beat with the first of them, marked bad unless nothing is flagged and the bytes happen to agree; then the receiver listens |
| `RxRunts.JoinedFrame` | src/hw/core_eth/mac/axis_gmii_rx.sv:181-187 | if the next frame begins instead, that beat is not the last and the packet goes on with what is on the wire |
| `MacLink.ResetReady` | src/hw/core_eth/mac/axis_gmii_tx.sv:372-384 | one cycle of reset, from any state, leaves transmitter and receiver ready, both silent, no error shown, and the registers shown all ones |
| `MacLink.ReceiveAll` | src/hw/core_eth/mac/axis_gmii_rx.sv:169-246 | a wire that carries frames gives exactly their packets, in order |
| `MacLink.RoundTrip` | src/hw/core_eth/mac/axis_gmii_tx.sv:137-411 | transmitter wired to receiver: any list of packets comes out in order, padded and unmarked; nothing else ever comes out, and from some cycle on everything has |
| `MiiTx.MiiRefines` | src/hw/core_eth/mac/axis_gmii_tx.sv:158-170 | for every clock-enable pattern the samples of the enabled cycles, enable line included, with the one still owed, are exactly a run of the 1000 Mb/s transmitter, two nibbles a byte, low first |
| `MiiWire.MiiSafe` | src/hw/core_eth/mac/axis_gmii_tx.sv:158-170 | what any finite run has sampled, from reset in either nibble phase, is the beginning of samples that carry the packets' frames |
| `MiiWire.OfferedPacket` | src/hw/core_eth/mac/axis_gmii_tx.sv:158-170 | a packet offered, under any enable pattern that does not cease: its frame is sampled with the enable high throughout, then twice the gap with the enable low throughout, and the transmitter can take the next |
| `MiiWire.MiiSendAll` | src/hw/core_eth/mac/axis_gmii_tx.sv:158-367 | all packets go out in order, each frame without a break, with twice the gap in samples after it, whatever the enable pattern and the times of the offers |
| `MiiRx.EnabledOnly` | src/hw/core_eth/mac/axis_gmii_rx.sv:163-168 | what comes out depends on the enabled cycles only |
| `MiiRx.LockedRefines` | src/hw/core_eth/mac/axis_gmii_rx.sv:286-337 | once locked, two nibbles, flagged or not, are received as the 1000 Mb/s receiver receives the byte, flagged if the second nibble is |
| `MiiRx.NibbleValues` | src/hw/core_eth/mac/axis_gmii_rx.sv:323 | of a byte the first nibble is the low one, the delimiter being 5 and then 13 |
| `MiiRx.MiiAnyFrame` | src/hw/core_eth/mac/axis_gmii_rx.sv:171-246 | in either phase, after any such preamble, with any nibbles flagged but those of the delimiter that count: the data bytes up to the first whose second nibble is flagged come out with one last beat, marked bad, or all of them if that is in the check sequence; with none flagged, all, marked bad if and only if the check fails |
| `MiiRx.MiiFlaggedDelimiter` | src/hw/core_eth/mac/axis_gmii_rx.sv:289-337 | with the delimiter flagged nothing comes out |
| `MiiRx.MiiErrorUnseen` | src/hw/core_eth/mac/axis_gmii_rx.sv:328-340 | an intact frame flagged on first nibbles alone comes out unmarked |
| `MiiRx.MiiReceiveFrame` | src/hw/core_eth/mac/axis_gmii_rx.sv:286-305 | in either phase, after any preamble of nibbles other than 13 that ends in 5, the data bytes come out as one packet, marked bad if and only if the check fails |
| `MiiLink.HearAll` | src/hw/core_eth/mac/axis_gmii_rx.sv:286-353 | samples that carry packets' frames, idle samples between them in any number, give exactly those packets, in either nibble phase, and leave the receiver listening |
| `MiiLink.MiiReset` | src/hw/core_eth/mac/axis_gmii_tx.sv:372-406 | a cycle of reset, which spares the nibble phase, leaves both sides as the round trip asks |
| `MiiLink.MiiRoundTrip` | src/hw/core_eth/mac/axis_gmii_rx.sv:286-353 | transmitter wired to receiver, enable line included, either side in either nibble phase: any list of packets comes out in order, padded and unmarked; nothing else ever does, and from some cycle on everything has |
| `MiiLink.MiiRoundTripEnabled` | src/hw/core_eth/mac/axis_gmii_rx.sv:163-168 | and so with a receiver enabled in other cycles, as long as it takes the transmitter's samples |
| `PacketMux.AxisPktIsolate.Clock` | src/hw/core_eth/loopback/axis_pkt_isolate.sv:38-61 | one clock edge of an isolator |
| `PacketMux.AxisPktMux.Clock` | src/hw/core_eth/loopback/axis_pkt_mux.sv:57-100 | one clock edge of the two cross-coupled isolators and the output register |
| `PacketMux.NeverMixPaths` | src/hw/core_eth/loopback/axis_pkt_mux.sv:102 | the invariant of the latch is inductive and implies that both paths are never open |
| `PacketMux.StaysSafe` | src/hw/core_eth/loopback/axis_pkt_mux.sv:57-102 | and holds after every run |
| `PacketMux.PacketsWhole` | src/hw/core_eth/loopback/axis_pkt_isolate.sv:40-47 | cutting a stream of beats into packets loses nothing |
| `PacketMux.NoSplice` | src/hw/core_eth/loopback/axis_pkt_mux.sv:16-23 | whatever the select line does, the valid output beats are packets one after the other and the beginning of the one now passing; those from an input are among its packets, in order |
| `PacketMux.PassedWhole` | src/hw/core_eth/loopback/axis_pkt_mux.sv:16-23 | each packet passed is whole: its last beat and no other is marked last |
| `PacketMux.SelectedFromReset` | src/hw/core_eth/loopback/axis_pkt_mux.sv:57-100 | from reset, with the select line low the output register shows input 0 one cycle later, with it high input 1, whatever the other input does |
| `PacketMux.SwitchOver` | src/hw/core_eth/loopback/axis_pkt_mux.sv:66-98 | with the select line constant, low for input 0 and high for input 1, and no input in a packet for more than L cycles on end, the selected input is open within 2L+1 cycles, stays open, and the output is from then on that input's beats |
| `TxFraming.EthernetTxFraming.Clock` | src/hw/core_eth/tx_framing/ethernet_tx_framing.sv:97-128 | one clock edge of the framing, its buffer and the length register |
| `TxFraming.StreamsPacket` | src/hw/core_eth/tx_framing/ethernet_tx_framing.sv:97-128 | under any ready pattern the beats accepted are the packet's, in order, each once, as many as ready cycles; busy until the last, which alone is marked last and pulses done; then the address is 0 |
| `TxFraming.KickStarts` | src/hw/core_eth/csr/ethernet_csr.sv:181-186 | writing a length offers the buffer's first byte of a packet of that length |
| `TxFraming.StartsIff` | src/hw/core_eth/csr/ethernet_csr.sv:181-186 | and nothing else starts one: of the value 11 bits count, and 0 is no length |
| `SendPath.PackWord` | src/sw/ethernet.c:342-347 | byte `j` of the word built by shifts and ORs is `data[8 * i + j]` |
| `SendPath.TxPacketTrigger` | src/sw/ethernet.c:161-171 | refuses lengths outside 60 to 1518 without touching the device |
| `SendPath.SendPacket` | src/sw/ethernet.c:326-358 | returns 0 if and only if not busy and the length is from 60 to 1518, 1 if and only if busy, 2 if and only if not busy and too long, 3 if and only if not busy and too short; in the last three it changes and reads nothing; otherwise the packet is in the buffer and under way, and the frame before it is out but for its gap; keeps the device's invariant; bytes beyond the packet are read if and only if it is accepted and its length is not a multiple of 8 |
| `SendPath.FallsSilent` | src/sw/ethernet.c:340-352 | whatever the driver writes, the frame under way goes on to its end in at most five cycles from its last byte, and once the wire is silent it stays so |
| `SendPath.RoundedUp` | src/sw/ethernet.c:337-343 | the bytes read are the least multiple of eight, at most seven more |
| `SendPath.ResetOk` | src/hw/core_eth/mac/axis_gmii_tx.sv:372-384 | a cycle of reset establishes the joint invariant of framing and transmitter |
| `SendPath.StaysOk` | src/hw/core_eth/mac/axis_gmii_tx.sv:229-248 | every cycle keeps it |
| `SendPath.RunOk` | src/hw/core_eth/mac/axis_gmii_tx.sv:243-248 | so the transmitter never waits for the end of a packet and never raises an error |
| `SendPath.LoadedIsSent` | src/sw/ethernet.c:326-358 | end to end: after the frame still going out, if any, the wire shows preamble, delimiter, exactly the bytes handed over, their check sequence and the gap, and the device can take the next packet |
| `MacFilter.MacAddressFilter.Clock` | src/hw/core_eth/rx_framing/mac_address_filter.sv:50-90 | one clock edge of the filter |
| `MacFilter.ClassesInNumbers` | src/hw/axi_eth/verif/models.py:294-301 | the classes in numbers: ours if and only if the first six bytes, most significant first, are the address; else multicast if and only if the first three are 01, 00, 5E; broadcast if and only if all six are FF |
| `MacFilter.FilterAgrees` | src/hw/axi_eth/verif/models.py:294-301 | for packets of seven beats or more, with any gaps, the filter's reason at the last beat is that classification, whose tests come in another order; in no cycle of an acceptable packet is it rejected |
| `MacFilter.AbandonedExactly` | src/hw/core_eth/rx_framing/ethernet_rx_framing.sv:168 | a packet is abandoned if and only if a beat is marked bad, or the filter is on and the classification rejects it |
| `MacFilter.ShortPacketReason` | src/hw/core_eth/rx_framing/mac_address_filter.sv:51-90 | the reason given for a packet of at most six beats is that of its bytes but the last, as far as they go: our address, else the multicast prefix, else broadcast, else none |
| `MacFilter.ShortPacketAgrees` | src/hw/axi_eth/verif/models.py:294-301 | it is the whole-packet classification if and only if the last byte bears out those before; a packet the classification accepts is never rejected |
| `MacFilter.OneBytePacket` | src/hw/axi_eth/verif/models.py:294-301 | a packet of one byte is taken for ours, which the classification rejects |
| `DescriptorFifo.NextContents` | src/hw/util/random_access_fifo/random_access_fifo.sv:149-169 | pushes and pops, in the same cycle or not, act on the list of entries |
| `DescriptorFifo.ReadContents` | src/hw/util/random_access_fifo/random_access_fifo.sv:174-184 | the read port gives the entry of an index, or flags it |
| `DescriptorFifo.RandomAccessFifo.Clock` | src/hw/util/random_access_fifo/random_access_fifo.sv:149-169 | one clock edge of the table; in the first cycle after reset it ignores requests |
| `RingBuffer.WrPtrLogic.Clock` | src/hw/util/axis_pkt_ring_buffer/axis_pkt_ring_buffer_wr_ptr_logic.sv:72-87 | one clock edge of the write and head pointers |
| `RingBuffer.AxisPktRingBuffer.Clock` | src/hw/util/axis_pkt_ring_buffer/axis_pkt_ring_buffer.sv:201-254 | one clock edge of the ring buffer |
| `RingBuffer.FullFlags` | src/hw/util/axis_pkt_ring_buffer/axis_pkt_ring_buffer.sv:223 | equality of two pointers means a ring without a free byte, and nothing else |
| `RingBuffer.RingRefines` | src/hw/util/axis_pkt_ring_buffer/axis_pkt_ring_buffer.sv:201-254 | pointers, table and bytes refine a queue of packets, one cycle at a time, with commit, abandon and pop in any combination, for packets up to the size of the ring; the lost output is the queue's |
| `RingBuffer.RingOverrun` | src/hw/util/axis_pkt_ring_buffer/axis_pkt_ring_buffer.sv:223-235 | a packet longer than the ring, no other being stored, overwrites its first byte, and the ring goes on as if it began there; it holds no queue that continues it |
| `RingBuffer.FirstCycle` | src/hw/util/axis_pkt_ring_buffer/axis_pkt_ring_buffer.sv:201-254 | from reset: a packet of one beat in the first cycle leaves the buffer empty, any other beat is taken as from an empty queue |
| `RxPackets.AnyRunRefines` | src/hw/util/axis_pkt_ring_buffer/axis_pkt_ring_buffer_wr_ptr_logic.sv:72-87 | and in every run whatever, of a queue in which a packet that has gone all round an otherwise empty ring starts again |
| `RxPackets.RunRefines` | src/hw/util/axis_pkt_ring_buffer/axis_pkt_ring_buffer_wr_ptr_logic.sv:72-87 | which for packets up to the ring's size is the queue itself |
| `RxPackets.ReadsPacket` | src/hw/util/axis_pkt_ring_buffer/axis_pkt_ring_buffer.sv:303-325 | the bytes from an entry's pointer, around the end if need be, are the queue's packet; the entry's length is the packet's modulo 2048, right if and only if the packet is shorter than that |
| `RxPackets.PacketsDisjoint` | src/hw/util/axis_pkt_ring_buffer/axis_pkt_ring_buffer.sv:303-305 | different packets occupy different bytes |
| `RxPackets.PacketOutcome` | src/hw/util/axis_pkt_ring_buffer/axis_pkt_ring_buffer.sv:201-235 | what becomes of one packet whatever is popped meanwhile: exactly when it is stored, and which bytes |
| `RxPackets.MetFullIffFirst` | src/hw/util/axis_pkt_ring_buffer/axis_pkt_ring_buffer.sv:223-227 | a beat of a packet meets a full table if and only if the first does, whatever is popped meanwhile |
| `RxPackets.CutShortIff` | README.md:136 | a stored packet is the packet that arrived if and only if the table was not full at its first beat |
| `RxPackets.IncompletePacketStored` | README.md:136 | a run of the hardware that stores a packet without its first byte |
| `RxPackets.IncompleteFromEmpty` | README.md:136 | such a run from an empty buffer, after eight packets have filled the table |
| `RxPackets.LostOnce` | src/hw/util/axis_pkt_ring_buffer/axis_pkt_ring_buffer.sv:208 | a packet nothing abandons pulses the lost output once if it is not stored, never if it is |
| `RxLost.LostExactly` | src/hw/util/axis_pkt_ring_buffer/axis_pkt_ring_buffer.sv:208 | whatever a packet is abandoned for, with no pop meanwhile: when the lost output pulses, and that it pulses once, from the free bytes, the table and the first beat that abandons it |
| `RxLost.LostIff` | src/hw/axi_eth/verif/coco_top.py:733-755 | the same for a packet behind the filter, from its bytes: the exact condition for packets accepted, good or bad, and for packets rejected |
| `RxLost.FullTable` | src/hw/axi_eth/verif/coco_top.py:733-755 | with the table full and a byte free: a rejected packet pulses if and only if it has seven bytes and is foreign only from its sixth; an accepted one always does, bad or not |
| `RxLost.LostMatchesModel` | src/hw/axi_eth/verif/models.py:303-307 | for good packets the filter accepts, the lost output pulses exactly when the model reports a loss |
| `RxLost.LostWithPops` | src/hw/util/axis_pkt_ring_buffer/axis_pkt_ring_buffer.sv:208-215 | with any pops and any abandonment: it pulses once if a beat that no abandoned one precedes finds the ring full, or no beat before the last is abandoned and the last finds the table full, and otherwise never |
| `RxLost.LostIffWithPops` | src/hw/util/axis_pkt_ring_buffer/axis_pkt_ring_buffer.sv:208-215 | the same behind the filter, with the beat that abandons the packet told from its bytes |
| `RxPackets.AxiEthernetModel.WaitForRxDone` | src/hw/axi_eth/verif/models.py:286-309 | the model's handling of an arrived packet: one the filter rejects changes nothing; any other is stored if and only if fewer than 8 are and it fits in 8192 bytes beside them, and is else reported lost |
| `RxPackets.AxiEthernetModel.RxPopPacket` | src/hw/axi_eth/verif/models.py:201-203 | the model's pop, of nothing if nothing is stored |
| `RxStream.ReceiveMatchesModel` | src/hw/axi_eth/verif/models.py:286-309 | filter and ring together leave the packets the model has, less those popped meanwhile; a bad packet of any length leaves no trace |
| `RxStream.AgreesIff` | src/hw/axi_eth/verif/models.py:286-309 | for any pops: hardware and model agree on a packet if and only if nothing is popped while it arrives, or it is dropped in any case, or it has room when it begins, or it is reported lost |
| `RxStream.RingMatchesModel` | src/hw/axi_eth/verif/models.py:286-309 | the same of the hardware's pointers, table and bytes |
| `RxPath.Transparent` | src/hw/core_eth/loopback/ethernet_loopback.sv:43-50 | with the select line constant the switch shows the selected input's stream, from reset at once, whatever the other input does |
| `RxPath.WireToQueue` | src/hw/core_eth/rx_framing/ethernet_rx_framing.sv:92-168 | any list of frames on the wire, any gaps, any bytes flagged by the PHY, pops at any time but too late for a packet, through receiver, filter and ring: the queue is the model's, frames flagged or with a wrong check sequence leaving no trace; and all are ready for more |
| `RxPath.SwitchToQueue` | src/hw/core_eth/top/ethernet_top.sv:196-204 | the same with the loopback switch in the path, the select line low and the receiver on input 0 |
| `HostLink.SentFrames` | src/hw/core_eth/mac/axis_gmii_tx.sv:137-411 | whatever packets a transmitter is given, and whenever, its wire is one of their frames, padded and intact |
| `HostLink.SentToQueue` | src/hw/core_eth/rx_framing/ethernet_rx_framing.sv:92-168 | transmitter to receive queue: any list of packets sent at any times is in the queue at the other end as the model has it, from some cycle on and for good, with the host there popping or not |
| `HostLink.HostToHost` | src/sw/ethernet.c:326-358 | what one driver's send call loaded, in the state in which it leaves the device, is in the other device's queue as the model has it, the whole wire heard from the call on, pops meanwhile included; and both sides are as they need to be for the next |
| `HostLink.LoadedArrives` | src/hw/axi_eth/verif/models.py:286-309 | with no pop that is the model's decision on the very bytes handed over |
| `Loopback.SentToSelf` | src/hw/core_eth/loopback/ethernet_loopback.sv:34-50 | with the select line high, a packet the framing streams is in the device's own queue, the very bytes without padding, as the model has it, however the transmitter paces it and whenever the host pops |
| `RxCache.LiveByte` | src/sw/ethernet.c:121-124 | until a pop the bytes of stored packets stay, whatever arrives |
| `RxCache.CachedByte` | src/sw/ethernet.c:121-124 | so a byte read through a cached word is right if it belonged to a packet stored when the word was read |
| `RxCache.NextPacketIff` | src/sw/ethernet.c:121-124 | the word cached for the last byte of the newest packet is right for every packet that may be stored next without a pop if and only if `(head + len) % 8 == 0` |
| `RxDriver.RxDriver.ReadByte` | src/sw/ethernet.c:115-131 | a byte of any packet stored when its word was cached is right, whatever arrived since; what is returned in every other case |
| `RxDriver.RxDriver.ReadPacketDataRaw` | src/sw/ethernet.c:149-154 | the bytes copied are right for every packet stored at the call, unless the pointer is in the word then cached: then for the packets stored when that was read, and any other byte of that word is as it was |
| `RxDriver.ReadStoredPacket` | src/sw/ethernet.c:134-154 | descriptor and bytes of a stored packet of any age, right unless its first byte is in a word cached before it was stored |
| `RxDriver.StaleRead` | src/sw/ethernet.c:115-154 | from an empty device, by the driver's calls: a packet of one byte is stored in the cached word and read wrong |
| `RxDriver.RxDriver.PopPacket` | src/sw/ethernet.c:174-178 | invalidates the cache and keeps every later packet |
| `RxDriver.RxDriver.MetadataGet` | src/sw/ethernet.c:134-145 | the table entry of an index, zeros for an index of 8 or more |
| `RxDriver.RxDriver.ReadAndPopOldestPacket` | src/sw/ethernet.c:289-320 | returns the oldest packet's descriptor and its bytes, whatever arrives between the reads, and keeps every later packet; of an empty buffer a length of 0 and changes nothing; beyond the end of the ring, what the bus has there; in a word cached before the packet was stored, what that held |
| `RxDriver.StaleOldest` | src/sw/ethernet.c:115-131 | such a call from an empty device: a byte is read, a packet arrives, and what is copied out is not the packet |
| `ModelReader.ReadPacket` | src/hw/axi_eth/verif/models.py:433-454 | the word loop returns the ring's bytes around its end if and only if the packet reaches the end of its first word |
| `ModelReader.StoredBytes` | src/hw/axi_eth/verif/models.py:433-454 | and for a packet shorter than 2048 bytes, and no other, those are the packet of the queue |

## Left out

- RxStream.ReceiveMatchesModel: for packets of 7 bytes up to the ring's size, or bad; shorter ones are covered by `MacFilter.ShortPacketAgrees`, longer ones by `RxPackets.AnyRunRefines`. While a packet arrives that neither is dropped in any case nor finds room when it begins, it asks that nothing be popped: a pop may come too late for part of it. `RxStream.AgreesIff` says when hardware and model then differ, and `RxPackets.PacketOutcome` what is stored.
- RxPath.WireToQueue: the same limit on pops; frames have at least one data byte, those without are `RxRunts.RuntFrame`.
- RxLost.LostIff: no pop while the packet arrives; `RxLost.LostIffWithPops` has any pops.
- SendPath.SendPacket: each bus access takes one clock cycle; the cycles between accesses change nothing while the device is idle.
- PHY interface, DDR primitives, clock-domain crossing, speed detection and clocking: vendor or unseen primitives.
- AXI adapter, bus, address decoding, register file, interrupts and status bits other than busy, not-empty and packet-lost: fixed plumbing. A write of TX_CTRL is modelled as the length register and the kick it causes.
- MDIO, mode and address setters, `ethernet_init`, `ethernet_disable`: single register accesses.
- Reset, except for the MAC and the initial states: registers that reset spares keep arbitrary values. `prim_fifo_sync_cnt` is not part of this model; the table's counters are, and its first cycle after reset. The table's clear port is tied to 0 where it is instantiated.
- `ENABLE_PADDING` and `MIN_FRAME_LENGTH` have their default values; packets of one byte are excluded (`src/ethernet.rdl:189`).
- TxErrors.AbandonedIsBad: of fewer than five bytes taken, what comes out is `RxRunts.RuntFrame`; the 4-bit interface is not covered for abandoned packets.
- A change of the MAC address, or of the promiscuous mode, in the middle of a packet: undefined by the documentation.
- Host writes to the transmit buffer and kicks while a packet is being sent: forbidden by the documentation.
- Almost-full flags: comparisons with a constant.
- Loopback.SentToSelf: starts with the switch on the loopback side and settled; how it gets there is `PacketMux.SwitchOver`.
