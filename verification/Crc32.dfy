/** The Ethernet CRC as the MAC instantiates the parallel LFSR: 32 stages, polynomial 04C11DB7,
    Galois, bit-reversed ports, one byte per pass. */
module Crc32 {
  import opened Bits
  import opened SerialLfsr
  import opened Words

  const POLY: Vec := Word(0x04c11db7)
  const CRC32: Lfsr := Lfsr(POLY, Galois, false)

  /** `crc_next`: the register after one more byte. */
  function CrcNext(c: Vec, b: Byte): (n: Vec)
    requires |c| == 32
    ensures |n| == 32
  {
    ParallelState(CRC32, true, c, b)
  }

  function CrcBytes(c: Vec, bytes: seq<Byte>): (n: Vec)
    requires |c| == 32
    ensures |n| == 32
    decreases |bytes|
  {
    if bytes == [] then c else CrcBytes(CrcNext(c, bytes[0]), bytes[1..])
  }

  lemma {:induction false} NoBytes(c: Vec)
    requires |c| == 32
    ensures CrcBytes(c, []) == c
  {
  }

  /** The check sequence of a frame: the complemented register, low byte first. */
  function Fcs(bytes: seq<Byte>): (f: seq<Byte>)
    ensures |f| == 4 && Flatten(f) == Not(CrcBytes(Ones(32), bytes))
  {
    ToBytes(Not(CrcBytes(Ones(32), bytes)))
  }

  lemma {:induction false} CrcBytesConcat(c: Vec, a: seq<Byte>, b: seq<Byte>)
    requires |c| == 32
    ensures CrcBytes(c, a + b) == CrcBytes(CrcBytes(c, a), b)
    decreases |a|
  {
    if a == [] {
      assert a + b == b;
    } else {
      assert (a + b)[1..] == a[1..] + b;
      CrcBytesConcat(CrcNext(c, a[0]), a[1..], b);
    }
  }

  /** The register holds the serial machine's state back to front. */
  lemma {:induction false} CrcBytesRun(c: Vec, bytes: seq<Byte>)
    requires |c| == 32
    ensures CrcBytes(c, bytes) == Reverse(RunState(CRC32, Reverse(c), Flatten(bytes)))
    decreases |bytes|
  {
    assert Reverse(Reverse(c)) == c;
    if bytes != [] {
      var n := CrcNext(c, bytes[0]);
      assert Reverse(Reverse(bytes[0])) == bytes[0];
      assert Reverse(n) == RunState(CRC32, Reverse(c), bytes[0]);
      CrcBytesRun(n, bytes[1..]);
      RunSplit(CRC32, Reverse(c), bytes[0], Flatten(bytes[1..]));
    }
  }
}
