/** What the check sequence detects. */
module Crc32Check {
  import opened Bits
  import opened SerialLfsr
  import opened Words
  import opened Crc32

  // ---- The residue constant, through the textbook register on machine words ----

  function ReflectedShift(x: bv32): bv32 {
    (x >> 1) ^ (if x & 1 != 0 then 0xedb88320 else 0)
  }

  lemma {:induction false} PolyBit(i: nat)
    requires i < 32
    ensures Bit(0xedb88320, i) == Bit(0x04c11db7, 31 - i)
  {
    MaskValues();
  }

  /** The reflected polynomial constant. */
  lemma {:induction false} PolyReflected()
    ensures Word(0xedb88320) == Reverse(POLY)
  {
    hide Bit;
    forall i | 0 <= i < 32 ensures Word(0xedb88320)[i] == Reverse(POLY)[i] {
      PolyBit(i);
    }
  }

  /** A zero bit shifted into the bit-reversed register. */
  lemma {:induction false} ShiftZero(c: Vec)
    requires |c| == 32
    ensures Reverse(Shift(CRC32, Reverse(c), false))
         == if c[0] then Xor(c[1..] + [false], Reverse(POLY)) else c[1..] + [false]
  {
    assert POLY[0];
    hide Word;
    var t := Shift(CRC32, Reverse(c), false);
    assert In(CRC32, Reverse(c), false) == c[0];
    forall j | 0 <= j < 32
      ensures Reverse(t)[j] == ((c[1..] + [false])[j] != (Reverse(POLY)[j] && c[0]))
    {
    }
  }

  lemma {:induction false} LowBit(x: bv32)
    ensures Word(x)[0] == (x & 1 != 0)
  {
  }

  /** One serial shift of a zero bit is one shift of the textbook register. */
  lemma {:induction false} ReflectedShiftCorrect(x: bv32)
    ensures Word(ReflectedShift(x)) == Reverse(Shift(CRC32, Reverse(Word(x)), false))
  {
    hide Word, Shift, Xor, Reverse;
    LowBit(x);
    ShiftZero(Word(x));
    WordShifted(x);
    if x & 1 != 0 {
      WordXor(x >> 1, 0xedb88320);
      PolyReflected();
    } else {
      assert ReflectedShift(x) == x >> 1;
    }
  }

  function ReflectedByte(x: bv32): bv32 {
    ReflectedShift(ReflectedShift(ReflectedShift(ReflectedShift(
      ReflectedShift(ReflectedShift(ReflectedShift(ReflectedShift(x))))))))
  }

  lemma {:induction false} ReflectedByteCorrect(x: bv32)
    ensures Word(ReflectedByte(x)) == CrcNext(Word(x), Zeros(8))
  {
    EightShifts(x);
    hide Word, ReflectedByte, RunState;
    assert Reverse(Reverse(Zeros(8))) == Zeros(8);
    assert Reverse(Reverse(Word(ReflectedByte(x)))) == Word(ReflectedByte(x));
  }

  lemma {:induction false} EightShifts(x: bv32)
    ensures RunState(CRC32, Reverse(Word(x)), Zeros(8)) == Reverse(Word(ReflectedByte(x)))
  {
    var x4 := ReflectedShift(ReflectedShift(ReflectedShift(ReflectedShift(x))));
    FourShifts(x, 4);
    FourShifts(x4, 0);
    RunNone(CRC32, Reverse(Word(ReflectedByte(x))));
    assert Zeros(0) == [];
    hide Word, ReflectedShift, RunState, Reverse;
  }

  lemma {:induction false} FourShifts(x: bv32, n: nat)
    ensures RunState(CRC32, Reverse(Word(x)), Zeros(n + 4))
         == RunState(CRC32, Reverse(Word(ReflectedShift(ReflectedShift(ReflectedShift(ReflectedShift(x)))))), Zeros(n))
  {
    hide Word, ReflectedShift, RunState;
    var x1 := ReflectedShift(x);
    var x2 := ReflectedShift(x1);
    ZeroShift(x, n + 3);
    ZeroShift(x1, n + 2);
    ZeroShift(x2, n + 1);
    ZeroShift(ReflectedShift(x2), n);
  }

  lemma {:induction false} ZeroShift(x: bv32, n: nat)
    ensures RunState(CRC32, Reverse(Word(x)), Zeros(n + 1))
         == RunState(CRC32, Reverse(Word(ReflectedShift(x))), Zeros(n))
  {
    ReflectedShiftCorrect(x);
    hide Word, ReflectedShift;
    assert Zeros(n + 1)[1..] == Zeros(n);
    var t := Shift(CRC32, Reverse(Word(x)), false);
    assert Reverse(Reverse(t)) == t;
  }

  const RESIDUE: Vec := Word(0xdebb20e3)

  lemma {:induction false} ResidueValue()
    ensures CrcBytes(Ones(32), [Zeros(8), Zeros(8), Zeros(8), Zeros(8)]) == RESIDUE
  {
    var x: bv32 := 0xffffffff;
    var x1 := ReflectedByte(x);
    var x2 := ReflectedByte(x1);
    var x3 := ReflectedByte(x2);
    assert ReflectedByte(x3) == 0xdebb20e3;
    WordOnes();
    hide Word, ReflectedByte, CrcBytes;
    var z := Zeros(8);
    assert [z, z, z, z][1..] == [z, z, z] && [z, z, z][1..] == [z, z] && [z, z][1..] == [z];
    ZeroByte(x, [z, z, z, z]);
    ZeroByte(x1, [z, z, z]);
    ZeroByte(x2, [z, z]);
    ZeroByte(x3, [z]);
    assert CrcBytes(RESIDUE, []) == RESIDUE by { NoBytes(RESIDUE); }
  }

  lemma {:induction false} ZeroByte(x: bv32, bytes: seq<Byte>)
    requires bytes != [] && bytes[0] == Zeros(8)
    ensures CrcBytes(Word(x), bytes) == CrcBytes(Word(ReflectedByte(x)), bytes[1..])
  {
    ReflectedByteCorrect(x);
    hide Word, ReflectedByte, CrcNext;
  }

  // ---- The check ----

  lemma {:induction false} RunZeros(n: nat)
    ensures RunState(CRC32, Zeros(32), Zeros(n)) == Zeros(32)
  {
    if n > 0 {
      assert Shift(CRC32, Zeros(32), false) == Zeros(32);
      assert Zeros(n)[1..] == Zeros(n - 1);
      RunZeros(n - 1);
    }
  }

  /** Four bytes bring the register to the residue exactly when they are its complement, so the
      receiver's comparison and a comparison of the final register with the constant agree. */
  lemma {:induction false} ComplementIffResidue(c: Vec, f: seq<Byte>)
    requires |c| == 32 && |f| == 4
    ensures CrcBytes(c, f) == RESIDUE <==> Flatten(f) == Not(c)
  {
    hide RESIDUE, RunState, CrcBytes, Flatten;
    var x := Flatten(f);
    var z: seq<Byte> := [Zeros(8), Zeros(8), Zeros(8), Zeros(8)];
    var sum := Xor(Reverse(c), Zeros(0) + Reverse(x));
    CrcBytesRun(c, f);
    Absorb(CRC32, Reverse(c), x);
    ResidueValue();
    CrcBytesRun(Ones(32), z);
    FlattenZeros();
    assert Reverse(Ones(32)) == Ones(32);
    var got, want := RunState(CRC32, sum, Zeros(32)), RunState(CRC32, Ones(32), Zeros(32));
    assert CrcBytes(c, f) == Reverse(got) && RESIDUE == Reverse(want);
    assert sum == Ones(32) <==> x == Not(c) by { SumIsOnes(c, x); }
    if Reverse(got) == Reverse(want) {
      assert Reverse(Reverse(got)) == got && Reverse(Reverse(want)) == want;
      RunInjective(CRC32, sum, Ones(32), Zeros(32));
    }
  }

  lemma {:induction false} FlattenZeros()
    ensures var z: seq<Byte> := [Zeros(8), Zeros(8), Zeros(8), Zeros(8)];
            Flatten(z) == Zeros(32)
  {
    var b: Byte := Zeros(8);
    assert [b, b, b, b][1..] == [b, b, b] && [b, b, b][1..] == [b, b] && [b, b][1..] == [b];
    assert Flatten([b]) == b + Flatten([]) == Zeros(8);
    assert Flatten([b, b]) == b + Flatten([b]) == Zeros(16);
    assert Flatten([b, b, b]) == b + Flatten([b, b]) == Zeros(24);
    assert Flatten([b, b, b, b]) == b + Flatten([b, b, b]) == Zeros(32);
  }

  lemma {:induction false} SumIsOnes(c: Vec, x: Vec)
    requires |c| == |x|
    ensures Xor(Reverse(c), Zeros(0) + Reverse(x)) == Ones(|c|) <==> x == Not(c)
  {
    var sum := Xor(Reverse(c), Zeros(0) + Reverse(x));
    if sum == Ones(|c|) {
      forall i | 0 <= i < |c| ensures x[i] == !c[i] {
        assert sum[|c| - 1 - i];
      }
    }
  }

  /** The receiver accepts these frame bytes, check sequence included. */
  predicate Accepted(frame: seq<Byte>) { CrcBytes(Ones(32), frame) == RESIDUE }

  lemma {:induction false} SentFrameAccepted(data: seq<Byte>)
    ensures Accepted(data + Fcs(data))
  {
    CrcBytesConcat(Ones(32), data, Fcs(data));
    ComplementIffResidue(CrcBytes(Ones(32), data), Fcs(data));
  }

  /** Every non-zero error pattern confined to 32 consecutive bits, in transmission order, is
      caught, wherever it lies in the data and the check sequence. */
  lemma {:induction false} BurstDetected(sent: seq<Byte>, received: seq<Byte>, first: nat)
    requires |sent| == |received| && sent != received && Accepted(sent)
    requires forall i | 0 <= i < 8 * |sent| ::
               Flatten(sent)[i] != Flatten(received)[i] ==> first <= i < first + 32
    ensures !Accepted(received)
  {
    hide RESIDUE, RunState, CrcBytes, Flatten;
    var a, b := Flatten(sent), Flatten(received);
    var e := Xor(a, b);
    if Accepted(received) {
      ErrorInvisible(sent, received);
      var k := if first <= |e| then first else |e|;
      var w := if |e| - k <= 32 then |e| - k else 32;
      var burst := e[k..k + w];
      BurstSplit(e, k, w);
      InvisibleBurst(k, burst, |e| - k - w);
      forall i | 0 <= i < |a| ensures a[i] == b[i] {
        if k <= i < k + w {
          assert !burst[i - k];
        }
      }
      FlattenInjective(sent, received);
    }
  }

  lemma {:induction false} ErrorInvisible(sent: seq<Byte>, received: seq<Byte>)
    requires |sent| == |received| && Accepted(sent) && Accepted(received)
    ensures RunState(CRC32, Zeros(32), Xor(Flatten(sent), Flatten(received))) == Zeros(32)
  {
    var o := Reverse(Ones(32));
    var a, b := Flatten(sent), Flatten(received);
    CrcBytesRun(Ones(32), sent);
    CrcBytesRun(Ones(32), received);
    hide RunState, CrcBytes, Flatten, RESIDUE;
    RunLinear(CRC32, o, o, a, b);
    var ra, rb := RunState(CRC32, o, a), RunState(CRC32, o, b);
    assert ra == rb by { assert Reverse(Reverse(ra)) == ra && Reverse(Reverse(rb)) == rb; }
    assert Xor(o, o) == Zeros(32) && Xor(ra, rb) == Zeros(32);
  }

  lemma {:induction false} BurstSplit(e: Vec, k: nat, w: nat)
    requires k + w <= |e| && forall i | 0 <= i < |e| && !(k <= i < k + w) :: !e[i]
    ensures e == Zeros(k) + (e[k..k + w] + Zeros(|e| - k - w))
  {
    assert e[..k] == Zeros(k) && e[k + w..] == Zeros(|e| - k - w);
    assert e == e[..k] + (e[k..k + w] + e[k + w..]);
  }

  lemma {:induction false} InvisibleBurst(k: nat, burst: Vec, m: nat)
    requires |burst| <= 32
    requires RunState(CRC32, Zeros(32), Zeros(k) + (burst + Zeros(m))) == Zeros(32)
    ensures forall i | 0 <= i < |burst| :: !burst[i]
  {
    hide RunState;
    var w := |burst|;
    RunSplit(CRC32, Zeros(32), Zeros(k), burst + Zeros(m));
    RunZeros(k);
    RunSplit(CRC32, Zeros(32), burst, Zeros(m));
    RunZeros(m);
    RunInjective(CRC32, RunState(CRC32, Zeros(32), burst), Zeros(32), Zeros(m));
    BurstMovesRegister(burst);
  }

  lemma {:induction false} BurstMovesRegister(burst: Vec)
    requires |burst| <= 32 && RunState(CRC32, Zeros(32), burst) == Zeros(32)
    ensures forall i | 0 <= i < |burst| :: !burst[i]
  {
    hide RunState;
    var u := Xor(Zeros(32), Zeros(32 - |burst|) + Reverse(burst));
    Absorb(CRC32, Zeros(32), burst);
    RunZeros(|burst|);
    RunInjective(CRC32, u, Zeros(32), Zeros(|burst|));
    forall i | 0 <= i < |burst| ensures !burst[i] {
      assert !u[31 - i];
    }
  }
}
