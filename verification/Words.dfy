/** 32-bit words as vectors, so that constants can be written in hexadecimal. */
module Words {
  import opened Bits

  function Mask(i: nat): bv32 {
    if i == 0 then 1 else Mask(i - 1) << 1
  }

  predicate Selected(x: bv32, mask: bv32) { x & mask != 0 }

  predicate Bit(x: bv32, i: nat) { Selected(x, Mask(i)) }

  function Word(x: bv32): (v: Vec)
    ensures |v| == 32 && forall i | 0 <= i < 32 :: v[i] == Bit(x, i)
  {
    seq(32, i requires 0 <= i < 32 => Bit(x, i))
  }

  lemma {:induction false} MaskValues()
    ensures Mask(0) == 0x1 && Mask(1) == 0x2 && Mask(2) == 0x4 && Mask(3) == 0x8
    ensures Mask(4) == 0x10 && Mask(5) == 0x20 && Mask(6) == 0x40 && Mask(7) == 0x80
    ensures Mask(8) == 0x100 && Mask(9) == 0x200 && Mask(10) == 0x400 && Mask(11) == 0x800
    ensures Mask(12) == 0x1000 && Mask(13) == 0x2000 && Mask(14) == 0x4000 && Mask(15) == 0x8000
    ensures Mask(16) == 0x10000 && Mask(17) == 0x20000 && Mask(18) == 0x40000 && Mask(19) == 0x80000
    ensures Mask(20) == 0x100000 && Mask(21) == 0x200000 && Mask(22) == 0x400000 && Mask(23) == 0x800000
    ensures Mask(24) == 0x1000000 && Mask(25) == 0x2000000 && Mask(26) == 0x4000000 && Mask(27) == 0x8000000
    ensures Mask(28) == 0x10000000 && Mask(29) == 0x20000000 && Mask(30) == 0x40000000 && Mask(31) == 0x80000000
  {
    assert Mask(0) == 0x1 && Mask(1) == 0x2 && Mask(2) == 0x4 && Mask(3) == 0x8;
    assert Mask(4) == 0x10 && Mask(5) == 0x20 && Mask(6) == 0x40 && Mask(7) == 0x80;
    assert Mask(8) == 0x100 && Mask(9) == 0x200 && Mask(10) == 0x400 && Mask(11) == 0x800;
    assert Mask(12) == 0x1000 && Mask(13) == 0x2000 && Mask(14) == 0x4000 && Mask(15) == 0x8000;
    assert Mask(16) == 0x10000 && Mask(17) == 0x20000 && Mask(18) == 0x40000 && Mask(19) == 0x80000;
    assert Mask(20) == 0x100000 && Mask(21) == 0x200000 && Mask(22) == 0x400000 && Mask(23) == 0x800000;
    assert Mask(24) == 0x1000000 && Mask(25) == 0x2000000 && Mask(26) == 0x4000000 && Mask(27) == 0x8000000;
    assert Mask(28) == 0x10000000 && Mask(29) == 0x20000000 && Mask(30) == 0x40000000 && Mask(31) == 0x80000000;
  }

  lemma {:induction false} MaskIsOneBit(i: nat)
    ensures Mask(i) & (Mask(i) - 1) == 0
  {
    if i > 0 {
      MaskIsOneBit(i - 1);
      OneBitShifted(Mask(i - 1));
    }
  }

  lemma {:induction false} OneBitShifted(mask: bv32)
    requires mask & (mask - 1) == 0
    ensures (mask << 1) & ((mask << 1) - 1) == 0
  {
  }

  lemma {:induction false} OneBitOfSum(x: bv32, y: bv32, mask: bv32)
    requires mask & (mask - 1) == 0
    ensures Selected(x ^ y, mask) == (Selected(x, mask) != Selected(y, mask))
  {
  }

  lemma {:induction false} OneBitOfShifted(x: bv32, mask: bv32)
    ensures Selected(x >> 1, mask) == Selected(x, mask << 1)
  {
  }

  lemma {:induction false} WordXor(x: bv32, y: bv32)
    ensures Word(x ^ y) == Xor(Word(x), Word(y))
  {
    hide Mask, Selected;
    forall i | 0 <= i < 32 ensures Bit(x ^ y, i) == (Bit(x, i) != Bit(y, i)) {
      MaskIsOneBit(i);
      OneBitOfSum(x, y, Mask(i));
    }
    hide Bit;
  }

  lemma {:induction false} BitShifted(x: bv32, i: nat)
    ensures Bit(x >> 1, i) == Bit(x, i + 1)
  {
    OneBitOfShifted(x, Mask(i));
    hide Selected;
  }

  lemma {:induction false} TopBit(x: bv32)
    ensures !Bit(x, 32)
  {
    MaskValues();
    assert Mask(32) == Mask(31) << 1 == 0;
  }

  lemma {:induction false} WordShifted(x: bv32)
    ensures Word(x >> 1) == Word(x)[1..] + [false]
  {
    hide Bit;
    forall i | 0 <= i < 32 ensures Word(x >> 1)[i] == (Word(x)[1..] + [false])[i] {
      BitShifted(x, i);
      TopBit(x);
    }
  }

  lemma {:induction false} WordOnes()
    ensures Word(0xffffffff) == Ones(32)
  {
    forall i | 0 <= i < 32 ensures Bit(0xffffffff, i) {
      MaskValues();
    }
    hide Bit;
  }
}
