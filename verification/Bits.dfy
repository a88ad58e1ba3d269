/** Hardware vectors as sequences of bits: element `i` is bit `i` of the vector,
    so a concatenation `{hi, lo}` is the sequence `lo + hi`. */
module Bits {

  type Vec = seq<bool>

  type Byte = b: Vec | |b| == 8 witness [false, false, false, false, false, false, false, false]

  type Nibble = b: Vec | |b| == 4 witness [false, false, false, false]

  type Word32 = w: Vec | |w| == 32 witness Zeros(32)

  type Word64 = w: Vec | |w| == 64 witness Zeros(64)

  function Zeros(n: nat): (v: Vec)
    ensures |v| == n && forall i | 0 <= i < n :: !v[i]
  {
    seq(n, _ => false)
  }

  function Ones(n: nat): (v: Vec)
    ensures |v| == n && forall i | 0 <= i < n :: v[i]
  {
    seq(n, _ => true)
  }

  function Xor(a: Vec, b: Vec): (v: Vec)
    requires |a| == |b|
    ensures |v| == |a| && forall i | 0 <= i < |a| :: v[i] == (a[i] != b[i])
  {
    seq(|a|, i requires 0 <= i < |a| => a[i] != b[i])
  }

  function And(a: Vec, b: Vec): (v: Vec)
    requires |a| == |b|
    ensures |v| == |a| && forall i | 0 <= i < |a| :: v[i] == (a[i] && b[i])
  {
    seq(|a|, i requires 0 <= i < |a| => a[i] && b[i])
  }

  function Not(a: Vec): (v: Vec)
    ensures |v| == |a| && forall i | 0 <= i < |a| :: v[i] == !a[i]
  {
    seq(|a|, i requires 0 <= i < |a| => !a[i])
  }

  function Reverse<T>(a: seq<T>): (v: seq<T>)
    ensures |v| == |a| && forall i | 0 <= i < |a| :: v[i] == a[|a| - 1 - i]
  {
    seq(|a|, i requires 0 <= i < |a| => a[|a| - 1 - i])
  }

  function BitValue(b: bool): nat { if b then 1 else 0 }

  /** The number a vector stands for: the sum of its bits times their powers of two. */
  function ValueOf(v: Vec): nat {
    if v == [] then 0 else BitValue(v[0]) + 2 * ValueOf(v[1..])
  }

  lemma {:induction false} NibbleValue(b: Nibble)
    ensures ValueOf(b) == BitValue(b[0]) + 2 * BitValue(b[1]) + 4 * BitValue(b[2]) + 8 * BitValue(b[3]) < 16
  {
    assert b[1..][1..] == b[2..] && b[2..][1..] == b[3..] && b[3..][1..] == [];
    assert ValueOf(b) == BitValue(b[0]) + 2 * ValueOf(b[1..]);
    assert ValueOf(b[1..]) == BitValue(b[1]) + 2 * ValueOf(b[2..]);
    assert ValueOf(b[2..]) == BitValue(b[2]) + 2 * ValueOf(b[3..]);
    assert ValueOf(b[3..]) == BitValue(b[3]) + 2 * ValueOf([]);
  }

  lemma {:induction false} ByteNibbles(b: Byte)
    ensures ValueOf(b) == ValueOf(b[..4]) + 16 * ValueOf(b[4..]) < 256
  {
    NibbleValue(b[..4]);
    NibbleValue(b[4..]);
    assert b[1..][1..] == b[2..] && b[2..][1..] == b[3..] && b[3..][1..] == b[4..];
    assert ValueOf(b) == BitValue(b[0]) + 2 * ValueOf(b[1..]);
    assert ValueOf(b[1..]) == BitValue(b[1]) + 2 * ValueOf(b[2..]);
    assert ValueOf(b[2..]) == BitValue(b[2]) + 2 * ValueOf(b[3..]);
    assert ValueOf(b[3..]) == BitValue(b[3]) + 2 * ValueOf(b[4..]);
  }

  lemma {:induction false} ByteSum(b: Byte)
    ensures ValueOf(b) == BitValue(b[0]) + 2 * BitValue(b[1]) + 4 * BitValue(b[2]) + 8 * BitValue(b[3])
                        + 16 * BitValue(b[4]) + 32 * BitValue(b[5]) + 64 * BitValue(b[6]) + 128 * BitValue(b[7])
  {
    ByteNibbles(b);
    NibbleValue(b[..4]);
    NibbleValue(b[4..]);
    hide ValueOf;
  }

  /** Vectors of one length differ in value. */
  lemma {:induction false} SameValue(a: Vec, b: Vec)
    requires |a| == |b| && ValueOf(a) == ValueOf(b)
    ensures a == b
  {
    if a != [] {
      assert ValueOf(a) % 2 == BitValue(a[0]) && ValueOf(b) % 2 == BitValue(b[0]);
      SameValue(a[1..], b[1..]);
      assert a == [a[0]] + a[1..] && b == [b[0]] + b[1..];
    }
  }

  /** A vector's low byte and the rest. */
  lemma {:induction false} ValueSplit(v: Vec)
    requires |v| >= 8
    ensures ValueOf(v) == ValueOf(v[..8]) + 256 * ValueOf(v[8..])
  {
    ValueConcat(v[..8], v[8..], 8);
    assert v[..8] + v[8..] == v;
    assert Power2(8) == 2 * Power2(7) && Power2(7) == 2 * Power2(6) && Power2(6) == 2 * Power2(5);
    assert Power2(5) == 2 * Power2(4) && Power2(4) == 2 * Power2(3) && Power2(3) == 2 * Power2(2);
    assert Power2(2) == 2 * Power2(1) && Power2(1) == 2 * Power2(0);
  }

  function Power2(n: nat): nat { if n == 0 then 1 else 2 * Power2(n - 1) }

  lemma {:induction false} ValueConcat(a: Vec, b: Vec, n: nat)
    requires |a| == n
    ensures ValueOf(a + b) == ValueOf(a) + Power2(n) * ValueOf(b)
  {
    if n == 0 {
      assert a + b == b;
    } else {
      assert (a + b)[1..] == a[1..] + b && (a + b)[0] == a[0];
      ValueConcat(a[1..], b, n - 1);
    }
  }

  /** The number of bits set. */
  function Count(v: Vec): nat {
    if v == [] then 0 else (if v[0] then 1 else 0) + Count(v[1..])
  }

  lemma {:induction false} CountConcat(a: Vec, b: Vec)
    ensures Count(a + b) == Count(a) + Count(b)
  {
    if a == [] {
      assert a + b == b;
    } else {
      assert (a + b)[1..] == a[1..] + b;
      CountConcat(a[1..], b);
    }
  }

  lemma {:induction false} CountSnoc(v: Vec)
    requires v != []
    ensures Count(v) == Count(v[..|v| - 1]) + if v[|v| - 1] then 1 else 0
  {
    var n := |v| - 1;
    CountConcat(v[..n], [v[n]]);
    assert v[..n] + [v[n]] == v && [v[n]][1..] == [];
  }

  /** The vector with only bit `i` set, `1 << i` in `n` bits. */
  function Unit(n: nat, i: nat): (v: Vec)
    ensures |v| == n && forall k | 0 <= k < n :: v[k] == (k == i)
  {
    seq(n, k => k == i)
  }

  /** The reduction operator `^v`. */
  function Parity(v: Vec): bool {
    if v == [] then false else Parity(v[..|v| - 1]) != v[|v| - 1]
  }

  /** The concatenation `{d, c, b, a}`. */
  function Join4(a: Vec, b: Vec, c: Vec, d: Vec): Vec { a + b + c + d }

  /** The bits of consecutive bytes, least significant bit of each byte first. */
  function Flatten(bytes: seq<Byte>): (v: Vec)
    ensures |v| == 8 * |bytes|
  {
    if bytes == [] then [] else bytes[0] + Flatten(bytes[1..])
  }

  /** Cuts a vector into bytes, least significant byte first. */
  function ToBytes(v: Vec): (bytes: seq<Byte>)
    requires |v| % 8 == 0
    ensures 8 * |bytes| == |v|
    ensures Flatten(bytes) == v
  {
    if v == [] then [] else
      assert v[..8] + v[8..] == v;
      [v[..8]] + ToBytes(v[8..])
  }

  lemma {:induction false} ParityConcat(a: Vec, b: Vec)
    ensures Parity(a + b) == (Parity(a) != Parity(b))
  {
    if b == [] {
      assert a + b == a;
    } else {
      var n := |b| - 1;
      assert (a + b)[..|a| + n] == a + b[..n];
      ParityConcat(a, b[..n]);
    }
  }

  lemma {:induction false} ParityXor(a: Vec, b: Vec)
    requires |a| == |b|
    ensures Parity(Xor(a, b)) == (Parity(a) != Parity(b))
  {
    if a != [] {
      var n := |a| - 1;
      assert Xor(a, b)[..n] == Xor(a[..n], b[..n]);
      ParityXor(a[..n], b[..n]);
    }
  }

  lemma {:induction false} ParityZeros(v: Vec)
    requires forall i | 0 <= i < |v| :: !v[i]
    ensures !Parity(v)
  {
    if v != [] {
      ParityZeros(v[..|v| - 1]);
    }
  }

  /** Selecting bit `i` with a one-hot mask. */
  lemma {:induction false} ParityUnit(v: Vec, i: nat)
    requires i < |v|
    ensures Parity(And(v, Unit(|v|, i))) == v[i]
  {
    var m := And(v, Unit(|v|, i));
    assert m == m[..i] + ([v[i]] + m[i + 1..]);
    ParityConcat(m[..i], [v[i]] + m[i + 1..]);
    ParityConcat([v[i]], m[i + 1..]);
    ParityZeros(m[..i]);
    ParityZeros(m[i + 1..]);
    assert Parity([v[i]]) == v[i] by { assert [v[i]][..0] == []; }
  }

  lemma {:induction false} FlattenConcat(a: seq<Byte>, b: seq<Byte>)
    ensures Flatten(a + b) == Flatten(a) + Flatten(b)
  {
    if a == [] {
      assert a + b == b;
    } else {
      assert (a + b)[1..] == a[1..] + b;
      FlattenConcat(a[1..], b);
    }
  }

  lemma {:induction false} FlattenInjective(a: seq<Byte>, b: seq<Byte>)
    requires Flatten(a) == Flatten(b)
    ensures a == b
  {
    assert |a| == |b|;
    if a != [] {
      assert Flatten(a)[..8] == a[0] && Flatten(b)[..8] == b[0];
      assert Flatten(a)[8..] == Flatten(a[1..]) && Flatten(b)[8..] == Flatten(b[1..]);
      FlattenInjective(a[1..], b[1..]);
    }
  }
}
