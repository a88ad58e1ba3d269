/** The check sequence as IEEE 802.3 section 3.2.9 defines it: a remainder of polynomials over
    GF(2). A polynomial is the vector of its coefficients, highest power first. */
module Remainder {
  import opened Bits
  import opened SerialLfsr
  import opened Words
  import opened Crc32

  function Scale(b: bool, g: Vec): (v: Vec)
    ensures |v| == |g|
  {
    if b then g else Zeros(|g|)
  }

  /** The product of two polynomials. */
  function Times(q: Vec, g: Vec): (p: Vec)
    requires g != []
    ensures |p| == |q| + |g| - 1
  {
    if q == [] then Zeros(|g| - 1)
    else
      var n := |q| - 1;
      Xor(Times(q[..n], g) + [false], Zeros(n) + Scale(q[n], g))
  }

  ghost predicate IsQuotient(q: Vec, p: Vec, g: Vec, r: Vec)
    requires g != []
  {
    && |g| == |r| + 1 && |p| == |q| + |r|
    && p == Xor(Times(q, g), Zeros(|q|) + r)
  }

  /** `p` is a multiple of `g` plus `r`, and `r` is of lower degree than `g`. */
  ghost predicate IsRemainder(p: Vec, g: Vec, r: Vec)
    requires g != []
  {
    exists q :: IsQuotient(q, p, g, r)
  }

  /** x^n, the terms of the polynomial parameter and 1, which is always one of them. */
  function Generator(poly: Vec): (g: Vec)
    requires poly != []
    ensures |g| == |poly| + 1
  {
    [true] + Reverse(poly[0 := true])
  }

  /** x^32 and the terms of the polynomial parameter. */
  const GENERATOR: Vec := [true] + Reverse(POLY)

  /** The message whose remainder is taken: the first 32 bits complemented. */
  function Complemented(m: Vec): (v: Vec)
    requires |m| >= 32
    ensures |v| == |m|
  {
    Not(m[..32]) + m[32..]
  }

  lemma {:induction false} TimesLinear(p: Vec, q: Vec, g: Vec)
    requires g != [] && |p| == |q|
    ensures Times(Xor(p, q), g) == Xor(Times(p, g), Times(q, g))
  {
    if p != [] {
      var n := |p| - 1;
      assert Xor(p, q)[..n] == Xor(p[..n], q[..n]);
      TimesLinear(p[..n], q[..n], g);
      ScaleLinear(p[n], q[n], g);
      var a, b := Times(p[..n], g), Times(q[..n], g);
      hide Times, Scale;
      assert Xor(a, b) + [false] == Xor(a + [false], b + [false]);
      assert Zeros(n) + Xor(Scale(p[n], g), Scale(q[n], g))
          == Xor(Zeros(n) + Scale(p[n], g), Zeros(n) + Scale(q[n], g));
      XorMiddle(a + [false], b + [false], Zeros(n) + Scale(p[n], g), Zeros(n) + Scale(q[n], g));
    } else {
      assert Xor(p, q) == [];
    }
  }

  lemma {:induction false} ScaleLinear(b: bool, c: bool, g: Vec)
    ensures Scale(b != c, g) == Xor(Scale(b, g), Scale(c, g))
  {
  }

  lemma {:induction false} XorMiddle(a: Vec, b: Vec, c: Vec, d: Vec)
    requires |a| == |b| == |c| == |d|
    ensures Xor(Xor(a, b), Xor(c, d)) == Xor(Xor(a, c), Xor(b, d))
  {
  }

  /** A product with no high coefficients has a zero factor. */
  lemma {:induction false} TimesLeading(q: Vec, g: Vec)
    requires g != [] && g[0] && forall i | 0 <= i < |q| :: !Times(q, g)[i]
    ensures q == Zeros(|q|) && Times(q, g) == Zeros(|q| + |g| - 1)
  {
    if q != [] {
      var n := |q| - 1;
      var a := Times(q[..n], g);
      forall i | 0 <= i < n ensures !a[i] {
        assert Times(q, g)[i] == (a + [false])[i];
      }
      TimesLeading(q[..n], g);
      assert Times(q, g)[n] == ((a + [false])[n] != Scale(q[n], g)[0]);
      assert q == q[..n] + [q[n]];
    }
  }

  /** There is only one remainder. */
  lemma {:induction false} RemainderUnique(p: Vec, g: Vec, r: Vec, r': Vec)
    requires g != [] && g[0] && IsRemainder(p, g, r) && IsRemainder(p, g, r')
    ensures r == r'
  {
    hide Times;
    var q :| IsQuotient(q, p, g, r);
    var q' :| IsQuotient(q', p, g, r');
    var z := Zeros(|q|);
    TimesLinear(q, q', g);
    SameSum(Times(q, g), Times(q', g), z, r, r');
    TimesLeading(Xor(q, q'), g);
    forall i | 0 <= i < |r| ensures r[i] == r'[i] {
      assert !(z + Xor(r, r'))[|q| + i];
    }
  }

  lemma {:induction false} SameSum(t: Vec, t': Vec, z: Vec, r: Vec, r': Vec)
    requires |t| == |t'| == |z| + |r| && |r| == |r'| && z == Zeros(|z|)
    requires Xor(t, z + r) == Xor(t', z + r')
    ensures Xor(t, t') == z + Xor(r, r')
  {
    forall i | 0 <= i < |t| ensures (t[i] != t'[i]) == (z + Xor(r, r'))[i] {
      assert Xor(t, z + r)[i] == Xor(t', z + r')[i];
    }
  }

  /** One shift multiplies the register by x, adds the data bit at the top and subtracts the generator
      when the result would not fit. */
  lemma {:induction false} ShiftDivides(l: Lfsr, s: Vec, d: bool, n: nat)
    requires l.Valid() && l.kind.Galois? && !l.feedForward && |s| == l.Width() == n
    ensures [false] + Reverse(Shift(l, s, d))
         == Xor(Xor(Reverse(s) + [false], [d] + Zeros(n)), Scale(s[n - 1] != d, Generator(l.poly)))
  {
    var t, g, b := Shift(l, s, d), Generator(l.poly), s[n - 1] != d;
    assert In(l, s, d) == b;
    ShiftedAt(l, s, d, n, b);
    hide Shift, In, Out, Generator, Reverse, Xor, Scale, Zeros;
    var left, right := [false] + Reverse(t), Xor(Xor(Reverse(s) + [false], [d] + Zeros(n)), Scale(b, g));
    forall j | 0 <= j < n + 1 ensures left[j] == right[j] {
      assert GeneratorAt(l.poly, j) == g[j];
      PlacesAt(t, s, d, b, g, n, j);
    }
  }

  /** The two sides of the step, place by place. */
  lemma {:induction false} PlacesAt(t: Vec, s: Vec, d: bool, b: bool, g: Vec, n: nat, j: nat)
    requires |t| == |s| == n && |g| == n + 1 && j <= n
    ensures ([false] + Reverse(t))[j] == (j > 0 && t[n - j])
    ensures Xor(Xor(Reverse(s) + [false], [d] + Zeros(n)), Scale(b, g))[j]
         == (((j < n && s[n - 1 - j]) != (j == 0 && d)) != (b && g[j]))
  {
    ReversedAt(t, j);
    ReversedAt(s, j);
    TopBit(d, n, j);
    ScaledAt(b, g, j);
    hide Scale, Reverse, Zeros;
    SumAt(Reverse(s) + [false], [d] + Zeros(n), Scale(b, g), j);
  }

  lemma {:induction false} ReversedAt(v: Vec, j: nat)
    requires j <= |v|
    ensures (Reverse(v) + [false])[j] == (j < |v| && v[|v| - 1 - j])
    ensures ([false] + Reverse(v))[j] == (j > 0 && v[|v| - j])
  {
  }

  lemma {:induction false} TopBit(d: bool, n: nat, j: nat)
    requires j <= n
    ensures ([d] + Zeros(n))[j] == (j == 0 && d)
  {
  }

  lemma {:induction false} ScaledAt(b: bool, g: Vec, j: nat)
    requires j < |g|
    ensures Scale(b, g)[j] == (b && g[j])
  {
  }

  lemma {:induction false} SumAt(a: Vec, u: Vec, v: Vec, j: nat)
    requires |a| == |u| == |v| && j < |a|
    ensures Xor(Xor(a, u), v)[j] == ((a[j] != u[j]) != v[j])
  {
  }

  /** The coefficient of the generator at place `j` from the top. */
  function GeneratorAt(poly: Vec, j: nat): (b: bool)
    requires poly != [] && j <= |poly|
    ensures b == Generator(poly)[j]
  {
    j == 0 || j == |poly| || poly[|poly| - j]
  }

  lemma {:induction false} ShiftedAt(l: Lfsr, s: Vec, d: bool, n: nat, b: bool)
    requires l.Valid() && l.kind.Galois? && !l.feedForward && |s| == l.Width() == n && b == In(l, s, d)
    ensures Shift(l, s, d)[0] == b
    ensures forall j | 0 < j < n :: Shift(l, s, d)[j] == (s[j - 1] != (l.poly[j] && b))
  {
  }

  /** After any data a Galois register, of any polynomial, is what is left of the data times x^n, with
      the initial register added to its first n coefficients, after subtracting multiples of the
      generator. */
  lemma {:induction false} RunDivides(l: Lfsr, s: Vec, ds: Vec, w: nat) returns (q: Vec)
    requires l.Valid() && l.kind.Galois? && !l.feedForward && |s| == l.Width() == w
    ensures IsQuotient(q, Xor(ds + Zeros(w), Reverse(s) + Zeros(|ds|)), Generator(l.poly),
                       Reverse(RunState(l, s, ds)))
    decreases |ds|
  {
    if ds == [] {
      q := [];
      EmptyDivides(l, s, w);
    } else {
      var n := |ds| - 1;
      var d := ds[n];
      var q0 := RunDivides(l, s, ds[..n], w);
      var t := RunState(l, s, ds[..n]);
      assert ds == ds[..n] + [d];
      RunSnoc(l, s, ds[..n], d);
      ShiftDivides(l, t, d, w);
      q := q0 + [t[w - 1] != d];
      hide Shift, Generator, RunState, Times, Xor;
      OneMoreBit(ds[..n], d, Reverse(s), q0, t[w - 1] != d, Reverse(t), Reverse(Shift(l, t, d)), Generator(l.poly), w);
    }
  }

  lemma {:induction false} EmptyDivides(l: Lfsr, s: Vec, w: nat)
    requires l.Valid() && |s| == l.Width() == w
    ensures IsQuotient([], Xor([] + Zeros(w), Reverse(s) + Zeros(0)), Generator(l.poly), Reverse(RunState(l, s, [])))
  {
    RunNone(l, s);
    assert Times([], Generator(l.poly)) == Zeros(w);
    hide Times, Generator, RunState;
    assert Xor([] + Zeros(w), Reverse(s) + Zeros(0)) == Reverse(s);
    assert Xor(Zeros(w), Zeros(0) + Reverse(s)) == Reverse(s);
  }

  /** The division step: one more message bit, one more quotient bit. */
  lemma {:induction false} OneMoreBit(ds: Vec, d: bool, init: Vec, q: Vec, b: bool, r: Vec, r': Vec, g: Vec, w: nat)
    requires |init| == |r| == |r'| == w && |g| == w + 1
    requires IsQuotient(q, Xor(ds + Zeros(w), init + Zeros(|ds|)), g, r)
    requires [false] + r' == Xor(Xor(r + [false], [d] + Zeros(w)), Scale(b, g))
    ensures IsQuotient(q + [b], Xor((ds + [d]) + Zeros(w), init + Zeros(|ds| + 1)), g, r')
  {
    hide Times, Scale;
    TimesSnoc(q, b, g);
    MessageGrows(ds, d, init, w);
    DivisionStep(|ds|, Times(q, g), r, [d] + Zeros(w), Scale(b, g), r');
  }

  lemma {:induction false} DivisionStep(n: nat, t: Vec, r: Vec, x: Vec, g: Vec, r': Vec)
    requires |t| == n + |r| && |x| == |g| == |r| + 1 && |r'| == |r|
    requires [false] + r' == Xor(Xor(r + [false], x), g)
    ensures Xor(Xor(t, Zeros(n) + r) + [false], Zeros(n) + x)
         == Xor(Xor(t + [false], Zeros(n) + g), Zeros(n + 1) + r')
  {
    AppendZero(t, Zeros(n), r);
    Rearrange(t + [false], Zeros(n), r + [false], x, g);
    assert Zeros(n + 1) + r' == Zeros(n) + ([false] + r');
  }

  lemma {:induction false} TimesSnoc(q: Vec, b: bool, g: Vec)
    requires g != []
    ensures Times(q + [b], g) == Xor(Times(q, g) + [false], Zeros(|q|) + Scale(b, g))
  {
    assert (q + [b])[..|q|] == q;
  }

  lemma {:induction false} AppendZero(t: Vec, z: Vec, r: Vec)
    requires |t| == |z| + |r|
    ensures Xor(t, z + r) + [false] == Xor(t + [false], z + (r + [false]))
  {
    assert z + (r + [false]) == (z + r) + [false];
  }

  lemma {:induction false} MessageGrows(ds: Vec, d: bool, init: Vec, w: nat)
    requires |init| == w
    ensures Xor((ds + [d]) + Zeros(w), init + Zeros(|ds| + 1))
         == Xor(Xor(ds + Zeros(w), init + Zeros(|ds|)) + [false], Zeros(|ds|) + ([d] + Zeros(w)))
  {
  }

  lemma {:induction false} Rearrange(t: Vec, z: Vec, a: Vec, x: Vec, g: Vec)
    requires |a| == |x| == |g| && |t| == |z| + |a|
    requires z == Zeros(|z|)
    ensures Xor(Xor(t, z + a), z + x) == Xor(Xor(t, z + g), z + Xor(Xor(a, x), g))
  {
  }

  lemma {:induction false} InitialOnes(m: Vec)
    requires |m| >= 32
    ensures Xor(m + Zeros(32), Ones(32) + Zeros(|m|)) == Complemented(m) + Zeros(32)
  {
  }

  lemma {:induction false} GeneratorShape()
    ensures |GENERATOR| == 33 && GENERATOR[0] && GENERATOR == Generator(POLY)
  {
    assert POLY[0];
    hide Word;
    assert POLY[0 := true] == POLY;
  }

  /** The register after a frame of at least four bytes is the remainder, modulo the generator, of
      the frame's bits in transmission order, its first 32 bits complemented, times x^32;
      bit 0 of the register, the first one sent, is the coefficient of x^31. */
  lemma {:induction false} CrcIsRemainder(data: seq<Byte>)
    requires |data| >= 4
    ensures IsRemainder(Complemented(Flatten(data)) + Zeros(32), GENERATOR, CrcBytes(Ones(32), data))
  {
    hide Flatten, RunState, CrcBytes, Complemented, GENERATOR;
    var m := Flatten(data);
    CrcBytesRun(Ones(32), data);
    assert Reverse(Ones(32)) == Ones(32);
    GeneratorShape();
    hide Generator;
    var q := RunDivides(CRC32, Ones(32), m, 32);
    InitialOnes(m);
  }

  /** The bytes the transmitter sends are the complement of that remainder and of no other. */
  lemma {:induction false} FcsIsIeee(data: seq<Byte>, r: Vec)
    requires |data| >= 4
    ensures IsRemainder(Complemented(Flatten(data)) + Zeros(32), GENERATOR, r)
       <==> Flatten(Fcs(data)) == Not(r)
  {
    hide Flatten, CrcBytes, Complemented, GENERATOR, Fcs;
    var c := CrcBytes(Ones(32), data);
    CrcIsRemainder(data);
    GeneratorShape();
    var p := Complemented(Flatten(data)) + Zeros(32);
    if IsRemainder(p, GENERATOR, r) {
      RemainderUnique(p, GENERATOR, r, c);
    }
    if Not(c) == Not(r) {
      NotInjective(c, r);
    }
  }

  lemma {:induction false} NotInjective(a: Vec, b: Vec)
    requires Not(a) == Not(b)
    ensures a == b
  {
    assert |a| == |Not(a)| == |b|;
    forall i | 0 <= i < |a| ensures a[i] == b[i] { assert Not(a)[i] == Not(b)[i]; }
  }
}
