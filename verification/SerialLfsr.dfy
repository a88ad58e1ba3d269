/** The one-bit-per-shift register that the parallel LFSR unrolls, as its diagrams draw it.
    Bit 0 of the polynomial is never read: the tap at stage 0 is always present. */
module SerialLfsr {
  import opened Bits

  datatype Kind = Fibonacci | Galois

  datatype Lfsr = Lfsr(poly: Vec, kind: Kind, feedForward: bool) {
    predicate Valid() { 1 <= |poly| }

    function Width(): nat { |poly| }
  }

  /** The sum of the Fibonacci taps below stage `j`. */
  function Taps(poly: Vec, s: Vec, j: nat): bool
    requires |s| == |poly| && j <= |poly|
  {
    if j <= 1 then false else Taps(poly, s, j - 1) != (poly[j - 1] && s[j - 2])
  }

  /** The bit shifted out when `d` is shifted in. */
  function Out(l: Lfsr, s: Vec, d: bool): bool
    requires l.Valid() && |s| == l.Width()
  {
    (s[l.Width() - 1] != d) != (l.kind.Fibonacci? && Taps(l.poly, s, l.Width()))
  }

  /** The bit that enters stage 0. */
  function In(l: Lfsr, s: Vec, d: bool): bool
    requires l.Valid() && |s| == l.Width()
  {
    if l.feedForward then d else Out(l, s, d)
  }

  function Shift(l: Lfsr, s: Vec, d: bool): (t: Vec)
    requires l.Valid() && |s| == l.Width()
    ensures |t| == l.Width()
  {
    var x := In(l, s, d);
    seq(l.Width(), j requires 0 <= j < l.Width() =>
      if j == 0 then x else s[j - 1] != (l.kind.Galois? && l.poly[j] && x))
  }

  /** The state after shifting in the bits of `ds`, first element first. */
  function RunState(l: Lfsr, s: Vec, ds: Vec): (t: Vec)
    requires l.Valid() && |s| == l.Width()
    ensures |t| == l.Width()
    decreases |ds|
  {
    if ds == [] then s else RunState(l, Shift(l, s, ds[0]), ds[1..])
  }

  /** The bits shifted out meanwhile, in order. */
  function RunOut(l: Lfsr, s: Vec, ds: Vec): (os: Vec)
    requires l.Valid() && |s| == l.Width()
    ensures |os| == |ds|
    decreases |ds|
  {
    if ds == [] then [] else [Out(l, s, ds[0])] + RunOut(l, Shift(l, s, ds[0]), ds[1..])
  }

  /** One pass through the parallel module: `|data|` shifts, most significant data bit first;
      `reverse` bit-reverses every port. */
  function ParallelState(l: Lfsr, reverse: bool, s: Vec, data: Vec): (t: Vec)
    requires l.Valid() && |s| == l.Width()
    ensures |t| == l.Width()
  {
    if reverse then Reverse(RunState(l, Reverse(s), Reverse(Reverse(data))))
    else RunState(l, s, Reverse(data))
  }

  function ParallelOut(l: Lfsr, reverse: bool, s: Vec, data: Vec): (os: Vec)
    requires l.Valid() && |s| == l.Width()
    ensures |os| == |data|
  {
    if reverse then Reverse(Reverse(RunOut(l, Reverse(s), Reverse(Reverse(data)))))
    else Reverse(RunOut(l, s, Reverse(data)))
  }

  lemma {:induction false} RunNone(l: Lfsr, s: Vec)
    requires l.Valid() && |s| == l.Width()
    ensures RunState(l, s, []) == s
  {
  }

  lemma {:induction false} RunSplit(l: Lfsr, s: Vec, a: Vec, b: Vec)
    requires l.Valid() && |s| == l.Width()
    ensures RunState(l, s, a + b) == RunState(l, RunState(l, s, a), b)
    ensures RunOut(l, s, a + b) == RunOut(l, s, a) + RunOut(l, RunState(l, s, a), b)
    decreases |a|
  {
    if a == [] {
      assert a + b == b;
    } else {
      hide Shift, Out;
      assert (a + b)[1..] == a[1..] + b;
      RunSplit(l, Shift(l, s, a[0]), a[1..], b);
    }
  }

  lemma {:induction false} RunSnoc(l: Lfsr, s: Vec, a: Vec, d: bool)
    requires l.Valid() && |s| == l.Width()
    ensures RunState(l, s, a + [d]) == Shift(l, RunState(l, s, a), d)
    ensures RunOut(l, s, a + [d]) == RunOut(l, s, a) + [Out(l, RunState(l, s, a), d)]
    decreases |a|
  {
    if a == [] {
      assert [] + [d] == [d] && [d][1..] == [];
      assert RunState(l, Shift(l, s, d), []) == Shift(l, s, d);
      assert RunOut(l, Shift(l, s, d), []) == [];
    } else {
      hide Shift, Out;
      assert (a + [d])[1..] == a[1..] + [d];
      RunSnoc(l, Shift(l, s, a[0]), a[1..], d);
    }
  }

  // ---- Linearity over GF(2) ----

  lemma {:induction false} TapsLinear(poly: Vec, s: Vec, t: Vec, j: nat)
    requires |s| == |t| == |poly| && j <= |poly|
    ensures Taps(poly, Xor(s, t), j) == (Taps(poly, s, j) != Taps(poly, t, j))
  {
    if j > 1 {
      TapsLinear(poly, s, t, j - 1);
    }
  }

  lemma {:induction false} ShiftLinear(l: Lfsr, s: Vec, t: Vec, d: bool, e: bool)
    requires l.Valid() && |s| == |t| == l.Width()
    ensures Shift(l, Xor(s, t), d != e) == Xor(Shift(l, s, d), Shift(l, t, e))
    ensures Out(l, Xor(s, t), d != e) == (Out(l, s, d) != Out(l, t, e))
  {
    TapsLinear(l.poly, s, t, l.Width());
  }

  /** Superposition: the register's response to a sum of inputs is the sum of its responses. */
  lemma {:induction false} RunLinear(l: Lfsr, s: Vec, t: Vec, a: Vec, b: Vec)
    requires l.Valid() && |s| == |t| == l.Width() && |a| == |b|
    ensures RunState(l, Xor(s, t), Xor(a, b)) == Xor(RunState(l, s, a), RunState(l, t, b))
    decreases |a|
  {
    if a != [] {
      ShiftLinear(l, s, t, a[0], b[0]);
      hide Shift;
      assert Xor(a, b)[1..] == Xor(a[1..], b[1..]);
      RunLinear(l, Shift(l, s, a[0]), Shift(l, t, b[0]), a[1..], b[1..]);
    }
  }

  // ---- Invertibility of the Galois register ----

  lemma {:induction false} ShiftInjective(l: Lfsr, s: Vec, t: Vec, d: bool)
    requires l.Valid() && l.kind.Galois? && !l.feedForward && |s| == |t| == l.Width()
    requires Shift(l, s, d) == Shift(l, t, d)
    ensures s == t
  {
    assert Shift(l, s, d)[0] == Shift(l, t, d)[0];
    forall j | 0 <= j < l.Width() - 1 ensures s[j] == t[j] {
      assert Shift(l, s, d)[j + 1] == Shift(l, t, d)[j + 1];
    }
    var top := l.Width() - 1;
    assert s == s[..top] + [s[top]] && t == t[..top] + [t[top]];
  }

  /** Distinct states stay distinct whatever common data is shifted in. */
  lemma {:induction false} RunInjective(l: Lfsr, s: Vec, t: Vec, ds: Vec)
    requires l.Valid() && l.kind.Galois? && !l.feedForward && |s| == |t| == l.Width()
    requires RunState(l, s, ds) == RunState(l, t, ds)
    ensures s == t
    decreases |ds|
  {
    if ds != [] {
      RunInjective(l, Shift(l, s, ds[0]), Shift(l, t, ds[0]), ds[1..]);
      ShiftInjective(l, s, t, ds[0]);
    }
  }

  /** A data bit acts like the same bit added to the last stage. */
  lemma {:induction false} AbsorbOne(l: Lfsr, s: Vec, u: Vec)
    requires l.Valid() && l.kind.Galois? && !l.feedForward && |s| == |u| == l.Width()
    ensures var n := l.Width() - 1;
            Shift(l, Xor(s, u), false) == Xor(Shift(l, s, u[n]), [false] + u[..n])
  {
  }

  lemma {:induction false} PadShifted(n: nat, ds: Vec)
    requires ds != []
    ensures var u := Zeros(n) + Reverse(ds);
            && u[|u| - 1] == ds[0]
            && [false] + u[..|u| - 1] == Zeros(n + 1) + Reverse(ds[1..])
  {
    var r := Reverse(ds);
    assert r == Reverse(ds[1..]) + [ds[0]];
    assert Zeros(n) + r == Zeros(n) + Reverse(ds[1..]) + [ds[0]];
    assert [false] + Zeros(n) == Zeros(n + 1);
  }

  /** Data shifted into a Galois register acts like the same bits added to its top stages. */
  lemma {:induction false} Absorb(l: Lfsr, s: Vec, ds: Vec)
    requires l.Valid() && l.kind.Galois? && !l.feedForward && |s| == l.Width()
    requires |ds| <= l.Width()
    ensures RunState(l, s, ds)
         == RunState(l, Xor(s, Zeros(l.Width() - |ds|) + Reverse(ds)), Zeros(|ds|))
    decreases |ds|
  {
    var n := l.Width() - |ds|;
    var u := Zeros(n) + Reverse(ds);
    if ds == [] {
      assert Xor(s, u) == s;
    } else {
      Absorb(l, Shift(l, s, ds[0]), ds[1..]);
      AbsorbOne(l, s, u);
      PadShifted(n, ds);
      assert Zeros(|ds|)[1..] == Zeros(|ds| - 1);
      hide Shift;
    }
  }

  // ---- Scrambler and self-synchronous descrambler ----

  /** Two registers that take in the same bit lose one more stage of disagreement. */
  lemma {:induction false} SameInputAgrees(l: Lfsr, m: Lfsr, s: Vec, t: Vec, d: bool, e: bool, k: nat)
    requires l.Valid() && m == l.(feedForward := m.feedForward)
    requires |s| == |t| == l.Width() && k <= l.Width() && s[..k] == t[..k]
    requires In(l, s, d) == In(m, t, e)
    ensures var k' := if k < l.Width() then k + 1 else k;
            Shift(l, s, d)[..k'] == Shift(m, t, e)[..k']
  {
    var k' := if k < l.Width() then k + 1 else k;
    forall j | 0 <= j < k' ensures Shift(l, s, d)[j] == Shift(m, t, e)[j] {
      if j > 0 {
        assert s[..k][j - 1] == t[..k][j - 1];
      }
    }
  }

  /** The feed-forward register undoes the feedback one for every polynomial and either
      configuration: once the low `k` stages agree, only the first `width - k` bits can differ. */
  lemma {:induction false} DescramblerInverts(l: Lfsr, s: Vec, t: Vec, ds: Vec, k: nat)
    requires l.Valid() && !l.feedForward && |s| == |t| == l.Width()
    requires k <= l.Width() && s[..k] == t[..k]
    ensures var back := RunOut(l.(feedForward := true), t, RunOut(l, s, ds));
            |back| == |ds| && forall i | l.Width() - k <= i < |ds| :: back[i] == ds[i]
    decreases |ds|
  {
    if ds != [] {
      var m := l.(feedForward := true);
      var o := Out(l, s, ds[0]);
      var k' := if k < l.Width() then k + 1 else k;
      SameInputAgrees(l, m, s, t, ds[0], o, k);
      DescramblerInverts(l, Shift(l, s, ds[0]), Shift(m, t, o), ds[1..], k');
      var os := RunOut(l, s, ds);
      assert os[1..] == RunOut(l, Shift(l, s, ds[0]), ds[1..]);
      var back := RunOut(m, t, os);
      var back' := RunOut(m, Shift(m, t, o), os[1..]);
      assert back == [Out(m, t, o)] + back';
      forall i | l.Width() - k <= i < |ds| ensures back[i] == ds[i] {
        if i > 0 {
          assert back[i] == back'[i - 1] && ds[i] == ds[1..][i - 1];
        } else {
          assert s[..k] == s && t[..k] == t;
        }
      }
    }
  }

  // ---- The recurrence of a Fibonacci register ----

  /** The sum of the bits before position `i` that the polynomial's middle terms below `x^m` select:
      `x^k` selects the bit `k` places back. */
  function Middle(poly: Vec, bits: Vec, i: nat, m: nat): bool
    requires m <= |poly| <= i <= |bits|
  {
    if m <= 1 then false else Middle(poly, bits, i, m - 1) != (poly[m - 1] && bits[i - (m - 1)])
  }

  /** What a Fibonacci register holds: the last bits that entered it, the newest in stage 0. */
  ghost predicate HoldsLast(s: Vec, bits: Vec) {
    |s| <= |bits| && forall j | 0 <= j < |s| :: s[j] == bits[|bits| - 1 - j]
  }

  lemma {:induction false} TapsMiddle(poly: Vec, s: Vec, bits: Vec, m: nat)
    requires |s| == |poly| && m <= |poly| && HoldsLast(s, bits)
    ensures Taps(poly, s, m) == Middle(poly, bits, |bits|, m)
  {
    if m > 1 {
      TapsMiddle(poly, s, bits, m - 1);
    }
  }

  lemma {:induction false} MiddlePrefix(poly: Vec, bits: Vec, more: Vec, i: nat, m: nat)
    requires m <= |poly| <= i <= |bits|
    ensures Middle(poly, bits + more, i, m) == Middle(poly, bits, i, m)
  {
    if m > 1 {
      MiddlePrefix(poly, bits, more, i, m - 1);
    }
  }

  /** With the bits that entered the register before, newest last, the bits that leave it obey the
      polynomial's recurrence: bit `i` is the data bit plus the bit `width` places back plus those that
      the middle terms select. In the feedback register those bits are its own output, in the
      feed-forward register its input. */
  lemma {:induction false} Recurrence(l: Lfsr, s: Vec, past: Vec, ds: Vec, i: nat)
    requires l.Valid() && l.kind.Fibonacci? && |s| == l.Width() && HoldsLast(s, past) && i < |ds|
    ensures var os := RunOut(l, s, ds);
            var bits, n := past + (if l.feedForward then ds else os), |past| + i;
            os[i] == ((ds[i] != bits[n - l.Width()]) != Middle(l.poly, bits, n, l.Width()))
    decreases |ds|
  {
    hide Shift, Out, In, Middle, RunOut, Taps;
    var x, s', os := In(l, s, ds[0]), Shift(l, s, ds[0]), RunOut(l, s, ds);
    var fed := if l.feedForward then ds else os;
    Entered(l, s, past, ds[0], x);
    FirstOut(l, s, ds, x, fed);
    if i == 0 {
      OutNow(l, s, past, ds[0]);
      MiddlePrefix(l.poly, past, fed, |past|, l.Width());
    } else {
      var j := i - 1;
      Recurrence(l, s', past + [x], ds[1..], j);
      assert past + fed == (past + [x]) + fed[1..];
    }
  }

  lemma {:induction false} Entered(l: Lfsr, s: Vec, past: Vec, d: bool, x: bool)
    requires l.Valid() && l.kind.Fibonacci? && |s| == l.Width() && HoldsLast(s, past) && x == In(l, s, d)
    ensures HoldsLast(Shift(l, s, d), past + [x])
  {
    hide In;
  }

  lemma {:induction false} OutNow(l: Lfsr, s: Vec, past: Vec, d: bool)
    requires l.Valid() && l.kind.Fibonacci? && |s| == l.Width() && HoldsLast(s, past)
    ensures Out(l, s, d) == ((d != past[|past| - l.Width()]) != Middle(l.poly, past, |past|, l.Width()))
  {
    TapsMiddle(l.poly, s, past, l.Width());
    hide Taps, Middle;
  }

  lemma {:induction false} FirstOut(l: Lfsr, s: Vec, ds: Vec, x: bool, fed: Vec)
    requires l.Valid() && |s| == l.Width() && ds != [] && x == In(l, s, ds[0])
    requires fed == if l.feedForward then ds else RunOut(l, s, ds)
    ensures var os := RunOut(l, s, ds);
            && os[0] == Out(l, s, ds[0]) && os[1..] == RunOut(l, Shift(l, s, ds[0]), ds[1..])
            && fed[0] == x && |Shift(l, s, ds[0])| == l.Width()
  {
    hide Out, Shift;
  }

  // ---- The parallel ports ----

  lemma {:induction false} ReverseTwice(v: Vec)
    ensures Reverse(Reverse(v)) == v
  {
  }

  /** Bit reversal is of every port. */
  lemma {:induction false} ReversedPorts(l: Lfsr, s: Vec, data: Vec)
    requires l.Valid() && |s| == l.Width()
    ensures ParallelState(l, true, s, data) == Reverse(ParallelState(l, false, Reverse(s), Reverse(data)))
    ensures ParallelOut(l, true, s, data) == Reverse(ParallelOut(l, false, Reverse(s), Reverse(data)))
  {
    hide Reverse, RunState, RunOut;
  }

  /** The parallel descrambler undoes the parallel scrambler from the same state, bits in their places
      and either end first. */
  lemma {:induction false} ParallelInverts(l: Lfsr, reverse: bool, s: Vec, data: Vec)
    requires l.Valid() && !l.feedForward && |s| == l.Width()
    ensures ParallelOut(l.(feedForward := true), reverse, s, ParallelOut(l, reverse, s, data)) == data
  {
    hide Reverse, RunOut;
    var m, first := l.(feedForward := true), if reverse then Reverse(s) else s;
    var ds := if reverse then Reverse(Reverse(data)) else Reverse(data);
    var os := RunOut(l, first, ds);
    SameStart(l, first, ds);
    ReverseTwice(data);
    ReverseTwice(os);
    ReverseTwice(Reverse(os));
  }

  lemma {:induction false} SameStart(l: Lfsr, s: Vec, ds: Vec)
    requires l.Valid() && !l.feedForward && |s| == l.Width()
    ensures RunOut(l.(feedForward := true), s, RunOut(l, s, ds)) == ds
  {
    assert s[..l.Width()] == s;
    hide RunOut;
    DescramblerInverts(l, s, s, ds, l.Width());
  }
}
