/** Symbolic execution of the serial register: a row of masks names, for one output bit, the
    state and data input bits whose sum it is. */
module MaskTable {
  import opened Bits
  import opened SerialLfsr

  datatype Row = Row(st: Vec, da: Vec)

  predicate RowFits(r: Row, w: nat, d: nat) { |r.st| == w && |r.da| == d }

  function RowXor(a: Row, b: Row): Row
    requires |a.st| == |b.st| && |a.da| == |b.da|
  {
    Row(Xor(a.st, b.st), Xor(a.da, b.da))
  }

  function RowReverse(r: Row): Row { Row(Reverse(r.st), Reverse(r.da)) }

  /** `^{(s & st), (d & da)}`: the reduction style of evaluation. */
  function Value(r: Row, s: Vec, d: Vec): bool
    requires RowFits(r, |s|, |d|)
  {
    Parity(And(d, r.da) + And(s, r.st))
  }

  /** The masks of stage `j` after the `n` most significant of `d` data bits. */
  function StateRow(l: Lfsr, d: nat, n: nat, j: nat): (r: Row)
    requires l.Valid() && n <= d && j < l.Width()
    ensures RowFits(r, l.Width(), d)
    decreases n, 2
  {
    if n == 0 then Row(Unit(l.Width(), j), Zeros(d))
    else if j == 0 then InRow(l, d, n)
    else if l.kind.Galois? && l.poly[j] then RowXor(StateRow(l, d, n - 1, j - 1), InRow(l, d, n))
    else StateRow(l, d, n - 1, j - 1)
  }

  /** What shift `n` adds up from the last stage, its data bit and the Fibonacci taps below `j`. */
  function FeedRow(l: Lfsr, d: nat, n: nat, j: nat): (r: Row)
    requires l.Valid() && 0 < n <= d && j <= l.Width()
    ensures RowFits(r, l.Width(), d)
    decreases n, 0, j
  {
    if j <= 1 then
      var last := StateRow(l, d, n - 1, l.Width() - 1);
      Row(last.st, Xor(last.da, Unit(d, d - n)))
    else if l.kind.Fibonacci? && l.poly[j - 1] then
      RowXor(StateRow(l, d, n - 1, j - 2), FeedRow(l, d, n, j - 1))
    else
      FeedRow(l, d, n, j - 1)
  }

  function InRow(l: Lfsr, d: nat, n: nat): (r: Row)
    requires l.Valid() && 0 < n <= d
    ensures RowFits(r, l.Width(), d)
    decreases n, 1
  {
    if l.feedForward then Row(Zeros(l.Width()), Unit(d, d - n)) else FeedRow(l, d, n, l.Width())
  }

  /** The masks of data-out bit `j` after `n` shifts. */
  function OutRow(l: Lfsr, d: nat, n: nat, j: nat): (r: Row)
    requires l.Valid() && n <= d && j < d
    ensures RowFits(r, l.Width(), d)
  {
    if n == 0 then Row(if j < l.Width() then Unit(l.Width(), j) else Zeros(l.Width()), Zeros(d))
    else if j == 0 then FeedRow(l, d, n, l.Width())
    else OutRow(l, d, n - 1, j - 1)
  }

  /** The masks the module ends up with for next-state bit `j`, ... */
  function StateMask(l: Lfsr, d: nat, reverse: bool, j: nat): (r: Row)
    requires l.Valid() && j < l.Width()
    ensures RowFits(r, l.Width(), d)
  {
    if reverse then RowReverse(StateRow(l, d, d, l.Width() - 1 - j)) else StateRow(l, d, d, j)
  }

  /** ... and for data-out bit `j`. */
  function OutMask(l: Lfsr, d: nat, reverse: bool, j: nat): (r: Row)
    requires l.Valid() && j < d
    ensures RowFits(r, l.Width(), d)
  {
    if reverse then RowReverse(OutRow(l, d, d, d - 1 - j)) else OutRow(l, d, d, j)
  }

  // ---- The masks compute the serial register ----

  lemma {:induction false} ValueXor(a: Row, b: Row, s: Vec, d: Vec)
    requires RowFits(a, |s|, |d|) && RowFits(b, |s|, |d|)
    ensures Value(RowXor(a, b), s, d) == (Value(a, s, d) != Value(b, s, d))
  {
    assert And(d, Xor(a.da, b.da)) + And(s, Xor(a.st, b.st))
        == Xor(And(d, a.da) + And(s, a.st), And(d, b.da) + And(s, b.st));
    ParityXor(And(d, a.da) + And(s, a.st), And(d, b.da) + And(s, b.st));
  }

  lemma {:induction false} ValueStateUnit(s: Vec, d: Vec, i: nat)
    requires i < |s|
    ensures Value(Row(Unit(|s|, i), Zeros(|d|)), s, d) == s[i]
  {
    ParityConcat(And(d, Zeros(|d|)), And(s, Unit(|s|, i)));
    ParityZeros(And(d, Zeros(|d|)));
    ParityUnit(s, i);
  }

  lemma {:induction false} ValueDataUnit(s: Vec, d: Vec, i: nat)
    requires i < |d|
    ensures Value(Row(Zeros(|s|), Unit(|d|, i)), s, d) == d[i]
  {
    ParityConcat(And(d, Unit(|d|, i)), And(s, Zeros(|s|)));
    ParityZeros(And(s, Zeros(|s|)));
    ParityUnit(d, i);
  }

  lemma {:induction false} StateRowValue(l: Lfsr, n: nat, j: nat, s: Vec, d: Vec)
    requires l.Valid() && |s| == l.Width() && n <= |d| && j < |s|
    ensures Value(StateRow(l, |d|, n, j), s, d) == RunState(l, s, Reverse(d)[..n])[j]
    decreases n, 2
  {
    hide Value;
    if n == 0 {
      ValueStateUnit(s, d, j);
    } else {
      RunSnocAt(l, s, d, n);
      InRowValue(l, n, s, d);
      if j > 0 {
        StateRowValue(l, n - 1, j - 1, s, d);
        ValueXor(StateRow(l, |d|, n - 1, j - 1), InRow(l, |d|, n), s, d);
      }
    }
  }

  lemma {:induction false} FeedRowValue(l: Lfsr, n: nat, j: nat, s: Vec, d: Vec)
    requires l.Valid() && |s| == l.Width() && 0 < n <= |d| && 1 <= j <= |s|
    ensures var now := RunState(l, s, Reverse(d)[..n - 1]);
            Value(FeedRow(l, |d|, n, j), s, d)
            == ((now[|s| - 1] != d[|d| - n]) != (l.kind.Fibonacci? && Taps(l.poly, now, j)))
    decreases n, 0, j
  {
    hide Value;
    if j == 1 {
      var last := StateRow(l, |d|, n - 1, |s| - 1);
      StateRowValue(l, n - 1, |s| - 1, s, d);
      ValueXor(last, Row(Zeros(|s|), Unit(|d|, |d| - n)), s, d);
      ValueDataUnit(s, d, |d| - n);
      assert Xor(last.st, Zeros(|s|)) == last.st;
    } else {
      FeedRowValue(l, n, j - 1, s, d);
      if l.kind.Fibonacci? && l.poly[j - 1] {
        StateRowValue(l, n - 1, j - 2, s, d);
        ValueXor(StateRow(l, |d|, n - 1, j - 2), FeedRow(l, |d|, n, j - 1), s, d);
      }
    }
  }

  lemma {:induction false} InRowValue(l: Lfsr, n: nat, s: Vec, d: Vec)
    requires l.Valid() && |s| == l.Width() && 0 < n <= |d|
    ensures Value(InRow(l, |d|, n), s, d)
         == In(l, RunState(l, s, Reverse(d)[..n - 1]), d[|d| - n])
    decreases n, 1
  {
    hide Value;
    FeedRowValue(l, n, |s|, s, d);
    ValueDataUnit(s, d, |d| - n);
  }

  lemma {:induction false} RunSnocAt(l: Lfsr, s: Vec, d: Vec, n: nat)
    requires l.Valid() && |s| == l.Width() && 0 < n <= |d|
    ensures var past := Reverse(d)[..n - 1];
            var now := RunState(l, s, past);
            && RunState(l, s, Reverse(d)[..n]) == Shift(l, now, d[|d| - n])
            && RunOut(l, s, Reverse(d)[..n]) == RunOut(l, s, past) + [Out(l, now, d[|d| - n])]
  {
    assert Reverse(d)[..n] == Reverse(d)[..n - 1] + [d[|d| - n]];
    RunSnoc(l, s, Reverse(d)[..n - 1], d[|d| - n]);
  }

  lemma {:induction false} OutRowValue(l: Lfsr, n: nat, j: nat, s: Vec, d: Vec)
    requires l.Valid() && |s| == l.Width() && j < n <= |d|
    ensures Value(OutRow(l, |d|, n, j), s, d) == RunOut(l, s, Reverse(d)[..n])[n - 1 - j]
  {
    hide Value;
    RunSnocAt(l, s, d, n);
    if j == 0 {
      FeedRowValue(l, n, |s|, s, d);
    } else {
      OutRowValue(l, n - 1, j - 1, s, d);
    }
  }

  lemma {:induction false} ParityReverse(v: Vec)
    ensures Parity(Reverse(v)) == Parity(v)
  {
    if v != [] {
      var n := |v| - 1;
      assert Reverse(v) == [v[n]] + Reverse(v[..n]);
      ParityConcat([v[n]], Reverse(v[..n]));
      ParityReverse(v[..n]);
      assert Parity([v[n]]) == v[n] by { assert [v[n]][..0] == []; }
    }
  }

  lemma {:induction false} ValueReverse(r: Row, s: Vec, d: Vec)
    requires RowFits(r, |s|, |d|)
    ensures Value(RowReverse(r), s, d) == Value(r, Reverse(s), Reverse(d))
  {
    var a, b := And(Reverse(d), r.da), And(Reverse(s), r.st);
    assert And(d, Reverse(r.da)) == Reverse(a) && And(s, Reverse(r.st)) == Reverse(b);
    ParityConcat(a, b);
    ParityConcat(Reverse(a), Reverse(b));
    ParityReverse(a);
    ParityReverse(b);
  }

  /** Every compiled next-state mask gives its bit of the serial machine's state, for every
      width, data width, polynomial, configuration, feed-forward and reversal setting. */
  lemma {:induction false} StateMaskEqualsSerial(l: Lfsr, reverse: bool, s: Vec, d: Vec, j: nat)
    requires l.Valid() && |s| == l.Width() && j < |s|
    ensures Value(StateMask(l, |d|, reverse, j), s, d) == ParallelState(l, reverse, s, d)[j]
  {
    hide Value;
    if reverse {
      ValueReverse(StateRow(l, |d|, |d|, |s| - 1 - j), s, d);
      StateRowValue(l, |d|, |s| - 1 - j, Reverse(s), Reverse(d));
      assert Reverse(Reverse(d))[..|d|] == Reverse(Reverse(d));
    } else {
      StateRowValue(l, |d|, j, s, d);
      assert Reverse(d)[..|d|] == Reverse(d);
    }
  }

  /** And every data-out mask gives its bit of the bits shifted out. */
  lemma {:induction false} OutMaskEqualsSerial(l: Lfsr, reverse: bool, s: Vec, d: Vec, j: nat)
    requires l.Valid() && |s| == l.Width() && j < |d|
    ensures Value(OutMask(l, |d|, reverse, j), s, d) == ParallelOut(l, reverse, s, d)[j]
  {
    hide Value;
    if reverse {
      ValueReverse(OutRow(l, |d|, |d|, |d| - 1 - j), s, d);
      OutRowValue(l, |d|, |d| - 1 - j, Reverse(s), Reverse(d));
      assert Reverse(Reverse(d))[..|d|] == Reverse(Reverse(d));
    } else {
      OutRowValue(l, |d|, j, s, d);
      assert Reverse(d)[..|d|] == Reverse(d);
    }
  }
}
