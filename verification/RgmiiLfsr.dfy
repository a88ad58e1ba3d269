/** The parallel LFSR module: mask arrays filled at elaboration, then used in either style. */
module RgmiiLfsr {
  import opened Bits
  import opened SerialLfsr
  import opened MaskTable

  class ParallelLfsr {
    const lfsr: Lfsr
    const dataWidth: nat
    const reverse: bool

    const lfsrMaskState: array<Vec>
    const lfsrMaskData: array<Vec>
    const outputMaskState: array<Vec>
    const outputMaskData: array<Vec>

    ghost predicate Shape() {
      && lfsr.Valid()
      && lfsrMaskState.Length == lfsrMaskData.Length == lfsr.Width()
      && outputMaskState.Length == outputMaskData.Length == dataWidth
      && lfsrMaskState != lfsrMaskData && lfsrMaskState != outputMaskState
      && lfsrMaskState != outputMaskData && lfsrMaskData != outputMaskState
      && lfsrMaskData != outputMaskData && outputMaskState != outputMaskData
    }

    ghost predicate StateRows(n: nat)
      requires Shape() && n <= dataWidth
      reads lfsrMaskState, lfsrMaskData
    {
      forall j | 0 <= j < lfsr.Width() ::
        Row(lfsrMaskState[j], lfsrMaskData[j]) == StateRow(lfsr, dataWidth, n, j)
    }

    ghost predicate OutRows(n: nat)
      requires Shape() && n <= dataWidth
      reads outputMaskState, outputMaskData
    {
      forall j | 0 <= j < dataWidth ::
        Row(outputMaskState[j], outputMaskData[j]) == OutRow(lfsr, dataWidth, n, j)
    }

    /** Elaboration has finished: every mask is the one the table defines. */
    ghost predicate Elaborated()
      reads lfsrMaskState, lfsrMaskData, outputMaskState, outputMaskData
    {
      && Shape()
      && (forall j | 0 <= j < lfsr.Width() ::
            Row(lfsrMaskState[j], lfsrMaskData[j]) == StateMask(lfsr, dataWidth, reverse, j))
      && (forall j | 0 <= j < dataWidth ::
            Row(outputMaskState[j], outputMaskData[j]) == OutMask(lfsr, dataWidth, reverse, j))
    }

    constructor (l: Lfsr, d: nat, r: bool)
      requires l.Valid()
      ensures lfsr == l && dataWidth == d && reverse == r
      ensures Elaborated()
    {
      lfsr, dataWidth, reverse := l, d, r;
      lfsrMaskState := new Vec[|l.poly|](i => Unit(|l.poly|, if i < 0 then 0 else i));
      lfsrMaskData := new Vec[|l.poly|](i => Zeros(d));
      outputMaskState := new Vec[d](i =>
        if 0 <= i < |l.poly| then Unit(|l.poly|, i) else Zeros(|l.poly|));
      outputMaskData := new Vec[d](i => Zeros(d));
      new;
      assert StateRows(0) && OutRows(0);
      Shifts();
      FinishStateMasks();
      FinishOutMasks();
    }

    /** The last step of elaboration: reverse the masks if selected. */
    method FinishStateMasks()
      requires Shape() && StateRows(dataWidth)
      modifies lfsrMaskState, lfsrMaskData
      ensures forall j | 0 <= j < lfsr.Width() ::
                Row(lfsrMaskState[j], lfsrMaskData[j]) == StateMask(lfsr, dataWidth, reverse, j)
    {
      hide StateRow, StateMask;
      if reverse {
        ReverseMasks(lfsrMaskState, lfsrMaskData);
      }
      forall j | 0 <= j < lfsr.Width()
        ensures Row(lfsrMaskState[j], lfsrMaskData[j]) == StateMask(lfsr, dataWidth, reverse, j)
      {
        StateMaskDefined(j);
        var i := if reverse then lfsr.Width() - 1 - j else j;
        assert old(Row(lfsrMaskState[i], lfsrMaskData[i])) == StateRow(lfsr, dataWidth, dataWidth, i);
      }
    }

    method FinishOutMasks()
      requires Shape() && OutRows(dataWidth)
      modifies outputMaskState, outputMaskData
      ensures forall j | 0 <= j < dataWidth ::
                Row(outputMaskState[j], outputMaskData[j]) == OutMask(lfsr, dataWidth, reverse, j)
    {
      hide OutRow, OutMask;
      if reverse {
        ReverseMasks(outputMaskState, outputMaskData);
      }
      forall j | 0 <= j < dataWidth
        ensures Row(outputMaskState[j], outputMaskData[j]) == OutMask(lfsr, dataWidth, reverse, j)
      {
        OutMaskDefined(j);
        var i := if reverse then dataWidth - 1 - j else j;
        assert old(Row(outputMaskState[i], outputMaskData[i])) == OutRow(lfsr, dataWidth, dataWidth, i);
      }
    }

    /** The elaboration loop over the data bits. */
    method Shifts()
      requires Shape() && StateRows(0) && OutRows(0)
      modifies lfsrMaskState, lfsrMaskData, outputMaskState, outputMaskData
      ensures StateRows(dataWidth) && OutRows(dataWidth)
    {
      hide StateRow, OutRow;
      var n := 0;
      while n < dataWidth
        invariant 0 <= n <= dataWidth
        invariant StateRows(n) && OutRows(n)
      {
        n := n + 1;
        ShiftBit(n);
      }
    }

    lemma {:induction false} StateMaskDefined(j: nat)
      requires lfsr.Valid() && j < lfsr.Width()
      ensures StateMask(lfsr, dataWidth, reverse, j)
           == if reverse then RowReverse(StateRow(lfsr, dataWidth, dataWidth, lfsr.Width() - 1 - j))
              else StateRow(lfsr, dataWidth, dataWidth, j)
    {
    }

    lemma {:induction false} OutMaskDefined(j: nat)
      requires lfsr.Valid() && j < dataWidth
      ensures OutMask(lfsr, dataWidth, reverse, j)
           == if reverse then RowReverse(OutRow(lfsr, dataWidth, dataWidth, dataWidth - 1 - j))
              else OutRow(lfsr, dataWidth, dataWidth, j)
    {
    }

    /** The reversal at the end of elaboration, for a pair of mask arrays. */
    static method ReverseMasks(st: array<Vec>, da: array<Vec>)
      requires st != da && st.Length == da.Length
      modifies st, da
      ensures forall k | 0 <= k < st.Length ::
                Row(st[k], da[k]) == RowReverse(old(Row(st[..][st.Length - 1 - k], da[..][st.Length - 1 - k])))
    {
      ReverseOrder(st);
      ReverseOrder(da);
      ReverseBits(st);
      ReverseBits(da);
    }

    /** Pass `n` of the elaboration loop, for data bit `dataWidth - n`. */
    method ShiftBit(n: nat)
      requires Shape() && 0 < n <= dataWidth && StateRows(n - 1) && OutRows(n - 1)
      modifies lfsrMaskState, lfsrMaskData, outputMaskState, outputMaskData
      ensures StateRows(n) && OutRows(n)
    {
      hide StateRow, OutRow, FeedRow, InRow;
      var w := lfsr.Width();
      var stateVal, dataVal := Feed(n);
      ShiftUp(lfsrMaskState);
      ShiftUp(lfsrMaskData);
      ShiftUp(outputMaskState);
      ShiftUp(outputMaskData);
      outputMaskState[0] := stateVal;
      outputMaskData[0] := dataVal;
      InRowDefined(n);
      if lfsr.feedForward {
        stateVal := Zeros(w);
        dataVal := Unit(dataWidth, dataWidth - n);
      }
      lfsrMaskState[0] := stateVal;
      lfsrMaskData[0] := dataVal;
      assert forall k | 0 < k < w ::
        Row(lfsrMaskState[k], lfsrMaskData[k]) == StateRow(lfsr, dataWidth, n - 1, k - 1);
      if lfsr.kind == Galois {
        XorIntoTaps(lfsrMaskState, stateVal);
        XorIntoTaps(lfsrMaskData, dataVal);
      }
      forall j | 0 <= j < w
        ensures Row(lfsrMaskState[j], lfsrMaskData[j]) == StateRow(lfsr, dataWidth, n, j)
      {
        StateRowDefined(n, j);
      }
      forall j | 0 <= j < dataWidth
        ensures Row(outputMaskState[j], outputMaskData[j]) == OutRow(lfsr, dataWidth, n, j)
      {
        OutRowDefined(n, j);
      }
    }

    lemma {:induction false} InRowDefined(n: nat)
      requires lfsr.Valid() && 0 < n <= dataWidth
      ensures InRow(lfsr, dataWidth, n)
           == if lfsr.feedForward then Row(Zeros(lfsr.Width()), Unit(dataWidth, dataWidth - n))
              else FeedRow(lfsr, dataWidth, n, lfsr.Width())
    {
    }

    lemma {:induction false} StateRowDefined(n: nat, j: nat)
      requires lfsr.Valid() && 0 < n <= dataWidth && j < lfsr.Width()
      ensures StateRow(lfsr, dataWidth, n, j)
           == if j == 0 then InRow(lfsr, dataWidth, n)
              else if lfsr.kind.Galois? && lfsr.poly[j] then
                RowXor(StateRow(lfsr, dataWidth, n - 1, j - 1), InRow(lfsr, dataWidth, n))
              else StateRow(lfsr, dataWidth, n - 1, j - 1)
    {
    }

    lemma {:induction false} OutRowDefined(n: nat, j: nat)
      requires lfsr.Valid() && 0 < n <= dataWidth && j < dataWidth
      ensures OutRow(lfsr, dataWidth, n, j)
           == if j == 0 then FeedRow(lfsr, dataWidth, n, lfsr.Width())
              else OutRow(lfsr, dataWidth, n - 1, j - 1)
    {
    }

    /** What is shifted in: the last stage, the data bit and the taps. */
    method Feed(n: nat) returns (stateVal: Vec, dataVal: Vec)
      requires Shape() && 0 < n <= dataWidth && StateRows(n - 1)
      ensures Row(stateVal, dataVal) == FeedRow(lfsr, dataWidth, n, lfsr.Width())
    {
      var w := lfsr.Width();
      assert Row(lfsrMaskState[w - 1], lfsrMaskData[w - 1]) == StateRow(lfsr, dataWidth, n - 1, w - 1);
      stateVal := lfsrMaskState[w - 1];
      dataVal := Xor(lfsrMaskData[w - 1], Unit(dataWidth, dataWidth - n));
      if lfsr.kind == Fibonacci {
        stateVal, dataVal := AddTaps(n, stateVal, dataVal);
      } else {
        GaloisFeed(n, w);
      }
    }

    lemma {:induction false} GaloisFeed(n: nat, j: nat)
      requires lfsr.Valid() && lfsr.kind.Galois? && 0 < n <= dataWidth && 1 <= j <= lfsr.Width()
      ensures FeedRow(lfsr, dataWidth, n, j) == FeedRow(lfsr, dataWidth, n, 1)
    {
      if j > 1 {
        GaloisFeed(n, j - 1);
      }
    }

    /** Adds up the Fibonacci taps. */
    method AddTaps(n: nat, sv: Vec, dv: Vec) returns (stateVal: Vec, dataVal: Vec)
      requires Shape() && lfsr.kind.Fibonacci? && 0 < n <= dataWidth && StateRows(n - 1)
      requires Row(sv, dv) == FeedRow(lfsr, dataWidth, n, 1)
      ensures Row(stateVal, dataVal) == FeedRow(lfsr, dataWidth, n, lfsr.Width())
    {
      stateVal, dataVal := sv, dv;
      for j := 1 to lfsr.Width()
        invariant Row(stateVal, dataVal) == FeedRow(lfsr, dataWidth, n, j)
      {
        assert Row(lfsrMaskState[j - 1], lfsrMaskData[j - 1]) == StateRow(lfsr, dataWidth, n - 1, j - 1);
        if lfsr.poly[j] {
          stateVal := Xor(lfsrMaskState[j - 1], stateVal);
          dataVal := Xor(lfsrMaskData[j - 1], dataVal);
        }
      }
    }

    /** Moves every mask up one place. */
    static method ShiftUp(a: array<Vec>)
      modifies a
      ensures forall j | 0 < j < a.Length :: a[j] == old(a[..])[j - 1]
    {
      var j := a.Length - 1;
      while j > 0
        invariant -1 <= j < a.Length && (j == -1 ==> a.Length == 0)
        invariant forall k | 0 <= k <= j :: a[k] == old(a[..])[k]
        invariant forall k | 0 < k < a.Length && k > j :: a[k] == old(a[..])[k - 1]
      {
        a[j] := a[j - 1];
        j := j - 1;
      }
    }

    /** Adds the bit shifted in to the masks at the polynomial's taps. */
    method XorIntoTaps(a: array<Vec>, v: Vec)
      requires lfsr.Valid() && a.Length == lfsr.Width()
      requires forall k | 0 < k < a.Length :: |a[k]| == |v|
      modifies a
      ensures a[0] == old(a[0])
      ensures forall k | 0 < k < a.Length ::
                |old(a[k])| == |v| && a[k] == if lfsr.poly[k] then Xor(old(a[k]), v) else old(a[k])
    {
      for j := 1 to lfsr.Width()
        invariant a[0] == old(a[0])
        invariant forall k | j <= k < a.Length :: a[k] == old(a[k])
        invariant forall k | 0 < k < j ::
                    |old(a[k])| == |v| && a[k] == if lfsr.poly[k] then Xor(old(a[k]), v) else old(a[k])
      {
        if lfsr.poly[j] {
          a[j] := Xor(a[j], v);
        }
      }
    }

    static method ReverseOrder(a: array<Vec>)
      modifies a
      ensures forall k | 0 <= k < a.Length :: a[k] == old(a[..])[a.Length - 1 - k]
    {
      var n := a.Length;
      for i := 0 to n / 2
        invariant forall k | 0 <= k < i ::
                    a[k] == old(a[..])[n - 1 - k] && a[n - 1 - k] == old(a[..])[k]
        invariant forall k | i <= k < n - i :: a[k] == old(a[..])[k]
      {
        a[i], a[n - i - 1] := a[n - i - 1], a[i];
      }
    }

    static method ReverseBits(a: array<Vec>)
      modifies a
      ensures forall k | 0 <= k < a.Length :: a[k] == Reverse(old(a[..])[k])
    {
      for i := 0 to a.Length
        invariant forall k | 0 <= k < i :: a[k] == Reverse(old(a[..])[k])
        invariant forall k | i <= k < a.Length :: a[k] == old(a[..])[k]
      {
        var val := Zeros(|a[i]|);
        for j := 0 to |a[i]|
          invariant |val| == |a[i]|
          invariant forall k | 0 <= k < j :: val[k] == a[i][|a[i]| - k - 1]
        {
          val := val[j := a[i][|a[i]| - j - 1]];
        }
        assert val == Reverse(a[i]);
        a[i] := val;
      }
    }

    // ---- Evaluation ----

    /** One output bit of the reduction style. */
    method ReduceBit(st: Vec, da: Vec, stateIn: Vec, dataIn: Vec) returns (bit: bool)
      requires |st| == |stateIn| && |da| == |dataIn|
      ensures bit == Value(Row(st, da), stateIn, dataIn)
    {
      bit := Parity(And(dataIn, da) + And(stateIn, st));
    }

    /** One output bit of the loop style. */
    method LoopBit(st: Vec, da: Vec, stateIn: Vec, dataIn: Vec) returns (bit: bool)
      requires |st| == |stateIn| && |da| == |dataIn|
      ensures bit == Value(Row(st, da), stateIn, dataIn)
    {
      bit := AddSelected(false, st, stateIn);
      bit := AddSelected(bit, da, dataIn);
      ParityConcat(And(dataIn, da), And(stateIn, st));
    }

    /** The inner loops of the loop style: add up the bits of `v` that `mask` selects. */
    static method AddSelected(acc: bool, mask: Vec, v: Vec) returns (sum: bool)
      requires |mask| == |v|
      ensures sum == (acc != Parity(And(v, mask)))
    {
      sum := acc;
      for j := 0 to |v|
        invariant sum == (acc != Parity(And(v, mask)[..j]))
      {
        assert And(v, mask)[..j + 1][..j] == And(v, mask)[..j];
        if mask[j] {
          sum := sum != v[j];
        }
      }
      assert And(v, mask)[..|v|] == And(v, mask);
    }

    /** A clock cycle of the module in the reduction style (`loopStyle` false) or the loop style:
        both give what the serial register gives. */
    method Evaluate(loopStyle: bool, stateIn: Vec, dataIn: Vec) returns (stateOut: Vec, dataOut: Vec)
      requires Elaborated() && |stateIn| == lfsr.Width() && |dataIn| == dataWidth
      ensures stateOut == ParallelState(lfsr, reverse, stateIn, dataIn)
      ensures dataOut == ParallelOut(lfsr, reverse, stateIn, dataIn)
    {
      hide ParallelState, ParallelOut, StateMask, OutMask, Value;
      stateOut, dataOut := [], [];
      for i := 0 to lfsr.Width()
        invariant stateOut == ParallelState(lfsr, reverse, stateIn, dataIn)[..i]
      {
        StateMaskEqualsSerial(lfsr, reverse, stateIn, dataIn, i);
        assert Row(lfsrMaskState[i], lfsrMaskData[i]) == StateMask(lfsr, dataWidth, reverse, i);
        var bit: bool;
        if loopStyle {
          bit := LoopBit(lfsrMaskState[i], lfsrMaskData[i], stateIn, dataIn);
        } else {
          bit := ReduceBit(lfsrMaskState[i], lfsrMaskData[i], stateIn, dataIn);
        }
        stateOut := stateOut + [bit];
      }
      for i := 0 to dataWidth
        invariant dataOut == ParallelOut(lfsr, reverse, stateIn, dataIn)[..i]
      {
        OutMaskEqualsSerial(lfsr, reverse, stateIn, dataIn, i);
        assert Row(outputMaskState[i], outputMaskData[i]) == OutMask(lfsr, dataWidth, reverse, i);
        var bit: bool;
        if loopStyle {
          bit := LoopBit(outputMaskState[i], outputMaskData[i], stateIn, dataIn);
        } else {
          bit := ReduceBit(outputMaskState[i], outputMaskData[i], stateIn, dataIn);
        }
        dataOut := dataOut + [bit];
      }
    }
  }
}
