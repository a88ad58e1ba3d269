/** Frames with no more than four bytes after the delimiter, in 1000 Mb/s mode. */
module RxRunts {
  import opened Bits
  import opened Crc32
  import opened Crc32Check
  import opened Signals
  import opened GmiiRx
  import opened RxFrames

  /** Preamble without a delimiter, delimiter and at most four more bytes; all but the delimiter may be
      flagged. */
  ghost predicate Runt(f: seq<Gmii>, pre: seq<Gmii>, tail: seq<Gmii>) {
    && f == pre + [Gmii(ETH_SFD, true, false)] + tail && |tail| <= 4
    && (forall x | x in pre :: x.en && x.data != ETH_SFD) && (forall x | x in tail :: x.en)
  }

  lemma {:induction false} RuntAt(f: seq<Gmii>, pre: seq<Gmii>, tail: seq<Gmii>, i: nat)
    requires Runt(f, pre, tail) && i < |f|
    ensures f[i].en && (i < |pre| ==> f[i].data != ETH_SFD) && (i == |pre| ==> f[i] == Gmii(ETH_SFD, true, false))
    ensures i > |pre| ==> f[i] == tail[i - |pre| - 1]
  {
    assert i < |pre| ==> f[i] in pre;
    assert i > |pre| ==> f[i] in tail;
  }

  /** Nothing of the delimiter reaches the last stage before the frame ends. */
  lemma {:induction false} NotYetThere(r: Regs, f: seq<Gmii>, pre: seq<Gmii>, tail: seq<Gmii>, t: nat)
    requires Runt(f, pre, tail) && t <= |f| && Line(r, f, t)
    ensures t < |pre| + 5 ==> !(r.d4.dv && r.d4.data == ETH_SFD)
    ensures t == |pre| + 5 ==>
              && r.d4 == Tap(ETH_SFD, true, false) && r.d3 == Tap(tail[0].data, true, tail[0].er)
              && r.d2 == Tap(tail[1].data, true, tail[1].er) && r.d1 == Tap(tail[2].data, true, tail[2].er)
              && r.d0 == Tap(tail[3].data, true, tail[3].er)
  {
    if t >= 5 {
      RuntAt(f, pre, tail, t - 5);
    }
    if t == |pre| + 5 {
      RuntAt(f, pre, tail, t - 4);
      RuntAt(f, pre, tail, t - 3);
      RuntAt(f, pre, tail, t - 2);
      RuntAt(f, pre, tail, t - 1);
    }
  }

  /** So the whole frame goes by in silence. */
  lemma {:induction false} RuntHunt(r: Regs, f: seq<Gmii>, pre: seq<Gmii>, tail: seq<Gmii>, t: nat, quiet: Gmii)
    returns (r': Regs)
    requires Runt(f, pre, tail) && t <= |f| && Line(r, f, t)
    requires r.state == Idle || (r.state == Crc && t <= |pre| + 1 + r.crcCnt && r.crcCnt <= 3)
    ensures Line(r', f, |f|) && (r'.state == Idle || (r'.state == Crc && |tail| <= r'.crcCnt <= 3))
    ensures var w, w' := Tail(f, t, quiet), Tail(f, |f|, quiet);
            Received(r, w) == Received(r', w') && End(r, w) == End(r', w')
    decreases |f| - t
  {
    hide *;
    RuntLength(f, pre, tail);
    if t == |f| {
      r' := r;
    } else {
      var t1, r1 := t + 1, Step(r, f[t]);
      RuntAt(f, pre, tail, t);
      TailStep(r, f, t, quiet);
      NotYetThere(r, f, pre, tail, t);
      LineStep(r, f, t);
      HuntStep(r, f[t]);
      r' := RuntHunt(r1, f, pre, tail, t1, quiet);
    }
  }

  lemma {:induction false} RuntLength(f: seq<Gmii>, pre: seq<Gmii>, tail: seq<Gmii>)
    requires Runt(f, pre, tail)
    ensures |f| == |pre| + 1 + |tail| && |tail| <= 4
  {
  }

  /** The delimiter is seen as data valid drops: a packet is open, with the four bytes in the delay
      line and no data valid. */
  ghost predicate OpenTooLate(r: Regs, tail: seq<Gmii>, quiet: Gmii)
    requires |tail| == 4
  {
    && r.state == Payload && r.crc == Ones(32)
    && !r.d0.dv && !r.d1.dv && !r.d2.dv && !r.d3.dv && !r.d4.dv
    && r.d4.data == tail[0].data
    && r.d3.data == tail[1].data && r.d2.data == tail[2].data && r.d1.data == tail[3].data && r.d0.data == quiet.data
    && r.d3.er == tail[1].er && r.d2.er == tail[2].er && r.d1.er == tail[3].er && r.d0.er == quiet.er
  }

  lemma {:induction false} QuietAfterRunt(r: Regs, f: seq<Gmii>, pre: seq<Gmii>, tail: seq<Gmii>, quiet: Gmii)
    requires Runt(f, pre, tail) && Line(r, f, |f|) && !quiet.en
    requires r.state == Idle || (r.state == Crc && |tail| <= r.crcCnt <= 3)
    ensures Emitted(Step(r, quiet)) == []
    ensures if |tail| == 4 then OpenTooLate(Step(r, quiet), tail, quiet) else Listening(Step(r, quiet))
  {
    NotYetThere(r, f, pre, tail, |f|);
    RuntLength(f, pre, tail);
    hide CrcNext, Line, Runt;
  }

  /** After fewer than four bytes the receiver is as before; after exactly four a packet is open that
      should not be. Nothing has come out. */
  lemma {:induction false} RuntFrame(r: Regs, f: seq<Gmii>, pre: seq<Gmii>, tail: seq<Gmii>, quiet: Gmii)
    requires Listening(r) && Runt(f, pre, tail) && !quiet.en
    ensures var w := f + [quiet];
            && Received(r, w) == []
            && if |tail| == 4 then OpenTooLate(End(r, w), tail, quiet) else Listening(End(r, w))
  {
    assert f[0..] == f;
    assert Line(r, f, 0);
    hide CrcNext, Step, Line, Received, End, Runt, Listening, OpenTooLate;
    assert r.state == Idle || (r.state == Crc && r.crcCnt <= 3) by { ListeningState(r); }
    var r' := RuntHunt(r, f, pre, tail, 0, quiet);
    QuietAfterRunt(r', f, pre, tail, quiet);
    TailStep(r', f, |f|, quiet);
  }

  lemma {:induction false} ListeningState(r: Regs)
    requires Listening(r)
    ensures r.state == Idle || (r.state == Crc && r.crcCnt <= 3)
  {
  }

  /** A second symbol with the enable low brings one stray beat out, the first of the four bytes, marked
      bad unless the others and the idle symbol's byte happen to be its check sequence; then the
      receiver listens again. */
  lemma {:induction false} StrayBeat(r: Regs, tail: seq<Gmii>, quiet: Gmii, second: Gmii)
    requires |tail| == 4 && OpenTooLate(r, tail, quiet) && !second.en
    ensures var bytes := [tail[0].data, tail[1].data, tail[2].data, tail[3].data, quiet.data];
            var bad := tail[1].er || tail[2].er || tail[3].er || quiet.er || !Accepted(bytes);
            Received(r, [second]) == [OutBeat(tail[0].data, true, bad)] && Listening(End(r, [second]))
  {
    var data, check := [tail[0].data], [tail[1].data, tail[2].data, tail[3].data, quiet.data];
    assert data + check == [tail[0].data, tail[1].data, tail[2].data, tail[3].data, quiet.data];
    assert [second][1..] == [];
    CheckBytes(data, check);
    OneCrc(tail[0].data);
    hide CrcNext, CrcBytes, Accepted;
  }

  lemma {:induction false} OneCrc(b: Byte)
    ensures CrcBytes(Ones(32), [b]) == CrcNext(Ones(32), b)
  {
    hide CrcNext;
    assert [b][1..] == [];
  }

  /** A frame that begins after the one idle symbol is joined to it: the stray byte, not its last, and
      then whatever is on the wire. */
  lemma {:induction false} JoinedFrame(r: Regs, tail: seq<Gmii>, quiet: Gmii, next: Gmii)
    requires |tail| == 4 && OpenTooLate(r, tail, quiet) && next.en
    ensures Emitted(Step(r, next)) == [OutBeat(tail[0].data, false, false)] && Step(r, next).state == Payload
  {
    hide CrcNext;
  }
}
