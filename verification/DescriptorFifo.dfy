/** A first-in first-out table of eight entries that can also be read at any index. */
module DescriptorFifo {
  import Filter = MacFilter

  type Pointer = p: nat | p < 8192

  /** A packet descriptor; `len` has 11 bits. */
  datatype Desc = Desc(len: nat, reason: Filter.Reason, head: Pointer)

  const DEPTH := 8

  type Index = i: nat | i < 8

  type Storage = s: seq<Desc> | |s| == 8 witness seq(8, _ => Desc(0, Filter.MacMatches, 0))

  /** `underRst` is set by reset and holds for one cycle more. */
  datatype Fifo = Fifo(storage: Storage, wptr: Index, rptr: Index, depth: nat, underRst: bool)

  function FifoNext(f: Fifo, push: bool, desc: Desc, pop: bool): Fifo {
    var w, r := push && f.depth != DEPTH && !f.underRst, pop && f.depth != 0 && !f.underRst;
    Fifo(if w then f.storage[f.wptr := desc] else f.storage,
         if w then (f.wptr + 1) % 8 else f.wptr,
         if r then (f.rptr + 1) % 8 else f.rptr,
         if w && !r then f.depth + 1 else if r && !w then f.depth - 1 else f.depth,
         false)
  }

  /** The random-access read port: the data, and whether the index is beyond the entries held. */
  function Read(f: Fifo, index: Index): (Desc, bool) {
    (f.storage[(f.rptr + index) % 8], index >= f.depth)
  }

  /** The storage index of entry `k`. */
  function Slot(r: Index, k: nat): Index { (r + k) % 8 }

  ghost predicate WellFormed(f: Fifo) { f.depth <= DEPTH && f.wptr == Slot(f.rptr, f.depth) && !f.underRst }

  /** The entries, oldest first. */
  function Contents(f: Fifo): (c: seq<Desc>)
    ensures |c| == f.depth
  {
    seq(f.depth, k requires 0 <= k < f.depth => f.storage[Slot(f.rptr, k)])
  }

  lemma {:induction false} OtherSlot(r: Index, depth: nat, k: nat)
    requires depth < 8 && k <= depth
    ensures Slot(r, k) == Slot(r, depth) <==> k == depth
  {
  }

  lemma {:induction false} NextSlot(r: Index, k: nat)
    ensures Slot((r + 1) % 8, k) == Slot(r, k + 1)
  {
  }

  lemma {:induction false} SlotAfter(r: Index, k: nat)
    ensures (Slot(r, k) + 1) % 8 == Slot(r, k + 1)
  {
  }

  lemma {:induction false} PushContents(f: Fifo, desc: Desc)
    requires WellFormed(f) && f.depth < DEPTH
    ensures var f' := FifoNext(f, true, desc, false);
            WellFormed(f') && Contents(f') == Contents(f) + [desc]
  {
    var f' := FifoNext(f, true, desc, false);
    hide Slot;
    SlotAfter(f.rptr, f.depth);
    forall k | 0 <= k < f.depth + 1 ensures Contents(f')[k] == (Contents(f) + [desc])[k] {
      OtherSlot(f.rptr, f.depth, k);
    }
  }

  lemma {:induction false} PopContents(f: Fifo)
    requires WellFormed(f) && f.depth > 0
    ensures var f' := FifoNext(f, false, Desc(0, Filter.MacMatches, 0), true);
            WellFormed(f') && Contents(f') == Contents(f)[1..]
  {
    var f' := FifoNext(f, false, Desc(0, Filter.MacMatches, 0), true);
    NextSlot(f.rptr, f.depth - 1);
    hide Slot;
    forall k | 0 <= k < f.depth - 1 ensures Contents(f')[k] == Contents(f)[1..][k] {
      NextSlot(f.rptr, k);
    }
  }

  /** A push onto a table that is not full and a pop of one that is not empty act on the list of
      entries, in the same cycle or not; other requests do nothing. */
  lemma {:induction false} NextContents(f: Fifo, push: bool, desc: Desc, pop: bool)
    requires WellFormed(f)
    ensures var f', c := FifoNext(f, push, desc, pop), Contents(f);
            var kept := if pop && c != [] then c[1..] else c;
            && WellFormed(f')
            && Contents(f') == kept + if push && |c| < DEPTH then [desc] else []
  {
    var none := Desc(0, Filter.MacMatches, 0);
    var f1 := if push && f.depth < DEPTH then FifoNext(f, true, desc, false) else f;
    if push && f.depth < DEPTH {
      PushContents(f, desc);
    }
    if pop && f.depth > 0 {
      PopContents(f1);
      assert FifoNext(f, push, desc, pop) == FifoNext(f1, false, none, true);
    } else {
      assert FifoNext(f, push, desc, pop) == f1;
    }
    hide FifoNext, WellFormed;
    assert Contents(f) + [] == Contents(f);
  }

  /** In the first cycle after reset both requests are ignored. */
  lemma {:induction false} FirstCycleIgnored(f: Fifo, push: bool, desc: Desc, pop: bool)
    requires f.underRst && f.depth <= DEPTH && f.wptr == Slot(f.rptr, f.depth)
    ensures var f' := FifoNext(f, push, desc, pop);
            WellFormed(f') && Contents(f') == Contents(f)
  {
  }

  /** The read port returns the entry of that index, or flags the index. */
  lemma {:induction false} ReadContents(f: Fifo, index: Index)
    requires WellFormed(f)
    ensures Read(f, index).1 <==> index >= |Contents(f)|
    ensures index < |Contents(f)| ==> Read(f, index).0 == Contents(f)[index]
  {
  }

  class RandomAccessFifo {
    const fifoStorage: array<Desc>
    var fifoWptr: Index
    var fifoRptr: Index
    var nBuffered: nat
    var underRst: bool

    constructor ()
      ensures fifoStorage.Length == 8 && fresh(fifoStorage)
      ensures State().depth == 0 && State().wptr == 0 && State().rptr == 0 && State().underRst
    {
      fifoStorage := new Desc[8](_ => Desc(0, Filter.MacMatches, 0));
      fifoWptr, fifoRptr, nBuffered, underRst := 0, 0, 0, true;
    }

    ghost function State(): Fifo
      reads this, fifoStorage
      requires fifoStorage.Length == 8
    {
      Fifo(fifoStorage[..], fifoWptr, fifoRptr, nBuffered, underRst)
    }

    method Status() returns (full: bool, empty: bool)
      ensures full == (nBuffered == DEPTH) && empty == (nBuffered == 0)
    {
      full, empty := nBuffered == 8, nBuffered == 0;
    }

    method ReadAt(index: Index) returns (data: Desc, err: bool)
      requires fifoStorage.Length == 8
      ensures (data, err) == Read(State(), index)
    {
      data, err := fifoStorage[(fifoRptr + index) % 8], index >= nBuffered;
    }

    method Clock(push: bool, desc: Desc, pop: bool)
      requires fifoStorage.Length == 8
      modifies this, fifoStorage
      ensures State() == FifoNext(old(State()), push, desc, pop)
    {
      var incrWptr, incrRptr := push && nBuffered != 8 && !underRst, pop && nBuffered != 0 && !underRst;
      underRst := false;
      if incrWptr {
        fifoStorage[fifoWptr] := desc;
        fifoWptr := (fifoWptr + 1) % 8;
      }
      if incrRptr {
        fifoRptr := (fifoRptr + 1) % 8;
      }
      if incrWptr && !incrRptr {
        nBuffered := nBuffered + 1;
      } else if incrRptr && !incrWptr {
        nBuffered := nBuffered - 1;
      }
    }
  }
}
