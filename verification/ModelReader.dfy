/** The test environment's reader of one stored packet, around the end of the ring. */
module ModelReader {
  import opened Bits
  import opened DescriptorFifo
  import opened RingBuffer
  import opened RxPackets

  /** A 64-bit read as a list of bytes. */
  function ReadWord(mem: Memory, w: nat): (b: seq<Byte>)
    requires w < 1024
    ensures |b| == 8
  {
    mem[8 * w..8 * w + 8]
  }

  /** The bytes from `ptr`, continuing at the beginning after the end. */
  function RingBytes(mem: Memory, ptr: nat, length: nat): (b: seq<Byte>)
    ensures |b| == length && forall i | 0 <= i < length :: b[i] == mem[(ptr + i) % BYTES]
  {
    seq(length, i requires 0 <= i < length => mem[(ptr + i) % BYTES])
  }

  method Requests(mem: Memory, low: nat, high: nat) returns (requests: seq<seq<Byte>>)
    requires low <= high + 1
    ensures |requests| == high + 1 - low
    ensures forall k | 0 <= k < |requests| :: requests[k] == ReadWord(mem, (low + k) % 1024)
  {
    requests := [];
    var w := low;
    while w < high + 1
      invariant low <= w <= high + 1 && |requests| == w - low
      invariant forall k | 0 <= k < |requests| :: requests[k] == ReadWord(mem, (low + k) % 1024)
    {
      requests := requests + [ReadWord(mem, w % 1024)];
      w := w + 1;
    }
  }

  /** Word `k` of the request list continues the bytes. */
  lemma {:induction false} WordContinues(mem: Memory, ptr: nat, k: nat, from: nat, n: nat)
    requires from + n <= 8 && ((from == ptr % 8 && k == 0) || from == 0)
    requires ptr / 8 < 1024
    ensures var start := 8 * (ptr / 8 + k) + from;
            ReadWord(mem, (ptr / 8 + k) % 1024)[from..from + n] == RingBytes(mem, start, n)
  {
    hide ReadWord, RingBytes;
    var w := ptr / 8 + k;
    var word, start := ReadWord(mem, w % 1024), 8 * w + from;
    var want := RingBytes(mem, start, n);
    forall i | 0 <= i < n ensures word[from..from + n][i] == want[i] {
      SameEntry(mem, w, from, n, i, start);
    }
  }

  lemma {:induction false} SameEntry(mem: Memory, w: nat, from: nat, n: nat, i: nat, start: nat)
    requires i < n && from + n <= 8 && start == 8 * w + from
    ensures ReadWord(mem, w % 1024)[from + i] == RingBytes(mem, start, n)[i]
  {
    SameByte(w, from + i);
    assert (start + i) % BYTES == 8 * (w % 1024) + (from + i);
  }

  lemma {:induction false} SameByte(w: nat, j: nat)
    requires j < 8
    ensures 8 * (w % 1024) + j == (8 * w + j) % BYTES
  {
  }

  lemma {:induction false} JoinBytes(mem: Memory, ptr: nat, m: nat, n: nat)
    ensures RingBytes(mem, ptr, m) + RingBytes(mem, ptr + m, n) == RingBytes(mem, ptr, m + n)
  {
  }

  /** The first word, from the pointer on. */
  lemma {:induction false} FirstWord(mem: Memory, ptr: Pointer, length: nat)
    ensures ptr / 8 <= (ptr + length + 7) / 8 && ptr == 8 * (ptr / 8) + ptr % 8
    ensures ptr + length <= 8 * ((ptr + length + 7) / 8)
    ensures ReadWord(mem, ptr / 8 % 1024)[ptr % 8..8] == RingBytes(mem, ptr, 8 - ptr % 8)
  {
    WordContinues(mem, ptr, 0, ptr % 8, 8 - ptr % 8);
  }

  /** The loop's step: `n` bytes of the next word. */
  lemma {:induction false} OneMoreWord(mem: Memory, ptr: Pointer, k: nat, data: seq<Byte>, word: seq<Byte>, n: nat)
    requires n <= 8 && |word| == 8 && word == ReadWord(mem, (ptr / 8 + k) % 1024)
    requires data == RingBytes(mem, ptr, |data|) && ptr + |data| == 8 * (ptr / 8 + k)
    ensures data + word[..n] == RingBytes(mem, ptr, |data| + n)
  {
    WordContinues(mem, ptr, k, 0, n);
    hide ReadWord, RingBytes;
    JoinBytes(mem, ptr, |data|, n);
  }

  /** Reads whole words and trims the last; the first is taken from `ptr % 8` to its end whatever the
      length, so the reader's own length check passes if and only if the packet reaches that far;
      then the bytes are those of the ring. */
  method ReadPacket(mem: Memory, ptr: Pointer, length: nat) returns (data: seq<Byte>, ok: bool)
    ensures ok <==> length >= 8 - ptr % 8
    ensures ok ==> data == RingBytes(mem, ptr, length)
  {
    hide ReadWord, RingBytes;
    FirstWord(mem, ptr, length);
    var low, high := ptr / 8, (ptr + length + 7) / 8;
    var requests := Requests(mem, low, high);
    assert requests[0] == ReadWord(mem, low % 1024);
    data := requests[0][ptr % 8..8];
    ghost var k := 1;
    requests := requests[1..];
    while |data| < length
      invariant k >= 1 && |requests| == high + 1 - low - k
      invariant forall j | 0 <= j < |requests| :: requests[j] == ReadWord(mem, (low + k + j) % 1024)
      invariant data == RingBytes(mem, ptr, |data|)
      invariant |data| < length ==> ptr + |data| == 8 * (low + k)
      invariant |data| <= length || |data| == 8 - ptr % 8
      decreases length - |data|
    {
      var n := if length - |data| < 8 then length - |data| else 8;
      OneMoreWord(mem, ptr, k, data, requests[0], n);
      data := data + requests[0][..n];
      requests := requests[1..];
      k := k + 1;
    }
    ok := |data| == length;
  }

  /** What the reader returns for entry `k` of the table is packet `k` of the queue, up to its length
      modulo 2048: all of a packet shorter than that, and of no other. */
  lemma {:induction false} StoredBytes(r: Regs, q: Queue, b: Pointer, k: Index)
    requires Holds(r, q, b) && k < |q.packets|
    ensures var d, p := Read(r.fifo, k).0, q.packets[k].data;
            && RingBytes(r.mem, d.head, d.len) == p[..|p| % 2048]
            && (RingBytes(r.mem, d.head, d.len) == p <==> |p| < 2048)
  {
    ReadsPacket(r, q, b, k);
    hide Holds, Read;
  }
}
