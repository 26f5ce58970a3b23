/** Texts out of line: chains of 32-byte chunks through the slots of toasts, as seen through the index table. */
module Texts {
  import opened Blocks
  import opened Tilings

  /** A slot of an attached toast: the toast's index and the byte offset behind its header. */
  datatype Slot = Slot(toast: nat, offset: nat)

  function Chunks(size: nat): nat {
    size / CHUNK_SIZE + if size % CHUNK_SIZE != 0 then 1 else 0
  }

  /** As many chunks of 32 bytes as it takes, and no more. */
  lemma ChunksIff(size: nat, n: nat)
    ensures n == Chunks(size) <==> 32 * n - 32 < size <= 32 * n || (n == 0 && size == 0)
  {
  }

  ghost predicate HasChunk(view: View, s: Slot) {
    && s.toast in view && view[s.toast].Toast?
    && s.offset in view[s.toast].slots
    && |view[s.toast].slots[s.offset].data| == CHUNK_SIZE
  }

  ghost function ChunkAt(view: View, s: Slot): Chunk
    requires HasChunk(view, s)
  {
    view[s.toast].slots[s.offset]
  }

  ghost function NextSlot(view: View, s: Slot): Slot {
    if HasChunk(view, s) then Slot(ChunkAt(view, s).toastIndex, ChunkAt(view, s).nextOffset) else s
  }

  /** The first n slots of the chain that begins at s. */
  ghost function Chain(view: View, s: Slot, n: nat): (c: seq<Slot>)
    ensures |c| == n
    decreases n
  {
    if n == 0 then [] else [s] + Chain(view, NextSlot(view, s), n - 1)
  }

  ghost predicate AllPresent(view: View, c: seq<Slot>) {
    forall s :: s in c ==> HasChunk(view, s)
  }

  /** The bytes stored along a chain. */
  ghost function ReadChain(view: View, c: seq<Slot>): (b: seq<byte>)
    requires AllPresent(view, c)
    ensures |b| == CHUNK_SIZE * |c|
  {
    if c == [] then [] else ChunkAt(view, c[0]).data + ReadChain(view, c[1..])
  }

  function Zeros(n: nat): (b: seq<byte>)
    ensures |b| == n && forall i :: 0 <= i < n ==> b[i] == 0
  {
    seq(n, _ => 0)
  }

  /** The buffer the chunk reader fills: of the last chunk it copies only `size % 32` bytes, which is none
      when the size is a multiple of 32; the rest of the buffer stays zero. */
  ghost function ReadBuffer(view: View, c: seq<Slot>, size: nat): (b: seq<byte>)
    requires AllPresent(view, c) && |c| == Chunks(size)
    ensures |b| == size
  {
    if size % CHUNK_SIZE != 0 || size == 0 then ReadChain(view, c)[..size]
    else ReadChain(view, c)[..size - CHUNK_SIZE] + Zeros(CHUNK_SIZE)
  }

  /** What strcpy takes from a buffer: the bytes before the first zero. */
  function CStringOf(b: seq<byte>): CString {
    if b == [] || b[0] == 0 then [] else [b[0]] + CStringOf(b[1..])
  }

  predicate NulFree(s: CString) {
    0 !in s
  }

  // ---------- chains ----------

  /** A chain of n slots depends on the links of all but its last slot. */
  lemma {:induction false} ChainFrame(view: View, view': View, s: Slot, n: nat)
    requires forall i :: 0 <= i < n - 1 ==>
              NextSlot(view', Chain(view, s, n)[i]) == NextSlot(view, Chain(view, s, n)[i])
    ensures Chain(view', s, n) == Chain(view, s, n)
    decreases n
  {
    if n > 1 {
      var c := Chain(view, s, n);
      assert c[0] == s && c[1..] == Chain(view, NextSlot(view, s), n - 1);
      forall i | 0 <= i < n - 2
        ensures NextSlot(view', c[1..][i]) == NextSlot(view, c[1..][i])
      {
        assert c[1..][i] == c[i + 1];
      }
      ChainFrame(view, view', NextSlot(view, s), n - 1);
    }
  }

  /** The slot at the end of the first n links. */
  ghost function Follow(view: View, s: Slot, n: nat): Slot
    decreases n
  {
    if n == 0 then s else Follow(view, NextSlot(view, s), n - 1)
  }

  lemma {:induction false} ChainSplit(view: View, s: Slot, m: nat, n: nat)
    ensures Chain(view, s, m + n) == Chain(view, s, m) + Chain(view, Follow(view, s, m), n)
    decreases m
  {
    if m > 0 {
      ChainSplit(view, NextSlot(view, s), m - 1, n);
      assert m - 1 + n == m + n - 1;
    }
  }

  lemma {:induction false} ChainAt(view: View, s: Slot, n: nat, k: nat)
    requires k < n
    ensures Chain(view, s, n)[k] == Follow(view, s, k)
    decreases k
  {
    if k > 0 {
      ChainAt(view, NextSlot(view, s), n - 1, k - 1);
    }
  }

  lemma ChainPrefix(view: View, s: Slot, m: nat, n: nat)
    requires m <= n
    ensures Chain(view, s, m) == Chain(view, s, n)[..m]
  {
    ChainSplit(view, s, m, n - m);
  }

  lemma {:induction false} FollowNext(view: View, s: Slot, n: nat)
    ensures NextSlot(view, Follow(view, s, n)) == Follow(view, s, n + 1)
    decreases n
  {
    if n > 0 {
      FollowNext(view, NextSlot(view, s), n - 1);
    }
  }

  // ---------- strings ----------

  lemma {:induction false} CStringOfPrefix(b: seq<byte>, s: CString)
    requires NulFree(s) && s + [0] <= b
    ensures CStringOf(b) == s
  {
    if s == [] {
      assert b[0] == (s + [0])[0];
    } else {
      assert b[0] == (s + [0])[0] == s[0];
      assert s[1..] + [0] <= b[1..] by {
        assert (s + [0])[1..] == s[1..] + [0];
        assert b[1..|s| + 1] == b[..|s| + 1][1..];
      }
      CStringOfPrefix(b[1..], s[1..]);
    }
  }

  /** The bytes of slot s begin with the i-th 32-byte piece of `text`. */
  ghost predicate Carries(view: View, s: Slot, text: seq<byte>, i: nat) {
    && HasChunk(view, s)
    && CHUNK_SIZE * i <= |text|
    && var piece := text[CHUNK_SIZE * i..if CHUNK_SIZE * (i + 1) <= |text| then CHUNK_SIZE * (i + 1) else |text|];
       piece <= ChunkAt(view, s).data
  }

  ghost predicate ChainCarries(view: View, c: seq<Slot>, text: seq<byte>) {
    forall i {:trigger Carries(view, c[i], text, i)} :: 0 <= i < |c| ==> Carries(view, c[i], text, i)
  }

  /** A chain that carries a text piece by piece reads back as that text, followed by what else is stored. */
  lemma {:induction false} CarriedRead(view: View, c: seq<Slot>, text: seq<byte>)
    requires AllPresent(view, c) && ChainCarries(view, c, text)
    requires |text| <= CHUNK_SIZE * |c|
    ensures text <= ReadChain(view, c)
    decreases |c|
  {
    if c != [] {
      assert Carries(view, c[0], text, 0);
      if |text| <= CHUNK_SIZE {
      } else {
        var rest, tail := c[1..], text[CHUNK_SIZE..];
        forall i | 0 <= i < |rest| ensures Carries(view, rest[i], tail, i) {
          CarriesShift(view, c[i + 1], text, i);
        }
        CarriedRead(view, rest, tail);
        assert text == text[..CHUNK_SIZE] + tail;
        assert ChunkAt(view, c[0]).data == text[..CHUNK_SIZE];
      }
    }
  }

  lemma CarriesShift(view: View, s: Slot, text: seq<byte>, i: nat)
    requires Carries(view, s, text, i + 1)
    ensures Carries(view, s, text[CHUNK_SIZE..], i)
  {
    var tail := text[CHUNK_SIZE..];
    var hi := if CHUNK_SIZE * (i + 2) <= |text| then CHUNK_SIZE * (i + 2) else |text|;
    assert tail[CHUNK_SIZE * i..hi - CHUNK_SIZE] == text[CHUNK_SIZE * (i + 1)..hi];
  }

  /** A text reads back from a chain that carries it, unless its stored size is a multiple of 32. */
  lemma CarriedText(view: View, c: seq<Slot>, size: nat, s: CString)
    requires AllPresent(view, c) && |c| == Chunks(size) && ChainCarries(view, c, s + [0])
    requires NulFree(s) && |s| + 1 <= size && size % CHUNK_SIZE != 0
    ensures CStringOf(ReadBuffer(view, c, size)) == s
  {
    CarriedRead(view, c, s + [0]);
    CStringOfPrefix(ReadBuffer(view, c, size), s);
  }

  // ---------- runs: chunks written into consecutive slots ----------

  /** The first `len` bytes of the i-th piece of text, padded to a whole chunk. */
  function PieceData(text: seq<byte>, i: nat, len: nat): (d: seq<byte>)
    requires len <= CHUNK_SIZE && CHUNK_SIZE * i + len <= |text|
    ensures |d| == CHUNK_SIZE
  {
    text[CHUNK_SIZE * i..CHUNK_SIZE * i + len] + Zeros(CHUNK_SIZE - len)
  }

  /** What a loop of `m` chunk writes starting at slot number `first` of toast t puts in the file: the pieces of
      text from number `from` on, each chunk leading to the next slot, the last one to offset 0 of `lastToast`.
      Of its last piece only `lastLen` bytes are copied. */
  ghost function Run(text: seq<byte>, from: nat, m: nat, t: nat, first: nat, lastToast: nat, lastLen: nat): seq<Chunk>
    requires lastLen <= CHUNK_SIZE && (m > 0 ==> CHUNK_SIZE * (from + m - 1) + lastLen <= |text|)
    decreases m
  {
    if m == 0 then []
    else if m == 1 then [Chunk(PieceData(text, from, lastLen), lastToast, 0)]
    else [Chunk(PieceData(text, from, CHUNK_SIZE), t, (first + 1) * SLOT)]
         + Run(text, from + 1, m - 1, t, first + 1, lastToast, lastLen)
  }

  /** The slots after chunks cs are written from slot number `first` on. */
  ghost function PutRun(slots: map<nat, Chunk>, first: nat, cs: seq<Chunk>): map<nat, Chunk>
    decreases cs
  {
    if cs == [] then slots else PutRun(slots[first * SLOT := cs[0]], first + 1, cs[1..])
  }

  ghost function RunSlots(t: nat, first: nat, m: nat): (c: seq<Slot>)
    ensures |c| == m
    decreases m
  {
    if m == 0 then [] else [Slot(t, first * SLOT)] + RunSlots(t, first + 1, m - 1)
  }

  /** A toast whose slots changed and that counts `used` of them. */
  ghost function WithSlots(b: Block, slots: map<nat, Chunk>, used: nat): Block
    requires b.Toast?
  {
    b.(slots := slots, used := used)
  }

  lemma {:induction false} PutRunBelow(slots: map<nat, Chunk>, first: nat, cs: seq<Chunk>, off: nat)
    requires off < first * SLOT
    ensures off in PutRun(slots, first, cs) <==> off in slots
    ensures off in slots ==> PutRun(slots, first, cs)[off] == slots[off]
    decreases cs
  {
    if cs != [] {
      PutRunBelow(slots[first * SLOT := cs[0]], first + 1, cs[1..], off);
    }
  }

  /** Every chunk among these slots leads to toast t. */
  ghost predicate LeadHome(slots: map<nat, Chunk>, t: nat) {
    forall off :: off in slots ==> slots[off].toastIndex == t
  }

  /** A run whose last chunk stays in its toast leads nowhere else. */
  lemma {:induction false} RunHome(slots: map<nat, Chunk>, text: seq<byte>, from: nat, m: nat, t: nat, first: nat,
                                   lastLen: nat)
    requires lastLen <= CHUNK_SIZE && (m > 0 ==> CHUNK_SIZE * (from + m - 1) + lastLen <= |text|)
    requires LeadHome(slots, t)
    ensures LeadHome(PutRun(slots, first, Run(text, from, m, t, first, t, lastLen)), t)
    decreases m
  {
    if m > 0 {
      var cs := Run(text, from, m, t, first, t, lastLen);
      var slots1 := slots[first * SLOT := cs[0]];
      assert PutRun(slots, first, cs) == PutRun(slots1, first + 1, cs[1..]);
      if m > 1 {
        assert cs[1..] == Run(text, from + 1, m - 1, t, first + 1, t, lastLen);
        RunHome(slots1, text, from + 1, m - 1, t, first + 1, lastLen);
      }
    }
  }

  lemma {:induction false} RunSlotsIn(t: nat, first: nat, m: nat, s: Slot)
    ensures s in RunSlots(t, first, m) <==>
            s.toast == t && s.offset % SLOT == 0 && first * SLOT <= s.offset < (first + m) * SLOT
    ensures NoDuplicates(RunSlots(t, first, m))
    decreases m
  {
    if m > 0 {
      RunSlotsIn(t, first + 1, m - 1, s);
      RunSlotsIn(t, first + 1, m - 1, Slot(t, first * SLOT));
    }
  }

  /** The chunk a run begins with. */
  lemma RunHead(view: View, slots: map<nat, Chunk>, cs: seq<Chunk>, t: nat, first: nat)
    requires cs != [] && t in view && view[t].Toast? && view[t].slots == PutRun(slots, first, cs)
    ensures first * SLOT in view[t].slots && view[t].slots[first * SLOT] == cs[0]
    ensures view[t].slots == PutRun(slots[first * SLOT := cs[0]], first + 1, cs[1..])
  {
    PutRunBelow(slots[first * SLOT := cs[0]], first + 1, cs[1..], first * SLOT);
  }

  /** The m slots from number `first` on are a chain that carries the pieces of text from number `from` on, and leads
      to offset 0 of `lastToast`. */
  ghost predicate LaidOut(view: View, text: seq<byte>, from: nat, m: nat, t: nat, first: nat, lastToast: nat) {
    var c := RunSlots(t, first, m);
    && m > 0 && Chain(view, Slot(t, first * SLOT), m) == c && AllPresent(view, c)
    && (forall i :: 0 <= i < m ==> Carries(view, c[i], text, from + i))
    && NextSlot(view, c[m - 1]) == Slot(lastToast, 0)
  }

  lemma LaidOutMore(view: View, text: seq<byte>, from: nat, from1: nat, m: nat, m1: nat, t: nat, first: nat,
                    first1: nat, lastToast: nat)
    requires from1 == from + 1 && m == m1 + 1 && first1 == first + 1
    requires LaidOut(view, text, from1, m1, t, first1, lastToast)
    requires Carries(view, Slot(t, first * SLOT), text, from)
    requires NextSlot(view, Slot(t, first * SLOT)) == Slot(t, first1 * SLOT)
    ensures LaidOut(view, text, from, m, t, first, lastToast)
  {
    var s, c, rest := Slot(t, first * SLOT), RunSlots(t, first, m), RunSlots(t, first1, m1);
    assert c == [s] + rest;
    forall i | 0 <= i < m ensures Carries(view, c[i], text, from + i) {
      if i > 0 {
        assert c[i] == rest[i - 1] && from1 + (i - 1) == from + i;
      }
    }
    assert c[m - 1] == rest[m1 - 1];
  }

  /** A run is a chain that carries its text and leads on to `lastToast`. */
  lemma {:induction false} RunIsChain(view: View, slots: map<nat, Chunk>, text: seq<byte>, from: nat, m: nat,
                                      t: nat, first: nat, lastToast: nat, lastLen: nat)
    requires lastLen <= CHUNK_SIZE && m > 0 && CHUNK_SIZE * (from + m - 1) + lastLen <= |text|
    requires lastLen == CHUNK_SIZE || CHUNK_SIZE * (from + m - 1) + lastLen == |text|
    requires t in view && view[t].Toast?
    requires view[t].slots == PutRun(slots, first, Run(text, from, m, t, first, lastToast, lastLen))
    ensures LaidOut(view, text, from, m, t, first, lastToast)
    decreases m
  {
    var cs, s := Run(text, from, m, t, first, lastToast, lastLen), Slot(t, first * SLOT);
    RunHead(view, slots, cs, t, first);
    assert Carries(view, s, text, from);
    if m > 1 {
      var from1, m1, first1 := from + 1, m - 1, first + 1;
      assert cs[1..] == Run(text, from1, m1, t, first1, lastToast, lastLen);
      RunIsChain(view, slots[first * SLOT := cs[0]], text, from1, m1, t, first1, lastToast, lastLen);
      LaidOutMore(view, text, from, from1, m, m1, t, first, first1, lastToast);
    } else {
      assert RunSlots(t, first, 1) == [s] && Chain(view, s, 1) == [s];
    }
  }
}
