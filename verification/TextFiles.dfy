/** Reading and writing text chunks in an open file. */
module TextFiles {
  import opened Blocks
  import opened Tilings
  import opened Texts
  import opened Storage

  // ---------- single slots ----------

  /** The bytes of a slot lie inside its toast's block. */
  ghost predicate Inside(view: View, s: Slot) {
    && s.toast in view && view[s.toast].Toast?
    && TOAST_HEADER + s.offset + SLOT <= view[s.toast].capacity
  }

  ghost function PutChunk(view: View, s: Slot, chunk: Chunk): View
    requires s.toast in view && view[s.toast].Toast?
  {
    view[s.toast := view[s.toast].(slots := view[s.toast].slots[s.offset := chunk])]
  }

  function ReadSlot(file: ZgdbFile, s: Slot): (chunk: Chunk)
    requires file.Standing() && HasChunk(file.View(), s)
    reads file, file.freeList, file.freeList.Repr
    ensures chunk == ChunkAt(file.View(), s)
  {
    file.ReadBlock(s.toast).slots[s.offset]
  }

  method WriteSlot(file: ZgdbFile, s: Slot, chunk: Chunk)
    requires file.Standing() && Inside(file.View(), s)
    modifies file`blocks
    ensures file.Standing() && file.View() == PutChunk(old(file.View()), s, chunk)
  {
    var b := file.Stored(s.toast);
    file.WriteBlock(s.toast, b.(slots := b.slots[s.offset := chunk]));
  }

  /** Writes a toast's header, kept in memory, back with new `used` and `nextToastIndex`. */
  method WriteToastHeader(file: ZgdbFile, t: nat, used: nat, nextToastIndex: nat)
    requires file.Standing() && t in file.View() && file.View()[t].Toast?
    modifies file`blocks, file`zeroed
    ensures file.Standing() && t < |file.index| && file.zeroed == old(file.zeroed) - {file.index[t].offset}
    ensures file.View() == old(file.View())[t := old(file.View())[t].(used := used, nextToastIndex := nextToastIndex)]
  {
    var b := file.Stored(t);
    file.WriteWithHeader(t, b.(used := used, nextToastIndex := nextToastIndex));
  }

  // ---------- the chunk reader ----------

  /** The reader's state after `count` chunks. */
  ghost predicate ReadSoFar(view: View, c: seq<Slot>, buf: seq<byte>, size: nat, count: nat) {
    && AllPresent(view, c) && |c| == Chunks(size) && count <= |c| && |buf| == size
    && (if count < |c| then buf == ReadChain(view, c[..count]) + Zeros(size - CHUNK_SIZE * count)
        else buf == ReadBuffer(view, c, size))
  }

  lemma {:induction false} ReadChainPush(view: View, c: seq<Slot>, s: Slot)
    requires AllPresent(view, c + [s])
    ensures AllPresent(view, c) && ReadChain(view, c + [s]) == ReadChain(view, c) + ChunkAt(view, s).data
  {
    forall x | x in c ensures HasChunk(view, x) {
      assert x in c + [s];
    }
    if c != [] {
      assert (c + [s])[1..] == c[1..] + [s] && (c + [s])[0] == c[0];
      ReadChainPush(view, c[1..], s);
    }
  }

  lemma ReadStep(view: View, c: seq<Slot>, buf: seq<byte>, size: nat, count: nat)
    requires ReadSoFar(view, c, buf, size, count) && count < |c|
    ensures var data := ChunkAt(view, c[count]).data;
            var n := if count == |c| - 1 then size % CHUNK_SIZE else CHUNK_SIZE;
            var lo := CHUNK_SIZE * count;
            && lo + n <= size
            && ReadSoFar(view, c, buf[..lo] + data[..n] + buf[lo + n..], size, count + 1)
  {
    var done := c[..count];
    var lo, read, data := CHUNK_SIZE * count, ReadChain(view, done), ChunkAt(view, c[count]).data;
    assert c[..count + 1] == done + [c[count]];
    ReadChainPush(view, done, c[count]);
    assert buf[..lo] == read;
    if count == |c| - 1 {
      assert c[..count + 1] == c;
      LastChunk(read, data, size);
    } else {
      assert data[..CHUNK_SIZE] == data;
      assert buf[lo + CHUNK_SIZE..] == Zeros(size - CHUNK_SIZE * (count + 1));
    }
  }

  /** The reader's buffer once the last chunk is copied into it. */
  lemma LastChunk(read: seq<byte>, data: seq<byte>, size: nat)
    requires |data| == CHUNK_SIZE && |read| % CHUNK_SIZE == 0 && |read| < size <= |read| + CHUNK_SIZE
    ensures var n, buf := size % CHUNK_SIZE, read + Zeros(size - |read|);
            && |read| + n <= size
            && read + data[..n] + buf[|read| + n..] ==
               if n != 0 then (read + data)[..size] else (read + data)[..size - CHUNK_SIZE] + Zeros(CHUNK_SIZE)
  {
  }

  /** The loop of nextEl that follows a text's chunks; the buffer is zeroed first. */
  method ReadText(file: ZgdbFile, firstToastIndex: nat, size: nat, offsetInToast: nat) returns (buf: seq<byte>)
    requires file.Standing()
    requires AllPresent(file.View(), Chain(file.View(), Slot(firstToastIndex, offsetInToast), Chunks(size)))
    ensures buf == ReadBuffer(file.View(), Chain(file.View(), Slot(firstToastIndex, offsetInToast), Chunks(size)), size)
  {
    ghost var view := file.View();
    ghost var c := Chain(view, Slot(firstToastIndex, offsetInToast), Chunks(size));
    var chunks := Chunks(size);
    var indexToast, nextOffset := firstToastIndex, offsetInToast;
    buf := Zeros(size);
    assert c[..0] == [];
    for count := 0 to chunks
      invariant ReadSoFar(view, c, buf, size, count)
      invariant count < chunks ==> Slot(indexToast, nextOffset) == c[count]
    {
      ReadStep(view, c, buf, size, count);
      ChainStep(view, Slot(firstToastIndex, offsetInToast), chunks, count);
      var tempChunk := ReadSlot(file, Slot(indexToast, nextOffset));
      var n := if count == chunks - 1 then size % CHUNK_SIZE else CHUNK_SIZE;
      var lo := CHUNK_SIZE * count;
      buf := buf[..lo] + tempChunk.data[..n] + buf[lo + n..];
      if tempChunk.toastIndex == indexToast {
        nextOffset := tempChunk.nextOffset;
      } else {
        indexToast := tempChunk.toastIndex;
        nextOffset := tempChunk.nextOffset;
      }
    }
  }

  lemma ChainStep(view: View, s: Slot, n: nat, i: nat)
    requires i < n
    ensures i + 1 < n ==> Chain(view, s, n)[i + 1] == NextSlot(view, Chain(view, s, n)[i])
  {
    ChainAt(view, s, n, i);
    if i + 1 < n {
      ChainAt(view, s, n, i + 1);
      FollowNext(view, s, i);
    }
  }

  // ---------- appending a run of chunks ----------

  /** Writes m chunks into the slots from number `first` on: the loop of writeElement, and the growth loops of
      updateElement. */
  method AppendChunks(file: ZgdbFile, t: nat, first: nat, text: seq<byte>, from: nat, m: nat, lastToast: nat,
                      lastLen: nat)
    requires file.Standing() && t in file.View() && file.View()[t].Toast?
    requires TOAST_HEADER + (first + m) * SLOT <= file.View()[t].capacity
    requires lastLen <= CHUNK_SIZE && (m > 0 ==> CHUNK_SIZE * (from + m - 1) + lastLen <= |text|)
    modifies file`blocks
    ensures file.Standing()
    ensures var v := old(file.View());
            file.View() == v[t := v[t].(slots := PutRun(v[t].slots, first,
                                                        Run(text, from, m, t, first, lastToast, lastLen)))]
  {
    hide ZgdbFile.Standing;
    ghost var v, rest := file.View(), Run(text, from, m, t, first, lastToast, lastLen);
    ghost var slots := v[t].slots;
    ghost var goal := PutRun(slots, first, rest);
    var slot: nat, piece: nat, left: nat := first, from, m;
    while left > 0
      invariant file.Standing() && file.View() == v[t := v[t].(slots := slots)]
      invariant slot + left == first + m && piece + left == from + m
      invariant rest == Run(text, piece, left, t, slot, lastToast, lastLen)
      invariant PutRun(slots, slot, rest) == goal
    {
      var chunk;
      if left == 1 {
        chunk := Chunk(PieceData(text, piece, lastLen), lastToast, 0);
      } else {
        chunk := Chunk(PieceData(text, piece, CHUNK_SIZE), t, (slot + 1) * SLOT);
      }
      slots := WriteRunChunk(file, t, slot * SLOT, chunk, v, slots);
      rest := rest[1..];
      slot, piece, left := slot + 1, piece + 1, left - 1;
    }
  }

  method WriteRunChunk(file: ZgdbFile, t: nat, offset: nat, chunk: Chunk, ghost v: View, ghost slots: map<nat, Chunk>)
    returns (ghost slots': map<nat, Chunk>)
    requires file.Standing() && t in v && v[t].Toast? && file.View() == v[t := v[t].(slots := slots)]
    requires TOAST_HEADER + offset + SLOT <= v[t].capacity
    modifies file`blocks
    ensures slots' == slots[offset := chunk]
    ensures file.Standing() && file.View() == v[t := v[t].(slots := slots')]
  {
    WriteSlot(file, Slot(t, offset), chunk);
    slots' := slots[offset := chunk];
  }

  // ---------- rewriting a chain in place ----------

  /** What happens to the last rewritten chunk's link: kept, its offset replaced, or led to another toast. */
  datatype Link = Keep | SetOffset(nextOffset: nat) | LeadTo(toastIndex: nat, nextOffset: nat)

  function Relinked(chunk: Chunk, link: Link): Chunk {
    match link
    case Keep => chunk
    case SetOffset(next) => chunk.(nextOffset := next)
    case LeadTo(t, next) => chunk.(toastIndex := t, nextOffset := next)
  }

  /** Everything about an attached block but the contents of its slots. */
  ghost predicate SameShell(v: View, w: View, o: nat) {
    && (o in v <==> o in w)
    && (o in v ==> if v[o].Toast? then w[o].Toast? && w[o] == v[o].(slots := w[o].slots) else w[o] == v[o])
  }

  ghost predicate SameChunk(v: View, w: View, s: Slot) {
    HasChunk(v, s) ==> HasChunk(w, s) && ChunkAt(w, s) == ChunkAt(v, s)
  }

  /** Whatever slot s of a toast holds, it holds in both views. */
  ghost predicate SameSlot(v: View, w: View, s: Slot) {
    s.toast in v && v[s.toast].Toast? ==>
      && s.toast in w && w[s.toast].Toast?
      && (s.offset in v[s.toast].slots <==> s.offset in w[s.toast].slots)
      && (s.offset in v[s.toast].slots ==> w[s.toast].slots[s.offset] == v[s.toast].slots[s.offset])
  }

  ghost predicate KeptOutside(v: View, w: View, c: seq<Slot>, s: Slot) {
    s !in c ==> SameSlot(v, w, s)
  }

  /** Slot i of chain c, of which the first k slots have been rewritten with pieces of text. */
  ghost predicate ChunkState(v: View, w: View, c: seq<Slot>, text: seq<byte>, link: Link, k: nat, i: nat)
    requires i < |c|
  {
    HasChunk(v, c[i]) ==>
      if i < k then
        && Carries(w, c[i], text, i)
        && NextSlot(w, c[i]) == NextOf(Relinked(ChunkAt(v, c[i]), if i == |c| - 1 then link else Keep))
      else SameChunk(v, w, c[i])
  }

  ghost function NextOf(chunk: Chunk): Slot {
    Slot(chunk.toastIndex, chunk.nextOffset)
  }

  /** The first k slots of chain c carry the pieces of text; nothing else has changed. */
  ghost predicate Rewritten(v: View, w: View, c: seq<Slot>, text: seq<byte>, link: Link, k: nat) {
    && (forall o: nat :: SameShell(v, w, o))
    && (forall s: Slot :: KeptOutside(v, w, c, s))
    && (forall i: nat {:trigger ChunkState(v, w, c, text, link, k, i)} :: i < |c| ==>
        ChunkState(v, w, c, text, link, k, i))
  }

  /** The new contents of a rewritten chunk: `len` bytes copied over the old data. */
  function NewData(was: seq<byte>, text: seq<byte>, i: nat, len: nat): (d: seq<byte>)
    requires len <= |was| && CHUNK_SIZE * i + len <= |text|
    ensures |d| == |was|
  {
    text[CHUNK_SIZE * i..CHUNK_SIZE * i + len] + was[len..]
  }

  lemma RewriteStep(v: View, w: View, c: seq<Slot>, text: seq<byte>, link: Link, k: nat, len: nat)
    returns (chunk: Chunk)
    requires k < |c| ==> Inside(v, c[k])
    requires AllPresent(v, c) && NoDuplicates(c) && k < |c| && Rewritten(v, w, c, text, link, k)
    requires len <= CHUNK_SIZE && CHUNK_SIZE * k + len <= |text|
    requires len == CHUNK_SIZE || CHUNK_SIZE * k + len == |text|
    ensures HasChunk(w, c[k]) && ChunkAt(w, c[k]) == ChunkAt(v, c[k]) && Inside(w, c[k])
    ensures chunk == Relinked(ChunkAt(w, c[k]).(data := NewData(ChunkAt(w, c[k]).data, text, k, len)),
                              if k == |c| - 1 then link else Keep)
    ensures Rewritten(v, PutChunk(w, c[k], chunk), c, text, link, k + 1)
    ensures NextSlot(PutChunk(w, c[k], chunk), c[k]) == NextOf(chunk)
  {
    assert HasChunk(v, c[k]) && SameShell(v, w, c[k].toast);
    assert ChunkState(v, w, c, text, link, k, k);
    chunk := Relinked(ChunkAt(w, c[k]).(data := NewData(ChunkAt(w, c[k]).data, text, k, len)),
                      if k == |c| - 1 then link else Keep);
    var x, next := PutChunk(w, c[k], chunk), k + 1;
    forall o: nat ensures SameShell(v, x, o) {
      assert SameShell(v, w, o);
    }
    forall s: Slot ensures KeptOutside(v, x, c, s) {
      assert KeptOutside(v, w, c, s);
    }
    forall i: nat | i < |c| ensures ChunkState(v, x, c, text, link, next, i) {
      RewriteStepAt(v, w, x, c, text, link, k, len, i);
    }
  }

  lemma RewriteStepAt(v: View, w: View, x: View, c: seq<Slot>, text: seq<byte>, link: Link, k: nat, len: nat, i: nat)
    requires AllPresent(v, c) && NoDuplicates(c) && k < |c| && i < |c|
    requires ChunkState(v, w, c, text, link, k, i)
    requires HasChunk(w, c[k]) && ChunkAt(w, c[k]) == ChunkAt(v, c[k])
    requires len <= CHUNK_SIZE && CHUNK_SIZE * k + len <= |text|
    requires len == CHUNK_SIZE || CHUNK_SIZE * k + len == |text|
    requires x == PutChunk(w, c[k], Relinked(ChunkAt(w, c[k]).(data := NewData(ChunkAt(w, c[k]).data, text, k, len)),
                                             if k == |c| - 1 then link else Keep))
    ensures ChunkState(v, x, c, text, link, k + 1, i)
  {
    if i < k { NoDuplicatesAt(c, i, k); }
    if k < i { NoDuplicatesAt(c, k, i); }
    if i == k {
      assert HasChunk(x, c[k]);
    }
  }

  /** The loop of updateElement that overwrites the first n chunks of a text in place: whole pieces, and `lastLen`
      bytes of the last one. Returns the toast it ends in. `stay` is the variant that does not follow the last link. */
  method RewriteChunks(file: ZgdbFile, firstToastIndex: nat, offsetInToast: nat, n: nat, text: seq<byte>, lastLen: nat,
                       link: Link, stay: bool) returns (current: nat)
    requires file.Standing()
    requires var c := Chain(file.View(), Slot(firstToastIndex, offsetInToast), n);
             && AllPresent(file.View(), c) && NoDuplicates(c)
             && forall s :: s in c ==> Inside(file.View(), s)
    requires n > 0 && lastLen <= CHUNK_SIZE && CHUNK_SIZE * (n - 1) + lastLen <= |text|
    requires lastLen == CHUNK_SIZE || CHUNK_SIZE * (n - 1) + lastLen == |text|
    modifies file`blocks
    ensures file.Standing()
    ensures var c := Chain(old(file.View()), Slot(firstToastIndex, offsetInToast), n);
            && Rewritten(old(file.View()), file.View(), c, text, link, n)
            && AllPresent(old(file.View()), c)
            && current == if stay then c[n - 1].toast
                          else NextOf(Relinked(ChunkAt(old(file.View()), c[n - 1]), link)).toast
  {
    hide ChunkState;
    ghost var v := file.View();
    ghost var c := Chain(v, Slot(firstToastIndex, offsetInToast), n);
    var nextOffset := offsetInToast;
    current := firstToastIndex;
    RewrittenStart(v, c, text, link);
    for count := 0 to n
      invariant file.Standing() && Rewritten(v, file.View(), c, text, link, count)
      invariant count < n ==> Slot(current, nextOffset) == c[count]
      invariant count == n ==> current == if stay then c[n - 1].toast
                                          else NextOf(Relinked(ChunkAt(v, c[n - 1]), link)).toast
    {
      ChainStep(v, Slot(firstToastIndex, offsetInToast), n, count);
      var len := if count == n - 1 then lastLen else CHUNK_SIZE;
      ghost var expected := RewriteStep(v, file.View(), c, text, link, count, len);
      var chunk := RewriteChunk(file, Slot(current, nextOffset), text, count, len,
                                if count == n - 1 then link else Keep);
      assert chunk == expected;
      if chunk.toastIndex == current {
        nextOffset := chunk.nextOffset;
      } else if count != n - 1 || !stay {
        current := chunk.toastIndex;
        nextOffset := chunk.nextOffset;
      }
    }
  }

  lemma RewrittenStart(v: View, c: seq<Slot>, text: seq<byte>, link: Link)
    ensures Rewritten(v, v, c, text, link, 0)
  {
  }

  method RewriteChunk(file: ZgdbFile, s: Slot, text: seq<byte>, i: nat, len: nat, link: Link) returns (chunk: Chunk)
    requires file.Standing() && HasChunk(file.View(), s) && Inside(file.View(), s)
    requires len <= CHUNK_SIZE && CHUNK_SIZE * i + len <= |text|
    modifies file`blocks
    ensures file.Standing()
    ensures var was := ChunkAt(old(file.View()), s);
            && chunk == Relinked(was.(data := NewData(was.data, text, i, len)), link)
            && file.View() == PutChunk(old(file.View()), s, chunk)
  {
    var tempChunk := ReadSlot(file, s);
    chunk := Relinked(tempChunk.(data := NewData(tempChunk.data, text, i, len)), link);
    WriteSlot(file, s, chunk);
  }
}
