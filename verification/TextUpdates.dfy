/** updateElement: changing the value of one element of a document. */
module TextUpdates {
  import opened Blocks
  import opened FreeLists
  import opened Tilings
  import opened Texts
  import opened TextFiles
  import opened Records
  import opened Schemas
  import opened Forests
  import opened Catalogs
  import opened Storage
  import opened TextThreads

  /** Writes element i where document o lies; a block that was lost there stays lost. */
  method SetElement(file: ZgdbFile, o: nat, i: nat, e: Stored)
    requires o < |file.index|
    modifies file`blocks
    ensures old(file.Standing()) && IsDoc(old(file.View()), o) && i < |old(file.View())[o].elements| ==>
              file.Standing() && file.View() == WithElement(old(file.View()), o, i, e)
    ensures file.blocks.Keys == old(file.blocks).Keys
    ensures forall a :: a in file.blocks && a != file.index[o].offset ==> file.blocks[a] == old(file.blocks)[a]
    ensures forall a :: a in file.blocks ==> Capacity(file.blocks[a]) == Capacity(old(file.blocks)[a])
  {
    ghost var d := file.Image();
    var offset := file.GetIndex(o).offset;
    if offset in file.blocks && file.blocks[offset].Document? && i < |file.blocks[offset].elements| {
      var b := file.blocks[offset];
      if file.Standing() && o in file.View() {
        assert d.Listed(o);
        Disks.RewrittenOk(d, o, Document(b.header, b.elements[i := e]));
        Disks.RewrittenFree(d, o, Document(b.header, b.elements[i := e]), file.freeList.entries);
      }
      file.blocks := file.blocks[offset := Document(b.header, b.elements[i := e])];
      assert old(file.Standing()) && o in old(file.View()) ==>
          file.Image() == Disks.Rewritten(d, o, Document(b.header, b.elements[i := e]));
    }
  }

  /** Document o with another element i. */
  ghost function WithElement(v: View, o: nat, i: nat, e: Stored): View
    requires IsDoc(v, o) && i < |v[o].elements|
  {
    v[o := Document(v[o].header, v[o].elements[i := e])]
  }

  // ---------- where an update starts ----------

  /** The edit of element i's text, before anything is written. */
  ghost function EditOf(v: View, owner: Owners, o: nat, i: nat, n: nat, text: seq<byte>): Edit
    requires IsDoc(v, o) && i < |v[o].elements| && v[o].elements[i].SText?
  {
    var t, e := FirstToast(v, o), v[o].elements[i];
    Edit(v, owner, o, n, ChainOf(v, t, e), Slot(t, e.offsetInToast), text)
  }

  /** All slots lie inside their toasts. */
  ghost predicate AllInside(view: View, c: seq<Slot>) {
    forall s :: s in c ==> Inside(view, s)
  }

  ghost predicate IsText(v: View, o: nat, i: nat) {
    IsDoc(v, o) && i < |v[o].elements| && v[o].elements[i].SText?
  }

  lemma EditStart(v: View, index: seq<IndexEntry>, tree: Forest, owner: Owners, o: nat, i: nat, text: seq<byte>)
    requires RecordsOk(v, index, tree, owner) && o in Orders(tree) && IsText(v, o, i)
    ensures var ed := EditOf(v, owner, o, i, 0, text);
            && Targets(ed, i) && Readied(ed, v) && DocOk(v, owner, o) && ed.NewOwners() == owner
            && AllPresent(v, ed.was) && AllInside(v, ed.was)
            && v[o].elements[i].size > 0 && o != 0
  {
    EncodesOrders(v, v[0].header.indexSon, tree);
    NodeFacts(v, index, tree, owner, o);
    SidesBefore(v, owner, o, i);
    var ed := EditOf(v, owner, o, i, 0, text);
    SlotsPresent(v, owner, o, ed.was);
    forall t: nat ensures OwnToastOk(v, owner, o, t) {
      assert ToastOk(v, index, tree, owner, t);
    }
    forall s | s in ed.was ensures Inside(v, s) {
      assert SlotOk(v, owner, o, s) && OwnToastOk(v, owner, o, s.toast);
    }
  }

  /** A toast list whose toasts keep their headers. */
  lemma RewrittenList(v: View, w: View, owner: Owners, o: nat, t: nat, l: seq<nat>, c: seq<Slot>, text: seq<byte>,
                      link: Link, k: nat)
    requires ToastListOk(v, owner, o, t, l) && Rewritten(v, w, c, text, link, k)
    ensures ToastListOk(w, owner, o, t, l)
  {
    forall x | x in l ensures SameNext(v, w, x) && Owns(w, owner, o, x) {
      assert Owns(v, owner, o, x) && SameShell(v, w, x);
    }
    ToastListFrame(v, w, t, l);
  }

  // ---------- the text keeps its chunks, or some of them ----------

  /** The text is stored under this size in the first chunks it already has. */
  ghost predicate FitsItsChunks(e: Stored, input: CString, size: nat) {
    && e.SText? && 0 < Chunks(size) <= Chunks(e.size)
    && (size == TextSize(input) || size == PaddedSize(TextSize(input)))
  }

  lemma LastLength(input: CString, size: nat)
    requires size == TextSize(input) || size == PaddedSize(TextSize(input))
    ensures var n := Chunks(size);
            n > 0 && CHUNK_SIZE * (n - 1) + TextSize(input) % CHUNK_SIZE == |CarriedBytes(input, size)|
  {
  }

  /** The loop of the branches that need no more chunks. */
  method RewriteOwn(file: ZgdbFile, firstToastIndex: nat, e: Stored, input: CString, size: nat, ghost ed: Edit,
                    ghost l: seq<nat>)
    requires file.Standing() && ed.v == file.View() && ed.n == 0 && FitsItsChunks(e, input, size)
    requires Readied(ed, ed.v) && AllPresent(ed.v, ed.was) && AllInside(ed.v, ed.was)
    requires ed.s == Slot(firstToastIndex, e.offsetInToast) && ed.was == Chain(ed.v, ed.s, Chunks(e.size))
    requires ed.text == CarriedBytes(input, size)
    requires ToastListOk(ed.v, ed.owner, ed.o, firstToastIndex, l)
    modifies file`blocks
    ensures file.Standing() && ed.Threaded(file.View(), Chunks(size)) && ed.Around(file.View())
    ensures ToastListOk(file.View(), ed.owner, ed.o, firstToastIndex, l)
  {
    ghost var n := Chunks(size);
    ChainPrefix(ed.v, ed.s, n, |ed.was|);
    assert ed.was == ed.was[..n] + ed.was[n..];
    NoDuplicatesConcat(ed.was[..n], ed.was[n..]);
    LastLength(input, size);
    var _ := RewriteChunks(file, firstToastIndex, e.offsetInToast, Chunks(size), CarriedBytes(input, size),
                           TextSize(input) % CHUNK_SIZE, Keep, false);
    RewrittenThreaded(ed, ed.v, file.View(), n, Keep);
    RewrittenList(ed.v, file.View(), ed.owner, ed.o, firstToastIndex, l, Chain(ed.v, ed.s, n), ed.text, Keep, n);
  }

  /** Equal length, shorter, or longer without more chunks. */
  method RewriteInPlace(file: ZgdbFile, o: nat, firstToastIndex: nat, i: nat, e: Stored, input: CString, size: nat)
    requires Consistent(file) && o in Orders(file.tree) && IsText(file.View(), o, i) && NulFree(input)
    requires firstToastIndex == FirstToast(file.View(), o) && e == file.View()[o].elements[i]
    requires FitsItsChunks(e, input, size)
    modifies file`blocks
    ensures Consistent(file)
    ensures FieldUpdated(old(file.View()), file.View(), file.tree, o, i, TextValue(ReadsAs(input, size)))
    ensures file.View()[o].elements == old(file.View())[o].elements[i := e.(size := size)]
  {
    hide ZgdbFile.Standing;
    ghost var v, text := file.View(), CarriedBytes(input, size);
    ghost var ed := EditOf(v, file.owner, o, i, 0, text);
    EditStart(v, file.index, file.tree, file.owner, o, i, text);
    ghost var l :| ToastListOk(v, file.owner, o, firstToastIndex, l);
    RewriteOwn(file, firstToastIndex, e, input, size, ed, l);
    FinishInPlace(file, o, i, e, size, input, ed, l);
  }

  /** The end of an update that needs no new toast: writes the element's header. */
  method FinishInPlace(file: ZgdbFile, o: nat, i: nat, e: Stored, size: nat, input: CString, ghost ed: Edit,
                       ghost l: seq<nat>)
    requires file.Standing() && file.zeroed == {} && file.nodes == 1 + Size(file.tree)
    requires RecordsOk(ed.v, file.index, file.tree, file.owner) && o in Orders(file.tree) && DocOk(ed.v, file.owner, o)
    requires ed.n == 0 && ed.o == o && ed.owner == file.owner && Targets(ed, i) && e == ed.v[o].elements[i]
    requires NulFree(input) && ed.text == CarriedBytes(input, size)
    requires size == TextSize(input) || size == PaddedSize(TextSize(input))
    requires ed.Around(file.View()) && ed.Threaded(file.View(), Chunks(size))
    requires ToastListOk(file.View(), file.owner, o, FirstToast(ed.v, o), l)
    modifies file`blocks
    ensures Consistent(file)
    ensures FieldUpdated(ed.v, file.View(), file.tree, o, i, TextValue(ReadsAs(input, size)))
    ensures file.View()[o].elements == ed.v[o].elements[i := e.(size := size)]
  {
    hide ZgdbFile.Standing, ToastListOk, Edit.Threaded, DocOk;
    ghost var w := file.View();
    Completed(ed, w, i, input, size, l, file.index, file.index, file.tree);
    WriteSize(file, o, i, e, size, ed.v[o].header, ed.v[o].elements, Resized(ed, w, i, size));
  }

  /** Writes the element's header unless the size is the same. */
  method WriteSize(file: ZgdbFile, o: nat, i: nat, e: Stored, size: nat, ghost header: Header, ghost es: seq<Stored>,
                   ghost w: View)
    requires file.Standing() && file.nodes == 1 + Size(file.tree)
    requires o in file.View() && file.View()[o] == Document(header, es) && i < |es| && es[i] == e && e.SText?
    requires w == file.View()[o := Document(header, es[i := e.(size := size)])]
    requires RecordsOk(w, file.index, file.tree, file.owner)
    modifies file`blocks
    ensures Restorable(file) && file.View() == w
  {
    if size != e.size {
      SetElement(file, o, i, e.(size := size));
    } else {
      assert es[i := e.(size := size)] == es;
      assert file.View() == w;
    }
  }

  // ---------- how long a longer text gets ----------

  /** What updateElement makes of a text that gets longer: the size it stores, the chunks that takes, and the bytes of
      the input it copies into the last one. */
  datatype Lengths = Lengths(stored: nat, chunks: nat, rest: nat)

  /** The increments of newLength and of the two chunk counts, in the order of the code. */
  function LongerLengths(oldLength: nat, newLength: nat): Lengths {
    var counted := if oldLength % CHUNK_SIZE == 0 then newLength + 1 else newLength;
    var rest := counted % CHUNK_SIZE;
    Lengths(if rest == 0 then counted + 1 else counted, counted / CHUNK_SIZE + 1, rest)
  }

  /** The update copies no more bytes than the input has, terminator included, exactly if the stored size was not a
      multiple of 32; then size and chunks are what the model takes them to be. Otherwise it reads one byte past the
      input. */
  lemma LongerReadsWithin(oldLength: nat, input: CString)
    requires oldLength < TextSize(input)
    ensures var l := LongerLengths(oldLength, TextSize(input));
            var copied := CHUNK_SIZE * (l.chunks - 1) + l.rest;
            && (copied <= TextSize(input) <==> oldLength % CHUNK_SIZE != 0)
            && (oldLength % CHUNK_SIZE == 0 ==> copied == TextSize(input) + 1)
            && (oldLength % CHUNK_SIZE != 0 ==>
                  l.stored == PaddedSize(TextSize(input)) && l.chunks == Chunks(l.stored) && copied == TextSize(input))
  {
    var n := TextSize(input);
    assert n == CHUNK_SIZE * (n / CHUNK_SIZE) + n % CHUNK_SIZE;
    assert n + 1 == CHUNK_SIZE * ((n + 1) / CHUNK_SIZE) + (n + 1) % CHUNK_SIZE;
  }

  // ---------- the text needs more chunks ----------

  /** The text gets longer, and longer than the chunks it has. */
  predicate NeedsMore(e: Stored, input: CString) {
    e.SText? && TextSize(input) > e.size && Chunks(PaddedSize(TextSize(input))) > Chunks(e.size)
  }

  lemma GrownLengths(e: Stored, input: CString)
    requires NeedsMore(e, input) && e.size % CHUNK_SIZE != 0
    ensures var m, n, size := Chunks(e.size), Chunks(PaddedSize(TextSize(input))), PaddedSize(TextSize(input));
            && 0 < m < n && CHUNK_SIZE * (m - 1) + CHUNK_SIZE <= |input + [0]|
            && CHUNK_SIZE * (n - 1) + TextSize(input) % CHUNK_SIZE == |input + [0]|
            && CarriedBytes(input, size) == input + [0] && ReadsAs(input, size) == input
  {
  }

  /** The rewriting loops of the growing branches: every chunk the text has is filled, the last one is relinked. */
  method RewriteFull(file: ZgdbFile, firstToastIndex: nat, e: Stored, input: CString, link: Link, stay: bool,
                     ghost ed: Edit, ghost l: seq<nat>) returns (current: nat)
    requires file.Standing() && NeedsMore(e, input) && e.size % CHUNK_SIZE != 0
    requires Readied(ed, file.View()) && AllPresent(file.View(), ed.was) && AllInside(file.View(), ed.was)
    requires ed.s == Slot(firstToastIndex, e.offsetInToast) && ed.was == Chain(file.View(), ed.s, Chunks(e.size))
    requires ed.text == input + [0] && firstToastIndex == FirstToast(ed.v, ed.o)
    requires ToastListOk(file.View(), ed.NewOwners(), ed.o, firstToastIndex, l)
    requires link.LeadTo? ==>
              var v := file.View(); firstToastIndex in v && v[firstToastIndex].Toast? && Left(v[firstToastIndex]) == 0
    modifies file`blocks
    ensures file.Standing() && ed.Threaded(file.View(), Chunks(e.size)) && ed.Around(file.View())
    ensures ToastListOk(file.View(), ed.NewOwners(), ed.o, firstToastIndex, l)
    ensures var m := Chunks(e.size); var last := ChunkAt(old(file.View()), ed.was[m - 1]);
            && m > 0 && Chain(file.View(), ed.s, m) == ed.was
            && NextSlot(file.View(), ed.was[m - 1]) == NextOf(TextFiles.Relinked(last, link))
            && current == if stay then ed.was[m - 1].toast else NextOf(TextFiles.Relinked(last, link)).toast
    ensures Rewritten(old(file.View()), file.View(), ed.was, ed.text, link, |ed.was|)
  {
    ghost var v, m := file.View(), Chunks(e.size);
    GrownLengths(e, input);
    current := RewriteChunks(file, firstToastIndex, e.offsetInToast, Chunks(e.size), input + [0], CHUNK_SIZE, link,
                             stay);
    FullRewritten(ed, v, file.View(), m, link, l);
  }

  lemma FullRewritten(ed: Edit, v: View, w: View, m: nat, link: Link, l: seq<nat>)
    requires Readied(ed, v) && m == |ed.was| > 0 && ed.was == Chain(v, ed.s, m)
    requires Rewritten(v, w, ed.was, ed.text, link, m)
    requires ToastListOk(v, ed.NewOwners(), ed.o, FirstToast(ed.v, ed.o), l)
    requires link.LeadTo? ==> var t := FirstToast(ed.v, ed.o); t in v && v[t].Toast? && Left(v[t]) == 0
    ensures ed.Threaded(w, m) && ed.Around(w) && ToastListOk(w, ed.NewOwners(), ed.o, FirstToast(ed.v, ed.o), l)
    ensures HasChunk(v, ed.was[m - 1]) && Chain(w, ed.s, m) == ed.was
    ensures NextSlot(w, ed.was[m - 1]) == NextOf(TextFiles.Relinked(ChunkAt(v, ed.was[m - 1]), link))
  {
    assert ed.was[..m] == ed.was;
    RewrittenThreaded(ed, v, w, m, link);
    RewrittenList(v, w, ed.NewOwners(), ed.o, FirstToast(ed.v, ed.o), l, ed.was, ed.text, link, m);
  }

  /** A loop that appends chunks to a toast, and the header written after it. */
  method AppendAndCount(file: ZgdbFile, t: nat, used: nat, nextToastIndex: nat, text: seq<byte>, from: nat, k: nat,
                        lastToast: nat, lastLen: nat)
    returns (ghost used': nat)
    requires file.Standing() && t in file.View() && file.View()[t].Toast?
    requires used == file.View()[t].used && nextToastIndex == file.View()[t].nextToastIndex
    requires TOAST_HEADER + (used + k) * SLOT <= file.View()[t].capacity
    requires lastLen <= CHUNK_SIZE && (k > 0 ==> CHUNK_SIZE * (from + k - 1) + lastLen <= |text|)
    modifies file`blocks, file`zeroed
    ensures file.Standing() && used' == used + k
    ensures t < |file.index| && file.zeroed == old(file.zeroed) - {file.index[t].offset}
    ensures file.View() == WithRun(old(file.View()), t, text, from, k, used, used', lastToast, lastLen)
  {
    hide ZgdbFile.Standing;
    ghost var v := file.View();
    AppendChunks(file, t, used, text, from, k, lastToast, lastLen);
    var total := used + k;
    WriteToastHeader(file, t, total, nextToastIndex);
    used' := total;
  }

  /** A chain that starts in a toast no chunk leads out of stays there. */
  lemma {:induction false} ChainAtHome(v: View, t: nat, s: Slot, n: nat)
    requires Home(v, t) && s.toast == t && AllPresent(v, Chain(v, s, n))
    ensures forall x :: x in Chain(v, s, n) ==> x.toast == t && ChunkAt(v, x).toastIndex == t
    decreases n
  {
    if n > 0 {
      assert Chain(v, s, n) == [s] + Chain(v, NextSlot(v, s), n - 1);
      ChainAtHome(v, t, NextSlot(v, s), n - 1);
    }
  }

  /** The chunks the text lacks. */
  function Lacking(e: Stored, input: CString): int
    requires e.SText?
  {
    Chunks(PaddedSize(TextSize(input))) - Chunks(e.size)
  }

  /** The text's first toast, before a growth. */
  lemma FirstToastFacts(v: View, index: seq<IndexEntry>, tree: Forest, owner: Owners, o: nat, i: nat)
    requires RecordsOk(v, index, tree, owner) && o in Orders(tree) && IsText(v, o, i)
    ensures var t := FirstToast(v, o);
            && Owns(v, owner, o, t) && ToastFits(v[t]) && Settled(v, o, t) && t != o
            && (Left(v[t]) > 0 ==> Home(v, t))
  {
    EditStart(v, index, tree, owner, o, i, []);
    var s := EditOf(v, owner, o, i, 0, []).was[0];
    assert SlotOk(v, owner, o, s) && ToastOk(v, index, tree, owner, s.toast);
  }

  /** A toast has k free slots exactly if so many of 46 bytes fit behind its header of 32 and its used slots. */
  lemma RoomFor(b: Block, k: nat)
    requires b.Toast? && b.capacity >= 32
    ensures k <= Left(b) <==> 32 + (b.used + k) * 46 <= b.capacity
  {
  }

  /** The run that holds what did not fit the old chunks. */
  lemma RunBehind(ed: Edit, w: View, m: nat, k: nat, n: nat, t: nat, used: nat, used': nat, lastLen: nat, l: seq<nat>)
    requires ed.Threaded(w, m) && ed.Around(w) && m > 0 && k > 0 && n == m + k && t != ed.o
    requires Owns(w, ed.NewOwners(), ed.o, t) && Home(w, t) && ToastFits(w[t])
    requires w[t].used == used && used' == used + k && k <= Left(w[t]) && ed.Uncounted(t, used)
    requires NextSlot(w, Chain(w, ed.s, m)[m - 1]) == Slot(t, used * SLOT)
    requires lastLen <= CHUNK_SIZE && CHUNK_SIZE * (m + k - 1) + lastLen == |ed.text|
    requires t == FirstToast(ed.v, ed.o) && ToastListOk(w, ed.NewOwners(), ed.o, t, l)
    ensures var w' := WithRun(w, t, ed.text, m, k, used, used', t, lastLen);
            && ed.Threaded(w', n) && ed.Around(w') && ToastListOk(w', ed.NewOwners(), ed.o, t, l)
  {
    var w' := WithRun(w, t, ed.text, m, k, used, used', t, lastLen);
    RunHome(w[t].slots, ed.text, m, k, t, used, lastLen);
    RoomFor(w[t], k);
    Appended(ed, w, m, k, n, t, used, used', t, lastLen);
    forall x | x in l ensures SameNext(w, w', x) && Owns(w', ed.NewOwners(), ed.o, x) {
      assert Owns(w, ed.NewOwners(), ed.o, x);
    }
    ToastListFrame(w, w', t, l);
  }

  /** Fills the text's chunks and puts the ones it lacks behind the used slots of its toast. */
  method ExtendInToast(file: ZgdbFile, firstToastIndex: nat, e: Stored, input: CString, ghost ed: Edit,
                       ghost l: seq<nat>)
    requires file.Standing() && file.zeroed == {} && ed.v == file.View() && ed.n == 0
    requires NeedsMore(e, input) && e.size % CHUNK_SIZE != 0
    requires Readied(ed, ed.v) && AllPresent(ed.v, ed.was) && AllInside(ed.v, ed.was)
    requires ed.s == Slot(firstToastIndex, e.offsetInToast) && ed.was == Chain(ed.v, ed.s, Chunks(e.size))
    requires ed.text == input + [0] && firstToastIndex == FirstToast(ed.v, ed.o) != ed.o
    requires ToastListOk(ed.v, ed.owner, ed.o, firstToastIndex, l)
    requires Owns(ed.v, ed.owner, ed.o, firstToastIndex) && ToastFits(ed.v[firstToastIndex])
    requires Home(ed.v, firstToastIndex)
    requires Left(ed.v[firstToastIndex]) >= Lacking(e, input)
    modifies file`blocks, file`zeroed
    ensures file.Standing() && file.zeroed == {} && ed.Threaded(file.View(), Chunks(PaddedSize(TextSize(input))))
    ensures ed.Around(file.View())
    ensures ToastListOk(file.View(), ed.owner, ed.o, firstToastIndex, l)
  {
    hide Edit.Around, Readied;
    ghost var v, t, m, n := file.View(), firstToastIndex, Chunks(e.size), Chunks(PaddedSize(TextSize(input)));
    GrownLengths(e, input);
    ChainAtHome(v, t, ed.s, m);
    var tempCurrentToast := file.ReadBlock(firstToastIndex);
    var used, req := tempCurrentToast.used, Chunks(PaddedSize(TextSize(input))) - Chunks(e.size);
    var current := RewriteFull(file, firstToastIndex, e, input, SetOffset(used * SLOT), false, ed, l);
    ghost var w := file.View();
    assert SameShell(v, w, t);
    RewrittenHome(v, w, ed.was, ed.text, SetOffset(used * SLOT), t);
    RoomFor(w[t], req);
    ghost var used' := AppendAndCount(file, current, used, tempCurrentToast.nextToastIndex, input + [0], Chunks(e.size),
                                      req,
                                      current, TextSize(input) % CHUNK_SIZE);
    RunBehind(ed, w, m, req, n, t, used, used', TextSize(input) % CHUNK_SIZE, l);
  }

  /** The document's first toast has room for the chunks the text lacks. */
  method GrowInToast(file: ZgdbFile, o: nat, firstToastIndex: nat, i: nat, e: Stored, input: CString)
    requires Consistent(file) && o in Orders(file.tree) && IsText(file.View(), o, i) && NulFree(input)
    requires firstToastIndex == FirstToast(file.View(), o) && e == file.View()[o].elements[i]
    requires NeedsMore(e, input) && e.size % CHUNK_SIZE != 0
    requires firstToastIndex in file.View() && file.View()[firstToastIndex].Toast?
    requires Left(file.View()[firstToastIndex]) >= Lacking(e, input)
    modifies file`blocks, file`zeroed
    ensures Consistent(file)
    ensures FieldUpdated(old(file.View()), file.View(), file.tree, o, i, TextValue(input))
    ensures file.View()[o].elements == old(file.View())[o].elements[i := e.(size := PaddedSize(TextSize(input)))]
  {
    hide ZgdbFile.Standing;
    var newLength := PaddedSize(TextSize(input));
    ghost var v, text := file.View(), input + [0];
    ghost var ed := EditOf(v, file.owner, o, i, 0, text);
    GrownLengths(e, input);
    FirstToastFacts(v, file.index, file.tree, file.owner, o, i);
    EditStart(v, file.index, file.tree, file.owner, o, i, text);
    ghost var l :| ToastListOk(v, file.owner, o, firstToastIndex, l);
    ExtendInToast(file, firstToastIndex, e, input, ed, l);
    FinishInPlace(file, o, i, e, newLength, input, ed, l);
  }

  // ---------- the text spills into a new toast ----------

  /** The free list has a dead block of this size or more. */
  ghost predicate Fits(s: seq<Entry>, size: nat) {
    s != [] && s[|s| - 1].size >= size
  }

  ghost function Largest(s: seq<Entry>): nat {
    if s == [] then 0 else s[|s| - 1].size
  }

  /** createNewToast: the toast takes the largest dead block if that has the size asked for; otherwise it is appended,
      with exactly that size. */
  method CreateNewToast(file: ZgdbFile, size: nat) returns (newToastIndex: nat, ghost capacity: nat)
    requires file.Valid() && size >= TOAST_HEADER && Relevant(file.freeList.entries, size).Some?
    modifies file`index, file`blocks, file`zeroed, file`fileSize, file`layout, file.freeList.Repr
    ensures file.Standing() && fresh(file.freeList.Repr - old(file.freeList.Repr))
    ensures Spent(old(file.freeList.entries), file.freeList.entries, 1)
    ensures Appeared(old(file.index), file.index, newToastIndex) && file.Whole(newToastIndex)
    ensures forall x: nat :: StaysAlive(old(file.index), file.index, x)
    ensures capacity == if Fits(old(file.freeList.entries), size) then Largest(old(file.freeList.entries)) else size
    ensures file.fileSize == old(file.fileSize) + if Fits(old(file.freeList.entries), size) then 0 else size
    ensures file.View() == old(file.View())[newToastIndex := ZgdbFile.EmptyToast(newToastIndex, capacity)]
    ensures var q := old(file.Struck(size));
            file.zeroed == ZgdbFile.OffsetOf(file.index, q) && ZgdbFile.Other(file.index, q, newToastIndex)
  {
    RelevantBest(file.freeList.entries, size);
    SpentOne(file.freeList.entries, size);
    capacity := if file.Chosen(size).size == 0 then size else file.Chosen(size).size;
    newToastIndex := file.PlaceToast(size, size);
  }

  /** The size of the toast a text of toast t spills into. */
  function SpillSize(v: View, t: nat, e: Stored, input: CString): int
    requires t in v && v[t].Toast? && e.SText?
  {
    Lacking(e, input) * SLOT + v[t].capacity
  }

  /** The view with a new empty toast n linked behind toast t. */
  ghost function WithSuccessor(v: View, t: nat, n: nat, capacity: nat): View
    requires t in v && v[t].Toast? && t != n
  {
    v[n := ZgdbFile.EmptyToast(n, capacity)][t := v[t].(nextToastIndex := n)]
  }

  lemma TwoToasts(v: View, owner: Owners, o: nat, t: nat, n: nat)
    requires Owns(v, owner, o, t) && Owns(v, owner, o, n) && t != n && t != 0 && n != 0
    requires v[t].nextToastIndex == n && v[n].nextToastIndex == 0
    ensures ToastListOk(v, owner, o, t, [t, n])
  {
    assert IsToastList(v, 0, [n][1..]) && IsToastList(v, n, [n]) && [t, n][1..] == [n];
  }

  /** A new toast changes nothing for the document's texts. */
  lemma SpillReady(v: View, index: seq<IndexEntry>, tree: Forest, owner: Owners, o: nat, i: nat, n: nat, capacity: nat,
                   text: seq<byte>)
    requires RecordsOk(v, index, tree, owner) && o in Orders(tree) && IsText(v, o, i)
    requires !IsAlive(index, n) && capacity >= TOAST_HEADER
    ensures var t, ed := FirstToast(v, o), EditOf(v, owner, o, i, n, text);
            && Owns(v, owner, o, t) && t != n && n != 0 && n !in owner && Targets(ed, i)
            && var v2 := WithSuccessor(v, t, n, capacity);
            && Readied(ed, v2) && AllPresent(v2, ed.was) && AllInside(v2, ed.was)
            && ed.was == Chain(v2, ed.s, |ed.was|)
            && ToastListOk(v2, ed.NewOwners(), o, t, [t, n])
  {
    hide NoDuplicates, ToastOk, DocOk;
    var t, ed := FirstToast(v, o), EditOf(v, owner, o, i, n, text);
    EditStart(v, index, tree, owner, o, i, text);
    FirstToastFacts(v, index, tree, owner, o, i);
    NotAliveFacts(v, index, tree, owner, n);
    assert ToastOk(v, index, tree, owner, t) && NodeOk(v, index, tree, owner, o);
    var v2, owner' := WithSuccessor(v, t, n, capacity), ed.NewOwners();
    forall s: Slot ensures KeptBeside(v, v2, owner, owner', o, [], s) {
    }
    forall s | s in ed.was ensures SlotOk(v2, owner', o, s) && Inside(v2, s) && NextSlot(v2, s) == NextSlot(v, s) {
      assert SlotOk(v, owner, o, s) && Inside(v, s) && KeptBeside(v, v2, owner, owner', o, [], s);
    }
    ChainFrame(v, v2, ed.s, |ed.was|);
    SlotsPresent(v2, owner', o, ed.was);
    forall x: nat ensures OwnToastOk(v2, owner', o, x) {
      assert OwnToastOk(v, owner, o, x);
    }
    TwoToasts(v2, owner', o, t, n);
  }

  /** The last chunk of the text under edit lies in the document's first toast. */
  ghost predicate LastAtHome(ed: Edit) {
    IsDoc(ed.v, ed.o) && ed.was != [] && ed.was[|ed.was| - 1].toast == FirstToast(ed.v, ed.o)
  }

  /** A new empty toast n is linked behind the document's first toast t, which has `left` free slots. */
  ghost predicate Spilling(ed: Edit, v2: View, t: nat, used: nat, left: nat, lacking: int) {
    && IsDoc(ed.v, ed.o) && t == FirstToast(ed.v, ed.o) != ed.o && ed.n != 0 && ed.n !in ed.owner && t != ed.n
    && ed.n != ed.o
    && Owns(v2, ed.NewOwners(), ed.o, t) && ToastFits(v2[t]) && v2[t].nextToastIndex == ed.n
    && v2[t].used == used && Left(v2[t]) == left < lacking && ed.Uncounted(t, used) && (left > 0 ==> Home(v2, t))
    && ed.n in v2 && v2[ed.n].Toast? && v2[ed.n] == ZgdbFile.EmptyToast(ed.n, v2[ed.n].capacity)
    && TOAST_HEADER + lacking * SLOT <= v2[ed.n].capacity
  }

  /** A spill of the text of element e, before anything of the text is written. */
  datatype Spill = Spill(ed: Edit, t: nat, e: Stored, input: CString, used: nat, left: nat) {
    ghost predicate Ready(v: View) {
      match this
      case Spill(ed, t, e, input, used, left) =>
        && NeedsMore(e, input) && e.size % CHUNK_SIZE != 0
        && Readied(ed, v) && AllPresent(v, ed.was) && AllInside(v, ed.was)
        && ed.s == Slot(t, e.offsetInToast) && ed.was == Chain(v, ed.s, Chunks(e.size))
        && ed.text == input + [0]
        && Spilling(ed, v, t, used, left, Lacking(e, input))
        && ToastListOk(v, ed.NewOwners(), ed.o, t, [t, ed.n])
    }
  }

  /** m chunks are rethreaded; the rest is to follow in the new toast. */
  ghost predicate Halfway(ed: Edit, w: View, m: nat, t: nat, room: nat) {
    && m > 0 && ed.Threaded(w, m) && ed.Around(w) && NextSlot(w, Chain(w, ed.s, m)[m - 1]) == Slot(ed.n, 0)
    && ToastListOk(w, ed.NewOwners(), ed.o, t, [t, ed.n])
    && t in w && w[t].Toast? && w[t].nextToastIndex == ed.n
    && ed.n in w && w[ed.n] == ZgdbFile.EmptyToast(ed.n, room)
  }

  lemma RewrittenHalfway(ed: Edit, v2: View, w: View, t: nat, used: nat, left: nat, lacking: int, m: nat, link: Link)
    requires Spilling(ed, v2, t, used, left, lacking)
    requires m == |ed.was| > 0 && ed.was == Chain(v2, ed.s, m) && Readied(ed, v2)
    requires Rewritten(v2, w, ed.was, ed.text, link, m)
    ensures SameShell(v2, w, t) && ed.n in w && w[ed.n] == v2[ed.n]
  {
    forall s | s in ed.was ensures s.toast != ed.n {
      assert SlotOk(v2, ed.NewOwners(), ed.o, s);
    }
    RewrittenBlock(v2, w, ed.was, ed.text, link, m, ed.n);
  }

  /** The first toast is filled up; the last chunk leads to the new toast. */
  lemma FilledHalfway(ed: Edit, w: View, m: nat, k: nat, n: nat, t: nat, used: nat, used': nat, room: nat)
    requires ed.Threaded(w, m) && ed.Around(w) && m > 0 && k > 0 && n == m + k
    requires t == FirstToast(ed.v, ed.o) != ed.o && t != ed.n
    requires Owns(w, ed.NewOwners(), ed.o, t) && ToastFits(w[t]) && w[t].nextToastIndex == ed.n
    requires w[t].used == used && used' == used + k && k == Left(w[t]) && ed.Uncounted(t, used)
    requires NextSlot(w, Chain(w, ed.s, m)[m - 1]) == Slot(t, used * SLOT)
    requires CHUNK_SIZE * (m + k - 1) + CHUNK_SIZE <= |ed.text|
    requires ToastListOk(w, ed.NewOwners(), ed.o, t, [t, ed.n])
    requires ed.n in w && w[ed.n] == ZgdbFile.EmptyToast(ed.n, room)
    ensures Halfway(ed, WithRun(w, t, ed.text, m, k, used, used', ed.n, CHUNK_SIZE), n, t, room)
  {
    var w' := WithRun(w, t, ed.text, m, k, used, used', ed.n, CHUNK_SIZE);
    RoomFor(w[t], k);
    Appended(ed, w, m, k, n, t, used, used', ed.n, CHUNK_SIZE);
    forall x | x in [t, ed.n] ensures SameNext(w, w', x) && Owns(w', ed.NewOwners(), ed.o, x) {
      assert Owns(w, ed.NewOwners(), ed.o, x);
    }
    ToastListFrame(w, w', t, [t, ed.n]);
  }

  /** The first part of a spill: fills the text's chunks and what is left of its toast. */
  method FillUp(file: ZgdbFile, firstToastIndex: nat, e: Stored, input: CString, used: nat, left: nat,
                newToastIndex: nat,
                ghost ed: Edit, ghost done: nat) returns (current: nat)
    requires file.Standing() && Spill(ed, firstToastIndex, e, input, used, left).Ready(file.View())
    requires ed.n == newToastIndex && done == Chunks(e.size) + left && file.Whole(firstToastIndex)
    modifies file`blocks, file`zeroed
    ensures file.Standing() && file.zeroed == old(file.zeroed)
    ensures Halfway(ed, file.View(), done, firstToastIndex, old(file.View())[ed.n].capacity)
    ensures current == ed.was[|ed.was| - 1].toast
  {
    hide Edit.Around, ZgdbFile.Standing, ZgdbFile.View;
    ghost var v2, t, m := file.View(), firstToastIndex, Chunks(e.size);
    ghost var l, room := [firstToastIndex, newToastIndex], v2[ed.n].capacity;
    GrownLengths(e, input);
    if left > 0 { ChainAtHome(v2, t, ed.s, m); }
    var link := if left == 0 then LeadTo(newToastIndex, 0) else SetOffset(used * SLOT);
    current := RewriteFull(file, firstToastIndex, e, input, link, true, ed, l);
    ghost var w := file.View();
    RewrittenHalfway(ed, v2, w, t, used, left, Lacking(e, input), m, link);
    if left != 0 {
      RoomFor(w[t], left);
      ghost var used' := AppendAndCount(file, current, used, newToastIndex, input + [0], Chunks(e.size), left,
                                        newToastIndex, CHUNK_SIZE);
      FilledHalfway(ed, w, m, left, done, t, used, used', room);
    }
  }

  /** The last of n chunks that hang on s lies in toast t. */
  ghost predicate EndsIn(w: View, s: Slot, n: nat, t: nat) {
    n > 0 && Chain(w, s, n)[n - 1].toast == t
  }

  /** The rest of the text in the new toast. */
  lemma SpilledOver(ed: Edit, w: View, m: nat, k: nat, n: nat, t: nat, room: nat, used: nat, used': nat, lastLen: nat)
    requires Halfway(ed, w, m, t, room) && k > 0 && n == m + k && TOAST_HEADER + k * SLOT <= room
    requires used == 0 && used' == used + k && ed.n !in ed.owner && ed.n != 0 && ed.n != ed.o
    requires t == FirstToast(ed.v, ed.o) != ed.n && IsDoc(ed.v, ed.o)
    requires lastLen <= CHUNK_SIZE && CHUNK_SIZE * (m + k - 1) + lastLen == |ed.text|
    ensures var w' := WithRun(w, ed.n, ed.text, m, k, used, used', ed.n, lastLen);
            && ed.Threaded(w', n) && ed.Around(w') && ToastListOk(w', ed.NewOwners(), ed.o, t, [t, ed.n])
            && EndsIn(w', ed.s, n, ed.n)
  {
    var w' := WithRun(w, ed.n, ed.text, m, k, used, used', ed.n, lastLen);
    Appended(ed, w, m, k, n, ed.n, used, used', ed.n, lastLen);
    forall x | x in [t, ed.n] ensures SameNext(w, w', x) && Owns(w', ed.NewOwners(), ed.o, x) {
      assert Owns(w, ed.NewOwners(), ed.o, x);
    }
    ToastListFrame(w, w', t, [t, ed.n]);
  }

  /** Chunks were written behind the root document as if its capacity were a toast's count of slots, k of them, and its
      header was written back with that many more: its capacity is wrong, and the blocks in that place are lost. */
  ghost predicate RootRaised(file: ZgdbFile, root: Block, k: nat)
    requires root.Document? && 0 < |file.index|
    reads file
  {
    var off := file.index[0].offset;
    var at := off + TOAST_HEADER + DOC_HEADER * SLOT;
    && off in file.blocks && file.blocks[off] == Document(root.header.(capacity := DOC_HEADER + k), root.elements)
    && forall a :: a in file.blocks && a != off ==> a + Capacity(file.blocks[a]) <= at || at + k * SLOT <= a
  }

  /** The same, where the root's header may have been zeroed before: then the chunks lie over the root document. */
  ghost predicate RootDamaged(file: ZgdbFile, root: Block, whole: bool, k: nat)
    reads file
  {
    && root.Document? && 0 < |file.index| && file.index[0].flag != New && k > 0
    && if whole then RootRaised(file, root, k) else file.index[0].offset !in file.blocks
  }

  lemma DamagedNotOk(file: ZgdbFile, root: Block, whole: bool, k: nat)
    requires RootDamaged(file, root, whole, k)
    ensures !Restorable(file)
  {
  }

  /** Writes k chunks behind the root document, read as a toast: what a toast counts as used is there the capacity of a
      document, and a toast's header is as long as the fields from there to the first son. */
  method AppendToRoot(file: ZgdbFile, header: Header, k: nat)
    requires file.Standing() && IsDoc(file.View(), 0) && Capacity(file.View()[0]) == DOC_HEADER && k > 0
    requires IsDoc(file.Shown(), 0) && header == file.Shown()[0].header
    modifies file`blocks, file`zeroed
    ensures RootDamaged(file, old(file.View())[0], old(file.Whole(0)), k)
  {
    ghost var d := file.Image();
    assert d.Listed(0) && d.LiesBelow(file.index[0].offset);
    var offset := file.GetIndex(0).offset;
    file.blocks := Disks.Overwritten(file.blocks, offset + TOAST_HEADER + header.capacity * SLOT, k * SLOT);
    if offset in file.blocks && file.blocks[offset].Document? {
      var b := file.blocks[offset];
      file.blocks := file.blocks[offset := Document(b.header.(size := header.size, capacity := header.capacity + k,
                                                             indexAttached := header.indexAttached,
                                                             indexSon := header.indexSon), b.elements)];
      file.zeroed := file.zeroed - {offset};
    }
  }

  /** Where the second part of a spill starts: `room` is the capacity of the new toast, `t` the document's first. */
  ghost predicate Spilled(ed: Edit, w: View, from: nat, k: nat, n: nat, t: nat, room: nat, current: nat) {
    && Halfway(ed, w, from, t, room) && k > 0 && n == from + k && TOAST_HEADER + k * SLOT <= room
    && IsDoc(ed.v, ed.o) && t == FirstToast(ed.v, ed.o) != ed.n && ed.n !in ed.owner && ed.n != 0 && ed.n != ed.o
    && IsDoc(ed.v, 0) && Capacity(ed.v[0]) == DOC_HEADER && 0 !in ed.owner && ed.o != 0
    && Owns(ed.v, ed.owner, ed.o, current)
  }

  /** What the second part of a spill leaves: a text carried to its end, or a damaged root document. */
  ghost predicate SpillDone(file: ZgdbFile, ed: Edit, n: nat, t: nat, good: bool, rootWhole: bool, k: nat)
    reads file, file.freeList, file.freeList.Repr
  {
    if good then
      && file.Standing() && ed.Threaded(file.View(), n) && ed.Around(file.View())
      && ToastListOk(file.View(), ed.NewOwners(), ed.o, t, [t, ed.n])
      && EndsIn(file.View(), ed.s, n, ed.n)
    else
      && 0 in ed.v && RootDamaged(file, ed.v[0], rootWhole, k)
      && ed.o < |file.index| && file.index[ed.o].offset != file.index[0].offset
  }

  lemma RootBeside(file: ZgdbFile, ed: Edit)
    requires file.Standing() && ed.Around(file.View()) && ed.o != 0 && 0 in ed.v && 0 !in ed.owner && ed.n != 0
    ensures 0 in file.View() && file.View()[0] == ed.v[0]
    ensures 0 < |file.index| && ed.o < |file.index| && file.index[ed.o].offset != file.index[0].offset
  {
    var d := file.Image();
    assert KeptBlock(ed.v, file.View(), ed.owner, ed.o, ed.n, 0);
    assert d.Listed(0) && d.Listed(ed.o);
    Disks.OffsetsDistinct(d, d.Base(), 0, ed.o);
  }

  /** The second part of a spill: goes on in the toast that follows the one the text's old chunks end in. That is the
      new toast exactly if they end in the document's first toast; otherwise it is index 0, the root document. */
  method SpillOver(file: ZgdbFile, current: nat, input: CString, from: nat, k: nat, ghost n: nat, ghost ed: Edit,
                   ghost t: nat, ghost room: nat)
    requires file.Standing() && file.Whole(ed.n) && file.Whole(t)
    requires Spilled(ed, file.View(), from, k, n, t, room, current)
    requires ed.text == input + [0] && CHUNK_SIZE * (from + k - 1) + TextSize(input) % CHUNK_SIZE == |ed.text|
    modifies file`blocks, file`zeroed
    ensures SpillDone(file, ed, n, t, current == t, old(file.Whole(0)), k)
    ensures current == t ==> file.zeroed == old(file.zeroed)
  {
    hide ZgdbFile.Standing;
    RootBeside(file, ed);
    assert OwnToastOk(file.View(), ed.NewOwners(), ed.o, current);
    var tempCurrentToast := file.ReadBlock(current);
    var order := tempCurrentToast.nextToastIndex;
    var b := file.ReadBlock(order);
    match b {
      case Toast(_, used, _, next, _) =>
        ghost var w := file.View();
        ghost var used' := AppendAndCount(file, order, used, next, input + [0], from, k, order,
                                          TextSize(input) % CHUNK_SIZE);
        SpilledOver(ed, w, from, k, n, t, room, used, used', TextSize(input) % CHUNK_SIZE);
      case Document(header, _) =>
        AppendToRoot(file, header, k);
    }
  }

  /** The text's last chunk lies in the document's first toast. */
  ghost predicate EndsAtHome(v: View, o: nat, i: nat) {
    IsText(v, o, i) && var t, e := FirstToast(v, o), v[o].elements[i];
      e.size > 0 && ChainOf(v, t, e)[Chunks(e.size) - 1].toast == t
  }

  /** A toast for the spill, linked behind the document's first toast; that one's header is in memory before. */
  method OpenToast(file: ZgdbFile, t: nat, size: nat) returns (newToastIndex: nat, ghost capacity: nat)
    requires file.Valid() && t in file.View() && file.View()[t].Toast? && IsAlive(file.index, t)
    requires size >= TOAST_HEADER && Relevant(file.freeList.entries, size).Some?
    modifies file`index, file`blocks, file`zeroed, file`fileSize, file`layout, file.freeList.Repr
    ensures file.Standing() && fresh(file.freeList.Repr - old(file.freeList.Repr))
    ensures Spent(old(file.freeList.entries), file.freeList.entries, 1)
    ensures Appeared(old(file.index), file.index, newToastIndex) && newToastIndex != t
    ensures forall x: nat :: StaysAlive(old(file.index), file.index, x)
    ensures capacity == if Fits(old(file.freeList.entries), size) then Largest(old(file.freeList.entries)) else size
    ensures file.fileSize == old(file.fileSize) + if Fits(old(file.freeList.entries), size) then 0 else size
    ensures file.View() == WithSuccessor(old(file.View()), t, newToastIndex, capacity)
    ensures file.Whole(t) && file.Whole(newToastIndex)
    ensures var q := ZgdbFile.Without(old(file.Struck(size)), t);
            file.zeroed == ZgdbFile.OffsetOf(file.index, q) && ZgdbFile.Other(file.index, q, newToastIndex)
  {
    ghost var index, q := file.index, file.Struck(size);
    var tempCurrentToast := file.ReadBlock(t);
    newToastIndex, capacity := CreateNewToast(file, size);
    assert StaysAlive(index, file.index, t);
    file.ZeroedWithout(q, t);
    WriteToastHeader(file, t, tempCurrentToast.used, newToastIndex);
  }

  /** The text spread over its old chunks, what is left of its toast, and the new toast. */
  method Rethread(file: ZgdbFile, firstToastIndex: nat, e: Stored, input: CString, used: nat, left: nat,
                  newToastIndex: nat, ghost ed: Edit)
    requires file.Standing() && Spill(ed, firstToastIndex, e, input, used, left).Ready(file.View())
    requires ed.n == newToastIndex
    requires file.Whole(firstToastIndex) && file.Whole(newToastIndex)
    requires IsDoc(ed.v, 0) && Capacity(ed.v[0]) == DOC_HEADER && 0 !in ed.owner && ed.o != 0
    requires forall s :: s in ed.was ==> Owns(ed.v, ed.owner, ed.o, s.toast)
    modifies file`blocks, file`zeroed
    ensures var n := Chunks(PaddedSize(TextSize(input)));
            n > Chunks(e.size) + left
                && SpillDone(file, ed, n, firstToastIndex, LastAtHome(ed), old(file.Whole(0)),
                             n - Chunks(e.size) - left)
    ensures LastAtHome(ed) ==> file.zeroed == old(file.zeroed)
  {
    hide SpillDone, ZgdbFile.Standing;
    GrownLengths(e, input);
    ghost var room := file.View()[ed.n].capacity;
    var m, n := Chunks(e.size) + left, Chunks(PaddedSize(TextSize(input)));
    var current := FillUp(file, firstToastIndex, e, input, used, left, newToastIndex, ed, m);
    SpillOver(file, current, input, m, n - m, n, ed, firstToastIndex, room);
  }

  lemma SpillingNow(v: View, index: seq<IndexEntry>, tree: Forest, owner: Owners, o: nat, i: nat, n: nat, capacity: nat,
                    input: CString)
    requires RecordsOk(v, index, tree, owner) && o in Orders(tree) && IsText(v, o, i) && !IsAlive(index, n)
    requires var t, e := FirstToast(v, o), v[o].elements[i];
             && NeedsMore(e, input) && t in v && v[t].Toast? && Left(v[t]) < Lacking(e, input)
             && capacity >= SpillSize(v, t, e, input)
    ensures var t, e, ed := FirstToast(v, o), v[o].elements[i], EditOf(v, owner, o, i, n, input + [0]);
            && t != n && Left(v[t]) >= 0
            && Spilling(ed, WithSuccessor(v, t, n, capacity), t, v[t].used, Left(v[t]), Lacking(e, input))
            && IsDoc(v, 0) && Capacity(v[0]) == DOC_HEADER && 0 !in owner && o != 0
            && (forall s :: s in ed.was ==> Owns(v, owner, o, s.toast))
  {
    var ed := EditOf(v, owner, o, i, 0, input + [0]);
    EncodesOrders(v, v[0].header.indexSon, tree);
    FirstToastFacts(v, index, tree, owner, o, i);
    EditStart(v, index, tree, owner, o, i, input + [0]);
    NotAliveFacts(v, index, tree, owner, n);
    NotOwned(v, index, tree, owner, 0);
    assert ToastOk(v, index, tree, owner, FirstToast(v, o)) && NodeOk(v, index, tree, owner, o);
    forall s | s in ed.was ensures Owns(v, owner, o, s.toast) {
      assert SlotOk(v, owner, o, s);
    }
  }

  /** With the new toast linked behind the first one, the spill is ready. */
  lemma SpillStart(v: View, index: seq<IndexEntry>, tree: Forest, owner: Owners, o: nat, i: nat, n: nat, capacity: nat,
                   input: CString)
    requires RecordsOk(v, index, tree, owner) && o in Orders(tree) && IsText(v, o, i) && !IsAlive(index, n)
    requires var t, e := FirstToast(v, o), v[o].elements[i];
             && NeedsMore(e, input) && e.size % CHUNK_SIZE != 0 && t in v && v[t].Toast?
             && Left(v[t]) < Lacking(e, input)
             && capacity >= SpillSize(v, t, e, input)
    ensures var t, e, ed := FirstToast(v, o), v[o].elements[i], EditOf(v, owner, o, i, n, input + [0]);
            && t != n && n != 0 && Left(v[t]) >= 0 && Targets(ed, i)
            && Spill(ed, t, e, input, v[t].used, Left(v[t])).Ready(WithSuccessor(v, t, n, capacity))
            && IsDoc(v, 0) && Capacity(v[0]) == DOC_HEADER && 0 !in owner && o != 0
            && (forall s :: s in ed.was ==> Owns(v, owner, o, s.toast))
  {
    FirstToastFacts(v, index, tree, owner, o, i);
    SpillReady(v, index, tree, owner, o, i, n, capacity, input + [0]);
    SpillingNow(v, index, tree, owner, o, i, n, capacity, input);
  }

  /** A spill up to the point where only the element's header is left to write. */
  method SpillText(file: ZgdbFile, o: nat, firstToastIndex: nat, i: nat, e: Stored, input: CString)
    returns (ghost ed: Edit)
    requires Consistent(file) && o in Orders(file.tree) && IsText(file.View(), o, i)
    requires firstToastIndex == FirstToast(file.View(), o) && e == file.View()[o].elements[i]
    requires NeedsMore(e, input) && e.size % CHUNK_SIZE != 0
    requires Spills(file, firstToastIndex, e, input)
    modifies file`index, file`blocks, file`zeroed, file`fileSize, file`layout, file.freeList.Repr
    ensures fresh(file.freeList.Repr - old(file.freeList.Repr))
    ensures Spent(old(file.freeList.entries), file.freeList.entries, 1)
    ensures var size := SpillSize(old(file.View()), firstToastIndex, e, input);
            file.fileSize == old(file.fileSize) + if Fits(old(file.freeList.entries), size) then 0 else size
    ensures ed == EditOf(old(file.View()), file.owner, o, i, ed.n, input + [0]) && Targets(ed, i)
    ensures ed.n != 0 && ed.n != firstToastIndex
    ensures Appeared(old(file.index), file.index, ed.n) && forall x: nat :: StaysAlive(old(file.index), file.index, x)
    ensures SpillDone(file, ed, Chunks(PaddedSize(TextSize(input))), firstToastIndex, LastAtHome(ed),
                      old(StruckBySpill(file, firstToastIndex, e, input)) != Some(0),
                      Lacking(e, input) - Left(ed.v[firstToastIndex]))
    ensures LastAtHome(ed) ==>
              file.zeroed == ZgdbFile.OffsetOf(file.index, old(StruckBySpill(file, firstToastIndex, e, input)))
    ensures LastAtHome(ed) ==> ZgdbFile.Other(file.index, old(StruckBySpill(file, firstToastIndex, e, input)), ed.n)
  {
    hide Relevant, ZgdbFile.View, Orders, LastAtHome, StruckBySpill, Spill.Ready, NoDuplicates, EncodesTree;
    SpillStrikes(file, firstToastIndex, e, input);
    ghost var v, index, text, q := file.View(), file.index, input + [0], StruckBySpill(file, firstToastIndex, e, input);
    var tempCurrentToast := file.ReadBlock(firstToastIndex);
    var used, req := tempCurrentToast.used, Chunks(PaddedSize(TextSize(input))) - Chunks(e.size);
    FirstToastFacts(v, index, file.tree, file.owner, o, i);
    assert ToastOk(v, index, file.tree, file.owner, firstToastIndex);
    var left := Left(tempCurrentToast);
    var newToastIndex;
    ghost var capacity;
    newToastIndex, capacity := OpenToast(file, firstToastIndex, req * SLOT + tempCurrentToast.capacity);
    assert fresh(file.freeList.Repr - old(file.freeList.Repr));
    ed := EditOf(v, file.owner, o, i, newToastIndex, text);
    SpillStart(v, index, file.tree, file.owner, o, i, newToastIndex, capacity, input);
    NodeFacts(v, index, file.tree, file.owner, 0);
    RootWhole(file, index, q);
    Rethread(file, firstToastIndex, e, input, used, left, newToastIndex, ed);
  }

  /** The root document's header is there unless the fill hit it. */
  lemma RootWhole(file: ZgdbFile, index: seq<IndexEntry>, q: Option<nat>)
    requires file.Standing() && IsAlive(index, 0) && forall x: nat :: StaysAlive(index, file.index, x)
    requires file.zeroed == ZgdbFile.OffsetOf(file.index, q) && (q.Some? ==> ZgdbFile.HasBlock(file.index, q.value))
    ensures file.Whole(0) <==> q != Some(0)
  {
    assert StaysAlive(index, file.index, 0);
    file.ZeroedWithout(q, 0);
  }

  /** The first toast has too few free slots; the free list can serve the new toast. */
  ghost predicate Spills(file: ZgdbFile, t: nat, e: Stored, input: CString)
    reads file, file.freeList
  {
    SpillsOn(file.View(), file.freeList.entries, t, e, input)
  }

  ghost predicate SpillsOn(v: View, free: seq<Entry>, t: nat, e: Stored, input: CString) {
    && e.SText? && t in v && v[t].Toast?
    && Left(v[t]) < Lacking(e, input)
    && SpillSize(v, t, e, input) > 0 && Relevant(free, SpillSize(v, t, e, input)).Some?
  }

  /** The index whose header is missing after a spill: the one behind the new toast, unless that is the first toast,
      whose header is written again. */
  ghost function StruckBySpill(file: ZgdbFile, t: nat, e: Stored, input: CString): Option<nat>
    requires Spills(file, t, e, input)
    reads file, file.freeList
  {
    StruckBySpillOn(file.Image(), file.freeList.entries, t, e, input)
  }

  lemma SpillStrikes(file: ZgdbFile, t: nat, e: Stored, input: CString)
    requires Spills(file, t, e, input)
    ensures var size := SpillSize(file.View(), t, e, input);
            && size > 0 && Relevant(file.freeList.entries, size).Some?
            && StruckBySpill(file, t, e, input) == ZgdbFile.Without(file.Struck(size), t)
  {
  }

  ghost function StruckBySpillOn(d: Disks.Disk, free: seq<Entry>, t: nat, e: Stored, input: CString): Option<nat>
    requires SpillsOn(d.View(), free, t, e, input)
  {
    ZgdbFile.Without(ZgdbFile.StruckOn(d, free, SpillSize(d.View(), t, e, input)), t)
  }

  /** A spilled text is complete: the file is in order but for the header of index q, if any; the text reads back. */
  ghost predicate Grown(file: ZgdbFile, v: View, o: nat, i: nat, e: Stored, input: CString, q: Option<nat>)
    reads file, file.freeList, file.freeList.Repr
  {
    && Restorable(file) && file.zeroed == ZgdbFile.OffsetOf(file.index, q) && (file.zeroed == {} <==> q.None?)
    && FieldUpdated(v, file.View(), file.tree, o, i, TextValue(input))
    && e.SText? && IsDoc(v, o) && i < |v[o].elements|
    && file.View()[o].elements == v[o].elements[i := e.(size := PaddedSize(TextSize(input)))]
    && (q != Some(o) ==> ReadsOnDisk(file, o, Fields(file.View(), o)))
    && !EndsAtHome(file.View(), o, i)
  }

  /** The chunks the text lacks go on in a new toast. If the text's old chunks end in the document's first toast it
      reads back, and the file is in order exactly if the new toast's fill hit nothing, or the first toast. Otherwise
      the root document is damaged. The chunks now end in the new toast, so the next spill must wait until they are
      fewer again. */
  method GrowBeyond(file: ZgdbFile, o: nat, firstToastIndex: nat, i: nat, e: Stored, input: CString)
    requires Consistent(file) && o in Orders(file.tree) && IsText(file.View(), o, i) && NulFree(input)
    requires firstToastIndex == FirstToast(file.View(), o) && e == file.View()[o].elements[i]
    requires NeedsMore(e, input) && e.size % CHUNK_SIZE != 0
    requires Spills(file, firstToastIndex, e, input)
    modifies file`index, file`blocks, file`zeroed, file`fileSize, file`layout, file`owner, file.freeList.Repr
    ensures fresh(file.freeList.Repr - old(file.freeList.Repr))
    ensures Spent(old(file.freeList.entries), file.freeList.entries, 1)
    ensures var size := SpillSize(old(file.View()), firstToastIndex, e, input);
            file.fileSize == old(file.fileSize) + if Fits(old(file.freeList.entries), size) then 0 else size
    ensures Consistent(file) <==>
            old(EndsAtHome(file.View(), o, i) && StruckBySpill(file, firstToastIndex, e, input).None?)
    ensures old(EndsAtHome(file.View(), o, i)) ==>
              Grown(file, old(file.View()), o, i, e, input, old(StruckBySpill(file, firstToastIndex, e, input)))
    ensures !old(EndsAtHome(file.View(), o, i)) ==>
              && 0 in old(file.View())
              && RootDamaged(file, old(file.View())[0], old(StruckBySpill(file, firstToastIndex, e, input)) != Some(0),
                             Lacking(e, input))
  {
    hide StruckBySpill, ZgdbFile.View, RecordsOk, NoDuplicates, SpillDone;
    ghost var index, q := file.index, StruckBySpill(file, firstToastIndex, e, input);
    DocFacts(file.View(), index, file.tree, file.owner, o);
    AwayIsFull(file.View(), index, file.tree, file.owner, o, i);
    GrownLengths(e, input);
    ghost var rootWhole, k := q != Some(0), Lacking(e, input) - Left(file.View()[firstToastIndex]);
    ghost var ed := SpillText(file, o, firstToastIndex, i, e, input);
    FinishSpill(file, o, i, e, PaddedSize(TextSize(input)), input, ed, index, q, rootWhole, k);
    if !LastAtHome(ed) { DamagedNotOk(file, ed.v[0], rootWhole, k); }
  }

  /** A text whose chunks have left the document's first toast left it full. */
  lemma AwayIsFull(v: View, index: seq<IndexEntry>, tree: Forest, owner: Owners, o: nat, i: nat)
    requires RecordsOk(v, index, tree, owner) && o in Orders(tree) && IsText(v, o, i)
    ensures var t := FirstToast(v, o);
            t in v && v[t].Toast? && Left(v[t]) >= 0 && (!EndsAtHome(v, o, i) ==> Left(v[t]) == 0)
  {
    FirstToastFacts(v, index, tree, owner, o, i);
    EditStart(v, index, tree, owner, o, i, []);
    if Home(v, FirstToast(v, o)) {
      ChainAtHome(v, FirstToast(v, o), EditOf(v, owner, o, i, 0, []).s, Chunks(v[o].elements[i].size));
    }
  }

  lemma DocFacts(v: View, index: seq<IndexEntry>, tree: Forest, owner: Owners, o: nat)
    requires RecordsOk(v, index, tree, owner) && o in Orders(tree)
    ensures o != 0 && DocOk(v, owner, o)
  {
    EncodesOrders(v, v[0].header.indexSon, tree);
    NodeFacts(v, index, tree, owner, o);
  }

  /** The end of a spill: writes the element's header. */
  method FinishSpill(file: ZgdbFile, o: nat, i: nat, e: Stored, size: nat, input: CString, ghost ed: Edit,
                     ghost index: seq<IndexEntry>,
                     ghost q: Option<nat>, ghost rootWhole: bool, ghost k: nat)
    requires file.nodes == 1 + Size(file.tree)
    requires RecordsOk(ed.v, index, file.tree, file.owner) && o in Orders(file.tree) && DocOk(ed.v, file.owner, o)
    requires o != 0
    requires ed.o == o && ed.owner == file.owner && Targets(ed, i) && e == ed.v[o].elements[i]
    requires ed.n != 0 && ed.n != FirstToast(ed.v, o)
    requires Appeared(index, file.index, ed.n) && forall x: nat :: StaysAlive(index, file.index, x)
    requires NulFree(input) && ed.text == CarriedBytes(input, size) && size == PaddedSize(TextSize(input))
    requires ReadsAs(input, size) == input
    requires SpillDone(file, ed, Chunks(size), FirstToast(ed.v, o), LastAtHome(ed), rootWhole, k)
    requires LastAtHome(ed) ==> file.zeroed == ZgdbFile.OffsetOf(file.index, q) && ZgdbFile.Other(file.index, q, ed.n)
    modifies file`blocks, file`owner
    ensures LastAtHome(ed) ==> Grown(file, ed.v, o, i, e, input, q)
    ensures !LastAtHome(ed) ==> 0 in ed.v && RootDamaged(file, ed.v[0], rootWhole, k)
  {
    hide RootDamaged, FieldUpdated, ZgdbFile.Standing, ZgdbFile.View;
    ghost var good, w' := LastAtHome(ed), Resized(ed, file.View(), i, size);
    if good {
      Completed(ed, file.View(), i, input, size, [FirstToast(ed.v, o), ed.n], index, file.index, file.tree);
      EndsElsewhere(ed, file.View(), w', i, size);
    }
    FinishGrowth(file, o, i, e, size, ed.v[o].header, ed.v[o].elements, good, w', ed.NewOwners(),
                 ed.v[if 0 in ed.v then 0 else o], rootWhole, k);
    if good {
      GrownOnDisk(file, o, q);
    }
  }

  lemma GrownOnDisk(file: ZgdbFile, o: nat, q: Option<nat>)
    requires Restorable(file) && o in Orders(file.tree)
    requires file.zeroed == ZgdbFile.OffsetOf(file.index, q) && (q.Some? ==> ZgdbFile.HasBlock(file.index, q.value))
    ensures file.zeroed == {} <==> q.None?
    ensures IsDoc(file.View(), o) && AllPresent(file.View(), SlotsOf(file.View(), o))
    ensures q != Some(o) ==> ReadsOnDisk(file, o, Fields(file.View(), o))
  {
    NodeFacts(file.View(), file.index, file.tree, file.owner, o);
    DocFacts(file.View(), file.index, file.tree, file.owner, o);
    SlotsPresent(file.View(), file.owner, o, SlotsOf(file.View(), o));
    file.ZeroedWithout(q, o);
    if q != Some(o) { ShownReads(file, o); }
  }

  lemma EndsElsewhere(ed: Edit, w: View, w': View, i: nat, size: nat)
    requires IsText(w', ed.o, i) && w'[ed.o].elements[i].size == size
    requires ChainOf(w', FirstToast(w', ed.o), w'[ed.o].elements[i]) == Chain(w, ed.s, Chunks(size))
    requires EndsIn(w, ed.s, Chunks(size), ed.n) && ed.n != FirstToast(w', ed.o)
    ensures !EndsAtHome(w', ed.o, i)
  {
  }

  /** Writes the element's header; if the root document was damaged, that does not repair it. */
  method FinishGrowth(file: ZgdbFile, o: nat, i: nat, e: Stored, size: nat, ghost header: Header, ghost es: seq<Stored>,
                      ghost good: bool, ghost w: View, ghost owner: Owners, ghost root: Block, ghost rootWhole: bool,
                      ghost k: nat)
    requires i < |es| && es[i] == e && e.SText?
    requires good ==>
               && file.Standing() && file.nodes == 1 + Size(file.tree)
               && o in file.View() && file.View()[o] == Document(header, es)
               && w == file.View()[o := Document(header, es[i := e.(size := size)])]
               && RecordsOk(w, file.index, file.tree, owner)
    requires !good ==>
               && RootDamaged(file, root, rootWhole, k)
               && o < |file.index| && file.index[o].offset != file.index[0].offset
    modifies file`blocks, file`owner
    ensures good ==> Restorable(file) && file.View() == w
    ensures !good ==> RootDamaged(file, root, rootWhole, k)
  {
    hide RecordsOk;
    assert good ==> file.Image().Attached(o);
    SetElement(file, o, i, e.(size := size));
    file.owner := owner;
  }

  // ---------- texts ----------

  /** The update would go on from a toast that is not the document's first. */
  ghost predicate GrowsAway(v: View, o: nat, i: nat, input: CString) {
    IsText(v, o, i) && NeedsMore(v[o].elements[i], input) && !EndsAtHome(v, o, i)
  }

  /** What updateElement relies on: a growing text has its size written by updateElement or by writeElement without
      filling its last chunk, and if the text spills, there is a place for the new toast. */
  ghost predicate CanUpdate(file: ZgdbFile, o: nat, i: nat, input: CString)
    reads file, file.freeList
  {
    CanUpdateOn(file.View(), file.freeList.entries, o, i, input)
  }

  ghost predicate CanUpdateOn(v: View, free: seq<Entry>, o: nat, i: nat, input: CString) {
    IsText(v, o, i) ==>
      var t, e := FirstToast(v, o), v[o].elements[i];
      && (TextSize(input) > e.size ==> e.size % CHUNK_SIZE != 0)
      && (NeedsMore(e, input) ==> HasSpace(v, t, e, input) || SpillsOn(v, free, t, e, input))
  }

  ghost predicate HasSpace(v: View, t: nat, e: Stored, input: CString) {
    e.SText? && t in v && v[t].Toast? && Left(v[t]) >= Lacking(e, input)
  }

  lemma HasSpaceEndsAtHome(v: View, index: seq<IndexEntry>, tree: Forest, owner: Owners, o: nat, i: nat, input: CString)
    requires RecordsOk(v, index, tree, owner) && o in Orders(tree) && IsText(v, o, i)
    requires NeedsMore(v[o].elements[i], input) && HasSpace(v, FirstToast(v, o), v[o].elements[i], input)
    ensures EndsAtHome(v, o, i)
  {
    FirstToastFacts(v, index, tree, owner, o, i);
    EditStart(v, index, tree, owner, o, i, []);
    ChainAtHome(v, FirstToast(v, o), EditOf(v, owner, o, i, 0, []).s, Chunks(v[o].elements[i].size));
  }

  /** What a text update leaves: the element's size is the new one with terminator, one more if it has changed and would
      be a multiple of 32; the input reads back, but without its last 31 characters if it has the old size and that is
      such a multiple. */
  ghost predicate TextUpdated(v: View, w: View, tree: Forest, o: nat, i: nat, input: CString) {
    && IsText(v, o, i)
    && var e, n := v[o].elements[i], |input| + 1;
       && FieldUpdated(v, w, tree, o, i,
                       TextValue(if n == e.size && n % 32 == 0 then input[..|input| - 31] else input))
       && w[o].elements == v[o].elements[i := e.(size := if n == e.size || n % 32 != 0 then n else n + 1)]
  }

  /** The bytes an update of element i adds to the file, `s` being the free list before: none unless the text needs more
      chunks than its toast has free slots; otherwise those of a toast that holds as many slots more as it lacks, if the
      largest dead block is smaller. */
  ghost predicate Lengthens(s: seq<Entry>, v: View, o: nat, i: nat, input: CString, growth: int) {
    if !IsText(v, o, i) || |input| + 1 <= v[o].elements[i].size then growth == 0
    else
      var t, lacking := FirstToast(v, o), (|input| + 1) / 32 - v[o].elements[i].size / 32;
      && t in v && v[t].Toast?
      && var size := lacking * 46 + v[t].capacity;
         growth == if lacking <= 0 || (v[t].capacity - 32) / 46 - v[t].used >= lacking then 0
                   else if s != [] && s[|s| - 1].size >= size then 0 else size
  }

  /** The index whose header is missing after a text update. */
  ghost function Missing(file: ZgdbFile, o: nat, i: nat, input: CString): Option<nat>
    requires CanUpdate(file, o, i, input)
    reads file, file.freeList
  {
    MissingOn(file.Image(), file.freeList.entries, o, i, input)
  }

  lemma MissingNow(file: ZgdbFile, o: nat, i: nat, input: CString)
    requires CanUpdate(file, o, i, input) && IsText(file.View(), o, i)
    ensures var v := file.View(); var t, e := FirstToast(v, o), v[o].elements[i];
            && (TextSize(input) > e.size ==> e.size % CHUNK_SIZE != 0)
            && if NeedsMore(e, input) && !HasSpace(v, t, e, input)
               then Spills(file, t, e, input) && Missing(file, o, i, input) == StruckBySpill(file, t, e, input)
               else Missing(file, o, i, input).None?
  {
  }

  ghost function MissingOn(d: Disks.Disk, free: seq<Entry>, o: nat, i: nat, input: CString): Option<nat>
    requires CanUpdateOn(d.View(), free, o, i, input)
  {
    var v := d.View();
    if IsText(v, o, i) && NeedsMore(v[o].elements[i], input) && !HasSpace(v, FirstToast(v, o), v[o].elements[i], input)
    then StruckBySpillOn(d, free, FirstToast(v, o), v[o].elements[i], input) else None
  }

  /** A text update that did not grow away: the file is in order but for the header of index q, if any, and the text
      reads back, from the disk too if the document has its header. */
  ghost predicate TextDone(file: ZgdbFile, v: View, o: nat, i: nat, input: CString, q: Option<nat>)
    reads file, file.freeList, file.freeList.Repr
  {
    && Restorable(file) && file.zeroed == ZgdbFile.OffsetOf(file.index, q) && (file.zeroed == {} <==> q.None?)
    && TextUpdated(v, file.View(), file.tree, o, i, input)
    && (q != Some(o) ==> ReadsOnDisk(file, o, Fields(file.View(), o)))
  }

  /** The case TYPE_TEXT of updateElement. */
  method UpdateText(file: ZgdbFile, o: nat, firstToastIndex: nat, i: nat, e: Stored, input: CString)
    requires Consistent(file) && o in Orders(file.tree) && IsText(file.View(), o, i) && NulFree(input)
    requires firstToastIndex == FirstToast(file.View(), o) && e == file.View()[o].elements[i]
    requires CanUpdate(file, o, i, input)
    modifies file`index, file`blocks, file`zeroed, file`fileSize, file`layout, file`owner, file.freeList.Repr
    ensures fresh(file.freeList.Repr - old(file.freeList.Repr))
    ensures Spent(old(file.freeList.entries), file.freeList.entries, 1)
    ensures Lengthens(old(file.freeList.entries), old(file.View()), o, i, input, file.fileSize - old(file.fileSize))
    ensures Consistent(file) <==> !old(GrowsAway(file.View(), o, i, input)) && old(Missing(file, o, i, input)).None?
    ensures !old(GrowsAway(file.View(), o, i, input)) ==>
              TextDone(file, old(file.View()), o, i, input, old(Missing(file, o, i, input)))
    ensures old(GrowsAway(file.View(), o, i, input)) ==>
              0 in old(file.View())
              && RootDamaged(file, old(file.View())[0], old(Missing(file, o, i, input)) != Some(0), Lacking(e, input))
  {
    hide TextDone, ZgdbFile.View;
    ghost var v := file.View();
    MissingNow(file, o, i, input);
    EditStart(v, file.index, file.tree, file.owner, o, i, []);
    var newLength := TextSize(input);
    if newLength == e.size {
      Rewrite(file, o, firstToastIndex, i, e, input, newLength);
    } else if newLength < e.size {
      Rewrite(file, o, firstToastIndex, i, e, input, PaddedSize(newLength));
    } else if Chunks(PaddedSize(newLength)) <= Chunks(e.size) {
      Rewrite(file, o, firstToastIndex, i, e, input, PaddedSize(newLength));
    } else {
      Grow(file, o, firstToastIndex, i, e, input);
    }
  }

  /** The branches that need no more chunks. */
  method Rewrite(file: ZgdbFile, o: nat, firstToastIndex: nat, i: nat, e: Stored, input: CString, size: nat)
    requires Consistent(file) && o in Orders(file.tree) && IsText(file.View(), o, i) && NulFree(input)
    requires firstToastIndex == FirstToast(file.View(), o) && e == file.View()[o].elements[i]
    requires FitsItsChunks(e, input, size)
    requires size == if TextSize(input) == e.size then e.size else PaddedSize(TextSize(input))
    modifies file`blocks
    ensures Consistent(file) && TextDone(file, old(file.View()), o, i, input, None)
  {
    hide FieldUpdated;
    RewriteInPlace(file, o, firstToastIndex, i, e, input, size);
    GrownOnDisk(file, o, None);
  }

  /** What a growth adds to the file: nothing while the first toast has room, otherwise a toast if no dead
      block fits. */
  lemma GrowthLengthens(s: seq<Entry>, v: View, o: nat, i: nat, e: Stored, input: CString)
    requires IsText(v, o, i) && e == v[o].elements[i] && NeedsMore(e, input) && e.size % CHUNK_SIZE != 0
    requires var t := FirstToast(v, o); t in v && v[t].Toast? && v[t].capacity >= TOAST_HEADER
    ensures var t := FirstToast(v, o); var size := SpillSize(v, t, e, input);
            if Left(v[t]) >= Lacking(e, input) then Lengthens(s, v, o, i, input, 0)
            else size > 0 && Lengthens(s, v, o, i, input, if Fits(s, size) then 0 else size)
  {
  }

  /** A longer text reads back as it is. */
  lemma GrownDone(file: ZgdbFile, v: View, o: nat, i: nat, e: Stored, input: CString, q: Option<nat>)
    requires IsText(v, o, i) && e == v[o].elements[i] && NeedsMore(e, input)
    requires Restorable(file) && file.zeroed == ZgdbFile.OffsetOf(file.index, q) && (file.zeroed == {} <==> q.None?)
    requires FieldUpdated(v, file.View(), file.tree, o, i, TextValue(input))
    requires file.View()[o].elements == v[o].elements[i := e.(size := PaddedSize(TextSize(input)))]
    requires q != Some(o) ==> ReadsOnDisk(file, o, Fields(file.View(), o))
    ensures TextDone(file, v, o, i, input, q)
  {
    hide Restorable, Fields, ReadsOnDisk;
  }

  lemma SpilledDone(file: ZgdbFile, v: View, o: nat, i: nat, e: Stored, input: CString, q: Option<nat>)
    requires IsText(v, o, i) && e == v[o].elements[i] && NeedsMore(e, input) && Grown(file, v, o, i, e, input, q)
    ensures TextDone(file, v, o, i, input, q)
  {
    hide Restorable, Fields, ReadsOnDisk, TextDone;
    GrownDone(file, v, o, i, e, input, q);
  }

  /** The branches that need more chunks. */
  method Grow(file: ZgdbFile, o: nat, firstToastIndex: nat, i: nat, e: Stored, input: CString)
    requires Consistent(file) && o in Orders(file.tree) && IsText(file.View(), o, i) && NulFree(input)
    requires firstToastIndex == FirstToast(file.View(), o) && e == file.View()[o].elements[i]
    requires NeedsMore(e, input) && CanUpdate(file, o, i, input)
    modifies file`index, file`blocks, file`zeroed, file`fileSize, file`layout, file`owner, file.freeList.Repr
    ensures fresh(file.freeList.Repr - old(file.freeList.Repr))
    ensures Spent(old(file.freeList.entries), file.freeList.entries, 1)
    ensures Lengthens(old(file.freeList.entries), old(file.View()), o, i, input, file.fileSize - old(file.fileSize))
    ensures Consistent(file) <==> old(EndsAtHome(file.View(), o, i)) && old(Missing(file, o, i, input)).None?
    ensures old(EndsAtHome(file.View(), o, i)) ==>
              TextDone(file, old(file.View()), o, i, input, old(Missing(file, o, i, input)))
    ensures !old(EndsAtHome(file.View(), o, i)) ==>
              0 in old(file.View())
              && RootDamaged(file, old(file.View())[0], old(Missing(file, o, i, input)) != Some(0), Lacking(e, input))
  {
    hide ZgdbFile.Standing, ZgdbFile.View, Lengthens, TextDone, FieldUpdated, RootDamaged, EndsAtHome, StruckBySpill,
        Spills, Grown, CanUpdate, Missing, IsText;
    ghost var v := file.View();
    MissingNow(file, o, i, input);
    FirstToastFacts(v, file.index, file.tree, file.owner, o, i);
    GrowthLengthens(file.freeList.entries, v, o, i, e, input);
    assert ToastOk(v, file.index, file.tree, file.owner, firstToastIndex);
    GrownLengths(e, input);
    var tempCurrentToast := file.ReadBlock(firstToastIndex);
    if Left(tempCurrentToast) >= Lacking(e, input) {
      HasSpaceEndsAtHome(v, file.index, file.tree, file.owner, o, i, input);
      GrowInToast(file, o, firstToastIndex, i, e, input);
      GrownOnDisk(file, o, None);
      GrownDone(file, v, o, i, e, input, None);
    } else {
      ghost var q := StruckBySpill(file, firstToastIndex, e, input);
      GrowBeyond(file, o, firstToastIndex, i, e, input);
      if EndsAtHome(v, o, i) { SpilledDone(file, v, o, i, e, input, q); }
    }
  }
}
