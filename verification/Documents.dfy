/** Creating a document. */
module Documents {
  import opened Blocks
  import opened FreeLists
  import opened Disks
  import opened Tilings
  import opened Texts
  import opened Records
  import opened Schemas
  import opened ElementWriters
  import opened Forests
  import opened Catalogs
  import opened Storage
  import opened DocIterators

  datatype CreateStatus = CREATE_OK | OUT_OF_INDEX

  // ---------- indexes never run out ----------

  /** Few NEW indexes are left: createDocument expands the table first. */
  ghost predicate LowWater(file: ZgdbFile)
    reads file, file.freeList
  {
    IsLow(file.freeList.entries)
  }

  ghost predicate IsLow(free: seq<Entry>) {
    CountNew(free) <= INDEX_INITIAL_CAPACITY / 8
  }

  lemma NewServes(s: seq<Entry>, reqSize: nat)
    requires Sorted(s) && CountNew(s) > 0
    ensures Relevant(s, reqSize).Some?
    ensures CountNew(RemoveAt(s, Relevant(s, reqSize).value)) >= CountNew(s) - 1
  {
    CountNewBound(s);
    RelevantIff(s, reqSize);
    RelevantCounts(s, reqSize);
  }

  // ---------- where the toast of a new document goes ----------

  /** The request createDocument makes for the toast of a schema. */
  function ToastRequest(minToastCapacity: nat): nat {
    2 * minToastCapacity * SLOT
  }

  /** The layout at the time the toast is placed. */
  ghost function LayoutThen(file: ZgdbFile): seq<nat>
    reads file, file.freeList
  {
    LayoutOn(file.Image(), file.freeList.entries)
  }

  ghost function LayoutOn(d: Disk, free: seq<Entry>): seq<nat> {
    if IsLow(free) && ZgdbFile.ExpansionOf(d).Walked? then ZgdbFile.ExpansionOf(d).layout else d.layout
  }

  /** If createDocument expands the index table, the walk of expandIndexes meets no document smaller than its block. */
  ghost predicate CanCreate(file: ZgdbFile)
    reads file, file.freeList
  {
    CanCreateOn(file.Image(), file.freeList.entries)
  }

  ghost predicate CanCreateOn(d: Disk, free: seq<Entry>) {
    IsLow(free) ==> ZgdbFile.ExpansionOf(d).Walked?
  }

  /** The last entry of the list is a block of at least this size. */
  ghost predicate LastFits(s: seq<Entry>, size: nat) {
    s != [] && s[|s| - 1].size >= size
  }

  /** That says that some block is so large. */
  lemma LastFitsIff(s: seq<Entry>, size: nat)
    requires Sorted(s)
    ensures LastFits(s, size) <==> exists e :: e in s && e.size >= size
    ensures s != [] ==> forall e :: e in s ==> e.size <= s[|s| - 1].size
  {
    if s != [] { assert s[|s| - 1] in s; }
    forall e | e in s ensures e.size <= s[|s| - 1].size {
      SortedEnds(s, e);
    }
  }

  /** The capacity of the block a request is served with: that of the largest dead block if it fits, otherwise a new
      one's. */
  ghost function Room(s: seq<Entry>, size: nat, ifNew: nat): nat {
    if LastFits(s, size) then s[|s| - 1].size else ifNew
  }

  /** The index whose block loses its header when createDocument fills the toast: the one behind the largest dead
      block, if the toast goes there and that is not the last block of the file. */
  ghost function Struck(file: ZgdbFile, reqToast: bool, request: nat): Option<nat>
    reads file, file.freeList
  {
    StruckOn(file.Image(), file.freeList.entries, reqToast, request)
  }

  ghost function StruckOn(d: Disk, s: seq<Entry>, reqToast: bool, request: nat): Option<nat> {
    var layout := LayoutOn(d, s);
    if reqToast && LastFits(s, request) && Behind(layout, s[|s| - 1].order) != s[|s| - 1].order
    then Some(Behind(layout, s[|s| - 1].order)) else None
  }

  /** The free list, as far as its largest block goes, once the toast is placed. */
  ghost function AfterToast(s: seq<Entry>, reqToast: bool, request: nat): seq<Entry> {
    if reqToast && LastFits(s, request) then s[..|s| - 1] else s
  }

  /** The header of index q is there again: q is the parent or the block the document goes to. */
  ghost predicate Repaired(q: Option<nat>, p: nat, rest: seq<Entry>, docSize: nat) {
    q.None? || q.value == p || (LastFits(rest, docSize) && rest[|rest| - 1].order == q.value)
  }

  /** The fill does no harm: it hits no header, or one that createDocument writes anyway, the parent's or that of the
      dead block the document goes to. */
  ghost predicate FillHarmless(file: ZgdbFile, parent: nat, reqToast: bool, request: nat, docSize: nat)
    reads file, file.freeList
  {
    HarmlessOn(file.Image(), file.freeList.entries, parent, reqToast, request, docSize)
  }

  ghost predicate HarmlessOn(d: Disk, free: seq<Entry>, parent: nat, reqToast: bool, request: nat, docSize: nat) {
    Repaired(StruckOn(d, free, reqToast, request), parent, AfterToast(free, reqToast, request), docSize)
  }

  /** The bytes by which toast and document make the file longer. */
  ghost function Growth(s: seq<Entry>, reqToast: bool, request: nat, docSize: nat): nat {
    (if reqToast && !LastFits(s, request) then request + TOAST_HEADER else 0)
    + if LastFits(AfterToast(s, reqToast, request), docSize) then 0 else docSize
  }

  /** The lists end in the same dead block, or in none. */
  ghost predicate SameTail(a: seq<Entry>, b: seq<Entry>) {
    LastFits(a, 1) || LastFits(b, 1) ==> a != [] && b != [] && a[|a| - 1] == b[|b| - 1]
  }

  lemma {:induction false} NewEntriesSizes(start: nat, n: nat)
    ensures forall e :: e in NewEntries(start, n) ==> e.size == 0
  {
    if n > 0 { NewEntriesSizes(start, n - 1); }
  }

  /** NEW entries in front of a list do not matter for what its largest block serves. */
  lemma BehindNew(start: nat, n: nat, s: seq<Entry>, t: seq<Entry>)
    requires t == NewEntries(start, n) + s
    ensures SameTail(s, t) && (s != [] ==> SameTail(s[..|s| - 1], t[..|t| - 1]))
  {
    NewEntriesSizes(start, n);
    if s == [] {
      assert t == NewEntries(start, n);
    } else {
      assert t[..|t| - 1] == NewEntries(start, n) + s[..|s| - 1];
    }
  }

  lemma TailAfter(s: seq<Entry>, t: seq<Entry>, t': seq<Entry>, reqToast: bool, request: nat)
    requires SameTail(s, t) && (s != [] ==> t != [] && SameTail(s[..|s| - 1], t[..|t| - 1]))
    requires reqToast ==> request > 0
    requires SameTail(t', AfterToast(t, reqToast, request))
    ensures SameTail(t', AfterToast(s, reqToast, request))
  {
  }

  /** What a request takes from a list with NEW entries: the largest block if it fits, otherwise a NEW index. */
  lemma ServedFrom(t: seq<Entry>, size: nat)
    requires Sorted(t) && CountNew(t) > 0 && size > 0
    ensures var k := Relevant(t, size);
            && k.Some?
            && (t[k.value].size > 0 <==> LastFits(t, size))
            && (LastFits(t, size) ==> t[k.value] == t[|t| - 1] && RemoveAt(t, k.value) == t[..|t| - 1])
            && (!LastFits(t, size) ==> RemoveAt(t, k.value) == t[1..])
  {
    NewServes(t, size);
  }

  /** The bytes by which expandIndexes makes the file longer, if it is due. */
  ghost function Slid(file: ZgdbFile): nat
    reads file, file.freeList
  {
    SlidOn(file.Image(), file.freeList.entries)
  }

  ghost function SlidOn(d: Disk, free: seq<Entry>): nat {
    if IsLow(free) && ZgdbFile.ExpansionOf(d).Walked? then ZgdbFile.ExpansionOf(d).freed else 0
  }

  /** The file gets longer by what expandIndexes frees: nothing while more than 6250 NEW indexes are left; otherwise so
      much that 200000 index entries fit in front of the blocks, and no more than the block that reaches this takes. */
  lemma SlidBounds(d: Disk, free: seq<Entry>)
    requires d.Ok() && CanCreateOn(d, free)
    ensures CountNew(free) > 6250 ==> SlidOn(d, free) == 0 && LayoutOn(d, free) == d.layout
    ensures CountNew(free) <= 6250 ==>
              var layout := LayoutOn(d, free);
              && layout != [] && layout[|layout| - 1] in d.View()
              && 4 * 50000 * 9 <= SlidOn(d, free) + d.betweenSpace
                 < 4 * 50000 * 9 + Capacity(d.View()[layout[|layout| - 1]])
  {
    if IsLow(free) { WalkFreed(d.View(), d.layout, ZgdbFile.EXPANSION - d.betweenSpace, 0); }
  }

  /** Expands the index table if few NEW indexes are left. Two indexes are there afterwards. */
  method EnsureIndexes(file: ZgdbFile) returns (ghost gained: nat)
    requires file.Valid() && CanCreate(file)
    modifies file`index, file`blocks, file`fileSize, file`layout, file`betweenSpace, file.freeList.Repr
    ensures file.Valid() && fresh(file.freeList.Repr - old(file.freeList.Repr))
    ensures file.View() == old(file.View()) && file.layout == old(LayoutThen(file))
    ensures file.freeList.newIndexesCount >= 2
    ensures Spent(old(file.freeList.entries), file.freeList.entries, 0)
    ensures file.freeList.entries == NewEntries(|old(file.index)|, gained) + old(file.freeList.entries)
    ensures forall x: nat :: StaysAlive(old(file.index), file.index, x)
    ensures file.fileSize == old(file.fileSize + Slid(file))
    ensures old(CountNew(file.freeList.entries)) > 6250 ==> gained == 0 && file.Image() == old(file.Image())
    ensures old(CountNew(file.freeList.entries)) <= 6250 ==>
              && gained >= 200000 && file.layout != [] && file.layout[|file.layout| - 1] in file.View()
              && var last := Capacity(file.View()[file.layout[|file.layout| - 1]]);
                 4 * 50000 * 9 <= gained * 9 + file.betweenSpace < 4 * 50000 * 9 + last
  {
    hide Disk.Ok;
    if file.freeList.newIndexesCount <= INDEX_INITIAL_CAPACITY / 8 {
      gained := file.ExpandIndexes();
      CountNewConcat(NewEntries(|old(file.index)|, gained), old(file.freeList.entries));
      NewEntriesAllNew(|old(file.index)|, gained);
      BehindNew(|old(file.index)|, gained, old(file.freeList.entries), file.freeList.entries);
    } else {
      gained := 0;
      assert NewEntries(|file.index|, 0) + file.freeList.entries == file.freeList.entries;
    }
  }

  // ---------- the toast ----------

  /** The index behind the largest dead block, if a request for a toast takes that block and it is not the last one. */
  ghost function BehindLargest(file: ZgdbFile, request: nat): Option<nat>
    reads file, file.freeList
  {
    var s := file.freeList.entries;
    if LastFits(s, request) && Behind(file.layout, s[|s| - 1].order) != s[|s| - 1].order
    then Some(Behind(file.layout, s[|s| - 1].order)) else None
  }

  /** While a NEW index is left, that is the index the fill of the toast hits. */
  lemma StruckBehindLargest(file: ZgdbFile, request: nat)
    requires file.Valid() && request > 0 && CountNew(file.freeList.entries) > 0
    ensures file.Struck(request) == BehindLargest(file, request)
  {
    var d, s := file.Image(), file.freeList.entries;
    ServedFrom(s, request);
    var e := file.Chosen(request);
    EntryIsFree(d, d.Base(), s, Relevant(s, request).value);
    if e.size > 0 {
      assert d.Listed(e.order);
      TilesBehind(d.Extents(), d.layout, d.Base(), d.fileSize, e.order);
    }
  }

  /** Writes an empty toast for a schema with texts. */
  method AllocateToast(file: ZgdbFile, minToastCapacity: nat) returns (toastIndex: nat)
    requires file.Valid() && minToastCapacity > 0 && file.freeList.newIndexesCount >= 2 && IsAlive(file.index, 0)
    modifies file`index, file`blocks, file`zeroed, file`fileSize, file`layout, file.freeList.Repr
    ensures file.Standing() && fresh(file.freeList.Repr - old(file.freeList.Repr))
    ensures Spent(old(file.freeList.entries), file.freeList.entries, 1)
    ensures file.freeList.newIndexesCount >= 1
    ensures Appeared(old(file.index), file.index, toastIndex) && file.Whole(toastIndex)
    ensures forall x: nat :: StaysAlive(old(file.index), file.index, x)
    ensures ToastAdded(old(file.View()), file.View(), toastIndex, minToastCapacity) && toastIndex in file.View()
    ensures var q := old(BehindLargest(file, ToastRequest(minToastCapacity)));
            file.zeroed == ZgdbFile.OffsetOf(file.index, q) && (q.Some? ==> ZgdbFile.HasBlock(file.index, q.value))
    ensures SameTail(file.freeList.entries,
                     AfterToast(old(file.freeList.entries), true, ToastRequest(minToastCapacity)))
    ensures file.fileSize == old(file.fileSize) +
              if LastFits(old(file.freeList.entries), ToastRequest(minToastCapacity)) then 0
                  else ToastRequest(minToastCapacity) + TOAST_HEADER
    ensures Capacity(file.View()[toastIndex]) ==
            Room(old(file.freeList.entries), ToastRequest(minToastCapacity),
                 ToastRequest(minToastCapacity) + TOAST_HEADER)
  {
    NewServes(file.freeList.entries, ToastRequest(minToastCapacity));
    ServedFrom(file.freeList.entries, ToastRequest(minToastCapacity));
    StruckBehindLargest(file, ToastRequest(minToastCapacity));
    SpentOne(file.freeList.entries, ToastRequest(minToastCapacity));
    toastIndex := file.PlaceToast(ToastRequest(minToastCapacity), ToastRequest(minToastCapacity) + TOAST_HEADER);
  }

  // ---------- the elements ----------

  /** w is v, but for the slots and the used mark of toast t. */
  ghost predicate OnlyToast(v: View, w: View, t: nat) {
    w == v || (t in v && v[t].Toast? && t in w && w[t].Toast? && w == v[t := w[t]]
               && w[t] == v[t].(slots := w[t].slots, used := w[t].used))
  }

  lemma OnlyToastTwice(v: View, w: View, x: View, t: nat)
    requires OnlyToast(v, w, t) && OnlyToast(w, x, t)
    ensures OnlyToast(v, x, t)
  {
  }

  /** Toast t counts `used` slots, has room for `total` in all, and no chunk leads out of it. */
  ghost predicate ToastAt(view: View, t: nat, used: nat, total: nat) {
    t in view && view[t].Toast? && view[t].used == used && TOAST_HEADER + total * SLOT <= view[t].capacity
    && Home(view, t)
  }

  ghost predicate HasTexts(fs: seq<Field>) {
    exists f :: f in fs && f.value.TextValue?
  }

  /** The loop over the schema's elements. */
  method WriteElements(file: ZgdbFile, elements: seq<Field>, toastIndex: nat)
    returns (stored: seq<Stored>, ghost used: nat)
    requires file.Standing() && FieldsOk(elements)
    requires HasTexts(elements) ==> ToastAt(file.View(), toastIndex, 0, ChunksOf(elements)) && file.Whole(toastIndex)
    modifies file`blocks, file`zeroed
    ensures file.Standing() && file.zeroed == old(file.zeroed) && |stored| == |elements| && used == ChunksOf(elements)
    ensures Written(file.View(), toastIndex, used, stored, elements)
    ensures OnlyToast(old(file.View()), file.View(), toastIndex)
    ensures HasTexts(elements) ==> ToastAt(file.View(), toastIndex, used, ChunksOf(elements))
  {
    hide Disk.View;
    stored, used := [], 0;
    ghost var v, zeroed, total, done: seq<Field> := file.View(), file.zeroed, ChunksOf(elements), [];
    for i := 0 to |elements|
      invariant file.Standing() && file.zeroed == zeroed && |stored| == i
      invariant done == elements[..i] && used == ChunksOf(done)
      invariant Written(file.View(), toastIndex, used, stored, done)
      invariant OnlyToast(v, file.View(), toastIndex)
      invariant HasTexts(elements) ==> ToastAt(file.View(), toastIndex, used, total)
    {
      RoomForNext(elements, i, done);
      ghost var w := file.View();
      stored, used := WriteNext(file, elements[i], toastIndex, stored, done, used, total);
      done := done + [elements[i]];
      OnlyToastTwice(v, w, file.View(), toastIndex);
    }
    assert done == elements;
  }

  /** One round of that loop. */
  method WriteNext(file: ZgdbFile, cur: Field, toastIndex: nat, stored: seq<Stored>, ghost done: seq<Field>,
                   ghost used: nat, ghost total: nat) returns (stored': seq<Stored>, ghost used': nat)
    requires file.Standing() && FieldOk(cur) && used + ElementChunks(cur.value) <= total
    requires Written(file.View(), toastIndex, used, stored, done)
    requires cur.value.TextValue? ==> ToastAt(file.View(), toastIndex, used, total) && file.Whole(toastIndex)
    modifies file`blocks, file`zeroed
    ensures file.Standing() && file.zeroed == old(file.zeroed) && |stored'| == |stored| + 1
    ensures used' == used + ElementChunks(cur.value)
    ensures Written(file.View(), toastIndex, used', stored', done + [cur])
    ensures OnlyToast(old(file.View()), file.View(), toastIndex)
    ensures if cur.value.TextValue? then ToastAt(file.View(), toastIndex, used', total)
            else file.View() == old(file.View())
  {
    ghost var was := file.View();
    var e;
    e, used' := WriteElement(file, cur, toastIndex);
    stored' := stored + [e];
    if cur.value.TextValue? {
      NextText(was, file.View(), toastIndex, cur.value.s, used, used', total, e, stored, done);
    } else {
      used' := used;
      WrittenScalar(was, toastIndex, used, stored, done, e, cur);
    }
  }

  lemma NextText(v: View, w: View, t: nat, s: CString, used: nat, used': nat, total: nat, e: Stored, es: seq<Stored>,
                 fs: seq<Field>)
    requires NulFree(s) && ToastAt(v, t, used, total) && Written(v, t, used, es, fs)
    requires used' == used + Chunks(TextSize(s)) <= total && w == WithText(v, t, s, used')
    requires e.SText? && e == SText(e.key, TextSize(s), v[t].used * SLOT)
    ensures Written(w, t, used', es + [e], fs + [Field(e.key, TextValue(s))])
    ensures OnlyToast(v, w, t) && ToastAt(w, t, used', total)
  {
    WrittenText(v, w, t, s, used, used', e.key, es, fs);
    RunHome(v[t].slots, s + [0], 0, Chunks(TextSize(s)), t, used, TextSize(s) % CHUNK_SIZE);
  }

  /** The next element of a schema fits what the schema counted. */
  lemma RoomForNext(elements: seq<Field>, i: nat, done: seq<Field>)
    requires i < |elements| && done == elements[..i] && FieldsOk(elements)
    ensures elements[..i + 1] == done + [elements[i]]
    ensures ChunksOf(done + [elements[i]]) == ChunksOf(done) + ElementChunks(elements[i].value) <= ChunksOf(elements)
    ensures FieldOk(elements[i]) && (elements[i].value.TextValue? ==> HasTexts(elements))
  {
    TotalsPush(done, elements[i]);
    assert elements == (done + [elements[i]]) + elements[i + 1..];
    ChunksConcat(done + [elements[i]], elements[i + 1..]);
  }

  lemma {:induction false} ChunksConcat(a: seq<Field>, b: seq<Field>)
    ensures ChunksOf(a + b) == ChunksOf(a) + ChunksOf(b)
  {
    if a == [] {
      assert a + b == b;
    } else {
      assert (a + b)[1..] == a[1..] + b;
      ChunksConcat(a[1..], b);
    }
  }

  // ---------- what the blocks say once everything is written ----------

  /** From v to w: a toast t for the texts (0: none), document o with elements es in front of p's children. */
  datatype Creation = Creation(v: View, filled: View, w: View, p: nat, o: nat, t: nat, used: nat,
                               es: seq<Stored>, fs: seq<Field>)
  {
    ghost predicate Happened() {
      match this
      case Creation(v, filled, w, p, o, t, used, es, fs) =>
      && IsDoc(v, p) && o != 0 && o != p && o != t && (t != 0 ==> p != t)
      && Filled(v, filled, t, used)
      && Written(filled, t, used, es, fs)
      && IsDoc(w, o) && w[o].elements == es
      && w[o].header.attrCount == |es| && w[o].header.firstToastIndex == t
      && w[o].header.indexSon == 0 && w[o].header.indexBrother == v[p].header.indexSon
      && 0 < w[o].header.size <= w[o].header.capacity
      && w == filled[o := w[o]][p := Document(v[p].header.(indexSon := o), v[p].elements)]
    }
  }

  lemma CreationLinks(c: Creation, index: seq<IndexEntry>, tree: Forest, owner: Owners)
    requires c.Happened() && RecordsOk(c.v, index, tree, owner)
    requires !IsAlive(index, c.o) && (c.t != 0 ==> !IsAlive(index, c.t))
    ensures LinkedAsSon(c.v, c.w, c.p, c.o) && LinksKept(c.v, c.w, tree, c.p)
    ensures c.p != 0 ==> SameLinks(c.v, c.w, 0)
    ensures Untouched(c.v, c.w, tree, owner) && SameButLinks(c.v, c.w, 0)
  {
    NotAliveFacts(c.v, index, tree, owner, c.o);
    if c.t != 0 { NotAliveFacts(c.v, index, tree, owner, c.t); }
    EncodesOrders(c.v, c.v[0].header.indexSon, tree);
    forall x | x in Orders(tree) || x in owner ensures SameButLinks(c.v, c.w, x) {
      assert ToastOk(c.v, index, tree, owner, x);
    }
  }

  lemma CreationRecord(c: Creation, owner: Owners)
    requires c.Happened() && IsDoc(c.v, 0)
    ensures DocOk(c.w, OwnersWith(owner, c.t, c.o), c.o)
    ensures AllPresent(c.w, SlotsOf(c.w, c.o)) && Fields(c.w, c.o) == StoredFields(c.fs)
    ensures Fields(c.w, c.o) == c.fs <==>
            forall f :: f in c.fs && f.value.TextValue? ==> TextSize(f.value.s) % CHUNK_SIZE != 0
    ensures c.t != 0 ==> c.t in c.w && ToastFits(c.w[c.t]) && Settled(c.w, c.o, c.t)
  {
    var owner', slots := OwnersWith(owner, c.t, c.o), ChainsOf(c.filled, c.t, c.es);
    StoredFieldsIff(c.fs);
    forall s | s in slots
      ensures HasChunk(c.w, s) && ChunkAt(c.w, s) == ChunkAt(c.filled, s) && SlotOk(c.w, owner', c.o, s)
    {
      assert SlotBelow(c.filled, c.t, c.used, s);
      assert c.t != 0;
    }
    ChainsFrame(c.filled, c.w, c.t, c.es);
    if c.t == 0 {
      assert ToastListOk(c.w, owner', c.o, c.t, []);
    } else {
      assert IsToastList(c.w, 0, [c.t][1..]);
      assert ToastListOk(c.w, owner', c.o, c.t, [c.t]);
    }
  }

  // ---------- createDocument ----------

  /** Reads the header of the document an index resolves to. */
  function GetDocumentHeader(file: ZgdbFile, order: nat): (header: Header)
    requires file.Valid() && IsDoc(file.View(), order)
    reads file, file.freeList, file.freeList.Repr
    ensures header == file.View()[order].header && header.indexAttached == order
  {
    file.ReadBlock(order).header
  }

  /** Writes a document's header back; its elements stay. */
  method WriteHeader(file: ZgdbFile, header: Header)
    requires file.Standing() && IsDoc(file.View(), header.indexAttached)
    requires header.capacity == file.View()[header.indexAttached].header.capacity
    modifies file`blocks, file`zeroed
    ensures file.Standing()
    ensures header.indexAttached < |file.index|
    ensures file.zeroed == old(file.zeroed) - {file.index[header.indexAttached].offset}
    ensures var o := header.indexAttached;
            file.View() == old(file.View())[o := Document(header, old(file.View())[o].elements)]
  {
    var b := file.Stored(header.indexAttached);
    file.WriteWithHeader(header.indexAttached, Document(header, b.elements));
  }

  /** An empty toast t (0: none) was added. */
  ghost predicate ToastAdded(v: View, w: View, t: nat, total: nat) {
    if t == 0 then w == v
    else ToastAt(w, t, 0, total) && w[t].nextToastIndex == 0 && w == v[t := w[t]]
  }

  /** A toast for the texts of a schema, if it needs one. */
  method PrepareToast(file: ZgdbFile, reqToast: bool, minToastCapacity: nat) returns (toastIndex: nat)
    requires file.Valid() && (reqToast ==> minToastCapacity > 0)
    requires file.freeList.newIndexesCount >= 2 && IsAlive(file.index, 0)
    modifies file`index, file`blocks, file`zeroed, file`fileSize, file`layout, file.freeList.Repr
    ensures file.Standing() && fresh(file.freeList.Repr - old(file.freeList.Repr))
    ensures Spent(old(file.freeList.entries), file.freeList.entries, 1)
    ensures file.freeList.newIndexesCount >= 1
    ensures toastIndex == 0 <==> !reqToast
    ensures toastIndex != 0 ==> Appeared(old(file.index), file.index, toastIndex) && file.Whole(toastIndex)
    ensures forall x: nat :: StaysAlive(old(file.index), file.index, x)
    ensures ToastAdded(old(file.View()), file.View(), toastIndex, minToastCapacity)
    ensures var q := if reqToast then old(BehindLargest(file, ToastRequest(minToastCapacity))) else None;
            file.zeroed == ZgdbFile.OffsetOf(file.index, q) && (q.Some? ==> ZgdbFile.HasBlock(file.index, q.value))
    ensures SameTail(file.freeList.entries,
                     AfterToast(old(file.freeList.entries), reqToast, ToastRequest(minToastCapacity)))
    ensures file.fileSize == old(file.fileSize) +
              if reqToast && !LastFits(old(file.freeList.entries), ToastRequest(minToastCapacity))
              then ToastRequest(minToastCapacity) + TOAST_HEADER else 0
    ensures toastIndex != 0 ==>
              Capacity(file.View()[toastIndex]) ==
              Room(old(file.freeList.entries), ToastRequest(minToastCapacity),
                   ToastRequest(minToastCapacity) + TOAST_HEADER)
  {
    toastIndex := 0;
    if reqToast {
      toastIndex := AllocateToast(file, minToastCapacity);
    }
  }

  lemma FilledOk(v: View, w: View, t: nat, used: nat)
    requires if t == 0 then IsDoc(v, 0)
             else ToastAt(w, t, used, used) && t in v && v[t].Toast? && v[t].nextToastIndex == 0
    requires OnlyToast(v, w, t)
    ensures Filled(v, w, t, used)
  {
  }

  /** The elements and the document block of createDocument. */
  method Build(file: ZgdbFile, name: CString, elements: seq<Field>, docSize: nat, brother: nat, toastIndex: nat)
    returns (order: nat, ghost filled: View, ghost used: nat, ghost cap: nat, ghost es: seq<Stored>)
    requires file.Standing() && FieldsOk(elements) && docSize >= TOAST_HEADER
    requires file.freeList.newIndexesCount >= 1
    requires HasTexts(elements) <==> toastIndex != 0
    requires toastIndex != 0 ==> file.Whole(toastIndex) && ToastAt(file.View(), toastIndex, 0, ChunksOf(elements))
                                 && file.View()[toastIndex].nextToastIndex == 0
    requires toastIndex == 0 ==> IsDoc(file.View(), 0)
    modifies file`index, file`blocks, file`zeroed, file`fileSize, file`layout, file.freeList.Repr
    ensures file.Standing() && fresh(file.freeList.Repr - old(file.freeList.Repr))
    ensures Spent(old(file.freeList.entries), file.freeList.entries, 1)
    ensures Relevant(old(file.freeList.entries), docSize).Some? && order == old(file.Chosen(docSize)).order
    ensures ZgdbFile.OneAttached(old(file.index), order, file.index)
    ensures file.zeroed == old(file.zeroed) - {file.index[order].offset}
    ensures Filled(old(file.View()), filled, toastIndex, used)
    ensures Written(filled, toastIndex, used, es, elements)
    ensures file.View() == filled[order := ZgdbFile.NewDocument(docSize, cap, order, brother, toastIndex, name, es)]
    ensures ZgdbFile.ReusesDead(old(file.freeList.entries), docSize, cap, file.fileSize - old(file.fileSize))
    ensures toastIndex != 0 ==> Capacity(filled[toastIndex]) == Capacity(old(file.View())[toastIndex])
  {
    hide Disk.Ok, Disk.View;
    NewServes(file.freeList.entries, docSize);
    SpentOne(file.freeList.entries, docSize);
    var stored;
    stored, used := WriteElements(file, elements, toastIndex);
    filled, es := file.View(), stored;
    FilledOk(old(file.View()), filled, toastIndex, used);
    order, cap := file.PlaceDocument(docSize, brother, toastIndex, name, stored);
  }

  /** The capacity of toast t; 0 for no toast. */
  ghost function RoomOf(v: View, t: nat): nat {
    if t != 0 && t in v then Capacity(v[t]) else 0
  }

  /** Document o lies in a block of docRoom bytes; toast t holds its texts and has toastRoom bytes. */
  ghost predicate Laid(w: View, o: nat, t: nat, toastRoom: nat, docRoom: nat) {
    && IsDoc(w, o) && w[o].header.capacity == docRoom && w[o].header.firstToastIndex == t
    && (t != 0 ==> t in w && w[t].Toast? && w[t].capacity == toastRoom)
  }

  /** The view once the texts are written: as before, but for a toast t (0: none) that counts `used` slots. */
  ghost predicate Filled(v: View, filled: View, t: nat, used: nat) {
    if t == 0 then filled == v
    else t in filled && filled == v[t := filled[t]] && ToastAt(filled, t, used, used) && filled[t].nextToastIndex == 0
  }

  /** What a client gets from a successful createDocument: one new leaf in front of p's children that reads back
      the given fields; everybody else reads as before. */
  ghost predicate Created(v: View, tree: Forest, w: View, tree': Forest, p: nat, o: nat, name: CString, size: nat,
                          fs: seq<Field>) {
    && o !in Orders(tree) && tree' == WithChild(tree, p, o)
    && IsDoc(w, o) && w[o].header.name == name && w[o].header.size == size
    && AllPresent(w, SlotsOf(w, o)) && Fields(w, o) == StoredFields(fs)
    && AllReadSame(v, w, Orders(tree))
  }

  /** The space a new document with these fields takes, `s` being the free list before: its texts go to a toast of 32
      bytes and twice as many slots of 46 bytes as they have chunks, or to the largest dead block if that has room for
      the slots; the document goes to the largest dead block that is left, if that is large enough. The file grows by
      what is new. */
  ghost predicate Takes(s: seq<Entry>, w: View, o: nat, fs: seq<Field>, growth: int) {
    var slots, size, texts := 2 * ChunksOf(fs) * 46, 80 + SizeOf(fs), exists f :: f in fs && f.value.TextValue?;
    var reuses := texts && s != [] && s[|s| - 1].size >= slots;
    var rest := if reuses then s[..|s| - 1] else s;
    var fits := rest != [] && rest[|rest| - 1].size >= size;
    && IsDoc(w, o) && (texts <==> w[o].header.firstToastIndex != 0)
    && Laid(w, o, w[o].header.firstToastIndex, if reuses then s[|s| - 1].size else 32 + slots,
            if fits then rest[|rest| - 1].size else size)
    && growth == (if texts && !reuses then 32 + slots else 0) + if fits then 0 else size
  }

  lemma TakesSo(s: seq<Entry>, w: View, o: nat, toast: nat, fs: seq<Field>, growth: int)
    requires toast != 0 <==> HasTexts(fs)
    requires var request, docSize := ToastRequest(ChunksOf(fs)), DOC_HEADER + SizeOf(fs);
             && growth == Growth(s, HasTexts(fs), request, docSize)
             && Laid(w, o, toast, Room(s, request, request + TOAST_HEADER),
                     Room(AfterToast(s, HasTexts(fs), request), docSize, docSize))
    ensures Takes(s, w, o, fs, growth)
  {
  }

  /** createDocument. The file is in order afterwards exactly if the zero fill of the toast did no harm; otherwise one
      header is missing, and nothing else. */
  method CreateDocument(file: ZgdbFile, name: CString, schema: DocumentSchema, parent: Doc)
    returns (status: CreateStatus, ghost order: nat, ghost docSize: nat)
    requires Consistent(file) && schema.Valid() && schema !in file.freeList.Repr
    requires |name| < KEY_SIZE && NulFree(name)
    requires parent.header.indexAttached == 0 || parent.header.indexAttached in Orders(file.tree)
    requires CanCreate(file)
    modifies file`index, file`blocks, file`zeroed, file`fileSize, file`layout, file`betweenSpace, file`nodes, file`tree
    modifies file`owner, file.freeList.Repr
    ensures fresh(file.freeList.Repr - old(file.freeList.Repr))
    ensures Spent(old(file.freeList.entries), file.freeList.entries, 2)
    ensures status == if |schema.elements| == schema.capacity then CREATE_OK else OUT_OF_INDEX
    ensures docSize == DOC_HEADER + SizeOf(schema.elements)
    ensures status == OUT_OF_INDEX ==>
              Consistent(file) && file.Image() == old(file.Image()) && file.tree == old(file.tree)
              && file.owner == old(file.owner)
                                       && file.freeList.entries == old(file.freeList.entries)
    ensures status == CREATE_OK ==>
              var p, request := parent.header.indexAttached, ToastRequest(schema.minToastCapacity);
              && (Consistent(file) <==> old(FillHarmless(file, p, schema.reqToast, request, docSize)))
              && Outcome(file, old(FillHarmless(file, p, schema.reqToast, request, docSize)),
                         old(Struck(file, schema.reqToast, request)))
              && Created(old(file.View()), old(file.tree), file.View(), file.tree, p, order, name, docSize,
                         schema.elements)
              && ReadsOnDisk(file, order, StoredFields(schema.elements))
              && Takes(old(file.freeList.entries), file.View(), order, schema.elements,
                       file.fileSize - old(file.fileSize + Slid(file)))
  {
    hide Laid, Takes, Growth, Room, AfterToast, Struck, FillHarmless, Repaired, Slid, Created, ReadsOnDisk;
    hide ZgdbFile.Standing, ZgdbFile.View, RecordsOk, FieldsOk, HasKey;
    order, docSize := 0, DOC_HEADER + SizeOf(schema.elements);
    var p := parent.header.indexAttached;
    NodeFacts(file.View(), file.index, file.tree, file.owner, p);
    var parentHeader := GetDocumentHeader(file, p);
    if schema.capacity != |schema.elements| {
      return OUT_OF_INDEX, 0, docSize;
    }
    ghost var request, s := ToastRequest(schema.minToastCapacity), file.freeList.entries;
    ghost var q, rest := Struck(file, schema.reqToast, request), AfterToast(s, schema.reqToast, request);
    HarmlessIf(file, p, schema.reqToast, request, docSize);
    ghost var toast;
    order, toast := Insert(file, name, schema.elements, schema.reqToast, schema.minToastCapacity,
                           DOC_HEADER + schema.sizeOfElements, parentHeader, docSize, q, rest);
    TakesSo(s, file.View(), order, toast, schema.elements, file.fileSize - old(file.fileSize + Slid(file)));
    status := CREATE_OK;
  }

  lemma HarmlessIf(file: ZgdbFile, p: nat, reqToast: bool, request: nat, docSize: nat)
    ensures FillHarmless(file, p, reqToast, request, docSize) ==
            Repaired(Struck(file, reqToast, request), p, AfterToast(file.freeList.entries, reqToast, request), docSize)
  {
  }

  /** What the fill leaves: a file in order, or one in which exactly the header of index q is missing. */
  ghost predicate Outcome(file: ZgdbFile, harmless: bool, q: Option<nat>)
    reads file, file.freeList, file.freeList.Repr
  {
    Restorable(file) && file.zeroed == if harmless then {} else ZgdbFile.OffsetOf(file.index, q)
  }

  /** What createDocument makes: from view v and tree, a child of p with this name, size and these fields. */
  datatype Making = Making(v: View, tree: Forest, p: nat, name: CString, size: nat, fs: seq<Field>) {
    /** Document o was made; index q, if any, lost its header, unless that was written again. */
    ghost predicate Done(file: ZgdbFile, o: nat, harmless: bool, q: Option<nat>)
      reads file, file.freeList, file.freeList.Repr
    {
      match this
      case Making(v, tree, p, name, size, fs) =>
        && Outcome(file, harmless, q) && (file.zeroed == {} <==> harmless)
        && Created(v, tree, file.View(), file.tree, p, o, name, size, fs) && ReadsOnDisk(file, o, StoredFields(fs))
    }
  }

  /** createDocument with a full schema; `q` is the index whose header the fill zeroes, `harmless` says that it is
      written again. */
  method Insert(file: ZgdbFile, name: CString, elements: seq<Field>, reqToast: bool, minToastCapacity: nat, size: nat,
                parentHeader: Header, ghost docSize: nat, ghost q: Option<nat>,
                ghost rest: seq<Entry>)
    returns (ghost order: nat, ghost toast: nat)
    requires Consistent(file) && FieldsOk(elements) && docSize >= TOAST_HEADER && docSize == size
    requires var p := parentHeader.indexAttached;
             (p == 0 || p in Orders(file.tree)) && IsDoc(file.View(), p) && parentHeader == file.View()[p].header
    requires (reqToast <==> HasTexts(elements)) && minToastCapacity == ChunksOf(elements)
    requires CanCreate(file)
    requires q == Struck(file, reqToast, ToastRequest(minToastCapacity))
    requires rest == AfterToast(file.freeList.entries, reqToast, ToastRequest(minToastCapacity))
    modifies file`index, file`blocks, file`zeroed, file`fileSize, file`layout, file`betweenSpace, file`nodes, file`tree
    modifies file`owner, file.freeList.Repr
    ensures fresh(file.freeList.Repr - old(file.freeList.Repr))
    ensures Spent(old(file.freeList.entries), file.freeList.entries, 2)
    ensures Making(old(file.View()), old(file.tree), parentHeader.indexAttached, name, docSize, elements)
              .Done(file, order, Repaired(q, parentHeader.indexAttached, rest, docSize), q)
    ensures file.fileSize == old(file.fileSize + Slid(file)
                                 + Growth(file.freeList.entries, reqToast, ToastRequest(minToastCapacity), docSize))
    ensures (toast != 0 <==> reqToast) &&
            Laid(file.View(), order, toast,
                 old(Room(file.freeList.entries, ToastRequest(minToastCapacity),
                          ToastRequest(minToastCapacity) + TOAST_HEADER)),
                 Room(rest, docSize, docSize))
  {
    hide Making.Done, Disk.View;
    ghost var v, index, repr := file.View(), file.index, file.freeList.Repr;
    ghost var m := Making(v, file.tree, parentHeader.indexAttached, name, docSize, elements);
    NodeFacts(v, index, file.tree, file.owner, 0);
    ChunksOfText(elements);
    var toastIndex := Prepare(file, reqToast, minToastCapacity);
    ghost var repr1 := file.freeList.Repr;
    assert fresh(repr1 - repr);
    toast := toastIndex;
    order := Complete(file, name, elements, size, parentHeader, toastIndex, m, index, q, rest);
    assert fresh(file.freeList.Repr - repr1);
  }

  /** What comes after the toast, and where the document goes. */
  method Complete(file: ZgdbFile, name: CString, elements: seq<Field>, docSize: nat, parentHeader: Header,
                  toastIndex: nat,
                  ghost m: Making, ghost index: seq<IndexEntry>, ghost q: Option<nat>,
                  ghost rest: seq<Entry>)
    returns (ghost order: nat)
    requires m == Making(m.v, file.tree, parentHeader.indexAttached, name, docSize, elements)
    requires file.Standing() && file.nodes == 1 + Size(file.tree) && file.freeList.newIndexesCount >= 1
    requires FieldsOk(elements) && docSize >= TOAST_HEADER
    requires Site(m.v, index, file.View(), file.index, file.tree, file.owner).Ready(parentHeader, toastIndex, elements)
    requires toastIndex != 0 ==> file.Whole(toastIndex)
    requires file.zeroed == ZgdbFile.OffsetOf(file.index, q) && (q.Some? ==> ZgdbFile.HasBlock(file.index, q.value))
    requires SameTail(file.freeList.entries, rest)
    modifies file`index, file`blocks, file`zeroed, file`fileSize, file`layout, file`nodes, file`tree, file`owner
    modifies file.freeList.Repr
    ensures fresh(file.freeList.Repr - old(file.freeList.Repr))
    ensures Spent(old(file.freeList.entries), file.freeList.entries, 1)
    ensures m.Done(file, order, Repaired(q, m.p, rest, docSize), q)
    ensures Laid(file.View(), order, toastIndex, old(RoomOf(file.View(), toastIndex)), Room(rest, docSize, docSize))
    ensures file.fileSize == old(file.fileSize) + if LastFits(rest, docSize) then 0 else docSize
  {
    GoesTo(file, rest, docSize, q);
    ghost var cap;
    order, cap := Finish(file, name, elements, docSize, parentHeader, toastIndex, m, index, q);
  }

  /** The file once the indexes and the toast of a new document are there: v and index are the state before. */
  datatype Site = Site(v: View, index: seq<IndexEntry>, v1: View, index1: seq<IndexEntry>, tree: Forest,
                       owner: Owners) {
    ghost predicate Ready(parentHeader: Header, toastIndex: nat, elements: seq<Field>) {
      match this
      case Site(v, index, v1, index1, tree, owner) =>
        && RecordsOk(v, index, tree, owner) && IsDoc(v, 0)
        && (parentHeader.indexAttached == 0 || parentHeader.indexAttached in Orders(tree))
        && IsDoc(v, parentHeader.indexAttached) && parentHeader == v[parentHeader.indexAttached].header
        && (forall x: nat :: StaysAlive(index, index1, x))
        && (toastIndex != 0 ==> Appeared(index, index1, toastIndex))
        && ToastAdded(v, v1, toastIndex, ChunksOf(elements)) && (HasTexts(elements) <==> toastIndex != 0)
    }
  }

  /** The second half of createDocument, once the indexes and the toast are there. */
  method Finish(file: ZgdbFile, name: CString, elements: seq<Field>, docSize: nat, parentHeader: Header,
                toastIndex: nat,
                ghost m: Making, ghost index: seq<IndexEntry>, ghost q: Option<nat>)
    returns (ghost order: nat, ghost cap: nat)
    requires m == Making(m.v, file.tree, parentHeader.indexAttached, name, docSize, elements)
    requires file.Standing() && file.nodes == 1 + Size(file.tree) && file.freeList.newIndexesCount >= 1
    requires FieldsOk(elements) && docSize >= TOAST_HEADER
    requires Site(m.v, index, file.View(), file.index, file.tree, file.owner).Ready(parentHeader, toastIndex, elements)
    requires toastIndex != 0 ==> file.Whole(toastIndex)
    requires file.zeroed == ZgdbFile.OffsetOf(file.index, q) && (q.Some? ==> ZgdbFile.HasBlock(file.index, q.value))
    modifies file`index, file`blocks, file`zeroed, file`fileSize, file`layout, file`nodes, file`tree, file`owner
    modifies file.freeList.Repr
    ensures fresh(file.freeList.Repr - old(file.freeList.Repr))
    ensures Spent(old(file.freeList.entries), file.freeList.entries, 1)
    ensures Relevant(old(file.freeList.entries), docSize).Some? && order == old(file.Chosen(docSize)).order
    ensures m.Done(file, order, q.None? || q.value == m.p || q.value == order, q)
    ensures Laid(file.View(), order, toastIndex, old(RoomOf(file.View(), toastIndex)), cap)
    ensures ZgdbFile.ReusesDead(old(file.freeList.entries), docSize, cap, file.fileSize - old(file.fileSize))
  {
    hide RecordsOk, Making.Done, Written, ZgdbFile.OneAttached, ZgdbFile.View, ToastAt;
    ghost var index1, v1 := file.index, file.View();
    var newOrder;
    ghost var filled, used, es;
    newOrder, filled, used, cap, es := Build(file, name, elements, docSize, parentHeader.indexSon, toastIndex);
    order := newOrder;
    Settle(file, m, cap, parentHeader, newOrder,
           Creation(m.v, filled, m.v, m.p, newOrder, toastIndex, used, es, elements), v1, index, index1, q);
  }

  /** The end of createDocument, once everything but the parent's header is written. */
  method Settle(file: ZgdbFile, ghost m: Making, ghost cap: nat, parentHeader: Header, newOrder: nat,
                ghost c: Creation, ghost v1: View, ghost index: seq<IndexEntry>, ghost index1: seq<IndexEntry>,
                ghost q: Option<nat>)
    requires file.Standing() && file.nodes == 1 + Size(file.tree) && 0 < m.size <= cap
    requires Site(c.v, index, v1, index1, file.tree, file.owner).Ready(parentHeader, c.t, c.fs)
    requires m == Making(c.v, file.tree, c.p, m.name, m.size, c.fs) && c.p == parentHeader.indexAttached
    requires c.o == newOrder
    requires ZgdbFile.OneAttached(index1, c.o, file.index) && Filled(v1, c.filled, c.t, c.used)
    requires Written(c.filled, c.t, c.used, c.es, c.fs)
    requires file.View() == c.filled[c.o := ZgdbFile.NewDocument(m.size, cap, c.o, parentHeader.indexSon, c.t, m.name,
                                                                 c.es)]
    requires file.zeroed == ZgdbFile.OffsetOf(index1, q) - {file.index[c.o].offset}
    requires q.Some? ==> ZgdbFile.HasBlock(index1, q.value)
    modifies file`nodes, file`blocks, file`zeroed, file`tree, file`owner
    ensures m.Done(file, c.o, q.None? || q.value == c.p || q.value == c.o, q)
    ensures Laid(file.View(), c.o, c.t, RoomOf(c.filled, c.t), cap)
  {
    hide Laid;
    NodeFacts(c.v, index, file.tree, file.owner, c.p);
    ghost var w := BuiltOk(c, v1, file.View(), m.size, cap, m.name, index, index1, file.index, file.tree, file.owner);
    assert StaysAlive(index, index1, c.p);
    TakeIn(file, parentHeader, newOrder, c, w, m, index1, q);
  }

  /** The end of createDocument: the new document becomes its parent's son. */
  method TakeIn(file: ZgdbFile, parentHeader: Header, newOrder: nat, ghost c: Creation, ghost w: View, ghost m: Making,
                ghost index1: seq<IndexEntry>, ghost q: Option<nat>)
    requires file.Standing() && file.nodes == 1 + Size(file.tree)
    requires c.p == parentHeader.indexAttached && c.o == newOrder && c.p in c.v && c.v[c.p].Document?
    requires Linking(file.View(), file.index, file.tree, file.owner, parentHeader, newOrder, c.v[c.p].elements, w, c.t)
    requires m == Making(c.v, file.tree, c.p, m.name, m.size, c.fs)
    requires Created(c.v, file.tree, w, WithChild(file.tree, c.p, c.o), c.p, c.o, m.name, m.size, c.fs)
    requires ZgdbFile.OneAttached(index1, c.o, file.index) && IsAlive(index1, c.p)
    requires q.Some? ==> ZgdbFile.HasBlock(index1, q.value)
    requires file.zeroed == ZgdbFile.OffsetOf(index1, q) - {file.index[c.o].offset}
    modifies file`nodes, file`blocks, file`zeroed, file`tree, file`owner
    ensures m.Done(file, c.o, q.None? || q.value == c.p || q.value == c.o, q) && file.View() == w
  {
    Link(file, parentHeader, newOrder, c.v[c.p].elements, w, c.t);
    StillZeroed(file, q, c.p, newOrder, index1);
    ShownReads(file, newOrder);
  }

  /** Once the header of the parent p is written, the view is w, and in order with document o below p. */
  ghost predicate Linking(view: View, index: seq<IndexEntry>, tree: Forest, owner: Owners, parentHeader: Header, o: nat,
                          es: seq<Stored>, w: View, t: nat) {
    var p := parentHeader.indexAttached;
    && p in view && view[p] == Document(parentHeader, es)
    && w == view[p := Document(parentHeader.(indexSon := o), es)]
    && RecordsOk(w, index, WithChild(tree, p, o), OwnersWith(owner, t, o))
    && Size(WithChild(tree, p, o)) == Size(tree) + 1
  }

  /** Once the parent's header is written, the new document is where it belongs. */
  lemma BuiltOk(c: Creation, v1: View, built: View, docSize: nat, cap: nat, name: CString,
                index: seq<IndexEntry>, index1: seq<IndexEntry>, index2: seq<IndexEntry>, tree: Forest, owner: Owners)
    returns (w: View)
    requires RecordsOk(c.v, index, tree, owner) && (c.p == 0 || c.p in Orders(tree))
    requires forall x: nat :: StaysAlive(index, index1, x)
    requires ZgdbFile.OneAttached(index1, c.o, index2) && (c.t != 0 ==> Appeared(index, index1, c.t))
    requires ToastAdded(c.v, v1, c.t, ChunksOf(c.fs)) && Filled(v1, c.filled, c.t, c.used)
    requires Written(c.filled, c.t, c.used, c.es, c.fs)
    requires IsDoc(c.v, c.p) && 0 < docSize <= cap
    requires built == c.filled[c.o := ZgdbFile.NewDocument(docSize, cap, c.o, c.v[c.p].header.indexSon, c.t, name,
                                                           c.es)]
    ensures c.p in built && built[c.p] == c.v[c.p]
    ensures w == built[c.p := Document(c.v[c.p].header.(indexSon := c.o), c.v[c.p].elements)]
    ensures RecordsOk(w, index2, WithChild(tree, c.p, c.o), OwnersWith(owner, c.t, c.o))
    ensures Created(c.v, tree, w, WithChild(tree, c.p, c.o), c.p, c.o, name, docSize, c.fs)
    ensures Size(WithChild(tree, c.p, c.o)) == Size(tree) + 1
    ensures Laid(w, c.o, c.t, RoomOf(c.filled, c.t), cap)
  {
    NodeFacts(c.v, index, tree, owner, c.p);
    NodeFacts(c.v, index, tree, owner, 0);
    Alive3(index, index1, index2, c.o, c.t, c.p);
    HappenedBy(c, v1, built, docSize, cap, name, ChunksOf(c.fs));
    w := built[c.p := Document(c.v[c.p].header.(indexSon := c.o), c.v[c.p].elements)];
    CreationOk(c.(w := w), index, index2, tree, owner);
  }

  lemma Alive3(index: seq<IndexEntry>, index1: seq<IndexEntry>, index2: seq<IndexEntry>, o: nat, t: nat, p: nat)
    requires forall x: nat :: StaysAlive(index, index1, x)
    requires ZgdbFile.OneAttached(index1, o, index2)
    requires (t != 0 ==> Appeared(index, index1, t)) && IsAlive(index, p) && IsAlive(index, 0)
    ensures forall x: nat :: StaysAlive(index, index2, x)
    ensures Appeared(index, index2, o) && (t != 0 ==> Appeared(index, index2, t))
    ensures o != t && o != p && o != 0 && (t != 0 ==> t != p)
  {
    forall x: nat ensures StaysAlive(index, index2, x) {
      assert StaysAlive(index, index1, x);
    }
    assert StaysAlive(index, index1, o) && StaysAlive(index, index1, p) && StaysAlive(index, index1, 0);
  }

  lemma HappenedBy(c: Creation, v1: View, built: View, docSize: nat, cap: nat, name: CString, total: nat)
    requires IsDoc(c.v, c.p) && IsDoc(c.v, 0) && c.o != 0 && c.o != c.p && c.o != c.t && (c.t != 0 ==> c.p != c.t)
    requires ToastAdded(c.v, v1, c.t, total) && Filled(v1, c.filled, c.t, c.used)
    requires Written(c.filled, c.t, c.used, c.es, c.fs) && 0 < docSize <= cap
    requires built == c.filled[c.o := ZgdbFile.NewDocument(docSize, cap, c.o, c.v[c.p].header.indexSon, c.t, name,
                                                           c.es)]
    ensures c.p in built && built[c.p] == c.v[c.p] && IsDoc(built, c.o)
    ensures built[c.o].header.name == name && built[c.o].header.size == docSize
    ensures c.(w := built[c.p := Document(c.v[c.p].header.(indexSon := c.o), c.v[c.p].elements)]).Happened()
  {
    assert Filled(c.v, c.filled, c.t, c.used);
  }

  /** The end of createDocument: counts the node and makes it its parent's son. */
  method Link(file: ZgdbFile, parentHeader: Header, newOrder: nat, ghost es: seq<Stored>, ghost w: View, ghost t: nat)
    requires file.Standing() && file.nodes == 1 + Size(file.tree)
    requires Linking(file.View(), file.index, file.tree, file.owner, parentHeader, newOrder, es, w, t)
    modifies file`nodes, file`blocks, file`zeroed, file`tree, file`owner
    ensures Restorable(file)
    ensures var p := parentHeader.indexAttached;
            p < |file.index| && file.zeroed == old(file.zeroed) - {file.index[p].offset}
    ensures file.View() == w && file.tree == WithChild(old(file.tree), parentHeader.indexAttached, newOrder)
  {
    hide Disk.View;
    file.nodes := file.nodes + 1;
    WriteHeader(file, parentHeader.(indexSon := newOrder));
    Record(file, WithChild(file.tree, parentHeader.indexAttached, newOrder), OwnersWith(file.owner, t, newOrder));
  }

  lemma CreationOk(c: Creation, index: seq<IndexEntry>, index': seq<IndexEntry>, tree: Forest, owner: Owners)
    requires c.Happened() && RecordsOk(c.v, index, tree, owner) && (c.p == 0 || c.p in Orders(tree))
    requires Appeared(index, index', c.o) && forall x: nat :: StaysAlive(index, index', x)
    requires c.t != 0 ==> Appeared(index, index', c.t)
    ensures RecordsOk(c.w, index', WithChild(tree, c.p, c.o), OwnersWith(owner, c.t, c.o))
    ensures Created(c.v, tree, c.w, WithChild(tree, c.p, c.o), c.p, c.o, c.w[c.o].header.name, c.w[c.o].header.size,
                    c.fs)
    ensures Size(WithChild(tree, c.p, c.o)) == Size(tree) + 1
  {
    hide DocOk;
    NodeFacts(c.v, index, tree, owner, 0);
    CreationLinks(c, index, tree, owner);
    CreationRecord(c, owner);
    forall x: nat ensures RoomKept(c.v, c.w, x) {
    }
    CreatedOk(c.v, c.w, index, index', tree, owner, c.p, c.o, c.t);
  }

  /** Which header is still missing once those of the parent p and the new document o are written. */
  lemma StillZeroed(file: ZgdbFile, q: Option<nat>, p: nat, o: nat, index1: seq<IndexEntry>)
    requires file.Standing() && ZgdbFile.OneAttached(index1, o, file.index) && IsAlive(index1, p)
    requires q.Some? ==> ZgdbFile.HasBlock(index1, q.value)
    requires file.zeroed == ZgdbFile.OffsetOf(index1, q) - {file.index[o].offset} - {file.index[p].offset}
    ensures file.zeroed == if q.None? || q.value == p || q.value == o then {} else ZgdbFile.OffsetOf(file.index, q)
    ensures file.zeroed == {} <==> q.None? || q.value == p || q.value == o
  {
    var d := file.Image();
    assert d.Listed(p) && d.Listed(o);
    if q.Some? {
      assert d.Listed(q.value);
      if q.value != p { OffsetsDistinct(d, d.Base(), q.value, p); }
      if q.value != o { OffsetsDistinct(d, d.Base(), q.value, o); }
    }
  }

  /** The document goes to the block of index q exactly if that is the largest dead block and large enough. */
  lemma GoesTo(file: ZgdbFile, rest: seq<Entry>, docSize: nat, q: Option<nat>)
    requires file.Standing() && file.freeList.newIndexesCount >= 1 && docSize > 0
    requires SameTail(file.freeList.entries, rest)
    requires q.Some? ==> ZgdbFile.HasBlock(file.index, q.value)
    ensures Relevant(file.freeList.entries, docSize).Some?
    ensures LastFits(file.freeList.entries, docSize) <==> LastFits(rest, docSize)
    ensures q.Some? ==>
              (file.Chosen(docSize).order == q.value <==> LastFits(rest, docSize) && rest[|rest| - 1].order == q.value)
  {
    var s, d := file.freeList.entries, file.Image();
    ServedFrom(s, docSize);
    EntryIsFree(d, d.Base(), s, Relevant(s, docSize).value);
    if q.Some? { assert d.Listed(q.value); }
  }

  /** Indexes and toast, in this order. */
  method Prepare(file: ZgdbFile, reqToast: bool, minToastCapacity: nat) returns (toastIndex: nat)
    requires file.Valid() && IsAlive(file.index, 0) && (reqToast ==> minToastCapacity > 0)
    requires CanCreate(file)
    modifies file`index, file`blocks, file`zeroed, file`fileSize, file`layout, file`betweenSpace, file.freeList.Repr
    ensures file.Standing() && fresh(file.freeList.Repr - old(file.freeList.Repr))
    ensures Spent(old(file.freeList.entries), file.freeList.entries, 1)
    ensures file.freeList.newIndexesCount >= 1
    ensures toastIndex == 0 <==> !reqToast
    ensures toastIndex != 0 ==> Appeared(old(file.index), file.index, toastIndex) && file.Whole(toastIndex)
    ensures forall x: nat :: StaysAlive(old(file.index), file.index, x)
    ensures ToastAdded(old(file.View()), file.View(), toastIndex, minToastCapacity)
    ensures var q := old(Struck(file, reqToast, ToastRequest(minToastCapacity)));
            file.zeroed == ZgdbFile.OffsetOf(file.index, q) && (q.Some? ==> ZgdbFile.HasBlock(file.index, q.value))
    ensures SameTail(file.freeList.entries,
                     AfterToast(old(file.freeList.entries), reqToast, ToastRequest(minToastCapacity)))
    ensures file.fileSize == old(file.fileSize + Slid(file)) +
              if reqToast && !LastFits(old(file.freeList.entries), ToastRequest(minToastCapacity))
              then ToastRequest(minToastCapacity) + TOAST_HEADER else 0
    ensures toastIndex != 0 ==>
              Capacity(file.View()[toastIndex]) ==
              Room(old(file.freeList.entries), ToastRequest(minToastCapacity),
                   ToastRequest(minToastCapacity) + TOAST_HEADER)
  {
    hide Disk.Ok;
    ghost var s, start, index := file.freeList.entries, |file.index|, file.index;
    ghost var gained := EnsureIndexes(file);
    ghost var index1, t := file.index, file.freeList.entries;
    BehindNew(start, gained, s, t);
    assert StaysAlive(index, index1, 0);
    toastIndex := PrepareToast(file, reqToast, minToastCapacity);
    forall x: nat ensures StaysAlive(index, file.index, x) {
      assert StaysAlive(index, index1, x) && StaysAlive(index1, file.index, x);
    }
    if toastIndex != 0 { assert StaysAlive(index, index1, toastIndex); }
    TailAfter(s, t, file.freeList.entries, reqToast, ToastRequest(minToastCapacity));
  }
}
