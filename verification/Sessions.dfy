/** A file over a whole session: whatever sequence of operations it goes through, it behaves like a simple store of
    named documents in a tree. */
module Sessions {
  import opened Blocks
  import opened FreeLists
  import FreeListFiles
  import opened Disks
  import opened Tilings
  import opened Texts
  import opened Records
  import opened Schemas
  import opened ElementWriters
  import opened Forests
  import opened Catalogs
  import opened Storage
  import opened DocIterators
  import opened Documents
  import opened Deletion
  import opened TextThreads
  import opened TextUpdates
  import opened ElementUpdates

  // ---------- the simple store ----------

  datatype Content = Content(name: CString, fields: seq<Field>)

  /** The tree below the root, and what each of its documents says. */
  datatype Store = Store(tree: Forest, docs: map<nat, Content>)

  datatype Event =
    | Added(parent: nat, order: nat, name: CString, fields: seq<Field>)
    | Removed(order: nat)
    | Changed(order: nat, i: nat, field: Field)
    | Restarted
    | Refused(why: Reason)

  /** Why a command is not carried out: there is no such document, its data are no good, or the file cannot serve it. */
  datatype Reason = NoDocument | BadInput | NotNow

  ghost function Apply(s: Store, e: Event): Store {
    match e
    case Added(p, o, name, fs) => Store(WithChild(s.tree, p, o), s.docs[o := Content(name, fs)])
    case Removed(o) =>
      var tree := Cut(s.tree, o);
      Store(tree, map x | x in s.docs && x in Orders(tree) :: s.docs[x])
    case Changed(o, i, f) =>
      if o in s.docs && i < |s.docs[o].fields|
      then Store(s.tree, s.docs[o := s.docs[o].(fields := s.docs[o].fields[i := f])])
      else s
    case Restarted => s
    case Refused(_) => s
  }

  ghost function ApplyAll(s: Store, es: seq<Event>): Store
    decreases es
  {
    if es == [] then s else ApplyAll(Apply(s, es[0]), es[1..])
  }

  /** Deleting a document that was just created undoes the creation. */
  lemma CreationUndone(s: Store, p: nat, o: nat, name: CString, fs: seq<Field>)
    requires o !in Orders(s.tree) && o != p && forall x :: x in s.docs <==> x in Orders(s.tree)
    ensures ApplyAll(s, [Added(p, o, name, fs), Removed(o)]) == s
  {
    var e, d := Added(p, o, name, fs), Removed(o);
    CutWithChild(s.tree, p, o);
    assert [e, d][1..] == [d] && [d][1..] == [];
    assert Apply(Apply(s, e), d).docs == s.docs;
    assert ApplyAll(Apply(s, e), [d]) == ApplyAll(Apply(Apply(s, e), d), []);
  }

  // ---------- the file as a store ----------

  ghost function ContentOf(view: View, o: nat): Content {
    if IsDoc(view, o) && AllPresent(view, SlotsOf(view, o)) then Content(view[o].header.name, Fields(view, o))
        else Content([], [])
  }

  ghost function StoreOf(c: Catalog): Store {
    Store(c.tree, map o | o in Orders(c.tree) :: ContentOf(c.view, o))
  }

  ghost function CatalogOf(file: ZgdbFile): Catalog
    reads file
  {
    Catalog(file.View(), file.index, file.tree, file.owner)
  }

  /** What the operations promise about one event. */
  ghost predicate Step(c: Catalog, e: Event, c': Catalog) {
    match e
    case Added(p, o, name, fs) =>
      && (p == 0 || p in Orders(c.tree))
      && exists size, written ::
           fs == StoredFields(written) && Created(c.view, c.tree, c'.view, c'.tree, p, o, name, size, written)
    case Removed(o) =>
      && o in Orders(c.tree)
      && exists toasts :: Deleted(c.view, c.index, c.tree, c.owner, c'.view, c'.index, c'.tree, o, toasts)
    case Changed(o, i, f) =>
      o in Orders(c.tree) && c'.tree == c.tree && FieldUpdated(c.view, c'.view, c.tree, o, i, f.value)
      && f.key == c.view[o].elements[i].key
    case Restarted => c' == c
    case Refused(_) => StoreOf(c') == StoreOf(c)
  }

  lemma SameContents(v: View, w: View, orders: seq<nat>)
    requires AllReadSame(v, w, orders)
    ensures forall o :: o in orders ==> ContentOf(w, o) == ContentOf(v, o)
  {
    forall o | o in orders ensures ContentOf(w, o) == ContentOf(v, o) {
      assert ReadsSame(v, w, o);
    }
  }

  /** One operation on the file is one event of the store. */
  lemma StepRefines(c: Catalog, e: Event, c': Catalog)
    requires Distinct(c.tree) && Step(c, e, c')
    ensures StoreOf(c') == Apply(StoreOf(c), e)
  {
    match e {
      case Added(p, o, name, fs) => CreationRefines(c, p, o, name, fs, c');
      case Removed(o) => DeletionRefines(c, o, c');
      case Changed(o, i, f) => UpdateRefines(c, o, i, f, c');
      case Restarted =>
      case Refused(_) =>
    }
  }

  lemma CreationRefines(c: Catalog, p: nat, o: nat, name: CString, fs: seq<Field>, c': Catalog)
    requires Distinct(c.tree) && Step(c, Added(p, o, name, fs), c')
    ensures StoreOf(c') == Apply(StoreOf(c), Added(p, o, name, fs))
  {
    var size, written :| fs == StoredFields(written)
        && Created(c.view, c.tree, c'.view, c'.tree, p, o, name, size, written);
    WithChildMembers(c.tree, p, o);
    SameContents(c.view, c'.view, Orders(c.tree));
    assert StoreOf(c').docs == Apply(StoreOf(c), Added(p, o, name, fs)).docs;
  }

  lemma DeletionRefines(c: Catalog, o: nat, c': Catalog)
    requires Distinct(c.tree) && Step(c, Removed(o), c')
    ensures StoreOf(c') == Apply(StoreOf(c), Removed(o))
  {
    CutMembers(c.tree, o);
    SameContents(c.view, c'.view, Orders(c'.tree));
    assert StoreOf(c').docs == Apply(StoreOf(c), Removed(o)).docs;
  }

  lemma UpdateRefines(c: Catalog, o: nat, i: nat, f: Field, c': Catalog)
    requires Distinct(c.tree) && Step(c, Changed(o, i, f), c')
    ensures StoreOf(c') == Apply(StoreOf(c), Changed(o, i, f))
  {
    var s, s' := StoreOf(c), StoreOf(c');
    forall x | x in Orders(c.tree) && x != o ensures ContentOf(c'.view, x) == ContentOf(c.view, x) {
      assert ReadsSame(c.view, c'.view, x);
    }
    assert s'.docs == Apply(s, Changed(o, i, f)).docs;
  }

  /** No operation makes the tree list a document twice. */
  lemma StepDistinct(c: Catalog, e: Event, c': Catalog)
    requires Distinct(c.tree) && Step(c, e, c')
    ensures Distinct(c'.tree)
  {
    match e {
      case Added(p, o, _, _) =>
        if p == 0 {
          DistinctParts(c'.tree);
        } else {
          WithChildOrders(c.tree, p, o);
          NoDuplicatesMultiset(Orders(c.tree));
          NoDuplicatesMultiset(Orders(c'.tree));
        }
      case Removed(o) => CutDistinct(c.tree, o);
      case Changed(_, _, _) =>
      case Restarted =>
      case Refused(_) =>
    }
  }

  /** A run: every state follows from the one before by an operation. */
  ghost predicate Run(states: seq<Catalog>, events: seq<Event>)
    decreases events
  {
    && |states| == |events| + 1
    && (events == [] || (Step(states[0], events[0], states[1]) && Run(states[1..], events[1..])))
  }

  /** After any run the file shows what the simple store would hold, and its tree lists no document twice. */
  lemma {:induction false} RunRefines(states: seq<Catalog>, events: seq<Event>)
    requires Run(states, events) && Distinct(states[0].tree)
    ensures Distinct(states[|events|].tree) && StoreOf(states[|events|]) == ApplyAll(StoreOf(states[0]), events)
    decreases events
  {
    if events != [] {
      StepRefines(states[0], events[0], states[1]);
      StepDistinct(states[0], events[0], states[1]);
      RunRefines(states[1..], events[1..]);
    }
  }

  // ---------- the operations, as steps of a run ----------

  /** A new file is in order and holds no documents but the root. */
  method NewFile() returns (file: ZgdbFile)
    ensures fresh(file) && fresh(file.freeList) && fresh(file.freeList.Repr)
    ensures Consistent(file) && StoreOf(CatalogOf(file)) == Store(Empty, map[])
    ensures file.View() == map[0 := ZgdbFile.RootBlock()] && file.layout == [0] && file.tree == Empty
    ensures file.fileSize == 450112 && file.betweenSpace == 0 && file.freeList.entries == NewEntries(1, 49999)
  {
    hide Disk.View, ZgdbFile.Standing, RecordsOk, StoreOf;
    file := new ZgdbFile.Create();
    RootAlone(file.View(), file.index);
  }

  lemma RootAlone(v: View, index: seq<IndexEntry>)
    requires v == map[0 := ZgdbFile.RootBlock()] && IsAlive(index, 0)
    ensures RecordsOk(v, index, Empty, map[]) && StoreOf(Catalog(v, index, Empty, map[])) == Store(Empty, map[])
  {
    assert StoreOf(Catalog(v, index, Empty, map[])).docs == map[];
  }

  /** finish and init again. */
  method Reload(file: ZgdbFile)
    requires Consistent(file)
    modifies file`freeList
    ensures Consistent(file) && fresh(file.freeList.Repr)
    ensures Step(old(CatalogOf(file)), Restarted, CatalogOf(file))
    ensures file.Image() == old(file.Image())
    ensures file.freeList.entries == FreeListFiles.Rebuilt(old(file.freeList.entries))
  {
    ghost var c := CatalogOf(file);
    file.Reopen();
    assert CatalogOf(file) == c;
  }

  /** createDocument is a step of the store exactly if the fill of the toast does no harm. */
  method Create(file: ZgdbFile, name: CString, schema: DocumentSchema, parent: Doc)
    returns (status: CreateStatus, ghost e: Event)
    requires Consistent(file) && schema.Valid() && schema !in file.freeList.Repr
    requires |name| < KEY_SIZE && NulFree(name)
    requires parent.header.indexAttached == 0 || parent.header.indexAttached in Orders(file.tree)
    requires CanCreate(file)
    modifies file`index, file`blocks, file`zeroed, file`fileSize, file`layout, file`betweenSpace, file`nodes, file`tree
    modifies file`owner, file.freeList.Repr
    ensures fresh(file.freeList.Repr - old(file.freeList.Repr)) && Restorable(file)
    ensures status == if |schema.elements| == schema.capacity then CREATE_OK else OUT_OF_INDEX
    ensures Spent(old(file.freeList.entries), file.freeList.entries, 2)
    ensures status == CREATE_OK ==> (Consistent(file) <==> old(Harmless(file, schema, parent.header.indexAttached)))
    ensures status == CREATE_OK ==> e.Added? && e.order !in Orders(old(file.tree))
                                    && file.tree == WithChild(old(file.tree), parent.header.indexAttached, e.order)
                                    && e.parent == parent.header.indexAttached && e.name == name
                                    && e.fields == StoredFields(schema.elements)
                                    && Step(old(CatalogOf(file)), e, CatalogOf(file))
    ensures status == CREATE_OK ==>
              e.Added? && Takes(old(file.freeList.entries), file.View(), e.order, schema.elements,
                    file.fileSize - old(file.fileSize + Slid(file)))
    ensures status != CREATE_OK ==> Consistent(file) && CatalogOf(file) == old(CatalogOf(file))
  {
    hide FillHarmless, ReadsOnDisk, ZgdbFile.Standing, Takes;
    ghost var order, docSize;
    status, order, docSize := CreateDocument(file, name, schema, parent);
    e := Added(parent.header.indexAttached, order, name, StoredFields(schema.elements));
  }

  /** The fill of the toast of a document with this schema below p does no harm. */
  ghost predicate Harmless(file: ZgdbFile, schema: DocumentSchema, p: nat)
    reads file, file.freeList, schema
  {
    FillHarmless(file, p, schema.reqToast, ToastRequest(schema.minToastCapacity), DOC_HEADER + SizeOf(schema.elements))
  }

  method Delete(file: ZgdbFile, doc: Doc) returns (ghost e: Event)
    requires Consistent(file) && !doc.isRoot
    requires doc.indexParent == 0 || doc.indexParent in Orders(file.tree)
    requires doc.header.indexAttached in Roots(Kids(file.tree, doc.indexParent))
    requires IsDoc(file.View(), doc.header.indexAttached)
    requires doc.header == file.View()[doc.header.indexAttached].header
    modifies file`index, file`blocks, file`zeroed, file`nodes, file`tree, file`owner, file.freeList.Repr
    ensures Consistent(file) && fresh(file.freeList.Repr - old(file.freeList.Repr))
    ensures e == Removed(doc.header.indexAttached) && Step(old(CatalogOf(file)), e, CatalogOf(file))
    ensures file.freeList.newIndexesCount == old(file.freeList.newIndexesCount)
  {
    ghost var p := doc.indexParent;
    EncodesOrders(file.View(), file.View()[0].header.indexSon, file.tree);
    BelowChild(file.tree, p, doc.header.indexAttached);
    ghost var toasts := DeleteDocument(file, doc);
    e := Removed(doc.header.indexAttached);
  }

  /** An update is a step of the store exactly if the text does not grow away from the document's first toast and the
      fill of a new toast hits nothing but that. */
  method Change(file: ZgdbFile, doc: Doc, key: CString, input: Input) returns (status: UpdateStatus, ghost e: Event)
    requires Consistent(file) && doc.header.indexAttached in Orders(file.tree)
    requires IsDoc(file.View(), doc.header.indexAttached)
    requires doc.header == file.View()[doc.header.indexAttached].header && NulFree(input.text)
    requires var o := doc.header.indexAttached; CanUpdate(file, o, KeyIndex(file.View()[o].elements, key), input.text)
    modifies file`index, file`blocks, file`zeroed, file`fileSize, file`layout, file`owner, file.freeList.Repr
    ensures fresh(file.freeList.Repr - old(file.freeList.Repr))
    ensures Spent(old(file.freeList.entries), file.freeList.entries, 1)
    ensures status == ExpectedStatus(old(file.View())[doc.header.indexAttached].elements, key, input)
    ensures status == UPDATE_OK ==>
              var o := doc.header.indexAttached; var i := KeyIndex(old(file.View())[o].elements, key);
              var away, q := GrowsAway(old(file.View()), o, i, input.text), old(Missing(file, o, i, input.text));
              && (Consistent(file) <==> !away && q.None?)
              && (away ==>
                    && 0 in old(file.View())
                    && RootDamaged(file, old(file.View())[0], q != Some(0),
                                   Lacking(old(file.View())[o].elements[i], input.text)))
              && (!away ==> Restorable(file) && (file.zeroed == {} <==> q.None?)
                            && e == Changed(o, i, Field(key, NewValue(old(file.View())[o].elements[i], input)))
                            && IsDoc(file.View(), o)
                            && file.View()[o].elements ==
                               old(file.View())[o].elements[i := NewStored(old(file.View())[o].elements[i], input)]
                            && Step(old(CatalogOf(file)), e, CatalogOf(file)))
    ensures status == UPDATE_OK ==>
              var o := doc.header.indexAttached; var i := KeyIndex(old(file.View())[o].elements, key);
              Lengthens(old(file.freeList.entries), old(file.View()), o, i, input.text,
                        file.fileSize - old(file.fileSize))
    ensures status != UPDATE_OK ==>
              && e == Refused(BadInput) && Consistent(file) && file.Image() == old(file.Image())
              && file.owner == old(file.owner)
              && file.freeList.entries == old(file.freeList.entries)
  {
    ghost var v, o := file.View(), doc.header.indexAttached;
    ghost var i := KeyIndex(v[o].elements, key);
    status := UpdateElement(file, doc, key, input);
    e := if status == UPDATE_OK then Changed(o, i, Field(key, NewValue(v[o].elements[i], input)))
        else Refused(BadInput);
  }

  /** The first child of a document, as a client gets it. */
  method FirstSon(file: ZgdbFile, p: nat) returns (doc: Doc)
    requires Consistent(file) && (p == 0 || p in Orders(file.tree)) && Kids(file.tree, p).Cons?
    ensures doc.indexParent == p && doc.header.indexAttached == Kids(file.tree, p).order
    ensures IsDoc(file.View(), doc.header.indexAttached) && doc.header == file.View()[doc.header.indexAttached].header
    ensures !doc.isRoot
  {
    NodeFacts(file.View(), file.index, file.tree, file.owner, p);
    if p != 0 { EncodesKids(file.View(), file.View()[0].header.indexSon, file.tree, p); }
    var parentHeader := GetDocumentHeader(file, p);
    var header := GetDocumentHeader(file, parentHeader.indexSon);
    doc := Doc(IsRootDocumentHeader(header), p, header);
  }

  /** Creating a document and deleting it again are two events of the store, and leave it as it was. */
  method CreateThenDelete(file: ZgdbFile, name: CString, schema: DocumentSchema, parent: Doc)
    returns (ghost added: Event, ghost between: Catalog, ghost removed: Event)
    requires Consistent(file) && schema.Valid() && schema !in file.freeList.Repr && |schema.elements| == schema.capacity
    requires |name| < KEY_SIZE && NulFree(name)
    requires parent.header.indexAttached == 0 || parent.header.indexAttached in Orders(file.tree)
    requires CanCreate(file) && Harmless(file, schema, parent.header.indexAttached)
    modifies file`index, file`blocks, file`zeroed, file`fileSize, file`layout, file`betweenSpace, file`nodes, file`tree
    modifies file`owner, file.freeList.Repr
    ensures added.Added?
    ensures added == Added(parent.header.indexAttached, added.order, name, StoredFields(schema.elements))
    ensures added.order !in Orders(old(file.tree)) && Step(old(CatalogOf(file)), added, between)
    ensures removed == Removed(added.order) && Step(between, removed, CatalogOf(file))
    ensures Consistent(file) && StoreOf(CatalogOf(file)) == old(StoreOf(CatalogOf(file)))
    ensures file.nodes == old(file.nodes)
  {
    hide ZgdbFile.Standing, ZgdbFile.View;
    ghost var c := CatalogOf(file);
    var p := parent.header.indexAttached;
    var status;
    status, added := Create(file, name, schema, parent);
    between := CatalogOf(file);
    JustCreated(c, p, added.order);
    var doc := FirstSon(file, p);
    removed := Delete(file, doc);
    Undone(c, added, between, removed, CatalogOf(file));
  }

  lemma JustCreated(c: Catalog, p: nat, o: nat)
    requires c.Ok() && (p == 0 || p in Orders(c.tree)) && o !in Orders(c.tree)
    ensures Kids(WithChild(c.tree, p, o), p) == Cons(o, Empty, Kids(c.tree, p))
    ensures p == 0 || p in Orders(WithChild(c.tree, p, o))
  {
    EncodesOrders(c.view, c.view[0].header.indexSon, c.tree);
    WithChildMembers(c.tree, p, o);
    WithChildKids(c.tree, p, o);
  }

  lemma Undone(c: Catalog, e: Event, c1: Catalog, d: Event, c2: Catalog)
    requires c.Ok() && c1.Ok() && e.Added? && e.order !in Orders(c.tree) && Step(c, e, c1) && d == Removed(e.order)
    requires Step(c1, d, c2)
    ensures StoreOf(c2) == StoreOf(c)
  {
    EncodesOrders(c.view, c.view[0].header.indexSon, c.tree);
    EncodesOrders(c1.view, c1.view[0].header.indexSon, c1.tree);
    StepRefines(c, e, c1);
    StepRefines(c1, d, c2);
    CreationUndone(StoreOf(c), e.parent, e.order, e.name, e.fields);
    assert [e, d][1..] == [d] && [d][1..] == [];
    assert ApplyAll(Apply(StoreOf(c), e), [d]) == ApplyAll(StoreOf(c2), []);
  }
}
