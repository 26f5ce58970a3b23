/** Deleting a document with everything below it. */
module Deletion {
  import opened Blocks
  import opened FreeLists
  import opened Disks
  import opened Tilings
  import opened Records
  import opened Forests
  import opened Catalogs
  import opened Storage
  import opened DocIterators
  import opened ResultLists
  import opened Documents

  // ---------- killing ----------

  /** From `index` to `index'`, exactly the ALIVE indexes among `gone` died. */
  ghost predicate Gone(index: seq<IndexEntry>, index': seq<IndexEntry>, gone: seq<nat>) {
    forall x: nat :: GoneExactly(index, index', gone, x)
  }

  lemma GoneOne(index: seq<IndexEntry>, index1: seq<IndexEntry>, gone: seq<nat>, o: nat)
    requires Gone(index, index1, gone) && o < |index1|
    ensures Gone(index, index1[o := index1[o].(flag := Dead)], gone + [o])
  {
    var index2 := index1[o := index1[o].(flag := Dead)];
    forall x: nat ensures GoneExactly(index, index2, gone + [o], x) {
      assert GoneExactly(index, index1, gone, x);
    }
  }

  /** Kills an ALIVE index and puts its block in the free list. */
  method Bury(file: ZgdbFile, order: nat, capacity: nat)
    requires file.Valid() && IsAlive(file.index, order)
    requires order in file.View() ==> capacity == Capacity(file.View()[order])
    modifies file`index, file.freeList.Repr
    ensures file.Valid() && fresh(file.freeList.Repr - old(file.freeList.Repr))
    ensures file.freeList.newIndexesCount == old(file.freeList.newIndexesCount)
    ensures file.View() == old(file.View())
    ensures order < |old(file.index)| && file.index == old(file.index)[order := old(file.index)[order].(flag := Dead)]
    ensures file.freeList.entries == Inserted(old(file.freeList.entries), Entry(order, capacity))
  {
    hide FreeList.Valid;
    assert file.Image().Listed(order);
    ghost var e, free := Entry(order, capacity), file.freeList.entries;
    InsertAtMultiset(free, FreeLists.Place(free, capacity), e);
    CountNewInsertAt(free, FreeLists.Place(free, capacity), e);
    KilledOk(file.Image(), order, free, Inserted(free, e));
    ListedInside(file.Image(), file.Image().Base(), order);
    ghost var d := Killed(file.Image(), order);
    var _ := file.KillIndex(order);
    file.freeList.InsertDeadIndex(order, capacity);
    assert file.Image() == d;
  }

  /** The consumer `del`. */
  method Del(document: Doc, file: ZgdbFile)
    requires file.Valid() && !document.isRoot && file.nodes > 0
    requires IsAlive(file.index, document.header.indexAttached)
    requires IsDoc(file.View(), document.header.indexAttached)
    requires document.header.capacity == file.View()[document.header.indexAttached].header.capacity
    modifies file`index, file`nodes, file.freeList.Repr
    ensures file.Valid() && fresh(file.freeList.Repr - old(file.freeList.Repr))
    ensures file.freeList.newIndexesCount == old(file.freeList.newIndexesCount)
    ensures file.View() == old(file.View()) && file.nodes == old(file.nodes) - 1
    ensures var o := document.header.indexAttached;
            o < |old(file.index)| && file.index == old(file.index)[o := old(file.index)[o].(flag := Dead)]
  {
    if !document.isRoot {
      Bury(file, document.header.indexAttached, document.header.capacity);
      file.nodes := file.nodes - 1;
    }
  }

  // ---------- forEachDocument with `del` ----------

  /** What deleting while iterating has done so far: of the traversal `all` the first documents, `done`, are dead. */
  ghost predicate Progress(all: seq<nat>, done: seq<nat>, rest: seq<nat>, index: seq<IndexEntry>,
                           index': seq<IndexEntry>) {
    all == done + rest && Gone(index, index', done)
  }

  lemma AliveInside(all: seq<nat>, done: seq<nat>, rest: seq<nat>, index: seq<IndexEntry>, index': seq<IndexEntry>)
    requires Progress(all, done, rest, index, index') && NoDuplicates(all) && rest != []
    requires forall x :: x in all ==> IsAlive(index, x)
    ensures IsAlive(index', rest[0]) && rest[0] in all
  {
    NoDuplicatesConcat(done, rest);
    assert rest[0] in all && GoneExactly(index, index', done, rest[0]);
  }

  lemma NextIsAlive(all: seq<nat>, done: seq<nat>, rest: seq<nat>, index: seq<IndexEntry>, index': seq<IndexEntry>)
    requires Progress(all, done, rest, index, index') && NoDuplicates(all) && rest != []
    requires forall x :: x in all ==> IsAlive(index, x) && x != 0
    ensures IsAlive(index', rest[0]) && rest[0] != 0
  {
    AliveInside(all, done, rest, index, index');
  }

  lemma ProgressNext(all: seq<nat>, done: seq<nat>, o: nat, rest: seq<nat>,
                     index: seq<IndexEntry>, index1: seq<IndexEntry>, index2: seq<IndexEntry>)
    requires Progress(all, done, [o] + rest, index, index1)
    requires o < |index1| && index2 == index1[o := index1[o].(flag := Dead)]
    ensures Progress(all, done + [o], rest, index, index2)
  {
    GoneOne(index, index1, done, o);
    assert done + ([o] + rest) == (done + [o]) + rest;
  }

  lemma GoneSame(index: seq<IndexEntry>, index': seq<IndexEntry>, gone: seq<nat>, same: seq<nat>)
    requires Gone(index, index', gone) && multiset(gone) == multiset(same)
    ensures Gone(index, index', same)
  {
    forall x: nat ensures GoneExactly(index, index', same, x) {
      assert GoneExactly(index, index', gone, x);
      assert (x in gone <==> x in multiset(gone)) && (x in same <==> x in multiset(same));
    }
  }

  /** Deleting while iterating: of the traversal `all` the first documents, `done`, are dead, the others ALIVE;
      `index` is the table before. */
  datatype Round = Round(index: seq<IndexEntry>, all: seq<nat>, done: seq<nat>) {
    ghost predicate Underway(file: ZgdbFile, docs: DocumentIterator)
      reads file, file.freeList, file.freeList.Repr, docs, docs.pStack, docs.pStack.data
    {
      match this
      case Round(index, all, done) =>
        && file.Valid() && docs.Valid() && docs.view == file.View() && docs.Apart(file)
        && NoDuplicates(all) && (forall x :: x in all ==> IsAlive(index, x) && x != 0)
        && Progress(all, done, VisitOrders(docs.Remaining()), index, file.index)
        && file.nodes >= |all| - |done|
    }
  }

  /** One round: fetches the next document and kills it. */
  method DelNext(file: ZgdbFile, docs: DocumentIterator, ghost index: seq<IndexEntry>, ghost all: seq<nat>,
                 ghost done: seq<nat>)
    returns (ghost done': seq<nat>)
    requires Round(index, all, done).Underway(file, docs) && docs.HasNextDoc()
    modifies file`index, file`nodes, file.freeList.Repr
    modifies docs`stop, docs`next, docs`pending, docs.pStack, docs.pStack.data
    ensures Round(index, all, done').Underway(file, docs)
    ensures fresh(file.freeList.Repr - old(file.freeList.Repr))
    ensures file.freeList.newIndexesCount == old(file.freeList.newIndexesCount)
    ensures docs.pStack.data == old(docs.pStack.data) || fresh(docs.pStack.data)
    ensures file.nodes == old(file.nodes) - 1 && |done'| == |done| + 1
    ensures |docs.Remaining()| < |old(docs.Remaining())|
  {
    hide ZgdbFile.Valid;
    ghost var rest := docs.Remaining();
    NextIsAlive(all, done, VisitOrders(rest), index, file.index);
    var doc, depth;
    ghost var v, index1 := Visit(0, 0, 0), file.index;
    doc, depth, v := docs.NextDoc(file);
    assert rest[0] == v && rest[1..] == docs.Remaining();
    Del(doc, file);
    ProgressNext(all, done, v.order, VisitOrders(docs.Remaining()), index, index1, file.index);
    done' := done + [v.order];
  }

  /** The loop of forEachDocument. */
  method DelAll(file: ZgdbFile, docs: DocumentIterator, ghost index: seq<IndexEntry>, ghost all: seq<nat>)
    requires Round(index, all, []).Underway(file, docs)
    modifies file`index, file`nodes, file.freeList.Repr
    modifies docs`stop, docs`next, docs`pending, docs.pStack, docs.pStack.data
    ensures file.Valid() && fresh(file.freeList.Repr - old(file.freeList.Repr))
    ensures file.freeList.newIndexesCount == old(file.freeList.newIndexesCount)
    ensures file.View() == old(file.View()) && file.nodes == old(file.nodes) - |all|
    ensures Gone(index, file.index, all)
  {
    hide ZgdbFile.Valid;
    ghost var done: seq<nat>, repr, data, nodes := [], file.freeList.Repr, docs.pStack.data, file.nodes;
    ghost var count := file.freeList.newIndexesCount;
    while docs.HasNextDoc()
      invariant Round(index, all, done).Underway(file, docs)
      invariant fresh(file.freeList.Repr - repr)
      invariant docs.pStack.data == data || fresh(docs.pStack.data)
      invariant file.nodes == nodes - |done| && file.freeList.newIndexesCount == count
      decreases |docs.Remaining()|
    {
      done := DelNext(file, docs, index, all, done);
    }
    assert done == all;
  }

  /** An iterator over the document `start`, its remaining siblings and everything below them, all of them ALIVE. */
  method StartDel(file: ZgdbFile, start: Doc, ghost f: Forest, ghost all: seq<nat>) returns (docs: DocumentIterator)
    requires file.Valid() && EncodesFrom(file.View(), f) && f.order == start.header.indexAttached
    requires all == VisitOrders(Visits(f, start.indexParent, 0)) && NoDuplicates(all) && file.nodes >= |all|
    requires forall x :: x in all ==> IsAlive(file.index, x) && x != 0
    ensures fresh(docs) && fresh(docs.pStack) && fresh(docs.pStack.data)
    ensures Round(file.index, all, []).Underway(file, docs)
  {
    docs := new DocumentIterator(start.header.indexAttached, start.indexParent, 0, file.View(), f);
    assert [] + all == all;
  }

  /** Kills the document `start`, its remaining siblings and everything below them, while iterating over them. */
  method ForEachDel(file: ZgdbFile, start: Doc, ghost f: Forest)
    requires file.Valid() && EncodesFrom(file.View(), f) && f.order == start.header.indexAttached
    requires Distinct(f) && 0 !in Orders(f) && file.nodes >= Size(f)
    requires forall x :: x in Orders(f) ==> IsAlive(file.index, x)
    modifies file`index, file`nodes, file.freeList.Repr
    ensures file.Valid() && fresh(file.freeList.Repr - old(file.freeList.Repr))
    ensures file.freeList.newIndexesCount == old(file.freeList.newIndexesCount)
    ensures file.View() == old(file.View()) && file.nodes == old(file.nodes) - Size(f)
    ensures Gone(old(file.index), file.index, Orders(f))
  {
    hide EncodesFrom, Visits, ZgdbFile.Valid, DocumentIterator.Valid;
    ghost var all, index := VisitOrders(Visits(f, start.indexParent, 0)), file.index;
    VisitsPermute(f, start.indexParent, 0);
    var docs := StartDel(file, start, f, all);
    DelAll(file, docs, index, all);
    GoneSame(index, file.index, all, Orders(f));
  }

  lemma VisitsPermute(f: Forest, parent: nat, depth: nat)
    requires Distinct(f)
    ensures var all := VisitOrders(Visits(f, parent, depth));
            && NoDuplicates(all) && |all| == Size(f) && multiset(all) == multiset(Orders(f))
            && forall x :: x in all <==> x in Orders(f)
  {
    var all := VisitOrders(Visits(f, parent, depth));
    VisitsOnce(f, parent, depth);
    NoDuplicatesMultiset(Orders(f));
    NoDuplicatesMultiset(all);
    forall x ensures x in all <==> x in Orders(f) {
      assert (x in all <==> x in multiset(all)) && (x in Orders(f) <==> x in multiset(Orders(f)));
    }
  }

  // ---------- the toasts of a document ----------

  lemma GoneThen(a: seq<IndexEntry>, b: seq<IndexEntry>, c: seq<IndexEntry>, gone: seq<nat>, more: seq<nat>)
    requires Gone(a, b, gone) && Gone(b, c, more)
    ensures Gone(a, c, gone + more)
  {
    forall x: nat ensures GoneExactly(a, c, gone + more, x) {
      assert GoneExactly(a, b, gone, x) && GoneExactly(b, c, more, x);
    }
  }

  /** Kills the toasts linked from `first`. */
  method FreeToasts(file: ZgdbFile, first: nat, ghost l: seq<nat>)
    requires file.Valid() && IsToastList(file.View(), first, l) && NoDuplicates(l)
    requires forall t :: t in l ==> IsAlive(file.index, t)
    modifies file`index, file.freeList.Repr
    ensures file.Valid() && fresh(file.freeList.Repr - old(file.freeList.Repr))
    ensures file.freeList.newIndexesCount == old(file.freeList.newIndexesCount)
    ensures file.View() == old(file.View())
    ensures Gone(old(file.index), file.index, l)
  {
    ghost var index, view, repr, done, rest: seq<nat> := file.index, file.View(), file.freeList.Repr, [], l;
    ghost var count := file.freeList.newIndexesCount;
    var order := first;
    while order != 0
      invariant file.Valid() && fresh(file.freeList.Repr - repr) && file.freeList.newIndexesCount == count
      invariant file.View() == view && IsToastList(view, order, rest)
      invariant Progress(l, done, rest, index, file.index)
      decreases |rest|
    {
      order, done, rest := FreeToast(file, order, index, l, done, rest);
    }
    assert done == l;
  }

  /** One round: kills a toast and goes on to the next. */
  method FreeToast(file: ZgdbFile, order: nat, ghost index: seq<IndexEntry>, ghost l: seq<nat>, ghost done: seq<nat>,
                   ghost rest: seq<nat>)
    returns (next: nat, ghost done': seq<nat>, ghost rest': seq<nat>)
    requires file.Valid() && order != 0 && IsToastList(file.View(), order, rest)
    requires Progress(l, done, rest, index, file.index) && NoDuplicates(l) && forall t :: t in l ==> IsAlive(index, t)
    modifies file`index, file.freeList.Repr
    ensures file.Valid() && fresh(file.freeList.Repr - old(file.freeList.Repr)) && file.View() == old(file.View())
    ensures file.freeList.newIndexesCount == old(file.freeList.newIndexesCount)
    ensures IsToastList(file.View(), next, rest') && |rest'| < |rest| && Progress(l, done', rest', index, file.index)
  {
    ghost var index1 := file.index;
    AliveInside(l, done, rest, index, index1);
    var temp := file.ReadBlock(order);
    Bury(file, order, temp.capacity);
    done', rest' := done + [order], rest[1..];
    assert rest == [order] + rest';
    ProgressNext(l, done, order, rest', index, index1, file.index);
    next := temp.nextToastIndex;
  }

  // ---------- unlinking ----------

  /** Document o is one of p's children, which are `kids`. */
  ghost predicate HasChild(view: View, p: nat, o: nat, kids: Forest) {
    var q := Predecessor(p, o, kids);
    && IsDoc(view, p) && IsDoc(view, o) && IsDoc(view, q)
    && view[p].header.indexAttached == p && view[o].header.indexAttached == o && view[q].header.indexAttached == q
    && Encodes(view, view[p].header.indexSon, kids) && o in Roots(kids)
  }

  /** What deleteDocument collects: the parent, then its children up to the document itself. */
  ghost predicate Collected(view: View, docs: seq<Doc>, p: nat, o: nat, kids: Forest) {
    var q := Predecessor(p, o, kids);
    && IsDoc(view, p) && IsDoc(view, o) && IsDoc(view, q)
    && |docs| >= 2 && docs[0].header == view[p].header
    && docs[|docs| - 1].header == view[o].header
    && docs[|docs| - 2].header == view[q].header
  }

  method CollectSiblings(file: ZgdbFile, doc: Doc, parentHeader: Header, ghost kids: Forest) returns (pList: ResultList)
    requires file.Valid() && IsDoc(file.View(), doc.indexParent) && parentHeader == file.View()[doc.indexParent].header
    requires Encodes(file.View(), parentHeader.indexSon, kids) && doc.header.indexAttached in Roots(kids)
    ensures pList.Valid() && fresh(pList.Repr)
    ensures Collected(file.View(), pList.docs, doc.indexParent, doc.header.indexAttached, kids)
  {
    hide ZgdbFile.Valid;
    ghost var view, p, o := file.View(), doc.indexParent, doc.header.indexAttached;
    ghost var before, rest := p, kids;
    pList := new ResultList();
    pList.InsertResult(Doc(IsRootDocumentHeader(parentHeader), 0, parentHeader));
    var tempIndex := parentHeader.indexSon;
    while tempIndex != 0
      invariant pList.Valid() && fresh(pList.Repr) && pList.docs != []
      invariant pList.docs[0].header == parentHeader
      invariant Encodes(view, tempIndex, rest) && o in Roots(rest)
      invariant IsDoc(view, before) && pList.docs[|pList.docs| - 1].header == view[before].header
      invariant Predecessor(before, o, rest) == Predecessor(p, o, kids)
      decreases rest
    {
      var tempHeader := GetDocumentHeader(file, tempIndex);
      tempIndex := tempHeader.indexBrother;
      pList.InsertResult(Doc(IsRootDocumentHeader(tempHeader), doc.header.indexAttached, tempHeader));
      if doc.header.indexAttached == tempHeader.indexAttached {
        break;
      }
      before, rest := rest.order, rest.rest;
    }
  }

  /** Only links have changed. */
  ghost predicate OnlyLinks(v: View, w: View) {
    v.Keys == w.Keys && forall x {:trigger SameButLinks(v, w, x)} :: x in v ==> SameButLinks(v, w, x)
  }

  /** Takes the document at the end of the list out of its parent's children. */
  method Unlink(file: ZgdbFile, pList: ResultList, ghost p: nat, ghost o: nat, ghost kids: Forest)
    requires file.Valid() && pList.Valid() && Collected(file.View(), pList.docs, p, o, kids)
    requires HasChild(file.View(), p, o, kids)
    modifies file`blocks, file`zeroed
    ensures file.Valid()
    ensures Unlinked(old(file.View()), file.View(), p, o, kids) && OnlyLinks(old(file.View()), file.View())
  {
    hide ZgdbFile.Standing;
    ghost var v := file.View();
    var forDelete, par := pList.tail, pList.head;
    if par.document.header.indexSon == forDelete.document.header.indexAttached {
      WriteHeader(file, par.document.header.(indexSon := forDelete.document.header.indexBrother));
    } else {
      var prev := forDelete.prev;
      WriteHeader(file, prev.document.header.(indexBrother := forDelete.document.header.indexBrother));
    }
    LinkLed(v, file.View(), p, o, kids);
  }

  /** Rewriting that one header is unlinking. */
  lemma LinkLed(v: View, w: View, p: nat, o: nat, kids: Forest)
    requires HasChild(v, p, o, kids)
    requires var q := Predecessor(p, o, kids);
             w == v[q := Document(if v[p].header.indexSon == o then v[q].header.(indexSon := v[o].header.indexBrother)
                                  else v[q].header.(indexBrother := v[o].header.indexBrother), v[q].elements)]
    ensures Unlinked(v, w, p, o, kids) && OnlyLinks(v, w)
  {
    PredecessorIn(p, o, kids);
  }

  // ---------- deleteDocument ----------

  /** Everything of a document can be killed: its block, the documents below it, the toasts l. */
  ghost predicate Killable(view: View, index: seq<IndexEntry>, header: Header, below: Forest, l: seq<nat>) {
    && IsDoc(view, header.indexAttached) && view[header.indexAttached].header.capacity == header.capacity
    && Encodes(view, header.indexSon, below)
    && NoDuplicates([header.indexAttached] + Orders(below) + l)
    && forall x :: x in [header.indexAttached] + Orders(below) + l ==> IsAlive(index, x) && x != 0
  }

  /** Kills the document and the documents below it. */
  method KillSubtree(file: ZgdbFile, doc: Doc, ghost below: Forest)
    requires file.Valid() && !doc.isRoot && file.nodes >= 1 + Size(below)
    requires Killable(file.View(), file.index, doc.header, below, [])
    modifies file`index, file`nodes, file.freeList.Repr
    ensures file.Valid() && fresh(file.freeList.Repr - old(file.freeList.Repr))
    ensures file.freeList.newIndexesCount == old(file.freeList.newIndexesCount)
    ensures file.View() == old(file.View()) && file.nodes == old(file.nodes) - 1 - Size(below)
    ensures Gone(old(file.index), file.index, [doc.header.indexAttached] + Orders(below))
  {
    hide Disk.View;
    ghost var index, o, repr := file.index, doc.header.indexAttached, file.freeList.Repr;
    KillableParts(o, Orders(below), []);
    Del(doc, file);
    ghost var index1 := file.index;
    assert [] + [o] == [o] && Gone(index, index, []);
    GoneOne(index, index, [], o);
    StillAlive(index, index1, [o], Orders(below));
    if doc.header.indexSon != 0 {
      var childHeader := GetDocumentHeader(file, doc.header.indexSon);
      var child := Doc(IsRootDocumentHeader(childHeader), doc.header.indexAttached, childHeader);
      ForEachDel(file, child, below);
    }
    assert fresh(file.freeList.Repr - repr);
    GoneThen(index, index1, file.index, [o], Orders(below));
  }

  /** The second half of deleteDocument. */
  method Kill(file: ZgdbFile, doc: Doc, ghost below: Forest, ghost l: seq<nat>)
    requires file.Valid() && !doc.isRoot && file.nodes >= 1 + Size(below)
    requires Killable(file.View(), file.index, doc.header, below, l)
    requires IsToastList(file.View(), doc.header.firstToastIndex, l)
    modifies file`index, file`nodes, file.freeList.Repr
    ensures file.Valid() && fresh(file.freeList.Repr - old(file.freeList.Repr))
    ensures file.freeList.newIndexesCount == old(file.freeList.newIndexesCount)
    ensures file.View() == old(file.View()) && file.nodes == old(file.nodes) - 1 - Size(below)
    ensures Gone(old(file.index), file.index, [doc.header.indexAttached] + Orders(below) + l)
  {
    hide Killable;
    ghost var index, docs, view, repr := file.index, [doc.header.indexAttached] + Orders(below), file.View(),
        file.freeList.Repr;
    KillableFirst(view, index, doc.header, below, l);
    KillSubtree(file, doc, below);
    assert fresh(file.freeList.Repr - repr);
    ghost var index1, repr1 := file.index, file.freeList.Repr;
    StillAlive(index, index1, docs, l);
    if doc.header.firstToastIndex != 0 {
      FreeToasts(file, doc.header.firstToastIndex, l);
    }
    assert fresh(file.freeList.Repr - repr1);
    GoneThen(index, index1, file.index, docs, l);
  }

  lemma KillableFirst(view: View, index: seq<IndexEntry>, header: Header, below: Forest, l: seq<nat>)
    requires Killable(view, index, header, below, l)
    ensures Killable(view, index, header, below, []) && NoDuplicates(l)
    ensures forall x :: x in l ==> IsAlive(index, x) && x !in [header.indexAttached] + Orders(below)
  {
    var docs := [header.indexAttached] + Orders(below);
    KillableParts(header.indexAttached, Orders(below), l);
    NoDuplicatesConcat(docs, l);
    assert docs + [] == docs;
  }

  lemma KillableParts(o: nat, below: seq<nat>, l: seq<nat>)
    requires NoDuplicates([o] + below + l)
    ensures NoDuplicates(below) && NoDuplicates(l)
    ensures forall x :: x in below + l ==> x !in [o]
    ensures forall x :: x in l ==> x !in below
    ensures forall x :: x in [o] + below + l <==> x == o || x in below || x in l
  {
    NoDuplicatesConcat([o] + below, l);
    NoDuplicatesConcat([o], below);
  }

  lemma StillAlive(index: seq<IndexEntry>, index': seq<IndexEntry>, gone: seq<nat>, s: seq<nat>)
    requires Gone(index, index', gone)
    requires forall x :: x in s ==> IsAlive(index, x) && x !in gone
    ensures forall x :: x in s ==> IsAlive(index', x)
  {
    forall x | x in s ensures IsAlive(index', x) {
      assert GoneExactly(index, index', gone, x);
    }
  }

  /** Once it is unlinked, everything of document o can be killed. */
  lemma KillableAfter(v: View, w: View, index: seq<IndexEntry>, tree: Forest, owner: Owners, p: nat, o: nat,
                      l: seq<nat>)
    requires RecordsOk(v, index, tree, owner) && (p == 0 || p in Orders(tree)) && o in Roots(Kids(tree, p))
    requires IsDoc(v, o) && v[o].header.indexAttached == o
    requires Unlinked(v, w, p, o, Kids(tree, p)) && OnlyLinks(v, w)
    requires ToastListOk(v, owner, o, FirstToast(v, o), l)
    ensures Killable(w, index, v[o].header, KidsBelow(tree, o), l) && IsToastList(w, v[o].header.firstToastIndex, l)
  {
    var below := KidsBelow(tree, o);
    EncodesOrders(v, v[0].header.indexSon, tree);
    BelowChild(tree, p, o);
    KidsBelowOrders(tree, o);
    PredecessorIn(p, o, Kids(tree, p));
    EncodesKids(v, v[0].header.indexSon, tree, o);
    EncodesFrame(v, w, v[o].header.indexSon, below);
    assert SameButLinks(v, w, o);
    forall x | x in l ensures SameNext(v, w, x) && IsAlive(index, x) && x != 0 && !IsDoc(v, x) {
      assert Owns(v, owner, o, x) && SameButLinks(v, w, x);
      assert ToastOk(v, index, tree, owner, x);
    }
    ToastListFrame(v, w, FirstToast(v, o), l);
    forall x | x in [o] + Orders(below) ensures IsAlive(index, x) && x != 0 && IsDoc(v, x) {
      NodeFacts(v, index, tree, owner, x);
    }
    NoDuplicatesConcat([o], Orders(below));
    NoDuplicatesConcat([o] + Orders(below), l);
  }

  lemma ParentFacts(file: ZgdbFile, p: nat, o: nat)
    requires Consistent(file) && (p == 0 || p in Orders(file.tree)) && o in Roots(Kids(file.tree, p))
    ensures HasChild(file.View(), p, o, Kids(file.tree, p)) && o in Orders(file.tree) && o != 0 && IsDoc(file.View(), 0)
  {
    var v, tree := file.View(), file.tree;
    var q := Predecessor(p, o, Kids(tree, p));
    EncodesOrders(v, v[0].header.indexSon, tree);
    KidsBelowOrders(tree, p);
    RootsAreOrders(Kids(tree, p));
    PredecessorIn(p, o, Kids(tree, p));
    if p != 0 { EncodesKids(v, v[0].header.indexSon, tree, p); }
    assert file.Image().Listed(p) && file.Image().Listed(o) && file.Image().Listed(q);
  }

  /** What a client gets from deleteDocument: exactly the document, all below it, and its own toasts are gone; every
      remaining document reads as before. */
  ghost predicate Deleted(v: View, index: seq<IndexEntry>, tree: Forest, owner: Owners,
                          w: View, index': seq<IndexEntry>, tree': Forest, o: nat, toasts: seq<nat>) {
    && IsDoc(v, o) && ToastListOk(v, owner, o, FirstToast(v, o), toasts)
    && tree' == Cut(tree, o)
    && Gone(index, index', Subtree(tree, o) + toasts)
    && AllReadSame(v, w, Orders(tree'))
  }

  /** Deletes a document that is not the root; `doc` carries its present header and its parent. */
  method DeleteDocument(file: ZgdbFile, doc: Doc) returns (ghost toasts: seq<nat>)
    requires Consistent(file) && !doc.isRoot
    requires doc.indexParent == 0 || doc.indexParent in Orders(file.tree)
    requires doc.header.indexAttached in Roots(Kids(file.tree, doc.indexParent))
    requires IsDoc(file.View(), doc.header.indexAttached)
    requires doc.header == file.View()[doc.header.indexAttached].header
    modifies file`index, file`blocks, file`zeroed, file`nodes, file`tree, file`owner, file.freeList.Repr
    ensures Consistent(file) && fresh(file.freeList.Repr - old(file.freeList.Repr))
    ensures file.freeList.newIndexesCount == old(file.freeList.newIndexesCount)
    ensures Deleted(old(file.View()), old(file.index), old(file.tree), old(file.owner),
                    file.View(), file.index, file.tree, doc.header.indexAttached, toasts)
    ensures file.nodes == old(file.nodes) - |Subtree(old(file.tree), doc.header.indexAttached)|
  {
    hide ZgdbFile.Standing, Disk.View;
    ghost var v, index, p, o := file.View(), file.index, doc.indexParent, doc.header.indexAttached;
    ghost var tree, owner, kids := file.tree, file.owner, Kids(file.tree, p);
    ParentFacts(file, p, o);
    NodeFacts(v, index, tree, owner, o);
    toasts :| ToastListOk(v, owner, o, FirstToast(v, o), toasts);
    TakeOut(file, doc, kids);
    ghost var w := file.View();
    KillableAfter(v, w, index, tree, owner, p, o, toasts);
    CutMembers(tree, o);
    Kill(file, doc, KidsBelow(tree, o), toasts);
    assert fresh(file.freeList.Repr - old(file.freeList.Repr));
    ShownAfter(v, w, index, file.index, tree, owner, p, o, toasts);
    Record(file, Cut(tree, o), OwnersWithout(owner, Subtree(tree, o)));
  }

  /** The first half of deleteDocument. */
  method TakeOut(file: ZgdbFile, doc: Doc, ghost kids: Forest)
    requires file.Valid() && HasChild(file.View(), doc.indexParent, doc.header.indexAttached, kids)
    modifies file`blocks, file`zeroed
    ensures file.Valid()
    ensures Unlinked(old(file.View()), file.View(), doc.indexParent, doc.header.indexAttached, kids)
    ensures OnlyLinks(old(file.View()), file.View())
  {
    var parentHeader := GetDocumentHeader(file, doc.indexParent);
    var pList := CollectSiblings(file, doc, parentHeader, kids);
    Unlink(file, pList, doc.indexParent, doc.header.indexAttached, kids);
  }

  lemma ShownAfter(v: View, w: View, index: seq<IndexEntry>, index': seq<IndexEntry>, tree: Forest, owner: Owners,
                   p: nat, o: nat, l: seq<nat>)
    requires RecordsOk(v, index, tree, owner) && (p == 0 || p in Orders(tree)) && o in Roots(Kids(tree, p))
    requires o in Orders(tree) && Unlinked(v, w, p, o, Kids(tree, p)) && OnlyLinks(v, w)
    requires ToastListOk(v, owner, o, FirstToast(v, o), l)
    requires Gone(index, index', [o] + Orders(KidsBelow(tree, o)) + l)
    ensures RecordsOk(w, index', Cut(tree, o), OwnersWithout(owner, Subtree(tree, o)))
    ensures AllReadSame(v, w, Orders(Cut(tree, o)))
    ensures Size(tree) == Size(Cut(tree, o)) + |Subtree(tree, o)|
  {
    EncodesOrders(v, v[0].header.indexSon, tree);
    forall x | x in owner ensures x in v {
      assert ToastOk(v, index, tree, owner, x);
    }
    forall x: nat ensures GoneExactly(index, index', Subtree(tree, o) + l, x) {
      assert GoneExactly(index, index', [o] + Orders(KidsBelow(tree, o)) + l, x);
    }
    forall x: nat ensures RoomKept(v, w, x) {
      assert x in v ==> SameButLinks(v, w, x);
    }
    DeletedOk(v, w, index, index', tree, owner, p, o, l);
  }
}
