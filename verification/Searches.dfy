/** Evaluating a path: findIf0 from the root, and join. */
module Searches {
  import opened Blocks
  import opened Tilings
  import opened Forests
  import opened Storage
  import opened DocIterators
  import opened ResultLists
  import opened Documents
  import opened Predicates
  import opened Queries

  // ---------- documents as a client gets them ----------

  ghost function ParentOf(tree: Forest, o: nat): nat {
    if o in Orders(tree) then Locate(tree, 0, 1, o).parent else 0
  }

  /** Document o with its true parent. */
  ghost function DocAt(view: View, tree: Forest, o: nat): Doc
    requires IsDoc(view, o)
  {
    Doc(IsRootDocumentHeader(view[o].header), ParentOf(tree, o), view[o].header)
  }

  ghost predicate Shows(view: View, tree: Forest, doc: Doc, o: nat) {
    o in Orders(tree) && IsDoc(view, o) && doc == DocAt(view, tree, o)
  }

  /** A list shows these documents, in this order. */
  ghost predicate ShowsAll(view: View, tree: Forest, docs: seq<Doc>, orders: seq<nat>) {
    |docs| == |orders| && forall i {:trigger Shows(view, tree, docs[i], orders[i])} :: 0 <= i < |docs| ==>
        Shows(view, tree, docs[i], orders[i])
  }

  /** The first children of some documents: the contexts of a step. */
  ghost function FirstKids(tree: Forest, ps: seq<nat>): (s: seq<nat>)
    ensures |s| == |ps|
  {
    if ps == [] then [] else [if Kids(tree, ps[0]).Cons? then Kids(tree, ps[0]).order else 0] + FirstKids(tree, ps[1..])
  }

  lemma {:induction false} FirstKidsConcat(tree: Forest, a: seq<nat>, b: seq<nat>)
    ensures FirstKids(tree, a + b) == FirstKids(tree, a) + FirstKids(tree, b)
  {
    if a == [] {
      assert a + b == b;
    } else {
      assert (a + b)[1..] == a[1..] + b;
      FirstKidsConcat(tree, a[1..], b);
    }
  }

  lemma {:induction false} WithChildrenConcat(tree: Forest, a: seq<nat>, b: seq<nat>)
    ensures WithChildren(tree, a + b) == WithChildren(tree, a) + WithChildren(tree, b)
  {
    if a == [] {
      assert a + b == b;
    } else {
      var one := if Kids(tree, a[0]).Cons? then [a[0]] else [];
      assert (a + b)[1..] == a[1..] + b;
      WithChildrenConcat(tree, a[1..], b);
      assert one + (WithChildren(tree, a[1..]) + WithChildren(tree, b)) == one + WithChildren(tree, a[1..])
          + WithChildren(tree, b);
    }
  }

  // ---------- true parents ----------

  lemma {:induction false} LocateBelow(f: Forest, parent: nat, depth: nat, p: nat, d: nat, x: nat)
    requires Distinct(f) && p in Orders(f) && x in Orders(KidsBelow(f, p))
    ensures x in Orders(f) && Locate(KidsBelow(f, p), p, d, x).parent == Locate(f, parent, depth, x).parent
    decreases f
  {
    DistinctParts(f);
    KidsBelowOrders(f, p);
    if f.order == p {
      LocateDepth(f.kids, p, d, depth + 1, x);
    } else if p in Orders(f.kids) {
      KidsBelowOrders(f.kids, p);
      LocateBelow(f.kids, f.order, depth + 1, p, d, x);
    } else {
      KidsBelowOrders(f.rest, p);
      LocateBelow(f.rest, parent, depth, p, d, x);
    }
  }

  lemma {:induction false} LocateDepth(f: Forest, parent: nat, d: nat, e: nat, x: nat)
    requires x in Orders(f)
    ensures Locate(f, parent, d, x).parent == Locate(f, parent, e, x).parent
    decreases f
  {
    if f.order != x {
      if x in Orders(f.kids) {
        LocateDepth(f.kids, f.order, d + 1, e + 1, x);
      } else {
        LocateDepth(f.rest, parent, d, e, x);
      }
    }
  }

  /** Whatever a traversal below p visits, it visits with its true parent. */
  lemma VisitParent(tree: Forest, p: nat, depth: nat, v: Visit)
    requires Distinct(tree) && (p == 0 || p in Orders(tree)) && v in Visits(Kids(tree, p), p, depth)
    ensures v.order in Orders(tree) && v.parent == ParentOf(tree, v.order)
  {
    KidsBelowOrders(tree, p);
    VisitsLocate(Kids(tree, p), p, depth, v);
    if p == 0 {
      LocateDepth(tree, 0, depth, 1, v.order);
    } else {
      LocateBelow(tree, 0, 1, p, depth, v.order);
    }
  }

  /** The first child of p has p as its parent. */
  lemma FirstKidParent(tree: Forest, p: nat)
    requires Distinct(tree) && (p == 0 || p in Orders(tree)) && Kids(tree, p).Cons?
    ensures Kids(tree, p).order in Orders(tree) && ParentOf(tree, Kids(tree, p).order) == p
  {
    assert Visits(Kids(tree, p), p, 0)[0] == Visit(Kids(tree, p).order, p, 0);
    VisitParent(tree, p, 0, Visit(Kids(tree, p).order, p, 0));
  }

  // ---------- how far a step's loop goes ----------

  /** The loop of an absolute step: it stops once the document just fetched lies at another depth. */
  ghost function UpToOther(vs: seq<Visit>, depth: nat): seq<Visit> {
    if vs == [] then []
    else if vs[0].depth == depth then [vs[0]] + UpToOther(vs[1..], depth)
    else [vs[0]]
  }

  ghost function Fetched(vs: seq<Visit>, relative: bool, depth: nat): seq<Visit> {
    if relative then vs else UpToOther(vs, depth)
  }

  lemma {:induction false} UpToOtherRoots(f: Forest, parent: nat, depth: nat, rest: seq<Visit>)
    ensures UpToOther(RootVisits(f, parent, depth) + rest, depth) == RootVisits(f, parent, depth)
        + UpToOther(rest, depth)
    ensures VisitOrders(RootVisits(f, parent, depth)) == Roots(f)
    decreases f
  {
    if f == Empty {
      assert RootVisits(f, parent, depth) + rest == rest;
    } else {
      var all, tail := RootVisits(f, parent, depth), RootVisits(f.rest, parent, depth);
      assert (all + rest)[1..] == tail + rest && all[1..] == tail;
      UpToOtherRoots(f.rest, parent, depth, rest);
    }
  }

  lemma {:induction false} UpToOtherChildren(f: Forest, depth: nat)
    ensures VisitOrders(UpToOther(ChildVisits(f, depth), depth)) == OneDeeper(f)
    ensures ChildVisits(f, depth) == [] <==> OneDeeper(f) == []
    ensures OneDeeper(f) != [] ==>
              ChildVisits(f, depth)[0].order == OneDeeper(f)[0] && ChildVisits(f, depth)[0].depth == depth + 1
    ensures |OneDeeper(f)| <= 1
    decreases f
  {
    if f.Cons? {
      UpToOtherChildren(f.rest, depth);
      var c := ChildVisits(f, depth);
      if c != [] {
        assert UpToOther(c, depth) == [c[0]] && VisitOrders([c[0]]) == [c[0].order] + VisitOrders([]);
      }
    }
  }

  lemma {:induction false} OrdersAtDepth(f: Forest, parent: nat, d: nat, e: nat)
    ensures VisitOrders(Visits(f, parent, d)) == VisitOrders(Visits(f, parent, e))
    decreases f
  {
    if f.Cons? {
      OrdersAtDepth(f.rest, parent, d, e);
      OrdersAtDepth(f.kids, f.order, d + 1, e + 1);
      TakenApart(f, parent, d);
      TakenApart(f, parent, e);
    }
  }

  lemma TakenApart(f: Forest, parent: nat, d: nat)
    requires f.Cons?
    ensures VisitOrders(Visits(f, parent, d)) ==
            [f.order] + VisitOrders(Visits(f.rest, parent, d)) + VisitOrders(Visits(f.kids, f.order, d + 1))
  {
    var v := [Visit(f.order, parent, d)];
    VisitOrdersConcat(v + Visits(f.rest, parent, d), Visits(f.kids, f.order, d + 1));
    VisitOrdersConcat(v, Visits(f.rest, parent, d));
    assert VisitOrders(v) == [f.order] + VisitOrders([]);
  }

  /** At whatever depth the iterator starts, the loop examines the same documents. */
  lemma FetchedExamined(tree: Forest, p: nat, relative: bool, depth: nat)
    ensures VisitOrders(Fetched(Visits(Kids(tree, p), p, depth), relative, depth)) == Examined(tree, p, relative)
  {
    var f := Kids(tree, p);
    if relative {
      OrdersAtDepth(f, p, depth, 0);
    } else {
      VisitsSiblingsFirst(f, p, depth);
      UpToOtherRoots(f, p, depth, ChildVisits(f, depth));
      VisitOrdersConcat(RootVisits(f, p, depth), UpToOther(ChildVisits(f, depth), depth));
      UpToOtherChildren(f, depth);
    }
  }

  // ---------- findIf0 ----------

  /** The file and two result lists, which share nothing. */
  ghost predicate Lists(file: ZgdbFile, a: ResultList, b: ResultList)
    reads file, file.freeList, file.freeList.Repr, a, a.Repr, b, b.Repr
  {
    && file.Valid() && a.Valid() && b.Valid()
    && a.Repr !! b.Repr && file.Repr() !! a.Repr && file.Repr() !! b.Repr
  }

  ghost predicate Hit(view: View, test: Tester, s: Step, o: nat, docNumber: nat) {
    Named(view, o, s.stepName) && Passes(view, test, s, o, docNumber)
  }

  ghost function OneIf(hit: bool, o: nat): seq<nat> {
    if hit then [o] else []
  }

  lemma ShowsPush(view: View, tree: Forest, docs: seq<Doc>, orders: seq<nat>, doc: Doc, o: nat)
    requires ShowsAll(view, tree, docs, orders) && Shows(view, tree, doc, o)
    ensures ShowsAll(view, tree, docs + [doc], orders + [o])
  {
    forall i | 0 <= i < |docs| + 1 ensures Shows(view, tree, (docs + [doc])[i], (orders + [o])[i]) {
      if i < |docs| { assert Shows(view, tree, docs[i], orders[i]); }
    }
  }

  /** Fetches the first child of a match. */
  method FirstChild(file: ZgdbFile, temp: Doc, ghost tree: Forest, ghost o: nat) returns (child: Doc)
    requires file.Valid() && EncodesTree(file.View(), tree) && Shows(file.View(), tree, temp, o) && Kids(tree, o).Cons?
    requires temp.header.indexAttached == o && temp.header.indexSon == Kids(tree, o).order
    ensures Shows(file.View(), tree, child, Kids(tree, o).order)
  {
    FirstKidParent(tree, o);
    EncodesOrders(file.View(), file.View()[0].header.indexSon, tree);
    var header := GetDocumentHeader(file, temp.header.indexSon);
    child := Doc(false, temp.header.indexAttached, header);
  }

  lemma SonLink(view: View, tree: Forest, o: nat)
    requires EncodesTree(view, tree) && o in Orders(tree)
    ensures o != 0 && IsDoc(view, o)
    ensures view[o].header.indexSon == (if Kids(tree, o).Cons? then Kids(tree, o).order else 0)
    ensures Kids(tree, o).Cons? ==> Kids(tree, o).order != 0
  {
    EncodesOrders(view, view[0].header.indexSon, tree);
    EncodesKids(view, view[0].header.indexSon, tree, o);
  }

  /** Appends a document to list a, which now shows one more. */
  method Append(file: ZgdbFile, a: ResultList, b: ResultList, doc: Doc, ghost tree: Forest, ghost orders: seq<nat>,
                ghost o: nat)
    requires Lists(file, a, b) && ShowsAll(file.View(), tree, a.docs, orders) && Shows(file.View(), tree, doc, o)
    modifies a.Repr
    ensures Lists(file, a, b) && fresh(a.Repr - old(a.Repr)) && b.Repr == old(b.Repr) && b.docs == old(b.docs)
    ensures file.View() == old(file.View()) && ShowsAll(file.View(), tree, a.docs, orders + [o])
  {
    ShowsPush(file.View(), tree, a.docs, orders, doc, o);
    a.InsertResult(doc);
  }

  /** The body of the search loops, for one document. */
  method ExamineDocument(file: ZgdbFile, temp: Doc, s: Step, docNumber: nat, isLast: bool, test: Tester,
                         nextList: ResultList, found: ResultList,
                         ghost tree: Forest, ghost o: nat, ghost nexts: seq<nat>, ghost founds: seq<nat>)
    returns (docNumber': nat)
    requires Lists(file, nextList, found) && EncodesTree(file.View(), tree) && WellJoined(s.pred)
    requires Shows(file.View(), tree, temp, o) && temp.header.indexAttached == o
    requires ShowsAll(file.View(), tree, nextList.docs, nexts) && ShowsAll(file.View(), tree, found.docs, founds)
    modifies nextList.Repr, found.Repr
    ensures Lists(file, nextList, found) && file.View() == old(file.View())
    ensures fresh(nextList.Repr - old(nextList.Repr)) && fresh(found.Repr - old(found.Repr))
    ensures docNumber' == docNumber + if Named(file.View(), o, s.stepName) then 1 else 0
    ensures var hit := Hit(file.View(), test, s, o, docNumber);
            && ShowsAll(file.View(), tree, nextList.docs,
                        nexts + OneIf(hit && Kids(tree, o).Cons?,
                                      if Kids(tree, o).Cons? then Kids(tree, o).order else 0))
            && ShowsAll(file.View(), tree, found.docs, founds + OneIf(hit && isLast, o))
  {
    hide ShowsAll, ResultList.Valid;
    ghost var view := file.View();
    SonLink(view, tree, o);
    docNumber' := docNumber;
    assert nexts + [] == nexts && founds + [] == founds;
    if temp.header.name == s.stepName {
      var pred := CalculatePredicate(s.pred, test, temp.header, docNumber);
      if pred {
        if temp.header.indexSon != 0 {
          var child := FirstChild(file, temp, tree, o);
          Append(file, nextList, found, child, tree, nexts, Kids(tree, o).order);
        }
        if isLast {
          Append(file, found, nextList, temp, tree, founds, o);
        }
      }
      docNumber' := docNumber + 1;
    }
  }

  /** The objects a search works on: the file, the iterator and the two lists share nothing. */
  ghost predicate Searching(file: ZgdbFile, it: DocumentIterator, a: ResultList, b: ResultList)
    reads file, file.freeList, file.freeList.Repr, a, a.Repr, b, b.Repr, it, it.pStack, it.pStack.data
  {
    && Lists(file, a, b)
    && it.Valid() && it.view == file.View()
    && var own: set<object> := {it, it.pStack, it.pStack.data};
       own !! file.Repr() && own !! a.Repr && own !! b.Repr
  }

  ghost predicate TrueVisit(tree: Forest, v: Visit) {
    v.order in Orders(tree) && v.parent == ParentOf(tree, v.order)
  }

  ghost predicate TrueVisits(tree: Forest, vs: seq<Visit>) {
    forall v {:trigger TrueVisit(tree, v)} :: v in vs ==> TrueVisit(tree, v)
  }

  /** What the match of one document adds to the contexts of the next step. */
  ghost function NextOf(tree: Forest, hit: bool, o: nat): seq<nat> {
    OneIf(hit && Kids(tree, o).Cons?, if Kids(tree, o).Cons? then Kids(tree, o).order else 0)
  }

  /** One round of the search loop: fetches the next document and examines it. */
  method ExamineNext(file: ZgdbFile, it: DocumentIterator, s: Step, docNumber: nat, isLast: bool, test: Tester,
                     nextList: ResultList, found: ResultList, ghost tree: Forest, ghost nexts: seq<nat>,
                     ghost founds: seq<nat>)
    returns (depth: nat, docNumber': nat, ghost v: Visit)
    requires Searching(file, it, nextList, found) && EncodesTree(file.View(), tree) && WellJoined(s.pred)
    requires it.Remaining() != [] && TrueVisits(tree, it.Remaining())
    requires ShowsAll(file.View(), tree, nextList.docs, nexts) && ShowsAll(file.View(), tree, found.docs, founds)
    modifies it`stop, it`next, it`pending, it.pStack, it.pStack.data, nextList.Repr, found.Repr
    ensures Searching(file, it, nextList, found) && file.View() == old(file.View())
    ensures fresh(nextList.Repr - old(nextList.Repr)) && fresh(found.Repr - old(found.Repr))
    ensures it.pStack.data == old(it.pStack.data) || fresh(it.pStack.data)
    ensures old(it.Remaining()) == [v] + it.Remaining() && depth == v.depth
    ensures docNumber' == docNumber + if Named(file.View(), v.order, s.stepName) then 1 else 0
    ensures var hit := Hit(file.View(), test, s, v.order, docNumber);
            && ShowsAll(file.View(), tree, nextList.docs, nexts + NextOf(tree, hit, v.order))
            && ShowsAll(file.View(), tree, found.docs, founds + OneIf(hit && isLast, v.order))
  {
    hide NoDuplicates, ParentOf, ResultList.Valid, EncodesTree, ZgdbFile.View;
    var temp;
    temp, depth, v := it.NextDoc(file);
    assert v in old(it.Remaining()) && TrueVisit(tree, v);
    docNumber' := ExamineDocument(file, temp, s, docNumber, isLast, test, nextList, found, tree, v.order, nexts,
                                  founds);
  }

  // ---------- the loop over a context ----------

  /** What the loop will still fetch, once `depth` was the depth of the last document. */
  ghost function Pending(rest: seq<Visit>, relative: bool, startDepth: nat, depth: nat): seq<Visit> {
    if relative then rest else if depth == startDepth then UpToOther(rest, startDepth) else []
  }

  /** Where the loop stands: `done` has matched, and with what is pending makes up all matches of the context. */
  datatype Loop = Loop(view: View, tree: Forest, test: Tester, s: Step, startDepth: nat, isLast: bool,
                       all: seq<nat>, nexts: seq<nat>, founds: seq<nat>)
  {
    ghost predicate Stands(rest: seq<Visit>, depth: nat, docNumber: nat, done: seq<nat>, nextDocs: seq<Doc>,
                           foundDocs: seq<Doc>) {
      && all == done + Matches(view, test, s, VisitOrders(Pending(rest, s.relative, startDepth, depth)), docNumber)
      && ShowsAll(view, tree, nextDocs, nexts + FirstKids(tree, WithChildren(tree, done)))
      && ShowsAll(view, tree, foundDocs, founds + if isLast then done else [])
    }
  }

  /** The documents still to examine, once the first one is examined. */
  lemma MatchesNext(l: Loop, v: Visit, rest: seq<Visit>, depth: nat, k: nat, k': nat)
    requires l.s.relative || depth == l.startDepth
    requires k' == k + if Named(l.view, v.order, l.s.stepName) then 1 else 0
    ensures var now, next := Pending([v] + rest, l.s.relative, l.startDepth, depth),
                             Pending(rest, l.s.relative, l.startDepth, v.depth);
            Matches(l.view, l.test, l.s, VisitOrders(now), k) ==
            OneIf(Hit(l.view, l.test, l.s, v.order, k), v.order) + Matches(l.view, l.test, l.s, VisitOrders(next), k')
  {
    var now, next := Pending([v] + rest, l.s.relative, l.startDepth, depth),
                     Pending(rest, l.s.relative, l.startDepth, v.depth);
    assert now == [v] + next by {
      assert ([v] + rest)[1..] == rest;
    }
    assert VisitOrders(now) == [v.order] + VisitOrders(next);
  }

  /** One more document was examined. */
  lemma LoopStep(l: Loop, v: Visit, rest: seq<Visit>, depth: nat, k: nat, k': nat, done: seq<nat>, nd: seq<Doc>,
                 fd: seq<Doc>,
                 nd': seq<Doc>, fd': seq<Doc>) returns (done': seq<nat>)
    requires l.Stands([v] + rest, depth, k, done, nd, fd) && (l.s.relative || depth == l.startDepth)
    requires k' == k + if Named(l.view, v.order, l.s.stepName) then 1 else 0
    requires var hit := Hit(l.view, l.test, l.s, v.order, k);
             && ShowsAll(l.view, l.tree, nd', l.nexts + FirstKids(l.tree, WithChildren(l.tree, done))
                         + NextOf(l.tree, hit, v.order))
             && ShowsAll(l.view, l.tree, fd', l.founds + (if l.isLast then done else [])
                         + OneIf(hit && l.isLast, v.order))
    ensures l.Stands(rest, v.depth, k', done', nd', fd')
  {
    var hit, o := Hit(l.view, l.test, l.s, v.order, k), v.order;
    done' := done + OneIf(hit, o);
    var next := Pending(rest, l.s.relative, l.startDepth, v.depth);
    MatchesNext(l, v, rest, depth, k, k');
    AddedInOrder(done, OneIf(hit, o), Matches(l.view, l.test, l.s, VisitOrders(next), k'));
    WithChildrenConcat(l.tree, done, OneIf(hit, o));
    FirstKidsConcat(l.tree, WithChildren(l.tree, done), WithChildren(l.tree, OneIf(hit, o)));
    NextOfOne(l.tree, hit, o);
    AddedInOrder(l.nexts, FirstKids(l.tree, WithChildren(l.tree, done)), NextOf(l.tree, hit, o));
    AddedInOrder(l.founds, if l.isLast then done else [], OneIf(hit && l.isLast, o));
  }

  lemma AddedInOrder(a: seq<nat>, b: seq<nat>, c: seq<nat>)
    ensures a + (b + c) == a + b + c
  {
  }

  lemma NextOfOne(tree: Forest, hit: bool, o: nat)
    ensures FirstKids(tree, WithChildren(tree, OneIf(hit, o))) == NextOf(tree, hit, o)
  {
    if hit {
      assert WithChildren(tree, [o]) == OneIf(Kids(tree, o).Cons?, o) + WithChildren(tree, []);
      if Kids(tree, o).Cons? {
        assert WithChildren(tree, [o]) == [o];
        assert FirstKids(tree, [o]) == [Kids(tree, o).order] + FirstKids(tree, []);
      }
    }
  }

  /** The search loop over the traversal that starts at a context. */
  method ExamineAll(file: ZgdbFile, it: DocumentIterator, s: Step, startDepth: nat, isLast: bool, test: Tester,
                    nextList: ResultList, found: ResultList, ghost l: Loop) returns (depth: nat)
    requires Searching(file, it, nextList, found) && WellJoined(s.pred) && TrueVisits(l.tree, it.Remaining())
    requires EncodesTree(file.View(), l.tree)
    requires l == Loop(file.View(), l.tree, test, s, startDepth, isLast, l.all, l.nexts, l.founds)
    requires l.Stands(it.Remaining(), startDepth, 0, [], nextList.docs, found.docs)
    modifies it`stop, it`next, it`pending, it.pStack, it.pStack.data, nextList.Repr, found.Repr
    ensures Lists(file, nextList, found) && file.View() == old(file.View())
    ensures fresh(nextList.Repr - old(nextList.Repr)) && fresh(found.Repr - old(found.Repr))
    ensures ShowsAll(file.View(), l.tree, nextList.docs, l.nexts + FirstKids(l.tree, WithChildren(l.tree, l.all)))
    ensures ShowsAll(file.View(), l.tree, found.docs, l.founds + if isLast then l.all else [])
  {
    hide ZgdbFile.View, Lists;
    var docNumber: nat := 0;
    ghost var done: seq<nat>, nextRepr, foundRepr, data := [], nextList.Repr, found.Repr, it.pStack.data;
    depth := startDepth;
    while it.HasNextDoc() && (s.relative || depth == startDepth)
      invariant Searching(file, it, nextList, found) && file.View() == l.view
      invariant fresh(nextList.Repr - nextRepr) && fresh(found.Repr - foundRepr)
      invariant it.pStack.data == data || fresh(it.pStack.data)
      invariant TrueVisits(l.tree, it.Remaining())
      invariant l.Stands(it.Remaining(), depth, docNumber, done, nextList.docs, found.docs)
      decreases |it.Remaining()|
    {
      depth, docNumber, done := ExamineRound(file, it, s, depth, docNumber, isLast, test, nextList, found, l, done);
    }
    assert done == l.all;
  }

  method ExamineRound(file: ZgdbFile, it: DocumentIterator, s: Step, depth: nat, docNumber: nat, isLast: bool,
                      test: Tester,
                      nextList: ResultList, found: ResultList, ghost l: Loop, ghost done: seq<nat>)
    returns (depth': nat, docNumber': nat, ghost done': seq<nat>)
    requires Searching(file, it, nextList, found) && WellJoined(s.pred) && EncodesTree(file.View(), l.tree)
    requires it.Remaining() != [] && TrueVisits(l.tree, it.Remaining())
    requires l == Loop(file.View(), l.tree, test, s, l.startDepth, isLast, l.all, l.nexts, l.founds)
    requires s.relative || depth == l.startDepth
    requires l.Stands(it.Remaining(), depth, docNumber, done, nextList.docs, found.docs)
    modifies it`stop, it`next, it`pending, it.pStack, it.pStack.data, nextList.Repr, found.Repr
    ensures Searching(file, it, nextList, found) && file.View() == old(file.View())
    ensures fresh(nextList.Repr - old(nextList.Repr)) && fresh(found.Repr - old(found.Repr))
    ensures it.pStack.data == old(it.pStack.data) || fresh(it.pStack.data)
    ensures TrueVisits(l.tree, it.Remaining()) && |it.Remaining()| < |old(it.Remaining())|
    ensures l.Stands(it.Remaining(), depth', docNumber', done', nextList.docs, found.docs)
  {
    ghost var nd, fd, v := nextList.docs, found.docs, Visit(0, 0, 0);
    depth', docNumber', v := ExamineNext(file, it, s, docNumber, isLast, test, nextList, found, l.tree,
                                         l.nexts + FirstKids(l.tree, WithChildren(l.tree, done)),
                                         l.founds + if isLast then done else []);
    done' := LoopStep(l, v, it.Remaining(), depth, docNumber, docNumber', done, nd, fd, nextList.docs, found.docs);
    assert forall x :: x in it.Remaining() ==> x in [v] + it.Remaining();
  }

  ghost predicate ContextOk(view: View, tree: Forest, p: nat, head: Doc) {
    && (p == 0 || p in Orders(tree)) && Kids(tree, p).Cons?
    && Shows(view, tree, head, Kids(tree, p).order) && head.header.indexAttached == Kids(tree, p).order
  }

  lemma ContextStart(view: View, tree: Forest, p: nat, head: Doc, depth: nat)
    requires EncodesTree(view, tree) && ContextOk(view, tree, p, head)
    ensures EncodesFrom(view, Kids(tree, p)) && head.indexParent == p
    ensures TrueVisits(tree, Visits(Kids(tree, p), p, depth))
  {
    EncodesOrders(view, view[0].header.indexSon, tree);
    if p != 0 { EncodesKids(view, view[0].header.indexSon, tree, p); }
    FirstKidParent(tree, p);
    forall v | v in Visits(Kids(tree, p), p, depth) ensures TrueVisit(tree, v) {
      VisitParent(tree, p, depth, v);
    }
  }

  /** One context of a step: its document, the siblings after that and what lies below, as far as the step goes. */
  method ExamineContext(file: ZgdbFile, head: Doc, s: Step, startDepth: nat, isLast: bool, test: Tester,
                        nextList: ResultList, found: ResultList,
                        ghost tree: Forest, ghost p: nat, ghost nexts: seq<nat>, ghost founds: seq<nat>)
    returns (depth: nat)
    requires Lists(file, nextList, found) && EncodesTree(file.View(), tree) && WellJoined(s.pred)
    requires ContextOk(file.View(), tree, p, head)
    requires ShowsAll(file.View(), tree, nextList.docs, nexts) && ShowsAll(file.View(), tree, found.docs, founds)
    modifies nextList.Repr, found.Repr
    ensures Lists(file, nextList, found) && file.View() == old(file.View())
    ensures fresh(nextList.Repr - old(nextList.Repr)) && fresh(found.Repr - old(found.Repr))
    ensures var ms := Matches(file.View(), test, s, Examined(tree, p, s.relative), 0);
            && ShowsAll(file.View(), tree, nextList.docs, nexts + FirstKids(tree, WithChildren(tree, ms)))
            && ShowsAll(file.View(), tree, found.docs, founds + if isLast then ms else [])
  {
    hide ZgdbFile.Valid, ZgdbFile.View, ShowsAll, Lists;
    ghost var view := file.View();
    ContextStart(view, tree, p, head, startDepth);
    FetchedExamined(tree, p, s.relative, startDepth);
    ghost var all := Matches(view, test, s, Examined(tree, p, s.relative), 0);
    ghost var l := Loop(view, tree, test, s, startDepth, isLast, all, nexts, founds);
    var it := new DocumentIterator(head.header.indexAttached, head.indexParent, startDepth, view, Kids(tree, p));
    assert [] + all == all && nexts + [] == nexts && founds + [] == founds;
    assert l.Stands(it.Remaining(), startDepth, 0, [], nextList.docs, found.docs);
    depth := ExamineAll(file, it, s, startDepth, isLast, test, nextList, found, l);
  }

  // ---------- steps and paths ----------

  /** p is a document with children: a context is the traversal that starts at its first child. */
  ghost predicate IsContext(tree: Forest, p: nat) {
    (p == 0 || p in Orders(tree)) && Kids(tree, p).Cons?
  }

  ghost predicate AreContexts(tree: Forest, contexts: seq<nat>) {
    forall p {:trigger IsContext(tree, p)} :: p in contexts ==> IsContext(tree, p)
  }

  lemma {:induction false} FirstKidsAt(tree: Forest, ps: seq<nat>, i: nat)
    requires i < |ps| && Kids(tree, ps[i]).Cons?
    ensures FirstKids(tree, ps)[i] == Kids(tree, ps[i]).order
  {
    if i > 0 { FirstKidsAt(tree, ps[1..], i - 1); }
  }

  lemma HeadOfContext(file: ZgdbFile, tree: Forest, contexts: seq<nat>, docs: seq<Doc>, i: nat)
    requires file.Valid() && AreContexts(tree, contexts) && i < |contexts|
    requires ShowsAll(file.View(), tree, docs, FirstKids(tree, contexts))
    ensures i < |docs| && ContextOk(file.View(), tree, contexts[i], docs[i])
  {
    assert IsContext(tree, contexts[i]) && Shows(file.View(), tree, docs[i], FirstKids(tree, contexts)[i]);
    FirstKidsAt(tree, contexts, i);
    assert file.Image().Listed(Kids(tree, contexts[i]).order);
  }

  lemma {:induction false} StepMatchesPush(view: View, tree: Forest, test: Tester, s: Step, a: seq<nat>, p: nat)
    ensures StepMatches(view, tree, test, s, a + [p]) ==
            StepMatches(view, tree, test, s, a) + Matches(view, test, s, Examined(tree, p, s.relative), 0)
  {
    hide Matches;
    if a == [] {
      assert a + [p] == [p] && [p][1..] == [];
    } else {
      var one, more := Matches(view, test, s, Examined(tree, a[0], s.relative), 0),
          Matches(view, test, s, Examined(tree, p, s.relative), 0);
      assert (a + [p])[1..] == a[1..] + [p];
      StepMatchesPush(view, tree, test, s, a[1..], p);
      assert one + (StepMatches(view, tree, test, s, a[1..]) + more) == one + StepMatches(view, tree, test, s, a[1..])
          + more;
    }
  }

  /** What the lists show after some contexts of a step. */
  ghost predicate StepShown(view: View, tree: Forest, test: Tester, s: Step, contexts: seq<nat>, isLast: bool,
                            founds: seq<nat>,
                            nextDocs: seq<Doc>, foundDocs: seq<Doc>) {
    var ms := StepMatches(view, tree, test, s, contexts);
    && ShowsAll(view, tree, nextDocs, FirstKids(tree, WithChildren(tree, ms)))
    && ShowsAll(view, tree, foundDocs, founds + if isLast then ms else [])
  }

  lemma FirstKidsOfMore(tree: Forest, ms: seq<nat>, more: seq<nat>)
    ensures FirstKids(tree, WithChildren(tree, ms + more)) == FirstKids(tree, WithChildren(tree, ms))
        + FirstKids(tree, WithChildren(tree, more))
  {
    WithChildrenConcat(tree, ms, more);
    FirstKidsConcat(tree, WithChildren(tree, ms), WithChildren(tree, more));
  }

  lemma StepShownPush(view: View, tree: Forest, test: Tester, s: Step, a: seq<nat>, p: nat, isLast: bool,
                      founds: seq<nat>,
                      ms: seq<nat>, more: seq<nat>, nd: seq<Doc>, fd: seq<Doc>)
    requires ms == StepMatches(view, tree, test, s, a)
    requires more == Matches(view, test, s, Examined(tree, p, s.relative), 0)
    requires ShowsAll(view, tree, nd, FirstKids(tree, WithChildren(tree, ms))
                      + FirstKids(tree, WithChildren(tree, more)))
    requires ShowsAll(view, tree, fd, founds + (if isLast then ms else []) + if isLast then more else [])
    ensures StepShown(view, tree, test, s, a + [p], isLast, founds, nd, fd)
  {
    StepMatchesPush(view, tree, test, s, a, p);
    FirstKidsOfMore(tree, ms, more);
    FoundsOfMore(founds, ms, more, isLast);
  }

  lemma FoundsOfMore(founds: seq<nat>, ms: seq<nat>, more: seq<nat>, isLast: bool)
    ensures founds + (if isLast then ms + more else []) ==
            founds + (if isLast then ms else []) + if isLast then more else []
  {
  }

  /** One step: its contexts one after the other. */
  method EvaluateStep(file: ZgdbFile, contextList: ResultList, s: Step, startDepth: nat, isLast: bool, test: Tester,
                      found: ResultList,
                      ghost tree: Forest, ghost contexts: seq<nat>, ghost founds: seq<nat>)
    returns (tempContextList: ResultList, depth: nat)
    requires Lists(file, contextList, found) && EncodesTree(file.View(), tree) && WellJoined(s.pred)
    requires AreContexts(tree, contexts) && ShowsAll(file.View(), tree, contextList.docs, FirstKids(tree, contexts))
    requires ShowsAll(file.View(), tree, found.docs, founds)
    modifies found.Repr
    ensures Lists(file, tempContextList, found) && file.View() == old(file.View())
    ensures fresh(tempContextList) && fresh(tempContextList.Repr) && fresh(found.Repr - old(found.Repr))
    ensures StepShown(file.View(), tree, test, s, contexts, isLast, founds, tempContextList.docs, found.docs)
  {
    tempContextList := new ResultList();
    assert founds + [] == founds && contexts[..0] == [];
    depth := EvaluateAll(file, contextList, s, startDepth, isLast, test, tempContextList, found, tree, contexts,
                         founds);
    if s.relative {
      depth := 1;
    }
  }

  /** The loop over the context list. */
  method EvaluateAll(file: ZgdbFile, contextList: ResultList, s: Step, startDepth: nat, isLast: bool, test: Tester,
                     nextList: ResultList, found: ResultList, ghost tree: Forest, ghost contexts: seq<nat>,
                     ghost founds: seq<nat>)
    returns (depth: nat)
    requires ThreeLists(file, contextList, nextList, found) && EncodesTree(file.View(), tree) && WellJoined(s.pred)
    requires AreContexts(tree, contexts) && ShowsAll(file.View(), tree, contextList.docs, FirstKids(tree, contexts))
    requires StepShown(file.View(), tree, test, s, [], isLast, founds, nextList.docs, found.docs)
    modifies nextList.Repr, found.Repr
    ensures Lists(file, nextList, found) && file.View() == old(file.View())
    ensures fresh(nextList.Repr - old(nextList.Repr)) && fresh(found.Repr - old(found.Repr))
    ensures StepShown(file.View(), tree, test, s, contexts, isLast, founds, nextList.docs, found.docs)
  {
    hide StepShown, ZgdbFile.Valid, ZgdbFile.View;
    ghost var view, j, done, docs, nextRepr, foundRepr := file.View(), 0, contexts[..0], contextList.docs,
        nextList.Repr, found.Repr;
    depth := startDepth;
    var tempRes := contextList.head;
    while tempRes != null
      invariant ThreeLists(file, contextList, nextList, found) && file.View() == view && contextList.docs == docs
      invariant fresh(nextList.Repr - nextRepr) && fresh(found.Repr - foundRepr)
      invariant j <= |contexts| && done == contexts[..j]
      invariant tempRes == if j < |contexts| then contextList.nodes[j] else null
      invariant StepShown(view, tree, test, s, done, isLast, founds, nextList.docs, found.docs)
      decreases |contexts| - j
    {
      tempRes, depth := EvaluateNext(file, contextList, tempRes, s, depth, isLast, test, nextList, found, tree,
                                     contexts, j, founds);
      j := j + 1;
      done := contexts[..j];
    }
    assert done == contexts;
  }

  /** The file, the list of contexts, and the two lists that grow share nothing. */
  ghost predicate ThreeLists(file: ZgdbFile, contextList: ResultList, a: ResultList, b: ResultList)
    reads file, file.freeList, file.freeList.Repr, contextList, contextList.Repr, a, a.Repr, b, b.Repr
  {
    Lists(file, a, b) && contextList.Valid() && contextList.Repr !! a.Repr && contextList.Repr !! b.Repr
  }

  /** One round: evaluates the step below a context and goes on to the next one. */
  method EvaluateNext(file: ZgdbFile, contextList: ResultList, tempRes: ResultNode, s: Step, startDepth: nat,
                      isLast: bool, test: Tester,
                      nextList: ResultList, found: ResultList, ghost tree: Forest, ghost contexts: seq<nat>,
                      ghost j: nat, ghost founds: seq<nat>)
    returns (next: ResultNode?, depth: nat)
    requires ThreeLists(file, contextList, nextList, found) && EncodesTree(file.View(), tree) && WellJoined(s.pred)
    requires AreContexts(tree, contexts) && ShowsAll(file.View(), tree, contextList.docs, FirstKids(tree, contexts))
    requires j < |contexts| == |contextList.nodes| && tempRes == contextList.nodes[j]
    requires StepShown(file.View(), tree, test, s, contexts[..j], isLast, founds, nextList.docs, found.docs)
    modifies nextList.Repr, found.Repr
    ensures ThreeLists(file, contextList, nextList, found) && file.View() == old(file.View())
    ensures contextList.docs == old(contextList.docs) && contextList.nodes == old(contextList.nodes)
    ensures fresh(nextList.Repr - old(nextList.Repr)) && fresh(found.Repr - old(found.Repr))
    ensures next == if j + 1 < |contexts| then contextList.nodes[j + 1] else null
    ensures StepShown(file.View(), tree, test, s, contexts[..j + 1], isLast, founds, nextList.docs, found.docs)
  {
    ghost var repr := contextList.Repr;
    HeadOfContext(file, tree, contexts, contextList.docs, j);
    assert tempRes.document == contextList.docs[j] && contexts[..j + 1] == contexts[..j] + [contexts[j]];
    depth := EvaluateContext(file, tempRes.document, s, startDepth, isLast, test, nextList, found, tree, contexts[..j],
                             contexts[j], founds);
    assert contextList.Valid() && contextList.Repr == repr && contextList.nodes[j].next == tempRes.next;
    next := tempRes.next;
  }

  method EvaluateContext(file: ZgdbFile, head: Doc, s: Step, startDepth: nat, isLast: bool, test: Tester,
                         nextList: ResultList, found: ResultList,
                         ghost tree: Forest, ghost done: seq<nat>, ghost p: nat,
                         ghost founds: seq<nat>)
    returns (depth: nat)
    requires Lists(file, nextList, found) && EncodesTree(file.View(), tree) && WellJoined(s.pred)
    requires ContextOk(file.View(), tree, p, head)
    requires StepShown(file.View(), tree, test, s, done, isLast, founds, nextList.docs, found.docs)
    modifies nextList.Repr, found.Repr
    ensures Lists(file, nextList, found) && file.View() == old(file.View())
    ensures fresh(nextList.Repr - old(nextList.Repr)) && fresh(found.Repr - old(found.Repr))
    ensures StepShown(file.View(), tree, test, s, done + [p], isLast, founds, nextList.docs, found.docs)
  {
    ghost var ms := StepMatches(file.View(), tree, test, s, done);
    depth := ExamineContext(file, head, s, startDepth, isLast, test, nextList, found, tree, p,
                            FirstKids(tree, WithChildren(tree, ms)), founds + if isLast then ms else []);
    StepShownPush(file.View(), tree, test, s, done, p, isLast, founds, ms,
                  Matches(file.View(), test, s, Examined(tree, p, s.relative), 0), nextList.docs, found.docs);
  }

  // ---------- join ----------

  /** The children that satisfy a list of predicates; their number counts every child. */
  ghost function Joined(view: View, test: Tester, preds: seq<Predicate>, orders: seq<nat>, docNumber: nat): seq<nat> {
    if orders == [] then []
    else OneIf(IsDoc(view, orders[0]) && Satisfied(preds, test, view[orders[0]].header, docNumber), orders[0])
         + Joined(view, test, preds, orders[1..], docNumber + 1)
  }

  /** One child more: it joins exactly if it satisfies the predicates under the number of children in front of it. */
  lemma {:induction false} JoinedPush(view: View, test: Tester, preds: seq<Predicate>, orders: seq<nat>, docNumber: nat,
                                      x: nat)
    requires IsDoc(view, x)
    ensures Joined(view, test, preds, orders + [x], docNumber) ==
            Joined(view, test, preds, orders, docNumber)
            + OneIf(Satisfied(preds, test, view[x].header, docNumber + |orders|), x)
  {
    hide Satisfied, OneIf;
    if orders == [] {
      assert orders + [x] == [x] && [x][1..] == [];
    } else {
      assert (orders + [x])[0] == orders[0] && (orders + [x])[1..] == orders[1..] + [x];
      JoinedPush(view, test, preds, orders[1..], docNumber + 1, x);
      var k := docNumber + |orders|;
      AddedInOrder(OneIf(IsDoc(view, orders[0]) && Satisfied(preds, test, view[orders[0]].header, docNumber),
                         orders[0]),
                   Joined(view, test, preds, orders[1..], docNumber + 1),
                   OneIf(Satisfied(preds, test, view[x].header, k), x));
    }
  }

  lemma {:induction false} JoinedAll(view: View, test: Tester, orders: seq<nat>, docNumber: nat)
    requires forall o :: o in orders ==> IsDoc(view, o)
    ensures Joined(view, test, [], orders, docNumber) == orders
  {
    if orders != [] { JoinedAll(view, test, orders[1..], docNumber + 1); }
  }

  lemma {:induction false} RootVisit(f: Forest, p: nat, depth: nat, x: nat)
    requires x in Roots(f)
    ensures Visit(x, p, depth) in Visits(f, p, depth)
  {
    if f.order != x { RootVisit(f.rest, p, depth, x); }
  }

  lemma KidParent(tree: Forest, p: nat, x: nat)
    requires Distinct(tree) && (p == 0 || p in Orders(tree)) && x in Roots(Kids(tree, p))
    ensures x in Orders(tree) && ParentOf(tree, x) == p
  {
    RootVisit(Kids(tree, p), p, 0, x);
    VisitParent(tree, p, 0, Visit(x, p, 0));
  }

  /** Where the loop of join stands: `rest` are the children still to come. */
  datatype JoinLoop = JoinLoop(view: View, tree: Forest, test: Tester, preds: seq<Predicate>, o: nat) {
    ghost predicate Stands(rest: Forest, docNumber: nat, done: seq<nat>, docs: seq<Doc>) {
      && (forall x :: x in Roots(rest) ==> x in Roots(Kids(tree, o)))
      && Joined(view, test, preds, Roots(Kids(tree, o)), 0) == done + Joined(view, test, preds, Roots(rest), docNumber)
      && ShowsAll(view, tree, docs, done)
    }
  }

  lemma JoinStep(l: JoinLoop, rest: Forest, k: nat, done: seq<nat>, docs: seq<Doc>) returns (hit: bool)
    requires l.Stands(rest, k, done, docs) && rest.Cons? && IsDoc(l.view, rest.order)
    ensures hit <==> Satisfied(l.preds, l.test, l.view[rest.order].header, k)
    ensures !hit ==> l.Stands(rest.rest, k + 1, done, docs)
    ensures forall doc :: hit && Shows(l.view, l.tree, doc, rest.order) ==>
              l.Stands(rest.rest, k + 1, done + [rest.order], docs + [doc])
  {
    hit := Satisfied(l.preds, l.test, l.view[rest.order].header, k);
    var now, next := Roots(rest), Roots(rest.rest);
    assert now[1..] == next && now[0] == rest.order;
    assert forall x :: x in next ==> x in now;
    assert Joined(l.view, l.test, l.preds, now, k) == OneIf(hit, rest.order)
        + Joined(l.view, l.test, l.preds, next, k + 1);
    assert done + (OneIf(hit, rest.order) + Joined(l.view, l.test, l.preds, next, k + 1))
        == done + OneIf(hit, rest.order) + Joined(l.view, l.test, l.preds, next, k + 1);
    forall doc | hit && Shows(l.view, l.tree, doc, rest.order)
      ensures l.Stands(rest.rest, k + 1, done + [rest.order], docs + [doc])
    {
      ShowsPush(l.view, l.tree, docs, done, doc, rest.order);
    }
  }

  /** join: the children of a document that satisfy the predicates, in order. */
  method Join(file: ZgdbFile, parent: Doc, preds: seq<Predicate>, test: Tester, ghost tree: Forest)
    returns (pList: ResultList)
    requires file.Valid() && EncodesTree(file.View(), tree) && WellJoined(preds)
    requires var o := parent.header.indexAttached;
             (o == 0 || o in Orders(tree)) && IsDoc(file.View(), o) && parent.header == file.View()[o].header
    ensures pList.Valid() && fresh(pList) && fresh(pList.Repr)
    ensures ShowsAll(file.View(), tree, pList.docs,
                     Joined(file.View(), test, preds, Roots(Kids(tree, parent.header.indexAttached)), 0))
  {
    hide ZgdbFile.View, ZgdbFile.Valid;
    ghost var view, o := file.View(), parent.header.indexAttached;
    ghost var l, done, rest: Forest := JoinLoop(view, tree, test, preds, o), [], Kids(tree, o);
    if o != 0 { EncodesKids(view, view[0].header.indexSon, tree, o); }
    pList := new ResultList();
    var tempIndex, docNumber := parent.header.indexSon, 0;
    while tempIndex != 0
      invariant pList.Valid() && fresh(pList.Repr)
      invariant Encodes(view, tempIndex, rest) && l.Stands(rest, docNumber, done, pList.docs)
      decreases rest
    {
      tempIndex, done := JoinNext(file, parent, tempIndex, docNumber, preds, test, pList, l, rest, done);
      rest := rest.rest;
      docNumber := docNumber + 1;
    }
  }

  /** One round of join: examines a child and goes on to its brother. */
  method JoinNext(file: ZgdbFile, parent: Doc, tempIndex: nat, docNumber: nat, preds: seq<Predicate>, test: Tester,
                  pList: ResultList,
                  ghost l: JoinLoop, ghost rest: Forest, ghost done: seq<nat>)
    returns (next: nat, ghost done': seq<nat>)
    requires file.Valid() && EncodesTree(file.View(), l.tree) && WellJoined(preds)
    requires l == JoinLoop(file.View(), l.tree, test, preds, parent.header.indexAttached)
    requires l.o == 0 || l.o in Orders(l.tree)
    requires pList.Valid() && pList.Repr !! file.Repr()
    requires tempIndex != 0 && Encodes(file.View(), tempIndex, rest) && l.Stands(rest, docNumber, done, pList.docs)
    modifies pList.Repr
    ensures pList.Valid() && fresh(pList.Repr - old(pList.Repr))
    ensures Encodes(l.view, next, rest.rest) && l.Stands(rest.rest, docNumber + 1, done', pList.docs)
  {
    hide ShowsAll;
    ghost var hit := JoinStep(l, rest, docNumber, done, pList.docs);
    KidParent(l.tree, l.o, tempIndex);
    var tempHeader := GetDocumentHeader(file, tempIndex);
    var temp := Doc(IsRootDocumentHeader(tempHeader), parent.header.indexAttached, tempHeader);
    var pred := CalculatePredicate(preds, test, tempHeader, docNumber);
    next, done' := tempHeader.indexBrother, done;
    if pred {
      assert Shows(l.view, l.tree, temp, rest.order);
      pList.InsertResult(temp);
      done' := done + [rest.order];
    }
  }

  // ---------- findIfFromRoot ----------

  /** The path consists of one step without a name. */
  predicate Nameless(p: seq<Step>) {
    |p| == 1 && p[0].stepName == []
  }

  /** What findIfFromRoot answers: the root document for the nameless absolute step, its children for the nameless
      relative one, otherwise what the path finds. */
  ghost predicate Answers(view: View, tree: Forest, test: Tester, p: seq<Step>, docs: seq<Doc>) {
    && IsDoc(view, 0)
    && if Nameless(p) && !p[0].relative then docs == [Doc(true, 0, view[0].header)]
       else ShowsAll(view, tree, docs, if Nameless(p) then Roots(tree)
                     else Results(view, tree, test, FromRoot(tree), p))
  }

  method FindIfFromRoot(file: ZgdbFile, p: seq<Step>, test: Tester, ghost tree: Forest)
    returns (documentList: ResultList)
    requires file.Valid() && EncodesTree(file.View(), tree)
    requires forall i :: 0 <= i < |p| ==> WellJoined(p[i].pred)
    ensures documentList.Valid() && fresh(documentList) && fresh(documentList.Repr)
    ensures Answers(file.View(), tree, test, p, documentList.docs)
  {
    var rootIterator, root := SkipRoot(file, tree);
    if |p| == 1 && p[0].stepName == [] {
      documentList := NamelessStep(file, root, p[0].relative, test, tree);
      return;
    }
    if !rootIterator.HasNextDoc() {
      NothingBelow(file.View(), tree, test, p);
      documentList := new ResultList();
      return;
    }
    var first, depth := FirstBelow(file, rootIterator, tree);
    documentList := Evaluate(file, first, depth, p, test, tree);
  }

  /** The traversal from the root, its first document fetched. */
  method SkipRoot(file: ZgdbFile, ghost tree: Forest) returns (it: DocumentIterator, root: Doc)
    requires file.Valid() && EncodesTree(file.View(), tree)
    ensures fresh(it) && fresh(it.pStack) && fresh(it.pStack.data)
    ensures it.Valid() && it.view == file.View() && it.Apart(file) && it.Remaining() == Visits(tree, 0, 1)
    ensures IsDoc(file.View(), 0) && root == Doc(true, 0, file.View()[0].header) && root.header.indexAttached == 0
  {
    hide ZgdbFile.Valid;
    it := new DocumentIterator(0, 0, 0, file.View(), Cons(0, tree, Empty));
    ghost var all := it.Remaining();
    FromTheRoot(tree);
    var depth;
    ghost var v;
    root, depth, v := it.NextDoc(file);
    assert all[0] == Visit(0, 0, 0) && all[1..] == Visits(tree, 0, 1) && all[0] == v && all[1..] == it.Remaining();
  }

  /** The first document below the root. */
  method FirstBelow(file: ZgdbFile, it: DocumentIterator, ghost tree: Forest) returns (first: Doc, depth: nat)
    requires file.Valid() && EncodesTree(file.View(), tree) && tree.Cons?
    requires it.Valid() && it.view == file.View() && it.Apart(file) && it.Remaining() == Visits(tree, 0, 1)
    modifies it`stop, it`next, it`pending, it.pStack, it.pStack.data
    ensures file.Valid() && file.View() == old(file.View()) && Shows(file.View(), tree, first, tree.order)
  {
    ghost var v;
    first, depth, v := it.NextDoc(file);
    FromTheRoot(tree);
    assert Visits(tree, 0, 1)[0] == v;
    VisitParent(tree, 0, 1, v);
  }

  /** The nameless step asks for the root document or for its children. */
  method NamelessStep(file: ZgdbFile, root: Doc, relative: bool, test: Tester, ghost tree: Forest)
    returns (list: ResultList)
    requires file.Valid() && EncodesTree(file.View(), tree)
    requires root == Doc(true, 0, file.View()[0].header) && root.header.indexAttached == 0
    ensures list.Valid() && fresh(list) && fresh(list.Repr)
    ensures if relative then ShowsAll(file.View(), tree, list.docs, Roots(tree)) else list.docs == [root]
  {
    if !relative {
      list := new ResultList();
      list.InsertResult(root);
    } else {
      EncodesOrders(file.View(), file.View()[0].header.indexSon, tree);
      RootsAreOrders(tree);
      JoinedAll(file.View(), test, Roots(tree), 0);
      list := Join(file, root, [], test, tree);
    }
  }

  lemma FromTheRoot(tree: Forest)
    ensures Visits(Cons(0, tree, Empty), 0, 0) == [Visit(0, 0, 0)] + Visits(tree, 0, 1)
    ensures tree.Cons? ==> Visits(tree, 0, 1)[0] == Visit(tree.order, 0, 1)
  {
  }

  lemma {:induction false} NothingBelow(view: View, tree: Forest, test: Tester, p: seq<Step>)
    ensures Results(view, tree, test, [], p) == []
  {
    if |p| > 1 {
      assert StepMatches(view, tree, test, p[0], []) == [] && WithChildren(tree, []) == [];
      NothingBelow(view, tree, test, p[1..]);
    }
  }

  lemma ContextsInTree(view: View, tree: Forest, test: Tester, s: Step, contexts: seq<nat>)
    requires Distinct(tree) && AreContexts(tree, contexts)
    ensures AreContexts(tree, WithChildren(tree, StepMatches(view, tree, test, s, contexts)))
  {
    var ms := StepMatches(view, tree, test, s, contexts);
    forall p | p in WithChildren(tree, ms) ensures IsContext(tree, p) {
      WithChildrenIff(tree, ms, p);
      MatchesInTree(view, tree, test, s, contexts, p);
    }
  }

  lemma {:induction false} MatchesInTree(view: View, tree: Forest, test: Tester, s: Step, contexts: seq<nat>, x: nat)
    requires Distinct(tree) && AreContexts(tree, contexts) && x in StepMatches(view, tree, test, s, contexts)
    ensures x in Orders(tree)
  {
    var first := Matches(view, test, s, Examined(tree, contexts[0], s.relative), 0);
    if x in first {
      assert IsContext(tree, contexts[0]);
      MatchesExamined(view, test, s, Examined(tree, contexts[0], s.relative), 0, x);
      AnyExaminedInTree(tree, contexts[0], s.relative, x);
    } else {
      MatchesInTree(view, tree, test, s, contexts[1..], x);
    }
  }

  lemma {:induction false} MatchesExamined(view: View, test: Tester, s: Step, orders: seq<nat>, k: nat, x: nat)
    requires x in Matches(view, test, s, orders, k)
    ensures x in orders
  {
    if x != orders[0] {
      MatchesExamined(view, test, s, orders[1..], k + if Named(view, orders[0], s.stepName) then 1 else 0, x);
    }
  }

  lemma AnyExaminedInTree(tree: Forest, p: nat, relative: bool, x: nat)
    requires Distinct(tree) && x in Examined(tree, p, relative)
    ensures x in Orders(tree)
  {
    if relative {
      ExaminedInTree(tree, p, x);
    } else {
      KidsBelowOrders(tree, p);
      RootsAreOrders(Kids(tree, p));
      OneDeeperIsDeeper(Kids(tree, p));
    }
  }

  /** The answer is what the remaining steps find below the contexts. */
  ghost predicate Ahead(view: View, tree: Forest, test: Tester, all: seq<nat>, contexts: seq<nat>, steps: seq<Step>,
                        docs: seq<Doc>) {
    if steps == [] then ShowsAll(view, tree, docs, all)
    else docs == [] && all == Results(view, tree, test, contexts, steps)
  }

  lemma AheadStep(view: View, tree: Forest, test: Tester, all: seq<nat>, contexts: seq<nat>, steps: seq<Step>,
                  nd: seq<Doc>, fd: seq<Doc>)
    returns (contexts': seq<nat>)
    requires Distinct(tree) && AreContexts(tree, contexts) && steps != []
    requires Ahead(view, tree, test, all, contexts, steps, [])
    requires StepShown(view, tree, test, steps[0], contexts, |steps| == 1, [], nd, fd)
    ensures AreContexts(tree, contexts') && ShowsAll(view, tree, nd, FirstKids(tree, contexts'))
    ensures Ahead(view, tree, test, all, contexts', steps[1..], fd)
  {
    var ms := StepMatches(view, tree, test, steps[0], contexts);
    contexts' := WithChildren(tree, ms);
    ContextsInTree(view, tree, test, steps[0], contexts);
    assert [] + ms == ms;
  }

  /** The loop over the steps of a path. */
  method Evaluate(file: ZgdbFile, first: Doc, firstDepth: nat, p: seq<Step>, test: Tester, ghost tree: Forest)
    returns (documentList: ResultList)
    requires file.Valid() && EncodesTree(file.View(), tree) && tree.Cons?
    requires Shows(file.View(), tree, first, tree.order)
    requires forall i :: 0 <= i < |p| ==> WellJoined(p[i].pred)
    ensures documentList.Valid() && fresh(documentList) && fresh(documentList.Repr)
    ensures ShowsAll(file.View(), tree, documentList.docs, Results(file.View(), tree, test, FromRoot(tree), p))
  {
    hide ZgdbFile.Valid, ZgdbFile.View;
    ghost var view, contexts, all := file.View(), FromRoot(tree), Results(file.View(), tree, test, FromRoot(tree), p);
    documentList := new ResultList();
    var contextList := new ResultList();
    contextList.InsertResult(first);
    assert IsContext(tree, 0) && FirstKids(tree, [0]) == [tree.order] + FirstKids(tree, []);
    var depth := firstDepth;
    ghost var left := p;
    for i := 0 to |p|
      invariant Lists(file, contextList, documentList) && file.View() == view
      invariant fresh(contextList) && fresh(contextList.Repr) && fresh(documentList.Repr)
      invariant AreContexts(tree, contexts) && ShowsAll(view, tree, contextList.docs, FirstKids(tree, contexts))
      invariant left == p[i..] && Ahead(view, tree, test, all, contexts, left, documentList.docs)
    {
      var tempContextList;
      tempContextList, depth :=
        EvaluateStep(file, contextList, p[i], depth, i == |p| - 1, test, documentList, tree, contexts, []);
      contexts := AheadStep(view, tree, test, all, contexts, left, tempContextList.docs, documentList.docs);
      left := left[1..];
      contextList := tempContextList;
    }
  }
}
