/** The document tree. A forest is a first-son/next-brother structure over index orders; the tree of a file
    is the forest below the root document (order 0). */
module Forests {
  import opened Blocks
  import opened Tilings

  datatype Forest = Empty | Cons(order: nat, kids: Forest, rest: Forest)

  ghost function Orders(f: Forest): seq<nat> {
    match f
    case Empty => []
    case Cons(o, k, r) => [o] + Orders(k) + Orders(r)
  }

  ghost function Size(f: Forest): (n: nat)
    ensures n == |Orders(f)|
  {
    match f
    case Empty => 0
    case Cons(_, k, r) => 1 + Size(k) + Size(r)
  }

  ghost function Roots(f: Forest): seq<nat> {
    match f
    case Empty => []
    case Cons(o, _, r) => [o] + Roots(r)
  }

  /** The forest of p's children; 0 stands for the root document. */
  ghost function Kids(f: Forest, p: nat): Forest {
    if p == 0 then f else KidsBelow(f, p)
  }

  ghost function KidsBelow(f: Forest, p: nat): Forest {
    match f
    case Empty => Empty
    case Cons(o, k, r) => if o == p then k else if p in Orders(k) then KidsBelow(k, p) else KidsBelow(r, p)
  }

  /** f with o as the first child of p. */
  ghost function WithChild(f: Forest, p: nat, o: nat): Forest {
    if p == 0 then Cons(o, Empty, f) else WithChildBelow(f, p, o)
  }

  ghost function WithChildBelow(f: Forest, p: nat, o: nat): Forest {
    match f
    case Empty => Empty
    case Cons(x, k, r) =>
      if x == p then Cons(x, Cons(o, Empty, k), r)
      else Cons(x, WithChildBelow(k, p, o), WithChildBelow(r, p, o))
  }

  /** f without o and everything below it. */
  ghost function Cut(f: Forest, o: nat): Forest {
    match f
    case Empty => Empty
    case Cons(x, k, r) => if x == o then r else Cons(x, Cut(k, o), Cut(r, o))
  }

  ghost predicate Distinct(f: Forest) {
    NoDuplicates(Orders(f))
  }

  lemma DistinctParts(f: Forest)
    requires f.Cons?
    ensures Distinct(f) <==>
            && Distinct(f.kids) && Distinct(f.rest)
            && f.order !in Orders(f.kids) && f.order !in Orders(f.rest)
            && forall x :: x in Orders(f.kids) ==> x !in Orders(f.rest)
  {
    NoDuplicatesConcat([f.order] + Orders(f.kids), Orders(f.rest));
    NoDuplicatesConcat([f.order], Orders(f.kids));
  }

  lemma {:induction false} RootsAreOrders(f: Forest)
    ensures forall x :: x in Roots(f) ==> x in Orders(f)
  {
    if f.Cons? { RootsAreOrders(f.rest); }
  }

  lemma {:induction false} KidsBelowOrders(f: Forest, p: nat)
    ensures forall x :: x in Orders(KidsBelow(f, p)) ==> x in Orders(f)
    ensures p !in Orders(f) ==> KidsBelow(f, p) == Empty
    ensures Distinct(f) ==> Distinct(KidsBelow(f, p)) && p !in Orders(KidsBelow(f, p))
  {
    if f.Cons? {
      KidsBelowOrders(f.kids, p);
      KidsBelowOrders(f.rest, p);
      DistinctParts(f);
    }
  }

  // ---------- inserting and cutting ----------

  lemma {:induction false} CutAbsent(f: Forest, o: nat)
    requires o !in Orders(f)
    ensures Cut(f, o) == f
  {
    if f.Cons? {
      CutAbsent(f.kids, o);
      CutAbsent(f.rest, o);
    }
  }

  lemma {:induction false} WithChildAbsent(f: Forest, p: nat, o: nat)
    requires p !in Orders(f)
    ensures WithChildBelow(f, p, o) == f
  {
    if f.Cons? {
      WithChildAbsent(f.kids, p, o);
      WithChildAbsent(f.rest, p, o);
    }
  }

  lemma WithChildOrders(f: Forest, p: nat, o: nat)
    requires Distinct(f) && p in Orders(f) && o !in Orders(f)
    ensures multiset(Orders(WithChildBelow(f, p, o))) == multiset(Orders(f)) + multiset{o}
    ensures Distinct(WithChildBelow(f, p, o))
  {
    WithChildMultiset(f, p, o);
    NoDuplicatesMultiset(Orders(f));
    NoDuplicatesMultiset(Orders(WithChildBelow(f, p, o)));
  }

  lemma OrdersMultiset(f: Forest)
    requires f.Cons?
    ensures multiset(Orders(f)) == multiset{f.order} + multiset(Orders(f.kids)) + multiset(Orders(f.rest))
  {
    assert Orders(f) == ([f.order] + Orders(f.kids)) + Orders(f.rest);
  }

  lemma {:induction false} WithChildMultiset(f: Forest, p: nat, o: nat)
    requires Distinct(f) && p in Orders(f)
    ensures multiset(Orders(WithChildBelow(f, p, o))) == multiset(Orders(f)) + multiset{o}
  {
    DistinctParts(f);
    var g := WithChildBelow(f, p, o);
    if f.order == p {
      assert Orders(g.kids) == [o] + [] + Orders(f.kids);
      OneMore(g, f, multiset{o}, multiset{});
    } else if p in Orders(f.kids) {
      WithChildMultiset(f.kids, p, o);
      WithChildAbsent(f.rest, p, o);
      OneMore(g, f, multiset{o}, multiset{});
    } else {
      WithChildMultiset(f.rest, p, o);
      WithChildAbsent(f.kids, p, o);
      OneMore(g, f, multiset{}, multiset{o});
    }
  }

  lemma SameElements(s: seq<nat>, t: seq<nat>, o: nat)
    requires multiset(s) == multiset(t) + multiset{o}
    ensures forall x :: x in s <==> x in t || x == o
  {
    forall x ensures x in s <==> x in t || x == o {
      assert x in s <==> x in multiset(s);
      assert x in t <==> x in multiset(t);
    }
  }

  lemma WithChildMembers(f: Forest, p: nat, o: nat)
    requires Distinct(f) && (p == 0 || p in Orders(f)) && o !in Orders(f)
    ensures forall x :: x in Orders(WithChild(f, p, o)) <==> x in Orders(f) || x == o
    ensures Size(WithChild(f, p, o)) == Size(f) + 1
  {
    if p != 0 {
      WithChildOrders(f, p, o);
      SameElements(Orders(WithChild(f, p, o)), Orders(f), o);
      assert |Orders(WithChild(f, p, o))| == |multiset(Orders(WithChild(f, p, o)))|;
    }
  }

  lemma OneMore(g: Forest, f: Forest, k: multiset<nat>, r: multiset<nat>)
    requires f.Cons? && g.Cons? && f.order == g.order
    requires multiset(Orders(g.kids)) == multiset(Orders(f.kids)) + k
    requires multiset(Orders(g.rest)) == multiset(Orders(f.rest)) + r
    ensures multiset(Orders(g)) == multiset(Orders(f)) + k + r
  {
    OrdersMultiset(f);
    OrdersMultiset(g);
  }

  /** Creating a document and deleting it again restores the tree. */
  lemma {:induction false} CutWithChild(f: Forest, p: nat, o: nat)
    requires o !in Orders(f) && o != p
    ensures Cut(WithChild(f, p, o), o) == f
  {
    CutAbsent(f, o);
    if p != 0 {
      CutWithChildBelow(f, p, o);
    }
  }

  lemma {:induction false} CutWithChildBelow(f: Forest, p: nat, o: nat)
    requires o !in Orders(f)
    ensures Cut(WithChildBelow(f, p, o), o) == f
  {
    if f.Cons? {
      CutAbsent(f, o);
      CutWithChildBelow(f.kids, p, o);
      CutWithChildBelow(f.rest, p, o);
    }
  }

  /** A new document is its parent's first child and has no children. */
  lemma {:induction false} WithChildKids(f: Forest, p: nat, o: nat)
    requires Distinct(f) && (p == 0 || p in Orders(f)) && o !in Orders(f) && 0 !in Orders(f)
    ensures Kids(WithChild(f, p, o), p) == Cons(o, Empty, Kids(f, p))
  {
    if p != 0 { WithChildKidsBelow(f, p, o); }
  }

  lemma {:induction false} WithChildKidsBelow(f: Forest, p: nat, o: nat)
    requires Distinct(f) && p in Orders(f) && o !in Orders(f)
    ensures KidsBelow(WithChildBelow(f, p, o), p) == Cons(o, Empty, KidsBelow(f, p))
  {
    DistinctParts(f);
    if f.order == p {
    } else if p in Orders(f.kids) {
      WithChildKidsBelow(f.kids, p, o);
      WithChildOrders(f.kids, p, o);
      SameElements(Orders(WithChildBelow(f.kids, p, o)), Orders(f.kids), o);
    } else {
      WithChildAbsent(f.kids, p, o);
      WithChildKidsBelow(f.rest, p, o);
    }
  }

  /** What a cut takes out of the first root's children, or out of its brothers, it takes out of the whole. */
  lemma LessOne(f: Forest, k: Forest, r: Forest, gone: multiset<nat>)
    requires f.Cons?
    requires (r == f.rest && multiset(Orders(f.kids)) == multiset(Orders(k)) + gone)
          || (k == f.kids && multiset(Orders(f.rest)) == multiset(Orders(r)) + gone)
    ensures multiset(Orders(f)) == multiset(Orders(Cons(f.order, k, r))) + gone
  {
    var one, ks, rs := multiset{f.order}, multiset(Orders(k)), multiset(Orders(r));
    OrdersMultiset(f);
    OrdersMultiset(Cons(f.order, k, r));
    if r == f.rest && multiset(Orders(f.kids)) == ks + gone {
      SumLessFirst(one, ks, rs, gone);
    } else {
      SumLessSecond(one, ks, rs, gone);
    }
  }

  lemma SumLessFirst<T>(one: multiset<T>, a: multiset<T>, b: multiset<T>, gone: multiset<T>)
    ensures one + (a + gone) + b == one + a + b + gone
  {
  }

  lemma SumLessSecond<T>(one: multiset<T>, a: multiset<T>, b: multiset<T>, gone: multiset<T>)
    ensures one + a + (b + gone) == one + a + b + gone
  {
  }

  /** Cutting removes exactly o and the documents below it. */
  lemma {:induction false} CutOrders(f: Forest, o: nat)
    requires Distinct(f) && o in Orders(f)
    ensures multiset(Orders(f)) == multiset(Orders(Cut(f, o))) + multiset(Subtree(f, o))
  {
    DistinctParts(f);
    if f.order == o {
      OrdersMultiset(f);
    } else if o in Orders(f.kids) {
      CutOrders(f.kids, o);
      CutAbsent(f.rest, o);
      LessOne(f, Cut(f.kids, o), f.rest, multiset(Subtree(f, o)));
    } else {
      CutOrders(f.rest, o);
      CutAbsent(f.kids, o);
      LessOne(f, f.kids, Cut(f.rest, o), multiset(Subtree(f, o)));
    }
  }

  lemma {:induction false} CutDistinct(f: Forest, o: nat)
    requires Distinct(f)
    ensures Distinct(Cut(f, o))
    ensures forall x :: x in Orders(Cut(f, o)) ==> x in Orders(f) && x != o
  {
    if f.Cons? {
      DistinctParts(f);
      if f.order != o {
        CutDistinct(f.kids, o);
        CutDistinct(f.rest, o);
        DistinctParts(Cut(f, o));
      }
    }
  }

  /** The documents that go when o is cut: o and everything below it. */
  ghost function Subtree(f: Forest, o: nat): seq<nat> {
    [o] + Orders(KidsBelow(f, o))
  }

  lemma CutMembers(f: Forest, o: nat)
    requires Distinct(f) && o in Orders(f)
    ensures forall x :: x in Orders(Cut(f, o)) <==> x in Orders(f) && x !in Subtree(f, o)
    ensures Size(f) == Size(Cut(f, o)) + |Subtree(f, o)|
  {
    CutOrders(f, o);
    NoDuplicatesMultiset(Orders(f));
    var a, b, c := Orders(f), Orders(Cut(f, o)), Subtree(f, o);
    assert |multiset(a)| == |multiset(b)| + |multiset(c)|;
    forall x ensures x in b <==> x in a && x !in c {
      assert multiset(a)[x] == multiset(b)[x] + multiset(c)[x];
      assert (x in b <==> x in multiset(b)) && (x in c <==> x in multiset(c)) && (x in a <==> x in multiset(a));
    }
  }

  ghost function Without(s: seq<nat>, o: nat): seq<nat> {
    if s == [] then [] else (if s[0] == o then [] else [s[0]]) + Without(s[1..], o)
  }

  lemma {:induction false} WithoutAbsent(s: seq<nat>, o: nat)
    requires o !in s
    ensures Without(s, o) == s
  {
    if s != [] { WithoutAbsent(s[1..], o); }
  }

  /** Cutting o keeps the order of everybody's remaining children. */
  lemma {:induction false} CutKeepsSiblings(f: Forest, o: nat, p: nat)
    requires Distinct(f) && p != o && (p == 0 || p in Orders(Cut(f, o)))
    ensures Roots(Kids(Cut(f, o), p)) == Without(Roots(Kids(f, p)), o)
  {
    CutRoots(f, o);
    if p != 0 { CutKeepsSiblingsBelow(f, o, p); }
  }

  lemma {:induction false} CutRoots(f: Forest, o: nat)
    requires Distinct(f)
    ensures Roots(Cut(f, o)) == Without(Roots(f), o)
  {
    if f.Cons? {
      DistinctParts(f);
      assert Roots(f)[1..] == Roots(f.rest);
      if f.order == o {
        RootsAreOrders(f.rest);
        WithoutAbsent(Roots(f.rest), o);
      } else {
        CutRoots(f.rest, o);
      }
    }
  }

  lemma {:induction false} CutKeepsSiblingsBelow(f: Forest, o: nat, p: nat)
    requires Distinct(f) && p != o && p in Orders(Cut(f, o))
    ensures Roots(KidsBelow(Cut(f, o), p)) == Without(Roots(KidsBelow(f, p)), o)
  {
    DistinctParts(f);
    CutDistinct(f, o);
    CutDistinct(f.kids, o);
    CutDistinct(f.rest, o);
    if f.order == o {
      KidsBelowOrders(f.rest, p);
      RootsAreOrders(KidsBelow(f.rest, p));
      WithoutAbsent(Roots(KidsBelow(f.rest, p)), o);
    } else if f.order == p {
      CutRoots(f.kids, o);
    } else if p in Orders(Cut(f.kids, o)) {
      CutKeepsSiblingsBelow(f.kids, o, p);
    } else {
      CutKeepsSiblingsBelow(f.rest, o, p);
    }
  }

  // ---------- how headers encode a forest ----------

  ghost predicate IsDoc(view: View, o: nat) {
    o in view && view[o].Document?
  }

  /** The son and brother links reached from `first` spell out f; order 0 is the null link. */
  ghost predicate Encodes(view: View, first: nat, f: Forest)
    decreases f
  {
    match f
    case Empty => first == 0
    case Cons(o, k, r) =>
      && first == o && o != 0 && IsDoc(view, o)
      && Encodes(view, view[o].header.indexSon, k)
      && Encodes(view, view[o].header.indexBrother, r)
  }

  /** Order 0 is the root document, and its children and their descendants are f. */
  ghost predicate EncodesTree(view: View, f: Forest) {
    && IsDoc(view, 0)
    && IsRootDocumentHeader(view[0].header)
    && Encodes(view, view[0].header.indexSon, f)
    && Distinct(f)
  }

  lemma {:induction false} EncodesOrders(view: View, first: nat, f: Forest)
    requires Encodes(view, first, f)
    ensures 0 !in Orders(f)
    ensures forall o :: o in Orders(f) ==> IsDoc(view, o)
    decreases f
  {
    if f.Cons? {
      EncodesOrders(view, view[f.order].header.indexSon, f.kids);
      EncodesOrders(view, view[f.order].header.indexBrother, f.rest);
    }
  }

  ghost predicate SameLinks(view: View, view': View, o: nat) {
    IsDoc(view, o) ==>
      && IsDoc(view', o)
      && view'[o].header.indexSon == view[o].header.indexSon
      && view'[o].header.indexBrother == view[o].header.indexBrother
  }

  lemma {:induction false} EncodesFrame(view: View, view': View, first: nat, f: Forest)
    requires Encodes(view, first, f)
    requires forall o :: o in Orders(f) ==> SameLinks(view, view', o)
    ensures Encodes(view', first, f)
    decreases f
  {
    if f.Cons? {
      assert f.order in Orders(f) && SameLinks(view, view', f.order);
      EncodesFrame(view, view', view[f.order].header.indexSon, f.kids);
      EncodesFrame(view, view', view[f.order].header.indexBrother, f.rest);
    }
  }

  /** The links determine the forest. */
  lemma {:induction false} EncodesUnique(view: View, first: nat, f: Forest, g: Forest)
    requires Encodes(view, first, f) && Encodes(view, first, g)
    ensures f == g
    decreases f
  {
    if f.Cons? && g.Cons? {
      EncodesUnique(view, view[f.order].header.indexSon, f.kids, g.kids);
      EncodesUnique(view, view[f.order].header.indexBrother, f.rest, g.rest);
    }
  }

  lemma {:induction false} EncodesKids(view: View, first: nat, f: Forest, p: nat)
    requires Encodes(view, first, f) && p in Orders(f)
    ensures IsDoc(view, p) && Encodes(view, view[p].header.indexSon, KidsBelow(f, p))
    decreases f
  {
    if f.order != p {
      if p in Orders(f.kids) {
        EncodesKids(view, view[f.order].header.indexSon, f.kids, p);
      } else {
        EncodesKids(view, view[f.order].header.indexBrother, f.rest, p);
      }
    }
  }

  /** Putting o in front of p's children: o gets p's old son as its brother, p gets o as its son. */
  ghost predicate LinkedAsSon(view: View, view': View, p: nat, o: nat) {
    && IsDoc(view, p) && IsDoc(view', p) && IsDoc(view', o) && p != o && o != 0
    && view'[o].header.indexSon == 0
    && view'[o].header.indexBrother == view[p].header.indexSon
    && view'[p].header.indexSon == o
    && view'[p].header.indexBrother == view[p].header.indexBrother
  }

  /** Every document of the forest but p keeps its links. */
  ghost predicate LinksKept(view: View, view': View, f: Forest, p: nat) {
    forall x {:trigger SameLinks(view, view', x)} :: x in Orders(f) && x != p ==> SameLinks(view, view', x)
  }

  lemma {:induction false} EncodesWithChild(view: View, view': View, first: nat, f: Forest, p: nat, o: nat)
    requires Encodes(view, first, f) && Distinct(f) && p in Orders(f) && o !in Orders(f)
    requires LinkedAsSon(view, view', p, o) && LinksKept(view, view', f, p)
    ensures Encodes(view', first, WithChildBelow(f, p, o))
    decreases f
  {
    DistinctParts(f);
    var son, brother := view[f.order].header.indexSon, view[f.order].header.indexBrother;
    if f.order == p {
      EncodesFrame(view, view', son, f.kids);
      EncodesFrame(view, view', brother, f.rest);
    } else {
      assert SameLinks(view, view', f.order);
      if p in Orders(f.kids) {
        EncodesWithChild(view, view', son, f.kids, p, o);
        EncodesFrame(view, view', brother, f.rest);
        WithChildAbsent(f.rest, p, o);
      } else {
        EncodesFrame(view, view', son, f.kids);
        EncodesWithChild(view, view', brother, f.rest, p, o);
        WithChildAbsent(f.kids, p, o);
      }
    }
  }

  /** The whole tree after a document is linked in front of p's children. */
  lemma EncodesTreeWithChild(view: View, view': View, f: Forest, p: nat, o: nat)
    requires EncodesTree(view, f) && (p == 0 || p in Orders(f)) && o !in Orders(f)
    requires LinkedAsSon(view, view', p, o) && LinksKept(view, view', f, p)
    requires p != 0 ==> SameLinks(view, view', 0)
    requires IsDoc(view', 0) && IsRootDocumentHeader(view'[0].header)
    ensures EncodesTree(view', WithChild(f, p, o))
  {
    EncodesOrders(view, view[0].header.indexSon, f);
    if p == 0 {
      EncodesFrame(view, view', view[0].header.indexSon, f);
      DistinctParts(WithChild(f, p, o));
    } else {
      EncodesWithChild(view, view', view[0].header.indexSon, f, p, o);
      WithChildOrders(f, p, o);
    }
  }

  ghost predicate Relinked(view: View, x: nat, son: nat, brother: nat) {
    IsDoc(view, x) && view[x].header.indexSon == son && view[x].header.indexBrother == brother
  }

  /** The brother before o among `kids`, or `before` if o comes first. */
  ghost function Predecessor(before: nat, o: nat, kids: Forest): nat
    decreases kids
  {
    match kids
    case Empty => before
    case Cons(x, _, r) => if x == o then before else Predecessor(x, o, r)
  }

  /** Taking o out of p's children: p's son link, or the link of the brother before o, is led past o. */
  ghost predicate Unlinked(view: View, view': View, p: nat, o: nat, kids: Forest) {
    var q := Predecessor(p, o, kids);
    && IsDoc(view, q) && IsDoc(view, o)
    && (if kids.Cons? && kids.order == o
        then Relinked(view', q, view[o].header.indexBrother, view[q].header.indexBrother)
        else Relinked(view', q, view[q].header.indexSon, view[o].header.indexBrother))
    && forall x :: x != q ==> SameLinks(view, view', x)
  }

  lemma {:induction false} PredecessorIn(before: nat, o: nat, kids: Forest)
    requires o in Roots(kids)
    ensures Predecessor(before, o, kids) == before || Predecessor(before, o, kids) in Roots(kids)
    ensures kids.order != o ==> Predecessor(before, o, kids) in Roots(kids)
    ensures Distinct(kids) && before != o ==> Predecessor(before, o, kids) != o
    decreases kids
  {
    DistinctParts(kids);
    RootsAreOrders(kids.rest);
    if kids.order != o { PredecessorIn(kids.order, o, kids.rest); }
  }

  /** A sibling chain with o taken out of its middle. */
  lemma {:induction false} EncodesUnlinkedChain(view: View, view': View, p: nat, first: nat, f: Forest, o: nat)
    requires Encodes(view, first, f) && Distinct(f) && o in Roots(f) && f.order != o
    requires p !in Orders(f)
    requires Unlinked(view, view', p, o, f)
    ensures Encodes(view', first, Cut(f, o))
    decreases f
  {
    DistinctParts(f);
    var x := f.order;
    var son, brother := view[x].header.indexSon, view[x].header.indexBrother;
    var q := Predecessor(x, o, f.rest);
    RootsAreOrders(f.rest);
    PredecessorIn(x, o, f.rest);
    CutAbsent(f.kids, o);
    EncodesFrame(view, view', son, f.kids);
    if f.rest.order == o {
      DistinctParts(f.rest);
      EncodesFrame(view, view', view[o].header.indexBrother, f.rest.rest);
    } else {
      assert SameLinks(view, view', x);
      EncodesUnlinkedChain(view, view', x, brother, f.rest, o);
    }
  }

  /** p's children with o taken out. */
  lemma EncodesUnlinkedKids(view: View, view': View, p: nat, kids: Forest, o: nat)
    requires IsDoc(view, p) && Encodes(view, view[p].header.indexSon, kids) && Distinct(kids)
    requires o in Roots(kids) && p !in Orders(kids)
    requires Unlinked(view, view', p, o, kids)
    ensures IsDoc(view', p) && Encodes(view', view'[p].header.indexSon, Cut(kids, o))
    ensures view'[p].header.indexBrother == view[p].header.indexBrother
  {
    DistinctParts(kids);
    RootsAreOrders(kids);
    PredecessorIn(p, o, kids);
    if kids.order == o {
      EncodesFrame(view, view', view[o].header.indexBrother, kids.rest);
    } else {
      assert SameLinks(view, view', p);
      EncodesUnlinkedChain(view, view', p, view[p].header.indexSon, kids, o);
    }
  }

  lemma {:induction false} EncodesUnlinked(view: View, view': View, first: nat, f: Forest, p: nat, o: nat)
    requires Encodes(view, first, f) && Distinct(f) && p in Orders(f)
    requires o in Roots(KidsBelow(f, p)) && Unlinked(view, view', p, o, KidsBelow(f, p))
    ensures Encodes(view', first, Cut(f, o))
    decreases f
  {
    var kids, q := KidsBelow(f, p), Predecessor(p, o, KidsBelow(f, p));
    DistinctParts(f);
    KidsBelowOrders(f, p);
    RootsAreOrders(kids);
    PredecessorIn(p, o, kids);
    var x := f.order;
    var son, brother := view[x].header.indexSon, view[x].header.indexBrother;
    if x == p {
      EncodesUnlinkedKids(view, view', p, kids, o);
      CutAbsent(f.rest, o);
      EncodesFrame(view, view', brother, f.rest);
    } else if p in Orders(f.kids) {
      KidsBelowOrders(f.kids, p);
      EncodesUnlinked(view, view', son, f.kids, p, o);
      CutAbsent(f.rest, o);
      EncodesFrame(view, view', brother, f.rest);
      assert SameLinks(view, view', x);
    } else {
      KidsBelowOrders(f.rest, p);
      EncodesUnlinked(view, view', brother, f.rest, p, o);
      CutAbsent(f.kids, o);
      EncodesFrame(view, view', son, f.kids);
      assert SameLinks(view, view', x);
    }
  }

  /** Unlinking one child cuts exactly its subtree out of the tree. */
  lemma EncodesTreeUnlinked(view: View, view': View, f: Forest, p: nat, o: nat)
    requires EncodesTree(view, f) && (p == 0 || p in Orders(f)) && o in Roots(Kids(f, p))
    requires Unlinked(view, view', p, o, Kids(f, p))
    requires IsDoc(view', 0) && IsRootDocumentHeader(view'[0].header)
    ensures EncodesTree(view', Cut(f, o))
  {
    EncodesOrders(view, view[0].header.indexSon, f);
    CutDistinct(f, o);
    if p == 0 {
      EncodesUnlinkedKids(view, view', 0, f, o);
    } else {
      KidsBelowOrders(f, p);
      RootsAreOrders(KidsBelow(f, p));
      PredecessorIn(p, o, KidsBelow(f, p));
      assert SameLinks(view, view', 0);
      EncodesUnlinked(view, view', view[0].header.indexSon, f, p, o);
    }
  }

  /** What lies below a child of p is found below p, and neither p nor another child of p is part of it. */
  lemma {:induction false} BelowChild(f: Forest, p: nat, o: nat)
    requires Distinct(f) && (p == 0 || p in Orders(f)) && 0 !in Orders(f) && o in Roots(Kids(f, p))
    ensures o in Orders(f) && p !in Subtree(f, o)
    ensures forall x :: x in Roots(Kids(f, p)) && x != o ==> x !in Subtree(f, o)
  {
    KidsBelowOrders(f, p);
    RootsAreOrders(Kids(f, p));
    KidsBelowOrders(f, o);
    SiblingsOutside(Kids(f, p), o);
    if p != 0 { KidsOfChild(f, p, o); }
  }

  lemma {:induction false} KidsOfChild(f: Forest, p: nat, o: nat)
    requires Distinct(f) && p in Orders(f) && o in Roots(KidsBelow(f, p))
    ensures KidsBelow(f, o) == KidsBelow(KidsBelow(f, p), o)
    ensures p !in Orders(KidsBelow(f, o)) && p != o
  {
    DistinctParts(f);
    KidsBelowOrders(f, p);
    RootsAreOrders(KidsBelow(f, p));
    if f.order == p {
      KidsBelowOrders(f.kids, o);
    } else if p in Orders(f.kids) {
      KidsBelowOrders(f.kids, p);
      KidsOfChild(f.kids, p, o);
    } else {
      KidsBelowOrders(f.rest, p);
      KidsOfChild(f.rest, p, o);
    }
  }

  lemma {:induction false} SiblingsOutside(kids: Forest, o: nat)
    requires Distinct(kids) && o in Roots(kids)
    ensures forall x :: x in Roots(kids) ==> x !in Orders(KidsBelow(kids, o))
  {
    DistinctParts(kids);
    RootsAreOrders(kids.rest);
    if kids.order != o {
      KidsBelowOrders(kids.rest, o);
      SiblingsOutside(kids.rest, o);
    }
  }

  // ---------- traversal ----------

  /** One step of a traversal: a document, its parent, its depth. */
  datatype Visit = Visit(order: nat, parent: nat, depth: nat)

  /** The traversal of a forest below `parent` at `depth`: a document, then the brothers after it with all
      that lies below them, then what lies below the document itself. */
  ghost function Visits(f: Forest, parent: nat, depth: nat): seq<Visit>
    decreases f
  {
    match f
    case Empty => []
    case Cons(o, k, r) => [Visit(o, parent, depth)] + Visits(r, parent, depth) + Visits(k, o, depth + 1)
  }

  ghost function RootVisits(f: Forest, parent: nat, depth: nat): seq<Visit>
    decreases f
  {
    match f
    case Empty => []
    case Cons(o, _, r) => [Visit(o, parent, depth)] + RootVisits(r, parent, depth)
  }

  /** The traversals of the children of f's roots, the last root's children first. */
  ghost function ChildVisits(f: Forest, depth: nat): seq<Visit>
    decreases f
  {
    match f
    case Empty => []
    case Cons(o, k, r) => ChildVisits(r, depth) + Visits(k, o, depth + 1)
  }

  /** Siblings first, then the children of the last sibling, and so on back to the first. */
  lemma {:induction false} VisitsSiblingsFirst(f: Forest, parent: nat, depth: nat)
    ensures Visits(f, parent, depth) == RootVisits(f, parent, depth) + ChildVisits(f, depth)
    decreases f
  {
    if f.Cons? {
      VisitsSiblingsFirst(f.rest, parent, depth);
      var v := [Visit(f.order, parent, depth)];
      assert v + (RootVisits(f.rest, parent, depth) + ChildVisits(f.rest, depth)) + Visits(f.kids, f.order, depth + 1)
          == (v + RootVisits(f.rest, parent, depth))
              + (ChildVisits(f.rest, depth) + Visits(f.kids, f.order, depth + 1));
    }
  }

  ghost function VisitOrders(v: seq<Visit>): (s: seq<nat>)
    ensures |s| == |v|
  {
    if v == [] then [] else [v[0].order] + VisitOrders(v[1..])
  }

  lemma {:induction false} VisitOrdersConcat(v: seq<Visit>, w: seq<Visit>)
    ensures VisitOrders(v + w) == VisitOrders(v) + VisitOrders(w)
  {
    if v == [] {
      assert v + w == w;
    } else {
      assert (v + w)[1..] == v[1..] + w;
      VisitOrdersConcat(v[1..], w);
    }
  }

  /** Every document of the forest is visited exactly once. */
  lemma {:induction false} VisitsOnce(f: Forest, parent: nat, depth: nat)
    ensures multiset(VisitOrders(Visits(f, parent, depth))) == multiset(Orders(f))
    ensures |Visits(f, parent, depth)| == Size(f)
    decreases f
  {
    if f.Cons? {
      VisitsOnce(f.rest, parent, depth);
      VisitsOnce(f.kids, f.order, depth + 1);
      var v := [Visit(f.order, parent, depth)];
      VisitOrdersConcat(v + Visits(f.rest, parent, depth), Visits(f.kids, f.order, depth + 1));
      VisitOrdersConcat(v, Visits(f.rest, parent, depth));
      OrdersMultiset(f);
      assert VisitOrders(v) == [f.order];
    }
  }

  /** Where o stands in a forest below `parent` at `depth`, found by searching the forest for it. */
  ghost function Locate(f: Forest, parent: nat, depth: nat, o: nat): Visit
    requires o in Orders(f)
    decreases f
  {
    if f.order == o then Visit(o, parent, depth)
    else if o in Orders(f.kids) then Locate(f.kids, f.order, depth + 1, o)
    else Locate(f.rest, parent, depth, o)
  }

  /** Each visit carries the document's true parent and its depth. */
  lemma {:induction false} VisitsLocate(f: Forest, parent: nat, depth: nat, v: Visit)
    requires Distinct(f)
    ensures v in Visits(f, parent, depth) <==> v.order in Orders(f) && v == Locate(f, parent, depth, v.order)
    decreases f
  {
    if f.Cons? {
      DistinctParts(f);
      VisitsLocate(f.rest, parent, depth, v);
      VisitsLocate(f.kids, f.order, depth + 1, v);
    }
  }
}
