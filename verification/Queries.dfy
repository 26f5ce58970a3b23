/** What a path of document steps means: the documents it examines, and the documents it finds. */
module Queries {
  import opened Blocks
  import opened Forests
  import opened Predicates

  /** A document step: //name or /name with its predicates. */
  datatype Step = Step(relative: bool, stepName: CString, pred: seq<Predicate>)

  // ---------- what a step examines ----------

  /** The document an absolute step examines beyond the siblings: the first child of the last sibling that has one. */
  ghost function OneDeeper(f: Forest): seq<nat> {
    match f
    case Empty => []
    case Cons(_, k, r) => if OneDeeper(r) != [] then OneDeeper(r) else if k.Cons? then [k.order] else []
  }

  /** The documents a step examines below p, in order. */
  ghost function Examined(tree: Forest, p: nat, relative: bool): seq<nat> {
    var kids := Kids(tree, p);
    if relative then VisitOrders(Visits(kids, p, 0)) else Roots(kids) + OneDeeper(kids)
  }

  ghost predicate Named(view: View, o: nat, name: CString) {
    IsDoc(view, o) && view[o].header.name == name
  }

  ghost predicate Passes(view: View, test: Tester, s: Step, o: nat, docNumber: nat) {
    IsDoc(view, o) && Satisfied(s.pred, test, view[o].header, docNumber)
  }

  /** The documents among `orders` that match a step; docNumber counts those with the right name. */
  ghost function Matches(view: View, test: Tester, s: Step, orders: seq<nat>, docNumber: nat): seq<nat> {
    if orders == [] then []
    else if Named(view, orders[0], s.stepName) then
      (if Passes(view, test, s, orders[0], docNumber) then [orders[0]] else [])
      + Matches(view, test, s, orders[1..], docNumber + 1)
    else Matches(view, test, s, orders[1..], docNumber)
  }

  /** The matches of a step below every context in turn. */
  ghost function StepMatches(view: View, tree: Forest, test: Tester, s: Step, contexts: seq<nat>): seq<nat> {
    if contexts == [] then []
    else
      Matches(view, test, s, Examined(tree, contexts[0], s.relative), 0)
      + StepMatches(view, tree, test, s, contexts[1..])
  }

  /** The matches that have children are the contexts of the next step. */
  ghost function WithChildren(tree: Forest, orders: seq<nat>): seq<nat> {
    if orders == [] then []
    else (if Kids(tree, orders[0]).Cons? then [orders[0]] else []) + WithChildren(tree, orders[1..])
  }

  /** The documents a path finds below the contexts: a flat map, step by step. */
  ghost function Results(view: View, tree: Forest, test: Tester, contexts: seq<nat>, steps: seq<Step>): seq<nat>
    decreases steps
  {
    if steps == [] then []
    else
      var ms := StepMatches(view, tree, test, steps[0], contexts);
      if |steps| == 1 then ms else Results(view, tree, test, WithChildren(tree, ms), steps[1..])
  }

  ghost function FromRoot(tree: Forest): seq<nat> {
    if tree.Cons? then [0] else []
  }

  // ---------- what a step chooses ----------

  /** The documents with this name, in order. */
  ghost function NamedAmong(view: View, orders: seq<nat>, name: CString): seq<nat> {
    if orders == [] then []
    else (if IsDoc(view, orders[0]) && view[orders[0]].header.name == name then [orders[0]] else [])
         + NamedAmong(view, orders[1..], name)
  }

  lemma {:induction false} NamedAmongConcat(view: View, a: seq<nat>, b: seq<nat>, name: CString)
    ensures NamedAmong(view, a + b, name) == NamedAmong(view, a, name) + NamedAmong(view, b, name)
  {
    if a == [] {
      assert a + b == b;
    } else {
      assert (a + b)[0] == a[0] && (a + b)[1..] == a[1..] + b;
      NamedAmongConcat(view, a[1..], b, name);
    }
  }

  /** The document in place j has the name the step asks for, and satisfies the step's predicates under the number of
      documents of that name in front of it. */
  ghost predicate ChosenAt(view: View, test: Tester, s: Step, orders: seq<nat>, j: nat)
    requires j < |orders|
  {
    && IsDoc(view, orders[j]) && view[orders[j]].header.name == s.stepName
    && Satisfied(s.pred, test, view[orders[j]].header, |NamedAmong(view, orders[..j], s.stepName)|)
  }

  /** Document x is in some such place. */
  ghost predicate Chosen(view: View, test: Tester, s: Step, orders: seq<nat>, x: nat) {
    exists j: nat :: j < |orders| && orders[j] == x && ChosenAt(view, test, s, orders, j)
  }

  /** One document more: it matches exactly if it is chosen in its place behind the others. */
  lemma {:induction false} MatchesPush(view: View, test: Tester, s: Step, orders: seq<nat>, docNumber: nat, x: nat)
    ensures var n := docNumber + |NamedAmong(view, orders, s.stepName)|;
            Matches(view, test, s, orders + [x], docNumber) ==
            Matches(view, test, s, orders, docNumber)
            + if IsDoc(view, x) && view[x].header.name == s.stepName && Satisfied(s.pred, test, view[x].header, n)
              then [x] else []
  {
    if orders == [] {
      assert orders + [x] == [x] && [x][1..] == [];
    } else {
      var all := orders + [x];
      assert all[0] == orders[0] && all[1..] == orders[1..] + [x];
      MatchesPush(view, test, s, orders[1..], docNumber + if Named(view, orders[0], s.stepName) then 1 else 0, x);
    }
  }

  /** What a step finds among the documents it examines: those it chooses, in their order. */
  lemma {:induction false} MatchesChosen(view: View, test: Tester, s: Step, orders: seq<nat>, n: nat, x: nat)
    requires n <= |orders|
    ensures x in Matches(view, test, s, orders[..n], 0) <==>
            exists j: nat :: j < n && orders[j] == x && ChosenAt(view, test, s, orders, j)
    ensures Matches(view, test, s, orders[..n], 0) ==
            if n == 0 then []
            else Matches(view, test, s, orders[..n - 1], 0)
                 + if ChosenAt(view, test, s, orders, n - 1) then [orders[n - 1]] else []
  {
    if n > 0 {
      MatchesChosen(view, test, s, orders, n - 1, x);
      MatchesPush(view, test, s, orders[..n - 1], 0, orders[n - 1]);
      assert orders[..n] == orders[..n - 1] + [orders[n - 1]];
    }
  }

  lemma MatchesIff(view: View, test: Tester, s: Step, orders: seq<nat>, x: nat)
    ensures x in Matches(view, test, s, orders, 0) <==> Chosen(view, test, s, orders, x)
  {
    MatchesChosen(view, test, s, orders, |orders|, x);
    assert orders[..|orders|] == orders;
  }

  /** Document number k alone asks for the document of the right name with k such documents in front of it. */
  lemma {:induction false} NumberedStep(view: View, test: Tester, s: Step, orders: seq<nat>, k: nat, n: nat)
    requires s.pred == [ByDocumentNumber(NONE, false, k)] && n <= |orders|
    ensures var named := NamedAmong(view, orders[..n], s.stepName);
            Matches(view, test, s, orders[..n], 0) == if k < |named| then [named[k]] else []
  {
    if n > 0 {
      var x, before := orders[n - 1], NamedAmong(view, orders[..n - 1], s.stepName);
      NumberedStep(view, test, s, orders, k, n - 1);
      MatchesPush(view, test, s, orders[..n - 1], 0, x);
      assert orders[..n] == orders[..n - 1] + [x];
      NamedAmongConcat(view, orders[..n - 1], [x], s.stepName);
      assert NamedAmong(view, [x][1..], s.stepName) == [];
      if IsDoc(view, x) { SatisfiedOne(s.pred[0], test, view[x].header, |before|); }
    }
  }

  lemma {:induction false} StepMatchesIff(view: View, tree: Forest, test: Tester, s: Step, contexts: seq<nat>, x: nat)
    ensures x in StepMatches(view, tree, test, s, contexts) <==>
            exists p :: p in contexts && Chosen(view, test, s, Examined(tree, p, s.relative), x)
  {
    if contexts != [] {
      MatchesIff(view, test, s, Examined(tree, contexts[0], s.relative), x);
      StepMatchesIff(view, tree, test, s, contexts[1..], x);
      assert contexts == [contexts[0]] + contexts[1..];
    }
  }

  lemma {:induction false} WithChildrenIff(tree: Forest, orders: seq<nat>, x: nat)
    ensures x in WithChildren(tree, orders) <==> x in orders && Kids(tree, x).Cons?
  {
    if orders != [] { WithChildrenIff(tree, orders[1..], x); }
  }

  /** Documents c[0], c[1], ..., each chosen by its step among those examined below the one before. */
  ghost predicate Leads(view: View, tree: Forest, test: Tester, p: nat, c: seq<nat>, steps: seq<Step>)
    decreases steps
  {
    && |c| == |steps| && c != []
    && Chosen(view, test, steps[0], Examined(tree, p, steps[0].relative), c[0])
    && (|c| == 1 || Leads(view, tree, test, c[0], c[1..], steps[1..]))
  }

  lemma {:induction false} ResultChain(view: View, tree: Forest, test: Tester, contexts: seq<nat>, steps: seq<Step>,
                                       x: nat)
    returns (p: nat, c: seq<nat>)
    requires x in Results(view, tree, test, contexts, steps)
    ensures p in contexts && Leads(view, tree, test, p, c, steps) && c[|c| - 1] == x
    decreases steps
  {
    hide Examined, Chosen;
    var ms, more := StepMatches(view, tree, test, steps[0], contexts), steps[1..];
    if |steps| == 1 {
      p := MatchContext(view, tree, test, steps[0], contexts, x);
      c := [x];
    } else {
      var m, rest := ResultChain(view, tree, test, WithChildren(tree, ms), more, x);
      WithChildrenIff(tree, ms, m);
      p := MatchContext(view, tree, test, steps[0], contexts, m);
      c := LeadsOn(view, tree, test, p, m, rest, steps);
    }
  }

  lemma MatchContext(view: View, tree: Forest, test: Tester, s: Step, contexts: seq<nat>, x: nat) returns (p: nat)
    requires x in StepMatches(view, tree, test, s, contexts)
    ensures p in contexts && Chosen(view, test, s, Examined(tree, p, s.relative), x)
  {
    StepMatchesIff(view, tree, test, s, contexts, x);
    p :| p in contexts && Chosen(view, test, s, Examined(tree, p, s.relative), x);
  }

  lemma LeadsOn(view: View, tree: Forest, test: Tester, p: nat, m: nat, rest: seq<nat>, steps: seq<Step>)
    returns (c: seq<nat>)
    requires |steps| > 1 && Chosen(view, test, steps[0], Examined(tree, p, steps[0].relative), m)
    requires Leads(view, tree, test, m, rest, steps[1..])
    ensures Leads(view, tree, test, p, c, steps) && c[|c| - 1] == rest[|rest| - 1]
  {
    c := [m] + rest;
    assert c[1..] == rest;
  }

  lemma {:induction false} ChainResult(view: View, tree: Forest, test: Tester, contexts: seq<nat>, steps: seq<Step>,
                                       p: nat, c: seq<nat>)
    requires p in contexts && Leads(view, tree, test, p, c, steps)
    ensures c[|c| - 1] in Results(view, tree, test, contexts, steps)
    decreases steps
  {
    hide Examined, ChosenAt;
    var ms := StepMatches(view, tree, test, steps[0], contexts);
    StepMatchesIff(view, tree, test, steps[0], contexts, c[0]);
    if |steps| > 1 {
      var d, more := c[1..], steps[1..];
      assert d[|d| - 1] == c[|c| - 1];
      WithChildrenIff(tree, ms, c[0]);
      ExaminedSome(tree, c[0], more[0].relative);
      ChainResult(view, tree, test, WithChildren(tree, ms), more, c[0], d);
    }
  }

  /** Any path of document steps finds exactly the ends of chains of documents, each chosen by its step among those the
      step examines below the one before; the first step starts from the root document. */
  lemma PathMeaning(view: View, tree: Forest, test: Tester, steps: seq<Step>, x: nat)
    ensures x in Results(view, tree, test, FromRoot(tree), steps) <==>
            exists c :: Leads(view, tree, test, 0, c, steps) && c[|c| - 1] == x
  {
    hide Chosen;
    if x in Results(view, tree, test, FromRoot(tree), steps) {
      var p, c := ResultChain(view, tree, test, FromRoot(tree), steps, x);
    }
    if c :| Leads(view, tree, test, 0, c, steps) && c[|c| - 1] == x {
      ChosenExamined(view, test, steps[0], Examined(tree, 0, steps[0].relative), c[0]);
      ExaminedSome(tree, 0, steps[0].relative);
      ChainResult(view, tree, test, FromRoot(tree), steps, 0, c);
    }
  }

  lemma ChosenExamined(view: View, test: Tester, s: Step, orders: seq<nat>, x: nat)
    requires Chosen(view, test, s, orders, x)
    ensures x in orders && IsDoc(view, x) && view[x].header.name == s.stepName
  {
  }

  /** Without predicates a step chooses every document of the right name. */
  lemma ChosenByName(view: View, test: Tester, s: Step, orders: seq<nat>, x: nat)
    requires s.pred == []
    ensures Chosen(view, test, s, orders, x) <==> x in orders && IsDoc(view, x) && view[x].header.name == s.stepName
  {
    if x in orders && IsDoc(view, x) && view[x].header.name == s.stepName {
      var j: nat :| j < |orders| && orders[j] == x;
      SatisfiedOne(ByDocumentNumber(NONE, false, 0), test, view[x].header, |NamedAmong(view, orders[..j], s.stepName)|);
      assert ChosenAt(view, test, s, orders, j);
    }
  }

  lemma ExaminedSome(tree: Forest, p: nat, relative: bool)
    ensures Examined(tree, p, relative) != [] ==> Kids(tree, p).Cons?
  {
  }

  // ---------- below and beside, by child links alone ----------

  /** s leads down from p: every document is a child of the one before it. */
  ghost predicate IsPath(tree: Forest, p: nat, s: seq<nat>)
    decreases s
  {
    s == [] || (s[0] in Roots(Kids(tree, p)) && IsPath(tree, s[0], s[1..]))
  }

  /** p is a proper ancestor of x; 0 is the root document. */
  ghost predicate Below(tree: Forest, p: nat, x: nat) {
    exists s :: s != [] && IsPath(tree, p, s) && s[|s| - 1] == x
  }

  lemma {:induction false} RootAbove(f: Forest, x: nat) returns (m: nat)
    requires Distinct(f) && x in Orders(f)
    ensures m in Roots(f) && (x == m || x in Orders(KidsBelow(f, m)))
  {
    DistinctParts(f);
    if x == f.order || x in Orders(f.kids) {
      m := f.order;
    } else {
      m := RootAbove(f.rest, x);
      RootsAreOrders(f.rest);
    }
  }

  /** The children of a child of p, found from p. */
  lemma KidsThrough(tree: Forest, p: nat, m: nat)
    requires Distinct(tree) && 0 !in Orders(tree) && (p == 0 || p in Orders(tree)) && m in Roots(Kids(tree, p))
    ensures m in Orders(tree) && m != 0 && Distinct(Kids(tree, p))
    ensures Kids(tree, m) == KidsBelow(Kids(tree, p), m)
    ensures forall x :: x in Orders(Kids(tree, m)) ==> x in Orders(Kids(tree, p))
    ensures Size(Kids(tree, m)) < Size(Kids(tree, p))
  {
    BelowChild(tree, p, m);
    KidsBelowOrders(tree, p);
    if p != 0 { KidsOfChild(tree, p, m); }
    var kids := Kids(tree, p);
    KidsBelowOrders(kids, m);
    RootsAreOrders(kids);
    CutMembers(kids, m);
  }

  lemma {:induction false} PathTo(tree: Forest, p: nat, x: nat) returns (s: seq<nat>)
    requires Distinct(tree) && 0 !in Orders(tree) && (p == 0 || p in Orders(tree)) && x in Orders(Kids(tree, p))
    ensures s != [] && IsPath(tree, p, s) && s[|s| - 1] == x
    decreases Size(Kids(tree, p))
  {
    KidsBelowOrders(tree, p);
    var m := RootAbove(Kids(tree, p), x);
    KidsThrough(tree, p, m);
    if x == m {
      s := [m];
    } else {
      var rest := PathTo(tree, m, x);
      s := [m] + rest;
      assert s[1..] == rest;
    }
  }

  lemma {:induction false} PathInside(tree: Forest, p: nat, s: seq<nat>)
    requires Distinct(tree) && 0 !in Orders(tree) && (p == 0 || p in Orders(tree)) && s != [] && IsPath(tree, p, s)
    ensures s[|s| - 1] in Orders(Kids(tree, p))
    decreases s
  {
    RootsAreOrders(Kids(tree, p));
    KidsThrough(tree, p, s[0]);
    if |s| > 1 {
      PathInside(tree, s[0], s[1..]);
    }
  }

  /** What a relative step examines below p are exactly p's descendants. */
  lemma BelowIff(tree: Forest, p: nat, x: nat)
    requires Distinct(tree) && 0 !in Orders(tree) && (p == 0 || p in Orders(tree))
    ensures x in Examined(tree, p, true) <==> Below(tree, p, x)
  {
    KidsBelowOrders(tree, p);
    var kids := Kids(tree, p);
    VisitsOnce(kids, p, 0);
    assert x in VisitOrders(Visits(kids, p, 0)) <==> x in multiset(VisitOrders(Visits(kids, p, 0)));
    assert x in Orders(kids) <==> x in multiset(Orders(kids));
    if x in Orders(kids) {
      var s := PathTo(tree, p, x);
    }
    if Below(tree, p, x) {
      var s :| s != [] && IsPath(tree, p, s) && s[|s| - 1] == x;
      PathInside(tree, p, s);
    }
  }

  // ---------- relative paths ----------

  /** c[0], c[1], ... are proper ancestors of each other below p, each chosen by its step among all below the one
      before. */
  ghost predicate AncestorChain(view: View, tree: Forest, test: Tester, p: nat, c: seq<nat>, steps: seq<Step>)
    decreases steps
  {
    && |c| == |steps| && c != []
    && Below(tree, p, c[0])
    && Chosen(view, test, steps[0], VisitOrders(Visits(Kids(tree, p), p, 0)), c[0])
    && (|c| == 1 || AncestorChain(view, tree, test, c[0], c[1..], steps[1..]))
  }

  ghost predicate AllRelative(steps: seq<Step>) {
    steps == [] || (steps[0].relative && AllRelative(steps[1..]))
  }

  lemma {:induction false} LeadsIffAncestors(view: View, tree: Forest, test: Tester, p: nat, c: seq<nat>,
                                             steps: seq<Step>)
    requires Distinct(tree) && 0 !in Orders(tree) && (p == 0 || p in Orders(tree)) && AllRelative(steps)
    ensures Leads(view, tree, test, p, c, steps) <==> AncestorChain(view, tree, test, p, c, steps)
    decreases steps
  {
    hide ChosenAt;
    if |c| == |steps| && c != [] {
      BelowIff(tree, p, c[0]);
      if c[0] in Examined(tree, p, true) && |c| > 1 {
        ExaminedInTree(tree, p, c[0]);
        LeadsIffAncestors(view, tree, test, c[0], c[1..], steps[1..]);
      }
    }
  }

  lemma ExaminedInTree(tree: Forest, p: nat, x: nat)
    requires Distinct(tree) && x in Examined(tree, p, true)
    ensures x in Orders(tree)
  {
    KidsBelowOrders(tree, p);
    var kids := Kids(tree, p);
    VisitsOnce(kids, p, 0);
    assert x in multiset(VisitOrders(Visits(kids, p, 0))) && x in multiset(Orders(kids));
  }

  /** //n1[p1]//...//nk[pk] finds exactly the documents that end a chain of proper ancestors, each named as its step
      asks and satisfying its predicates under its number among the documents of that name below the one before. */
  lemma RelativePathMeaning(view: View, tree: Forest, test: Tester, steps: seq<Step>, x: nat)
    requires EncodesTree(view, tree) && AllRelative(steps)
    ensures x in Results(view, tree, test, FromRoot(tree), steps) <==>
            exists c :: AncestorChain(view, tree, test, 0, c, steps) && c[|c| - 1] == x
  {
    hide Chosen;
    EncodesOrders(view, view[0].header.indexSon, tree);
    PathMeaning(view, tree, test, steps, x);
    forall c ensures Leads(view, tree, test, 0, c, steps) <==> AncestorChain(view, tree, test, 0, c, steps) {
      LeadsIffAncestors(view, tree, test, 0, c, steps);
    }
  }

  // ---------- absolute paths ----------

  ghost predicate AllAbsolute(steps: seq<Step>) {
    steps == [] || (!steps[0].relative && AllAbsolute(steps[1..]))
  }

  ghost predicate NoPredicates(steps: seq<Step>) {
    steps == [] || (steps[0].pred == [] && NoPredicates(steps[1..]))
  }

  ghost predicate NamedAs(view: View, c: seq<nat>, steps: seq<Step>) {
    |c| == |steps| && forall i :: 0 <= i < |c| ==> Named(view, c[i], steps[i].stepName)
  }

  lemma {:induction false} PathLeads(view: View, tree: Forest, test: Tester, p: nat, c: seq<nat>, steps: seq<Step>)
    requires c != [] && IsPath(tree, p, c) && NamedAs(view, c, steps) && AllAbsolute(steps) && NoPredicates(steps)
    ensures Leads(view, tree, test, p, c, steps)
    decreases steps
  {
    ChosenByName(view, test, steps[0], Examined(tree, p, false), c[0]);
    if |c| > 1 {
      assert NamedAs(view, c[1..], steps[1..]);
      PathLeads(view, tree, test, c[0], c[1..], steps[1..]);
    }
  }

  /** /n1/.../nk never misses a document reached from the root through children named n1, ..., nk. */
  lemma AbsolutePathFinds(view: View, tree: Forest, test: Tester, steps: seq<Step>, c: seq<nat>)
    requires c != [] && IsPath(tree, 0, c) && NamedAs(view, c, steps) && AllAbsolute(steps) && NoPredicates(steps)
    ensures c[|c| - 1] in Results(view, tree, test, FromRoot(tree), steps)
  {
    PathLeads(view, tree, test, 0, c, steps);
    PathMeaning(view, tree, test, steps, c[|c| - 1]);
  }

  /** An absolute step stays among p's children exactly if the one deeper document it examines has another name. */
  lemma AbsoluteStepIff(view: View, tree: Forest, test: Tester, s: Step, p: nat)
    requires Distinct(tree) && 0 !in Orders(tree) && (p == 0 || p in Orders(tree)) && s.pred == [] && !s.relative
    ensures (forall x :: x in StepMatches(view, tree, test, s, [p]) ==> x in Roots(Kids(tree, p))) <==>
            forall x :: x in OneDeeper(Kids(tree, p)) ==> !Named(view, x, s.stepName)
  {
    var kids := Kids(tree, p);
    KidsBelowOrders(tree, p);
    forall x ensures x in StepMatches(view, tree, test, s, [p]) <==>
                     Named(view, x, s.stepName) && (x in Roots(kids) || x in OneDeeper(kids))
    {
      StepMatchesIff(view, tree, test, s, [p], x);
      ChosenByName(view, test, s, Examined(tree, p, false), x);
      assert p in [p];
    }
    OneDeeperIsDeeper(kids);
  }

  lemma {:induction false} OneDeeperIsDeeper(f: Forest)
    requires Distinct(f)
    ensures forall x :: x in OneDeeper(f) ==> x in Orders(f) && x !in Roots(f)
  {
    if f.Cons? {
      DistinctParts(f);
      OneDeeperIsDeeper(f.rest);
      RootsAreOrders(f.rest);
    }
  }

  /** The siblings behind m. */
  ghost function RootsAfter(f: Forest, m: nat): seq<nat> {
    match f
    case Empty => []
    case Cons(o, _, r) => if o == m then Roots(r) else RootsAfter(r, m)
  }

  /** x is the first child of the last document in f that has children. */
  ghost predicate FirstOfLast(f: Forest, x: nat, m: nat) {
    && m in Roots(f) && KidsBelow(f, m).Cons? && x == KidsBelow(f, m).order
    && forall s :: s in RootsAfter(f, m) ==> KidsBelow(f, s) == Empty
  }

  lemma {:induction false} OneDeeperIff(f: Forest, x: nat)
    requires Distinct(f)
    ensures x in OneDeeper(f) <==> exists m :: FirstOfLast(f, x, m)
    ensures OneDeeper(f) == [] ==> forall m :: m in Roots(f) ==> KidsBelow(f, m) == Empty
  {
    if f.Cons? {
      DistinctParts(f);
      OneDeeperIff(f.rest, x);
      RootsAreOrders(f.rest);
      forall m | m in Roots(f.rest) ensures KidsBelow(f, m) == KidsBelow(f.rest, m)
          && RootsAfter(f, m) == RootsAfter(f.rest, m) {
        RootsAfterIn(f.rest, m);
      }
      if m :| FirstOfLast(f.rest, x, m) {
        RootsAfterIn(f.rest, m);
        assert FirstOfLast(f, x, m);
      }
      if x in OneDeeper(f) && OneDeeper(f.rest) == [] { assert FirstOfLast(f, x, f.order); }
      if m :| FirstOfLast(f, x, m) {
        if m == f.order {
          OnlyLast(f, x);
        } else {
          RootsAfterIn(f.rest, m);
          assert FirstOfLast(f.rest, x, m);
        }
      }
    }
  }

  lemma {:induction false} RootsAfterIn(f: Forest, m: nat)
    ensures forall s :: s in RootsAfter(f, m) ==> s in Roots(f)
  {
    if f.Cons? && f.order != m { RootsAfterIn(f.rest, m); }
  }

  /** If no sibling behind the first document has children, nothing deeper is examined behind it. */
  lemma {:induction false} OnlyLast(f: Forest, x: nat)
    requires f.Cons? && Distinct(f) && FirstOfLast(f, x, f.order)
    ensures OneDeeper(f) == [x]
  {
    DistinctParts(f);
    RootsAreOrders(f.rest);
    forall s | s in Roots(f.rest) ensures KidsBelow(f.rest, s) == Empty {
      assert KidsBelow(f, s) == KidsBelow(f.rest, s);
    }
    NoneDeeper(f.rest);
  }

  lemma {:induction false} NoneDeeper(f: Forest)
    requires Distinct(f) && forall s :: s in Roots(f) ==> KidsBelow(f, s) == Empty
    ensures OneDeeper(f) == []
  {
    if f.Cons? {
      DistinctParts(f);
      RootsAreOrders(f.rest);
      assert KidsBelow(f, f.order) == f.kids;
      forall s | s in Roots(f.rest) ensures KidsBelow(f.rest, s) == Empty {
        assert KidsBelow(f, s) == KidsBelow(f.rest, s);
      }
      NoneDeeper(f.rest);
    }
  }

  /** An absolute step gets from p to x: a child, or the first child of the last child that has children. */
  ghost predicate Reaches(tree: Forest, p: nat, x: nat) {
    x in Roots(Kids(tree, p)) || exists m :: FirstOfLast(Kids(tree, p), x, m)
  }

  ghost predicate AbsoluteChain(view: View, tree: Forest, test: Tester, p: nat, c: seq<nat>, steps: seq<Step>)
    decreases steps
  {
    && |c| == |steps| && c != []
    && Reaches(tree, p, c[0])
    && Chosen(view, test, steps[0], Roots(Kids(tree, p)) + OneDeeper(Kids(tree, p)), c[0])
    && (|c| == 1 || AbsoluteChain(view, tree, test, c[0], c[1..], steps[1..]))
  }

  lemma {:induction false} LeadsIffAbsolute(view: View, tree: Forest, test: Tester, p: nat, c: seq<nat>,
                                            steps: seq<Step>)
    requires Distinct(tree) && (p == 0 || p in Orders(tree)) && AllAbsolute(steps)
    ensures Leads(view, tree, test, p, c, steps) <==> AbsoluteChain(view, tree, test, p, c, steps)
    decreases steps
  {
    hide ChosenAt;
    if |c| == |steps| && c != [] {
      var kids := Kids(tree, p);
      KidsBelowOrders(tree, p);
      OneDeeperIff(kids, c[0]);
      RootsAreOrders(kids);
      OneDeeperIsDeeper(kids);
      if c[0] in Examined(tree, p, false) && |c| > 1 {
        LeadsIffAbsolute(view, tree, test, c[0], c[1..], steps[1..]);
      }
    }
  }

  /** /n1[p1]/.../nk[pk] finds exactly the documents that end a chain below the root, each a child of the one before it
      or the first child of the last such child that has children, each named as its step asks and satisfying its
      predicates under its number among these. */
  lemma AbsolutePathMeaning(view: View, tree: Forest, test: Tester, steps: seq<Step>, x: nat)
    requires EncodesTree(view, tree) && AllAbsolute(steps)
    ensures x in Results(view, tree, test, FromRoot(tree), steps) <==>
            exists c :: AbsoluteChain(view, tree, test, 0, c, steps) && c[|c| - 1] == x
  {
    hide Chosen;
    EncodesOrders(view, view[0].header.indexSon, tree);
    PathMeaning(view, tree, test, steps, x);
    forall c ensures Leads(view, tree, test, 0, c, steps) <==> AbsoluteChain(view, tree, test, 0, c, steps) {
      LeadsIffAbsolute(view, tree, test, 0, c, steps);
    }
  }
}
