/** The document iterator: one loop with a stack instead of a recursion over the tree. */
module DocIterators {
  import opened Blocks
  import opened Forests
  import opened TreeStacks
  import opened Storage

  /** The struct `document`. */
  datatype Doc = Doc(isRoot: bool, indexParent: nat, header: Header)

  ghost function DocOf(view: View, v: Visit): Doc
    requires IsDoc(view, v.order)
  {
    Doc(IsRootDocumentHeader(view[v.order].header), v.parent, view[v.order].header)
  }

  /** A forest still to be traversed. */
  datatype Branch = Branch(f: Forest, parent: nat, depth: nat) {
    ghost function Visits(): seq<Visit> {
      Forests.Visits(f, parent, depth)
    }

    /** The entry that stands for this branch, as the next document or on the stack. */
    ghost predicate StandsFor(e: NodeEntry, view: View) {
      EncodesFrom(view, f) && e == NodeEntry(f.order, parent, depth)
    }
  }

  /** Like Encodes for a forest that is not empty, but its first document may be the root. */
  ghost predicate EncodesFrom(view: View, f: Forest) {
    && f.Cons? && IsDoc(view, f.order)
    && Encodes(view, view[f.order].header.indexSon, f.kids)
    && Encodes(view, view[f.order].header.indexBrother, f.rest)
  }

  ghost function VisitsOf(branches: seq<Branch>): seq<Visit> {
    if branches == [] then [] else branches[0].Visits() + VisitsOf(branches[1..])
  }

  /** The branches, top of the stack first, are what is on the stack. */
  ghost predicate Stacked(branches: seq<Branch>, s: seq<NodeEntry>, view: View) {
    if branches == [] then s == []
    else
      && s != []
      && branches[0].StandsFor(s[|s| - 1], view)
      && Stacked(branches[1..], s[..|s| - 1], view)
  }

  lemma StackedPush(branches: seq<Branch>, s: seq<NodeEntry>, view: View, b: Branch, e: NodeEntry)
    requires Stacked(branches, s, view) && b.StandsFor(e, view)
    ensures Stacked([b] + branches, s + [e], view)
  {
    assert (s + [e])[..|s|] == s && ([b] + branches)[1..] == branches;
  }

  lemma StackedPop(branches: seq<Branch>, s: seq<NodeEntry>, view: View, e: NodeEntry)
    requires Stacked(branches, s + [e], view)
    ensures branches != [] && branches[0].StandsFor(e, view) && Stacked(branches[1..], s, view)
  {
    assert (s + [e])[..|s|] == s;
  }

  /** What a branch turns into once its first document has been visited. */
  ghost function After(b: Branch): seq<Branch>
    requires b.f.Cons?
  {
    (if b.f.rest.Cons? then [Branch(b.f.rest, b.parent, b.depth)] else [])
    + (if b.f.kids.Cons? then [Branch(b.f.kids, b.f.order, b.depth + 1)] else [])
  }

  lemma {:induction false} VisitsOfConcat(a: seq<Branch>, b: seq<Branch>)
    ensures VisitsOf(a + b) == VisitsOf(a) + VisitsOf(b)
  {
    if a == [] {
      assert a + b == b;
    } else {
      assert (a + b)[1..] == a[1..] + b;
      VisitsOfConcat(a[1..], b);
    }
  }

  lemma VisitsOfOne(b: Branch)
    ensures VisitsOf([b]) == b.Visits()
    ensures VisitsOf(if b.f.Cons? then [b] else []) == b.Visits()
  {
    assert VisitsOf([b]) == b.Visits() + VisitsOf([]);
  }

  lemma VisitsOfAfter(b: Branch, others: seq<Branch>)
    requires b.f.Cons?
    ensures VisitsOf([b] + others) == [Visit(b.f.order, b.parent, b.depth)] + VisitsOf(After(b) + others)
  {
    var r, k := Branch(b.f.rest, b.parent, b.depth), Branch(b.f.kids, b.f.order, b.depth + 1);
    VisitsOfConcat([b], others);
    VisitsOfOne(b);
    VisitsOfConcat(After(b), others);
    VisitsOfConcat(if r.f.Cons? then [r] else [], if k.f.Cons? then [k] else []);
    VisitsOfOne(r);
    VisitsOfOne(k);
    Regroup([Visit(b.f.order, b.parent, b.depth)], r.Visits(), k.Visits(), VisitsOf(others));
  }

  lemma Regroup<T>(a: seq<T>, b: seq<T>, c: seq<T>, d: seq<T>)
    ensures (a + b + c) + d == a + ((b + c) + d)
  {
  }

  class DocumentIterator {
    var stop: bool
    var next: NodeEntry
    const pStack: TreeStack
    ghost const view: View          // the blocks the iterator runs over
    ghost var pending: seq<Branch>  // the branch of `next`, then those on the stack from its top

    ghost predicate Valid()
      reads this, pStack, pStack.data
    {
      && pStack.Valid()
      && (stop <==> pending == [])
      && (stop ==> pStack.Contents() == [])
      && (!stop ==> pending[0].StandsFor(next, view) && Stacked(pending[1..], pStack.Contents(), view))
    }

    /** The documents still to come. */
    ghost function Remaining(): seq<Visit>
      reads this
    {
      VisitsOf(pending)
    }

    /** The iterator shares no object with the file. */
    ghost predicate Apart(file: ZgdbFile)
      reads this, pStack, file, file.freeList
    {
      this !in file.freeList.Repr && pStack !in file.freeList.Repr && pStack.data !in file.freeList.Repr
    }

    /** Starts at any document; `f` is that document with its remaining siblings and all below them. */
    constructor (order: nat, orderParent: nat, startDepth: nat, ghost view: View, ghost f: Forest)
      requires EncodesFrom(view, f) && f.order == order
      ensures Valid() && fresh(pStack) && fresh(pStack.data) && this.view == view
      ensures !stop && Remaining() == Visits(f, orderParent, startDepth)
    {
      pStack := new TreeStack();
      stop := false;
      next := NodeEntry(order, orderParent, startDepth);
      this.view := view;
      pending := [Branch(f, orderParent, startDepth)];
      new;
      VisitsOfOne(pending[0]);
    }

    predicate HasNextDoc()
      reads this, pStack, pStack.data
      ensures Valid() ==> (HasNextDoc() <==> Remaining() != [])
    {
      assert Valid() && pending != [] ==> pending[0].Visits()[0] == VisitsOf(pending)[0];
      !stop
    }

    /** Returns the next document and moves on; `v` is that step of the traversal. */
    method NextDoc(file: ZgdbFile) returns (toReturn: Doc, depth: nat, ghost v: Visit)
      requires Valid() && !stop
      requires file.Valid() && file.View() == view && Apart(file)
      modifies this`stop, this`next, this`pending, pStack, pStack.data
      ensures Valid() && (pStack.data == old(pStack.data) || fresh(pStack.data))
      ensures old(Remaining()) == [v] + Remaining()
      ensures IsDoc(view, v.order) && toReturn == DocOf(view, v) && depth == v.depth
      ensures toReturn.header.indexAttached == v.order
    {
      ghost var b, others := pending[0], pending[1..];
      assert pending == [b] + others;
      VisitsOfAfter(b, others);
      v := Visit(b.f.order, b.parent, b.depth);
      var block := file.ReadBlock(next.order);
      var header := block.header;
      depth := next.depth;
      toReturn := Doc(IsRootDocumentHeader(header), next.orderParent, header);
      Advance(toReturn, depth, b, others);
    }

    /** The second half of nextDoc: chooses where to go next. */
    method Advance(document: Doc, depth: nat, ghost b: Branch, ghost others: seq<Branch>)
      requires Valid() && !stop && pending == [b] + others
      requires depth == next.depth && document.indexParent == next.orderParent
      requires document.header == view[next.order].header && document.header.indexAttached == next.order
      modifies this`stop, this`next, this`pending, pStack, pStack.data
      ensures Valid() && (pStack.data == old(pStack.data) || fresh(pStack.data))
      ensures pending == After(b) + others
    {
      hide Branch.Visits, TreeStack.Contents;
      var brother, son := document.header.indexBrother, document.header.indexSon;
      if brother == 0 && son == 0 {
        var peeked := pStack.Peek();
        if peeked == Nothing {
          stop := true;
          pending := [];
        } else {
          var entry := pStack.Pop();
          StackedPop(others, pStack.Contents(), view, entry.value);
          next := entry.value;
          pending := others;
        }
      } else if brother != 0 && son != 0 {
        next := NodeEntry(brother, document.indexParent, next.depth);
        var temp := NodeEntry(son, document.header.indexAttached, depth + 1);
        StackedPush(others, pStack.Contents(), view, Branch(b.f.kids, b.f.order, b.depth + 1), temp);
        pStack.Push(temp);
        pending := After(b) + others;
      } else if brother != 0 && son == 0 {
        next := NodeEntry(brother, document.indexParent, next.depth);
        pending := After(b) + others;
      } else {
        next := NodeEntry(son, document.header.indexAttached, next.depth + 1);
        pending := After(b) + others;
      }
    }
  }
}
