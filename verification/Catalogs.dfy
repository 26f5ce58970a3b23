/** The documents of a file as a whole: the tree, who owns which toast, and what every operation must keep. */
module Catalogs {
  import opened Blocks
  import opened Texts
  import opened Records
  import opened Forests
  import opened Storage

  ghost predicate IsAlive(index: seq<IndexEntry>, o: nat) {
    o < |index| && index[o].flag == Alive
  }

  /** A document of the tree is ALIVE and, unless it is the root, well formed. */
  ghost predicate NodeOk(view: View, index: seq<IndexEntry>, tree: Forest, owner: Owners, o: nat) {
    o == 0 || o in Orders(tree) ==> IsAlive(index, o) && (o != 0 ==> DocOk(view, owner, o))
  }

  /** An owned toast is ALIVE, belongs to a document of the tree, and counts no more slots than it has room for;
      what leads out of it is settled. */
  ghost predicate ToastOk(view: View, index: seq<IndexEntry>, tree: Forest, owner: Owners, t: nat) {
    t in owner ==>
      && IsAlive(index, t) && t in view && ToastFits(view[t])
      && owner[t] in Orders(tree) && Settled(view, owner[t], t)
  }

  /** A block, whoever owns it: a document is no larger than its block, a toast counts no more slots than it has
      room for. */
  ghost predicate RoomOk(view: View, t: nat) {
    t in view ==> 0 < MovedBytes(view[t]) <= Capacity(view[t]) && (view[t].Toast? ==> ToastFits(view[t]))
  }

  /** Block x of the view w has the room it needs, if it had in v. */
  ghost predicate RoomKept(v: View, w: View, x: nat) {
    RoomOk(v, x) ==> RoomOk(w, x)
  }

  /** The documents as the index table shows them, the tree they form, and who owns which toast. */
  datatype Catalog = Catalog(view: View, index: seq<IndexEntry>, tree: Forest, owner: Owners) {
    ghost predicate Ok() {
      match this
      case Catalog(view, index, tree, owner) =>
        && EncodesTree(view, tree) && Capacity(view[0]) == DOC_HEADER
        && (forall o: nat :: NodeOk(view, index, tree, owner, o))
        && (forall t: nat :: ToastOk(view, index, tree, owner, t))
        && (forall t: nat :: RoomOk(view, t))
    }
  }

  ghost predicate RecordsOk(view: View, index: seq<IndexEntry>, tree: Forest, owner: Owners) {
    Catalog(view, index, tree, owner).Ok()
  }

  /** The file is in order once the headers that the fill of a toast has zeroed are written again. */
  ghost predicate Restorable(file: ZgdbFile)
    reads file, file.freeList, file.freeList.Repr
  {
    && file.Standing()
    && file.nodes == 1 + Size(file.tree)
    && RecordsOk(file.View(), file.index, file.tree, file.owner)
  }

  /** The invariant of an open file. */
  ghost predicate Consistent(file: ZgdbFile)
    reads file, file.freeList, file.freeList.Repr
  {
    Restorable(file) && file.zeroed == {}
  }

  /** Notes the tree and the owners that the blocks now show. */
  ghost method Record(file: ZgdbFile, tree: Forest, owner: Owners)
    requires file.Standing() && file.nodes == 1 + Size(tree) && RecordsOk(file.View(), file.index, tree, owner)
    modifies file`tree, file`owner
    ensures Restorable(file) && file.tree == tree && file.owner == owner
  {
    file.tree, file.owner := tree, owner;
  }

  /** Document o of the tree reads the same in both views. */
  ghost predicate ReadsSame(view: View, view': View, o: nat) {
    && IsDoc(view, o) && IsDoc(view', o)
    && AllPresent(view, SlotsOf(view, o)) && AllPresent(view', SlotsOf(view', o))
    && Fields(view', o) == Fields(view, o)
    && view'[o].header.name == view[o].header.name
  }

  /** From the disk document o reads these fields. */
  ghost predicate ReadsOnDisk(file: ZgdbFile, o: nat, fs: seq<Field>)
    reads file
  {
    var w := file.Shown();
    file.Whole(o) && IsDoc(w, o) && AllPresent(w, SlotsOf(w, o)) && Fields(w, o) == fs
  }

  /** A document that has its header reads from the disk as from the view, whatever headers are zeroed elsewhere, those
      of its toasts included. */
  lemma ShownReads(file: ZgdbFile, o: nat)
    requires IsDoc(file.View(), o) && AllPresent(file.View(), SlotsOf(file.View(), o)) && file.Whole(o)
    ensures IsDoc(file.Shown(), o) && file.Shown()[o] == file.View()[o] && ReadsOnDisk(file, o, Fields(file.View(), o))
  {
    WornReads(file.View(), file.Shown(), o);
  }

  ghost predicate AllReadSame(view: View, view': View, orders: seq<nat>) {
    forall o {:trigger ReadsSame(view, view', o)} :: o in orders ==> ReadsSame(view, view', o)
  }

  lemma NodeFacts(view: View, index: seq<IndexEntry>, tree: Forest, owner: Owners, o: nat)
    requires RecordsOk(view, index, tree, owner) && (o == 0 || o in Orders(tree))
    ensures IsAlive(index, o) && IsDoc(view, o)
    ensures o != 0 ==> DocOk(view, owner, o)
  {
    assert NodeOk(view, index, tree, owner, o);
    EncodesOrders(view, view[0].header.indexSon, tree);
  }

  /** An index that is not ALIVE is neither in the tree nor an owned toast. */
  lemma NotAliveFacts(view: View, index: seq<IndexEntry>, tree: Forest, owner: Owners, o: nat)
    requires RecordsOk(view, index, tree, owner) && !IsAlive(index, o)
    ensures o != 0 && o !in Orders(tree) && o !in owner
  {
    assert NodeOk(view, index, tree, owner, o) && ToastOk(view, index, tree, owner, o);
  }

  // ---------- what may change without anybody noticing ----------

  /** x is the same block in both views, or a document that only got other links. */
  ghost predicate SameButLinks(view: View, view': View, x: nat) {
    && x in view && x in view'
    && (view'[x] == view[x]
        || (view[x].Document? && view'[x].Document?
            && view'[x].elements == view[x].elements
            && view'[x].header == view[x].header.(indexSon := view'[x].header.indexSon,
                                                  indexBrother := view'[x].header.indexBrother)))
  }

  /** Everything the tree and the owners can see is untouched, links aside. */
  ghost predicate Untouched(view: View, view': View, tree: Forest, owner: Owners) {
    forall x {:trigger SameButLinks(view, view', x)} :: x in Orders(tree) || x in owner ==> SameButLinks(view, view', x)
  }

  /** A document whose toasts still belong to it reads the same. */
  lemma UntouchedReads(view: View, view': View, index: seq<IndexEntry>, tree: Forest, owner: Owners, owner': Owners,
                       o: nat)
    requires RecordsOk(view, index, tree, owner) && o in Orders(tree)
    requires Untouched(view, view', tree, owner)
    requires forall t :: t in owner && owner[t] == o ==> t in owner' && owner'[t] == o
    ensures DocOk(view', owner', o) && ReadsSame(view, view', o)
  {
    NodeFacts(view, index, tree, owner, o);
    EncodesOrders(view, view[0].header.indexSon, tree);
    assert SameButLinks(view, view', o);
    forall t | Owns(view, owner, o, t) ensures SameToast(view, view', t) && Owns(view', owner', o, t) {
      assert SameButLinks(view, view', t);
    }
    RecordFrame(view, view', owner, owner', o);
  }

  /** A toast that is untouched, and whose document stays, is as it was. */
  lemma ToastStays(v: View, w: View, index: seq<IndexEntry>, index': seq<IndexEntry>, tree: Forest, tree': Forest,
                   owner: Owners, owner': Owners, t: nat)
    requires t in owner' ==> t in owner && owner'[t] == owner[t] && owner[t] in Orders(tree') && IsAlive(index', t)
    requires ToastOk(v, index, tree, owner, t) && Untouched(v, w, tree, owner)
    ensures ToastOk(w, index', tree', owner', t)
  {
    if t in owner' {
      assert SameButLinks(v, w, t) && SameButLinks(v, w, owner[t]);
    }
  }

  // ---------- a document was created ----------

  /** The owners after document o was created with toast t (0: without one). */
  ghost function OwnersWith(owner: Owners, t: nat, o: nat): Owners {
    if t == 0 then owner else owner[t := o]
  }

  /** A free index was given a block. */
  ghost predicate Appeared(index: seq<IndexEntry>, index': seq<IndexEntry>, o: nat) {
    !IsAlive(index, o) && IsAlive(index', o)
  }

  ghost predicate StaysAlive(index: seq<IndexEntry>, index': seq<IndexEntry>, x: nat) {
    IsAlive(index, x) ==> IsAlive(index', x)
  }

  lemma CreatedOk(v: View, w: View, index: seq<IndexEntry>, index': seq<IndexEntry>, tree: Forest, owner: Owners,
                  p: nat, o: nat, t: nat)
    requires RecordsOk(v, index, tree, owner) && (p == 0 || p in Orders(tree))
    requires Appeared(index, index', o) && forall x: nat :: StaysAlive(index, index', x)
    requires LinkedAsSon(v, w, p, o) && LinksKept(v, w, tree, p) && (p != 0 ==> SameLinks(v, w, 0))
    requires Untouched(v, w, tree, owner) && SameButLinks(v, w, 0)
    requires DocOk(w, OwnersWith(owner, t, o), o)
    requires t != 0 ==> Appeared(index, index', t) && t in w && ToastFits(w[t]) && Settled(w, o, t)
    requires forall x: nat :: RoomKept(v, w, x)
    ensures RecordsOk(w, index', WithChild(tree, p, o), OwnersWith(owner, t, o))
    ensures AllReadSame(v, w, Orders(tree))
    ensures o !in Orders(tree) && Size(WithChild(tree, p, o)) == Size(tree) + 1
  {
    var tree', owner' := WithChild(tree, p, o), OwnersWith(owner, t, o);
    NotAliveFacts(v, index, tree, owner, o);
    if t != 0 { NotAliveFacts(v, index, tree, owner, t); }
    WithChildMembers(tree, p, o);
    EncodesTreeWithChild(v, w, tree, p, o);
    forall x: nat | x in Orders(tree) ensures ReadsSame(v, w, x) && DocOk(w, owner', x) {
      UntouchedReads(v, w, index, tree, owner, owner', x);
    }
    forall x: nat ensures RoomOk(w, x) {
      assert RoomOk(v, x) && RoomKept(v, w, x);
    }
    forall x: nat ensures NodeOk(w, index', tree', owner', x) {
      assert NodeOk(v, index, tree, owner, x) && StaysAlive(index, index', x);
    }
    forall x: nat ensures ToastOk(w, index', tree', owner', x) {
      assert ToastOk(v, index, tree, owner, x) && StaysAlive(index, index', x);
      if x != t || t == 0 { ToastStays(v, w, index, index', tree, tree', owner, owner', x); }
    }
  }

  // ---------- a document was deleted ----------

  ghost function OwnersWithout(owner: Owners, gone: seq<nat>): Owners {
    map t | t in owner && owner[t] !in gone :: owner[t]
  }

  /** Exactly the ALIVE indexes among `gone` are no longer ALIVE. */
  ghost predicate GoneExactly(index: seq<IndexEntry>, index': seq<IndexEntry>, gone: seq<nat>, x: nat) {
    IsAlive(index', x) <==> IsAlive(index, x) && x !in gone
  }

  lemma DeletedOk(v: View, w: View, index: seq<IndexEntry>, index': seq<IndexEntry>, tree: Forest, owner: Owners,
                  p: nat, o: nat, l: seq<nat>)
    requires RecordsOk(v, index, tree, owner) && (p == 0 || p in Orders(tree)) && o in Roots(Kids(tree, p))
    requires o in Orders(tree) && Unlinked(v, w, p, o, Kids(tree, p))
    requires Untouched(v, w, tree, owner) && SameButLinks(v, w, 0)
    requires ToastListOk(v, owner, o, FirstToast(v, o), l)
    requires forall x: nat :: GoneExactly(index, index', Subtree(tree, o) + l, x)
    requires forall x: nat :: RoomKept(v, w, x)
    ensures RecordsOk(w, index', Cut(tree, o), OwnersWithout(owner, Subtree(tree, o)))
    ensures AllReadSame(v, w, Orders(Cut(tree, o)))
    ensures Size(tree) == Size(Cut(tree, o)) + |Subtree(tree, o)|
  {
    var gone, tree', owner' := Subtree(tree, o), Cut(tree, o), OwnersWithout(owner, Subtree(tree, o));
    CutMembers(tree, o);
    EncodesOrders(v, v[0].header.indexSon, tree);
    RootLinks(v, w, tree, p, o);
    EncodesTreeUnlinked(v, w, tree, p, o);
    forall x: nat | x in Orders(tree') ensures ReadsSame(v, w, x) && DocOk(w, owner', x) {
      UntouchedReads(v, w, index, tree, owner, owner', x);
    }
    KidsBelowOrders(tree, o);
    forall x | x in l ensures x in owner && owner[x] == o && !IsDoc(v, x) {
      assert Owns(v, owner, o, x);
    }
    forall x | x in gone ensures x !in owner {
      assert ToastOk(v, index, tree, owner, x) && IsDoc(v, x);
    }
    forall x: nat ensures RoomOk(w, x) {
      assert RoomOk(v, x) && RoomKept(v, w, x);
    }
    forall x: nat ensures NodeOk(w, index', tree', owner', x) {
      assert NodeOk(v, index, tree, owner, x) && GoneExactly(index, index', gone + l, x);
      SubtreeWithoutRoot(v, tree, o);
    }
    forall x: nat ensures ToastOk(w, index', tree', owner', x) {
      assert ToastOk(v, index, tree, owner, x) && GoneExactly(index, index', gone + l, x);
      ToastStays(v, w, index, index', tree, tree', owner, owner', x);
    }
  }

  lemma SubtreeWithoutRoot(v: View, tree: Forest, o: nat)
    requires EncodesTree(v, tree) && o in Orders(tree)
    ensures 0 !in Subtree(tree, o)
  {
    EncodesOrders(v, v[0].header.indexSon, tree);
    KidsBelowOrders(tree, o);
  }

  /** The root document stays the root document. */
  lemma RootLinks(v: View, w: View, tree: Forest, p: nat, o: nat)
    requires EncodesTree(v, tree) && (p == 0 || p in Orders(tree)) && o in Roots(Kids(tree, p))
    requires Unlinked(v, w, p, o, Kids(tree, p)) && SameButLinks(v, w, 0)
    ensures IsDoc(w, 0) && IsRootDocumentHeader(w[0].header)
  {
    EncodesOrders(v, v[0].header.indexSon, tree);
    KidsBelowOrders(tree, p);
    RootsAreOrders(Kids(tree, p));
    PredecessorIn(p, o, Kids(tree, p));
    if Predecessor(p, o, Kids(tree, p)) != 0 {
      assert SameLinks(v, w, 0);
    }
  }
}
