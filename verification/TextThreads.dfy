/** What updating one element leaves of a document: that element's text rethreaded through its own slots and slots
    nobody counted, everything else as before. */
module TextThreads {
  import opened Blocks
  import opened Tilings
  import opened Texts
  import opened TextFiles
  import opened Records
  import opened Schemas
  import opened ElementWriters
  import opened Forests
  import opened Catalogs

  // ---------- one element among others ----------

  /** A document's elements taken apart at number i. */
  lemma AroundElement(view: View, t: nat, es: seq<Stored>, i: nat)
    requires i < |es|
    ensures ChainsOf(view, t, es) == ChainsOf(view, t, es[..i]) + ChainOf(view, t, es[i])
        + ChainsOf(view, t, es[i + 1..])
    ensures TextsOk(view, t, es) <==>
              TextsOk(view, t, es[..i]) && TextOk(view, t, es[i]) && TextsOk(view, t, es[i + 1..])
  {
    var a, e, b := es[..i], es[i], es[i + 1..];
    assert es == (a + [e]) + b;
    ChainsConcat(view, t, a + [e], b);
    ChainsConcat(view, t, a, [e]);
    TextsConcat(view, t, a + [e], b);
    TextsConcat(view, t, a, [e]);
    assert ChainsOf(view, t, [e]) == ChainOf(view, t, e) + [];
    assert TextsOk(view, t, [e]) <==> TextOk(view, t, e);
  }

  lemma AllPresentParts(view: View, a: seq<Slot>, c: seq<Slot>, b: seq<Slot>)
    ensures AllPresent(view, a + c + b) <==> AllPresent(view, a) && AllPresent(view, c) && AllPresent(view, b)
  {
    assert forall s :: s in a || s in c || s in b ==> s in a + c + b;
  }

  lemma FieldsAround(view: View, t: nat, es: seq<Stored>, i: nat)
    requires i < |es| && AllPresent(view, ChainsOf(view, t, es))
    ensures AllPresent(view, ChainsOf(view, t, es[..i])) && AllPresent(view, ChainOf(view, t, es[i]))
    ensures AllPresent(view, ChainsOf(view, t, es[i + 1..]))
    ensures FieldsOf(view, t, es) == FieldsOf(view, t, es[..i]) + [Field(es[i].key, ValueOf(view, t, es[i]))]
                                     + FieldsOf(view, t, es[i + 1..])
  {
    hide ChainOf;
    AroundElement(view, t, es, i);
    AllPresentParts(view, ChainsOf(view, t, es[..i]), ChainOf(view, t, es[i]), ChainsOf(view, t, es[i + 1..]));
    FieldsJoined(view, t, es[..i], es[i], es[i + 1..]);
    assert es == (es[..i] + [es[i]]) + es[i + 1..];
  }

  lemma FieldsJoined(view: View, t: nat, a: seq<Stored>, e: Stored, b: seq<Stored>)
    requires AllPresent(view, ChainsOf(view, t, a)) && AllPresent(view, ChainOf(view, t, e))
    requires AllPresent(view, ChainsOf(view, t, b))
    ensures var es := (a + [e]) + b;
            && AllPresent(view, ChainsOf(view, t, es))
            && FieldsOf(view, t, es) == FieldsOf(view, t, a) + [Field(e.key, ValueOf(view, t, e))]
                + FieldsOf(view, t, b)
  {
    OneField(view, t, e);
    FieldsConcat(view, t, a, [e]);
    FieldsConcat(view, t, a + [e], b);
  }

  lemma OneField(view: View, t: nat, e: Stored)
    requires AllPresent(view, ChainOf(view, t, e))
    ensures AllPresent(view, ChainsOf(view, t, [e])) && FieldsOf(view, t, [e]) == [Field(e.key, ValueOf(view, t, e))]
  {
    assert ChainsOf(view, t, [e]) == ChainOf(view, t, e) + [] == ChainOf(view, t, e);
    assert FieldsOf(view, t, [e]) == [Field(e.key, ValueOf(view, t, e))] + [];
  }

  lemma ReplacedMiddle<T>(a: seq<T>, x: T, y: T, b: seq<T>)
    ensures (a + [x] + b)[|a| := y] == a + [y] + b
  {
  }

  /** A slot below the used mark of somebody's toast. */
  ghost predicate Counted(v: View, owner: Owners, s: Slot) {
    s.toast in owner && s.toast in v && v[s.toast].Toast? && s.offset < v[s.toast].used * SLOT
  }

  ghost predicate KeptBeside(v: View, w: View, owner: Owners, owner': Owners, o: nat, was: seq<Slot>, s: Slot) {
    SlotOk(v, owner, o, s) && s !in was ==> SlotOk(w, owner', o, s) && ChunkAt(w, s) == ChunkAt(v, s)
  }

  /** Document o may use the slots c in w, and nobody but the text that had the slots `was` can miss them. */
  ghost predicate Usable(v: View, w: View, owner: Owners, owner': Owners, o: nat, was: seq<Slot>, c: seq<Slot>) {
    && SlotsOk(w, owner', o, c) && NoDuplicates(c)
    && (forall s :: s in c ==> s in was || !Counted(v, owner, s))
    && (forall s: Slot :: KeptBeside(v, w, owner, owner', o, was, s))
  }

  /** From v to w, element i of document o became e. */
  ghost predicate Updated(v: View, w: View, owner: Owners, owner': Owners, o: nat, i: nat, e: Stored) {
    && IsDoc(v, o) && i < |v[o].elements| && IsDoc(w, o)
    && w[o] == Document(v[o].header, v[o].elements[i := e])
    && TextOk(w, FirstToast(v, o), e)
    && Usable(v, w, owner, owner', o, ChainOf(v, FirstToast(v, o), v[o].elements[i]), ChainOf(w, FirstToast(v, o), e))
  }

  /** Some elements of document o, clear of the slots `was`. */
  ghost predicate SideOk(v: View, owner: Owners, o: nat, t: nat, was: seq<Slot>, es: seq<Stored>) {
    && SlotsOk(v, owner, o, ChainsOf(v, t, es)) && TextsOk(v, t, es)
    && forall s :: s in ChainsOf(v, t, es) ==> s !in was
  }

  /** The other elements' slots are where they were and hold what they held. */
  lemma BesideFrame(v: View, w: View, owner: Owners, owner': Owners, o: nat, i: nat, e: Stored, es: seq<Stored>)
    requires Updated(v, w, owner, owner', o, i, e)
    requires SideOk(v, owner, o, FirstToast(v, o), ChainOf(v, FirstToast(v, o), v[o].elements[i]), es)
    ensures Beside(v, w, owner', o, FirstToast(v, o), ChainOf(w, FirstToast(v, o), e), es)
  {
    var t := FirstToast(v, o);
    var c, was := ChainsOf(v, t, es), ChainOf(v, t, v[o].elements[i]);
    SlotsPresent(v, owner, o, c);
    forall s | s in c
      ensures HasChunk(w, s) && ChunkAt(w, s) == ChunkAt(v, s) && SlotOk(w, owner', o, s) && s !in ChainOf(w, t, e)
    {
      assert SlotOk(v, owner, o, s) && KeptBeside(v, w, owner, owner', o, was, s);
      assert Counted(v, owner, s);
    }
    ChainsFrame(v, w, t, es);
  }

  /** The three chains do not overlap themselves or each other. */
  ghost predicate ThreeParts(a: seq<Slot>, c: seq<Slot>, b: seq<Slot>) {
    && NoDuplicates(a) && NoDuplicates(c) && NoDuplicates(b)
    && (forall s :: s in a ==> s !in c && s !in b) && (forall s :: s in b ==> s !in c)
  }

  lemma ThreeApart(a: seq<Slot>, c: seq<Slot>, b: seq<Slot>)
    ensures NoDuplicates(a + c + b) <==> ThreeParts(a, c, b)
  {
    NoDuplicatesConcat(a + c, b);
    NoDuplicatesConcat(a, c);
  }

  lemma SlotsOkParts(view: View, owner: Owners, o: nat, a: seq<Slot>, c: seq<Slot>, b: seq<Slot>)
    ensures SlotsOk(view, owner, o, a + c + b) <==>
            SlotsOk(view, owner, o, a) && SlotsOk(view, owner, o, c) && SlotsOk(view, owner, o, b)
  {
    assert forall s :: s in a || s in c || s in b ==> s in a + c + b;
  }

  /** Both sides of the updated element, framed. */
  ghost predicate Beside(v: View, w: View, owner: Owners, o: nat, t: nat, c: seq<Slot>, es: seq<Stored>) {
    && AllPresent(v, ChainsOf(v, t, es)) && AllPresent(w, ChainsOf(w, t, es))
    && ChainsOf(w, t, es) == ChainsOf(v, t, es)
    && FieldsOf(w, t, es) == FieldsOf(v, t, es)
    && TextsOk(w, t, es) && SlotsOk(w, owner, o, ChainsOf(w, t, es))
    && forall s :: s in ChainsOf(w, t, es) ==> s !in c
  }

  lemma SidesBefore(v: View, owner: Owners, o: nat, i: nat)
    requires DocOk(v, owner, o) && i < |v[o].elements|
    ensures var t, es, was := FirstToast(v, o), v[o].elements, ChainOf(v, FirstToast(v, o), v[o].elements[i]);
            && SideOk(v, owner, o, t, was, es[..i]) && SideOk(v, owner, o, t, was, es[i + 1..])
            && ThreeParts(ChainsOf(v, t, es[..i]), was, ChainsOf(v, t, es[i + 1..]))
            && SlotsOk(v, owner, o, was) && TextOk(v, t, es[i])
  {
    var t, es := FirstToast(v, o), v[o].elements;
    var a, b := es[..i], es[i + 1..];
    AroundElement(v, t, es, i);
    ThreeApart(ChainsOf(v, t, a), ChainOf(v, t, es[i]), ChainsOf(v, t, b));
    SlotsOkParts(v, owner, o, ChainsOf(v, t, a), ChainOf(v, t, es[i]), ChainsOf(v, t, b));
  }

  lemma BothSides(v: View, w: View, owner: Owners, owner': Owners, o: nat, i: nat, e: Stored)
    requires DocOk(v, owner, o) && Updated(v, w, owner, owner', o, i, e)
    ensures var t, es, c := FirstToast(v, o), v[o].elements, ChainOf(w, FirstToast(v, o), e);
            && Beside(v, w, owner', o, t, c, es[..i]) && Beside(v, w, owner', o, t, c, es[i + 1..])
            && ThreeParts(ChainsOf(w, t, es[..i]), c, ChainsOf(w, t, es[i + 1..]))
  {
    hide SlotsOk;
    SidesBefore(v, owner, o, i);
    BesideFrame(v, w, owner, owner', o, i, e, v[o].elements[..i]);
    BesideFrame(v, w, owner, owner', o, i, e, v[o].elements[i + 1..]);
  }

  /** A document one of whose elements was updated is well formed again. */
  lemma UpdatedDoc(v: View, w: View, owner: Owners, owner': Owners, o: nat, i: nat, e: Stored, l: seq<nat>)
    requires DocOk(v, owner, o) && Updated(v, w, owner, owner', o, i, e)
    requires ToastListOk(w, owner', o, FirstToast(v, o), l)
    ensures DocOk(w, owner', o)
  {
    var t, es := FirstToast(v, o), v[o].elements;
    var es', a, b := es[i := e], es[..i], es[i + 1..];
    assert es'[..i] == a && es'[i + 1..] == b && es'[i] == e;
    BothSides(v, w, owner, owner', o, i, e);
    AroundElement(w, t, es', i);
    ThreeApart(ChainsOf(w, t, a), ChainOf(w, t, e), ChainsOf(w, t, b));
    SlotsOkParts(w, owner', o, ChainsOf(w, t, a), ChainOf(w, t, e), ChainsOf(w, t, b));
  }

  /** Only the updated field reads differently. */
  lemma UpdatedFields(v: View, w: View, owner: Owners, owner': Owners, o: nat, i: nat, e: Stored)
    requires DocOk(v, owner, o) && Updated(v, w, owner, owner', o, i, e) && DocOk(w, owner', o)
    ensures AllPresent(v, SlotsOf(v, o)) && AllPresent(w, SlotsOf(w, o))
    ensures AllPresent(w, ChainOf(w, FirstToast(v, o), e))
    ensures Fields(w, o) == Fields(v, o)[i := Field(e.key, ValueOf(w, FirstToast(v, o), e))]
  {
    var t, es := FirstToast(v, o), v[o].elements;
    var es', a, b := es[i := e], es[..i], es[i + 1..];
    assert es'[..i] == a && es'[i + 1..] == b && es'[i] == e;
    BothSides(v, w, owner, owner', o, i, e);
    SlotsPresent(v, owner, o, SlotsOf(v, o));
    SlotsPresent(w, owner', o, SlotsOf(w, o));
    FieldsAround(v, t, es, i);
    FieldsAround(w, t, es', i);
    ReplacedMiddle(FieldsOf(v, t, a), Field(es[i].key, ValueOf(v, t, es[i])), Field(e.key, ValueOf(w, t, e)),
                   FieldsOf(v, t, b));
  }

  // ---------- the file around the document ----------

  /** A block that is neither document o, nor a toast of its, nor the new toast n, is untouched. */
  ghost predicate KeptBlock(v: View, w: View, owner: Owners, o: nat, n: nat, x: nat) {
    x in v && x != o && (n == 0 || x != n) && !(x in owner && owner[x] == o) ==> x in w && w[x] == v[x]
  }

  ghost predicate OwnToastOk(w: View, owner: Owners, o: nat, t: nat) {
    t in owner && owner[t] == o ==> t in w && ToastFits(w[t]) && Settled(w, o, t)
  }

  /** The file after document o's elements and toasts changed and it may have gained toast n (0: none). */
  lemma UpdatedOk(v: View, w: View, index: seq<IndexEntry>, index': seq<IndexEntry>, tree: Forest,
                  owner: Owners, owner': Owners, o: nat, n: nat)
    requires RecordsOk(v, index, tree, owner) && o in Orders(tree) && owner' == OwnersWith(owner, n, o)
    requires IsDoc(v, o) && DocOk(w, owner', o) && w[o].header == v[o].header
    requires forall x: nat :: StaysAlive(index, index', x)
    requires n != 0 ==> Appeared(index, index', n)
    requires forall x: nat :: KeptBlock(v, w, owner, o, n, x)
    requires forall t: nat :: OwnToastOk(w, owner', o, t)
    requires forall x: nat :: RoomKept(v, w, x)
    ensures RecordsOk(w, index', tree, owner')
    ensures forall x {:trigger ReadsSame(v, w, x)} :: x in Orders(tree) && x != o ==> ReadsSame(v, w, x)
  {
    EncodesOrders(v, v[0].header.indexSon, tree);
    if n != 0 { NotAliveFacts(v, index, tree, owner, n); }
    forall x | x == 0 || x in Orders(tree) ensures SameLinks(v, w, x) && (x != o ==> x in w && w[x] == v[x]) {
      NodeFacts(v, index, tree, owner, x);
      NotOwned(v, index, tree, owner, x);
      assert KeptBlock(v, w, owner, o, n, x);
    }
    EncodesFrame(v, w, v[0].header.indexSon, tree);
    forall x: nat | x in Orders(tree) && x != o ensures DocOk(w, owner', x) && ReadsSame(v, w, x) {
      OtherReads(v, w, index, tree, owner, owner', o, n, x);
    }
    forall x: nat ensures RoomOk(w, x) {
      assert RoomOk(v, x) && RoomKept(v, w, x);
    }
    forall x: nat ensures NodeOk(w, index', tree, owner', x) {
      assert NodeOk(v, index, tree, owner, x) && StaysAlive(index, index', x);
    }
    forall x: nat ensures ToastOk(w, index', tree, owner', x) {
      assert ToastOk(v, index, tree, owner, x) && StaysAlive(index, index', x);
      assert OwnToastOk(w, owner', o, x) && KeptBlock(v, w, owner, o, n, x);
    }
  }

  lemma NotOwned(v: View, index: seq<IndexEntry>, tree: Forest, owner: Owners, x: nat)
    requires RecordsOk(v, index, tree, owner) && IsDoc(v, x)
    ensures x !in owner
  {
    assert ToastOk(v, index, tree, owner, x);
  }

  /** Another document reads as before. */
  lemma OtherReads(v: View, w: View, index: seq<IndexEntry>, tree: Forest, owner: Owners, owner': Owners, o: nat,
                   n: nat, x: nat)
    requires RecordsOk(v, index, tree, owner) && x in Orders(tree) && x != o && owner' == OwnersWith(owner, n, o)
    requires n != 0 ==> n !in owner
    requires IsDoc(v, o) && x in v && x in w && w[x] == v[x]
    requires forall y: nat :: KeptBlock(v, w, owner, o, n, y)
    ensures DocOk(w, owner', x) && ReadsSame(v, w, x)
  {
    NodeFacts(v, index, tree, owner, x);
    EncodesOrders(v, v[0].header.indexSon, tree);
    forall t | Owns(v, owner, x, t) ensures SameToast(v, w, t) && Owns(w, owner', x, t) {
      assert KeptBlock(v, w, owner, o, n, t);
    }
    RecordFrame(v, w, owner, owner', x);
  }

  // ---------- rethreading a text ----------

  /** A text of document o that hung on slot s and had the slots `was` is being replaced by `text`;
      n is the toast the document gains for it (0: none). */
  datatype Edit = Edit(v: View, owner: Owners, o: nat, n: nat, was: seq<Slot>, s: Slot, text: seq<byte>) {
    ghost function NewOwners(): Owners {
      OwnersWith(owner, n, o)
    }

    /** The first m slots of the chain at s carry the text. */
    ghost predicate Threaded(w: View, m: nat) {
      match this
      case Edit(v, owner, o, _, was, s, text) =>
        Usable(v, w, owner, NewOwners(), o, was, Chain(w, s, m)) && ChainCarries(w, Chain(w, s, m), text)
    }

    /** Nothing but the document's toasts has changed, and these are in order. */
    ghost predicate Around(w: View) {
      match this
      case Edit(v, owner, o, n, _, _, _) =>
        && IsDoc(v, o) && o in w && w[o] == v[o]
        && (forall x: nat :: KeptBlock(v, w, owner, o, n, x))
        && (forall t: nat :: OwnToastOk(w, NewOwners(), o, t))
        && (forall x: nat :: RoomKept(v, w, x))
    }

    /** Slot k of the new toast or of one that counted up to k: nobody's yet. */
    ghost predicate Uncounted(t: nat, used: nat) {
      t in owner ==> t in v && v[t].Toast? && v[t].used == used
    }
  }

  /** A run of k chunks behind the used slots of toast t. */
  ghost function WithRun(w: View, t: nat, text: seq<byte>, from: nat, k: nat, used: nat, used': nat, lastToast: nat,
                         lastLen: nat): View
    requires t in w && w[t].Toast?
    requires lastLen <= CHUNK_SIZE && (k > 0 ==> CHUNK_SIZE * (from + k - 1) + lastLen <= |text|)
  {
    w[t := WithSlots(w[t], PutRun(w[t].slots, used, Run(text, from, k, t, used, lastToast, lastLen)), used')]
  }

  /** Slots in use do not notice a run behind them. */
  lemma RunKeeps(w: View, owner: Owners, o: nat, t: nat, text: seq<byte>, from: nat, k: nat, used: nat, used': nat,
                 lastToast: nat, lastLen: nat, s: Slot)
    requires Owns(w, owner, o, t) && w[t].used == used <= used'
    requires lastLen <= CHUNK_SIZE && (k > 0 ==> CHUNK_SIZE * (from + k - 1) + lastLen <= |text|)
    requires SlotOk(w, owner, o, s)
    ensures var w' := WithRun(w, t, text, from, k, used, used', lastToast, lastLen);
            SlotOk(w', owner, o, s) && ChunkAt(w', s) == ChunkAt(w, s)
  {
    if s.toast == t {
      PutRunBelow(w[t].slots, used, Run(text, from, k, t, used, lastToast, lastLen), s.offset);
    }
  }

  /** The chain is still there after a run was written behind the used slots of a toast. */
  lemma ChainBefore(w: View, w': View, owner: Owners, o: nat, s: Slot, m: nat, next: Slot)
    requires SlotsOk(w, owner, o, Chain(w, s, m)) && m > 0 && NextSlot(w, Chain(w, s, m)[m - 1]) == next
    requires forall x: Slot :: KeptBeside(w, w', owner, owner, o, [], x)
    ensures Chain(w', s, m) == Chain(w, s, m) && Follow(w', s, m) == next
  {
    var c := Chain(w, s, m);
    forall i | 0 <= i < m ensures NextSlot(w', c[i]) == NextSlot(w, c[i]) {
      assert SlotOk(w, owner, o, c[i]) && KeptBeside(w, w', owner, owner, o, [], c[i]);
    }
    ChainFrame(w, w', s, m);
    ChainAt(w', s, m, m - 1);
    FollowNext(w', s, m - 1);
  }

  lemma RunLeadsOn(w: View, w': View, t: nat, text: seq<byte>, m: nat, k: nat, used: nat, used': nat, lastToast: nat,
                   lastLen: nat)
    requires t in w && w[t].Toast? && w[t].used == used && k > 0
    requires lastLen <= CHUNK_SIZE && CHUNK_SIZE * (m + k - 1) + lastLen <= |text|
    requires lastLen == CHUNK_SIZE || CHUNK_SIZE * (m + k - 1) + lastLen == |text|
    requires w' == WithRun(w, t, text, m, k, used, used', lastToast, lastLen)
    ensures var run := RunSlots(t, used, k);
            && Chain(w', Slot(t, used * SLOT), k) == run && AllPresent(w', run)
            && (forall i :: 0 <= i < k ==> Carries(w', run[i], text, m + i))
            && NextSlot(w', run[k - 1]) == Slot(lastToast, 0) && run[k - 1].toast == t
  {
    RunSlotsIn(t, used, k, RunSlots(t, used, k)[k - 1]);
    RunIsChain(w', w[t].slots, text, m, k, t, used, lastToast, lastLen);
  }

  /** The slots of a run behind the used slots may be used, whatever the chain before them. */
  lemma RunUsable(ed: Edit, w: View, w': View, m: nat, k: nat, t: nat, used: nat, c: seq<Slot>)
    requires ed.Threaded(w, m) && c == Chain(w, ed.s, m)
    requires Owns(w, ed.NewOwners(), ed.o, t) && w[t].used == used && ed.Uncounted(t, used)
    requires Owns(w', ed.NewOwners(), ed.o, t) && w'[t].used == used + k
    requires AllPresent(w', RunSlots(t, used, k))
    requires forall s: Slot :: KeptBeside(w, w', ed.NewOwners(), ed.NewOwners(), ed.o, [], s)
    ensures Usable(ed.v, w', ed.owner, ed.NewOwners(), ed.o, ed.was, c + RunSlots(t, used, k))
  {
    var run, owner' := RunSlots(t, used, k), ed.NewOwners();
    RunSlotsIn(t, used, k, Slot(t, 0));
    forall s | s in c ensures SlotOk(w', owner', ed.o, s) && (s.toast == t ==> s.offset < used * SLOT) {
      assert SlotOk(w, owner', ed.o, s) && KeptBeside(w, w', owner', owner', ed.o, [], s);
    }
    forall s | s in run ensures SlotOk(w', owner', ed.o, s) && !Counted(ed.v, ed.owner, s) && s !in c {
      RunSlotsIn(t, used, k, s);
    }
    NoDuplicatesConcat(c, run);
    forall s: Slot ensures KeptBeside(ed.v, w', ed.owner, owner', ed.o, ed.was, s) {
      assert KeptBeside(ed.v, w, ed.owner, owner', ed.o, ed.was, s) && KeptBeside(w, w', owner', owner', ed.o, [], s);
    }
  }

  /** A run appended where the chain led to continues the text. */
  lemma Appended(ed: Edit, w: View, m: nat, k: nat, n: nat, t: nat, used: nat, used': nat, lastToast: nat, lastLen: nat)
    requires ed.Threaded(w, m) && ed.Around(w) && m > 0 && k > 0 && n == m + k
    requires Owns(w, ed.NewOwners(), ed.o, t) && w[t].used == used && used' == used + k && ed.Uncounted(t, used)
    requires NextSlot(w, Chain(w, ed.s, m)[m - 1]) == Slot(t, used * SLOT)
    requires lastLen <= CHUNK_SIZE && CHUNK_SIZE * (m + k - 1) + lastLen <= |ed.text|
    requires lastLen == CHUNK_SIZE || CHUNK_SIZE * (m + k - 1) + lastLen == |ed.text|
    requires var w' := WithRun(w, t, ed.text, m, k, used, used', lastToast, lastLen);
             ToastFits(w'[t]) && Settled(w', ed.o, t)
    requires t != ed.o
    ensures var w' := WithRun(w, t, ed.text, m, k, used, used', lastToast, lastLen);
            && ed.Threaded(w', n) && ed.Around(w')
            && NextSlot(w', Chain(w', ed.s, n)[n - 1]) == Slot(lastToast, 0)
            && Chain(w', ed.s, n)[n - 1].toast == t
  {
    hide NoDuplicates;
    var w' := WithRun(w, t, ed.text, m, k, used, used', lastToast, lastLen);
    var c, run, owner' := Chain(w, ed.s, m), RunSlots(t, used, k), ed.NewOwners();
    forall s: Slot ensures KeptBeside(w, w', owner', owner', ed.o, [], s) {
      if SlotOk(w, owner', ed.o, s) {
        RunKeeps(w, owner', ed.o, t, ed.text, m, k, used, used', lastToast, lastLen, s);
      }
    }
    RunLeadsOn(w, w', t, ed.text, m, k, used, used', lastToast, lastLen);
    ChainBefore(w, w', owner', ed.o, ed.s, m, Slot(t, used * SLOT));
    ChainSplit(w', ed.s, m, k);
    RunUsable(ed, w, w', m, k, t, used, c);
    forall i: nat | i < m + k ensures Carries(w', (c + run)[i], ed.text, i) {
      if i < m {
        assert Carries(w, c[i], ed.text, i) && SlotOk(w, owner', ed.o, c[i]);
        assert KeptBeside(w, w', owner', owner', ed.o, [], c[i]);
      } else {
        assert Carries(w', run[i - m], ed.text, m + (i - m));
      }
    }
    forall x: nat ensures KeptBlock(ed.v, w', ed.owner, ed.o, ed.n, x) {
      assert KeptBlock(ed.v, w, ed.owner, ed.o, ed.n, x);
    }
    forall x: nat ensures OwnToastOk(w', owner', ed.o, x) && RoomKept(ed.v, w', x) {
      assert OwnToastOk(w, owner', ed.o, x) && RoomKept(ed.v, w, x);
    }
  }

  // ---------- the slots rewritten in place ----------

  /** v2 is v, with a toast added or another header for one: nothing the document's texts can see. */
  ghost predicate Readied(ed: Edit, v2: View) {
    && ed.Around(v2)
    && SlotsOk(v2, ed.NewOwners(), ed.o, ed.was) && NoDuplicates(ed.was)
    && (forall s: Slot :: KeptBeside(ed.v, v2, ed.owner, ed.NewOwners(), ed.o, [], s))
  }

  lemma RewrittenSlot(v2: View, w: View, owner: Owners, o: nat, c: seq<Slot>, text: seq<byte>, link: Link, s: Slot)
    requires Rewritten(v2, w, c, text, link, |c|) && SlotOk(v2, owner, o, s)
    ensures SlotOk(w, owner, o, s) && (s !in c ==> ChunkAt(w, s) == ChunkAt(v2, s))
  {
    assert SameShell(v2, w, s.toast) && KeptOutside(v2, w, c, s);
    if s in c {
      var i :| 0 <= i < |c| && c[i] == s;
      assert ChunkState(v2, w, c, text, link, |c|, i);
    }
  }

  /** The rewritten chain is the same chain, carries the text, and leads where the link says. */
  lemma RewrittenChain(v2: View, w: View, s: Slot, m: nat, text: seq<byte>, link: Link)
    requires Rewritten(v2, w, Chain(v2, s, m), text, link, m) && AllPresent(v2, Chain(v2, s, m)) && m > 0
    ensures Chain(w, s, m) == Chain(v2, s, m) && ChainCarries(w, Chain(v2, s, m), text)
    ensures NextSlot(w, Chain(v2, s, m)[m - 1]) == NextOf(TextFiles.Relinked(ChunkAt(v2, Chain(v2, s, m)[m - 1]), link))
  {
    var c := Chain(v2, s, m);
    forall i: nat | i < m
      ensures Carries(w, c[i], text, i)
      ensures NextSlot(w, c[i]) == NextOf(TextFiles.Relinked(ChunkAt(v2, c[i]), if i == m - 1 then link else Keep))
    {
      assert ChunkState(v2, w, c, text, link, m, i);
    }
    ChainFrame(v2, w, s, m);
  }

  /** Blocks without a slot of the chain are untouched. */
  lemma RewrittenBlock(v2: View, w: View, c: seq<Slot>, text: seq<byte>, link: Link, k: nat, x: nat)
    requires Rewritten(v2, w, c, text, link, k) && x in v2 && forall s :: s in c ==> s.toast != x
    ensures x in w && w[x] == v2[x]
  {
    assert SameShell(v2, w, x);
    if v2[x].Toast? {
      forall off: nat ensures off in v2[x].slots <==> off in w[x].slots
                      ensures off in v2[x].slots ==> w[x].slots[off] == v2[x].slots[off]
      {
        assert KeptOutside(v2, w, c, Slot(x, off));
      }
      assert w[x].slots == v2[x].slots;
    }
  }

  /** A toast whose chunks all stay inside keeps them inside, unless the link leads out. */
  lemma RewrittenHome(v2: View, w: View, c: seq<Slot>, text: seq<byte>, link: Link, t: nat)
    requires Rewritten(v2, w, c, text, link, |c|) && AllPresent(v2, c) && Home(v2, t) && !link.LeadTo?
    ensures Home(w, t)
  {
    assert SameShell(v2, w, t);
    forall off: nat | off in w[t].slots ensures w[t].slots[off].toastIndex == t {
      var s := Slot(t, off);
      assert KeptOutside(v2, w, c, s);
      if s in c {
        var i :| 0 <= i < |c| && c[i] == s;
        assert ChunkState(v2, w, c, text, link, |c|, i);
      }
    }
  }

  /** After the rewriting loop the first m of the text's own slots carry the new text. */
  lemma RewrittenThreaded(ed: Edit, v2: View, w: View, m: nat, link: Link)
    requires Readied(ed, v2) && 0 < m <= |ed.was| && Chain(v2, ed.s, m) == ed.was[..m]
    requires Rewritten(v2, w, Chain(v2, ed.s, m), ed.text, link, m)
    requires link.LeadTo? ==> var t := FirstToast(ed.v, ed.o); t in v2 && v2[t].Toast? && Left(v2[t]) == 0
    ensures ed.Threaded(w, m) && ed.Around(w)
    ensures HasChunk(v2, ed.was[m - 1]) && Chain(w, ed.s, m) == ed.was[..m]
    ensures NextSlot(w, Chain(w, ed.s, m)[m - 1]) == NextOf(TextFiles.Relinked(ChunkAt(v2, ed.was[m - 1]), link))
  {
    var c, owner' := Chain(v2, ed.s, m), ed.NewOwners();
    assert ed.was == c + ed.was[m..];
    NoDuplicatesConcat(c, ed.was[m..]);
    forall s | s in c ensures SlotOk(v2, owner', ed.o, s) && s in ed.was {
    }
    SlotsPresent(v2, owner', ed.o, c);
    assert ed.was[m - 1] == c[m - 1];
    RewrittenChain(v2, w, ed.s, m, ed.text, link);
    forall s | s in c ensures SlotOk(w, owner', ed.o, s) {
      RewrittenSlot(v2, w, owner', ed.o, c, ed.text, link, s);
    }
    forall s: Slot ensures KeptBeside(ed.v, w, ed.owner, owner', ed.o, ed.was, s) {
      assert KeptBeside(ed.v, v2, ed.owner, owner', ed.o, [], s);
      if SlotOk(ed.v, ed.owner, ed.o, s) {
        RewrittenSlot(v2, w, owner', ed.o, c, ed.text, link, s);
      }
    }
    RewrittenAround(ed, v2, w, c, link);
  }

  lemma RewrittenAround(ed: Edit, v2: View, w: View, c: seq<Slot>, link: Link)
    requires ed.Around(v2) && SlotsOk(v2, ed.NewOwners(), ed.o, c) && AllPresent(v2, c)
    requires Rewritten(v2, w, c, ed.text, link, |c|)
    requires link.LeadTo? ==> var t := FirstToast(ed.v, ed.o); t in v2 && v2[t].Toast? && Left(v2[t]) == 0
    ensures ed.Around(w)
  {
    var owner' := ed.NewOwners();
    assert SameShell(v2, w, ed.o);
    forall x: nat ensures KeptBlock(ed.v, w, ed.owner, ed.o, ed.n, x) {
      assert KeptBlock(ed.v, v2, ed.owner, ed.o, ed.n, x);
      forall s | s in c ensures s.toast in owner' && owner'[s.toast] == ed.o {
        assert SlotOk(v2, owner', ed.o, s);
      }
      if x in v2 && !(x in owner' && owner'[x] == ed.o) {
        RewrittenBlock(v2, w, c, ed.text, link, |c|, x);
      }
    }
    forall t: nat ensures OwnToastOk(w, owner', ed.o, t) && RoomKept(ed.v, w, t) {
      assert OwnToastOk(v2, owner', ed.o, t) && SameShell(v2, w, t) && RoomKept(ed.v, v2, t);
      if t in v2 && Home(v2, t) && !link.LeadTo? {
        RewrittenHome(v2, w, c, ed.text, link, t);
      }
    }
  }

  // ---------- the element itself ----------

  /** The size updateElement stores for a text that gets longer or shorter: never a multiple of 32. */
  function PaddedSize(length: nat): (size: nat)
    ensures size % CHUNK_SIZE != 0 && length <= size <= length + 1
  {
    if length % CHUNK_SIZE == 0 then length + 1 else length
  }

  /** The bytes of s that are copied when s is stored under this size. */
  function CarriedBytes(s: CString, size: nat): seq<byte> {
    if size == TextSize(s) then CopiedText(s) else s + [0]
  }

  /** What reads back when s is stored under this size. */
  function ReadsAs(s: CString, size: nat): CString {
    if size == TextSize(s) then StoredText(s) else s
  }

  lemma ReadsBack(view: View, c: seq<Slot>, s: CString, size: nat)
    requires NulFree(s) && (size == TextSize(s) || size == PaddedSize(TextSize(s)))
    requires AllPresent(view, c) && |c| == Chunks(size) && ChainCarries(view, c, CarriedBytes(s, size))
    ensures 0 in ReadBuffer(view, c, size)
    ensures CStringOf(ReadBuffer(view, c, size)) == ReadsAs(s, size)
  {
    if size == TextSize(s) {
      ReadBackBuffer(view, c, s);
    } else {
      CarriedRead(view, c, s + [0]);
      assert ReadBuffer(view, c, size)[|s|] == (s + [0])[|s|];
      CarriedText(view, c, size, s);
    }
  }

  /** Element i of the document under edit, with a new size. */
  ghost function Resized(ed: Edit, w: View, i: nat, size: nat): View
    requires IsDoc(ed.v, ed.o) && i < |ed.v[ed.o].elements| && ed.v[ed.o].elements[i].SText?
  {
    w[ed.o := Document(ed.v[ed.o].header, ed.v[ed.o].elements[i := ed.v[ed.o].elements[i].(size := size)])]
  }

  /** The edit is about the text of element i. */
  ghost predicate Targets(ed: Edit, i: nat) {
    && IsDoc(ed.v, ed.o) && i < |ed.v[ed.o].elements| && ed.v[ed.o].elements[i].SText?
    && ed.s == Slot(FirstToast(ed.v, ed.o), ed.v[ed.o].elements[i].offsetInToast)
    && ed.was == ChainOf(ed.v, FirstToast(ed.v, ed.o), ed.v[ed.o].elements[i])
  }

  /** Rewriting the element's header does not touch the slots. */
  lemma ResizedUpdated(ed: Edit, w: View, i: nat, s: CString, size: nat)
    requires Targets(ed, i) && ed.Around(w) && NulFree(s)
    requires size == TextSize(s) || size == PaddedSize(TextSize(s))
    requires ed.text == CarriedBytes(s, size) && ed.Threaded(w, Chunks(size))
    ensures var w' := Resized(ed, w, i, size); var e := w'[ed.o].elements[i];
            && Updated(ed.v, w', ed.owner, ed.NewOwners(), ed.o, i, e)
            && ChainOf(w', FirstToast(ed.v, ed.o), e) == Chain(w, ed.s, Chunks(size))
            && AllPresent(w', ChainOf(w', FirstToast(ed.v, ed.o), e))
            && ValueOf(w', FirstToast(ed.v, ed.o), e) == TextValue(ReadsAs(s, size))
  {
    var w', owner', m := Resized(ed, w, i, size), ed.NewOwners(), Chunks(size);
    var c := Chain(w, ed.s, m);
    ChainFrame(w, w', ed.s, m);
    forall x | x in c ensures SlotOk(w', owner', ed.o, x) {
      assert SlotOk(w, owner', ed.o, x);
    }
    forall x: Slot ensures KeptBeside(ed.v, w', ed.owner, owner', ed.o, ed.was, x) {
      assert KeptBeside(ed.v, w, ed.owner, owner', ed.o, ed.was, x);
    }
    SlotsPresent(w', owner', ed.o, c);
    forall j: nat | j < m ensures Carries(w', c[j], ed.text, j) {
      assert Carries(w, c[j], ed.text, j);
    }
    ReadsBack(w', c, s, size);
  }

  /** A text update is complete: the file is in order, the new text reads back, every other field reads as before. */
  lemma Completed(ed: Edit, w: View, i: nat, s: CString, size: nat, l: seq<nat>,
                  index: seq<IndexEntry>, index': seq<IndexEntry>, tree: Forest)
    requires RecordsOk(ed.v, index, tree, ed.owner) && ed.o in Orders(tree) && DocOk(ed.v, ed.owner, ed.o)
    requires Targets(ed, i) && ed.Around(w) && NulFree(s)
    requires size == TextSize(s) || size == PaddedSize(TextSize(s))
    requires ed.text == CarriedBytes(s, size) && ed.Threaded(w, Chunks(size))
    requires ToastListOk(w, ed.NewOwners(), ed.o, FirstToast(ed.v, ed.o), l)
    requires forall x: nat :: StaysAlive(index, index', x)
    requires ed.n != 0 ==> Appeared(index, index', ed.n)
    ensures var w' := Resized(ed, w, i, size);
            && RecordsOk(w', index', tree, ed.NewOwners())
            && ChainOf(w', FirstToast(w', ed.o), w'[ed.o].elements[i]) == Chain(w, ed.s, Chunks(size))
            && FieldUpdated(ed.v, w', tree, ed.o, i, TextValue(ReadsAs(s, size)))
  {
    var w', owner' := Resized(ed, w, i, size), ed.NewOwners();
    CompletedDoc(ed, w, w', i, s, size, l);
    forall x: nat ensures KeptBlock(ed.v, w', ed.owner, ed.o, ed.n, x) {
      assert KeptBlock(ed.v, w, ed.owner, ed.o, ed.n, x);
    }
    forall t: nat ensures OwnToastOk(w', owner', ed.o, t) && RoomKept(ed.v, w', t) {
      assert OwnToastOk(w, owner', ed.o, t) && RoomKept(ed.v, w, t);
    }
    UpdatedOk(ed.v, w', index, index', tree, ed.owner, owner', ed.o, ed.n);
  }

  /** The document itself: well formed, and only the one field reads differently. */
  lemma CompletedDoc(ed: Edit, w: View, w': View, i: nat, s: CString, size: nat, l: seq<nat>)
    requires DocOk(ed.v, ed.owner, ed.o) && Targets(ed, i) && ed.Around(w) && NulFree(s)
    requires size == TextSize(s) || size == PaddedSize(TextSize(s))
    requires ed.text == CarriedBytes(s, size) && ed.Threaded(w, Chunks(size))
    requires ToastListOk(w, ed.NewOwners(), ed.o, FirstToast(ed.v, ed.o), l) && w' == Resized(ed, w, i, size)
    ensures DocOk(w', ed.NewOwners(), ed.o)
    ensures AllPresent(ed.v, SlotsOf(ed.v, ed.o)) && AllPresent(w', SlotsOf(w', ed.o))
    ensures Fields(w', ed.o) == Fields(ed.v, ed.o)[i := Field(ed.v[ed.o].elements[i].key, TextValue(ReadsAs(s, size)))]
    ensures ChainOf(w', FirstToast(w', ed.o), w'[ed.o].elements[i]) == Chain(w, ed.s, Chunks(size))
  {
    var owner' := ed.NewOwners();
    ResizedUpdated(ed, w, i, s, size);
    forall t | t in l ensures SameNext(w, w', t) && Owns(w', owner', ed.o, t) {
      assert Owns(w, owner', ed.o, t);
    }
    ToastListFrame(w, w', FirstToast(ed.v, ed.o), l);
    UpdatedDoc(ed.v, w', ed.owner, owner', ed.o, i, w'[ed.o].elements[i], l);
    UpdatedFields(ed.v, w', ed.owner, owner', ed.o, i, w'[ed.o].elements[i]);
  }

  /** In document o field i has a new value; its other fields and all other documents read as before. */
  datatype FieldUpdate = FieldUpdate(v: View, w: View, tree: Forest, o: nat, i: nat, value: Value) {
    ghost predicate Done() {
      match this
      case FieldUpdate(v, w, tree, o, i, value) =>
        && IsDoc(v, o) && IsDoc(w, o) && w[o].header == v[o].header
        && AllPresent(v, SlotsOf(v, o)) && AllPresent(w, SlotsOf(w, o))
        && i < |v[o].elements|
        && Fields(w, o) == Fields(v, o)[i := Field(v[o].elements[i].key, value)]
        && forall x {:trigger ReadsSame(v, w, x)} :: x in Orders(tree) && x != o ==> ReadsSame(v, w, x)
    }
  }

  ghost predicate FieldUpdated(v: View, w: View, tree: Forest, o: nat, i: nat, value: Value) {
    FieldUpdate(v, w, tree, o, i, value).Done()
  }
}
