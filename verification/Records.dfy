/** What a stored document means, and when its parts hang together. */
module Records {
  import opened Blocks
  import opened Tilings
  import opened Texts
  import opened Forests

  /** The value of an element as a client sees it. */
  datatype Value = IntValue(i: int) | DoubleValue(bits: nat) | BoolValue(b: byte) | TextValue(s: CString)

  datatype Field = Field(key: CString, value: Value)

  // ---------- reading ----------

  /** The slots of an element's text in a document whose first toast is t. */
  ghost function ChainOf(view: View, t: nat, e: Stored): seq<Slot> {
    match e
    case SText(_, size, offset) => Chain(view, Slot(t, offset), Chunks(size))
    case _ => []
  }

  ghost function ChainsOf(view: View, t: nat, es: seq<Stored>): seq<Slot> {
    if es == [] then [] else ChainOf(view, t, es[0]) + ChainsOf(view, t, es[1..])
  }

  ghost function ValueOf(view: View, t: nat, e: Stored): Value
    requires AllPresent(view, ChainOf(view, t, e))
  {
    match e
    case SInt(_, v) => IntValue(v)
    case SDouble(_, bits) => DoubleValue(bits)
    case SBool(_, v) => BoolValue(v)
    case SText(_, size, offset) => TextValue(CStringOf(ReadBuffer(view, ChainOf(view, t, e), size)))
  }

  ghost function FieldsOf(view: View, t: nat, es: seq<Stored>): (f: seq<Field>)
    requires AllPresent(view, ChainsOf(view, t, es))
    ensures |f| == |es|
  {
    if es == [] then [] else [Field(es[0].key, ValueOf(view, t, es[0]))] + FieldsOf(view, t, es[1..])
  }

  ghost function FirstToast(view: View, o: nat): nat
    requires IsDoc(view, o)
  {
    view[o].header.firstToastIndex
  }

  /** The slots in which a document's texts live. */
  ghost function SlotsOf(view: View, o: nat): seq<Slot>
    requires IsDoc(view, o)
  {
    ChainsOf(view, FirstToast(view, o), view[o].elements)
  }

  /** What a client reads from document o: its elements in order. */
  ghost function Fields(view: View, o: nat): seq<Field>
    requires IsDoc(view, o) && AllPresent(view, SlotsOf(view, o))
  {
    FieldsOf(view, FirstToast(view, o), view[o].elements)
  }

  // ---------- well-formedness ----------

  type Owners = map<nat, nat>

  ghost predicate Owns(view: View, owner: Owners, o: nat, t: nat) {
    t in owner && owner[t] == o && t in view && view[t].Toast?
  }

  /** A slot that document o may use: in a toast of its own, below the used mark. */
  ghost predicate SlotOk(view: View, owner: Owners, o: nat, s: Slot) {
    && HasChunk(view, s) && Owns(view, owner, o, s.toast)
    && s.offset % SLOT == 0 && s.offset < view[s.toast].used * SLOT
  }

  ghost predicate SlotsOk(view: View, owner: Owners, o: nat, c: seq<Slot>) {
    forall s {:trigger SlotOk(view, owner, o, s)} :: s in c ==> SlotOk(view, owner, o, s)
  }

  /** A text has at least its terminator, and the chunk reader's buffer holds a terminator for strcpy to find. */
  ghost predicate TextOk(view: View, t: nat, e: Stored) {
    e.SText? ==>
      && e.size > 0
      && AllPresent(view, ChainOf(view, t, e))
      && 0 in ReadBuffer(view, ChainOf(view, t, e), e.size)
  }

  ghost predicate TextsOk(view: View, t: nat, es: seq<Stored>) {
    es == [] || (TextOk(view, t, es[0]) && TextsOk(view, t, es[1..]))
  }

  /** l is the list of toasts linked through nextToastIndex from t. */
  ghost predicate IsToastList(view: View, t: nat, l: seq<nat>)
    decreases l
  {
    if l == [] then t == 0
    else t == l[0] != 0 && t in view && view[t].Toast? && IsToastList(view, view[t].nextToastIndex, l[1..])
  }

  ghost predicate OwnsAll(view: View, owner: Owners, o: nat, l: seq<nat>) {
    forall t {:trigger Owns(view, owner, o, t)} :: t in l ==> Owns(view, owner, o, t)
  }

  ghost predicate ToastListOk(view: View, owner: Owners, o: nat, t: nat, l: seq<nat>) {
    IsToastList(view, t, l) && NoDuplicates(l) && OwnsAll(view, owner, o, l)
  }

  /** Document o's texts lie in disjoint slots of its own toasts, and so do the toasts it will free. */
  ghost predicate DocOk(view: View, owner: Owners, o: nat) {
    && IsDoc(view, o)
    && SlotsOk(view, owner, o, SlotsOf(view, o))
    && NoDuplicates(SlotsOf(view, o))
    && TextsOk(view, FirstToast(view, o), view[o].elements)
    && view[o].header.attrCount == |view[o].elements|
    && exists l :: ToastListOk(view, owner, o, FirstToast(view, o), l)
  }

  /** The slots a toast counts fit behind its header. */
  ghost predicate ToastFits(b: Block) {
    b.Toast? && TOAST_HEADER + b.used * SLOT <= b.capacity
  }

  /** The slots still free behind the counted ones. */
  function Left(b: Block): int
    requires b.Toast?
  {
    (b.capacity - TOAST_HEADER) / SLOT - b.used
  }

  /** Every chunk of toast t leads to another slot of t. */
  ghost predicate Home(view: View, t: nat) {
    t in view && view[t].Toast? && LeadHome(view[t].slots, t)
  }

  /** Chunks lead out of a document's first toast only once that is full; no other toast of it has a successor. */
  ghost predicate Settled(view: View, o: nat, t: nat) {
    && IsDoc(view, o) && t in view && view[t].Toast?
    && if t == FirstToast(view, o) then Home(view, t) || Left(view[t]) == 0 else view[t].nextToastIndex == 0
  }

  lemma SlotsPresent(view: View, owner: Owners, o: nat, c: seq<Slot>)
    requires SlotsOk(view, owner, o, c)
    ensures AllPresent(view, c)
  {
    forall s | s in c ensures HasChunk(view, s) {
      assert SlotOk(view, owner, o, s);
    }
  }

  // ---------- element sequences taken apart ----------

  lemma {:induction false} ChainsConcat(view: View, t: nat, a: seq<Stored>, b: seq<Stored>)
    ensures ChainsOf(view, t, a + b) == ChainsOf(view, t, a) + ChainsOf(view, t, b)
  {
    if a == [] {
      assert a + b == b;
    } else {
      var rest, first := a[1..], ChainOf(view, t, a[0]);
      assert (a + b)[1..] == rest + b;
      ChainsConcat(view, t, rest, b);
      assert first + (ChainsOf(view, t, rest) + ChainsOf(view, t, b)) == first + ChainsOf(view, t, rest)
          + ChainsOf(view, t, b);
    }
  }

  lemma {:induction false} TextsConcat(view: View, t: nat, a: seq<Stored>, b: seq<Stored>)
    ensures TextsOk(view, t, a + b) <==> TextsOk(view, t, a) && TextsOk(view, t, b)
  {
    if a == [] {
      assert a + b == b;
    } else {
      assert (a + b)[1..] == a[1..] + b;
      TextsConcat(view, t, a[1..], b);
    }
  }

  lemma {:induction false} FieldsConcat(view: View, t: nat, a: seq<Stored>, b: seq<Stored>)
    requires AllPresent(view, ChainsOf(view, t, a)) && AllPresent(view, ChainsOf(view, t, b))
    ensures AllPresent(view, ChainsOf(view, t, a + b))
    ensures FieldsOf(view, t, a + b) == FieldsOf(view, t, a) + FieldsOf(view, t, b)
  {
    if a == [] {
      assert a + b == b;
    } else {
      var rest, first := a[1..], [Field(a[0].key, ValueOf(view, t, a[0]))];
      assert (a + b)[1..] == rest + b;
      ChainsConcat(view, t, rest, b);
      FieldsConcat(view, t, rest, b);
      assert first + (FieldsOf(view, t, rest) + FieldsOf(view, t, b)) == first + FieldsOf(view, t, rest)
          + FieldsOf(view, t, b);
    }
  }

  // ---------- frames ----------

  /** Two views agree on a toast: same bytes, same header. */
  ghost predicate SameToast(view: View, view': View, t: nat) {
    t in view' && t in view && view'[t] == view[t]
  }

  /** Two views agree on the elements of document o and on every toast of o. */
  ghost predicate SameRecord(view: View, view': View, owner: Owners, owner': Owners, o: nat) {
    && IsDoc(view, o) && IsDoc(view', o)
    && view'[o].elements == view[o].elements
    && FirstToast(view', o) == FirstToast(view, o)
    && view'[o].header.attrCount == view[o].header.attrCount
    && (forall t :: Owns(view, owner, o, t) ==> SameToast(view, view', t) && Owns(view', owner', o, t))
  }

  lemma {:induction false} ReadChainFrame(view: View, view': View, c: seq<Slot>)
    requires AllPresent(view, c) && AllPresent(view', c)
    requires forall s :: s in c ==> ChunkAt(view', s).data == ChunkAt(view, s).data
    ensures ReadChain(view', c) == ReadChain(view, c)
  {
    if c != [] {
      ReadChainFrame(view, view', c[1..]);
    }
  }

  /** Chains whose slots are untouched stay the same chains and read the same. */
  lemma {:induction false} ChainsFrame(view: View, view': View, t: nat, es: seq<Stored>)
    requires AllPresent(view, ChainsOf(view, t, es))
    requires forall s :: s in ChainsOf(view, t, es) ==> HasChunk(view', s) && ChunkAt(view', s) == ChunkAt(view, s)
    ensures ChainsOf(view', t, es) == ChainsOf(view, t, es)
    ensures AllPresent(view', ChainsOf(view, t, es))
    ensures FieldsOf(view', t, es) == FieldsOf(view, t, es)
    ensures TextsOk(view, t, es) ==> TextsOk(view', t, es)
  {
    if es != [] {
      var c := ChainOf(view, t, es[0]);
      ChainsFrame(view, view', t, es[1..]);
      if es[0].SText? {
        var s, n := Slot(t, es[0].offsetInToast), Chunks(es[0].size);
        forall i | 0 <= i < |c| - 1 ensures NextSlot(view', c[i]) == NextSlot(view, c[i]) {
          assert c[i] in ChainsOf(view, t, es);
        }
        ChainFrame(view, view', s, n);
        ReadChainFrame(view, view', c);
      }
    }
  }

  ghost predicate SameNext(view: View, view': View, t: nat) {
    && t in view && view[t].Toast? && t in view' && view'[t].Toast?
    && view'[t].nextToastIndex == view[t].nextToastIndex
  }

  lemma {:induction false} ToastListFrame(view: View, view': View, t: nat, l: seq<nat>)
    requires IsToastList(view, t, l)
    requires forall x :: x in l ==> SameNext(view, view', x)
    ensures IsToastList(view', t, l)
    decreases l
  {
    if l != [] {
      assert l[0] in l && SameNext(view, view', l[0]);
      ToastListFrame(view, view', view[t].nextToastIndex, l[1..]);
    }
  }

  /** A document whose elements and toasts are untouched stays well formed and reads the same. */
  lemma RecordFrame(view: View, view': View, owner: Owners, owner': Owners, o: nat)
    requires DocOk(view, owner, o) && SameRecord(view, view', owner, owner', o)
    ensures DocOk(view', owner', o)
    ensures AllPresent(view, SlotsOf(view, o)) && AllPresent(view', SlotsOf(view', o))
    ensures Fields(view', o) == Fields(view, o)
  {
    var t, es, c := FirstToast(view, o), view[o].elements, SlotsOf(view, o);
    SlotsPresent(view, owner, o, c);
    forall s | s in c ensures HasChunk(view', s) && ChunkAt(view', s) == ChunkAt(view, s)
        && SlotOk(view', owner', o, s) {
      assert SlotOk(view, owner, o, s);
    }
    ChainsFrame(view, view', t, es);
    var l :| ToastListOk(view, owner, o, t, l);
    forall x | x in l ensures SameNext(view, view', x) && Owns(view', owner', o, x) {
      assert Owns(view, owner, o, x);
    }
    ToastListFrame(view, view', t, l);
    assert ToastListOk(view', owner', o, t, l);
  }

  // ---------- zeroed headers ----------

  /** w is v, but some blocks have lost their headers. */
  ghost predicate Worn(v: View, w: View) {
    v.Keys == w.Keys && forall x :: x in v ==> w[x] == v[x] || w[x] == Torn(v[x])
  }

  /** A document's fields read the same without its header's first bytes and without those of its toasts. */
  lemma WornReads(v: View, w: View, o: nat)
    requires Worn(v, w) && IsDoc(v, o) && AllPresent(v, SlotsOf(v, o))
    ensures IsDoc(w, o) && w[o].header.name == v[o].header.name && w[o].elements == v[o].elements
    ensures SlotsOf(w, o) == SlotsOf(v, o) && AllPresent(w, SlotsOf(w, o)) && Fields(w, o) == Fields(v, o)
  {
    ChainsFrame(v, w, FirstToast(v, o), v[o].elements);
  }
}
