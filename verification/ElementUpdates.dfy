/** updateElement: looks an element up by its key and changes its value in place. */
module ElementUpdates {
  import opened Blocks
  import opened FreeLists
  import opened Texts
  import opened Records
  import opened Forests
  import opened Catalogs
  import opened Storage
  import opened DocIterators
  import opened TextThreads
  import opened TextUpdates

  datatype UpdateStatus = UPDATE_OK | INVALID_NAME | ELEMENT_NOT_FOUND | TYPE_PARSE_ERROR

  const TRUE_TEXT: CString := [116, 114, 117, 101]

  function Str2Boolean(input: CString): byte {
    if input == TRUE_TEXT then 1 else 0
  }

  /** What the client sends: the text, and what str2int and str2double make of it. */
  datatype Input = Input(text: CString, asInt: Option<int>, asDouble: Option<nat>)

  /** The number of the first element with this key, or the number of elements. */
  ghost function KeyIndex(es: seq<Stored>, key: CString): (i: nat)
    ensures i <= |es| && (i < |es| ==> es[i].key == key)
    ensures forall j :: 0 <= j < i ==> es[j].key != key
  {
    if es == [] || es[0].key == key then 0
    else
      var i := KeyIndex(es[1..], key);
      assert forall j :: 0 < j < 1 + i ==> es[j] == es[1..][j - 1];
      1 + i
  }

  predicate Parses(e: Stored, input: Input) {
    match e
    case SInt(_, _) => input.asInt.Some?
    case SDouble(_, _) => input.asDouble.Some?
    case _ => true
  }

  /** The value an element has after a successful update. A boolean is true exactly for the text "true". A text is the
      new one, but without its last 31 characters if its size with terminator stays and is a multiple of 32. */
  ghost function NewValue(e: Stored, input: Input): Value
    requires Parses(e, input)
  {
    match e
    case SInt(_, _) => IntValue(input.asInt.value)
    case SDouble(_, _) => DoubleValue(input.asDouble.value)
    case SBool(_, _) => BoolValue(if input.text == [116, 114, 117, 101] then 1 else 0)
    case SText(_, size, _) =>
      TextValue(if |input.text| + 1 == size && size % 32 == 0 then input.text[..|input.text| - 31] else input.text)
  }

  /** The element as it is stored then; the size of a text that changes never becomes a multiple of 32. */
  ghost function NewStored(e: Stored, input: Input): Stored
    requires Parses(e, input)
  {
    match e
    case SInt(key, _) => SInt(key, input.asInt.value)
    case SDouble(key, _) => SDouble(key, input.asDouble.value)
    case SBool(key, _) => SBool(key, if input.text == [116, 114, 117, 101] then 1 else 0)
    case SText(key, size, offset) =>
      var n := |input.text| + 1;
      SText(key, if n == size || n % 32 != 0 then n else n + 1, offset)
  }

  /** A text reads back exactly if its size changes or is no multiple of 32; if it changes, the new size is none. */
  lemma TextReadsIff(e: Stored, input: Input)
    requires e.SText?
    ensures NewValue(e, input) == TextValue(input.text) <==> |input.text| + 1 != e.size || e.size % 32 != 0
    ensures |input.text| + 1 != e.size ==> NewStored(e, input).size % 32 != 0
  {
  }

  ghost function ExpectedStatus(es: seq<Stored>, key: CString, input: Input): UpdateStatus {
    if |key| > KEY_SIZE then INVALID_NAME
    else if KeyIndex(es, key) == |es| then ELEMENT_NOT_FOUND
    else if Parses(es[KeyIndex(es, key)], input) then UPDATE_OK
    else TYPE_PARSE_ERROR
  }

  /** Too long a key comes first, then a key that no element has; then the first element with the key decides, which
      only as a number can fail to parse. */
  lemma StatusIff(es: seq<Stored>, key: CString, input: Input)
    ensures ExpectedStatus(es, key, input) == INVALID_NAME <==> |key| > 13
    ensures ExpectedStatus(es, key, input) == ELEMENT_NOT_FOUND <==> |key| <= 13 && forall e :: e in es ==> e.key != key
    ensures ExpectedStatus(es, key, input) == TYPE_PARSE_ERROR <==>
            && |key| <= 13
            && exists i ::
                 && 0 <= i < |es| && es[i].key == key && (forall j :: 0 <= j < i ==> es[j].key != key)
                 && if es[i].SInt? then input.asInt == None else es[i].SDouble? && input.asDouble == None
  {
    var i := KeyIndex(es, key);
    if i < |es| {
      assert es[i] in es;
    }
  }

  /** Writing a number over a number keeps the file in order and changes that field only. */
  lemma ScalarUpdated(v: View, index: seq<IndexEntry>, tree: Forest, owner: Owners, o: nat, i: nat, e: Stored)
    requires RecordsOk(v, index, tree, owner) && o in Orders(tree) && IsDoc(v, o) && i < |v[o].elements|
    requires !v[o].elements[i].SText? && !e.SText? && e.key == v[o].elements[i].key
    ensures var w := v[o := Document(v[o].header, v[o].elements[i := e])];
            && RecordsOk(w, index, tree, owner)
            && FieldUpdated(v, w, tree, o, i, ValueOf(w, FirstToast(v, o), e))
  {
    var w, t := v[o := Document(v[o].header, v[o].elements[i := e])], FirstToast(v, o);
    EncodesOrders(v, v[0].header.indexSon, tree);
    NodeFacts(v, index, tree, owner, o);
    var l :| ToastListOk(v, owner, o, t, l);
    forall x | x in l ensures SameNext(v, w, x) && Owns(w, owner, o, x) {
      assert Owns(v, owner, o, x);
    }
    ToastListFrame(v, w, t, l);
    forall s: Slot ensures KeptBeside(v, w, owner, owner, o, [], s) {
    }
    assert Updated(v, w, owner, owner, o, i, e);
    UpdatedDoc(v, w, owner, owner, o, i, e, l);
    UpdatedFields(v, w, owner, owner, o, i, e);
    forall x: nat ensures KeptBlock(v, w, owner, o, 0, x) {
    }
    forall x: nat ensures OwnToastOk(w, owner, o, x) && RoomKept(v, w, x) {
      assert ToastOk(v, index, tree, owner, x);
    }
    UpdatedOk(v, w, index, index, tree, owner, owner, o, 0);
  }

  /** The cases TYPE_BOOLEAN, TYPE_INT and TYPE_DOUBLE. */
  method UpdateScalar(file: ZgdbFile, o: nat, i: nat, e: Stored)
    requires Consistent(file) && o in Orders(file.tree) && IsDoc(file.View(), o) && i < |file.View()[o].elements|
    requires !file.View()[o].elements[i].SText? && !e.SText? && e.key == file.View()[o].elements[i].key
    modifies file`blocks
    ensures ElementDone(file, old(file.View()), o, i, e, ValueOf(file.View(), FirstToast(old(file.View()), o), e), None)
  {
    ghost var v := file.View();
    ghost var w := v[o := Document(v[o].header, v[o].elements[i := e])];
    ScalarUpdated(v, file.index, file.tree, file.owner, o, i, e);
    SetElement(file, o, i, e);
    assert file.View() == w;
    GrownOnDisk(file, o, None);
  }

  /** Reads element i as nextEl does without its text. */
  function ReadElement(file: ZgdbFile, o: nat, i: nat): (e: Stored)
    requires file.Valid() && IsDoc(file.View(), o) && i < |file.View()[o].elements|
    reads file, file.freeList, file.freeList.Repr
    ensures e == file.View()[o].elements[i]
  {
    file.ReadBlock(o).elements[i]
  }

  /** The element is e' and its field has this value, all else reads as before; the file is in order but for the header
      of index q, if any. */
  ghost predicate ElementDone(file: ZgdbFile, v: View, o: nat, i: nat, e': Stored, value: Value, q: Option<nat>)
    reads file, file.freeList, file.freeList.Repr
  {
    && IsDoc(v, o) && i < |v[o].elements| && IsDoc(file.View(), o) && file.View()[o].elements == v[o].elements[i := e']
    && Restorable(file) && file.zeroed == ZgdbFile.OffsetOf(file.index, q) && (file.zeroed == {} <==> q.None?)
    && FieldUpdated(v, file.View(), file.tree, o, i, value)
    && (q != Some(o) ==> ReadsOnDisk(file, o, Fields(file.View(), o)))
  }

  /** The switch over the type of the element found; false if the input does not parse. */
  method UpdateFound(file: ZgdbFile, o: nat, firstToastIndex: nat, i: nat, e: Stored, input: Input) returns (ok: bool)
    requires Consistent(file) && o in Orders(file.tree) && IsDoc(file.View(), o) && i < |file.View()[o].elements|
    requires firstToastIndex == FirstToast(file.View(), o) && e == file.View()[o].elements[i]
    requires NulFree(input.text) && CanUpdate(file, o, i, input.text)
    modifies file`index, file`blocks, file`zeroed, file`fileSize, file`layout, file`owner, file.freeList.Repr
    ensures ok <==> Parses(e, input)
    ensures fresh(file.freeList.Repr - old(file.freeList.Repr))
    ensures Spent(old(file.freeList.entries), file.freeList.entries, 1)
    ensures ok ==>
              Lengthens(old(file.freeList.entries), old(file.View()), o, i, input.text,
                        file.fileSize - old(file.fileSize))
    ensures !ok ==>
              Consistent(file) && file.Image() == old(file.Image()) && file.owner == old(file.owner)
              && file.freeList.entries == old(file.freeList.entries)
    ensures ok ==>
              (Consistent(file) <==>
               !old(GrowsAway(file.View(), o, i, input.text)) && old(Missing(file, o, i, input.text)).None?)
    ensures ok && !old(GrowsAway(file.View(), o, i, input.text)) ==>
              ElementDone(file, old(file.View()), o, i, NewStored(e, input), NewValue(e, input),
                          old(Missing(file, o, i, input.text)))
    ensures ok && old(GrowsAway(file.View(), o, i, input.text)) ==>
              e.SText? && 0 in old(file.View())
              && RootDamaged(file, old(file.View())[0], old(Missing(file, o, i, input.text)) != Some(0),
                             Lacking(e, input.text))
  {
    hide RootDamaged, ZgdbFile.Standing, ReadsOnDisk;
    ok := true;
    match e {
      case SBool(key, _) =>
        UpdateScalar(file, o, i, SBool(key, Str2Boolean(input.text)));
      case SInt(key, _) =>
        if input.asInt == None {
          return false;
        }
        UpdateScalar(file, o, i, SInt(key, input.asInt.value));
      case SDouble(key, _) =>
        if input.asDouble == None {
          return false;
        }
        UpdateScalar(file, o, i, SDouble(key, input.asDouble.value));
      case SText(_, _, _) =>
        UpdateText(file, o, firstToastIndex, i, e, input.text);
    }
  }

  /** The element loop: stops at the first element with the key. */
  method FindElement(file: ZgdbFile, header: Header, key: CString) returns (passed: nat)
    requires file.Valid() && IsDoc(file.View(), header.indexAttached)
    requires header.attrCount == |file.View()[header.indexAttached].elements|
    ensures passed == KeyIndex(file.View()[header.indexAttached].elements, key)
  {
    ghost var es := file.View()[header.indexAttached].elements;
    passed := 0;
    while passed < header.attrCount
      invariant passed <= |es| && forall j :: 0 <= j < passed ==> es[j].key != key
    {
      var e := ReadElement(file, header.indexAttached, passed);
      if key == e.key {
        return;
      }
      passed := passed + 1;
    }
  }

  method UpdateElement(file: ZgdbFile, doc: Doc, key: CString, input: Input) returns (status: UpdateStatus)
    requires Consistent(file) && doc.header.indexAttached in Orders(file.tree)
    requires IsDoc(file.View(), doc.header.indexAttached)
    requires doc.header.firstToastIndex == FirstToast(file.View(), doc.header.indexAttached)
    requires doc.header.attrCount == file.View()[doc.header.indexAttached].header.attrCount
    requires NulFree(input.text)
    requires var o := doc.header.indexAttached; CanUpdate(file, o, KeyIndex(file.View()[o].elements, key), input.text)
    modifies file`index, file`blocks, file`zeroed, file`fileSize, file`layout, file`owner, file.freeList.Repr
    ensures fresh(file.freeList.Repr - old(file.freeList.Repr))
    ensures Spent(old(file.freeList.entries), file.freeList.entries, 1)
    ensures status == ExpectedStatus(old(file.View())[doc.header.indexAttached].elements, key, input)
    ensures status != UPDATE_OK ==>
              && Consistent(file) && file.Image() == old(file.Image()) && file.owner == old(file.owner)
              && file.freeList.entries == old(file.freeList.entries)
    ensures status == UPDATE_OK ==>
              var o := doc.header.indexAttached; var i := KeyIndex(old(file.View())[o].elements, key);
              var v, q := old(file.View()), old(Missing(file, o, i, input.text));
              && (Consistent(file) <==> !GrowsAway(v, o, i, input.text) && q.None?)
              && (!GrowsAway(v, o, i, input.text) ==>
                    ElementDone(file, v, o, i, NewStored(v[o].elements[i], input), NewValue(v[o].elements[i], input),
                                q))
              && Lengthens(old(file.freeList.entries), v, o, i, input.text, file.fileSize - old(file.fileSize))
              && (GrowsAway(v, o, i, input.text) ==>
                    0 in v && RootDamaged(file, v[0], q != Some(0), Lacking(v[o].elements[i], input.text)))
  {
    hide ZgdbFile.Standing, FreeList.Valid, ElementDone, RootDamaged;
    if |key| > 13 {
      return INVALID_NAME;
    }
    ghost var v, o := file.View(), doc.header.indexAttached;
    EncodesOrders(v, v[0].header.indexSon, file.tree);
    NodeFacts(v, file.index, file.tree, file.owner, o);
    var passed := FindElement(file, doc.header, key);
    if passed == doc.header.attrCount {
      return ELEMENT_NOT_FOUND;
    }
    var entry := ReadElement(file, doc.header.indexAttached, passed);
    var ok := UpdateFound(file, doc.header.indexAttached, doc.header.firstToastIndex, passed, entry, input);
    status := if ok then UPDATE_OK else TYPE_PARSE_ERROR;
  }
}
