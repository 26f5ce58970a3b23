/** Whole sessions: any list of commands, carried out from a new file on. A command that cannot be carried out is
    refused; the session ends with the first command that damages the file, and notices it. */
module Commands {
  import opened Blocks
  import opened FreeLists
  import opened Disks
  import opened Tilings
  import opened Texts
  import opened Records
  import opened Schemas
  import opened Forests
  import opened Catalogs
  import opened Storage
  import opened DocIterators
  import opened Documents
  import opened TextThreads
  import opened TextUpdates
  import opened ElementUpdates
  import opened Searches
  import opened Sessions
  import opened Snapshots

  // ---------- what a client can see of a file ----------

  /** No header is zeroed and the root document has its size: a file these operations damaged never looks like that. */
  predicate LooksIntact(file: ZgdbFile)
    reads file
  {
    && file.zeroed == {} && 0 < |file.index|
    && file.index[0].offset in file.blocks && Capacity(file.blocks[file.index[0].offset]) == DOC_HEADER
  }

  lemma RestorableLooks(file: ZgdbFile)
    requires Restorable(file)
    ensures LooksIntact(file) <==> file.zeroed == {}
  {
    assert file.Image().Listed(0) && file.View()[0] == file.Image().BlockOf(0);
  }

  // ---------- looking for a document ----------

  lemma {:induction false} LocateRoots(f: Forest, parent: nat, depth: nat, x: nat)
    requires Distinct(f) && x in Orders(f)
    ensures var p := Locate(f, parent, depth, x).parent;
            (p == parent && x in Roots(f)) || (p in Orders(f) && x in Roots(KidsBelow(f, p)))
    decreases f
  {
    DistinctParts(f);
    if f.order != x {
      if x in Orders(f.kids) {
        LocateRoots(f.kids, f.order, depth + 1, x);
        var p := Locate(f.kids, f.order, depth + 1, x).parent;
        if p in Orders(f.kids) { assert p != f.order; }
      } else {
        LocateRoots(f.rest, parent, depth, x);
        var p := Locate(f.rest, parent, depth, x).parent;
        if p in Orders(f.rest) { assert p != f.order && p !in Orders(f.kids); }
      }
    }
  }

  lemma ChildOfParent(tree: Forest, x: nat)
    requires Distinct(tree) && 0 !in Orders(tree) && x in Orders(tree)
    ensures var p := ParentOf(tree, x); (p == 0 || p in Orders(tree)) && x in Roots(Kids(tree, p))
  {
    LocateRoots(tree, 0, 1, x);
  }

  /** Looks for document `order` below the root, the way a client walks the tree. */
  method FindDocument(file: ZgdbFile, order: nat) returns (found: bool, doc: Doc)
    requires Consistent(file)
    ensures found <==> order in Orders(file.tree)
    ensures found ==> Found(file.View(), file.tree, order, doc)
  {
    ghost var tree, view := file.tree, file.View();
    EncodesOrders(view, view[0].header.indexSon, tree);
    var it;
    it, doc := SkipRoot(file, tree);
    ghost var seen: seq<Visit> := [];
    assert [] + it.Remaining() == it.Remaining();
    found := false;
    while !found && it.HasNextDoc()
      invariant Walking(it, file, view, tree, seen) && fresh(it) && fresh(it.pStack) && fresh(it.pStack.data)
      invariant if found then order in Orders(tree) && Found(view, tree, order, doc)
                else forall v :: v in seen ==> v.order != order
      decreases |it.Remaining()|
    {
      doc, seen := NextSeen(file, it, view, tree, seen);
      found := doc.header.indexAttached == order;
    }
    if !found { SeenAll(tree, order, seen); }
  }

  /** The document as a client gets it: header, parent, and that it is one of its parent's children. */
  ghost predicate Found(view: View, tree: Forest, order: nat, doc: Doc) {
    && IsDoc(view, order) && doc == DocAt(view, tree, order) && doc.header.indexAttached == order && !doc.isRoot
    && (doc.indexParent == 0 || doc.indexParent in Orders(tree)) && order in Roots(Kids(tree, doc.indexParent))
  }

  /** The iterator goes through the documents below the root; `seen` is behind it. */
  ghost predicate Walking(it: DocumentIterator, file: ZgdbFile, view: View, tree: Forest, seen: seq<Visit>)
    reads it, it.pStack, it.pStack.data, file, file.freeList, file.freeList.Repr
  {
    && it.Valid() && it.view == view && it.Apart(file) && file.Valid() && file.View() == view
    && Distinct(tree) && 0 !in Orders(tree)
    && Visits(tree, 0, 1) == seen + it.Remaining()
  }

  method NextSeen(file: ZgdbFile, it: DocumentIterator, ghost view: View, ghost tree: Forest, ghost seen: seq<Visit>)
    returns (doc: Doc, ghost seen': seq<Visit>)
    requires Walking(it, file, view, tree, seen) && it.HasNextDoc()
    modifies it`stop, it`next, it`pending, it.pStack, it.pStack.data
    ensures Walking(it, file, view, tree, seen') && (it.pStack.data == old(it.pStack.data) || fresh(it.pStack.data))
    ensures |it.Remaining()| < |old(it.Remaining())|
    ensures seen' == seen + [seen'[|seen|]] && seen'[|seen|].order == doc.header.indexAttached
    ensures doc.header.indexAttached in Orders(tree) && Found(view, tree, doc.header.indexAttached, doc)
  {
    var depth;
    ghost var v;
    doc, depth, v := it.NextDoc(file);
    assert seen + ([v] + it.Remaining()) == (seen + [v]) + it.Remaining();
    seen' := seen + [v];
    assert v in Visits(tree, 0, 1) by { assert seen'[|seen|] == v; }
    VisitsLocate(tree, 0, 1, v);
    ChildOfParent(tree, v.order);
  }

  lemma SeenAll(tree: Forest, order: nat, seen: seq<Visit>)
    requires Distinct(tree) && Visits(tree, 0, 1) == seen && forall v :: v in seen ==> v.order != order
    ensures order !in Orders(tree)
  {
    if order in Orders(tree) {
      LocatesItself(tree, 0, 1, order);
      VisitsLocate(tree, 0, 1, Locate(tree, 0, 1, order));
    }
  }

  lemma {:induction false} LocatesItself(f: Forest, parent: nat, depth: nat, x: nat)
    requires x in Orders(f)
    ensures Locate(f, parent, depth, x).order == x
    decreases f
  {
    if f.order != x {
      if x in Orders(f.kids) {
        LocatesItself(f.kids, f.order, depth + 1, x);
      } else {
        LocatesItself(f.rest, parent, depth, x);
      }
    }
  }

  // ---------- whether the file can serve a command ----------

  /** Every block of `done` has been found whole; `rest` lies from `at` on, and the walk goes on there. */
  datatype Checked = Checked(d: Disk, base: nat, goal: Walked) {
    ghost predicate Stands(done: seq<nat>, rest: seq<nat>, at: nat, need: int, freed: nat) {
      match this
      case Checked(d, base, goal) =>
        && d.OkAt(base) && d.layout == done + rest && Tiles(d.Extents(), rest, at, d.fileSize)
        && (forall o :: o in done ==> o in d.View() && MovedBytes(d.View()[o]) == Capacity(d.View()[o]) > 0)
        && Walk(d.View(), rest + done, need, freed) == goal
    }
  }

  lemma CheckNext(c: Checked, done: seq<nat>, rest: seq<nat>, at: nat, need: int, freed: nat) returns (b: Block)
    requires c.Stands(done, rest, at, need, freed) && need > 0 && at < c.d.fileSize
    ensures rest != [] && at in c.d.blocks && b == c.d.blocks[at] && Capacity(b) > 0
    ensures MovedBytes(b) != Capacity(b) ==> c.goal == Unsafe
    ensures MovedBytes(b) == Capacity(b) ==>
              c.Stands(done + [rest[0]], rest[1..], at + Capacity(b), need - Capacity(b), freed + Capacity(b))
  {
    var o := rest[0];
    assert o in c.d.layout;
    ListedInside(c.d, c.base, o);
    b := c.d.BlockOf(o);
    assert Rotate(rest + done) == rest[1..] + (done + [o]) && (rest + done)[0] == o;
    assert done + rest == (done + [o]) + rest[1..];
  }

  lemma CheckedAll(c: Checked, done: seq<nat>, rest: seq<nat>, at: nat, need: int, freed: nat)
    requires c.Stands(done, rest, at, need, freed) && (need <= 0 || at >= c.d.fileSize) && c.d.layout != []
    ensures c.goal.Walked?
  {
    if need > 0 {
      TilesGrow(c.d.Extents(), rest, at, c.d.fileSize);
      assert rest + done == done == c.d.layout;
      WalkSafeIfExact(c.d.View(), done, need, freed);
    }
  }

  /** Looks through the blocks the way expandIndexes would. */
  method CheckWalk(file: ZgdbFile) returns (ok: bool)
    requires Consistent(file)
    ensures ok <==> CanCreate(file)
  {
    hide Disk.View;
    if file.freeList.newIndexesCount > INDEX_INITIAL_CAPACITY / 8 {
      return true;
    }
    NodeFacts(file.View(), file.index, file.tree, file.owner, 0);
    ghost var c, done, rest, freed: nat := Checked(file.Image(), file.Image().Base(), file.Expansion()), [],
        file.layout, 0;
    var need: int, at: nat := ZgdbFile.EXPANSION - file.betweenSpace,
        HEADER_SIZE + |file.index| * INDEX_SIZE + file.betweenSpace;
    assert [] + rest == rest + [] == rest && file.Image().Listed(0);
    while need > 0 && at < file.fileSize
      invariant c.Stands(done, rest, at, need, freed)
      decreases |rest|
    {
      ghost var x := CheckNext(c, done, rest, at, need, freed);
      var b := file.blocks[at];
      if MovedBytes(b) != Capacity(b) {
        return false;
      }
      done, rest, freed := done + [rest[0]], rest[1..], freed + Capacity(b);
      need, at := need - Capacity(b), at + Capacity(b);
    }
    CheckedAll(c, done, rest, at, need, freed);
    return true;
  }

  /** Whether an update of element number i with this input is one updateElement can make. */
  method CheckUpdate(file: ZgdbFile, header: Header, i: nat, input: CString) returns (ok: bool)
    requires Consistent(file) && header.indexAttached in Orders(file.tree) && IsDoc(file.View(), header.indexAttached)
    requires header == file.View()[header.indexAttached].header
    requires i <= |file.View()[header.indexAttached].elements| == header.attrCount
    ensures ok <==> CanUpdate(file, header.indexAttached, i, input)
  {
    ghost var o, v := header.indexAttached, file.View();
    if i == header.attrCount {
      return true;
    }
    var e := ReadElement(file, header.indexAttached, i);
    if !e.SText? || TextSize(input) <= e.size {
      return true;
    }
    if e.size % CHUNK_SIZE == 0 {
      return false;
    }
    if Chunks(PaddedSize(TextSize(input))) <= Chunks(e.size) {
      return true;
    }
    FirstToastFacts(v, file.index, file.tree, file.owner, o, i);
    var toast := file.ReadBlock(header.firstToastIndex);
    if Left(toast) >= Lacking(e, input) {
      return true;
    }
    return file.freeList.CanServe(Lacking(e, input) * SLOT + toast.capacity);
  }

  /** A schema with these fields, if they fill one. */
  method MakeSchema(capacity: nat, fields: seq<Field>) returns (ok: bool, schema: DocumentSchema)
    ensures fresh(schema) && schema.Valid()
    ensures ok <==> Fill(capacity, fields)
    ensures ok ==> schema.elements == fields && schema.capacity == capacity
  {
    schema := new DocumentSchema(capacity);
    for k := 0 to |fields|
      invariant schema.Valid() && schema.elements == fields[..k] && k <= capacity
    {
      if !FieldOk(fields[k]) {
        return false, schema;
      }
      ghost var was := fields[..k];
      var status := schema.Add(fields[k].key, fields[k].value);
      if status != ADD_OK {
        Unfillable(capacity, fields, k);
        return false, schema;
      }
      assert fields[..k + 1] == was + [fields[k]];
    }
    assert fields[..|fields|] == fields;
    ok := |fields| == capacity;
  }

  lemma Unfillable(capacity: nat, fields: seq<Field>, k: nat)
    requires k < |fields| && (fields[k].key == ID_KEY || HasKey(fields[..k], fields[k].key) || k >= capacity)
    ensures !Fill(capacity, fields)
  {
    if HasKey(fields[..k], fields[k].key) {
      var i :| 0 <= i < k && fields[..k][i].key == fields[k].key;
      assert fields[i].key == fields[k].key;
    }
    if fields[k].key == ID_KEY { assert HasKey(fields, ID_KEY); }
  }

  // ---------- carrying out one command ----------

  method ExecuteCreate(file: ZgdbFile, c: Command) returns (ok: bool, ghost e: Event)
    requires Consistent(file) && c.Create?
    modifies file, file.freeList.Repr
    ensures fresh(file.freeList.Repr - old(file.freeList.Repr)) && file.freeList == old(file.freeList)
    ensures (ok <==> Consistent(file)) && (ok <==> !Harms(old(Snap(file)), c))
    ensures ok ==> Carried(old(Snap(file)), c, e, Snap(file))
  {
    hide ZgdbFile.Standing, Disk.View, Consistent;
    SnapOk(file);
    if !NameOk(c.name) {
      return true, Refused(BadInput);
    }
    var found := true;
    var doc;
    if c.parent != 0 {
      found, doc := FindDocument(file, c.parent);
      if !found {
        return true, Refused(NoDocument);
      }
    } else {
      doc := RootOf(file);
    }
    var filled, schema := MakeSchema(c.capacity, c.fields);
    if !filled {
      return true, Refused(BadInput);
    }
    var walks := CheckWalk(file);
    if !walks {
      return true, Refused(NotNow);
    }
    ok, e := CreateNow(file, c, schema, doc);
  }

  /** What a creation that is not refused will do, in terms of its schema. */
  lemma CreateAsked(file: ZgdbFile, c: Command, schema: DocumentSchema)
    requires c.Create? && NameOk(c.name) && Fill(c.capacity, c.fields) && CanCreate(file)
    requires schema.Valid() && schema.elements == c.fields && (c.parent == 0 || c.parent in Orders(file.tree))
    ensures Refusal(Snap(file), c).None?
    ensures Harms(Snap(file), c) <==> !Harmless(file, schema, c.parent)
  {
  }

  method CreateNow(file: ZgdbFile, c: Command, schema: DocumentSchema, doc: Doc) returns (ok: bool, ghost e: Event)
    requires Consistent(file) && c.Create? && NameOk(c.name) && Fill(c.capacity, c.fields)
    requires schema.Valid() && schema !in file.freeList.Repr && schema.elements == c.fields
    requires schema.capacity == c.capacity
    requires doc.header.indexAttached == c.parent && (c.parent == 0 || c.parent in Orders(file.tree))
    requires CanCreate(file)
    modifies file, file.freeList.Repr
    ensures fresh(file.freeList.Repr - old(file.freeList.Repr)) && file.freeList == old(file.freeList)
    ensures (ok <==> Consistent(file)) && (ok <==> !Harms(old(Snap(file)), c))
    ensures ok ==> Carried(old(Snap(file)), c, e, Snap(file))
  {
    hide DocumentSchema.Valid, RecordsOk, FreeList.Valid, CanCreateOn, Disk.View, Catalog.Ok, EncodesTree;
    assert file !in file.freeList.Repr;
    hide Disk.View, Harms, Harmless, Refusal, Takes, SlidOn, Restorable, Step, Snapshot.Ok;
    CreateAsked(file, c, schema);
    var status;
    status, e := Sessions.Create(file, c.name, schema, doc);
    RestorableLooks(file);
    ok := LooksIntact(file);
    if ok { SnapOk(file); }
  }

  method RootOf(file: ZgdbFile) returns (doc: Doc)
    requires Consistent(file)
    ensures doc.header.indexAttached == 0
  {
    EncodesOrders(file.View(), file.View()[0].header.indexSon, file.tree);
    var header := GetDocumentHeader(file, 0);
    doc := Doc(IsRootDocumentHeader(header), 0, header);
  }

  method ExecuteDelete(file: ZgdbFile, order: nat) returns (ghost e: Event)
    requires Consistent(file)
    modifies file, file.freeList.Repr
    ensures fresh(file.freeList.Repr - old(file.freeList.Repr)) && file.freeList == old(file.freeList)
    ensures Consistent(file) && Carried(old(Snap(file)), Delete(order), e, Snap(file))
  {
    hide Step, Disk.Ok;
    var found, doc := FindDocument(file, order);
    if !found {
      return Refused(NoDocument);
    }
    e := Sessions.Delete(file, doc);
    SnapOk(file);
  }

  method ExecuteRestart(file: ZgdbFile) returns (ghost e: Event)
    requires Consistent(file)
    modifies file
    ensures fresh(file.freeList.Repr)
    ensures Consistent(file) && Carried(old(Snap(file)), Restart, e, Snap(file))
  {
    Reload(file);
    e := Restarted;
    SnapOk(file);
  }

  method ExecuteUpdate(file: ZgdbFile, c: Command) returns (ok: bool, ghost e: Event)
    requires Consistent(file) && c.Update?
    modifies file, file.freeList.Repr
    ensures fresh(file.freeList.Repr - old(file.freeList.Repr)) && file.freeList == old(file.freeList)
    ensures (ok <==> Consistent(file)) && (ok <==> !Harms(old(Snap(file)), c))
    ensures ok ==> Carried(old(Snap(file)), c, e, Snap(file))
  {
    hide DocOk, ZgdbFile.Valid, Step, Disk.View;
    var found, doc := FindDocument(file, c.order);
    if !found {
      return true, Refused(NoDocument);
    }
    if !NulFree(c.input.text) {
      return true, Refused(BadInput);
    }
    DocFacts(file.View(), file.index, file.tree, file.owner, c.order);
    var i := FindElement(file, doc.header, c.key);
    var can := CheckUpdate(file, doc.header, i, c.input.text);
    if !can {
      return true, Refused(NotNow);
    }
    ok, e := UpdateNow(file, c, doc, i);
  }

  /** What an update that can be made will do. */
  lemma UpdateAsked(file: ZgdbFile, c: Command, i: nat)
    requires c.Update? && NulFree(c.input.text) && c.order in Orders(file.tree) && IsDoc(file.View(), c.order)
    requires i == KeyIndex(file.View()[c.order].elements, c.key) && CanUpdate(file, c.order, i, c.input.text)
    ensures var v, o, status := file.View(), c.order, ExpectedStatus(file.View()[c.order].elements, c.key, c.input);
            && Refusal(Snap(file), c) == (if status == UPDATE_OK then None else Some(BadInput))
            && (Harms(Snap(file), c) <==>
                status == UPDATE_OK && (GrowsAway(v, o, i, c.input.text) || Missing(file, o, i, c.input.text).Some?))
  {
  }

  lemma UpdateCarried(s: Snapshot, c: Command, i: nat, e: Event, s': Snapshot)
    requires c.Update? && Refusal(s, c).None? && !Harms(s, c) && s'.Ok() && IsDoc(s.disk.View(), c.order)
    requires i == KeyIndex(ElementsOf(s.disk.View(), c.order), c.key)
    requires var v := s.disk.View(); var es := ElementsOf(v, c.order);
             && e == Changed(c.order, i, Field(c.key, NewValue(es[i], c.input)))
             && ElementsOf(s'.disk.View(), c.order) == es[i := NewStored(es[i], c.input)]
             && Lengthens(s.free, v, c.order, i, c.input.text, s'.disk.fileSize - s.disk.fileSize)
    requires Step(s.Cat(), e, s'.Cat()) && Spent(s.free, s'.free, 1)
    ensures Carried(s, c, e, s')
  {
    hide Harms, Snapshot.Ok, Step, Lengthens, NewValue, NewStored, Refusal;
  }

  method UpdateNow(file: ZgdbFile, c: Command, doc: Doc, i: nat) returns (ok: bool, ghost e: Event)
    requires Consistent(file) && c.Update? && NulFree(c.input.text)
    requires c.order in Orders(file.tree) && IsDoc(file.View(), c.order) && doc.header.indexAttached == c.order
    requires doc.header == file.View()[c.order].header
    requires i == KeyIndex(file.View()[c.order].elements, c.key) && CanUpdate(file, c.order, i, c.input.text)
    modifies file, file.freeList.Repr
    ensures fresh(file.freeList.Repr - old(file.freeList.Repr)) && file.freeList == old(file.freeList)
    ensures (ok <==> Consistent(file)) && (ok <==> !Harms(old(Snap(file)), c))
    ensures ok ==> Carried(old(Snap(file)), c, e, Snap(file))
  {
    hide Disk.View, Catalog.Ok, FreeList.Valid;
    assert file !in file.freeList.Repr;
    hide Harms, Refusal, GrowsAway, CanUpdate, Restorable, Step, Snapshot.Ok, NewValue, NewStored, Lengthens, Parses;
    ghost var v, s := file.View(), Snap(file);
    UpdateAsked(file, c, i);
    var status;
    status, e := Change(file, doc, c.key, c.input);
    ok := LooksIntact(file);
    if status != UPDATE_OK {
      RestorableLooks(file);
    } else if !GrowsAway(v, c.order, i, c.input.text) {
      RestorableLooks(file);
    }
    if ok {
      SnapOk(file);
      if status == UPDATE_OK { UpdateCarried(s, c, i, e, Snap(file)); }
    }
  }

  /** Carries out a command or refuses it, exactly as the file allows. The file is in order afterwards exactly if the
      command does not damage it, and a look at the file tells. */
  method Execute(file: ZgdbFile, c: Command) returns (ok: bool, ghost e: Event)
    requires Consistent(file)
    modifies file, file.freeList.Repr
    ensures fresh(file.freeList.Repr - old(file.freeList.Repr))
    ensures (ok <==> Consistent(file)) && (ok <==> !Harms(old(Snap(file)), c))
    ensures ok ==> Carried(old(Snap(file)), c, e, Snap(file))
  {
    hide Consistent, AnswersTo, Next;
    match c {
      case Create(_, _, _, _) => ok, e := ExecuteCreate(file, c);
      case Delete(order) =>
        ok := true;
        e := ExecuteDelete(file, order);
      case Update(_, _, _) => ok, e := ExecuteUpdate(file, c);
      case Restart =>
        ok := true;
        e := ExecuteRestart(file);
    }
  }

  // ---------- whole sessions ----------

  /** Carries out any list of commands on a new file, as long as the file stays undamaged. Every command so far
      was answered as the state before it demands; the file is as the last of them left it, or the next command
      damages it. */
  method Perform(cs: seq<Command>) returns (file: ZgdbFile, ok: bool, ghost es: seq<Event>, ghost states: seq<Snapshot>)
    ensures fresh(file)
    ensures History(states, cs, es)
    ensures (ok <==> Consistent(file)) && (ok <==> |es| == |cs|)
    ensures ok ==> Snap(file) == states[|es|] && Snap(file).Shows() == ApplyAll(Store(Empty, map[]), es)
    ensures !ok ==> |es| < |cs| && Harms(states[|es|], cs[|es|])
  {
    hide Consistent, Carried, Blank, Harms, Snapshot.Ok;
    file := NewFile();
    NewIsBlank(file);
    ok, es, states := true, [], [Snap(file)];
    for k := 0 to |cs|
      invariant ok && Consistent(file) && fresh(file) && fresh(file.freeList.Repr)
      invariant |es| == k && History(states, cs, es) && Snap(file) == states[k]
    {
      ghost var e;
      ok, e := Execute(file, cs[k]);
      if !ok {
        return;
      }
      HistoryNext(states, cs, es, e, Snap(file));
      es, states := es + [e], states + [Snap(file)];
    }
    HistoryShows(states, cs, es, |es|);
    assert es[..|es|] == es;
  }

  lemma NewIsBlank(file: ZgdbFile)
    requires Consistent(file) && file.View() == map[0 := ZgdbFile.RootBlock()] && file.layout == [0]
    requires file.tree == Empty
    requires file.fileSize == 450112 && file.betweenSpace == 0 && file.freeList.entries == NewEntries(1, 49999)
    ensures Blank(Snap(file))
  {
  }
}
