/** Commands, what a file holds between two of them, how it must answer one, and what that leaves. */
module Snapshots {
  import opened Blocks
  import opened FreeLists
  import FreeListFiles
  import opened Disks
  import opened Texts
  import opened Records
  import opened Schemas
  import opened ElementWriters
  import opened Forests
  import opened Catalogs
  import opened Storage
  import opened Documents
  import opened TextUpdates
  import opened ElementUpdates
  import opened Sessions

  datatype Command =
    | Create(parent: nat, name: CString, capacity: nat, fields: seq<Field>)
    | Delete(order: nat)
    | Update(order: nat, key: CString, input: Input)
    | Restart

  /** What a file holds at one moment: the disk, the free list, the node count, the tree and the owners of the
      toasts. */
  datatype Snapshot = Snapshot(disk: Disk, free: seq<Entry>, nodes: nat, tree: Forest, owner: Owners) {
    ghost function Cat(): Catalog {
      Catalog(disk.View(), disk.index, tree, owner)
    }

    ghost function Shows(): Store {
      StoreOf(Cat())
    }

    /** The same invariant as `Consistent`, on values. */
    ghost predicate Ok() {
      disk.Ok() && disk.FreeAgrees(free) && Sorted(free) && nodes == 1 + Size(tree) && Cat().Ok()
    }
  }

  ghost function Snap(file: ZgdbFile): Snapshot
    reads file, file.freeList
  {
    Snapshot(file.Image(), file.freeList.entries, file.nodes, file.tree, file.owner)
  }

  lemma SnapOk(file: ZgdbFile)
    requires Consistent(file)
    ensures Snap(file).Ok() && CountNew(Snap(file).free) == file.freeList.newIndexesCount
  {
  }

  // ---------- the answer to a command ----------

  predicate NameOk(name: CString) {
    |name| < KEY_SIZE && NulFree(name)
  }

  /** The fields fill a schema of this capacity. */
  ghost predicate Fill(capacity: nat, fields: seq<Field>) {
    FieldsOk(fields) && KeysUnique(fields) && !HasKey(fields, ID_KEY) && |fields| == capacity
  }

  ghost function ElementsOf(view: View, o: nat): seq<Stored> {
    if IsDoc(view, o) then view[o].elements else []
  }

  /** Why a command is refused, if it is. The first two reasons lie in the store and the command alone. */
  ghost function Refusal(s: Snapshot, c: Command): Option<Reason> {
    match c
    case Create(p, name, capacity, fields) =>
      if !NameOk(name) then Some(BadInput)
      else if p != 0 && p !in Orders(s.tree) then Some(NoDocument)
      else if !Fill(capacity, fields) then Some(BadInput)
      else if !CanCreateOn(s.disk, s.free) then Some(NotNow)
      else None
    case Delete(o) =>
      if o !in Orders(s.tree) then Some(NoDocument) else None
    case Update(o, key, input) =>
      var es := ElementsOf(s.disk.View(), o);
      if o !in Orders(s.tree) then Some(NoDocument)
      else if !NulFree(input.text) then Some(BadInput)
      else if !CanUpdateOn(s.disk.View(), s.free, o, KeyIndex(es, key), input.text) then Some(NotNow)
      else if ExpectedStatus(es, key, input) != UPDATE_OK then Some(BadInput)
      else None
    case Restart => None
  }

  /** The event of a command: it is refused for its reason, or carried out. Only the order of a new document is open. */
  ghost predicate AnswersTo(s: Snapshot, c: Command, e: Event) {
    match Refusal(s, c)
    case Some(why) => e == Refused(why)
    case None =>
      match c
      case Create(p, name, _, fields) =>
        e.Added? && e == Added(p, e.order, name, StoredFields(fields)) && e.order !in Orders(s.tree)
      case Delete(o) => e == Removed(o)
      case Update(o, key, input) =>
        var es := ElementsOf(s.disk.View(), o); var i := KeyIndex(es, key);
        e == Changed(o, i, Field(key, NewValue(es[i], input)))
      case Restart => e == Restarted
  }

  /** A command that is carried out and damages the file: the fill of a toast zeroes a header that is not written again,
      or a text grows away from its document's first toast. */
  ghost predicate Harms(s: Snapshot, c: Command) {
    Refusal(s, c).None? &&
    match c
    case Create(p, _, _, fields) =>
      !HarmlessOn(s.disk, s.free, p, HasTexts(fields), 2 * ChunksOf(fields) * 46, 80 + SizeOf(fields))
    case Update(o, key, input) =>
      var i := KeyIndex(ElementsOf(s.disk.View(), o), key);
      GrowsAway(s.disk.View(), o, i, input.text) || MissingOn(s.disk, s.free, o, i, input.text).Some?
    case _ => false
  }

  /** What a harmless command leaves: a snapshot in order, changed by nothing but its event. */
  ghost predicate Next(s: Snapshot, c: Command, e: Event, s': Snapshot) {
    && s'.Ok()
    && match e
       case Refused(_) => s' == s
       case Restarted => s' == s.(free := FreeListFiles.Rebuilt(s.free))
       case Removed(_) =>
         && Step(s.Cat(), e, s'.Cat()) && CountNew(s'.free) == CountNew(s.free)
         && s'.disk.layout == s.disk.layout && s'.disk.fileSize == s.disk.fileSize
       case Added(_, _, _, _) =>
         && Step(s.Cat(), e, s'.Cat()) && Spent(s.free, s'.free, 2)
         && (c.Create? ==>
               Takes(s.free, s'.disk.View(), e.order, c.fields,
                     s'.disk.fileSize - s.disk.fileSize - SlidOn(s.disk, s.free)))
       case Changed(_, _, _) =>
         && Step(s.Cat(), e, s'.Cat()) && Spent(s.free, s'.free, 1)
         && (c.Update? && Refusal(s, c).None? ==>
               var v, o := s.disk.View(), c.order; var es := ElementsOf(v, o); var i := KeyIndex(es, c.key);
               && ElementsOf(s'.disk.View(), o) == es[i := NewStored(es[i], c.input)]
               && Lengthens(s.free, v, o, i, c.input.text, s'.disk.fileSize - s.disk.fileSize))
  }

  /** One command in a history. */
  ghost predicate Carried(s: Snapshot, c: Command, e: Event, s': Snapshot) {
    AnswersTo(s, c, e) && !Harms(s, c) && Next(s, c, e, s')
  }

  // ---------- histories ----------

  /** A new file. */
  ghost predicate Blank(s: Snapshot) {
    && s.Ok() && s.disk.View() == map[0 := ZgdbFile.RootBlock()] && s.disk.layout == [0]
    && s.disk.fileSize == 450112 && s.disk.betweenSpace == 0 && s.tree == Empty && s.free == NewEntries(1, 49999)
  }

  /** The states of a new file between the first |es| commands, and the commands' events. */
  ghost predicate History(states: seq<Snapshot>, cs: seq<Command>, es: seq<Event>) {
    && |states| == |es| + 1 && |es| <= |cs| && Blank(states[0])
    && forall k :: 0 <= k < |es| ==> Carried(states[k], cs[k], es[k], states[k + 1])
  }

  /** A history and one command more. */
  lemma HistoryNext(states: seq<Snapshot>, cs: seq<Command>, es: seq<Event>, e: Event, s: Snapshot)
    requires History(states, cs, es) && |es| < |cs| && Carried(states[|es|], cs[|es|], e, s)
    ensures History(states + [s], cs, es + [e])
  {
    hide Carried, Blank;
    var states', es' := states + [s], es + [e];
    forall k | 0 <= k < |es'| ensures Carried(states'[k], cs[k], es'[k], states'[k + 1]) {
      assert k < |es| ==> Carried(states[k], cs[k], es[k], states[k + 1]);
    }
  }

  lemma CarriedShows(s: Snapshot, c: Command, e: Event, s': Snapshot)
    requires s.Ok() && Carried(s, c, e, s')
    ensures s'.Ok() && s'.Shows() == Apply(s.Shows(), e)
  {
    hide Disk.Ok, AnswersTo;
    EncodesOrders(s.disk.View(), s.disk.View()[0].header.indexSon, s.tree);
    if !e.Refused? && !e.Restarted? { StepRefines(s.Cat(), e, s'.Cat()); }
  }

  lemma BlankShows(s: Snapshot)
    requires Blank(s)
    ensures s.Ok() && s.Shows() == Store(Empty, map[])
  {
    hide Snapshot.Ok, Disk.View;
    assert s.Shows().docs == map[];
  }

  /** At every moment of a history the file is in order and shows what the events so far make of the empty store. */
  lemma {:induction false} HistoryShows(states: seq<Snapshot>, cs: seq<Command>, es: seq<Event>, k: nat)
    requires History(states, cs, es) && k <= |es|
    ensures states[k].Ok() && states[k].Shows() == ApplyAll(Store(Empty, map[]), es[..k])
  {
    hide Carried, Apply, Snapshot.Ok, Blank, StoreOf;
    if k == 0 {
      BlankShows(states[0]);
      assert es[..0] == [];
    } else {
      HistoryShows(states, cs, es, k - 1);
      CarriedShows(states[k - 1], cs[k - 1], es[k - 1], states[k]);
      ApplyLast(Store(Empty, map[]), es[..k - 1], es[k - 1]);
      assert es[..k] == es[..k - 1] + [es[k - 1]];
    }
  }

  lemma {:induction false} ApplyLast(s: Store, es: seq<Event>, e: Event)
    ensures ApplyAll(s, es + [e]) == Apply(ApplyAll(s, es), e)
    decreases es
  {
    if es == [] {
      assert [] + [e] == [e] && [e][1..] == [];
      assert ApplyAll(s, [e]) == ApplyAll(Apply(s, e), []);
    } else {
      assert (es + [e])[1..] == es[1..] + [e];
      ApplyLast(Apply(s, es[0]), es[1..], e);
    }
  }

  // ---------- when a file can serve a command ----------

  /** In every file in order the copying loop of expandIndexes passes states in order only, exactly if its
      walk is safe. */
  lemma ExpansionStays(s: Snapshot)
    requires s.Ok()
    ensures StaysOk(s.disk, s.disk.Base(), ZgdbFile.EXPANSION - s.disk.betweenSpace) <==>
            ZgdbFile.ExpansionOf(s.disk).Walked?
  {
    hide Disk.View, StaysOk;
    forall o | o in s.disk.layout && o in s.disk.View()
      ensures 0 < MovedBytes(s.disk.View()[o]) <= Capacity(s.disk.View()[o])
    {
      assert RoomOk(s.disk.View(), o);
    }
    StaysOkIff(s.disk, s.disk.Base(), ZgdbFile.EXPANSION - s.disk.betweenSpace, 0);
  }

  /** A command uses up two NEW indexes at most. */
  lemma CarriedSpends(s: Snapshot, c: Command, e: Event, s': Snapshot)
    requires Carried(s, c, e, s')
    ensures CountNew(s'.free) + 2 >= CountNew(s.free)
  {
    hide AnswersTo, Harms, Snapshot.Ok, Step, Takes, Lengthens, Refusal, KeyIndex;
    FreeListFiles.ReloadKeepsEntries(s.free);
  }

  lemma {:induction false} NewLeft(states: seq<Snapshot>, cs: seq<Command>, es: seq<Event>, k: nat)
    requires History(states, cs, es) && k <= |es|
    ensures CountNew(states[k].free) + 2 * k >= 49999
  {
    hide Carried, Snapshot.Ok;
    if k == 0 {
      NewEntriesAllNew(1, 49999);
    } else {
      NewLeft(states, cs, es, k - 1);
      CarriedSpends(states[k - 1], cs[k - 1], es[k - 1], states[k]);
    }
  }

  /** While NEW indexes are left, an update is served unless the text's stored size is a multiple of 32 and it grows. */
  lemma UpdateServed(s: Snapshot, o: nat, i: nat, input: CString)
    requires s.Ok() && CountNew(s.free) > 0 && o in Orders(s.tree)
    ensures var v := s.disk.View();
            CanUpdateOn(v, s.free, o, i, input) <==>
            !(IsText(v, o, i) && TextSize(input) > v[o].elements[i].size && v[o].elements[i].size % CHUNK_SIZE == 0)
  {
    hide Disk.Ok, Disk.View;
    var v := s.disk.View();
    if IsText(v, o, i) {
      var t, e := FirstToast(v, o), v[o].elements[i];
      FirstToastFacts(v, s.disk.index, s.tree, s.owner, o, i);
      if NeedsMore(e, input) && !HasSpace(v, t, e, input) { NewServes(s.free, SpillSize(v, t, e, input)); }
    }
  }

  /** Of the first 21,875 commands none is refused because the file cannot serve it, but for the growth of texts whose
      stored size is a multiple of 32. */
  lemma EarlyServed(states: seq<Snapshot>, cs: seq<Command>, es: seq<Event>, k: nat)
    requires History(states, cs, es) && k < |es| && k < 21875
    ensures es[k] == Refused(NotNow) <==>
            && cs[k].Update? && cs[k].order in Orders(states[k].tree) && NulFree(cs[k].input.text)
            && var v, o := states[k].disk.View(), cs[k].order;
               var i := KeyIndex(ElementsOf(v, o), cs[k].key);
               IsText(v, o, i) && TextSize(cs[k].input.text) > v[o].elements[i].size
                   && v[o].elements[i].size % CHUNK_SIZE == 0
  {
    hide Snapshot.Ok, Next;
    NewLeft(states, cs, es, k);
    HistoryShows(states, cs, es, k);
    assert Carried(states[k], cs[k], es[k], states[k + 1]);
    match cs[k] {
      case Update(o, key, input) =>
        if o in Orders(states[k].tree) {
          UpdateServed(states[k], o, KeyIndex(ElementsOf(states[k].disk.View(), o), key), input.text);
        }
      case _ =>
    }
  }

  // ---------- when a command damages the file ----------

  /** None of the first k commands deletes anything. */
  predicate KeepsAll(cs: seq<Command>, k: nat) {
    forall j :: 0 <= j < k && j < |cs| ==> !cs[j].Delete?
  }

  /** Only a deletion makes a dead block. */
  lemma CarriedDead(s: Snapshot, c: Command, e: Event, s': Snapshot)
    requires Sorted(s.free) && Carried(s, c, e, s') && !c.Delete? && HasDead(s'.free)
    ensures HasDead(s.free)
  {
    hide Harms, Snapshot.Ok, Step, Takes, Lengthens, KeyIndex, Sorted, HasDead, CanUpdateOn, CanCreateOn, Fill;
    FreeListFiles.ReloadKeepsEntries(s.free);
    if e.Restarted? { HasDeadPermuted(s.free, s'.free); }
  }

  lemma {:induction false} NoneDead(states: seq<Snapshot>, cs: seq<Command>, es: seq<Event>, k: nat)
    requires History(states, cs, es) && k <= |es| && KeepsAll(cs, k)
    ensures !HasDead(states[k].free)
  {
    hide Carried, Disk.Ok, Catalog.Ok, Sorted;
    if k == 0 {
      NewEntriesSizes(1, 49999);
    } else {
      NoneDead(states, cs, es, k - 1);
      HistoryShows(states, cs, es, k - 1);
      if HasDead(states[k].free) { CarriedDead(states[k - 1], cs[k - 1], es[k - 1], states[k]); }
    }
  }

  /** Without a dead block no fill runs over: only a text that grows away does damage. */
  lemma HarmsIfAway(s: Snapshot, c: Command)
    requires s.Ok() && !HasDead(s.free)
    ensures Harms(s, c) <==>
            && Refusal(s, c).None? && c.Update?
            && GrowsAway(s.disk.View(), c.order, KeyIndex(ElementsOf(s.disk.View(), c.order), c.key), c.input.text)
  {
    hide Disk.Ok, Disk.View, Catalog.Ok;
    match c {
      case Create(_, _, _, fields) =>
        ChunksOfText(fields);
      case Update(o, key, input) =>
        var v := s.disk.View();
        var i := KeyIndex(ElementsOf(v, o), key);
        if IsText(v, o, i) && SpillsOn(v, s.free, FirstToast(v, o), v[o].elements[i], input.text) {
          var k := Relevant(s.free, SpillSize(v, FirstToast(v, o), v[o].elements[i], input.text)).value;
          SortedEnds(s.free, s.free[k]);
        }
      case _ =>
    }
  }

  /** As long as nothing is deleted, the file is damaged only by a text that grows away from its document's first
      toast. */
  lemma DamageNeedsDeletion(states: seq<Snapshot>, cs: seq<Command>, es: seq<Event>, k: nat)
    requires History(states, cs, es) && k <= |es| && k < |cs| && KeepsAll(cs, k)
    ensures Harms(states[k], cs[k]) <==>
            && Refusal(states[k], cs[k]).None? && cs[k].Update?
            && var v, o := states[k].disk.View(), cs[k].order;
               GrowsAway(v, o, KeyIndex(ElementsOf(v, o), cs[k].key), cs[k].input.text)
  {
    hide Harms, Snapshot.Ok;
    NoneDead(states, cs, es, k);
    HistoryShows(states, cs, es, k);
    HarmsIfAway(states[k], cs[k]);
  }

  lemma FillIff(capacity: nat, fields: seq<Field>)
    ensures Fill(capacity, fields) <==>
            && |fields| == capacity
            && (forall f :: f in fields ==>
                 && |f.key| <= 12 && f.key != [105, 100]
                 && (f.value.TextValue? ==> 0 !in f.value.s))
            && forall i, j :: 0 <= i < j < |fields| ==> fields[i].key != fields[j].key
  {
    if exists f :: f in fields && f.key == ID_KEY {
      var f :| f in fields && f.key == ID_KEY;
      var i :| 0 <= i < |fields| && fields[i] == f;
    }
  }

  /** A session of creations and restarts is never damaged, and each of its first 21,875 creations is carried out unless
      the command itself is at fault. */
  lemma CreationsHold(states: seq<Snapshot>, cs: seq<Command>, es: seq<Event>, k: nat)
    requires History(states, cs, es) && k <= |es| && k < |cs|
    requires forall j :: 0 <= j <= k ==> cs[j].Create? || cs[j].Restart?
    ensures !Harms(states[k], cs[k])
    ensures k < |es| && k < 21875 && cs[k].Create? ==>
              var c := cs[k];
              es[k].Added? <==>
              && |c.name| <= 12 && 0 !in c.name && (c.parent == 0 || c.parent in Orders(states[k].tree))
              && |c.fields| == c.capacity
              && (forall f :: f in c.fields ==>
                   && |f.key| <= 12 && f.key != [105, 100]
                   && (f.value.TextValue? ==> 0 !in f.value.s))
              && forall i, j :: 0 <= i < j < |c.fields| ==> c.fields[i].key != c.fields[j].key
  {
    hide Snapshot.Ok, Next, Harms;
    DamageNeedsDeletion(states, cs, es, k);
    if k < |es| && k < 21875 {
      EarlyServed(states, cs, es, k);
      assert Carried(states[k], cs[k], es[k], states[k + 1]);
      if cs[k].Create? { FillIff(cs[k].capacity, cs[k].fields); }
    }
  }
}
