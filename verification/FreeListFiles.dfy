/** Saving the free list behind the last block and rebuilding it when the file is opened again. */
module FreeListFiles {
  import opened FreeLists

  /** What writeFreelist leaves in the file: the list struct's counters and one record a node. */
  datatype SavedList = SavedList(indexesCount: nat, newIndexesCount: nat, records: seq<Entry>)

  // ---------- specification ----------

  /** The list after inserting saved records one by one, read front to back. */
  ghost function RebuiltOnto(list: seq<Entry>, records: seq<Entry>): seq<Entry>
    decreases records
  {
    if records == [] then list else RebuiltOnto(Inserted(list, records[0]), records[1..])
  }

  ghost function Rebuilt(records: seq<Entry>): seq<Entry> {
    RebuiltOnto([], records)
  }

  ghost function Reversed(s: seq<Entry>): seq<Entry> {
    if s == [] then [] else Reversed(s[1..]) + [s[0]]
  }

  ghost function News(s: seq<Entry>): seq<Entry> {
    if s == [] then [] else (if s[0].size == 0 then [s[0]] else []) + News(s[1..])
  }

  ghost function Deads(s: seq<Entry>): seq<Entry> {
    if s == [] then [] else (if s[0].size == 0 then [] else [s[0]]) + Deads(s[1..])
  }

  // ---------- properties ----------

  lemma SortedTail(s: seq<Entry>)
    requires Sorted(s) && s != []
    ensures Sorted(s[1..])
    ensures forall x :: x in s[1..] ==> s[0].size <= x.size
  {
    forall i, j ensures InOrder(s[1..], i, j) {
      assert InOrder(s, i + 1, j + 1);
    }
    forall x | x in s[1..] ensures s[0].size <= x.size {
      var i :| 0 < i < |s| && s[i] == x;
      assert InOrder(s, 0, i);
    }
  }

  /** Inserting a NEW entry puts it in front. */
  lemma InsertedFirst(r: seq<Entry>, e: Entry)
    requires e.size == 0
    ensures Inserted(r, e) == [e] + r
  {
  }

  /** Inserting a dead entry that is no smaller than what is there puts it at the end. */
  lemma InsertedLast(r: seq<Entry>, e: Entry)
    requires e.size > 0 && forall x :: x in r ==> x.size <= e.size
    ensures Inserted(r, e) == r + [e]
  {
    if r != [] {
      assert r[0] in r && r[|r| - 1] in r;
    }
  }

  lemma {:induction false} AllDead(s: seq<Entry>)
    requires forall x :: x in s ==> x.size > 0
    ensures News(s) == [] && Deads(s) == s
  {
    if s != [] {
      AllDead(s[1..]);
    }
  }

  /** Dead entries read in ascending order end up behind what is there, in the same order. */
  lemma {:induction false} RebuiltDead(list: seq<Entry>, s: seq<Entry>)
    requires Sorted(s) && forall x :: x in s ==> x.size > 0
    requires s != [] ==> forall x :: x in list ==> x.size <= s[0].size
    ensures RebuiltOnto(list, s) == list + s
    decreases s
  {
    if s != [] {
      SortedTail(s);
      InsertedLast(list, s[0]);
      RebuiltDead(list + [s[0]], s[1..]);
      assert list + s == (list + [s[0]]) + s[1..];
    }
  }

  /** NEW entries read before the dead ones end up in front, reversed. */
  lemma {:induction false} RebuiltNew(list: seq<Entry>, s: seq<Entry>)
    requires Sorted(s) && forall x :: x in list ==> x.size == 0
    ensures RebuiltOnto(list, s) == Reversed(News(s)) + list + Deads(s)
    decreases s
  {
    if s == [] {
    } else if s[0].size == 0 {
      SortedTail(s);
      RebuiltNew([s[0]] + list, s[1..]);
      RebuiltNewHead(list, s);
    } else {
      RebuiltNewEnd(list, s);
    }
  }

  lemma RebuiltNewHead(list: seq<Entry>, s: seq<Entry>)
    requires s != [] && s[0].size == 0
    requires RebuiltOnto([s[0]] + list, s[1..]) == Reversed(News(s[1..])) + ([s[0]] + list) + Deads(s[1..])
    ensures RebuiltOnto(list, s) == Reversed(News(s)) + list + Deads(s)
  {
    InsertedFirst(list, s[0]);
    ReversedNews(s);
    Regroup(Reversed(News(s[1..])), s[0], list, Deads(s[1..]));
  }

  lemma RebuiltNewEnd(list: seq<Entry>, s: seq<Entry>)
    requires Sorted(s) && s != [] && s[0].size > 0 && forall x :: x in list ==> x.size == 0
    ensures RebuiltOnto(list, s) == Reversed(News(s)) + list + Deads(s)
  {
    SortedTail(s);
    AllDead(s);
    RebuiltDead(list, s);
  }

  lemma Regroup(a: seq<Entry>, e: Entry, b: seq<Entry>, c: seq<Entry>)
    ensures a + ([e] + b) + c == (a + [e]) + b + c
  {
  }

  lemma ReversedNews(s: seq<Entry>)
    requires s != [] && s[0].size == 0
    ensures Reversed(News(s)) == Reversed(News(s[1..])) + [s[0]]
  {
    assert News(s)[1..] == News(s[1..]);
  }

  /** Reloading a saved list keeps the dead entries in order and reverses the NEW ones. */
  lemma RebuiltSorted(s: seq<Entry>)
    requires Sorted(s)
    ensures Rebuilt(s) == Reversed(News(s)) + Deads(s)
  {
    RebuiltNew([], s);
  }

  lemma {:induction false} RebuiltKeeps(list: seq<Entry>, s: seq<Entry>)
    requires Sorted(list)
    ensures Sorted(RebuiltOnto(list, s))
    ensures multiset(RebuiltOnto(list, s)) == multiset(list) + multiset(s)
    ensures |RebuiltOnto(list, s)| == |list| + |s|
    ensures CountNew(RebuiltOnto(list, s)) == CountNew(list) + CountNew(s)
    decreases s
  {
    if s != [] {
      var e, p := s[0], Place(list, s[0].size);
      InsertedSorted(list, e);
      InsertAtMultiset(list, p, e);
      CountNewInsertAt(list, p, e);
      RebuiltKeeps(Inserted(list, e), s[1..]);
      assert s == [e] + s[1..];
      CountNewConcat([e], s[1..]);
    }
  }

  /** The reloaded list holds the saved entries, sorted, with both counters. */
  lemma ReloadKeepsEntries(s: seq<Entry>)
    ensures multiset(Rebuilt(s)) == multiset(s)
    ensures |Rebuilt(s)| == |s| && CountNew(Rebuilt(s)) == CountNew(s)
    ensures Sorted(Rebuilt(s))
  {
    forall i, j ensures InOrder([], i, j) {
    }
    RebuiltKeeps([], s);
  }

  /** A sorted list is its NEW entries followed by its dead ones. */
  lemma {:induction false} SortedParts(s: seq<Entry>)
    requires Sorted(s)
    ensures s == News(s) + Deads(s)
    ensures forall x :: x in News(s) ==> x.size == 0
    ensures forall x :: x in Deads(s) ==> x.size > 0
  {
    if s != [] {
      SortedTail(s);
      SortedParts(s[1..]);
      if s[0].size > 0 {
        AllDead(s);
      }
    }
  }

  lemma {:induction false} PartsOf(a: seq<Entry>, d: seq<Entry>)
    requires (forall e :: e in a ==> e.size == 0) && (forall e :: e in d ==> e.size > 0)
    ensures News(a + d) == a && Deads(a + d) == d
  {
    if a == [] {
      AllDead(d);
      assert a + d == d;
    } else {
      assert (a + d)[1..] == a[1..] + d;
      PartsOf(a[1..], d);
    }
  }

  lemma {:induction false} ReversedElements(s: seq<Entry>)
    ensures |Reversed(s)| == |s| && forall x :: x in Reversed(s) <==> x in s
  {
    if s != [] {
      ReversedElements(s[1..]);
    }
  }

  lemma {:induction false} ReversedConcat(s: seq<Entry>, t: seq<Entry>)
    ensures Reversed(s + t) == Reversed(t) + Reversed(s)
  {
    if s == [] {
      assert s + t == t;
    } else {
      assert (s + t)[1..] == s[1..] + t;
      ReversedConcat(s[1..], t);
    }
  }

  lemma {:induction false} ReversedTwice(s: seq<Entry>)
    ensures Reversed(Reversed(s)) == s
  {
    if s != [] {
      ReversedTwice(s[1..]);
      ReversedConcat(Reversed(s[1..]), [s[0]]);
      assert Reversed([s[0]]) == [s[0]];
    }
  }

  /** Two save/load cycles are the identity. */
  lemma ReloadTwice(s: seq<Entry>)
    requires Sorted(s)
    ensures Rebuilt(Rebuilt(s)) == s
  {
    var a, d := News(s), Deads(s);
    SortedParts(s);
    RebuiltSorted(s);
    ReloadKeepsEntries(s);
    RebuiltSorted(Rebuilt(s));
    ReversedElements(a);
    PartsOf(Reversed(a), d);
    ReversedTwice(a);
  }

  /** One cycle alone is the identity exactly when the NEW entries read the same backwards. */
  lemma ReloadOnceIff(s: seq<Entry>)
    requires Sorted(s)
    ensures Rebuilt(s) == s <==> Reversed(News(s)) == News(s)
  {
    RebuiltSorted(s);
    SortedParts(s);
    ReversedElements(News(s));
    if Rebuilt(s) == s {
      assert Reversed(News(s)) == s[..|News(s)|] == News(s);
    }
  }

  // ---------- the two loops ----------

  /** Walks the list from its head and writes one record a node. */
  method WriteFreelist(list: FreeList) returns (saved: SavedList)
    requires list.Valid()
    ensures saved == SavedList(list.indexesCount, list.newIndexesCount, list.entries)
  {
    var records: seq<Entry> := [];
    var temp := list.head;
    while temp != null
      invariant |records| <= |list.nodes|
      invariant records == list.entries[..|records|]
      invariant temp == if |records| == |list.nodes| then null else list.nodes[|records|]
      decreases |list.nodes| - |records|
    {
      assert temp.next == list.nodes[|records|].next;
      records := records + [Entry(temp.indexOrder, temp.blockSize)];
      temp := temp.next;
    }
    saved := SavedList(list.indexesCount, list.newIndexesCount, records);
  }

  /** Rebuilds the list; the saved counters only say how many records to read. */
  method ReadFreeList(saved: SavedList) returns (list: FreeList)
    requires saved.indexesCount == |saved.records|
    ensures list.Valid() && fresh(list.Repr) && list.NewExact()
    ensures list.entries == Rebuilt(saved.records)
  {
    list := new FreeList();
    for i := 0 to |saved.records|
      invariant list.Valid() && fresh(list.Repr) && list.NewExact()
      invariant RebuiltOnto(list.entries, saved.records[i..]) == Rebuilt(saved.records)
    {
      ghost var rest := saved.records[i..];
      assert rest[0] == saved.records[i] && rest[1..] == saved.records[i + 1..];
      Reinsert(list, saved.records[i]);
    }
  }

  /** The body of that loop. */
  method Reinsert(list: FreeList, e: Entry)
    requires list.Valid() && list.NewExact()
    modifies list.Repr
    ensures list.Valid() && fresh(list.Repr - old(list.Repr)) && list.NewExact()
    ensures list.entries == Inserted(old(list.entries), e)
  {
    CountNewInsertAt(list.entries, Place(list.entries, e.size), e);
    if e.size == 0 {
      list.InsertNewIndex(e.order);
    } else {
      list.InsertDeadIndex(e.order, e.size);
    }
  }
}
