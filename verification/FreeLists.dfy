/** The free-index list: a doubly linked list of the indexes that are not ALIVE,
    kept in ascending order of block size. A NEW index has no block and is
    stored with size 0. */
module FreeLists {

  /** The two fields of a node that carry meaning; also the result of a search. */
  datatype Entry = Entry(order: nat, size: nat)

  datatype Option<+T> = None | Some(value: T)

  // ---------- specification: the list as a sequence ----------

  ghost predicate Sorted(s: seq<Entry>) {
    forall i, j :: InOrder(s, i, j)
  }

  ghost predicate InOrder(s: seq<Entry>, i: int, j: int) {
    0 <= i < j < |s| ==> s[i].size <= s[j].size
  }

  ghost function CountNew(s: seq<Entry>): nat {
    if s == [] then 0 else (if s[0].size == 0 then 1 else 0) + CountNew(s[1..])
  }

  /** The position at which a block of the given size is linked in. */
  ghost function Place(s: seq<Entry>, size: nat): (p: nat)
    ensures p <= |s|
  {
    if s == [] || size < s[0].size || size == 0 then 0
    else if size >= s[|s| - 1].size then |s|
    else FirstAtLeast(s, size, 1)
  }

  ghost function FirstAtLeast(s: seq<Entry>, size: nat, from: nat): (p: nat)
    requires from <= |s|
    ensures from <= p <= |s|
    ensures forall i :: from <= i < p ==> s[i].size < size
    ensures p < |s| ==> s[p].size >= size
    decreases |s| - from
  {
    if from == |s| || s[from].size >= size then from else FirstAtLeast(s, size, from + 1)
  }

  ghost function InsertAt<T>(s: seq<T>, p: nat, x: T): seq<T>
    requires p <= |s|
  {
    s[..p] + [x] + s[p..]
  }

  ghost function Inserted(s: seq<Entry>, e: Entry): seq<Entry> {
    InsertAt(s, Place(s, e.size), e)
  }

  ghost function RemoveAt<T>(s: seq<T>, p: nat): seq<T>
    requires p < |s|
  {
    s[..p] + s[p + 1..]
  }

  /** The position of the entry a request of reqSize bytes is served from. */
  ghost function Relevant(s: seq<Entry>, reqSize: nat): (r: Option<nat>)
    ensures r.Some? ==> r.value < |s|
  {
    if s == [] then None
    else if |s| == 1 && s[0].size == 0 then Some(0)
    else if s[|s| - 1].size >= reqSize then Some(|s| - 1)
    else if s[0].size == 0 then Some(0)
    else None
  }

  // ---------- properties of the specification ----------

  lemma InsertedSorted(s: seq<Entry>, e: Entry)
    requires Sorted(s)
    ensures Sorted(Inserted(s, e))
  {
    var p := Place(s, e.size);
    var t := Inserted(s, e);
    forall i, j ensures InOrder(t, i, j) {
      if 0 <= i < j < |t| {
        assert InOrder(s, if i < p then i else i - 1, if j < p then j else j - 1);
        assert InOrder(s, 0, j - 1) && InOrder(s, i, p) && InOrder(s, p, j - 1) && InOrder(s, i, |s| - 1);
      }
    }
  }

  lemma InsertAtMultiset<T>(s: seq<T>, p: nat, x: T)
    requires p <= |s|
    ensures multiset(InsertAt(s, p, x)) == multiset(s) + multiset{x}
  {
    assert s == s[..p] + s[p..];
  }

  lemma InsertAtElements<T>(s: seq<T>, p: nat, x: T)
    requires p <= |s|
    ensures forall y :: y in InsertAt(s, p, x) <==> y in s || y == x
  {
    assert s == s[..p] + s[p..];
  }

  lemma RemoveAtMultiset<T>(s: seq<T>, p: nat)
    requires p < |s|
    ensures multiset(s) == multiset(RemoveAt(s, p)) + multiset{s[p]}
  {
    assert s == s[..p] + ([s[p]] + s[p + 1..]);
  }

  lemma RemoveAtSorted(s: seq<Entry>, p: nat)
    requires p < |s| && Sorted(s)
    ensures Sorted(RemoveAt(s, p))
  {
    forall i, j ensures InOrder(RemoveAt(s, p), i, j) {
      assert InOrder(s, if i < p then i else i + 1, if j < p then j else j + 1);
    }
  }

  lemma {:induction false} CountNewConcat(a: seq<Entry>, b: seq<Entry>)
    ensures CountNew(a + b) == CountNew(a) + CountNew(b)
  {
    if a == [] {
      assert a + b == b;
    } else {
      CountNewConcat(a[1..], b);
      assert (a + b)[1..] == a[1..] + b;
    }
  }

  lemma CountNewBetween(a: seq<Entry>, e: Entry, b: seq<Entry>)
    ensures CountNew(a + [e] + b) == CountNew(a + b) + CountNew([e])
  {
    CountNewConcat(a + [e], b);
    CountNewConcat(a, [e]);
    CountNewConcat(a, b);
  }

  lemma CountNewInsertAt(s: seq<Entry>, p: nat, e: Entry)
    requires p <= |s|
    ensures CountNew(InsertAt(s, p, e)) == CountNew(s) + CountNew([e])
  {
    CountNewBetween(s[..p], e, s[p..]);
    assert s[..p] + s[p..] == s;
  }

  lemma CountNewRemoveAt(s: seq<Entry>, p: nat)
    requires p < |s|
    ensures CountNew(s) == CountNew(RemoveAt(s, p)) + CountNew([s[p]])
  {
    CountNewBetween(s[..p], s[p], s[p + 1..]);
    assert s[..p] + [s[p]] + s[p + 1..] == s;
  }

  lemma {:induction false} CountNewBound(s: seq<Entry>)
    ensures CountNew(s) <= |s|
    ensures CountNew(s) == |s| <==> forall e :: e in s ==> e.size == 0
    ensures CountNew(s) == 0 <==> forall e :: e in s ==> e.size != 0
  {
    if s != [] {
      CountNewBound(s[1..]);
      assert s == [s[0]] + s[1..];
    }
  }

  lemma SortedEnds(s: seq<Entry>, e: Entry)
    requires Sorted(s) && e in s
    ensures s[0].size <= e.size <= s[|s| - 1].size
  {
    var i :| 0 <= i < |s| && s[i] == e;
    assert InOrder(s, 0, i) && InOrder(s, i, |s| - 1);
  }

  /** Served iff some entry qualifies: a NEW one, or a dead block that is large enough. */
  lemma RelevantIff(s: seq<Entry>, reqSize: nat)
    requires Sorted(s)
    ensures Relevant(s, reqSize).Some? <==> exists e :: e in s && (e.size == 0 || e.size >= reqSize)
  {
    if s != [] {
      assert s[0] in s && s[|s| - 1] in s;
      forall e | e in s && (e.size == 0 || e.size >= reqSize)
        ensures Relevant(s, reqSize).Some?
      {
        SortedEnds(s, e);
      }
    }
  }

  /** Where an entry of a size goes: a NEW one to the front; any other behind the smaller and in front of the larger
      ones; of its own size it has only the head in front of it, and none behind it, unless they end the list, which it
      then ends itself. */
  ghost predicate Between(s: seq<Entry>, size: nat, p: nat) {
    && p <= |s| && (size == 0 ==> p == 0)
    && (size > 0 ==>
          && (forall i :: 0 <= i < p ==> s[i].size <= size && (s[i].size == size ==> i == 0 || p == |s|))
          && forall i :: p <= i < |s| ==>
               && size <= s[i].size
               && (s[i].size == size ==> i != 0 && size < s[|s| - 1].size))
  }

  lemma PlaceIff(s: seq<Entry>, size: nat, p: nat)
    requires Sorted(s)
    ensures p == Place(s, size) <==> Between(s, size, p)
  {
    if s != [] && size > 0 {
      forall i | 0 <= i < |s| ensures s[0].size <= s[i].size <= s[|s| - 1].size {
        SortedEnds(s, s[i]);
      }
      var k := Place(s, size);
      forall i, j | 0 <= i < j < |s| ensures s[i].size <= s[j].size {
        assert InOrder(s, i, j);
      }
      assert k < |s| ==> s[k].size >= size;
      assert p < |s| ==> s[p].size >= s[0].size;
    }
  }

  /** For a positive request the chosen entry is the last and largest dead block whenever that one fits, and the first
      NEW index only when no dead block fits. */
  lemma RelevantBest(s: seq<Entry>, reqSize: nat)
    requires Sorted(s) && reqSize > 0 && Relevant(s, reqSize).Some?
    ensures var e := s[Relevant(s, reqSize).value];
            if exists d :: d in s && d.size >= reqSize
            then e.size >= reqSize && Relevant(s, reqSize).value == |s| - 1 && forall d :: d in s ==> d.size <= e.size
            else e.size == 0 && Relevant(s, reqSize).value == 0
  {
    forall d | d in s ensures d.size <= s[|s| - 1].size {
      SortedEnds(s, d);
    }
    if s[|s| - 1].size >= reqSize {
      assert s[|s| - 1] in s;
    }
  }

  /** What taking the chosen entry does to the number of NEW entries. */
  lemma RelevantCounts(s: seq<Entry>, reqSize: nat)
    requires Sorted(s)
    ensures CountNew(s) <= |s|
    ensures |s| == 1 ==> (CountNew(s) == 1 <==> s[0].size == 0)
    ensures var k := Relevant(s, reqSize);
            k.Some? ==>
              && Sorted(RemoveAt(s, k.value))
              && CountNew(s) == CountNew(RemoveAt(s, k.value)) + (if s[k.value].size == 0 then 1 else 0)
  {
    CountNewBound(s);
    var k := Relevant(s, reqSize);
    if k.Some? {
      CountNewRemoveAt(s, k.value);
      RemoveAtSorted(s, k.value);
    }
  }

  /** The list holds a dead block. */
  ghost predicate HasDead(s: seq<Entry>) {
    s != [] && s[|s| - 1].size > 0
  }

  /** From `was` to `now` at most n NEW entries have gone, and the first dead block has not come. */
  ghost predicate Spent(was: seq<Entry>, now: seq<Entry>, n: nat) {
    CountNew(now) + n >= CountNew(was) && (HasDead(now) ==> HasDead(was))
  }

  lemma SpentOne(s: seq<Entry>, reqSize: nat)
    requires Sorted(s) && Relevant(s, reqSize).Some?
    ensures Spent(s, RemoveAt(s, Relevant(s, reqSize).value), 1)
  {
    var now := RemoveAt(s, Relevant(s, reqSize).value);
    RelevantCounts(s, reqSize);
    if HasDead(now) {
      assert now[|now| - 1] in s;
      SortedEnds(s, now[|now| - 1]);
    }
  }

  /** The same entries in another order, if both lists are sorted. */
  lemma HasDeadPermuted(s: seq<Entry>, s': seq<Entry>)
    requires Sorted(s) && multiset(s') == multiset(s) && HasDead(s')
    ensures HasDead(s)
  {
    assert s'[|s'| - 1] in multiset(s);
    SortedEnds(s, s'[|s'| - 1]);
  }

  // ---------- the linked list ----------

  class Node {
    const indexOrder: nat
    const blockSize: nat
    var next: Node?
    var prev: Node?

    constructor (indexOrder: nat, blockSize: nat)
      ensures this.indexOrder == indexOrder && this.blockSize == blockSize
      ensures next == null && prev == null
    {
      this.indexOrder, this.blockSize := indexOrder, blockSize;
      next, prev := null, null;
    }
  }

  class FreeList {
    var head: Node?
    var tail: Node?
    var indexesCount: nat
    var newIndexesCount: nat
    ghost var nodes: seq<Node>
    ghost var entries: seq<Entry>
    ghost var Repr: set<object>

    /** Doubly linked shape with sorted contents. */
    ghost predicate Shape()
      reads this, Repr
      ensures Shape() ==> this in Repr
    {
      && this in Repr
      && (forall n :: n in nodes ==> n in Repr)
      && Linked(nodes, head, tail)
      && Mirrors(entries, nodes)
      && Sorted(entries)
    }

    static ghost predicate Mirrors(entries: seq<Entry>, nodes: seq<Node>) {
      && |entries| == |nodes|
      && (forall i :: 0 <= i < |nodes| ==> entries[i] == Entry(nodes[i].indexOrder, nodes[i].blockSize))
    }

    ghost predicate Valid()
      reads this, Repr
      ensures Valid() ==> this in Repr
    {
      Shape() && indexesCount == |nodes|
    }

    static ghost predicate Linked(nodes: seq<Node>, head: Node?, tail: Node?)
      reads nodes
    {
      && (|nodes| == 0 ==> head == null && tail == null)
      && (|nodes| > 0 ==> head == nodes[0] && tail == nodes[|nodes| - 1])
      && (forall i {:trigger nodes[i].prev} :: 0 <= i < |nodes| ==>
          nodes[i].prev == if i == 0 then null else nodes[i - 1])
      && (forall i {:trigger nodes[i].next} :: 0 <= i < |nodes| ==>
          nodes[i].next == if i == |nodes| - 1 then null else nodes[i + 1])
      && (forall i, j :: 0 <= i < j < |nodes| ==> nodes[i] != nodes[j])
    }

    /** A request of this size finds an entry. */
    predicate CanServe(reqSize: nat)
      requires Valid()
      reads this, Repr
      ensures CanServe(reqSize) <==> Relevant(entries, reqSize).Some?
    {
      head != null && (tail.blockSize >= reqSize || head.blockSize == 0)
    }

    /** The counter of NEW entries is exact. */
    ghost predicate NewExact()
      reads this
    {
      newIndexesCount == CountNew(entries)
    }

    constructor ()
      ensures Valid() && fresh(Repr)
      ensures entries == [] && newIndexesCount == 0
    {
      head, tail := null, null;
      indexesCount, newIndexesCount := 0, 0;
      nodes, entries, Repr := [], [], {this};
    }

    // The three ways insertNode links a node in; the search loop has already found the place.

    method LinkFirst(newNode: Node)
      requires Linked(nodes, head, tail) && Mirrors(entries, nodes)
      requires newNode !in nodes && newNode.next == null
      modifies this`head, this`tail, this`nodes, this`entries, nodes, newNode
      ensures nodes == InsertAt(old(nodes), 0, newNode)
      ensures entries == InsertAt(old(entries), 0, Entry(newNode.indexOrder, newNode.blockSize))
      ensures Linked(nodes, head, tail) && Mirrors(entries, nodes)
    {
      if head == null {
        head := newNode;
        tail := newNode;
        head.prev := null;
      } else {
        newNode.prev := null;
        head.prev := newNode;
        newNode.next := head;
        head := newNode;
      }
      nodes, entries := [newNode] + nodes, [Entry(newNode.indexOrder, newNode.blockSize)] + entries;
    }

    method LinkLast(newNode: Node)
      requires Linked(nodes, head, tail) && Mirrors(entries, nodes)
      requires newNode !in nodes && newNode.next == null && nodes != []
      modifies this`tail, this`nodes, this`entries, nodes, newNode
      ensures nodes == InsertAt(old(nodes), |old(nodes)|, newNode)
      ensures entries == InsertAt(old(entries), |old(entries)|, Entry(newNode.indexOrder, newNode.blockSize))
      ensures Linked(nodes, head, tail) && Mirrors(entries, nodes)
    {
      newNode.prev := tail;
      tail.next := newNode;
      tail := newNode;
      nodes, entries := nodes + [newNode], entries + [Entry(newNode.indexOrder, newNode.blockSize)];
    }

    method LinkBefore(temp: Node, newNode: Node, ghost p: nat)
      requires Linked(nodes, head, tail) && Mirrors(entries, nodes)
      requires newNode !in nodes && 0 < p < |nodes| && nodes[p] == temp
      modifies this`nodes, this`entries, nodes, newNode
      ensures nodes == InsertAt(old(nodes), p, newNode)
      ensures entries == InsertAt(old(entries), p, Entry(newNode.indexOrder, newNode.blockSize))
      ensures Linked(nodes, head, tail) && Mirrors(entries, nodes)
    {
      hide FreeList.Valid;
      assert temp.prev == nodes[p].prev == nodes[p - 1];
      ghost var was := nodes;
      temp.prev.next := newNode;
      newNode.prev := temp.prev;
      temp.prev := newNode;
      newNode.next := temp;
      entries := InsertAt(entries, p, Entry(newNode.indexOrder, newNode.blockSize));
      nodes := InsertAt(nodes, p, newNode);
      assert forall i {:trigger nodes[i]} :: 0 <= i < |nodes| ==>
          nodes[i] == if i < p then was[i] else if i == p then newNode else was[i - 1];
    }

    /** Links a node in at its place. */
    method Link(newNode: Node) returns (ghost p: nat)
      requires Shape()
      requires newNode !in nodes && newNode.next == null
      modifies this`head, this`tail, this`nodes, this`entries, nodes, newNode
      ensures p == Place(old(entries), newNode.blockSize)
      ensures nodes == InsertAt(old(nodes), p, newNode)
      ensures entries == InsertAt(old(entries), p, Entry(newNode.indexOrder, newNode.blockSize))
      ensures Linked(nodes, head, tail) && Mirrors(entries, nodes)
    {
      p := Place(entries, newNode.blockSize);
      if head == null || newNode.blockSize < head.blockSize || newNode.blockSize == 0 {
        LinkFirst(newNode);
      } else if newNode.blockSize >= tail.blockSize {
        LinkLast(newNode);
      } else {
        var temp, k := FindNext(newNode.blockSize);
        LinkBefore(temp, newNode, k);
      }
    }

    method InsertNode(newNode: Node)
      requires Shape()
      requires newNode !in Repr && newNode.next == null && newNode.prev == null
      modifies Repr, newNode
      ensures Shape() && Repr == old(Repr) + {newNode}
      ensures indexesCount == old(indexesCount) && newIndexesCount == old(newIndexesCount)
      ensures entries == Inserted(old(entries), Entry(newNode.indexOrder, newNode.blockSize))
    {
      InsertedSorted(entries, Entry(newNode.indexOrder, newNode.blockSize));
      ghost var p := Link(newNode);
      InsertAtElements(old(nodes), p, newNode);
      Repr := Repr + {newNode};
    }

    /** The search loop of insertNode. */
    method FindNext(blockSize: nat) returns (temp: Node, ghost k: nat)
      requires Shape() && head != null && head.blockSize <= blockSize < tail.blockSize
      ensures 0 < k < |nodes| && temp == nodes[k]
      ensures blockSize > 0 ==> k == Place(entries, blockSize)
    {
      assert entries[|nodes| - 1].size == tail.blockSize && head.next == nodes[0].next;
      temp, k := head.next, 1;
      while temp.blockSize < blockSize
        invariant 1 <= k < |nodes| && temp == nodes[k]
        invariant FirstAtLeast(entries, blockSize, k) == FirstAtLeast(entries, blockSize, 1)
        decreases |nodes| - k
      {
        assert entries[k].size < blockSize && temp.next == nodes[k].next;
        temp := temp.next;
        k := k + 1;
      }
      assert entries[k].size >= blockSize;
    }

    method InsertNewIndex(indexOrder: nat)
      requires Valid()
      modifies Repr
      ensures Valid() && fresh(Repr - old(Repr))
      ensures entries == [Entry(indexOrder, 0)] + old(entries)
      ensures newIndexesCount == old(newIndexesCount) + 1
    {
      var newNode := new Node(indexOrder, 0);
      InsertNode(newNode);
      newIndexesCount := newIndexesCount + 1;
      indexesCount := indexesCount + 1;
    }

    method InsertDeadIndex(indexOrder: nat, blockSize: nat)
      requires Valid()
      modifies Repr
      ensures Valid() && fresh(Repr - old(Repr))
      ensures entries == Inserted(old(entries), Entry(indexOrder, blockSize))
      ensures newIndexesCount == old(newIndexesCount)
    {
      var newNode := new Node(indexOrder, blockSize);
      InsertNode(newNode);
      indexesCount := indexesCount + 1;
    }

    /** Serves a request. The NEW counter stays exact except in one case: a request of zero bytes
        against two or more entries that are all NEW takes the tail and forgets to count it. */
    method FindRelevantIndex(reqSize: nat) returns (r: Option<Entry>)
      requires Valid() && NewExact()
      modifies Repr
      ensures Valid() && Repr <= old(Repr)
      ensures var k := Relevant(old(entries), reqSize);
              if k == None then r == None && entries == old(entries) && NewExact()
              else r == Some(old(entries)[k.value]) && entries == RemoveAt(old(entries), k.value)
      ensures NewExact() <==> !(reqSize == 0 && |old(entries)| > 1 && old(entries)[|old(entries)| - 1].size == 0)
    {
      RelevantCounts(entries, reqSize);
      if indexesCount == 1 && newIndexesCount == 1 {
        r := Some(Entry(head.indexOrder, head.blockSize));
        UnlinkOnly();
        newIndexesCount := newIndexesCount - 1;
        indexesCount := indexesCount - 1;
        return;
      }
      if indexesCount == 1 && newIndexesCount == 0 {
        if tail.blockSize >= reqSize {
          r := Some(Entry(tail.indexOrder, tail.blockSize));
          UnlinkOnly();
          indexesCount := indexesCount - 1;
          return;
        } else {
          return None;
        }
      }
      if tail == null || head == null {
        return None;
      }
      if tail.blockSize >= reqSize {
        assert entries[|entries| - 1].size == tail.blockSize;
        r := Some(Entry(tail.indexOrder, tail.blockSize));
        UnlinkLast();
        indexesCount := indexesCount - 1;
      } else if head.blockSize == 0 {
        r := Some(Entry(head.indexOrder, head.blockSize));
        UnlinkFirst();
        newIndexesCount := newIndexesCount - 1;
        indexesCount := indexesCount - 1;
      } else {
        r := None;
      }
    }

    method UnlinkOnly()
      requires Shape() && |nodes| == 1
      modifies this`head, this`tail, this`nodes, this`entries
      ensures Shape() && nodes == [] && entries == [] == RemoveAt(old(entries), 0)
    {
      head := null;
      tail := null;
      nodes, entries := [], [];
    }

    method UnlinkLast()
      requires Shape() && |nodes| > 1
      modifies this`tail, this`nodes, this`entries, nodes
      ensures Shape() && nodes == RemoveAt(old(nodes), |old(nodes)| - 1)
      ensures entries == RemoveAt(old(entries), |old(entries)| - 1)
    {
      RemoveAtSorted(entries, |entries| - 1);
      assert tail.prev == nodes[|nodes| - 1].prev;
      var pr := tail.prev;
      tail.prev := null;
      pr.next := null;
      tail := pr;
      nodes, entries := RemoveAt(nodes, |nodes| - 1), RemoveAt(entries, |entries| - 1);
    }

    method UnlinkFirst()
      requires Shape() && |nodes| > 1
      modifies this`head, this`nodes, this`entries, nodes
      ensures Shape() && nodes == RemoveAt(old(nodes), 0)
      ensures entries == RemoveAt(old(entries), 0)
    {
      RemoveAtSorted(entries, 0);
      assert head.next == nodes[0].next;
      var pr := head.next;
      head.next := null;
      pr.prev := null;
      head := pr;
      nodes, entries := RemoveAt(nodes, 0), RemoveAt(entries, 0);
    }
  }
}
