/** Small states that are in order and in which the code's promises fail: an input for every exact condition. */
module Examples {
  import opened Blocks
  import opened FreeLists
  import opened Tilings
  import opened Disks
  import opened Texts
  import opened Records
  import opened Schemas
  import opened ElementWriters
  import opened Forests
  import opened Catalogs
  import opened Storage
  import opened Documents
  import opened TextUpdates
  import opened Snapshots
  import opened Predicates
  import opened Queries

  const A: byte := 97
  const B: byte := 98

  function Letters(n: nat): (s: CString)
    ensures |s| == n && NulFree(s)
  {
    seq(n, _ => A)
  }

  function DocHeader(o: nat, size: nat, capacity: nat, son: nat, toast: nat, attrCount: nat, name: CString): Header {
    Header(size, capacity, o, son, 0, toast, attrCount, name)
  }

  const ROOT: Block := Document(Header(DOC_HEADER, DOC_HEADER, 0, 1, 0, 0, 0, ROOT_NAME), [])

  // ---------- the zero fill ----------

  /** The root document, a dead toast of 124 bytes, document 2 behind it, and n NEW indexes. */
  ghost function Neighbours(n: nat): Disk {
    var at := HEADER_SIZE + (3 + n) * INDEX_SIZE;
    Disk([IndexEntry(Alive, at), IndexEntry(Dead, at + 80), IndexEntry(Alive, at + 204)]
         + seq(n, _ => IndexEntry(New, 0)),
         NeighbourBlocks(at), [0, 1, 2], 0, at + 310)
  }

  ghost function NeighbourBlocks(at: nat): map<nat, Block> {
    map[at := ROOT.(header := ROOT.header.(indexSon := 2)), at + 80 := Toast(124, 2, 1, 0, map[]),
        at + 204 := Document(DocHeader(2, 106, 106, 0, 0, 0, [A]), [])]
  }

  ghost function NeighbourView(): View {
    map[0 := ROOT.(header := ROOT.header.(indexSon := 2)), 1 := Toast(124, 2, 1, 0, map[]),
        2 := Document(DocHeader(2, 106, 106, 0, 0, 0, [A]), [])]
  }

  ghost function NeighbourList(n: nat): seq<Entry> {
    NewEntries(3, n) + [Entry(1, 124)]
  }

  lemma NeighboursAt(n: nat, o: nat)
    ensures var d := Neighbours(n); d.Listed(o) && d.LiesBelow(o) && (d.Attached(o) <==> o < 3)
  {
    var d := Neighbours(n);
    if 3 <= o < |d.index| { assert d.index[o] == IndexEntry(New, 0); }
  }

  lemma NeighboursMaps(n: nat)
    ensures var d := Neighbours(n); var at := d.Base();
            && d.Extents() == map[0 := Extent(at, 80), 1 := Extent(at + 80, 124), 2 := Extent(at + 204, 106)]
            && d.View() == NeighbourView()
  {
    var d := Neighbours(n);
    forall o: nat ensures d.Attached(o) <==> o < 3 {
      NeighboursAt(n, o);
    }
  }

  lemma NeighboursOk(n: nat)
    ensures Neighbours(n).Ok()
  {
    hide Disk.Extents, NeighbourBlocks;
    var d := Neighbours(n);
    NeighboursMaps(n);
    forall o: nat ensures d.Listed(o) && d.LiesBelow(o) {
      NeighboursAt(n, o);
    }
    var ext := d.Extents();
    assert Tiles(ext, [2], d.Base() + 204, d.fileSize) && [1, 2][1..] == [2] && [0, 1, 2][1..] == [1, 2];
    assert Tiles(ext, [1, 2], d.Base() + 80, d.fileSize);
    assert NoDuplicates([2]) && NoDuplicates([1, 2]);
  }

  lemma NeighboursFree(n: nat)
    ensures Neighbours(n).FreeAgrees(NeighbourList(n))
  {
    var d := Neighbours(n);
    forall e: Entry ensures d.CountedIn(NeighbourList(n), e) {
      NewEntriesCount(3, n, e);
      if 3 <= e.order < |d.index| { assert d.index[e.order] == IndexEntry(New, 0); }
    }
  }

  const TWO: Forest := Cons(2, Empty, Empty)

  ghost function NeighbourFile(n: nat): Snapshot {
    Snapshot(Neighbours(n), NeighbourList(n), 2, TWO, map[])
  }

  lemma NeighbourFileOk(n: nat)
    ensures NeighbourFile(n).Ok() && CountNew(NeighbourList(n)) == n
  {
    hide Disk.Ok, Disk.View;
    var s, v := NeighbourFile(n), Neighbours(n).View();
    NeighboursOk(n);
    NeighboursMaps(n);
    NeighboursFree(n);
    NewEntriesAllNew(3, n);
    NewEntriesSizes(3, n);
    CountNewConcat(NewEntries(3, n), [Entry(1, 124)]);
    forall i, j ensures InOrder(s.free, i, j) {
    }
    assert Encodes(v, 0, Empty) && Encodes(v, 2, TWO) && Orders(TWO) == [2] && NoDuplicates([2]);
    assert DocOk(v, map[], 2) by {
      assert IsToastList(v, 0, []);
      assert ToastListOk(v, map[], 2, 0, []);
    }
    forall o: nat ensures NodeOk(v, s.disk.index, TWO, map[], o) && ToastOk(v, s.disk.index, TWO, map[], o)
        && RoomOk(v, o) {
    }
  }

  const ONE_TEXT: seq<Field> := [Field([B], TextValue([A]))]

  lemma OneTextFills()
    ensures Fill(1, ONE_TEXT) && HasTexts(ONE_TEXT) && ChunksOf(ONE_TEXT) == 1 && SizeOf(ONE_TEXT) == 26
  {
    assert ONE_TEXT[0] in ONE_TEXT && ONE_TEXT[1..] == [];
  }

  /** Creating a document with a short text below the root is a command this file serves: the toast takes the dead
      block, its fill zeroes the header of document 2, and no header the call writes is that one. */
  lemma FillHits(n: nat)
    requires n > INDEX_INITIAL_CAPACITY / 8
    ensures var s, c := NeighbourFile(n), Command.Create(0, [A], 1, ONE_TEXT);
            && s.Ok() && Refusal(s, c).None? && Harms(s, c)
            && StruckOn(s.disk, s.free, true, ToastRequest(1)) == Some(2)
            && !s.disk.(blocks := s.disk.blocks[s.disk.index[2].offset := Torn(s.disk.BlockOf(2))]).Ok()
  {
    hide Fill, HasTexts, ChunksOf, SizeOf, Catalog.Ok, Disk.View;
    var s := NeighbourFile(n);
    NeighbourFileOk(n);
    NewEntriesSizes(3, n);
    OneTextFills();
    assert Behind([0, 1, 2], 1) == Behind([0, 1, 2][1..], 1) == 2;
    assert s.free[..|s.free| - 1] == NewEntries(3, n) && s.free[|s.free| - 1] == Entry(1, 124);
    TornNotOk(s.disk, s.disk.Base(), 2);
  }

  // ---------- expandIndexes ----------

  /** The root document, and document 1 in a reused block with 20 bytes to spare: moving the first block is safe, moving
      the second one is not. */
  ghost function Spare(): Disk {
    var at := HEADER_SIZE + 2 * INDEX_SIZE;
    Disk([IndexEntry(Alive, at + 100), IndexEntry(Alive, at)],
         map[at + 100 := ROOT, at := Document(DocHeader(1, 80, 100, 0, 0, 0, [A]), [])], [1, 0], 0, at + 180)
  }

  lemma SpareMoves()
    ensures Spare().Ok() && !Moved(Spare(), Spare().Base()).OkAt(Spare().Base() + 80)
    ensures Walk(Spare().View(), Spare().layout, 1, 0) == Unsafe
  {
    var d := Spare();
    forall o: nat ensures d.Listed(o) && d.LiesBelow(o) {
    }
    assert d.Attached(0) && d.Attached(1);
    assert Tiles(d.Extents(), [0], d.Base() + 100, d.fileSize) && [1, 0][1..] == [0];
    assert NoDuplicates([0]);
    MovedOkIff(d, d.Base());
  }

  // ---------- texts ----------

  /** A text of 31 characters, written into an empty toast as writeElement does, reads back as the empty text. */
  lemma FullChunkLost(t: nat)
    ensures var w := WithText(map[t := ZgdbFile.EmptyToast(t, 124)], t, Letters(31), 1);
            var e := SText([A], TextSize(Letters(31)), 0);
            AllPresent(w, ChainOf(w, t, e)) && ValueOf(w, t, e) == TextValue([]) != TextValue(Letters(31))
  {
    var v: View, s := map[t := ZgdbFile.EmptyToast(t, 124)], Letters(31);
    TextWritten(v, WithText(v, t, s, 1), t, s, 0, [A]);
  }

  /** Document 1 has a text of 32 characters whose second chunk lies in the document's second toast. */
  ghost function SpilledView(): View {
    map[0 := ROOT,
        1 := Document(DocHeader(1, 106, 106, 0, 2, 1, [A]), [SText([A], 33, 0)]),
        2 := Toast(78, 1, 2, 3, map[0 := Chunk(Letters(32), 3, 0)]),
        3 := Toast(124, 1, 3, 0, map[0 := Chunk(Zeros(32), 3, 0)])]
  }

  const ALL_ALIVE: seq<IndexEntry> := [IndexEntry(Alive, 68), IndexEntry(Alive, 148), IndexEntry(Alive, 254),
                                       IndexEntry(Alive, 332)]
  const ONE: Forest := Cons(1, Empty, Empty)
  const OWNER: Owners := map[2 := 1, 3 := 1]

  lemma SpilledChain()
    ensures Chain(SpilledView(), Slot(2, 0), 2) == [Slot(2, 0), Slot(3, 0)]
    ensures ChainsOf(SpilledView(), 2, SpilledView()[1].elements) == [Slot(2, 0), Slot(3, 0)]
    ensures Chunks(33) == 2
  {
    var v := SpilledView();
    assert Chain(v, Slot(3, 0), 1) == [Slot(3, 0)] + Chain(v, NextSlot(v, Slot(3, 0)), 0);
    assert Chain(v, Slot(2, 0), 2) == [Slot(2, 0)] + Chain(v, Slot(3, 0), 1);
    assert ChainsOf(v, 2, [SText([A], 33, 0)]) == ChainOf(v, 2, SText([A], 33, 0)) + ChainsOf(v, 2, []);
  }

  lemma SpilledDocOk()
    ensures DocOk(SpilledView(), OWNER, 1)
  {
    var v, es := SpilledView(), SpilledView()[1].elements;
    SpilledChain();
    assert SlotOk(v, OWNER, 1, Slot(2, 0)) && SlotOk(v, OWNER, 1, Slot(3, 0));
    assert NoDuplicates([Slot(3, 0)]) && [Slot(2, 0), Slot(3, 0)][1..] == [Slot(3, 0)];
    assert ReadChain(v, [Slot(2, 0), Slot(3, 0)]) == Letters(32) + ReadChain(v, [Slot(3, 0)]);
    assert ReadChain(v, [Slot(3, 0)]) == Zeros(32) + ReadChain(v, []);
    assert ReadBuffer(v, [Slot(2, 0), Slot(3, 0)], 33)[32] == 0;
    assert TextOk(v, 2, es[0]) && TextsOk(v, 2, es[1..]);
    assert IsToastList(v, 0, [3][1..]) && IsToastList(v, 3, [2, 3][1..]) && IsToastList(v, 2, [2, 3]);
    assert NoDuplicates([3]) && [2, 3][1..] == [3];
    assert ToastListOk(v, OWNER, 1, 2, [2, 3]);
  }

  /** A file can be in order and hold a text that grows away from its document's first toast. */
  lemma SpilledGrowsAway()
    ensures Catalog(SpilledView(), ALL_ALIVE, ONE, OWNER).Ok()
    ensures GrowsAway(SpilledView(), 1, 0, Letters(64))
  {
    var v := SpilledView();
    SpilledChain();
    SpilledDocOk();
    assert Encodes(v, 0, Empty) && Encodes(v, 1, ONE);
    forall o: nat ensures NodeOk(v, ALL_ALIVE, ONE, OWNER, o) && ToastOk(v, ALL_ALIVE, ONE, OWNER, o) && RoomOk(v, o) {
      assert Orders(ONE) == [1];
      if o == 2 { assert Left(v[2]) == 0; }
    }
  }

  // ---------- paths ----------

  /** The document a below the root, and b below a. */
  ghost function NestedView(): View {
    map[0 := ROOT, 1 := Document(DocHeader(1, 80, 80, 2, 0, 0, [A]), []),
        2 := Document(DocHeader(2, 80, 80, 0, 0, 0, [B]), [])]
  }

  const NESTED: Forest := Cons(1, Cons(2, Empty, Empty), Empty)

  /** The step /b finds b from the root, although b is no child of the root. */
  lemma AbsoluteStepTooDeep(test: Tester)
    ensures EncodesTree(NestedView(), NESTED)
    ensures 2 in StepMatches(NestedView(), NESTED, test, Step(false, [B], []), [0]) && 2 !in Roots(Kids(NESTED, 0))
  {
    var v := NestedView();
    assert Encodes(v, 0, Empty) && Encodes(v, 2, Cons(2, Empty, Empty)) && Encodes(v, 1, NESTED);
    assert Orders(NESTED) == [1, 2] && Orders(Cons(2, Empty, Empty)) == [2];
    assert NoDuplicates([2]) && [1, 2][1..] == [2] && NoDuplicates([1, 2]);
    assert OneDeeper(NESTED) == [2] && Roots(NESTED) == [1];
    StepMatchesIff(v, NESTED, test, Step(false, [B], []), [0], 2);
    assert 0 in [0] && 2 in Examined(NESTED, 0, false);
  }

  // ---------- the free list ----------

  /** A request for zero bytes takes the last of two NEW entries, the one the counter does not notice. */
  lemma ZeroBytesUncounted()
    ensures Relevant([Entry(1, 0), Entry(2, 0)], 0) == Some(1)
  {
  }
}
