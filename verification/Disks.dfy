/** The file as a value: index table, blocks by offset, and the order in which blocks lie in the file. */
module Disks {
  import opened Blocks
  import opened FreeLists
  import opened Tilings

  /** What is left of the blocks after `len` bytes are written at `at`: every block the write touches is lost. */
  function Overwritten(blocks: map<nat, Block>, at: nat, len: nat): map<nat, Block> {
    map k | k in blocks && (k + Capacity(blocks[k]) <= at || at + len <= k) :: blocks[k]
  }

  /** Byte x is one of the `len` bytes at `at`. */
  ghost predicate IsByteOf(at: nat, len: nat, x: nat) {
    at <= x < at + len
  }

  /** A block survives a write exactly if none of its bytes is written. */
  lemma OverwrittenIff(blocks: map<nat, Block>, at: nat, len: nat, k: nat)
    requires k in blocks && Capacity(blocks[k]) > 0 && len > 0
    ensures k in Overwritten(blocks, at, len) <==>
            !exists x :: IsByteOf(k, Capacity(blocks[k]), x) && IsByteOf(at, len, x)
    ensures k in Overwritten(blocks, at, len) ==> Overwritten(blocks, at, len)[k] == blocks[k]
  {
    var x := if k < at then at else k;
    if k + Capacity(blocks[k]) > at && at + len > k {
      assert IsByteOf(k, Capacity(blocks[k]), x) && IsByteOf(at, len, x);
    }
  }

  datatype Disk = Disk(index: seq<IndexEntry>, blocks: map<nat, Block>, layout: seq<nat>,
                       betweenSpace: nat, fileSize: nat)
  {
    /** Index o resolves to a block, alive or dead. */
    ghost predicate Attached(o: nat) {
      o < |index| && index[o].flag != New && index[o].offset in blocks
    }

    ghost function BlockOf(o: nat): Block
      requires Attached(o)
    {
      blocks[index[o].offset]
    }

    ghost function View(): View {
      map o: nat | o < |index| && Attached(o) :: BlockOf(o)
    }

    ghost function Extents(): Extents {
      map o: nat | o < |index| && Attached(o) :: Extent(index[o].offset, Capacity(BlockOf(o)))
    }

    ghost function Base(): nat {
      HEADER_SIZE + |index| * INDEX_SIZE + betweenSpace
    }

    /** The layout holds o iff o is ALIVE or DEAD, and then o resolves to a block that carries its number. */
    ghost predicate Listed(o: nat) {
      && (o < |index| ==> index[o].flag != Invalid)
      && (o in layout <==> o < |index| && index[o].flag != New)
      && (o in layout ==> Attached(o) && AttachedTo(BlockOf(o)) == o)
    }

    ghost predicate LiesBelow(k: nat) {
      k in blocks ==> TOAST_HEADER <= Capacity(blocks[k]) && k + Capacity(blocks[k]) <= fileSize
    }

    /** The blocks of all ALIVE and DEAD indexes tile [base, fileSize), each under its own index. */
    ghost predicate OkAt(base: nat) {
      match this
      case Disk(index, _, layout, _, fileSize) =>
        && |index| > 0
        && NoDuplicates(layout)
        && (forall o: nat :: Listed(o))
        && Tiles(Extents(), layout, base, fileSize)
        && (forall k: nat :: LiesBelow(k))
    }

    ghost predicate Ok() {
      match this
      case Disk(_, _, _, between, _) => OkAt(Base()) && between < INDEX_SIZE
    }

    /** e is an entry the free list must hold: a NEW index with size 0, or a DEAD one with its capacity. */
    ghost predicate IsFree(e: Entry) {
      && e.order < |index|
      && (index[e.order].flag == New ==> e.size == 0)
      && (index[e.order].flag == Dead ==> Attached(e.order) && e.size == Capacity(BlockOf(e.order)))
      && (index[e.order].flag == New || index[e.order].flag == Dead)
    }

    ghost predicate CountedIn(free: seq<Entry>, e: Entry) {
      multiset(free)[e] == if IsFree(e) then 1 else 0
    }

    /** The free list holds every index that is not ALIVE exactly once. */
    ghost predicate FreeAgrees(free: seq<Entry>) {
      match this
      case Disk(_, _, _, _, _) => forall e: Entry :: CountedIn(free, e)
    }
  }

  /** An index in the layout: what OkAt says about it. */
  lemma ListedInside(d: Disk, base: nat, o: nat)
    requires d.OkAt(base) && o in d.layout
    ensures d.Attached(o) && AttachedTo(d.BlockOf(o)) == o && Capacity(d.BlockOf(o)) >= TOAST_HEADER
    ensures base <= d.index[o].offset && d.index[o].offset + Capacity(d.BlockOf(o)) <= d.fileSize
  {
    assert d.Listed(o) && d.LiesBelow(d.index[o].offset);
    TilesInside(d.Extents(), d.layout, base, d.fileSize, o);
  }

  /** The free list and the flags agree, entry by entry. */
  lemma FreeIffNotAlive(d: Disk, base: nat, free: seq<Entry>, o: nat)
    requires d.OkAt(base) && d.FreeAgrees(free) && o < |d.index|
    ensures d.index[o].flag == Alive <==> !exists e :: e in free && e.order == o
    ensures d.index[o].flag == New <==> Entry(o, 0) in free
    ensures d.index[o].flag == Dead ==> d.Attached(o) && Entry(o, Capacity(d.BlockOf(o))) in free
  {
    assert d.Listed(o) && d.CountedIn(free, Entry(o, 0));
    if d.index[o].flag == Dead {
      ListedInside(d, base, o);
      assert d.CountedIn(free, Entry(o, Capacity(d.BlockOf(o))));
    }
    forall e | e in free ensures d.IsFree(e) {
      assert d.CountedIn(free, e) && e in multiset(free);
    }
    if d.index[o].flag == New { assert Entry(o, 0) in multiset(free); }
  }

  // ---------- a new file ----------

  /** A file with n indexes and the root document alone. */
  ghost function Initial(n: nat, root: Block): Disk
    requires n > 0
  {
    var at := HEADER_SIZE + n * INDEX_SIZE;
    Disk(seq(n, _ => IndexEntry(New, 0))[0 := IndexEntry(Alive, at)], map[at := root], [0], 0, at + Capacity(root))
  }

  lemma InitialOk(n: nat, root: Block)
    requires n > 0 && AttachedTo(root) == 0 && Capacity(root) >= TOAST_HEADER
    ensures Initial(n, root).Ok() && Initial(n, root).View() == map[0 := root]
    ensures Initial(n, root).FreeAgrees(NewEntries(1, n - 1))
  {
    var d := Initial(n, root);
    forall o: nat ensures (d.Attached(o) <==> o == 0) && d.Listed(o) && d.LiesBelow(o) {
      InitialAt(n, root, o);
    }
    assert d.Extents() == map[0 := Extent(HEADER_SIZE + n * INDEX_SIZE, Capacity(root))];
    assert NoDuplicates(d.layout) && Tiles(d.Extents(), d.layout, d.Base(), d.fileSize);
    var free := NewEntries(1, n - 1);
    forall e: Entry ensures d.CountedIn(free, e) {
      NewEntriesCount(1, n - 1, e);
    }
  }

  lemma InitialAt(n: nat, root: Block, o: nat)
    requires n > 0 && AttachedTo(root) == 0 && Capacity(root) >= TOAST_HEADER
    ensures Initial(n, root).Attached(o) <==> o == 0
    ensures Initial(n, root).Listed(o) && Initial(n, root).LiesBelow(o)
  {
  }

  // ---------- rewriting a block in place ----------

  ghost function Rewritten(d: Disk, o: nat, b: Block): Disk
    requires d.Attached(o)
  {
    d.(blocks := d.blocks[d.index[o].offset := b])
  }

  lemma OffsetsDistinct(d: Disk, base: nat, o: nat, p: nat)
    requires d.OkAt(base) && o in d.layout && p in d.layout && o != p
    ensures d.Attached(o) && d.Attached(p)
    ensures d.index[o].offset + Capacity(d.BlockOf(o)) <= d.index[p].offset
            || d.index[p].offset + Capacity(d.BlockOf(p)) <= d.index[o].offset
    ensures d.index[o].offset != d.index[p].offset
  {
    ListedInside(d, base, o);
    ListedInside(d, base, p);
    TilesDisjoint(d.Extents(), d.layout, base, d.fileSize, o, p);
  }

  lemma RewrittenOk(d: Disk, o: nat, b: Block)
    requires d.Ok() && d.Attached(o)
    requires Capacity(b) == Capacity(d.BlockOf(o)) && AttachedTo(b) == o
    ensures Rewritten(d, o, b).Ok()
    ensures Rewritten(d, o, b).View() == d.View()[o := b]
  {
    var d' := Rewritten(d, o, b);
    assert d.Listed(o) && d.LiesBelow(d.index[o].offset);
    forall p: nat
      ensures d'.Attached(p) == d.Attached(p)
      ensures d.Attached(p) ==> d'.BlockOf(p) == if p == o then b else d.BlockOf(p)
    {
      if p != o && d.Attached(p) { assert d.Listed(p); OffsetsDistinct(d, d.Base(), o, p); }
    }
    assert d'.Extents() == d.Extents();
    forall p: nat ensures d'.Listed(p) && d'.LiesBelow(p) {
      assert d.Listed(p) && d.LiesBelow(p);
    }
  }

  lemma RewrittenFree(d: Disk, o: nat, b: Block, free: seq<Entry>)
    requires d.Ok() && d.Attached(o) && d.FreeAgrees(free)
    requires Capacity(b) == Capacity(d.BlockOf(o)) && AttachedTo(b) == o
    ensures Rewritten(d, o, b).FreeAgrees(free)
  {
    var d' := Rewritten(d, o, b);
    RewrittenOk(d, o, b);
    forall e: Entry ensures d'.CountedIn(free, e) {
      assert d.CountedIn(free, e);
      if e.order < |d.index| && d.index[e.order].flag == Dead {
        assert d.Listed(e.order) && d'.Listed(e.order);
        assert d'.View()[e.order] == if e.order == o then b else d.View()[e.order];
      }
    }
  }

  lemma FreeAgreesPermuted(d: Disk, free: seq<Entry>, free': seq<Entry>)
    requires d.FreeAgrees(free) && multiset(free') == multiset(free)
    ensures d.FreeAgrees(free')
  {
    forall e: Entry ensures d.CountedIn(free', e) { assert d.CountedIn(free, e); }
  }

  // ---------- killing an index ----------

  ghost function Killed(d: Disk, o: nat): Disk
    requires o < |d.index|
  {
    d.(index := d.index[o := d.index[o].(flag := Dead)])
  }

  lemma KilledOk(d: Disk, o: nat, free: seq<Entry>, free': seq<Entry>)
    requires d.Ok() && o < |d.index| && d.index[o].flag == Alive && d.FreeAgrees(free)
    requires d.Attached(o) ==> multiset(free') == multiset(free) + multiset{Entry(o, Capacity(d.BlockOf(o)))}
    ensures d.Attached(o) && Killed(d, o).Ok() && Killed(d, o).View() == d.View()
    ensures Killed(d, o).FreeAgrees(free')
  {
    var d' := Killed(d, o);
    assert d.Listed(o);
    assert forall p: nat :: d'.Attached(p) <==> d.Attached(p);
    assert d'.Extents() == d.Extents();
    forall p: nat ensures d'.Listed(p) && d'.LiesBelow(p) {
      assert d.Listed(p) && d.LiesBelow(p);
    }
    forall e: Entry ensures d'.CountedIn(free', e) {
      assert d.CountedIn(free, e);
    }
  }

  // ---------- giving a free index a block ----------

  /** Where the block of a free index goes: over its dead block, or behind the last block. */
  ghost function Place(d: Disk, o: nat): nat
    requires o < |d.index|
  {
    if d.index[o].flag == New then d.fileSize else d.index[o].offset
  }

  /** Block b for index o, put in place by writing `bytes` bytes. */
  ghost function Placed(d: Disk, o: nat, b: Block, bytes: nat): Disk
    requires o < |d.index|
  {
    var at, grows := Place(d, o), d.index[o].flag == New;
    Disk(d.index[o := IndexEntry(Alive, at)], Overwritten(d.blocks, at, bytes)[at := b],
         if grows then d.layout + [o] else d.layout, d.betweenSpace,
         if grows then d.fileSize + Capacity(b) else d.fileSize)
  }

  lemma OverwrittenAtEnd(d: Disk, base: nat, bytes: nat)
    requires d.OkAt(base)
    ensures Overwritten(d.blocks, d.fileSize, bytes) == d.blocks
  {
    forall k | k in d.blocks ensures k in Overwritten(d.blocks, d.fileSize, bytes) {
      assert d.LiesBelow(k);
    }
  }

  /** Block b for a NEW index, behind the last block. */
  ghost function Appended(d: Disk, o: nat, b: Block): Disk
    requires o < |d.index|
  {
    Disk(d.index[o := IndexEntry(Alive, d.fileSize)], d.blocks[d.fileSize := b], d.layout + [o],
         d.betweenSpace, d.fileSize + Capacity(b))
  }

  lemma PlacedNew(d: Disk, o: nat, b: Block, bytes: nat)
    requires d.Ok() && o < |d.index| && d.index[o].flag == New
    requires AttachedTo(b) == o && Capacity(b) >= TOAST_HEADER
    ensures Placed(d, o, b, bytes).Ok()
    ensures Placed(d, o, b, bytes).View() == d.View()[o := b]
  {
    hide Tiles;
    OverwrittenAtEnd(d, d.Base(), bytes);
    assert Placed(d, o, b, bytes) == Appended(d, o, b);
    assert d.Listed(o);
    AppendedViews(d, o, b);
    NoDuplicatesConcat(d.layout, [o]);
    TilesAppend(d.Extents(), d.layout, d.Base(), d.fileSize, o, Capacity(b));
  }

  lemma AppendedAt(d: Disk, o: nat, b: Block, p: nat)
    requires d.Ok() && o < |d.index| && d.index[o].flag == New && AttachedTo(b) == o && Capacity(b) >= TOAST_HEADER
    ensures Appended(d, o, b).Attached(p) <==> d.Attached(p) || p == o
    ensures Appended(d, o, b).Attached(p) ==> Appended(d, o, b).BlockOf(p) == if p == o then b else d.BlockOf(p)
    ensures Appended(d, o, b).Listed(p) && Appended(d, o, b).LiesBelow(p)
  {
    assert d.Listed(p) && d.LiesBelow(p);
    if p in d.layout { ListedInside(d, d.Base(), p); }
  }

  lemma AppendedViews(d: Disk, o: nat, b: Block)
    requires d.Ok() && o < |d.index| && d.index[o].flag == New && AttachedTo(b) == o && Capacity(b) >= TOAST_HEADER
    ensures Appended(d, o, b).Extents() == d.Extents()[o := Extent(d.fileSize, Capacity(b))]
    ensures Appended(d, o, b).View() == d.View()[o := b]
    ensures forall p: nat :: Appended(d, o, b).Listed(p) && Appended(d, o, b).LiesBelow(p)
  {
    var d' := Appended(d, o, b);
    forall p: nat
      ensures d'.Attached(p) <==> d.Attached(p) || p == o
      ensures d'.Attached(p) ==> d'.BlockOf(p) == if p == o then b else d.BlockOf(p)
      ensures d'.Listed(p) && d'.LiesBelow(p)
    {
      AppendedAt(d, o, b, p);
    }
    SameAttached(d, d', o, b);
  }

  lemma SameAttached(d: Disk, d': Disk, o: nat, b: Block)
    requires o < |d.index| == |d'.index| && d'.index[o].flag != New
    requires forall p: nat :: p < |d.index| && p != o ==> d'.index[p] == d.index[p]
    requires forall p: nat :: d'.Attached(p) <==> d.Attached(p) || p == o
    requires forall p: nat :: d'.Attached(p) ==> d'.BlockOf(p) == if p == o then b else d.BlockOf(p)
    ensures d'.Extents() == d.Extents()[o := Extent(d'.index[o].offset, Capacity(b))]
    ensures d'.View() == d.View()[o := b]
  {
  }

  lemma PlacedDead(d: Disk, o: nat, b: Block, bytes: nat)
    requires d.Ok() && o < |d.index| && d.index[o].flag == Dead && d.Attached(o)
    requires AttachedTo(b) == o && Capacity(b) == Capacity(d.BlockOf(o))
    requires bytes <= Capacity(b)
    ensures Placed(d, o, b, bytes).Ok()
    ensures Placed(d, o, b, bytes).View() == d.View()[o := b]
  {
    hide NoDuplicates, Tiles;
    var d' := Placed(d, o, b, bytes);
    assert d.Listed(o);
    ListedInside(d, d.Base(), o);
    forall p: nat
      ensures d'.Attached(p) <==> d.Attached(p)
      ensures d.Attached(p) ==> d'.BlockOf(p) == if p == o then b else d.BlockOf(p)
      ensures d'.Listed(p) && d'.LiesBelow(p)
    {
      assert d.Listed(p) && d.LiesBelow(p);
      if p in d.layout && p != o {
        OffsetsDistinct(d, d.Base(), o, p);
        ListedInside(d, d.Base(), p);
      }
    }
    assert d'.Extents() == d.Extents();
  }

  lemma PlacedFree(d: Disk, o: nat, size: nat, b: Block, bytes: nat, free: seq<Entry>, free': seq<Entry>)
    requires d.Ok() && d.FreeAgrees(free) && o < |d.index| && d.IsFree(Entry(o, size))
    requires Placed(d, o, b, bytes).Ok() && Placed(d, o, b, bytes).View() == d.View()[o := b]
    requires multiset(free) == multiset(free') + multiset{Entry(o, size)}
    ensures Placed(d, o, b, bytes).FreeAgrees(free')
  {
    var d' := Placed(d, o, b, bytes);
    forall e: Entry ensures d'.CountedIn(free', e) {
      assert d.CountedIn(free, e);
      if e.order < |d.index| && e.order != o && d.index[e.order].flag == Dead {
        assert d.Listed(e.order) && d'.Listed(e.order);
        assert d'.View()[e.order] == d.View()[e.order];
      }
    }
  }

  /** An entry of the free list names a free index; size 0 means NEW. */
  lemma EntryIsFree(d: Disk, base: nat, free: seq<Entry>, k: nat)
    requires d.OkAt(base) && d.FreeAgrees(free) && k < |free|
    ensures d.IsFree(free[k])
    ensures free[k].size == 0 <==> d.index[free[k].order].flag == New
    ensures free[k].size == 0 || free[k].size >= TOAST_HEADER
  {
    var e := free[k];
    assert e in multiset(free) && d.CountedIn(free, e);
    if d.index[e.order].flag == Dead {
      assert d.Listed(e.order);
      ListedInside(d, base, e.order);
    }
  }

  /** A block written for entry k of the free list, within its bounds: the view gains it, the list loses the entry. */
  lemma PlacedOk(d: Disk, free: seq<Entry>, k: nat, b: Block, bytes: nat)
    requires d.Ok() && d.FreeAgrees(free) && k < |free|
    requires AttachedTo(b) == free[k].order && TOAST_HEADER <= Capacity(b) && bytes <= Capacity(b)
    requires free[k].size == 0 || Capacity(b) == free[k].size
    ensures free[k].order < |d.index|
    ensures var d' := Placed(d, free[k].order, b, bytes);
            d'.Ok() && d'.View() == d.View()[free[k].order := b] && d'.FreeAgrees(RemoveAt(free, k))
  {
    var o := free[k].order;
    EntryIsFree(d, d.Base(), free, k);
    if d.index[o].flag == New { PlacedNew(d, o, b, bytes); } else { PlacedDead(d, o, b, bytes); }
    RemoveAtMultiset(free, k);
    PlacedFree(d, o, free[k].size, b, bytes, free, RemoveAt(free, k));
  }

  // ---------- the zero fill of a toast ----------

  /** What is left of the blocks after 32 zero bytes are written at `at`: a block that begins there only loses its
      header; every other block the write touches is lost. */
  function Zeroed(blocks: map<nat, Block>, at: nat): map<nat, Block> {
    map k | k in blocks && (k == at || k + Capacity(blocks[k]) <= at || at + TOAST_HEADER <= k) :: blocks[k]
  }

  /** Zero bytes behind o's block hit the header of the block behind it, if there is one, and no other block. */
  lemma ZeroedBehind(d: Disk, o: nat, at: nat, d': Disk)
    requires d.Ok() && o in d.layout && d.Attached(o) && at == d.index[o].offset + Capacity(d.BlockOf(o))
    requires d' == d.(blocks := Zeroed(d.blocks, at))
    ensures var q := Behind(d.layout, o);
            && (q == o <==> o == d.layout[|d.layout| - 1]) && q in d.layout && d.Attached(q)
            && (q != o ==> d.index[q].offset == at) && (at in d.blocks <==> q != o)
    ensures d'.Ok() && d'.View() == d.View()
  {
    ListedInside(d, d.Base(), o);
    TilesBehind(d.Extents(), d.layout, d.Base(), d.fileSize, o);
    var q := Behind(d.layout, o);
    assert d.Listed(q) && d.LiesBelow(at);
    forall p: nat
      ensures d'.Attached(p) <==> d.Attached(p)
      ensures d.Attached(p) ==> d'.BlockOf(p) == d.BlockOf(p)
      ensures d'.Listed(p) && d'.LiesBelow(p)
    {
      assert d.Listed(p) && d.LiesBelow(p);
      if p in d.layout {
        ListedInside(d, d.Base(), p);
        if p != o { OffsetsDistinct(d, d.Base(), o, p); }
        if q != o && p != q {
          OffsetsDistinct(d, d.Base(), q, p);
          ListedInside(d, d.Base(), q);
        }
      }
    }
    assert d'.Extents() == d.Extents();
  }

  lemma SameViewFree(d: Disk, d': Disk, base: nat, free: seq<Entry>)
    requires d.OkAt(base) && d'.OkAt(base) && d.FreeAgrees(free) && d'.index == d.index && d'.View() == d.View()
    ensures d'.FreeAgrees(free)
  {
    forall e: Entry ensures d'.CountedIn(free, e) {
      assert d.CountedIn(free, e);
      if e.order < |d.index| && d.index[e.order].flag == Dead {
        assert d.Listed(e.order) && d'.Listed(e.order);
        assert d'.View()[e.order] == d.View()[e.order];
      }
    }
  }

  /** A file in which a listed block has lost its header is not in order: the tiling is not what the headers say. */
  lemma TornNotOk(d: Disk, base: nat, o: nat)
    requires d.OkAt(base) && o in d.layout
    ensures d.Attached(o) && !d.(blocks := d.blocks[d.index[o].offset := Torn(d.BlockOf(o))]).OkAt(base)
  {
    assert d.Listed(o);
    var d' := d.(blocks := d.blocks[d.index[o].offset := Torn(d.BlockOf(o))]);
    assert !d'.LiesBelow(d.index[o].offset);
  }

  /** Filling an empty toast writes a header and as many zero bytes as the whole block has: over the start of the
      following block when it reuses a dead block that is not the last one of the file. */
  ghost predicate FillRunsOver(d: Disk, e: Entry) {
    e.size > 0 && d.layout != [] && e.order != d.layout[|d.layout| - 1]
  }

  // ---------- expandIndexes ----------

  /** One round of the copying loop: the first block is copied behind the last one. */
  ghost function Moved(d: Disk, base: nat): Disk
    requires d.layout != [] && d.Attached(d.layout[0])
  {
    var o := d.layout[0];
    var b := d.BlockOf(o);
    Disk(d.index[o := d.index[o].(offset := d.fileSize)],
         Overwritten(d.blocks, d.fileSize, MovedBytes(b))[d.fileSize := b],
         Rotate(d.layout), d.betweenSpace, d.fileSize + MovedBytes(b))
  }

  lemma MovedView(d: Disk, base: nat)
    requires d.OkAt(base) && d.layout != []
    ensures d.Attached(d.layout[0]) && d.index[d.layout[0]].offset == base
    ensures Moved(d, base).View() == d.View()
    ensures Moved(d, base).Extents() ==
            d.Extents()[d.layout[0] := Extent(d.fileSize, Capacity(d.BlockOf(d.layout[0])))]
    ensures forall p: nat :: Moved(d, base).Listed(p)
  {
    hide NoDuplicates, Disk.View;
    var o := d.layout[0];
    assert d.Listed(o) && d.index[o].offset == base;
    hide Disk.Extents;
    var b := d.BlockOf(o);
    OverwrittenAtEnd(d, base, MovedBytes(b));
    RotateElements(d.layout);
    var d' := Disk(d.index[o := d.index[o].(offset := d.fileSize)], d.blocks[d.fileSize := b],
                   Rotate(d.layout), d.betweenSpace, d.fileSize + MovedBytes(b));
    assert Moved(d, base) == d';
    forall p: nat
      ensures d'.Attached(p) <==> d.Attached(p)
      ensures d.Attached(p) ==> d'.BlockOf(p) == d.BlockOf(p)
      ensures d'.Listed(p)
    {
      MovedAt(d, base, d', p);
    }
    MovedMaps(d, d', o, d.fileSize);
  }

  lemma MovedMaps(d: Disk, d': Disk, o: nat, at: nat)
    requires o < |d.index| && d'.index == d.index[o := d.index[o].(offset := at)] && d.Attached(o)
    requires forall p: nat :: d'.Attached(p) <==> d.Attached(p)
    requires forall p: nat :: d'.Attached(p) ==> d'.BlockOf(p) == d.BlockOf(p)
    ensures d'.View() == d.View()
    ensures d'.Extents() == d.Extents()[o := Extent(at, Capacity(d.BlockOf(o)))]
  {
  }

  lemma MovedAt(d: Disk, base: nat, d': Disk, p: nat)
    requires d.OkAt(base) && d.layout != [] && d.Attached(d.layout[0])
    requires d'.index == d.index[d.layout[0] := d.index[d.layout[0]].(offset := d.fileSize)]
    requires d'.blocks == d.blocks[d.fileSize := d.BlockOf(d.layout[0])]
    requires forall o :: o in d'.layout <==> o in d.layout
    ensures d'.Attached(p) <==> d.Attached(p)
    ensures d.Attached(p) ==> d'.BlockOf(p) == d.BlockOf(p)
    ensures d'.Listed(p)
  {
    assert d.Listed(p) && d.Listed(d.layout[0]);
    if p in d.layout { ListedInside(d, base, p); }
  }

  /** Moving the first block keeps the tiling exactly when its size equals its capacity. */
  lemma MovedOkIff(d: Disk, base: nat)
    requires d.OkAt(base) && d.layout != [] && d.Attached(d.layout[0])
    requires 0 < MovedBytes(d.BlockOf(d.layout[0])) <= Capacity(d.BlockOf(d.layout[0]))
    ensures var b := d.BlockOf(d.layout[0]);
            Moved(d, base).OkAt(base + MovedBytes(b)) <==> MovedBytes(b) == Capacity(b)
  {
    var b := d.BlockOf(d.layout[0]);
    MovedView(d, base);
    TilesRotateIff(d.Extents(), d.layout, base, d.fileSize, MovedBytes(b));
    if MovedBytes(b) == Capacity(b) {
      MovedOk(d, base);
    }
  }

  lemma MovedOk(d: Disk, base: nat)
    requires d.OkAt(base) && d.layout != [] && d.Attached(d.layout[0])
    requires 0 < MovedBytes(d.BlockOf(d.layout[0])) == Capacity(d.BlockOf(d.layout[0]))
    ensures Moved(d, base).OkAt(base + MovedBytes(d.BlockOf(d.layout[0])))
  {
    var b := d.BlockOf(d.layout[0]);
    MovedView(d, base);
    TilesRotateIff(d.Extents(), d.layout, base, d.fileSize, MovedBytes(b));
    RotateElements(d.layout);
    OverwrittenAtEnd(d, base, MovedBytes(b));
    assert Moved(d, base).blocks == d.blocks[d.fileSize := b];
    ListedInside(d, base, d.layout[0]);
    forall k: nat ensures Moved(d, base).LiesBelow(k) {
      assert d.LiesBelow(k);
    }
  }

  lemma MovedFree(d: Disk, base: nat, free: seq<Entry>)
    requires d.OkAt(base) && d.layout != [] && d.Attached(d.layout[0]) && d.FreeAgrees(free)
    ensures Moved(d, base).FreeAgrees(free)
  {
    MovedView(d, base);
    var d' := Moved(d, base);
    forall e: Entry ensures d'.CountedIn(free, e) {
      assert d.CountedIn(free, e);
      if e.order < |d.index| && d.index[e.order].flag == Dead {
        assert d.Listed(e.order) && d'.Listed(e.order);
        assert d'.View()[e.order] == d.View()[e.order];
      }
    }
  }

  lemma RotateElements(layout: seq<nat>)
    requires layout != [] && NoDuplicates(layout)
    ensures NoDuplicates(Rotate(layout))
    ensures forall o :: o in Rotate(layout) <==> o in layout
  {
    assert layout == [layout[0]] + layout[1..];
    NoDuplicatesConcat(layout[1..], [layout[0]]);
  }

  /** The n entries start, start + 1, ... as insertNewIndex leaves them: the last one in front. */
  ghost function NewEntries(start: nat, n: nat): (s: seq<Entry>)
    ensures |s| == n
  {
    if n == 0 then [] else [Entry(start + n - 1, 0)] + NewEntries(start, n - 1)
  }

  lemma {:induction false} NewEntriesCount(start: nat, n: nat, e: Entry)
    ensures multiset(NewEntries(start, n))[e] == if e.size == 0 && start <= e.order < start + n then 1 else 0
  {
    if n > 0 {
      NewEntriesCount(start, n - 1, e);
    }
  }

  lemma NewEntriesStep(start: nat, n: nat, s: seq<Entry>) returns (order: nat, more: seq<Entry>)
    ensures order == start + n && more == NewEntries(start, n + 1)
    ensures [Entry(order, 0)] + (NewEntries(start, n) + s) == more + s
  {
    order, more := start + n, NewEntries(start, n + 1);
  }

  lemma {:induction false} NewEntriesAllNew(start: nat, n: nat)
    ensures CountNew(NewEntries(start, n)) == n
  {
    if n > 0 { NewEntriesAllNew(start, n - 1); }
  }

  /** n NEW entries written behind the table. */
  ghost function WithNewIndexes(d: Disk, n: nat, between: nat): Disk {
    Disk(d.index + seq(n, _ => IndexEntry(New, 0)),
         Overwritten(d.blocks, HEADER_SIZE + |d.index| * INDEX_SIZE, n * INDEX_SIZE),
         d.layout, between, d.fileSize)
  }

  /** The new entries only overwrite vacated bytes: every attached block survives. */
  lemma WithNewIndexesOk(d: Disk, base: nat, n: nat, between: nat)
    requires d.OkAt(base)
    requires base == HEADER_SIZE + (|d.index| + n) * INDEX_SIZE + between && between < INDEX_SIZE
    ensures WithNewIndexes(d, n, between).Ok()
    ensures WithNewIndexes(d, n, between).View() == d.View()
  {
    var d' := WithNewIndexes(d, n, between);
    forall p: nat
      ensures d'.Attached(p) <==> d.Attached(p)
      ensures d.Attached(p) ==> d'.BlockOf(p) == d.BlockOf(p)
      ensures d'.Listed(p) && d'.LiesBelow(p)
    {
      assert d.Listed(p) && d.LiesBelow(p);
      if p in d.layout { ListedInside(d, base, p); }
    }
    assert d'.Extents() == d.Extents();
  }

  lemma WithNewIndexesFree(d: Disk, base: nat, n: nat, between: nat, free: seq<Entry>)
    requires d.OkAt(base) && d.FreeAgrees(free)
    requires base == HEADER_SIZE + (|d.index| + n) * INDEX_SIZE + between && between < INDEX_SIZE
    ensures WithNewIndexes(d, n, between).FreeAgrees(NewEntries(|d.index|, n) + free)
  {
    var d' := WithNewIndexes(d, n, between);
    WithNewIndexesOk(d, base, n, between);
    forall e: Entry ensures d'.CountedIn(NewEntries(|d.index|, n) + free, e) {
      assert d.CountedIn(free, e);
      NewEntriesCount(|d.index|, n, e);
      if e.order < |d.index| && d.index[e.order].flag == Dead {
        assert d.Listed(e.order) && d'.Listed(e.order);
        assert d'.View()[e.order] == d.View()[e.order];
      }
    }
  }

  datatype Walked = Unsafe | Walked(layout: seq<nat>, freed: nat)

  /** The walk of the copying loop until it has freed `need` more bytes: the layout it leaves and the number of
      bytes freed in all. Unsafe if it meets a document that fills only part of its block: the loop would
      then read the next header from inside that block. */
  ghost function Walk(view: View, layout: seq<nat>, need: int, freed: nat): Walked
    decreases if need > 0 then need else 0
  {
    if need <= 0 then Walked(layout, freed)
    else if layout == [] || layout[0] !in view then Unsafe
    else
      var b := view[layout[0]];
      if MovedBytes(b) == Capacity(b) > 0 then Walk(view, Rotate(layout), need - Capacity(b), freed + Capacity(b))
      else Unsafe
  }

  lemma WalkStep(view: View, layout: seq<nat>, need: int, freed: nat) returns (need': int, freed': nat)
    requires need > 0 && Walk(view, layout, need, freed).Walked?
    ensures layout != [] && layout[0] in view
    ensures var c := Capacity(view[layout[0]]); need' == need - c && freed' == freed + c
    ensures 0 < MovedBytes(view[layout[0]]) == Capacity(view[layout[0]])
    ensures Walk(view, Rotate(layout), need', freed') == Walk(view, layout, need, freed)
  {
    var c := Capacity(view[layout[0]]);
    need', freed' := need - c, freed + c;
  }

  /** What expandIndexes leaves: the same blocks under the same indexes, slid along the walk, and `gained`
      NEW indexes made of the freed bytes. */
  ghost predicate Expanded(d: Disk, d': Disk, walk: Walked, gained: nat) {
    match walk
    case Unsafe => false
    case Walked(layout, freed) =>
      && d'.View() == d.View()
      && gained == (d.betweenSpace + freed) / INDEX_SIZE
      && d'.betweenSpace == (d.betweenSpace + freed) % INDEX_SIZE
      && d'.layout == layout
      && d'.fileSize == d.fileSize + freed
      && |d'.index| == |d.index| + gained
      && (forall o :: 0 <= o < |d.index| ==> d'.index[o].flag == d.index[o].flag)
      && (forall o :: |d.index| <= o < |d'.index| ==> d'.index[o].flag == New)
  }

  /** No document occupies part of a larger block: enough for every walk. */
  lemma {:induction false} WalkSafeIfExact(view: View, layout: seq<nat>, need: int, freed: nat)
    requires layout != []
    requires forall o :: o in layout ==> o in view && MovedBytes(view[o]) == Capacity(view[o]) > 0
    ensures Walk(view, layout, need, freed).Walked?
    decreases if need > 0 then need else 0
  {
    if need > 0 {
      assert layout[0] in layout;
      assert forall o :: o in Rotate(layout) ==> o in layout;
      var c := Capacity(view[layout[0]]);
      WalkSafeIfExact(view, Rotate(layout), need - c, freed + c);
    }
  }

  /** A walk frees what was asked for, and stops with the block that reaches it, the last one of the layout it
      leaves. */
  lemma {:induction false} WalkFreed(view: View, layout: seq<nat>, need: int, freed: nat)
    requires need > 0 && Walk(view, layout, need, freed).Walked?
    ensures var w := Walk(view, layout, need, freed);
            && w.layout != [] && w.layout[|w.layout| - 1] in layout && w.layout[|w.layout| - 1] in view
            && freed + need <= w.freed < freed + need + Capacity(view[w.layout[|w.layout| - 1]])
    decreases need
  {
    var c, next := Capacity(view[layout[0]]), Rotate(layout);
    assert next[|next| - 1] == layout[0] && layout[0] in layout;
    if need > c {
      WalkFreed(view, next, need - c, freed + c);
      assert forall o :: o in next ==> o in layout;
    }
  }

  /** The copying loop from here on, while it needs more bytes: every state it passes is in order from its base on. */
  ghost predicate StaysOk(d: Disk, base: nat, need: int)
    decreases if need > 0 then need else 0
  {
    && d.OkAt(base)
    && (need > 0 ==>
          && d.layout != [] && d.Attached(d.layout[0])
          && var bytes := MovedBytes(d.BlockOf(d.layout[0]));
             bytes > 0 && StaysOk(Moved(d, base), base + bytes, need - bytes))
  }

  /** No document is larger than its block, and none is empty. */
  ghost predicate Fitting(view: View, layout: seq<nat>) {
    forall o :: o in layout && o in view ==> 0 < MovedBytes(view[o]) <= Capacity(view[o])
  }

  lemma StaysStep(d: Disk, base: nat, need: int)
    requires d.OkAt(base) && need > 0 && d.layout != [] && d.Attached(d.layout[0])
    requires 0 < MovedBytes(d.BlockOf(d.layout[0])) <= Capacity(d.BlockOf(d.layout[0]))
    ensures var bytes := MovedBytes(d.BlockOf(d.layout[0]));
            StaysOk(d, base, need) <==>
            bytes == Capacity(d.BlockOf(d.layout[0])) && StaysOk(Moved(d, base), base + bytes, need - bytes)
  {
    hide Disk.OkAt, Moved;
    MovedOkIff(d, base);
  }

  /** The loop passes states in order only, exactly if its walk meets no document smaller than its block. */
  lemma {:induction false} StaysOkIff(d: Disk, base: nat, need: int, freed: nat)
    requires d.OkAt(base) && Fitting(d.View(), d.layout)
    ensures StaysOk(d, base, need) <==> Walk(d.View(), d.layout, need, freed).Walked?
    decreases if need > 0 then need else 0
  {
    hide Disk.OkAt, Moved, NoDuplicates;
    if need > 0 && d.layout != [] {
      FirstFits(d, base);
      StaysStep(d, base, need);
      var bytes := MovedBytes(d.BlockOf(d.layout[0]));
      if bytes == Capacity(d.BlockOf(d.layout[0])) {
        StaysNext(d, base, need, freed, bytes);
        StaysOkIff(Moved(d, base), base + bytes, need - bytes, freed + bytes);
      }
    }
  }

  lemma FirstFits(d: Disk, base: nat)
    requires d.OkAt(base) && Fitting(d.View(), d.layout) && d.layout != []
    ensures d.Attached(d.layout[0]) && d.layout[0] in d.View() && d.View()[d.layout[0]] == d.BlockOf(d.layout[0])
    ensures 0 < MovedBytes(d.BlockOf(d.layout[0])) <= Capacity(d.BlockOf(d.layout[0]))
  {
    MovedView(d, base);
  }

  lemma StaysNext(d: Disk, base: nat, need: int, freed: nat, bytes: nat)
    requires d.OkAt(base) && Fitting(d.View(), d.layout) && need > 0 && d.layout != [] && d.Attached(d.layout[0])
    requires bytes == MovedBytes(d.BlockOf(d.layout[0])) == Capacity(d.BlockOf(d.layout[0])) && bytes > 0
    ensures Moved(d, base).OkAt(base + bytes) && Fitting(Moved(d, base).View(), Moved(d, base).layout)
    ensures Walk(d.View(), d.layout, need, freed) ==
            Walk(Moved(d, base).View(), Moved(d, base).layout, need - bytes, freed + bytes)
  {
    MovedView(d, base);
    MovedOk(d, base);
    RotateElements(d.layout);
  }
}
