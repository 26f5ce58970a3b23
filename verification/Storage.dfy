/** An open file: header counters, index table, blocks, free list; and the allocator on top of them. */
module Storage {
  import opened Blocks
  import opened Disks
  import opened Tilings
  import opened FreeLists
  import FreeListFiles
  import opened Forests

  class ZgdbFile {
    var index: seq<IndexEntry>       // the mapped index table; indexCount is its length
    var blocks: map<nat, Block>      // what is stored, by offset, zeroed headers aside
    var zeroed: set<nat>             // the offsets of blocks whose first 32 bytes the fill of a toast has zeroed
    var fileSize: nat
    var betweenSpace: nat
    var nodes: nat
    var freeList: FreeList
    ghost var layout: seq<nat>       // attached indexes in the order of their blocks in the file
    ghost var tree: Forest           // the documents below the root
    ghost var owner: map<nat, nat>   // the document whose texts a toast holds

    ghost function Repr(): set<object>
      reads this, freeList
    {
      {this, freeList} + freeList.Repr
    }

    ghost function Image(): Disk
      reads this
    {
      Disk(index, blocks, layout, betweenSpace, fileSize)
    }

    ghost function View(): View
      reads this
    {
      Image().View()
    }

    ghost predicate ListOk()
      reads this, freeList, freeList.Repr
    {
      freeList.Valid() && freeList.NewExact() && this !in freeList.Repr
    }

    /** The blocks tile the data region and the free list agrees with the flags, once zeroed headers are written
        again. */
    ghost predicate Standing()
      reads this, freeList, freeList.Repr
    {
      ListOk() && Image().Ok() && Image().FreeAgrees(freeList.entries)
    }

    /** The allocator's invariant: the same, and no header is zeroed. */
    ghost predicate Valid()
      reads this, freeList, freeList.Repr
    {
      Standing() && zeroed == {}
    }

    /** The block of this index has its header. */
    ghost predicate Whole(order: nat)
      reads this
    {
      order < |index| ==> index[order].offset !in zeroed
    }

    /** What is on the disk: like the view, but zeroed headers read as zeros. */
    ghost function Shown(): View
      reads this
    {
      map o | o in View() :: if Whole(o) then View()[o] else Torn(View()[o])
    }

    // ---------- zgdbindex.c ----------

    function GetIndex(order: nat): IndexEntry
      reads this
    {
      if order >= |index| then IndexEntry(Invalid, 0) else index[order]
    }

    method AttachIndexToBlock(order: nat, blockOffset: nat) returns (ok: bool)
      modifies this`index
      ensures ok <==> order < |old(index)|
      ensures index == if ok then old(index)[order := IndexEntry(Alive, blockOffset)] else old(index)
    {
      if order >= |index| {
        return false;
      }
      index := index[order := IndexEntry(Alive, blockOffset)];
      return true;
    }

    /** Kills an ALIVE index and nothing else; the block stays where it is. */
    method KillIndex(order: nat) returns (ok: bool)
      modifies this`index
      ensures ok <==> order < |old(index)| && old(index)[order].flag == Alive
      ensures index == if ok then old(index)[order := IndexEntry(Dead, old(index)[order].offset)] else old(index)
    {
      if order >= |index| {
        return false;
      }
      if index[order].flag != Alive {
        return false;
      }
      index := index[order := index[order].(flag := Dead)];
      return true;
    }

    method UpdateOffset(order: nat, offset: nat) returns (ok: bool)
      modifies this`index
      ensures ok <==> order < |old(index)|
      ensures index == if ok then old(index)[order := old(index)[order].(offset := offset)] else old(index)
    {
      if order >= |index| {
        return false;
      }
      index := index[order := index[order].(offset := offset)];
      return true;
    }

    method CreateIndexes(n: nat, expand: bool)
      modifies this`index, this`blocks, this`fileSize
      ensures index == old(index) + seq(n, _ => IndexEntry(New, 0))
      ensures blocks == Overwritten(old(blocks), HEADER_SIZE + |old(index)| * INDEX_SIZE, n * INDEX_SIZE)
      ensures fileSize == if expand then old(fileSize) else old(fileSize) + n * INDEX_SIZE
    {
      blocks := Overwritten(blocks, HEADER_SIZE + |index| * INDEX_SIZE, n * INDEX_SIZE);
      index := index + seq(n, _ => IndexEntry(New, 0));
      if !expand {
        fileSize := fileSize + n * INDEX_SIZE;
      }
    }

    // ---------- init, finish ----------

    /** A new file: the index table, the root document right behind it, every other index NEW. */
    constructor Create()
      ensures Valid() && fresh(freeList) && fresh(freeList.Repr)
      ensures View() == map[0 := Document(Header(80, 80, 0, 0, 0, 0, 0, [114, 111, 111, 116]), [])]
      ensures fileSize == 32 + 50000 * 9 + 80 && betweenSpace == 0 && index[..1] == [IndexEntry(Alive, 32 + 50000 * 9)]
      ensures tree == Empty && owner == map[] && nodes == 1
      ensures layout == [0] && |index| == 50000
      ensures freeList.entries == NewEntries(1, 49999)
    {
      hide NewEntries;
      freeList := new FreeList();
      index, blocks, zeroed := [], map[], {};
      fileSize, betweenSpace, nodes := HEADER_SIZE, 0, 0;
      layout := [];
      new;
      assert freeList.entries == [] && fresh(freeList.Repr);
      WriteInitialBlocks();
      InsertNewIndexes(1, INDEX_INITIAL_CAPACITY - 1);
      assert fresh(freeList.Repr);
      assert freeList.entries == NewEntries(1, INDEX_INITIAL_CAPACITY - 1);
      tree, owner := Empty, map[];
      InitialOk(INDEX_INITIAL_CAPACITY, RootBlock());
    }

    method WriteInitialBlocks()
      requires index == [] && blocks == map[] && fileSize == HEADER_SIZE && betweenSpace == 0 && nodes == 0
      modifies this`index, this`blocks, this`fileSize, this`nodes, this`layout
      ensures Image() == Initial(INDEX_INITIAL_CAPACITY, RootBlock()) && nodes == 1
    {
      CreateIndexes(INDEX_INITIAL_CAPACITY, false);
      assert blocks == map[];
      var offset := |index| * INDEX_SIZE + HEADER_SIZE;
      CreateRootDocument(offset);
      assert blocks == map[offset := RootBlock()];
      var _ := AttachIndexToBlock(0, offset);
      layout := [0];
    }

    method CreateRootDocument(offset: nat)
      modifies this`blocks, this`fileSize, this`nodes
      ensures blocks == Overwritten(old(blocks), offset, DOC_HEADER)[offset := RootBlock()]
      ensures fileSize == old(fileSize) + DOC_HEADER && nodes == old(nodes) + 1
    {
      blocks := Overwritten(blocks, offset, DOC_HEADER)[offset := RootBlock()];
      fileSize := fileSize + DOC_HEADER;
      nodes := nodes + 1;
    }

    /** The loops of init and expandIndexes that put a range of new indexes in the free list. */
    method InsertNewIndexes(start: nat, n: nat)
      requires ListOk()
      modifies freeList.Repr
      ensures ListOk() && fresh(freeList.Repr - old(freeList.Repr))
      ensures freeList.entries == NewEntries(start, n) + old(freeList.entries)
    {
      hide NewEntries;
      ghost var now := NewEntries(start, 0);
      for i := 0 to n
        invariant ListOk() && fresh(freeList.Repr - old(freeList.Repr))
        invariant freeList.entries == now + old(freeList.entries) && now == NewEntries(start, i)
      {
        ghost var order, more := NewEntriesStep(start, i, old(freeList.entries));
        CountNewInsertAt(freeList.entries, 0, Entry(order, 0));
        freeList.InsertNewIndex(start + i);
        now := more;
      }
    }

    static function RootBlock(): Block {
      Document(Header(DOC_HEADER, DOC_HEADER, 0, 0, 0, 0, 0, ROOT_NAME), [])
    }

    /** finish followed by init: the file is as before, the free list is rebuilt from its saved form. */
    method Reopen()
      requires Valid()
      modifies this`freeList
      ensures Valid() && fresh(freeList.Repr)
      ensures freeList.entries == FreeListFiles.Rebuilt(old(freeList.entries))
      ensures freeList.newIndexesCount == old(freeList.newIndexesCount)
      ensures Image() == old(Image())
    {
      var saved := FreeListFiles.WriteFreelist(freeList);
      FreeListFiles.ReloadKeepsEntries(freeList.entries);
      FreeAgreesPermuted(Image(), freeList.entries, FreeListFiles.Rebuilt(freeList.entries));
      freeList := FreeListFiles.ReadFreeList(saved);
    }

    // ---------- reading and rewriting a block through the index table ----------

    /** The block an index resolves to, its header as it was before it was zeroed, if it was. */
    function Stored(order: nat): (b: Block)
      requires Standing() && order in View()
      reads this, freeList, freeList.Repr
      ensures b == View()[order] && AttachedTo(b) == order
    {
      assert Image().Listed(order);
      blocks[GetIndex(order).offset]
    }

    /** Reads the block an index resolves to. */
    function ReadBlock(order: nat): (b: Block)
      requires Standing() && order in View()
      reads this, freeList, freeList.Repr
      ensures b == Shown()[order]
      ensures Whole(order) ==> b == View()[order] && AttachedTo(b) == order
    {
      if GetIndex(order).offset in zeroed then Torn(Stored(order)) else Stored(order)
    }

    /** Changes the contents of a block; a header that was zeroed stays zeroed. */
    method WriteBlock(order: nat, b: Block)
      requires Standing() && order in View()
      requires Capacity(b) == Capacity(View()[order]) && AttachedTo(b) == order
      modifies this`blocks
      ensures Standing() && View() == old(View())[order := b]
    {
      RewrittenOk(Image(), order, b);
      RewrittenFree(Image(), order, b, freeList.entries);
      ghost var d' := Rewritten(Image(), order, b);
      var entry := GetIndex(order);
      blocks := blocks[entry.offset := b];
      assert Image() == d';
    }

    /** Changes a block's header as well: whatever had zeroed it, it is there again. */
    method WriteWithHeader(order: nat, b: Block)
      requires Standing() && order in View()
      requires Capacity(b) == Capacity(View()[order]) && AttachedTo(b) == order
      modifies this`blocks, this`zeroed
      ensures Standing() && View() == old(View())[order := b]
      ensures order < |index| && zeroed == old(zeroed) - {index[order].offset}
    {
      WriteBlock(order, b);
      zeroed := zeroed - {GetIndex(order).offset};
    }

    // ---------- expandIndexes ----------

    /** One round of the copying loop: copies the block at nextBlock behind the last block. */
    method MoveBlock(nextBlock: nat, ghost free: seq<Entry>) returns (bufSize: nat, next: nat)
      requires Image().OkAt(nextBlock) && layout != [] && Image().FreeAgrees(free) && zeroed == {}
      requires layout[0] in View() && 0 < MovedBytes(View()[layout[0]]) == Capacity(View()[layout[0]])
      modifies this`index, this`blocks, this`fileSize, this`layout
      ensures bufSize == Capacity(old(View())[old(layout)[0]])
      ensures next == nextBlock + bufSize && Image().OkAt(next) && Image().FreeAgrees(free)
      ensures View() == old(View())
      ensures layout == Rotate(old(layout)) && fileSize == old(fileSize) + bufSize
      ensures SameFlags(old(index), index)
    {
      ghost var d := Image();
      MovedOk(d, nextBlock);
      MovedView(d, nextBlock);
      MovedFree(d, nextBlock, free);
      bufSize := CopyBlock(nextBlock);
      next := nextBlock + bufSize;
      layout := Rotate(layout);
      assert Image() == Moved(d, nextBlock);
    }

    static ghost predicate SameFlags(was: seq<IndexEntry>, now: seq<IndexEntry>) {
      |now| == |was| && forall o :: 0 <= o < |was| ==> now[o].flag == was[o].flag
    }

    method CopyBlock(nextBlock: nat) returns (bufSize: nat)
      requires Image().OkAt(nextBlock) && layout != [] && zeroed == {}
      modifies this`index, this`blocks, this`fileSize
      ensures var b := old(Image().BlockOf(layout[0]));
              && bufSize == MovedBytes(b) && fileSize == old(fileSize) + bufSize
              && blocks == Overwritten(old(blocks), old(fileSize), bufSize)[old(fileSize) := b]
              && index == old(index)[layout[0] := old(index)[layout[0]].(offset := old(fileSize))]
    {
      MovedView(Image(), nextBlock);
      assert Image().Listed(layout[0]);
      var b := blocks[nextBlock];
      var indexOrderToUpdate;
      match b {
        case Document(header, _) =>
          bufSize := header.size;
          indexOrderToUpdate := header.indexAttached;
        case Toast(capacity, _, indexAttached, _, _) =>
          bufSize := capacity;
          indexOrderToUpdate := indexAttached;
      }
      assert indexOrderToUpdate == layout[0];
      blocks := Overwritten(blocks, fileSize, bufSize)[fileSize := b];
      var _ := UpdateOffset(indexOrderToUpdate, fileSize);
      fileSize := fileSize + bufSize;
    }

    static const EXPANSION: nat := INDEX_MULTIPLIER * INDEX_INITIAL_CAPACITY * INDEX_SIZE

    /** The walk expandIndexes makes from the present state. */
    ghost function Expansion(): Walked
      reads this
    {
      ExpansionOf(Image())
    }

    static ghost function ExpansionOf(d: Disk): Walked {
      Walk(d.View(), d.layout, EXPANSION - d.betweenSpace, 0)
    }

    /** Slides blocks to the end of the file until the freed space holds the new indexes. */
    method ExpandIndexes() returns (ghost gained: nat)
      requires Valid() && Expansion().Walked?
      modifies this`index, this`blocks, this`fileSize, this`layout, this`betweenSpace, freeList.Repr
      ensures Valid() && fresh(freeList.Repr - old(freeList.Repr))
      ensures Expanded(old(Image()), Image(), old(Expansion()), gained)
      ensures gained >= 200000 && layout != [] && layout[|layout| - 1] in View()
      ensures 4 * 50000 * 9 <= gained * 9 + betweenSpace < 4 * 50000 * 9 + Capacity(View()[layout[|layout| - 1]])
      ensures fileSize == old(fileSize) + gained * 9 + betweenSpace - old(betweenSpace)
      ensures freeList.entries == NewEntries(|old(index)|, gained) + old(freeList.entries)
    {
      hide NewEntries, Disk.View;
      ghost var d, walk := Image(), Expansion();
      WalkFreed(View(), layout, EXPANSION - betweenSpace, 0);
      var currentFreeSize, nextBlock := FreeBlocks(freeList.entries);
      ghost var index1 := index;
      gained := GrowTable(currentFreeSize, nextBlock);
      ExpandedBy(d, Image(), walk, index1, currentFreeSize, gained);
    }

    static lemma ExpandedBy(d: Disk, d': Disk, walk: Walked, index: seq<IndexEntry>, currentFreeSize: nat, gained: nat)
      requires walk.Walked? && currentFreeSize == d.betweenSpace + walk.freed && SameFlags(d.index, index)
      requires d'.View() == d.View() && d'.layout == walk.layout && d'.fileSize == d.fileSize + walk.freed
      requires gained == currentFreeSize / INDEX_SIZE && d'.betweenSpace == currentFreeSize % INDEX_SIZE
      requires d'.index == index + seq(gained, _ => IndexEntry(New, 0))
      ensures Expanded(d, d', walk, gained)
    {
    }

    /** The copying loop of expandIndexes. */
    method FreeBlocks(ghost free: seq<Entry>) returns (currentFreeSize: nat, nextBlock: nat)
      requires Image().Ok() && Image().FreeAgrees(free) && zeroed == {} && Expansion().Walked?
      modifies this`index, this`blocks, this`fileSize, this`layout
      ensures Image().OkAt(nextBlock) && Image().FreeAgrees(free)
      ensures View() == old(View()) && SameFlags(old(index), index)
      ensures nextBlock == HEADER_SIZE + |index| * INDEX_SIZE + currentFreeSize
      ensures layout == old(Expansion().layout) && fileSize == old(fileSize) + old(Expansion().freed)
      ensures EXPANSION <= currentFreeSize == betweenSpace + old(Expansion().freed)
    {
      ghost var view, between, goal := View(), betweenSpace, Expansion();
      var reqSize := EXPANSION;
      currentFreeSize := betweenSpace;
      nextBlock := HEADER_SIZE + |index| * INDEX_SIZE + betweenSpace;
      ghost var need, freed: nat := EXPANSION - betweenSpace, 0;
      while currentFreeSize < reqSize
        invariant Image().OkAt(nextBlock) && Image().FreeAgrees(free)
        invariant View() == view && SameFlags(old(index), index)
        invariant nextBlock == HEADER_SIZE + |index| * INDEX_SIZE + currentFreeSize
        invariant fileSize == old(fileSize) + freed
        invariant need == reqSize - currentFreeSize && freed == currentFreeSize - between
        invariant Walk(view, layout, need, freed) == goal
        decreases reqSize - currentFreeSize
      {
        need, freed := WalkStep(view, layout, need, freed);
        var bufSize;
        bufSize, nextBlock := MoveBlock(nextBlock, free);
        currentFreeSize := currentFreeSize + bufSize;
      }
    }

    /** The second half of expandIndexes: turns the freed bytes into NEW indexes. */
    method GrowTable(currentFreeSize: nat, ghost nextBlock: nat) returns (ghost gained: nat)
      requires ListOk() && Image().OkAt(nextBlock) && Image().FreeAgrees(freeList.entries)
      requires nextBlock == HEADER_SIZE + |index| * INDEX_SIZE + currentFreeSize
      modifies this`index, this`blocks, this`fileSize, this`betweenSpace, freeList.Repr
      ensures Standing() && fresh(freeList.Repr - old(freeList.Repr))
      ensures View() == old(View()) && fileSize == old(fileSize)
      ensures gained == currentFreeSize / INDEX_SIZE && betweenSpace == currentFreeSize % INDEX_SIZE
      ensures index == old(index) + seq(gained, _ => IndexEntry(New, 0))
      ensures freeList.entries == NewEntries(|old(index)|, gained) + old(freeList.entries)
    {
      hide Disk.View;
      gained := currentFreeSize / INDEX_SIZE;
      var newIndexesCount := currentFreeSize / INDEX_SIZE;
      WithNewIndexesFree(Image(), nextBlock, gained, currentFreeSize % INDEX_SIZE, freeList.entries);
      WithNewIndexesOk(Image(), nextBlock, gained, currentFreeSize % INDEX_SIZE);
      ghost var d' := WithNewIndexes(Image(), gained, currentFreeSize % INDEX_SIZE);
      betweenSpace := currentFreeSize % INDEX_SIZE;
      InsertNewIndexes(|index|, newIndexesCount);
      CreateIndexes(newIndexesCount, true);
      assert Image() == d';
    }

    // ---------- createNewToast, and the block allocation in createDocument ----------

    /** The entry the free list serves a request from. */
    ghost function Chosen(reqSize: nat): Entry
      requires Relevant(freeList.entries, reqSize).Some?
      reads this, freeList
    {
      freeList.entries[Relevant(freeList.entries, reqSize).value]
    }

    static function EmptyToast(order: nat, capacity: nat): Block {
      Toast(capacity, 0, order, 0, map[])
    }

    /** The index whose header the fill of a toast for entry e zeroes, if it runs over. */
    static ghost function Hit(d: Disk, e: Entry): Option<nat> {
      if FillRunsOver(d, e) then Some(Behind(d.layout, e.order)) else None
    }

    /** The index whose header the fill of a toast for this request zeroes. */
    ghost function Struck(reqSize: nat): Option<nat>
      reads this, freeList
    {
      StruckOn(Image(), freeList.entries, reqSize)
    }

    static ghost function StruckOn(d: Disk, free: seq<Entry>, reqSize: nat): Option<nat> {
      if Relevant(free, reqSize).Some? then Hit(d, free[Relevant(free, reqSize).value]) else None
    }

    /** The offset of an index, in a set; nothing for no index. */
    static ghost function OffsetOf(index: seq<IndexEntry>, q: Option<nat>): set<nat> {
      if q.Some? && q.value < |index| then {index[q.value].offset} else {}
    }

    /** An ALIVE or DEAD index: it has a block. */
    static ghost predicate HasBlock(index: seq<IndexEntry>, q: nat) {
      q < |index| && index[q].flag != New
    }

    /** q, unless that is t. */
    static ghost function Without(q: Option<nat>, t: nat): Option<nat> {
      if q == Some(t) then None else q
    }

    /** Which header is missing once that of t is written, and whose headers are there. */
    lemma ZeroedWithout(q: Option<nat>, t: nat)
      requires Standing() && HasBlock(index, t) && (q.Some? ==> HasBlock(index, q.value))
      ensures OffsetOf(index, q) - {index[t].offset} == OffsetOf(index, Without(q, t))
      ensures index[t].offset !in OffsetOf(index, Without(q, t))
      ensures index[t].offset in OffsetOf(index, q) <==> q == Some(t)
    {
      assert Image().Listed(t);
      if q.Some? {
        assert Image().Listed(q.value);
        if q.value != t { OffsetsDistinct(Image(), Image().Base(), t, q.value); }
      }
    }

    /** Another index than o, with a block, or none. */
    static ghost predicate Other(index: seq<IndexEntry>, q: Option<nat>, o: nat) {
      q.Some? ==> HasBlock(index, q.value) && q.value != o
    }

    /** Takes an index for a toast and writes an empty toast for it. The block behind it loses its header exactly
        when the zero fill runs over; nothing else is damaged. */
    method PlaceToast(reqSize: nat, capIfNew: nat) returns (order: nat)
      requires Valid() && reqSize > 0 && capIfNew >= TOAST_HEADER
      requires Relevant(freeList.entries, reqSize).Some?
      modifies this`index, this`blocks, this`zeroed, this`fileSize, this`layout, freeList.Repr
      ensures Standing() && fresh(freeList.Repr - old(freeList.Repr))
      ensures zeroed == OffsetOf(index, old(Struck(reqSize))) && Other(index, old(Struck(reqSize)), order)
      ensures order == old(Chosen(reqSize)).order
      ensures var e := old(Chosen(reqSize));
                && View() == old(View())[order := Toast(if e.size == 0 then capIfNew else e.size, 0, order, 0, map[])]
                && fileSize == old(fileSize) + (if e.size == 0 then capIfNew else 0)
                && layout == old(layout) + (if e.size == 0 then [order] else [])
      ensures Taken(old(freeList.entries), reqSize, freeList.entries)
      ensures OneAttached(old(index), order, index) && Whole(order)
    {
      ghost var free, k := freeList.entries, Relevant(freeList.entries, reqSize).value;
      EntryIsFree(Image(), Image().Base(), free, k);
      var meta := freeList.FindRelevantIndex(reqSize);
      order := meta.value.order;
      var cap := if meta.value.size == 0 then capIfNew else meta.value.size;
      FillToast(order, cap, free, k);
    }

    method FillToast(order: nat, cap: nat, ghost free: seq<Entry>, ghost k: nat)
      requires Image().Ok() && Image().FreeAgrees(free) && k < |free| && order == free[k].order
      requires cap >= TOAST_HEADER && (free[k].size == 0 || cap == free[k].size) && zeroed == {}
      modifies this`index, this`blocks, this`zeroed, this`fileSize, this`layout
      ensures Image().Ok() && Image().FreeAgrees(RemoveAt(free, k))
      ensures zeroed == OffsetOf(index, Hit(old(Image()), free[k])) && Other(index, Hit(old(Image()), free[k]), order)
      ensures View() == old(View())[order := EmptyToast(order, cap)]
      ensures fileSize == old(fileSize) + (if free[k].size == 0 then cap else 0)
      ensures layout == old(layout) + (if free[k].size == 0 then [order] else [])
      ensures OneAttached(old(index), order, index) && Whole(order)
    {
      ghost var d := Image();
      EntryIsFree(d, d.Base(), free, k);
      ghost var d1, d2 := PutToast(order, cap);
      FilledOk(d, order, cap, free, k, d1, d2);
      HitOther(d, free[k], index);
    }

    /** The header and the bytes of a toast, and 32 more. */
    method PutToast(order: nat, cap: nat) returns (ghost d1: Disk, ghost d2: Disk)
      requires order < |index| && (index[order].flag == New || index[order].flag == Dead) && zeroed == {}
      modifies this`index, this`blocks, this`zeroed, this`fileSize, this`layout
      ensures d1 == Placed(old(Image()), order, EmptyToast(order, cap), cap) && order < |d1.index|
      ensures d2 == d1.(blocks := Zeroed(d1.blocks, d1.index[order].offset + cap)) && Image() == d2
      ensures var at := d1.index[order].offset + cap; zeroed == if at in d1.blocks then {at} else {}
    {
      Write(order, EmptyToast(order, cap), cap);
      d1 := Image();
      WriteZeros(GetIndex(order).offset + cap);
      d2 := Image();
    }

    /** The zero bytes of a toast's fill that lie behind its block. */
    method WriteZeros(at: nat)
      modifies this`blocks, this`zeroed
      ensures blocks == Zeroed(old(blocks), at)
      ensures zeroed == old(zeroed) + if at in old(blocks) then {at} else {}
    {
      if at in blocks {
        zeroed := zeroed + {at};
      }
      blocks := Zeroed(blocks, at);
    }

    /** A toast placed and filled: the file stands, and the fill hit the block behind the toast, if it ran over. */
    static lemma FilledOk(d: Disk, order: nat, cap: nat, free: seq<Entry>, k: nat, d1: Disk, d2: Disk)
      requires d.Ok() && d.FreeAgrees(free) && k < |free| && order == free[k].order && order < |d.index|
      requires cap >= TOAST_HEADER && (free[k].size == 0 || cap == free[k].size)
      requires d1 == Placed(d, order, EmptyToast(order, cap), cap)
      requires d2 == d1.(blocks := Zeroed(d1.blocks, d1.index[order].offset + cap))
      ensures d2.Ok() && d2.FreeAgrees(RemoveAt(free, k)) && d2.View() == d.View()[order := EmptyToast(order, cap)]
      ensures var at := d1.index[order].offset + cap;
              (if at in d1.blocks then {at} else {}) == OffsetOf(d.index, Hit(d, free[k]))
    {
      hide OneAttached, Disk.View;
      var at := d1.index[order].offset + cap;
      EntryIsFree(d, d.Base(), free, k);
      PlacedOk(d, free, k, EmptyToast(order, cap), cap);
      ToastThere(d1, order, cap, d.View());
      ZeroedBehind(d1, order, at, d2);
      SameViewFree(d1, d2, d1.Base(), RemoveAt(free, k));
    }

    /** The fill of a toast hits the block behind it, never the toast itself. */
    static lemma HitOther(d: Disk, e: Entry, index: seq<IndexEntry>)
      requires d.Ok() && d.IsFree(e) && OneAttached(d.index, e.order, index)
      requires index[e.order].offset == Disks.Place(d, e.order)
      requires d.index[e.order].flag == New <==> e.size == 0
      ensures Other(index, Hit(d, e), e.order) && OffsetOf(index, Hit(d, e)) == OffsetOf(d.index, Hit(d, e))
      ensures Disks.Place(d, e.order) !in OffsetOf(index, Hit(d, e))
    {
      if FillRunsOver(d, e) {
        var o, q := e.order, Behind(d.layout, e.order);
        assert d.Listed(o);
        TilesBehind(d.Extents(), d.layout, d.Base(), d.fileSize, o);
        assert d.Listed(q);
        OffsetsDistinct(d, d.Base(), o, q);
      }
    }

    static lemma ToastThere(d1: Disk, order: nat, cap: nat, v: View)
      requires d1.Ok() && d1.View() == v[order := EmptyToast(order, cap)]
      ensures d1.Attached(order) && d1.BlockOf(order) == EmptyToast(order, cap) && order in d1.layout
    {
      assert order in d1.View() && d1.Listed(order);
    }

    static ghost predicate Taken(was: seq<Entry>, reqSize: nat, now: seq<Entry>) {
      Relevant(was, reqSize).Some? && now == RemoveAt(was, Relevant(was, reqSize).value)
    }

    static ghost predicate OneAttached(was: seq<IndexEntry>, order: nat, now: seq<IndexEntry>) {
      && order < |was| == |now|
      && was[order].flag != Alive && now[order].flag == Alive
      && (was[order].flag != New ==> now[order].offset == was[order].offset)
      && now == was[order := now[order]]
    }

    /** Takes an index for a document of docSize bytes and writes header and elements into its block. */
    method PlaceDocument(docSize: nat, brother: nat, toastIndex: nat, name: CString, elements: seq<Stored>)
      returns (order: nat, ghost capacity: nat)
      requires Standing() && docSize >= TOAST_HEADER
      requires Relevant(freeList.entries, docSize).Some?
      modifies this`index, this`blocks, this`zeroed, this`fileSize, this`layout, freeList.Repr
      ensures Standing() && fresh(freeList.Repr - old(freeList.Repr))
      ensures order == old(Chosen(docSize)).order && order < |index| && zeroed == old(zeroed) - {index[order].offset}
      ensures View() == old(View())[order := NewDocument(docSize, capacity, order, brother, toastIndex, name, elements)]
      ensures ReusesDead(old(freeList.entries), docSize, capacity, fileSize - old(fileSize))
      ensures Taken(old(freeList.entries), docSize, freeList.entries)
      ensures OneAttached(old(index), order, index)
    {
      hide FreeList.Valid, Disk.FreeAgrees;
      ghost var free, k := freeList.entries, Relevant(freeList.entries, docSize).value;
      EntryIsFree(Image(), Image().Base(), free, k);
      var meta := freeList.FindRelevantIndex(docSize);
      order := meta.value.order;
      var cap := if meta.value.size == 0 then docSize else meta.value.size;
      capacity := cap;
      PlacedOk(Image(), free, k, NewDocument(docSize, cap, order, brother, toastIndex, name, elements), docSize);
      Write(order, NewDocument(docSize, cap, order, brother, toastIndex, name, elements), docSize);
    }

    /** The largest dead block is reused whenever it is large enough, and then the file does not grow. */
    static ghost predicate ReusesDead(s: seq<Entry>, docSize: nat, capacity: nat, growth: int) {
      s != [] &&
      if s[|s| - 1].size >= docSize then capacity == s[|s| - 1].size && growth == 0
      else capacity == docSize && growth == docSize
    }

    static function NewDocument(docSize: nat, capacity: nat, order: nat, brother: nat, toastIndex: nat,
                                name: CString, elements: seq<Stored>): Block
    {
      Document(Header(docSize, capacity, order, 0, brother, toastIndex, |elements|, name), elements)
    }

    /** Writes a block for a free index by `bytes` bytes and attaches the index to it. */
    method Write(order: nat, b: Block, bytes: nat)
      requires order < |index| && (index[order].flag == New || index[order].flag == Dead)
      modifies this`index, this`blocks, this`zeroed, this`fileSize, this`layout
      ensures Image() == Placed(old(Image()), order, b, bytes)
      ensures zeroed == old(zeroed) - {index[order].offset}
    {
      var indexToAttach := GetIndex(order);
      var offset := if indexToAttach.flag == Dead then indexToAttach.offset else fileSize;
      blocks := Overwritten(blocks, offset, bytes)[offset := b];
      zeroed := zeroed - {offset};
      var _ := AttachIndexToBlock(order, offset);
      if indexToAttach.flag == New {
        fileSize := fileSize + Capacity(b);
        layout := layout + [order];
      }
    }
  }
}
