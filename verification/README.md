# ZGDB storage engine: model and proofs

This project models the storage engine of ZGDB (`zgdbServer/zgdb`), a document database in one file, and proves what
its operations promise. Documents form a tree through first-son and next-brother links. Everything is addressed through
an index table; freed blocks are kept in a sorted linked list and reused; strings live out of line, in chains of 32-byte
chunks inside toast blocks; queries walk the tree with a stack-driven iterator.

The parts of the model follow the parts of the program:

| file | what it models |
|---|---|
| `Blocks.dfy` | struct sizes (x86-64 GNU/Linux), index entries, headers, blocks |
| `FreeLists.dfy`, `FreeListFiles.dfy` | the doubly linked free list, saving and reloading it |
| `Tilings.dfy`, `Disks.dfy`, `Storage.dfy` | extents that tile the file, the file as a value, the open file (`ZgdbFile`): index table, allocator, `expandIndexes` |
| `Forests.dfy`, `TreeStacks.dfy`, `DocIterators.dfy` | the tree the header links encode, the iterator's stack, the iterator |
| `Texts.dfy`, `Records.dfy`, `TextFiles.dfy`, `ElementWriters.dfy` | chunk chains, what a stored document means, reading and writing chunks |
| `Schemas.dfy`, `Catalogs.dfy`, `Documents.dfy`, `ResultLists.dfy`, `Deletion.dfy` | schemas, the invariant of an open file (`Consistent`), creating and deleting documents |
| `TextThreads.dfy`, `TextUpdates.dfy`, `ElementUpdates.dfy` | `updateElement` |
| `Predicates.dfy`, `Queries.dfy`, `Searches.dfy` | predicates, what a path means, `findIf0` and `join` |
| `ElementBytes.dfy`, `ElementReaders.dfy` | elements as bytes, the reader with its 64-byte window |
| `Sessions.dfy` | operations as events: the file refines a simple store of named documents in a tree |
| `Snapshots.dfy`, `Commands.dfy` | whole runs: what a file must answer to a command, when a command damages it, and any list of commands carried out from a new file on |
| `Examples.dfy` | for every condition below, a state in order in which the promise fails |

`ZgdbFile.Image()` is the file as a value; `View()` is what resolving an index shows. `zeroed` holds the offsets of blocks
whose first 32 bytes the fill of a toast has zeroed: `View()` shows them as they were, `Shown()` as they are on the disk.
`Catalogs.Consistent` says that no header is zeroed, that the blocks of all ALIVE and DEAD indexes tile the data region,
that the free list holds exactly the other indexes and the dead blocks with their capacities, that the links encode a tree
without repetitions, that every document's texts lie in disjoint slots of its own toasts below their used marks, that every
toast has room for the slots it counts, that no document is larger than its block, and that `nodes` counts the tree. `Restorable` is the same but for zeroed headers.
Deleting keeps `Consistent`; creating and updating keep it exactly under the conditions below, given their guards
`CanCreate` and `CanUpdate`.

`Commands.Perform` carries out any list of commands on a new file and returns, as ghosts, the state between any two of them
and the event of each. `Snapshots.History` says what these are: every command is refused for the reason its state gives
(`Refusal`), or carried out, and then it is not one that damages the file (`Harms`), its event is exactly what it asks for,
and the next state is in order and changed by that event alone. The session stops before the end exactly if the next command
does damage. What follows from that alone: the file shows what the events make of an empty store (`HistoryShows`); of the
first 21,875 commands none is refused because the file cannot serve it, but for the texts named below (`EarlyServed`); as
long as nothing is deleted, only a text that grows away does damage (`DamageNeedsDeletion`); and a session of creations and
restarts is never damaged (`CreationsHold`).

## What the code does not do

The proofs follow the code, also where it differs from what its comments promise. Each of these is an exact condition, and
`Examples.dfy` has a state in order that fails it:

- `createDocument` and `createNewToast` zero-fill a toast by its header and as many bytes as the whole block has, 32 bytes
  too many. If the toast reuses a dead block, the block behind loses its first 32 bytes. `createDocument` leaves the file in
  order exactly if there is no block behind, or the header is written again in the same call: that of the parent, or of the
  dead block the document then goes to (`CreateDocument`, `FillHarmless`). A spilling `updateElement` does exactly if there
  is none, or it is the document's first toast (`UpdateText`, `Missing`). Otherwise exactly that header is missing
  (`FillHits`).
- `expandIndexes` walks by `size`, not by `capacity`: moving a block keeps the tiling exactly if the two agree
  (`MovedOkIff`, `SpareMoves`), and in any file in order the copying loop passes states in order only, exactly if its walk
  meets no document smaller than its block (`StaysOkIff`, `ExpansionStays`).
- `findRelevantIndex` for zero bytes may take a NEW entry from the tail without counting it; otherwise the counter
  stays exact (`FindRelevantIndex`, `ZeroBytesUncounted`).
- `writeElement` loses the last 31 characters of a text whose size with terminator is a multiple of 32 (`TextWritten`,
  `CreationRecord`, `FullChunkLost`); `updateElement` keeps sizes off multiples of 32, except in its branch for equal lengths.
  When such a text grows, `updateElement` counts its new length one byte too long and reads past the end of its input
  (`LongerReadsWithin`).
- A text whose last chunk lies in a second toast cannot grow beyond its chunks: `updateElement` looks for the next toast
  behind the wrong one and finds index 0. It takes the root document's capacity for a count of slots, writes the lacking
  chunks 3712 bytes behind it, over whatever lies there, and raises that capacity (`RootDamaged`). An update keeps the file
  in order only if this does not happen (`GrowBeyond`, `UpdateElement`, `SpilledGrowsAway`); once the text is short enough
  to end in the first toast again, it can spill again.
- An absolute path step is documented to look one level deep (`data/filter/zgdbfilter.h`), but examines one more document,
  the first child of the last sibling that has children; it is exact exactly if that one has another name (`AbsoluteStepIff`,
  `AbsoluteStepTooDeep`).

## Model

| member | source | states |
|---|---|---|
| FreeLists.InsertedSorted | zgdbServer/zgdb/index/list/freelist.c:33-64 | linking an entry in at its place keeps the sizes ascending |
| FreeLists.PlaceIff | zgdbServer/zgdb/index/list/freelist.c:33-64 | the place of a new entry: NEW ones in front, others between the smaller and the larger; of its own size only the head comes before it, and none behind it, unless they end the list |
| FreeLists.RelevantIff | zgdbServer/zgdb/index/list/freelist.c:79-133 | a request is served iff some entry is NEW or a dead block that is large enough |
| FreeLists.RelevantBest | zgdbServer/zgdb/index/list/freelist.c:107-130 | for a positive request the entry is the last one, the largest dead block, if any block fits, else the first one, a NEW index |
| FreeLists.RelevantCounts | zgdbServer/zgdb/index/list/freelist.c:79-133 | taking the entry keeps the list sorted and takes exactly one NEW entry iff the entry is NEW |
| FreeLists.FreeList.InsertNode | zgdbServer/zgdb/index/list/freelist.c:33-64 | relinking next, prev, head and tail inserts exactly one entry at its place in the ascending list |
| FreeLists.FreeList.InsertNewIndex | zgdbServer/zgdb/index/list/freelist.c:66-71 | a NEW index comes first; both counters follow |
| FreeLists.FreeList.InsertDeadIndex | zgdbServer/zgdb/index/list/freelist.c:73-77 | a dead block is linked in by size; the NEW counter stays |
| FreeLists.FreeList.FindRelevantIndex | zgdbServer/zgdb/index/list/freelist.c:79-133 | removes exactly the chosen entry or returns nothing; the NEW counter stays exact iff it is not a zero-byte request on several NEW entries alone |
| FreeListFiles.ReloadKeepsEntries | zgdbServer/zgdb/format/zgdbfile.c:23-60 | saving and reloading keeps the multiset of entries and the number of NEW ones |
| FreeListFiles.RebuiltSorted | zgdbServer/zgdb/format/zgdbfile.c:36-60 | reloading reverses the NEW entries and keeps the dead ones in their order |
| FreeListFiles.ReloadTwice | zgdbServer/zgdb/format/zgdbfile.c:23-60 | two save/load cycles are the identity |
| FreeListFiles.ReloadOnceIff | zgdbServer/zgdb/format/zgdbfile.c:23-60 | one cycle is the identity iff the NEW entries read the same backwards |
| FreeListFiles.WriteFreelist | zgdbServer/zgdb/format/zgdbfile.c:23-34 | the record of every node in list order, and the counters |
| FreeListFiles.ReadFreeList | zgdbServer/zgdb/format/zgdbfile.c:36-60 | the loop rebuilds a valid list with exact counters, as the specification function says |
| Tilings.TilesCover | zgdbServer/zgdb/zgdb.c:69-101 | in a tiling every byte of the data region belongs to exactly one block |
| Tilings.TilesDisjoint | zgdbServer/zgdb/zgdb.c:69-101 | blocks of a tiling do not overlap |
| Tilings.TilesRotateIff | zgdbServer/zgdb/zgdb.c:74-101 | sliding the first block to the end keeps a tiling iff the whole block is moved |
| Disks.FreeIffNotAlive | zgdbServer/zgdb/index/zgdbindex.c:41-62 | an index is in the free list iff it is not ALIVE, and then exactly once |
| Disks.KilledOk | zgdbServer/zgdb/index/zgdbindex.c:52-62 | killing an ALIVE index and listing its block keeps tiling and free list in agreement |
| Disks.PlacedOk | zgdbServer/zgdb/zgdb.c:172-199 | a block written within its bounds for a free entry: the view gains exactly that block, the list loses exactly that entry |
| Disks.ZeroedBehind | zgdbServer/zgdb/zgdb.c:158-163 | 32 zero bytes behind a block hit the header of the block behind it, if there is one, and nothing else |
| Disks.TornNotOk | zgdbServer/zgdb/zgdb.c:74-99 | a file in which a listed block lost its header is not in order |
| Disks.MovedOkIff | zgdbServer/zgdb/zgdb.c:82-101 | a move of expandIndexes keeps the tiling iff the block's size is its capacity |
| Disks.MovedView | zgdbServer/zgdb/zgdb.c:91-100 | a moved block is the same block under the same index |
| Disks.WithNewIndexesOk | zgdbServer/zgdb/zgdb.c:103-122 | the freed bytes become NEW indexes and between space; the tiling starts behind the grown table |
| Disks.WalkSafeIfExact | zgdbServer/zgdb/zgdb.c:74-101 | the walk is safe if no document occupies part of a larger block |
| Disks.StaysOkIff | zgdbServer/zgdb/zgdb.c:74-101 | every state the copying loop passes is in order from its base on, iff the walk meets no document smaller than its block |
| Disks.WalkFreed | zgdbServer/zgdb/zgdb.c:70-101 | the walk frees what was asked for, and without the block it moved last it would have freed less |
| Storage.ZgdbFile.AttachIndexToBlock | zgdbServer/zgdb/index/zgdbindex.c:41-50 | any index in the table becomes ALIVE at the offset; others stay |
| Storage.ZgdbFile.KillIndex | zgdbServer/zgdb/index/zgdbindex.c:52-62 | exactly ALIVE indexes die, and keep their offset |
| Storage.ZgdbFile.UpdateOffset | zgdbServer/zgdb/index/zgdbindex.c:64-72 | only the offset of one index changes |
| Storage.ZgdbFile.CreateIndexes | zgdbServer/zgdb/index/zgdbindex.c:8-27 | appends NEW entries over whatever lay behind the table; the file only grows when not expanding |
| Storage.ZgdbFile.Create | zgdbServer/zgdb/zgdb.c:13-29 | a new file of 450112 bytes: the root document, 80 bytes of 80, behind 50000 index entries, all others NEW |
| Storage.ZgdbFile.Reopen | zgdbServer/zgdb/format/zgdbfile.c:62-106 | closing and opening changes nothing but the order of NEW entries |
| Storage.ZgdbFile.ExpandIndexes | zgdbServer/zgdb/zgdb.c:69-123 | every order resolves to the same block as before, the tiling is re-established behind the grown table; the bytes freed hold 200000 index entries, and without the block moved last they would not; they become NEW indexes and at most 8 bytes between |
| Storage.ZgdbFile.FreeBlocks | zgdbServer/zgdb/zgdb.c:70-101 | the copying loop: base address, freed bytes, file size and layout are those of the walk |
| Storage.ZgdbFile.GrowTable | zgdbServer/zgdb/zgdb.c:103-122 | the freed bytes become NEW indexes in front of the list; between space is the remainder |
| Storage.ZgdbFile.PlaceToast | zgdbServer/zgdb/zgdb.c:771-795 | an empty toast in the chosen place; exactly the header of the block behind it is zeroed, if the fill runs over |
| Storage.ZgdbFile.PlaceDocument | zgdbServer/zgdb/zgdb.c:172-199 | a document in the largest dead block if it fits, and then the file does not grow |
| Forests.CutWithChild | zgdbServer/zgdb/zgdb.c:201-203 | cutting a just inserted child restores the tree |
| Forests.CutMembers | zgdbServer/zgdb/zgdb.c:246-271 | cutting removes exactly the document and all below it |
| Forests.CutKeepsSiblings | zgdbServer/zgdb/zgdb.c:246-260 | cutting keeps everybody's other children in order |
| Forests.EncodesUnique | zgdbServer/zgdb/data/zgdbdata.h:63-92 | the son and brother links determine the tree |
| Forests.EncodesTreeWithChild | zgdbServer/zgdb/zgdb.c:190-204 | writing the new header and the parent's son link inserts one leaf as the first child and nothing else |
| Forests.EncodesTreeUnlinked | zgdbServer/zgdb/zgdb.c:246-260 | leading one link past a document cuts exactly its subtree |
| Forests.VisitsSiblingsFirst | zgdbServer/zgdb/data/iterator/dociterator.c:20-60 | traversal order: the siblings, then the children of the last sibling, and so on back to the first |
| Forests.VisitsOnce | zgdbServer/zgdb/data/iterator/dociterator.c:20-60 | every document is visited exactly once |
| Forests.VisitsLocate | zgdbServer/zgdb/data/iterator/dociterator.c:20-60 | a visit carries the document's true parent and depth |
| TreeStacks.TreeStack.Push | zgdbServer/zgdb/data/treestack/treestack.c:25-39 | appends one entry; exactly a full buffer is replaced by one twice as long |
| TreeStacks.TreeStack.Pop | zgdbServer/zgdb/data/treestack/treestack.c:42-49 | removes and returns the last entry, or nothing |
| DocIterators.DocumentIterator.constructor | zgdbServer/zgdb/data/iterator/dociterator.c:3-10 | still to come: the start document, its remaining siblings and all below them |
| DocIterators.DocumentIterator.HasNextDoc | zgdbServer/zgdb/data/iterator/dociterator.c:16-18 | true iff a document is still to come |
| DocIterators.DocumentIterator.NextDoc | zgdbServer/zgdb/data/iterator/dociterator.c:20-60 | returns the first document of the recursive traversal with its parent and depth; the rest is still to come |
| Texts.CarriedText | zgdbServer/zgdb/data/iterator/eliterator.c:101-149 | a chain that carries a text reads back as it, unless the stored size is a multiple of 32 |
| Texts.ChunksIff | zgdbServer/zgdb/data/zgdbdata.c:66-80 | a text takes as many chunks of 32 bytes as its size needs and no more |
| Texts.RunIsChain | zgdbServer/zgdb/data/zgdbdata.c:81-107 | chunks written one behind the other form a chain that carries their text |
| TextFiles.ReadText | zgdbServer/zgdb/data/iterator/eliterator.c:101-149 | the chunk loop returns the bytes along the chain, through as many toasts as it crosses |
| TextFiles.AppendChunks | zgdbServer/zgdb/data/zgdbdata.c:81-107 | a run of chunks in consecutive slots; no other slot changes |
| TextFiles.RewriteChunks | zgdbServer/zgdb/zgdb.c:858-888 | the chain's chunks carry the new pieces, links stay but for the last one, nothing outside the chain changes |
| ElementWriters.TextWritten | zgdbServer/zgdb/data/zgdbdata.c:66-112 | a text written behind the used mark is a chain that reads back as it, but without its last 31 characters if its size with terminator is a multiple of 32 |
| ElementWriters.WrittenText | zgdbServer/zgdb/data/zgdbdata.c:66-112 | a written text takes fresh slots behind the used mark; all elements written so far still read back |
| ElementWriters.WriteElement | zgdbServer/zgdb/data/zgdbdata.c:52-118 | the element written, and for texts the run of chunks and the used mark |
| Records.RecordFrame | zgdbServer/zgdb/data/iterator/eliterator.c:24-171 | a document whose elements and toasts are untouched reads the same |
| Records.WornReads | zgdbServer/zgdb/data/iterator/eliterator.c:101-149 | reading follows chunks and elements only: zeroed headers of toasts do not change what a document reads |
| Schemas.DocumentSchema.Add | zgdbServer/zgdb/schema/zgdbschema.c:24-105 | keys stay unique and are never "id", the size grows by 14 bytes and the value's, the chunks by the text's, errors in the source's order |
| Catalogs.ShownReads | zgdbServer/zgdb/data/iterator/eliterator.c:4-171 | a document that has its header reads from the disk as from the view, whatever other headers are zeroed |
| Catalogs.CreatedOk | zgdbServer/zgdb/zgdb.c:125-208 | after a document was linked in, the whole file is in order and every other document reads as before |
| Catalogs.DeletedOk | zgdbServer/zgdb/zgdb.c:219-286 | the same after a subtree and a toast list died |
| Documents.NewServes | zgdbServer/zgdb/zgdb.c:138-172 | while a NEW index is left every request is served, and costs at most one of them |
| Documents.SlidBounds | zgdbServer/zgdb/zgdb.c:138-143 | with more than 6250 NEW indexes left the blocks stay; otherwise the file grows by what 200000 index entries need and less than one block more |
| Documents.LastFitsIff | zgdbServer/zgdb/index/list/freelist.c:107-115 | the last entry of the list has a size iff some entry has |
| Documents.GoesTo | zgdbServer/zgdb/zgdb.c:172-178 | the document goes to the dead block behind the toast exactly if that is the largest one left and large enough |
| Documents.StillZeroed | zgdbServer/zgdb/zgdb.c:190-204 | once the headers of document and parent are written, the zeroed one is there again iff it was one of these |
| Documents.EnsureIndexes | zgdbServer/zgdb/zgdb.c:138-143 | up to 6250 NEW indexes the table is expanded, by 200000 at least and no more than one block more gives; otherwise nothing changes; two NEW indexes are there afterwards |
| Documents.WriteElements | zgdbServer/zgdb/zgdb.c:183-186 | all elements read back from disjoint slots; the toast's room suffices |
| Documents.CreationRecord | zgdbServer/zgdb/zgdb.c:183-199 | the new document reads back its schema's values in order, all of them iff no text fills its last chunk |
| Documents.CreateDocument | zgdbServer/zgdb/zgdb.c:125-208 | one leaf as the parent's first child, its fields read back, everybody else reads as before; its toast has 32 bytes and twice its chunks in slots of 46, or is the largest dead block iff that has the slots' bytes; the file grows by exactly what no dead block serves; it is in order iff the toast's fill hit no header, or one written again, and otherwise only that header is missing; nothing happens for an unfilled schema |
| ResultLists.ResultList.InsertResult | zgdbServer/zgdb/data/result/resultlist.c:20-37 | appends to a well-formed doubly linked list |
| Deletion.Bury | zgdbServer/zgdb/zgdb.c:281-282 | an ALIVE index dies and its block is listed; tiling and list still agree |
| Deletion.Del | zgdbServer/zgdb/zgdb.c:210-217 | kills the document and counts it out |
| Deletion.ForEachDel | zgdbServer/zgdb/zgdb.c:531-539 | deleting while iterating kills exactly the forest's documents, each once |
| Deletion.CollectSiblings | zgdbServer/zgdb/zgdb.c:220-241 | the list ends in the document, behind the brother before it or the parent |
| Deletion.Unlink | zgdbServer/zgdb/zgdb.c:243-260 | exactly one link is led past the document |
| Deletion.FreeToasts | zgdbServer/zgdb/zgdb.c:273-285 | exactly the linked toasts die |
| Deletion.DeleteDocument | zgdbServer/zgdb/zgdb.c:219-286 | the tree is the old one with exactly that subtree cut; exactly the subtree and the document's own toasts die; nodes drops by the subtree's size; everybody else reads as before |
| TextThreads.UpdatedDoc | zgdbServer/zgdb/zgdb.c:989-1178 | after an update the document's texts lie in disjoint slots below the used marks again |
| TextThreads.UpdatedFields | zgdbServer/zgdb/zgdb.c:836-1186 | only the updated field reads differently |
| TextThreads.Appended | zgdbServer/zgdb/zgdb.c:1051-1078 | a run appended where the chain led to continues the text |
| TextThreads.RewrittenThreaded | zgdbServer/zgdb/zgdb.c:1018-1049 | after the rewriting loop the text's own slots carry the new text and lead where the link says |
| TextThreads.Completed | zgdbServer/zgdb/zgdb.c:1180-1184 | with the size written the file is in order, the new text reads back and nothing else has changed |
| TextUpdates.LongerReadsWithin | zgdbServer/zgdb/zgdb.c:941-958 | a longer text: the code copies no more bytes than the input has iff the stored size is not a multiple of 32, and then counts size and chunks right |
| TextUpdates.RewriteInPlace | zgdbServer/zgdb/zgdb.c:844-988 | the branches for equal, shorter, and longer without more chunks: the new text reads back |
| TextUpdates.GrowInToast | zgdbServer/zgdb/zgdb.c:1014-1078 | growth inside the first toast: the new text reads back and the toast still fits its block |
| TextUpdates.CreateNewToast | zgdbServer/zgdb/zgdb.c:771-795 | an empty toast in the largest dead block if that has the size asked for, else of exactly that size at the end of the file, and whose header its fill zeroed |
| TextUpdates.AppendToRoot | zgdbServer/zgdb/zgdb.c:1150-1177 | chunks written to the root document as if it were a toast: its capacity is raised by their number and the blocks in that place are lost |
| TextUpdates.GrowBeyond | zgdbServer/zgdb/zgdb.c:1079-1179 | a spill reads back if the text's old chunks end in the first toast; the file is in order iff they do and the new toast's fill hit nothing but that toast; otherwise the root document is damaged, or one header is missing |
| TextUpdates.HasSpaceEndsAtHome | zgdbServer/zgdb/zgdb.c:1014-1017 | while the first toast has room, a text's chunks have not left it |
| TextUpdates.RoomFor | zgdbServer/zgdb/zgdb.c:1014-1017 | a toast has k free slots iff k more slots of 46 bytes fit in its block |
| TextUpdates.UpdateText | zgdbServer/zgdb/zgdb.c:832-1186 | every branch: the size stored, the bytes the file grows by, and, unless the text grows away, that it reads back, all but the last 31 characters for an unchanged size that is a multiple of 32; in order iff the text does not grow away from the first toast and no header is missing |
| ElementUpdates.TextReadsIff | zgdbServer/zgdb/zgdb.c:844-988 | an updated text reads back iff its size changed or is no multiple of 32, and a changed size never is one |
| ElementUpdates.StatusIff | zgdbServer/zgdb/zgdb.c:797-835 | exactly when the key is too long, when no element has it, and when the first element that has it is a number the input does not parse as |
| ElementUpdates.UpdateElement | zgdbServer/zgdb/zgdb.c:797-1192 | the status for every key and input; nothing changes unless UPDATE_OK; then one element has its new value, the boolean 1 exactly for "true", and all else reads as before, in a file in order iff no text grew away and no header is missing |
| Predicates.SatisfiedOne | zgdbServer/zgdb/zgdb.c:343-360 | an empty list passes; one entry asks for its document number, or the outcome of its comparison, or inverted the opposite |
| Predicates.SatisfiedPush | zgdbServer/zgdb/zgdb.c:355-360 | an AND entry narrows what was decided before, an OR entry widens it, by what the entry itself asks for |
| Predicates.CalculatePredicate | zgdbServer/zgdb/zgdb.c:343-529 | true iff the list is empty or some entry joined by NONE or OR holds and every later AND entry holds too |
| Queries.MatchesChosen | zgdbServer/zgdb/zgdb.c:583-599 | a step finds, in order, the examined documents of its name that satisfy its predicates under the number of documents of that name in front |
| Queries.NumberedStep | zgdbServer/zgdb/zgdb.c:344-353 | document number k alone gives exactly the (k+1)-th examined document of the name |
| Queries.PathMeaning | zgdbServer/zgdb/zgdb.c:568-687 | any path of document steps finds exactly the ends of chains of documents, each chosen by its step among those examined below the one before |
| Queries.RelativePathMeaning | zgdbServer/zgdb/zgdb.c:628-684 | //n1[p1]//...//nk[pk] finds exactly the ends of chains of proper ancestors, each named and satisfying the predicates under its number as its step asks |
| Queries.AbsolutePathFinds | zgdbServer/zgdb/zgdb.c:574-627 | /n1/.../nk never misses a document reached through children named n1, ..., nk |
| Queries.AbsolutePathMeaning | zgdbServer/zgdb/zgdb.c:574-627 | /n1[p1]/.../nk[pk] finds exactly the ends of such chains of children, or of the first child of the last child that has children |
| Queries.AbsoluteStepIff | zgdbServer/zgdb/zgdb.c:574-582 | an absolute step stays among the children iff the one deeper document it examines has another name |
| Queries.BelowIff | zgdbServer/zgdb/zgdb.c:628-637 | a relative step examines exactly the descendants, by child links alone |
| Searches.FetchedExamined | zgdbServer/zgdb/zgdb.c:576-582 | at whatever depth the iterator starts, the loop examines the same documents |
| Searches.ExamineContext | zgdbServer/zgdb/zgdb.c:576-626 | one context's loop collects the matches and the first children of those that have any |
| Searches.EvaluateStep | zgdbServer/zgdb/zgdb.c:572-684 | the context list's loop is the flat map of the step |
| Searches.FindIfFromRoot | zgdbServer/zgdb/zgdb.c:541-687 | the answer is the recursive flat map over the steps, in order, each document with its true parent; the nameless step asks for the root or its children |
| Searches.JoinedPush | zgdbServer/zgdb/zgdb.c:700-713 | a child joins iff it satisfies the predicates under the number of children in front of it |
| Searches.Join | zgdbServer/zgdb/zgdb.c:689-715 | the children that satisfy the predicates, in order, numbered over all children |
| ElementBytes.NumberRoundTrip | zgdbServer/zgdb/data/zgdbdata.c:59-63 | a number's bytes are its digits to the base 256, the least significant one first, and it decodes from them |
| ElementBytes.FromLittleEndianConcat | zgdbServer/zgdb/data/iterator/eliterator.c:82-82 | bytes behind others count 256 to the power of how many there are before them |
| ElementBytes.ElementAtIff | zgdbServer/zgdb/data/zgdbdata.h:26-33 | the first byte, 1 to 4, tells the type: an element of 18, 22, 15 or 26 bytes |
| ElementBytes.DecodeIff | zgdbServer/zgdb/data/iterator/eliterator.c:48-98 | what is decoded is exactly the element whose type, key, and value or text size and offset stand there byte by byte |
| ElementBytes.EncodeSpells | zgdbServer/zgdb/data/zgdbdata.c:52-118 | what is written stands there byte by byte, in as many bytes as the type has |
| ElementBytes.EncodeAllRoundTrip | zgdbServer/zgdb/data/zgdbdata.c:52-118 | decoding the bytes of written elements gives them back in order |
| ElementBytes.WrittenSize | zgdbServer/zgdb/zgdb.c:145-145 | the elements written for a schema take exactly sizeOfElements bytes |
| ElementBytes.PatchedDecodesAll | zgdbServer/zgdb/zgdb.c:812-820 | a value written behind type and key of an element changes that element and no other |
| ElementReaders.ElementIterator.Read | zgdbServer/zgdb/data/iterator/eliterator.c:24-163 | the next element, whether or not the window held all of it; the window is filled at most once |
| ElementReaders.ElementIterator.NextEl | zgdbServer/zgdb/data/iterator/eliterator.c:24-171 | the element that stands at the iterator's offset, byte by byte, and that offset; the iterator moves on by the element's bytes; the rest is still to come |
| ElementReaders.ReadElements | zgdbServer/zgdb/data/iterator/eliterator.c:4-171 | reading through the window gives the elements that stand there one behind the other, as decoding without it does |
| Sessions.StepRefines | zgdbServer/zgdb/zgdb.c:125-286 | what an operation promises is one event of the simple store |
| Sessions.RunRefines | zgdbServer/zgdb/zgdb.h:51-66 | after any run of creations, deletions, updates and restarts the file shows what the simple store holds |
| Sessions.CreationUndone | zgdbServer/zgdb/zgdb.c:246-260 | creating and deleting a document restores the store |
| Sessions.NewFile | zgdbServer/zgdb/zgdb.c:13-29 | a new file is in order and its store is empty |
| Sessions.Reload | zgdbServer/zgdb/zgdb.c:31-34 | finish and init are no event at all |
| Sessions.Create | zgdbServer/zgdb/zgdb.c:125-208 | createDocument is a step of a run; the file stays in order iff the fill does no harm |
| Sessions.Delete | zgdbServer/zgdb/zgdb.c:219-286 | deleteDocument is a step of a run |
| Sessions.Change | zgdbServer/zgdb/zgdb.c:797-1192 | updateElement is a step of a run unless the text grows away; the file stays in order iff no header is missing either |
| Sessions.CreateThenDelete | zgdbServer/zgdb/zgdb.c:125-286 | the two operations in sequence are one event each, by way of a store that has the document, and leave store and node count as they were, if the fill does no harm |
| Snapshots.ExpansionStays | zgdbServer/zgdb/zgdb.c:69-101 | in every file in order: the copying loop of expandIndexes passes states in order only, iff its walk is safe |
| Snapshots.CarriedShows | zgdbServer/zgdb/zgdb.h:51-66 | a command answered as its state demands leaves a file in order that shows the store after the command's event |
| Snapshots.HistoryShows | zgdbServer/zgdb/zgdb.h:51-66 | at every moment of a session the file is in order and shows what the events so far make of the empty store |
| Snapshots.NewLeft | zgdbServer/zgdb/zgdb.c:138-172 | a command uses up two NEW indexes at most |
| Snapshots.UpdateServed | zgdbServer/zgdb/zgdb.c:941-1017 | while a NEW index is left, an update is served iff it does not make a text longer whose stored size is a multiple of 32 |
| Snapshots.EarlyServed | zgdbServer/zgdb/zgdb.c:138-143 | of the first 21,875 commands exactly the updates that make a text longer whose stored size is a multiple of 32 are refused because the file cannot serve them |
| Snapshots.NoneDead | zgdbServer/zgdb/zgdb.c:210-286 | only a deletion puts a dead block in the free list |
| Snapshots.DamageNeedsDeletion | zgdbServer/zgdb/zgdb.c:125-1192 | as long as nothing is deleted, a command damages the file iff it makes a text grow away from its document's first toast |
| Snapshots.CreationsHold | zgdbServer/zgdb/zgdb.c:125-208 | a session of creations and restarts is never damaged, and each of its first 21,875 creations is carried out iff name, parent and fields are good |
| Commands.FindDocument | zgdbServer/zgdb/data/iterator/dociterator.c:16-60 | a client's walk finds a document iff it is in the tree, with its true parent and present header |
| Commands.CheckWalk | zgdbServer/zgdb/zgdb.c:74-101 | looking through the blocks tells exactly whether expandIndexes may run |
| Commands.MakeSchema | zgdbServer/zgdb/schema/zgdbschema.c:24-105 | adding the fields one by one fills a schema iff their keys are distinct, not "id", and as many as it takes |
| Commands.Execute | zgdbServer/zgdb/zgdb.h:51-66 | a command is refused exactly for the reason the state gives, or carried out with exactly the event it asks for; the file is in order afterwards iff the command is not one that damages it, and a look at the file tells |
| Commands.Perform | zgdbServer/zgdb/zgdb.h:51-66 | any list of commands on a new file: a history in which every command so far was answered as its state demands, up to the end or to the first command that damages the file |
| Examples.FillHits | zgdbServer/zgdb/zgdb.c:158-163 | a file in order, with NEW indexes enough, that serves a creation whose toast zeroes a header nobody writes again |
| Examples.SpareMoves | zgdbServer/zgdb/zgdb.c:82-101 | a file in order whose first block expandIndexes cannot move |
| Examples.FullChunkLost | zgdbServer/zgdb/data/zgdbdata.c:89-98 | a text of 31 characters, written into an empty toast, reads back empty |
| Examples.SpilledGrowsAway | zgdbServer/zgdb/zgdb.c:1079-1179 | a file in order with a text that grows away from its document's first toast |
| Examples.AbsoluteStepTooDeep | zgdbServer/zgdb/zgdb.c:574-582 | a tree in which /b finds a document that is no child of the root |
| Examples.ZeroBytesUncounted | zgdbServer/zgdb/index/list/freelist.c:79-133 | a zero-byte request that takes a NEW entry from the tail |

## Left out

- Documents.CreateDocument: requires `CanCreate`: the walk of expandIndexes, if it is due, meets no document smaller than its block. Otherwise it reads headers from inside that block, which is not modelled.
- Documents.EnsureIndexes: the same.
- Storage.ZgdbFile.ExpandIndexes: the same; that this is the exact condition for the loop to keep the file in order is `StaysOkIff`.
- Storage.ZgdbFile.FreeBlocks: the same.
- Documents.CreateDocument: names and keys are at most 12 bytes, as the 13-byte fields demand; strcpy of longer ones is not modelled.
- Deletion.DeleteDocument: requires a document that is not the root, with its present header and parent; for a stale header or the root the code corrupts links, which is not modelled.
- Deletion.DeleteDocument: says what is freed, not that nothing leaks; the toasts of documents below the deleted one stay ALIVE, as in the code.
- ElementUpdates.UpdateElement: requires `CanUpdate`: a growing text's stored size is not a multiple of 32 (otherwise the code reads past its input, `LongerReadsWithin`, and writes into the document's first text, `FullTextLeadsToFirst`), and a spill finds an index (otherwise createNewToast, which has no low-water check, follows a null pointer). While a NEW index is left every spill finds one (`UpdateServed`).
- TextUpdates.UpdateText: the same.
- TextUpdates.GrowBeyond: the same; and a block the chunks behind the root document touch counts as lost, whatever is left of it.
- TextUpdates.GrowInToast: growth from stored sizes that are a multiple of 32, as above.
- ElementUpdates.UpdateElement: what str2int and str2double make of the input is part of the input.
- TextUpdates.RewriteInPlace: for equal lengths that are a multiple of 32 the last chunk keeps its old bytes and the text reads back without its last 31 characters, as `StoredText` says.
- Searches.FindIfFromRoot: paths of document steps from the root; element steps, the start at another document, and the result type are left out.
- Searches.EvaluateStep: the same.
- Searches.ExamineContext: the same.
- Predicates.CalculatePredicate: the comparison of an element with an input is a parameter; BY_ELEMENT entries (a TODO in the source) and lists that do not start with NONE are left out.
- ElementReaders.ElementIterator.NextEl: the window is a value of the iterator; in the source it lies in a stack frame that is gone at the next call. For a text it returns size and offset; its chunks are read by `ReadText`.
- Commands.Perform: a session ends with the first command that damages the file; what further commands would do then is not modelled. Commands address documents by order; a client finds them by walking the tree.
- Storage.ZgdbFile.Reopen: the header and the list are values; file format number and version are left out.
- Document ids, timestamps, printing, sockets, main.c, mmap and msync, and the XML and query-language front ends.
- Doubles: a double is its 64 bits; arithmetic and comparison of doubles are left out.
- Widths: sizes, offsets and orders are unbounded numbers; 40-bit fields, the int results of div, and the 8-bit between space are not bounded. Bytes of elements are exact.
- The byte contents of blocks other than elements: a block is a record whose header can be zeroed; any other write that touches a block it was not meant for destroys it.
- The unused loop of updateElement that looks for the last chunk; it has no effect.
- An index table without entries, for which the bound check of getIndex wraps around; every open file has the root's index.
