/** The element iterator: reads a document's elements through a 64-byte window. */
module ElementReaders {
  import opened Blocks
  import opened FreeLists
  import opened Texts
  import opened ElementBytes

  const READ_BUFFER_SIZE: nat := 64

  /** What fread puts in the window: the file's bytes from `offset` on; past the end of the file the window keeps what
      it held. */
  function Window(bytes: seq<byte>, offset: nat, held: seq<byte>): (w: seq<byte>)
    requires |held| == READ_BUFFER_SIZE && offset <= |bytes|
    ensures |w| == READ_BUFFER_SIZE && Agrees(bytes, offset, w)
  {
    if offset + READ_BUFFER_SIZE <= |bytes| then bytes[offset..offset + READ_BUFFER_SIZE]
    else bytes[offset..] + held[|bytes| - offset..]
  }

  /** The window shows the file from `base` on, as far as the file goes. */
  predicate Agrees(bytes: seq<byte>, base: nat, w: seq<byte>) {
    forall i {:trigger w[i]} :: 0 <= i < |w| && base + i < |bytes| ==> w[i] == bytes[base + i]
  }

  lemma AgreesPart(bytes: seq<byte>, base: nat, w: seq<byte>, i: nat, j: nat)
    requires Agrees(bytes, base, w) && i <= j <= |w| && base + j <= |bytes|
    ensures w[i..j] == bytes[base + i..base + j]
  {
  }

  class ElementIterator {
    var offsetInFile: nat
    const allAttributesCount: nat
    var passedAttributesCount: nat
    var buffer: Option<seq<byte>>  // the window, once it is filled
    var position: nat              // how much of the window was consumed

    /** The rest of the elements lie at offsetInFile, and the window shows the file around there. */
    ghost predicate Valid(bytes: seq<byte>)
      reads this
    {
      && passedAttributesCount <= allAttributesCount
      && ElementsAt(bytes, offsetInFile, allAttributesCount - passedAttributesCount)
      && (buffer.Some? ==> Filled(bytes, offsetInFile))
    }

    ghost predicate Filled(bytes: seq<byte>, offset: nat)
      reads this
    {
      && buffer.Some? && |buffer.value| == READ_BUFFER_SIZE
      && position <= READ_BUFFER_SIZE && position <= offset
      && Agrees(bytes, offset - position, buffer.value)
    }

    /** The elements still to come, decoded without a window. */
    ghost function Remaining(bytes: seq<byte>): seq<ElementEntry>
      requires Valid(bytes)
      reads this
    {
      DecodeAll(bytes, offsetInFile, allAttributesCount - passedAttributesCount)
    }

    constructor (bytes: seq<byte>, offsetInFile: nat, attrCount: nat)
      requires ElementsAt(bytes, offsetInFile, attrCount)
      ensures Valid(bytes) && this.offsetInFile == offsetInFile && allAttributesCount == attrCount
      ensures passedAttributesCount == 0
      ensures Remaining(bytes) == DecodeAll(bytes, offsetInFile, attrCount)
    {
      this.offsetInFile := offsetInFile;
      allAttributesCount, passedAttributesCount := attrCount, 0;
      buffer, position := None, 0;
    }

    method HasNextEl(ghost bytes: seq<byte>) returns (more: bool)
      requires Valid(bytes)
      ensures more <==> Remaining(bytes) != []
    {
      more := allAttributesCount != passedAttributesCount;
    }

    /** Takes n bytes from the window, if that many are left. */
    method Take(n: nat) returns (taken: Option<seq<byte>>)
      requires buffer.Some? && |buffer.value| == READ_BUFFER_SIZE && position <= READ_BUFFER_SIZE
      modifies this`position
      ensures if old(position) + n <= READ_BUFFER_SIZE
              then position == old(position) + n && taken == Some(buffer.value[old(position)..position])
              else taken == None && position == old(position)
    {
      if READ_BUFFER_SIZE - position >= n {
        taken := Some(buffer.value[position..position + n]);
        position := position + n;
      } else {
        taken := None;
      }
    }

    /** The window's position went from prevPos over the whole element at `offset`, and this was read. */
    ghost predicate Passed(bytes: seq<byte>, offset: nat, prevPos: nat, reqData: bool, element: Stored)
      requires ElementAt(bytes, offset)
      reads this
    {
      && Filled(bytes, offset + SizeAt(bytes, offset)) && position == prevPos + SizeAt(bytes, offset)
      && element.key == DecodeAt(bytes, offset).key && TypeOf(element) == bytes[offset]
      && (reqData ==> element == DecodeAt(bytes, offset))
    }

    /** Reads type, key and value from the window; fails as soon as the window does not hold the next part. */
    method Attempt(ghost bytes: seq<byte>, ghost offset: nat, reqData: bool) returns (element: Option<Stored>)
      requires Filled(bytes, offset) && ElementAt(bytes, offset)
      modifies this`position
      ensures element.Some? <==> old(position) + SizeAt(bytes, offset) <= READ_BUFFER_SIZE
      ensures element.Some? ==> Passed(bytes, offset, old(position), reqData, element.value)
    {
      ghost var start, w := position, buffer.value;
      var kind := Take(1);
      if kind == None {
        return None;
      }
      AgreesPart(bytes, offset - start, w, start, start + 1);
      assert w[start..start + 1][0] == bytes[offset..offset + 1][0];
      var key := Take(KEY_SIZE);
      if key == None {
        return None;
      }
      AgreesPart(bytes, offset - start, w, start + 1, start + PREFIX);
      var t := kind.value[0];
      assert t == bytes[offset];
      var data := Take(PayloadSize(t));
      if data == None {
        return None;
      }
      AgreesPart(bytes, offset - start, w, start + PREFIX, position);
      assert position == start + SizeAt(bytes, offset);
      var payload := if reqData then data.value else Zeros(PayloadSize(t));
      element := Some(Make(t, CStringOf(key.value), payload));
    }

    /** Fills the window from the element to be read next. */
    method Fill(bytes: seq<byte>, held: seq<byte>)
      requires |held| == READ_BUFFER_SIZE && offsetInFile <= |bytes|
      modifies this`buffer, this`position
      ensures Filled(bytes, offsetInFile) && position == 0
    {
      buffer, position := Some(Window(bytes, offsetInFile, held)), 0;
    }

    /** Reads the next element, filling the window when it does not hold all of it; it is filled at most once, because
        no element is longer than the window. */
    method Read(bytes: seq<byte>, reqData: bool, held: seq<byte>)
      returns (element: Stored, prevPos: nat, ghost refills: nat)
      requires ElementAt(bytes, offsetInFile) && (buffer.Some? ==> Filled(bytes, offsetInFile))
      requires |held| == READ_BUFFER_SIZE
      modifies this`buffer, this`position
      ensures Passed(bytes, offsetInFile, prevPos, reqData, element)
      ensures refills == if old(buffer).Some? && old(position) + SizeAt(bytes, offsetInFile) <= 64 then 0 else 1
    {
      refills := 0;
      if buffer == None {
        Fill(bytes, held);
        refills := 1;
      }
      prevPos := position;
      var read := Attempt(bytes, offsetInFile, reqData);
      while read == None
        invariant refills <= 1 && (read == None ==> refills == 0 && old(buffer).Some?)
        invariant refills == 0 ==> old(buffer).Some? && buffer == old(buffer)
        invariant refills == 0 && read == None ==> old(position) + SizeAt(bytes, offsetInFile) > 64
        invariant refills == 0 && read.Some? ==> old(position) + SizeAt(bytes, offsetInFile) <= 64
        invariant refills == 1 ==> !(old(buffer).Some? && old(position) + SizeAt(bytes, offsetInFile) <= 64)
        invariant read.Some? ==> Passed(bytes, offsetInFile, prevPos, reqData, read.value)
        decreases 1 - refills
      {
        Fill(bytes, held);
        refills := refills + 1;
        prevPos := position;
        read := Attempt(bytes, offsetInFile, reqData);
      }
      element := read.value;
    }

    /** Returns the next element and where it begins; `held` is what the window's memory holds before it is filled. */
    method NextEl(bytes: seq<byte>, reqData: bool, held: seq<byte>) returns (entry: ElementEntry, ghost refills: nat)
      requires Valid(bytes) && Remaining(bytes) != [] && |held| == READ_BUFFER_SIZE
      modifies this
      ensures Valid(bytes)
      ensures var was := old(Remaining(bytes));
              && was == [was[0]] + Remaining(bytes)
              && entry.offsetInDocument == was[0].offsetInDocument
              && entry.element.key == was[0].element.key && TypeOf(entry.element) == TypeOf(was[0].element)
              && (reqData ==> entry == was[0])
      ensures reqData ==> Spells(bytes, old(offsetInFile), entry.element)
      ensures refills == if old(buffer).Some? && old(position) + Span(entry.element) <= 64 then 0 else 1
      ensures offsetInFile == old(offsetInFile) + Span(entry.element)
    {
      ghost var left := allAttributesCount - passedAttributesCount;
      DecodeStep(bytes, offsetInFile, offsetInFile + SizeAt(bytes, offsetInFile), left);
      DecodeIff(bytes, offsetInFile, DecodeAt(bytes, offsetInFile));
      var element, prevPos;
      element, prevPos, refills := Read(bytes, reqData, held);
      entry := ElementEntry(element, offsetInFile);
      offsetInFile := offsetInFile + (position - prevPos);
      passedAttributesCount := passedAttributesCount + 1;
    }
  }

  /** Reading a document's elements through the window gives what decoding them directly gives, at the same offsets. */
  method ReadElements(bytes: seq<byte>, offset: nat, attrCount: nat, held: seq<byte>)
    returns (entries: seq<ElementEntry>)
    requires ElementsAt(bytes, offset, attrCount) && |held| == READ_BUFFER_SIZE
    ensures entries == DecodeAll(bytes, offset, attrCount)
    ensures |entries| == attrCount && SpellsAll(bytes, offset, entries)
  {
    ghost var all := DecodeAll(bytes, offset, attrCount);
    var elements := new ElementIterator(bytes, offset, attrCount);
    entries := [];
    var more := elements.HasNextEl(bytes);
    while more
      invariant fresh(elements) && elements.Valid(bytes)
      invariant all == entries + elements.Remaining(bytes)
      invariant more <==> elements.Remaining(bytes) != []
      decreases |elements.Remaining(bytes)|
    {
      var entry;
      ghost var refills;
      entry, refills := elements.NextEl(bytes, true, held);
      entries := entries + [entry];
      more := elements.HasNextEl(bytes);
    }
    DecodeAllIff(bytes, offset, entries);
  }
}
