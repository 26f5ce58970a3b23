/** Writing the elements of a new document; its texts go into the document's toast. */
module ElementWriters {
  import opened Blocks
  import opened Tilings
  import opened Texts
  import opened TextFiles
  import opened Records
  import opened Schemas
  import opened Storage

  /** The text that reads back after writeElement stored s: s itself, but without its last 31 characters
      when its size with terminator is a multiple of 32, because no byte of the last chunk is copied then. */
  function StoredText(s: CString): CString {
    if TextSize(s) % CHUNK_SIZE == 0 then s[..TextSize(s) - CHUNK_SIZE] else s
  }

  lemma StoredTextIff(s: CString)
    ensures StoredText(s) == s <==> TextSize(s) % CHUNK_SIZE != 0
  {
  }

  ghost function StoredField(f: Field): Field {
    if f.value.TextValue? then Field(f.key, TextValue(StoredText(f.value.s))) else f
  }

  ghost function StoredFields(fs: seq<Field>): (r: seq<Field>)
    ensures |r| == |fs|
  {
    if fs == [] then [] else [StoredField(fs[0])] + StoredFields(fs[1..])
  }

  lemma {:induction false} StoredFieldsPush(fs: seq<Field>, f: Field)
    ensures StoredFields(fs + [f]) == StoredFields(fs) + [StoredField(f)]
  {
    if fs == [] {
      assert fs + [f] == [f];
    } else {
      assert (fs + [f])[1..] == fs[1..] + [f];
      StoredFieldsPush(fs[1..], f);
    }
  }

  /** Reading back gives the schema's values iff no text of theirs fills its last chunk. */
  lemma {:induction false} StoredFieldsIff(fs: seq<Field>)
    ensures StoredFields(fs) == fs <==>
            forall f :: f in fs && f.value.TextValue? ==> TextSize(f.value.s) % CHUNK_SIZE != 0
  {
    if fs != [] {
      StoredFieldsIff(fs[1..]);
      assert fs == [fs[0]] + fs[1..];
      if fs[0].value.TextValue? { StoredTextIff(fs[0].value.s); }
      if StoredFields(fs) == fs {
        assert StoredFields(fs)[0] == StoredField(fs[0]) && StoredFields(fs)[1..] == StoredFields(fs[1..]);
      }
    }
  }

  /** Slot s lies in toast t below the used mark. */
  ghost predicate SlotBelow(view: View, t: nat, used: nat, s: Slot) {
    HasChunk(view, s) && s.toast == t && s.offset % SLOT == 0 && s.offset < used * SLOT
  }

  ghost predicate SlotsBelow(view: View, t: nat, used: nat, c: seq<Slot>) {
    forall s {:trigger SlotBelow(view, t, used, s)} :: s in c ==> SlotBelow(view, t, used, s)
  }

  /** Elements es have been written for the fields fs, their texts into the first `used` slots of toast t. */
  ghost predicate Written(view: View, t: nat, used: nat, es: seq<Stored>, fs: seq<Field>) {
    && SlotsBelow(view, t, used, ChainsOf(view, t, es))
    && NoDuplicates(ChainsOf(view, t, es))
    && TextsOk(view, t, es)
    && AllPresent(view, ChainsOf(view, t, es))
    && FieldsOf(view, t, es) == StoredFields(fs)
  }

  /** Adding one element whose chain, if any, is fresh. */
  lemma WrittenPush(v: View, w: View, t: nat, used: nat, used': nat, es: seq<Stored>, fs: seq<Field>, e: Stored,
                    f: Field)
    requires Written(v, t, used, es, fs) && used <= used'
    requires forall s :: SlotBelow(v, t, used, s) ==> HasChunk(w, s) && ChunkAt(w, s) == ChunkAt(v, s)
    requires SlotsBelow(w, t, used', ChainOf(w, t, e)) && NoDuplicates(ChainOf(w, t, e))
    requires forall s :: s in ChainOf(w, t, e) ==> s.offset >= used * SLOT
    requires TextOk(w, t, e) && AllPresent(w, ChainOf(w, t, e))
    requires Field(e.key, ValueOf(w, t, e)) == StoredField(f)
    ensures Written(w, t, used', es + [e], fs + [f])
  {
    var c, d := ChainsOf(v, t, es), ChainOf(w, t, e);
    forall s | s in c ensures HasChunk(w, s) && ChunkAt(w, s) == ChunkAt(v, s) && SlotBelow(w, t, used', s) && s !in d {
      assert SlotBelow(v, t, used, s);
    }
    ChainsFrame(v, w, t, es);
    assert ChainsOf(w, t, [e]) == d + [] == d;
    assert TextsOk(w, t, [e]);
    ChainsConcat(w, t, es, [e]);
    TextsConcat(w, t, es, [e]);
    FieldsConcat(w, t, es, [e]);
    NoDuplicatesConcat(c, d);
    forall s | s in c + d ensures SlotBelow(w, t, used', s) {
    }
    StoredFieldsPush(fs, f);
    assert FieldsOf(w, t, [e]) == [StoredField(f)];
  }

  // ---------- a text written as one run ----------

  /** The chunks of text s written at slot number `first` of toast t. */
  ghost function TextRun(s: CString, t: nat, first: nat): seq<Chunk> {
    Run(s + [0], 0, Chunks(TextSize(s)), t, first, t, TextSize(s) % CHUNK_SIZE)
  }

  /** Only the copied bytes of the text matter to a run. */
  lemma {:induction false} RunPrefix(text: seq<byte>, cut: seq<byte>, from: nat, m: nat, t: nat, first: nat, last: nat,
                                     len: nat)
    requires len <= CHUNK_SIZE && (m > 0 ==> CHUNK_SIZE * (from + m - 1) + len <= |cut|) && cut <= text
    ensures Run(text, from, m, t, first, last, len) == Run(cut, from, m, t, first, last, len)
    decreases m
  {
    if m > 1 {
      RunPrefix(text, cut, from + 1, m - 1, t, first + 1, last, len);
      assert PieceData(text, from, CHUNK_SIZE) == PieceData(cut, from, CHUNK_SIZE);
    } else if m == 1 {
      assert PieceData(text, from, len) == PieceData(cut, from, len);
    }
  }

  /** The part of s and its terminator that writeElement copies. */
  function CopiedText(s: CString): seq<byte> {
    if TextSize(s) % CHUNK_SIZE == 0 then s[..TextSize(s) - CHUNK_SIZE] else s + [0]
  }

  lemma ReadBackBuffer(view: View, c: seq<Slot>, s: CString)
    requires NulFree(s) && AllPresent(view, c) && |c| == Chunks(TextSize(s)) && ChainCarries(view, c, CopiedText(s))
    ensures 0 in ReadBuffer(view, c, TextSize(s))
    ensures CStringOf(ReadBuffer(view, c, TextSize(s))) == StoredText(s)
  {
    var size := TextSize(s);
    CarriedRead(view, c, CopiedText(s));
    var buf := ReadBuffer(view, c, size);
    if size % CHUNK_SIZE != 0 {
      assert buf[|s|] == (s + [0])[|s|] == 0;
      CarriedText(view, c, size, s);
    } else {
      var head := s[..size - CHUNK_SIZE];
      assert buf == head + Zeros(CHUNK_SIZE);
      assert buf[|head|] == 0;
      CStringOfPrefix(buf, head);
    }
  }

  /** A text written as a run behind the used slots of t is a fresh chain that reads back as StoredText. */
  lemma TextWritten(v: View, w: View, t: nat, s: CString, used: nat, key: CString)
    requires t in v && v[t].Toast? && NulFree(s)
    requires exists used' :: w == v[t := WithSlots(v[t], PutRun(v[t].slots, used, TextRun(s, t, used)), used')]
    ensures var e := SText(key, TextSize(s), used * SLOT);
            && ChainOf(w, t, e) == RunSlots(t, used, Chunks(TextSize(s)))
            && AllPresent(w, ChainOf(w, t, e)) && TextOk(w, t, e)
            && ValueOf(w, t, e) == TextValue(StoredText(s))
            && StoredText(s) == (if (|s| + 1) % 32 == 0 then s[..|s| - 31] else s)
            && (ValueOf(w, t, e) == TextValue(s) <==> (|s| + 1) % 32 != 0)
  {
    var m, len, text := Chunks(TextSize(s)), TextSize(s) % CHUNK_SIZE, CopiedText(s);
    RunPrefix(s + [0], text, 0, m, t, used, t, len);
    RunIsChain(w, v[t].slots, text, 0, m, t, used, t, len);
    var c := RunSlots(t, used, m);
    forall i: nat | i < |c| ensures Carries(w, c[i], text, i) {
      assert Carries(w, c[i], text, 0 + i);
    }
    ReadBackBuffer(w, c, s);
  }

  lemma WrittenText(v: View, w: View, t: nat, s: CString, used: nat, used': nat, key: CString, es: seq<Stored>,
                    fs: seq<Field>)
    requires t in v && v[t].Toast? && NulFree(s) && Written(v, t, used, es, fs)
    requires used' == used + Chunks(TextSize(s))
    requires w == v[t := WithSlots(v[t], PutRun(v[t].slots, used, TextRun(s, t, used)), used')]
    ensures Written(w, t, used', es + [SText(key, TextSize(s), used * SLOT)],
                    fs + [Field(key, TextValue(s))])
  {
    var e, m := SText(key, TextSize(s), used * SLOT), Chunks(TextSize(s));
    TextWritten(v, w, t, s, used, key);
    forall x | SlotBelow(v, t, used, x) ensures HasChunk(w, x) && ChunkAt(w, x) == ChunkAt(v, x) {
      PutRunBelow(v[t].slots, used, TextRun(s, t, used), x.offset);
    }
    RunSlotsIn(t, used, m, Slot(t, 0));
    forall x | x in ChainOf(w, t, e) ensures SlotBelow(w, t, used', x) && x.offset >= used * SLOT {
      RunSlotsIn(t, used, m, x);
    }
    WrittenPush(v, w, t, used, used', es, fs, e, Field(key, TextValue(s)));
  }

  lemma WrittenScalar(v: View, t: nat, used: nat, es: seq<Stored>, fs: seq<Field>, e: Stored, f: Field)
    requires Written(v, t, used, es, fs) && !e.SText?
    requires Field(e.key, ValueOf(v, t, e)) == f
    ensures Written(v, t, used, es + [e], fs + [f])
  {
    WrittenPush(v, v, t, used, used, es, fs, e, f);
  }

  /** After a text that fills its last chunk comes slot 0 of the toast, the first chunk of the document's first text.
      updateElement counts one chunk too many for such a text, so that it would write into that slot when it grows. */
  lemma FullTextLeadsToFirst(v: View, t: nat, s: CString, used: nat, used': nat)
    requires t in v && v[t].Toast? && TextSize(s) % CHUNK_SIZE == 0
    requires v[t].used == used && used' == used + Chunks(TextSize(s))
    ensures var n := Chunks(TextSize(s));
            Chain(WithText(v, t, s, used'), Slot(t, used * SLOT), n + 1)[n] == Slot(t, 0)
  {
    var w, n, start, text := WithText(v, t, s, used'), Chunks(TextSize(s)), Slot(t, used * SLOT), CopiedText(s);
    RunPrefix(s + [0], text, 0, n, t, used, t, 0);
    RunIsChain(w, v[t].slots, text, 0, n, t, used, t, 0);
    ChainAt(w, start, n, n - 1);
    FollowNext(w, start, n - 1);
    ChainAt(w, start, n + 1, n);
  }

  // ---------- writeElement ----------

  /** The view after a text was written behind the used slots of toast t, which then counts used'. */
  ghost function WithText(v: View, t: nat, s: CString, used': nat): View
    requires t in v && v[t].Toast?
  {
    v[t := WithSlots(v[t], PutRun(v[t].slots, v[t].used, TextRun(s, t, v[t].used)), used')]
  }

  /** Toast t exists and has room for the chunks of this value. */
  ghost predicate HasRoom(v: View, t: nat, value: Value) {
    value.TextValue? ==>
      t in v && v[t].Toast? && TOAST_HEADER + (v[t].used + ElementChunks(value)) * SLOT <= v[t].capacity
  }

  method WriteElement(file: ZgdbFile, cur: Field, firstToastIndex: nat) returns (stored: Stored, ghost used': nat)
    requires file.Standing() && HasRoom(file.View(), firstToastIndex, cur.value)
    requires cur.value.TextValue? ==> file.Whole(firstToastIndex)
    modifies file`blocks, file`zeroed
    ensures file.Standing() && file.zeroed == old(file.zeroed)
    ensures match cur.value
            case IntValue(i) => stored == SInt(cur.key, i) && file.View() == old(file.View())
            case DoubleValue(bits) => stored == SDouble(cur.key, bits) && file.View() == old(file.View())
            case BoolValue(b) => stored == SBool(cur.key, b) && file.View() == old(file.View())
            case TextValue(s) =>
              var v := old(file.View());
              && stored == SText(cur.key, TextSize(s), v[firstToastIndex].used * SLOT)
              && used' == v[firstToastIndex].used + Chunks(TextSize(s))
              && file.View() == WithText(v, firstToastIndex, s, used')
  {
    used' := 0;
    match cur.value {
      case IntValue(i) => stored := SInt(cur.key, i);
      case DoubleValue(bits) => stored := SDouble(cur.key, bits);
      case BoolValue(b) => stored := SBool(cur.key, b);
      case TextValue(s) =>
        var offset;
        offset, used' := WriteText(file, s, firstToastIndex);
        stored := SText(cur.key, TextSize(s), offset);
    }
  }

  /** The text branch of writeElement. */
  method WriteText(file: ZgdbFile, s: CString, t: nat) returns (nextOffset: nat, ghost used': nat)
    requires file.Standing() && HasRoom(file.View(), t, TextValue(s)) && file.Whole(t)
    modifies file`blocks, file`zeroed
    ensures file.Standing() && file.zeroed == old(file.zeroed) && nextOffset == old(file.View())[t].used * SLOT
    ensures used' == old(file.View())[t].used + Chunks(TextSize(s))
    ensures file.View() == WithText(old(file.View()), t, s, used')
  {
    ghost var v := file.View();
    var chunks := Chunks(TextSize(s));
    var tempToast := file.ReadBlock(t);
    nextOffset := tempToast.used * SLOT;
    AppendChunks(file, t, tempToast.used, s + [0], 0, chunks, t, TextSize(s) % CHUNK_SIZE);
    ghost var slots := PutRun(tempToast.slots, tempToast.used, TextRun(s, t, tempToast.used));
    used' := CountChunks(file, t, tempToast, chunks, v, slots);
  }

  /** Counts the chunks just written. */
  method CountChunks(file: ZgdbFile, t: nat, tempToast: Block, chunks: nat, ghost v: View, ghost slots: map<nat, Chunk>)
    returns (ghost used': nat)
    requires file.Standing() && tempToast.Toast? && file.Whole(t)
    requires file.View() == v[t := tempToast.(slots := slots)]
    modifies file`blocks, file`zeroed
    ensures file.Standing() && file.zeroed == old(file.zeroed) && used' == tempToast.used + chunks
    ensures file.View() == v[t := WithSlots(tempToast, slots, used')]
  {
    var used := tempToast.used + chunks;
    WriteToastHeader(file, t, used, tempToast.nextToastIndex);
    used' := used;
  }
}
