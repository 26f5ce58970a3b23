/** Elements as bytes: how a document's elements are encoded, and decoding them without a buffer. */
module ElementBytes {
  import opened Blocks
  import opened Texts
  import opened Records
  import opened Schemas
  import opened ElementWriters

  const TYPE_INT: byte := 1
  const TYPE_DOUBLE: byte := 2
  const TYPE_BOOLEAN: byte := 3
  const TYPE_TEXT: byte := 4

  // ---------- numbers ----------

  function Pow256(n: nat): (p: nat)
    ensures p > 0
  {
    if n == 0 then 1 else 256 * Pow256(n - 1)
  }

  function LittleEndian(v: nat, n: nat): (b: seq<byte>)
    ensures |b| == n
  {
    if n == 0 then [] else [v % 256] + LittleEndian(v / 256, n - 1)
  }

  function FromLittleEndian(b: seq<byte>): nat {
    if b == [] then 0 else b[0] + 256 * FromLittleEndian(b[1..])
  }

  lemma {:induction false} NumberBound(b: seq<byte>)
    ensures FromLittleEndian(b) < Pow256(|b|)
  {
    if b != [] { NumberBound(b[1..]); }
  }

  lemma AtLeastOnce(d: nat, k: nat)
    requires k >= 1
    ensures d * k >= d
  {
    assert d * k == d * (k - 1) + d && d * (k - 1) >= 0;
  }

  lemma SameQuotient(d: nat, q: nat, r: nat, q': nat, r': nat)
    requires r < d && r' < d && d * q + r == d * q' + r'
    ensures q == q'
  {
    assert d * (q' - q) == d * q' - d * q && d * (q - q') == d * q - d * q';
    if q < q' { AtLeastOnce(d, q' - q); }
    if q' < q { AtLeastOnce(d, q - q'); }
  }

  lemma TimesTwice(a: nat, b: nat, c: nat)
    ensures a * b * c == a * (b * c)
  {
  }

  lemma NestedQuotient(v: nat, p: nat, d: nat, x: nat, y: nat, q: nat, r: nat, q': nat, r': nat)
    requires d == 256 * p && v == 256 * x + y && y < 256 && x == p * q + r && r < p && v == d * q' + r' && r' < d
    ensures q == q'
  {
    TimesTwice(256, p, q);
    SameQuotient(d, q, 256 * r + y, q', r');
  }

  lemma Divided(v: nat, d: nat) returns (q: nat, r: nat)
    requires d > 0
    ensures v == d * q + r && r < d && v / d == q
  {
    q, r := v / d, v % d;
  }

  lemma PowersDivide(v: nat, i: nat)
    ensures v / 256 / Pow256(i) == v / Pow256(i + 1)
  {
    var p, d := Pow256(i), Pow256(i + 1);
    var x, y := Divided(v, 256);
    var q, r := Divided(x, p);
    var q', r' := Divided(v, d);
    NestedQuotient(v, p, d, x, y, q, r, q', r');
  }

  /** Byte i of a number counts 256 to the power of i. */
  lemma {:induction false} LittleEndianDigit(v: nat, n: nat, i: nat)
    requires i < n
    ensures LittleEndian(v, n)[i] == v / Pow256(i) % 256
  {
    if i > 0 {
      LittleEndianDigit(v / 256, n - 1, i - 1);
      PowersDivide(v, i - 1);
    }
  }

  /** A number has its digits to the base 256 as bytes, the least significant one first, and comes back from them. */
  lemma {:induction false} NumberRoundTrip(v: nat, n: nat)
    requires v < Pow256(n)
    ensures FromLittleEndian(LittleEndian(v, n)) == v
    ensures forall i: nat :: i < n ==> LittleEndian(v, n)[i] == v / Pow256(i) % 256
  {
    if n > 0 {
      assert v / 256 < Pow256(n - 1);
      NumberRoundTrip(v / 256, n - 1);
    }
    forall i: nat | i < n ensures LittleEndian(v, n)[i] == v / Pow256(i) % 256 {
      LittleEndianDigit(v, n, i);
    }
  }

  lemma {:induction false} FromLittleEndianConcat(a: seq<byte>, b: seq<byte>)
    ensures FromLittleEndian(a + b) == FromLittleEndian(a) + Pow256(|a|) * FromLittleEndian(b)
  {
    if a == [] {
      assert a + b == b;
    } else {
      assert (a + b)[0] == a[0] && (a + b)[1..] == a[1..] + b;
      FromLittleEndianConcat(a[1..], b);
      TimesTwice(256, Pow256(|a| - 1), FromLittleEndian(b));
    }
  }

  const TWO_31: int := 0x8000_0000
  const TWO_32: int := 0x1_0000_0000
  const TWO_63: int := 0x8000_0000_0000_0000
  const TWO_64: int := 0x1_0000_0000_0000_0000

  lemma Powers()
    ensures Pow256(4) == TWO_32 && Pow256(8) == TWO_64
  {
    assert Pow256(2) == 65536 && Pow256(3) == 16777216;
    assert Pow256(4) == TWO_32;
    assert Pow256(5) == 256 * TWO_32;
    assert Pow256(6) == 65536 * TWO_32;
    assert Pow256(7) == 16777216 * TWO_32;
  }

  /** int32_t in two's complement. */
  function Bits32(i: int): nat
    requires -TWO_31 <= i < TWO_31
  {
    if i < 0 then i + TWO_32 else i
  }

  function FromBits32(n: nat): int {
    if n >= TWO_31 then n - TWO_32 else n
  }

  // ---------- elements ----------

  function TypeOf(e: Stored): byte {
    match e
    case SInt(_, _) => TYPE_INT
    case SDouble(_, _) => TYPE_DOUBLE
    case SBool(_, _) => TYPE_BOOLEAN
    case SText(_, _, _) => TYPE_TEXT
  }

  /** The bytes behind type and key. */
  function PayloadSize(t: byte): nat {
    if t == TYPE_INT then 4 else if t == TYPE_DOUBLE then 8 else if t == TYPE_BOOLEAN then 1
    else if t == TYPE_TEXT then FIRST_CHUNK else 0
  }

  const PREFIX: nat := 1 + KEY_SIZE

  /** The ranges of the struct fields; a text's offset is a non-negative off_t. */
  predicate Storable(e: Stored) {
    && |e.key| < KEY_SIZE && NulFree(e.key)
    && match e
       case SInt(_, i) => -TWO_31 <= i < TWO_31
       case SDouble(_, bits) => bits < TWO_64
       case SBool(_, _) => true
       case SText(_, size, offset) => size < TWO_32 && offset < TWO_63
  }

  function KeyBytes(key: CString): (b: seq<byte>)
    requires |key| < KEY_SIZE
    ensures |b| == KEY_SIZE
  {
    key + Zeros(KEY_SIZE - |key|)
  }

  function Payload(e: Stored): (b: seq<byte>)
    requires Storable(e)
    ensures |b| == PayloadSize(TypeOf(e))
  {
    match e
    case SInt(_, i) => LittleEndian(Bits32(i), 4)
    case SDouble(_, bits) => LittleEndian(bits, 8)
    case SBool(_, b) => [b]
    case SText(_, size, offset) => LittleEndian(size, 4) + LittleEndian(offset, 8)
  }

  /** What writeElement puts in the document. */
  function Encode(e: Stored): (b: seq<byte>)
    requires Storable(e)
    ensures |b| == PREFIX + PayloadSize(TypeOf(e))
  {
    [TypeOf(e)] + KeyBytes(e.key) + Payload(e)
  }

  function EncodeAll(es: seq<Stored>): seq<byte>
    requires forall e :: e in es ==> Storable(e)
  {
    if es == [] then [] else Encode(es[0]) + EncodeAll(es[1..])
  }

  // ---------- direct decoding ----------

  function Make(t: byte, key: CString, payload: seq<byte>): Stored
    requires TYPE_INT <= t <= TYPE_TEXT && |payload| == PayloadSize(t)
  {
    if t == TYPE_INT then SInt(key, FromBits32(FromLittleEndian(payload)))
    else if t == TYPE_DOUBLE then SDouble(key, FromLittleEndian(payload))
    else if t == TYPE_BOOLEAN then SBool(key, payload[0])
    else SText(key, FromLittleEndian(payload[..4]), FromLittleEndian(payload[4..]))
  }

  /** An element of a known type lies at this offset, complete. */
  predicate ElementAt(bytes: seq<byte>, off: nat) {
    && off + PREFIX <= |bytes|
    && TYPE_INT <= bytes[off] <= TYPE_TEXT
    && off + PREFIX + PayloadSize(bytes[off]) <= |bytes|
  }

  function SizeAt(bytes: seq<byte>, off: nat): (n: nat)
    requires off < |bytes|
    ensures n <= PREFIX + FIRST_CHUNK
  {
    PREFIX + PayloadSize(bytes[off])
  }

  function DecodeAt(bytes: seq<byte>, off: nat): Stored
    requires ElementAt(bytes, off)
  {
    Make(bytes[off], CStringOf(bytes[off + 1..off + PREFIX]), bytes[off + PREFIX..off + SizeAt(bytes, off)])
  }

  /** An element and where it begins in the file. */
  datatype ElementEntry = ElementEntry(element: Stored, offsetInDocument: nat)

  /** n elements of known types lie behind each other. */
  predicate ElementsAt(bytes: seq<byte>, off: nat, n: nat)
    decreases n
  {
    n == 0 || (ElementAt(bytes, off) && ElementsAt(bytes, off + SizeAt(bytes, off), n - 1))
  }

  function DecodeAll(bytes: seq<byte>, off: nat, n: nat): (es: seq<ElementEntry>)
    requires ElementsAt(bytes, off, n)
    ensures |es| == n
    decreases n
  {
    if n == 0 then []
    else [ElementEntry(DecodeAt(bytes, off), off)] + DecodeAll(bytes, off + SizeAt(bytes, off), n - 1)
  }

  // ---------- what the bytes of an element mean ----------

  /** Four bytes as a number, the least significant one first. */
  ghost function Word(bytes: seq<byte>, at: nat): nat
    requires at + 4 <= |bytes|
  {
    var b0: nat, b1: nat, b2: nat, b3: nat := bytes[at], bytes[at + 1], bytes[at + 2], bytes[at + 3];
    b0 + 0x100 * b1 + 0x1_0000 * b2 + 0x100_0000 * b3
  }

  /** Eight bytes as a number. */
  ghost function LongWord(bytes: seq<byte>, at: nat): nat
    requires at + 8 <= |bytes|
  {
    Word(bytes, at) + 0x1_0000_0000 * Word(bytes, at + 4)
  }

  /** b begins with the string and, unless it ends there, a zero byte. */
  ghost predicate BeginsWith(b: seq<byte>, s: CString) {
    |s| <= |b| && (forall i :: 0 <= i < |s| ==> b[i] == s[i] != 0) && (|s| < |b| ==> b[|s|] == 0)
  }

  /** Element e stands at `off`, byte by byte: its type, its key in 13 bytes, and behind these an int32_t in two's
      complement, the 64 bits of a double, a boolean, or the size of a text and where it begins. */
  ghost predicate Spells(bytes: seq<byte>, off: nat, e: Stored) {
    && off + 14 <= |bytes| && BeginsWith(bytes[off + 1..off + 14], e.key)
    && match e
       case SInt(_, i) =>
         bytes[off] == 1 && off + 18 <= |bytes| && -0x8000_0000 <= i < 0x8000_0000
         && Word(bytes, off + 14) == if i < 0 then i + 0x1_0000_0000 else i
       case SDouble(_, bits) => bytes[off] == 2 && off + 22 <= |bytes| && bits == LongWord(bytes, off + 14)
       case SBool(_, b) => bytes[off] == 3 && off + 15 <= |bytes| && b == bytes[off + 14]
       case SText(_, size, at) =>
         bytes[off] == 4 && off + 26 <= |bytes| && size == Word(bytes, off + 14) && at == LongWord(bytes, off + 18)
  }

  /** The bytes an element takes. */
  ghost function Span(e: Stored): nat {
    match e
    case SInt(_, _) => 18
    case SDouble(_, _) => 22
    case SBool(_, _) => 15
    case SText(_, _, _) => 26
  }

  lemma WordIs(bytes: seq<byte>, at: nat)
    requires at + 4 <= |bytes|
    ensures FromLittleEndian(bytes[at..at + 4]) == Word(bytes, at) < 0x1_0000_0000
  {
    var b := bytes[at..at + 4];
    assert b[1..][1..] == b[2..] && b[2..][1..] == b[3..] && b[3..][1..] == [];
    assert FromLittleEndian(b[3..]) == b[3] && FromLittleEndian(b[2..]) == b[2] + 256 * FromLittleEndian(b[3..]);
    assert FromLittleEndian(b[1..]) == b[1] + 256 * FromLittleEndian(b[2..]);
  }

  lemma LongWordIs(bytes: seq<byte>, at: nat)
    requires at + 8 <= |bytes|
    ensures FromLittleEndian(bytes[at..at + 8]) == LongWord(bytes, at)
  {
    Powers();
    assert bytes[at..at + 8] == bytes[at..at + 4] + bytes[at + 4..at + 8];
    WordIs(bytes, at);
    WordIs(bytes, at + 4);
    FromLittleEndianConcat(bytes[at..at + 4], bytes[at + 4..at + 8]);
  }

  lemma BeginsWithRest(b: seq<byte>, s: CString)
    requires b != [] && s != []
    ensures BeginsWith(b, s) <==> b[0] == s[0] != 0 && BeginsWith(b[1..], s[1..])
  {
    if b[0] == s[0] != 0 && BeginsWith(b[1..], s[1..]) {
      forall i | 0 <= i < |s| ensures b[i] == s[i] != 0 {
        if i > 0 { assert b[1..][i - 1] == s[1..][i - 1]; }
      }
    }
  }

  lemma {:induction false} CStringBegins(b: seq<byte>, s: CString)
    ensures CStringOf(b) == s <==> BeginsWith(b, s)
  {
    if b != [] && s != [] {
      CStringBegins(b[1..], s[1..]);
      BeginsWithRest(b, s);
      assert s == [s[0]] + s[1..];
    }
  }

  /** An element lies at an offset iff its first byte is 1, 2, 3 or 4 and all its bytes are there; the type alone
      decides how many these are. */
  lemma ElementAtIff(bytes: seq<byte>, off: nat)
    ensures ElementAt(bytes, off) <==>
            && off + 14 <= |bytes| && 1 <= bytes[off] <= 4
            && off + (match bytes[off] case 1 => 18 case 2 => 22 case 3 => 15 case _ => 26) <= |bytes|
    ensures ElementAt(bytes, off) ==>
              SizeAt(bytes, off) == match bytes[off] case 1 => 18 case 2 => 22 case 3 => 15 case _ => 26
  {
  }

  /** Decoding gives exactly the element that stands there. */
  lemma DecodeIff(bytes: seq<byte>, off: nat, e: Stored)
    requires ElementAt(bytes, off)
    ensures Spells(bytes, off, e) <==> e == DecodeAt(bytes, off)
    ensures SizeAt(bytes, off) == Span(DecodeAt(bytes, off))
  {
    ElementAtIff(bytes, off);
    var key := bytes[off + 1..off + PREFIX];
    CStringBegins(key, e.key);
    var payload := bytes[off + PREFIX..off + SizeAt(bytes, off)];
    if bytes[off] == 1 {
      WordIs(bytes, off + 14);
    } else if bytes[off] == 2 {
      LongWordIs(bytes, off + 14);
    } else if bytes[off] == 4 {
      WordIs(bytes, off + 14);
      LongWordIs(bytes, off + 18);
      assert payload[..4] == bytes[off + 14..off + 18] && payload[4..] == bytes[off + 18..off + 26];
    }
  }

  /** The entries are what stands in the bytes from `off` on, one element behind the other. */
  ghost predicate SpellsAll(bytes: seq<byte>, off: nat, entries: seq<ElementEntry>)
    decreases entries
  {
    entries == [] ||
    (entries[0].offsetInDocument == off && Spells(bytes, off, entries[0].element)
     && SpellsAll(bytes, off + Span(entries[0].element), entries[1..]))
  }

  lemma {:induction false} DecodeAllIff(bytes: seq<byte>, off: nat, entries: seq<ElementEntry>)
    requires ElementsAt(bytes, off, |entries|)
    ensures SpellsAll(bytes, off, entries) <==> entries == DecodeAll(bytes, off, |entries|)
    decreases entries
  {
    if entries != [] {
      DecodeIff(bytes, off, entries[0].element);
      var next := off + SizeAt(bytes, off);
      DecodeAllIff(bytes, next, entries[1..]);
      DecodeStep(bytes, off, next, |entries|);
      assert entries == [entries[0]] + entries[1..];
    }
  }

  /** What writeElement puts in the document stands there as the element, in as many bytes as it takes. */
  lemma EncodeSpells(e: Stored)
    requires Storable(e)
    ensures Spells(Encode(e), 0, e) && |Encode(e)| == Span(e)
  {
    EncodedAt(Encode(e), 0, e);
    DecodeIff(Encode(e), 0, e);
  }

  // ---------- decoding undoes encoding ----------

  lemma KeyRoundTrip(key: CString)
    requires |key| < KEY_SIZE && NulFree(key)
    ensures CStringOf(KeyBytes(key)) == key
  {
    CStringOfPrefix(KeyBytes(key), key);
  }

  lemma PayloadRoundTrip(e: Stored)
    requires Storable(e)
    ensures Make(TypeOf(e), e.key, Payload(e)) == e
  {
    Powers();
    match e {
      case SInt(_, i) => NumberRoundTrip(Bits32(i), 4);
      case SDouble(_, bits) => NumberRoundTrip(bits, 8);
      case SBool(_, _) =>
      case SText(_, size, offset) =>
        NumberRoundTrip(size, 4);
        NumberRoundTrip(offset, 8);
        assert Payload(e)[..4] == LittleEndian(size, 4) && Payload(e)[4..] == LittleEndian(offset, 8);
    }
  }

  lemma ThreeSlices<T>(a: seq<T>, b: seq<T>, c: seq<T>)
    ensures (a + b + c)[|a|..|a| + |b|] == b && (a + b + c)[|a| + |b|..] == c
  {
  }

  lemma EncodedParts(e: Stored)
    requires Storable(e)
    ensures Encode(e)[0] == TypeOf(e) && Encode(e)[1..PREFIX] == KeyBytes(e.key) && Encode(e)[PREFIX..] == Payload(e)
  {
    ThreeSlices([TypeOf(e)], KeyBytes(e.key), Payload(e));
  }

  /** These bytes lie at this offset. */
  predicate Holds(bytes: seq<byte>, off: nat, b: seq<byte>) {
    off + |b| <= |bytes| && bytes[off..off + |b|] == b
  }

  lemma HoldsPart(bytes: seq<byte>, off: nat, b: seq<byte>, i: nat, j: nat)
    requires Holds(bytes, off, b) && i <= j <= |b|
    ensures bytes[off + i..off + j] == b[i..j]
  {
    var lo, hi := off + i, off + j;
    assert |bytes[lo..hi]| == |b[i..j]|;
    forall k | 0 <= k < j - i ensures bytes[lo..hi][k] == b[i..j][k] {
      assert bytes[off..off + |b|][i + k] == bytes[lo + k];
    }
  }

  /** Bytes that contain an encoded element decode to it. */
  lemma EncodedAt(bytes: seq<byte>, off: nat, e: Stored)
    requires Storable(e) && Holds(bytes, off, Encode(e))
    ensures ElementAt(bytes, off) && SizeAt(bytes, off) == |Encode(e)| && DecodeAt(bytes, off) == e
  {
    var b := Encode(e);
    EncodedParts(e);
    var w := bytes[off..off + |b|];
    assert w == b && w[0] == bytes[off];
    HoldsPart(bytes, off, b, 1, PREFIX);
    HoldsPart(bytes, off, b, PREFIX, |b|);
    assert b[PREFIX..|b|] == b[PREFIX..];
    KeyRoundTrip(e.key);
    PayloadRoundTrip(e);
  }

  ghost function ElementsOf(entries: seq<ElementEntry>): (es: seq<Stored>)
    ensures |es| == |entries|
  {
    if entries == [] then [] else [entries[0].element] + ElementsOf(entries[1..])
  }

  /** Decoding a document's encoded elements gives them back in order. */
  lemma {:induction false} EncodeAllRoundTrip(bytes: seq<byte>, off: nat, es: seq<Stored>)
    requires forall e :: e in es ==> Storable(e)
    requires Holds(bytes, off, EncodeAll(es))
    ensures ElementsAt(bytes, off, |es|) && ElementsOf(DecodeAll(bytes, off, |es|)) == es
    decreases |es|
  {
    hide Encode;
    if es != [] {
      var rest := es[1..];
      var next := HoldsTwo(bytes, off, Encode(es[0]), EncodeAll(rest));
      EncodedAt(bytes, off, es[0]);
      EncodeAllRoundTrip(bytes, next, rest);
      DecodeStep(bytes, off, next, |es|);
    }
  }

  lemma HoldsTwo(bytes: seq<byte>, off: nat, a: seq<byte>, b: seq<byte>) returns (next: nat)
    requires Holds(bytes, off, a + b)
    ensures next == off + |a| && Holds(bytes, off, a) && Holds(bytes, next, b)
  {
    next := off + |a|;
    HoldsPart(bytes, off, a + b, 0, |a|);
    HoldsPart(bytes, off, a + b, |a|, |a + b|);
    assert (a + b)[..|a|] == a && (a + b)[|a|..|a + b|] == b;
  }

  lemma DecodeStep(bytes: seq<byte>, off: nat, next: nat, n: nat)
    requires n > 0 && ElementAt(bytes, off) && next == off + SizeAt(bytes, off)
    ensures ElementsAt(bytes, off, n) <==> ElementsAt(bytes, next, n - 1)
    ensures ElementsAt(bytes, off, n) ==>
              DecodeAll(bytes, off, n) == [ElementEntry(DecodeAt(bytes, off), off)] + DecodeAll(bytes, next, n - 1)
  {
  }

  /** The elements written for a schema take exactly the bytes the schema counted. */
  lemma {:induction false} WrittenSize(view: View, t: nat, es: seq<Stored>, fs: seq<Field>)
    requires AllPresent(view, ChainsOf(view, t, es)) && FieldsOf(view, t, es) == StoredFields(fs)
    requires forall e :: e in es ==> Storable(e)
    ensures |EncodeAll(es)| == SizeOf(fs)
  {
    if es != [] {
      var all, read := FieldsOf(view, t, es), StoredFields(fs);
      assert all[0] == read[0] == StoredField(fs[0]) && all[1..] == FieldsOf(view, t, es[1..])
          && read[1..] == StoredFields(fs[1..]);
      WrittenSize(view, t, es[1..], fs[1..]);
    }
  }

  // ---------- updating a value in place ----------

  /** `payload` written over the bytes at `at`. */
  function Patched(bytes: seq<byte>, at: nat, payload: seq<byte>): (b: seq<byte>)
    requires at + |payload| <= |bytes|
    ensures |b| == |bytes|
  {
    bytes[..at] + payload + bytes[at + |payload|..]
  }

  /** An element that lies at `off` in `bytes` lies there in bytes', too. */
  ghost predicate SameElement(bytes: seq<byte>, bytes': seq<byte>, off: nat) {
    ElementAt(bytes, off) ==>
      ElementAt(bytes', off) && SizeAt(bytes', off) == SizeAt(bytes, off)
      && DecodeAt(bytes', off) == DecodeAt(bytes, off)
  }

  lemma SameBytes(bytes: seq<byte>, bytes': seq<byte>, off: nat)
    requires |bytes'| == |bytes|
    requires ElementAt(bytes, off) ==> forall i :: off <= i < off + SizeAt(bytes, off) ==> bytes'[i] == bytes[i]
    ensures SameElement(bytes, bytes', off)
  {
    if ElementAt(bytes, off) {
      var mid, end := off + PREFIX, off + SizeAt(bytes, off);
      assert bytes'[off] == bytes[off];
      assert bytes'[off + 1..mid] == bytes[off + 1..mid] && bytes'[mid..end] == bytes[mid..end];
    }
  }

  lemma {:induction false} DecodeSame(bytes: seq<byte>, bytes': seq<byte>, off: nat, n: nat)
    requires ElementsAt(bytes, off, n) && forall x: nat :: x >= off ==> SameElement(bytes, bytes', x)
    ensures ElementsAt(bytes', off, n) && DecodeAll(bytes', off, n) == DecodeAll(bytes, off, n)
    decreases n
  {
    if n > 0 {
      assert SameElement(bytes, bytes', off);
      var next := off + SizeAt(bytes, off);
      DecodeSame(bytes, bytes', next, n - 1);
      DecodeStep(bytes, off, next, n);
      DecodeStep(bytes', off, next, n);
    }
  }

  lemma PatchedAt(bytes: seq<byte>, at: nat, payload: seq<byte>)
    requires at + |payload| <= |bytes|
    ensures forall i :: 0 <= i < |bytes| ==>
              Patched(bytes, at, payload)[i] == if at <= i < at + |payload| then payload[i - at] else bytes[i]
  {
  }

  /** The place updateElement writes to: behind the type and the key of the element it found. */
  lemma PatchedDecodes(bytes: seq<byte>, off: nat, e: Stored)
    requires ElementAt(bytes, off) && Storable(e) && TypeOf(e) == bytes[off] && e.key == DecodeAt(bytes, off).key
    ensures var bytes' := Patched(bytes, off + PREFIX, Payload(e));
            && ElementAt(bytes', off) && SizeAt(bytes', off) == SizeAt(bytes, off) && DecodeAt(bytes', off) == e
  {
    var mid, bytes' := off + PREFIX, Patched(bytes, off + PREFIX, Payload(e));
    PatchedAt(bytes, mid, Payload(e));
    assert bytes'[off] == bytes[off];
    assert bytes'[off + 1..mid] == bytes[off + 1..mid];
    assert bytes'[mid..mid + |Payload(e)|] == Payload(e);
    PayloadRoundTrip(e);
  }

  lemma PatchedAfter(bytes: seq<byte>, at: nat, payload: seq<byte>, off: nat, n: nat)
    requires at + |payload| <= |bytes| && ElementsAt(bytes, off, n) && at + |payload| <= off
    ensures ElementsAt(Patched(bytes, at, payload), off, n)
    ensures DecodeAll(Patched(bytes, at, payload), off, n) == DecodeAll(bytes, off, n)
  {
    var bytes' := Patched(bytes, at, payload);
    PatchedAt(bytes, at, payload);
    forall x: nat | x >= off ensures SameElement(bytes, bytes', x) {
      SameBytes(bytes, bytes', x);
    }
    DecodeSame(bytes, bytes', off, n);
  }

  lemma FirstChanged(bytes: seq<byte>, bytes': seq<byte>, off: nat, next: nat, n: nat, e: Stored)
    requires n > 0 && ElementAt(bytes, off) && ElementAt(bytes', off)
    requires next == off + SizeAt(bytes, off) == off + SizeAt(bytes', off)
    requires ElementsAt(bytes, next, n - 1) && ElementsAt(bytes', next, n - 1)
    requires DecodeAt(bytes', off) == e && DecodeAll(bytes', next, n - 1) == DecodeAll(bytes, next, n - 1)
    ensures ElementsAt(bytes, off, n) && ElementsAt(bytes', off, n)
    ensures DecodeAll(bytes', off, n) == DecodeAll(bytes, off, n)[0 := ElementEntry(e, off)]
  {
    DecodeStep(bytes, off, next, n);
    DecodeStep(bytes', off, next, n);
  }

  lemma LaterChanged(bytes: seq<byte>, bytes': seq<byte>, off: nat, next: nat, n: nat, k: nat, entry: ElementEntry)
    requires 0 < k < n && ElementAt(bytes, off) && SameElement(bytes, bytes', off) && next == off + SizeAt(bytes, off)
    requires ElementsAt(bytes, next, n - 1) && ElementsAt(bytes', next, n - 1)
    requires DecodeAll(bytes', next, n - 1) == DecodeAll(bytes, next, n - 1)[k - 1 := entry]
    ensures ElementsAt(bytes, off, n) && ElementsAt(bytes', off, n)
    ensures DecodeAll(bytes', off, n) == DecodeAll(bytes, off, n)[k := entry]
  {
    DecodeStep(bytes, off, next, n);
    DecodeStep(bytes', off, next, n);
  }

  /** Element k of the decoded ones can be given the value of e. */
  ghost predicate Replaceable(bytes: seq<byte>, off: nat, n: nat, k: nat, e: Stored) {
    && ElementsAt(bytes, off, n) && k < n && Storable(e)
    && TypeOf(e) == TypeOf(DecodeAll(bytes, off, n)[k].element) && e.key == DecodeAll(bytes, off, n)[k].element.key
  }

  /** e's payload, written behind type and key of element k, which begins at `at`, gives that element the value of e
      and changes no other. */
  ghost predicate PatchedTo(bytes: seq<byte>, off: nat, n: nat, k: nat, e: Stored, at: nat) {
    && Storable(e) && ElementsAt(bytes, off, n) && k < n
    && at == DecodeAll(bytes, off, n)[k].offsetInDocument && off <= at && at + PREFIX + |Payload(e)| <= |bytes|
    && var bytes' := Patched(bytes, at + PREFIX, Payload(e));
       ElementsAt(bytes', off, n) && DecodeAll(bytes', off, n) == DecodeAll(bytes, off, n)[k := ElementEntry(e, at)]
  }

  lemma {:induction false} PatchedDecodesAll(bytes: seq<byte>, off: nat, n: nat, k: nat, e: Stored) returns (at: nat)
    requires Replaceable(bytes, off, n, k, e)
    ensures PatchedTo(bytes, off, n, k, e, at)
    decreases n
  {
    var next, m, j := off + SizeAt(bytes, off), n - 1, k - 1;
    DecodeStep(bytes, off, next, n);
    if k == 0 {
      at := PatchedFirst(bytes, off, next, n, e);
    } else {
      at := PatchedDecodesAll(bytes, next, m, j, e);
      PatchedLater(bytes, off, next, n, k, at, e);
    }
  }

  lemma PatchedFirst(bytes: seq<byte>, off: nat, next: nat, n: nat, e: Stored) returns (at: nat)
    requires Replaceable(bytes, off, n, 0, e) && next == off + SizeAt(bytes, off)
    ensures PatchedTo(bytes, off, n, 0, e, at)
  {
    at := off;
    DecodeStep(bytes, off, next, n);
    PatchedDecodes(bytes, off, e);
    PatchedAfter(bytes, at + PREFIX, Payload(e), next, n - 1);
    FirstChanged(bytes, Patched(bytes, at + PREFIX, Payload(e)), off, next, n, e);
  }

  lemma PatchedLater(bytes: seq<byte>, off: nat, next: nat, n: nat, k: nat, at: nat, e: Stored)
    requires ElementAt(bytes, off) && 0 < k < n && next == off + SizeAt(bytes, off)
    requires PatchedTo(bytes, next, n - 1, k - 1, e, at)
    ensures PatchedTo(bytes, off, n, k, e, at)
  {
    var bytes' := Patched(bytes, at + PREFIX, Payload(e));
    DecodeStep(bytes, off, next, n);
    PatchedAt(bytes, at + PREFIX, Payload(e));
    SameBytes(bytes, bytes', off);
    LaterChanged(bytes, bytes', off, next, n, k, ElementEntry(e, at));
  }
}
