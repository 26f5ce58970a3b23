/** Document schemas: the elements of a document to be created, with running totals of the space they need. */
module Schemas {
  import opened Blocks
  import opened Texts
  import opened Records

  datatype AddStatus = ADD_OK | NAME_EXISTS | SCHEMA_OVERFLOW

  const ID_KEY: CString := [105, 100]

  /** The bytes an element takes in its document. */
  function ElementSize(v: Value): nat {
    1 + KEY_SIZE + match v
    case IntValue(_) => 4
    case DoubleValue(_) => 8
    case BoolValue(_) => 1
    case TextValue(_) => FIRST_CHUNK
  }

  function TextSize(s: CString): nat {
    |s| + 1
  }

  /** The chunks an element takes in the toast. */
  function ElementChunks(v: Value): nat {
    if v.TextValue? then Chunks(TextSize(v.s)) else 0
  }

  ghost function SizeOf(fs: seq<Field>): nat {
    if fs == [] then 0 else ElementSize(fs[0].value) + SizeOf(fs[1..])
  }

  ghost function ChunksOf(fs: seq<Field>): nat {
    if fs == [] then 0 else ElementChunks(fs[0].value) + ChunksOf(fs[1..])
  }

  lemma {:induction false} TotalsPush(fs: seq<Field>, f: Field)
    ensures SizeOf(fs + [f]) == SizeOf(fs) + ElementSize(f.value)
    ensures ChunksOf(fs + [f]) == ChunksOf(fs) + ElementChunks(f.value)
  {
    if fs == [] {
      assert fs + [f] == [f];
    } else {
      assert (fs + [f])[1..] == fs[1..] + [f];
      TotalsPush(fs[1..], f);
    }
  }

  lemma {:induction false} ChunksOfText(fs: seq<Field>)
    ensures ChunksOf(fs) > 0 <==> exists f :: f in fs && f.value.TextValue?
  {
    if fs != [] {
      ChunksOfText(fs[1..]);
      assert fs == [fs[0]] + fs[1..];
    }
  }

  ghost predicate HasKey(fs: seq<Field>, key: CString) {
    exists i :: 0 <= i < |fs| && fs[i].key == key
  }

  ghost predicate KeysUnique(fs: seq<Field>) {
    forall i, j :: 0 <= i < j < |fs| ==> fs[i].key != fs[j].key
  }

  /** What a schema element may hold: a key that fits 12 bytes and its NUL, and a C string as a text. */
  predicate FieldOk(f: Field) {
    |f.key| < KEY_SIZE && (f.value.TextValue? ==> NulFree(f.value.s))
  }

  ghost predicate FieldsOk(fs: seq<Field>) {
    forall f :: f in fs ==> FieldOk(f)
  }

  class DocumentSchema {
    const capacity: nat
    var elements: seq<Field>   // the filled part; `size` is its length
    var sizeOfElements: nat
    var minToastCapacity: nat
    var reqToast: bool

    /** The totals are those of the elements, whose keys are distinct and never "id". */
    ghost predicate Valid()
      reads this
    {
      && |elements| <= capacity
      && sizeOfElements == SizeOf(elements)
      && minToastCapacity == ChunksOf(elements)
      && (reqToast <==> exists f :: f in elements && f.value.TextValue?)
      && KeysUnique(elements) && !HasKey(elements, ID_KEY)
      && FieldsOk(elements)
    }

    constructor (capacity: nat)
      ensures Valid() && elements == [] && this.capacity == capacity
    {
      this.capacity := capacity;
      elements, sizeOfElements, minToastCapacity, reqToast := [], 0, 0, false;
    }

    method Contains(key: CString) returns (found: bool)
      ensures found <==> HasKey(elements, key)
    {
      for i := 0 to |elements|
        invariant !HasKey(elements[..i], key)
      {
        if elements[i].key == key {
          return true;
        }
        assert forall j :: 0 <= j < i ==> elements[..i][j] == elements[j];
      }
      assert elements[..|elements|] == elements;
      return false;
    }

    /** addIntToSchema, addDoubleToSchema, addBooleanToSchema and addTextToSchema. */
    method Add(key: CString, initValue: Value) returns (status: AddStatus)
      requires Valid() && FieldOk(Field(key, initValue))
      modifies this
      ensures Valid()
      ensures status == if key == ID_KEY || HasKey(old(elements), key) then NAME_EXISTS
                        else if |old(elements)| == capacity then SCHEMA_OVERFLOW
                        else ADD_OK
      ensures elements == if status == ADD_OK then old(elements) + [Field(key, initValue)] else old(elements)
      ensures status == ADD_OK ==>
                && sizeOfElements == old(sizeOfElements) + 14 +
                   (match initValue case IntValue(_) => 4 case DoubleValue(_) => 8 case BoolValue(_) => 1 case _ => 12)
                && minToastCapacity == old(minToastCapacity) +
                   (match initValue case TextValue(s) => (|s| + 1 + 31) / 32 case _ => 0)
    {
      if key == ID_KEY {
        return NAME_EXISTS;
      }
      var found := Contains(key);
      if found {
        return NAME_EXISTS;
      }
      if |elements| == capacity {
        return SCHEMA_OVERFLOW;
      }
      TotalsPush(elements, Field(key, initValue));
      ghost var was := elements;
      elements := elements + [Field(key, initValue)];
      match initValue {
        case IntValue(_) => sizeOfElements := sizeOfElements + (1 + KEY_SIZE + 4);
        case DoubleValue(_) => sizeOfElements := sizeOfElements + (1 + KEY_SIZE + 8);
        case BoolValue(_) => sizeOfElements := sizeOfElements + (1 + KEY_SIZE + 1);
        case TextValue(s) =>
          reqToast := true;
          minToastCapacity := minToastCapacity + Chunks(TextSize(s));
          sizeOfElements := sizeOfElements + (1 + KEY_SIZE + FIRST_CHUNK);
      }
      assert forall i :: 0 <= i < |elements| ==> elements[i] == if i < |was| then was[i] else Field(key, initValue);
      return ADD_OK;
    }
  }
}
