/** The records a ZGDB file is made of, with the struct sizes of x86-64 GNU/Linux. */
module Blocks {
  type byte = n: nat | n < 256

  /** A C string without its terminator. */
  type CString = seq<byte>

  const HEADER_SIZE: nat := 32   // zgdbHeader
  const INDEX_SIZE: nat := 9     // zgdbIndex, packed
  const DOC_HEADER: nat := 80    // documentHeader
  const TOAST_HEADER: nat := 32  // toast
  const CHUNK_SIZE: nat := 32    // text bytes in a chunk
  const SLOT: nat := 46          // chunk type byte + textChunk, packed
  const KEY_SIZE: nat := 13
  const FIRST_CHUNK: nat := 12   // firstTextChunk, packed

  const INDEX_INITIAL_CAPACITY: nat := 50000
  const INDEX_MULTIPLIER: nat := 4

  const ROOT_NAME: CString := [114, 111, 111, 116]

  datatype Flag = New | Alive | Dead | Invalid

  datatype IndexEntry = IndexEntry(flag: Flag, offset: nat)

  /** One slot of a toast. toastIndex names the toast the NEXT chunk lives in,
      nextOffset is that chunk's byte offset behind the toast header. */
  datatype Chunk = Chunk(data: seq<byte>, toastIndex: nat, nextOffset: nat)

  /** An element as it is stored inside a document; a text only stores where its chunks begin. */
  datatype Stored =
    | SInt(key: CString, intValue: int)
    | SDouble(key: CString, bits: nat)
    | SBool(key: CString, boolValue: byte)
    | SText(key: CString, size: nat, offsetInToast: nat)

  datatype Header = Header(size: nat, capacity: nat, indexAttached: nat, indexSon: nat, indexBrother: nat,
                           firstToastIndex: nat, attrCount: nat, name: CString)

  datatype Block =
    | Document(header: Header, elements: seq<Stored>)
    | Toast(capacity: nat, used: nat, indexAttached: nat, nextToastIndex: nat, slots: map<nat, Chunk>)

  function Capacity(b: Block): nat {
    match b
    case Document(h, _) => h.capacity
    case Toast(c, _, _, _, _) => c
  }

  function AttachedTo(b: Block): nat {
    match b
    case Document(h, _) => h.indexAttached
    case Toast(_, _, o, _, _) => o
  }

  /** The number of bytes expandIndexes copies when it moves a block. */
  function MovedBytes(b: Block): nat {
    match b
    case Document(h, _) => h.size
    case Toast(c, _, _, _, _) => c
  }

  /** What reads back of a block whose first 32 bytes were zeroed: a toast has lost its header, a document the fields
      that lie there. */
  function Torn(b: Block): Block {
    match b
    case Document(h, es) => Document(h.(size := 0, capacity := 0, indexAttached := 0, indexSon := 0), es)
    case Toast(_, _, _, _, slots) => Toast(0, 0, 0, 0, slots)
  }

  /** Of a document's header the fields from the 33rd byte on survive: links to brother and toast, the count of elements
      and the name; size, capacity, number and the link to the first son lie before. */
  lemma TornKeeps(b: Block)
    ensures b.Toast? ==> Torn(b) == Toast(0, 0, 0, 0, b.slots)
    ensures b.Document? ==>
              Torn(b) == Document(Header(0, 0, 0, 0, b.header.indexBrother, b.header.firstToastIndex,
                                         b.header.attrCount,
                                         b.header.name), b.elements)
  {
  }

  predicate IsRootDocumentHeader(h: Header) {
    h.name == ROOT_NAME && h.indexAttached == 0 && h.attrCount == 0 && h.indexBrother == 0
  }

  /** The attached blocks by index order: what every read through the index table sees. */
  type View = map<nat, Block>
}
