/**
 * The VM memory as this core sees it: words addressed by (page, index), written one
 * query at a time and read back as ranges of a page. Cells never written read as zero.
 */
module VmMemory {
  import opened Primitives
  import opened Codec

  datatype MemoryType = Stack | Heap | AuxHeap | FatPointer | Code

  datatype MemoryLocation = MemoryLocation(memoryType: MemoryType, page: MemoryPage, index: u32)

  /** A memory access; `rwFlag` is true for a write. */
  datatype MemoryQuery = MemoryQuery(
    timestamp: Timestamp,
    location: MemoryLocation,
    value: U256,
    valueIsPointer: bool,
    rwFlag: bool,
    isPended: bool)

  type Cells = map<(MemoryPage, nat), U256>

  function ReadWord(cells: Cells, page: MemoryPage, index: nat): U256
  {
    if (page, index) in cells then cells[(page, index)] else 0
  }

  /** The cells after a run of write queries, applied in order. */
  function ApplyWrites(cells: Cells, qs: seq<MemoryQuery>): Cells
  {
    if qs == [] then cells
    else
      var q := qs[|qs| - 1];
      ApplyWrites(cells, qs[..|qs| - 1])[(q.location.page, q.location.index) := q.value]
  }

  /** Byte `j` of a page, counting the page's words as one big-endian byte string. */
  function PageByte(cells: Cells, page: MemoryPage, j: nat): byte
  {
    IntoBeIter(ReadWord(cells, page, j / 32))[j % 32]
  }

  /** Bytes `[offset, offset + length)` of a page. */
  function PageBytes(cells: Cells, page: MemoryPage, offset: nat, length: nat): (r: seq<byte>)
    ensures |r| == length
    ensures forall k :: 0 <= k < length ==> r[k] == PageByte(cells, page, offset + k)
  {
    seq<byte>(length, (k: nat) => PageByte(cells, page, offset + k))
  }

  /** The interpreter's memory, reduced to the two capabilities this core uses. */
  class Memory {
    var cells: Cells
    /** Every query issued through `SpecializedCodeQuery`, oldest first. */
    ghost var issued: seq<MemoryQuery>

    constructor ()
      ensures cells == map[] && issued == []
    {
      cells := map[];
      issued := [];
    }

    /** `specialized_code_query`: performs one write into a code page. */
    method SpecializedCodeQuery(monotonicCycleCounter: u32, query: MemoryQuery)
      modifies this
      ensures cells == ApplyWrites(old(cells), [query])
      ensures issued == old(issued) + [query]
    {
      cells := cells[(query.location.page, query.location.index) := query.value];
      issued := issued + [query];
    }

    /** `dump_page_content_as_u256_words(page, from..to)`. */
    function DumpPageContentAsWords(page: MemoryPage, from: nat, to: nat): (r: seq<U256>)
      reads this
      requires from <= to
      ensures |r| == to - from
      ensures forall i :: 0 <= i < |r| ==> r[i] == ReadWord(cells, page, from + i)
    {
      seq<U256>(to - from, i requires 0 <= i < to - from reads this => ReadWord(cells, page, from + i))
    }
  }
}
