/**
 * Reading VM return data: page numbers derived from a frame's base page, and the
 * extraction of an arbitrary, possibly unaligned, byte window from a page of words.
 */
module PageDump {
  import opened Primitives
  import opened Codec
  import opened VmMemory

  // ---------------------------------------------------------------------------
  // Pages of a call frame

  /** `code_page_candidate_from_base`. */
  function CodePageCandidateFromBase(base: MemoryPage): (r: MemoryPage)
    ensures r == base
  {
    base
  }

  /** `stack_page_from_base`: `base + 1` on `u32`. */
  function StackPageFromBase(base: MemoryPage): (r: MemoryPage)
    ensures base + 1 < U32_MODULUS ==> r == base + 1
    ensures base + 1 == U32_MODULUS ==> r == 0
  {
    WrappingAdd(base, 1)
  }

  /** `heap_page_from_base`: `base + 2` on `u32`. */
  function HeapPageFromBase(base: MemoryPage): (r: MemoryPage)
    ensures base + 2 < U32_MODULUS ==> r == base + 2
    ensures base + 2 >= U32_MODULUS ==> r == base + 2 - U32_MODULUS
  {
    WrappingAdd(base, 2)
  }

  /** `aux_heap_page_from_base`: `base + 3` on `u32`. */
  function AuxHeapPageFromBase(base: MemoryPage): (r: MemoryPage)
    ensures base + 3 < U32_MODULUS ==> r == base + 3
    ensures base + 3 >= U32_MODULUS ==> r == base + 3 - U32_MODULUS
  {
    WrappingAdd(base, 3)
  }

  /** Away from the top of the page space, a base page owns four consecutive, distinct pages. */
  lemma {:induction false} FramePagesAreConsecutive(base: MemoryPage)
    requires base + 3 < U32_MODULUS
    ensures StackPageFromBase(base) == CodePageCandidateFromBase(base) + 1
    ensures HeapPageFromBase(base) == StackPageFromBase(base) + 1
    ensures AuxHeapPageFromBase(base) == HeapPageFromBase(base) + 1
  {
  }

  // ---------------------------------------------------------------------------
  // Byte extraction

  /** Offsets and lengths must stay below 2^24. */
  const DUMP_BOUND: nat := 0x100_0000

  function Min(a: int, b: int): int { if a <= b then a else b }

  /**
   * The words overlapping `[offset, offset + length)`: from the word holding `offset`
   * up to, not including, the first word past the end (ceiling division).
   */
  function WordRange(offset: nat, length: nat): (r: (nat, nat))
    ensures r.0 * 32 <= offset < r.0 * 32 + 32
    ensures offset + length <= r.1 * 32 < offset + length + 32
    ensures offset == 32 * r.0 + offset % 32
    ensures r.0 <= r.1 && offset % 32 + length <= 32 * (r.1 - r.0)
  {
    var firstWord := offset / 32;
    var endByte := offset + length;
    var lastWord := if endByte % 32 != 0 then endByte / 32 + 1 else endByte / 32;
    (firstWord, lastWord)
  }

  /** What the extractor returns for a window: a bound failure, or exactly the window's bytes. */
  function DumpResult(cells: Cells, page: MemoryPage, offset: nat, length: nat): (r: Result<seq<byte>>)
    ensures offset >= DUMP_BOUND ==> r == Err(OffsetTooLarge)
    ensures offset < DUMP_BOUND && length >= DUMP_BOUND ==> r == Err(LengthTooLarge)
    ensures r.Ok? ==> |r.value| == length
  {
    if offset >= DUMP_BOUND then Err(OffsetTooLarge)
    else if length >= DUMP_BOUND then Err(LengthTooLarge)
    else Ok(PageBytes(cells, page, offset, length))
  }

  lemma {:induction false} DivModWord(q: nat, j: nat)
    requires j < 32
    ensures (32 * q + j) / 32 == q
    ensures (32 * q + j) % 32 == j
  {
  }

  /**
   * One word's iteration of the extractor: pushes bytes `skip` to 31 of `it`, each
   * only while bytes are still wanted.
   */
  method PushWordBytes(dump: seq<byte>, it: seq<byte>, skip: nat, remaining: nat)
    returns (dump': seq<byte>, remaining': nat)
    requires |it| == 32 && skip <= 32
    ensures var taken := Min(32 - skip, remaining);
            dump' == dump + it[skip..skip + taken] && remaining' == remaining - taken
  {
    dump', remaining' := dump, remaining;
    var j := skip;
    while j < 32
      invariant skip <= j <= 32
      invariant remaining' == remaining - Min(j - skip, remaining)
      invariant dump' == dump + it[skip..skip + Min(j - skip, remaining)]
    {
      var next := it[j];
      if remaining' > 0 {
        assert it[skip..j + 1] == it[skip..j] + [next];
        dump' := dump' + [next];
        remaining' := remaining' - 1;
      }
      j := j + 1;
    }
  }

  /**
   * One iteration of the extractor's outer loop, on the bytes of the words read: the
   * bytes taken from word `w` extend the window read so far by the next bytes of the
   * window, and the total becomes the window's length up to the end of word `w`.
   */
  lemma {:induction false} DumpStep(ws: seq<U256>, u: nat, length: nat, w: nat, prefix: seq<byte>, skip: nat)
    requires w < |ws| && u < 32 && u + length <= 32 * |ws|
    requires skip == if w == 0 then u else 0
    requires |prefix| == if w == 0 then 0 else Min(32 * w - u, length)
    requires prefix == WordsToBeBytes(ws)[u..u + |prefix|]
    ensures var taken := Min(32 - skip, length - |prefix|);
            && |prefix| + taken == Min(32 * (w + 1) - u, length)
            && prefix + IntoBeIter(ws[w])[skip..skip + taken] == WordsToBeBytes(ws)[u..u + |prefix| + taken]
  {
    var bytes := WordsToBeBytes(ws);
    var taken := Min(32 - skip, length - |prefix|);
    if taken > 0 {
      assert u + |prefix| == 32 * w + skip;
      WordsToBeBytesSlice(ws, w, skip, taken);
    }
    assert bytes[u..u + |prefix| + taken] == bytes[u..u + |prefix|] + bytes[u + |prefix|..u + |prefix| + taken];
  }

  /** The window the extractor has read from the page's words is the page's window. */
  lemma {:induction false} DumpedWindow(cells: Cells, page: MemoryPage, first: nat, ws: seq<U256>, u: nat, offset: nat, length: nat)
    requires forall i :: 0 <= i < |ws| ==> ws[i] == ReadWord(cells, page, first + i)
    requires offset == 32 * first + u && u + length <= 32 * |ws|
    ensures WordsToBeBytes(ws)[u..u + length] == PageBytes(cells, page, offset, length)
  {
    assert ws == PageWords(cells, page, first, |ws|);
    PageBytesInWords(cells, page, first, |ws|, u, offset, length);
  }

  /**
   * The loop over the words read: the bytes of `pagePart` from byte `unalignment` on,
   * `length` of them, pushed word by word.
   */
  method DumpWords(pagePart: seq<U256>, unalignment: nat, length: nat) returns (dump: seq<byte>)
    requires unalignment < 32 && unalignment + length <= 32 * |pagePart|
    ensures dump == WordsToBeBytes(pagePart)[unalignment..unalignment + length]
  {
    dump := [];
    var isFirst := true;
    var remaining := length;
    var w := 0;
    while w < |pagePart|
      invariant 0 <= w <= |pagePart|
      invariant isFirst <==> w == 0
      invariant |dump| == if w == 0 then 0 else Min(32 * w - unalignment, length)
      invariant remaining == length - |dump|
      invariant dump == WordsToBeBytes(pagePart)[unalignment..unalignment + |dump|]
    {
      var it := IntoBeIter(pagePart[w]);
      var skip := if isFirst then unalignment else 0;
      isFirst := false;
      DumpStep(pagePart, unalignment, length, w, dump, skip);
      ghost var count := |dump| + Min(32 - skip, remaining);
      dump, remaining := PushWordBytes(dump, it, skip, remaining);
      assert |dump| == count == Min(32 * (w + 1) - unalignment, length);
      w := w + 1;
    }
    assert |dump| == length;
  }

  /** `dump_memory_page_by_offset_and_length`. */
  method DumpMemoryPageByOffsetAndLength(memory: Memory, page: MemoryPage, offset: nat, length: nat)
    returns (r: Result<seq<byte>>)
    ensures r == DumpResult(memory.cells, page, offset, length)
  {
    if offset >= DUMP_BOUND {
      return Err(OffsetTooLarge);
    }
    if length >= DUMP_BOUND {
      return Err(LengthTooLarge);
    }
    if length == 0 {
      return Ok([]);
    }

    var range := WordRange(offset, length);
    var firstWord, lastWord := range.0, range.1;
    var unalignment := offset % 32;

    var pagePart := memory.DumpPageContentAsWords(page, firstWord, lastWord);
    var dump := DumpWords(pagePart, unalignment, length);

    DumpedWindow(memory.cells, page, firstWord, pagePart, unalignment, offset, length);
    return Ok(dump);
  }

  // ---------------------------------------------------------------------------
  // Fat pointers

  /** A fat pointer: a byte window `[start, start + length)` of a page, of which the first `offset` bytes are consumed. */
  datatype FatPointer = FatPointer(offset: u32, memoryPage: MemoryPage, start: u32, length: u32)

  /** A register value; only values tagged as pointers address memory. */
  datatype PrimitiveValue = PrimitiveValue(value: U256, isPointer: bool)

  /** `dump_memory_page_using_fat_pointer`: the unconsumed part of the pointer's window, in `u32` arithmetic. */
  method DumpMemoryPageUsingFatPointer(memory: Memory, fatPtr: FatPointer) returns (r: Result<seq<byte>>)
    ensures r == DumpResult(memory.cells, fatPtr.memoryPage,
                            WrappingAdd(fatPtr.start, fatPtr.offset), WrappingSub(fatPtr.length, fatPtr.offset))
  {
    r := DumpMemoryPageByOffsetAndLength(memory, fatPtr.memoryPage,
                                         WrappingAdd(fatPtr.start, fatPtr.offset),
                                         WrappingSub(fatPtr.length, fatPtr.offset));
  }

  /**
   * `dump_memory_page_using_primitive_value`: empty unless the value is a pointer;
   * `fromU256` stands for `FatPointer::from_u256`.
   */
  method DumpMemoryPageUsingPrimitiveValue(memory: Memory, ptr: PrimitiveValue, fromU256: U256 -> FatPointer)
    returns (r: Result<seq<byte>>)
    ensures !ptr.isPointer ==> r == Ok([])
    ensures ptr.isPointer ==>
              var fatPtr := fromU256(ptr.value);
              r == DumpResult(memory.cells, fatPtr.memoryPage,
                              WrappingAdd(fatPtr.start, fatPtr.offset), WrappingSub(fatPtr.length, fatPtr.offset))
  {
    if !ptr.isPointer {
      return Ok([]);
    }
    var fatPtr := fromU256(ptr.value);
    r := DumpMemoryPageUsingFatPointer(memory, fatPtr);
  }

  // ---------------------------------------------------------------------------
  // Round trip

  /** Words `first` to `first + n - 1` of a page. */
  function PageWords(cells: Cells, page: MemoryPage, first: nat, n: nat): (r: seq<U256>)
    ensures |r| == n
    ensures forall i :: 0 <= i < n ==> r[i] == ReadWord(cells, page, first + i)
  {
    seq<U256>(n, i requires 0 <= i < n => ReadWord(cells, page, first + i))
  }

  lemma {:induction false} PageByteInWords(cells: Cells, page: MemoryPage, first: nat, n: nat, q: nat, r: nat, j: nat, i: nat)
    requires q < n && r < 32 && j == 32 * (first + q) + r && i == 32 * q + r
    ensures PageByte(cells, page, j) == WordsToBeBytes(PageWords(cells, page, first, n))[i]
  {
    WordsToBeBytesAt(PageWords(cells, page, first, n), q, r);
    DivModWord(first + q, r);
  }

  /**
   * Any window inside words `first` to `first + n - 1` of a page is that window of
   * their big-endian bytes.
   */
  lemma {:induction false} PageBytesInWords(cells: Cells, page: MemoryPage, first: nat, n: nat, skip: nat, offset: nat, length: nat)
    requires offset == 32 * first + skip && skip + length <= 32 * n
    ensures PageBytes(cells, page, offset, length)
            == WordsToBeBytes(PageWords(cells, page, first, n))[skip..skip + length]
  {
    var bytes := WordsToBeBytes(PageWords(cells, page, first, n));
    var window := PageBytes(cells, page, offset, length);
    forall k | 0 <= k < length
      ensures window[k] == bytes[skip + k]
    {
      PageBytesAtInWords(cells, page, first, n, skip, offset, length, k);
    }
    SliceByIndex(window, bytes, skip);
  }

  /** Byte `k` of a window inside words `first` to `first + n - 1` of a page is the matching byte of their big-endian bytes. */
  lemma {:induction false} PageBytesAtInWords(cells: Cells, page: MemoryPage, first: nat, n: nat, skip: nat, offset: nat,
                                              length: nat, k: nat)
    requires offset == 32 * first + skip && skip + length <= 32 * n && k < length
    ensures PageBytes(cells, page, offset, length)[k] == WordsToBeBytes(PageWords(cells, page, first, n))[skip + k]
  {
    var i := skip + k;
    var q, r := i / 32, i % 32;
    assert i == 32 * q + r;
    PageByteInWords(cells, page, first, n, q, r, offset + k, i);
  }

  /** Bytes `skip` to `skip + t - 1` of word `w` of a run of words. */
  lemma {:induction false} WordsToBeBytesSlice(ws: seq<U256>, w: nat, skip: nat, t: nat)
    requires w < |ws| && skip + t <= 32
    ensures WordsToBeBytes(ws)[32 * w + skip..32 * w + skip + t] == IntoBeIter(ws[w])[skip..skip + t]
  {
    var bytes := WordsToBeBytes(ws);
    var window := IntoBeIter(ws[w])[skip..skip + t];
    forall k | 0 <= k < t
      ensures window[k] == bytes[32 * w + skip + k]
    {
      WordsToBeBytesAt(ws, w, skip + k);
      assert 32 * w + skip + k == 32 * w + (skip + k);
    }
    SliceByIndex(window, bytes, 32 * w + skip);
  }

  /** A page whose first words are `ws` yields, for any window inside them, that window of their big-endian bytes. */
  lemma {:induction false} PageBytesOfStoredWords(cells: Cells, page: MemoryPage, ws: seq<U256>, offset: nat, length: nat)
    requires forall i :: 0 <= i < |ws| ==> ReadWord(cells, page, i) == ws[i]
    requires offset + length <= 32 * |ws|
    ensures PageBytes(cells, page, offset, length) == WordsToBeBytes(ws)[offset..offset + length]
  {
    PageBytesInWords(cells, page, 0, |ws|, offset, offset, length);
    assert PageWords(cells, page, 0, |ws|) == ws;
  }

  lemma {:induction false} SliceByIndex<T>(window: seq<T>, s: seq<T>, offset: nat)
    requires offset + |window| <= |s|
    requires forall k :: 0 <= k < |window| ==> window[k] == s[offset + k]
    ensures window == s[offset..offset + |window|]
  {
  }

  /**
   * Writing a bytecode's words at the start of a page and extracting any window of
   * it gives back exactly that slice of the bytecode.
   */
  lemma {:induction false} ExtractionRoundTrip(cells: Cells, page: MemoryPage, b: Bytecode, offset: nat, length: nat)
    requires forall i :: 0 <= i < |b| / 32 ==> ReadWord(cells, page, i) == BytesToBeWords(b)[i]
    requires offset + length <= |b|
    requires offset < DUMP_BOUND && length < DUMP_BOUND
    ensures DumpResult(cells, page, offset, length) == Ok(b[offset..offset + length])
  {
    PageBytesOfStoredWords(cells, page, BytesToBeWords(b), offset, length);
  }
}
