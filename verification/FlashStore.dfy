/** The two-page block store (`drv_flash.c`) on its memory-backed device.

    A page is a header block followed by data blocks that are filled one after the other.
    When the page is full the next block opens the other page and the full page is erased. */
module FlashStore {
  import Arithmetic

  newtype byte = x: int | 0 <= x < 0x100

  const PAGE_ERASED: nat := 0
  const PAGE_VALID: nat := 0x5A5A_5A5A
  const BLOCK_VALID: nat := 0xA5A5_A5A5
  const MAX_BLOCK_SIZE: nat := 1024
  const BLOCK_HEAD_SIZE: nat := 8
  const BLOCK_CRC_SIZE: nat := 2
  const PAGE_HEADER_SIZE: nat := 24
  const MAX_DATA: nat := MAX_BLOCK_SIZE + 4 - BLOCK_HEAD_SIZE  // fits into the block buffer behind the head

  // ------------------------------------------------------------------- bytes

  /** A little-endian 32-bit word. */
  function Word(m: seq<byte>, a: nat): nat
    requires a + 4 <= |m|
  {
    m[a] as nat + 0x100 * m[a + 1] as nat + 0x1_0000 * m[a + 2] as nat + 0x100_0000 * m[a + 3] as nat
  }

  function WordBytes(w: nat): (r: seq<byte>)
    ensures |r| == 4
  {
    [(w % 0x100) as byte, (w / 0x100 % 0x100) as byte, (w / 0x1_0000 % 0x100) as byte, (w / 0x100_0000 % 0x100) as byte]
  }

  lemma WordRoundTrip(w: nat)
    requires w < 0x1_0000_0000
    ensures Word(WordBytes(w), 0) == w
  {
    var a := w / 0x100;
    var b := a / 0x100;
    assert w / 0x1_0000 == b && w / 0x100_0000 == b / 0x100;
  }

  function Zeros(n: nat): (r: seq<byte>)
    ensures |r| == n && forall i :: 0 <= i < n ==> r[i] == 0
  {
    seq(n, _ => 0)
  }

  function Slice(m: seq<byte>, a: nat, n: nat): (r: seq<byte>)
    requires a + n <= |m|
    ensures |r| == n && forall i :: 0 <= i < n ==> r[i] == m[a + i]
  {
    m[a..a + n]
  }

  /** `m` with the bytes from `a` on replaced by `bs`. */
  function Patch(m: seq<byte>, a: nat, bs: seq<byte>): (r: seq<byte>)
    requires a + |bs| <= |m|
    ensures |r| == |m|
    ensures forall i :: 0 <= i < |m| ==> r[i] == if a <= i < a + |bs| then bs[i - a] else m[i]
  {
    m[..a] + bs + m[a + |bs|..]
  }

  // --------------------------------------------------------------------- CRC

  type uint16 = x: int | 0 <= x < 0x1_0000

  function Xor(a: nat, b: nat): nat {
    if a == 0 && b == 0 then 0 else 2 * Xor(a / 2, b / 2) + (if a % 2 == b % 2 then 0 else 1)
  }

  /** `n` rounds of the inner loop; each result is cut to 16 bits. */
  function CrcShifts(crc: uint16, n: nat): uint16
    decreases n
  {
    if n == 0 then crc
    else CrcShifts((if crc / 0x80 % 2 == 1 then Xor(2 * crc, 0xA001) else 2 * crc) % 0x1_0000, n - 1)
  }

  function Crc16(s: seq<byte>): uint16 {
    if s == [] then 0xFFFF else CrcShifts(Xor(Crc16(s[..|s| - 1]), s[|s| - 1] as nat) % 0x1_0000, 8)
  }

  /** flash_calc_crc16 */
  method CalcCrc16(bytes: array<byte>, len: nat) returns (crc: uint16)
    requires len <= bytes.Length
    ensures crc == Crc16(bytes[..len])
  {
    hide Xor;
    crc := 0xFFFF;
    var k := 0;
    while k < len
      invariant k <= len && crc == Crc16(bytes[..k])
    {
      crc := CrcOfByte(crc, bytes[k]);
      assert bytes[..k + 1][..k] == bytes[..k];
      k := k + 1;
    }
  }

  method CrcOfByte(before: uint16, b: byte) returns (crc: uint16)
    ensures crc == CrcShifts(Xor(before, b as nat) % 0x1_0000, 8)
  {
    hide Xor;
    crc := Xor(before, b as nat) % 0x1_0000;
    var i := 0;
    while i < 8
      invariant i <= 8 && CrcShifts(crc, 8 - i) == CrcShifts(Xor(before, b as nat) % 0x1_0000, 8)
    {
      crc := (if crc / 0x80 % 2 == 1 then Xor(2 * crc, 0xA001) else 2 * crc) % 0x1_0000;
      i := i + 1;
    }
  }

  /** The two bytes at the end of a block, the high byte first. */
  function CrcBytes(crc: uint16): (r: seq<byte>)
    ensures |r| == 2
  {
    [(crc / 0x100) as byte, (crc % 0x100) as byte]
  }

  function CrcOf(high: byte, low: byte): nat {
    0x100 * high as nat + low as nat
  }

  // ---------------------------------------------------------------- geometry

  /** What flash_driver_init leaves in FlashInfo_t. */
  datatype Geometry = Geometry(page0: nat, page1: nat, pageSize: nat, blockSize: nat) {
    function BlockNum(): int
      requires blockSize > 0
    {
      pageSize / blockSize - 1
    }

    /** flash_find_block keeps the number in 16 bits. */
    function BlocksSearched(): nat
      requires blockSize > 0
    {
      BlockNum() % 0x1_0000
    }

    /** The blocks of a page that are written: those that are searched, or the first if none is. */
    function Slots(): (n: nat)
      requires blockSize > 0
      ensures n >= 1 && n == if BlocksSearched() > 0 then BlocksSearched() else 1
    {
      if BlocksSearched() > 0 then BlocksSearched() else 1
    }

    /** Block `i` of a page; the first is behind the header block. */
    function BlockAddr(page: nat, i: nat): nat {
      page + (i + 1) * blockSize
    }

    /** The device is programmed and read in words: so many bytes of a block. */
    function WholeWords(): nat { 4 * (blockSize / 4) }

    /** What a caller owes: pages that are apart and in the memory, and room for a data block. */
    predicate Usable(memory: nat) {
      && BLOCK_HEAD_SIZE + BLOCK_CRC_SIZE <= blockSize <= MAX_BLOCK_SIZE
      && page0 + pageSize <= memory && page1 + pageSize <= memory
      && (page0 + pageSize <= page1 || page1 + pageSize <= page0)
      && 2 * blockSize <= pageSize
    }

    predicate IsPage(page: nat) { page == page0 || page == page1 }

    function Other(page: nat): nat { if page == page0 then page1 else page0 }

    /** The blocks that are searched lie in the page, behind the header and one after the other. */
    lemma BlocksInPage(page: nat, i: nat)
      requires blockSize > 0 && i < Slots()
      requires 2 * blockSize <= pageSize
      ensures page + blockSize <= BlockAddr(page, i) && BlockAddr(page, i) + blockSize <= page + pageSize
    {
      Arithmetic.QuotientAbove(pageSize, blockSize, 2);
      Arithmetic.MultipleBelow(pageSize, blockSize, i + 2);
      assert (i + 2) * blockSize == blockSize + (i + 1) * blockSize;
      Arithmetic.LargerProduct(i + 1, blockSize);
    }

    lemma BlocksApart(page: nat, i: nat, j: nat)
      requires i < j
      ensures BlockAddr(page, i) + blockSize <= BlockAddr(page, j)
    {
      assert (j + 1) * blockSize == (i + 1) * blockSize + (j - i) * blockSize;
      Arithmetic.LargerProduct(j - i, blockSize);
    }
  }

  // -------------------------------------------------------- what a page holds

  function Payload(g: Geometry): int { g.blockSize - BLOCK_HEAD_SIZE - BLOCK_CRC_SIZE }

  /** The data region of a block: what was written, and zeros; what does not fit is cut off. */
  function Padded(g: Geometry, data: seq<byte>): (r: seq<byte>)
    requires 0 <= Payload(g)
    ensures |r| == Payload(g)
    ensures forall i :: 0 <= i < |r| ==> r[i] == if i < |data| then data[i] else 0
  {
    if |data| <= Payload(g) then data + Zeros(Payload(g) - |data|) else data[..Payload(g)]
  }

  function BlockBody(g: Geometry, region: seq<byte>): (r: seq<byte>)
    requires |region| == Payload(g)
    ensures |r| == g.blockSize - BLOCK_CRC_SIZE
  {
    WordBytes(BLOCK_VALID) + WordBytes(|region|) + region
  }

  function BlockBytes(g: Geometry, region: seq<byte>): (r: seq<byte>)
    requires |region| == Payload(g)
    ensures |r| == g.blockSize
  {
    BlockBody(g, region) + CrcBytes(Crc16(BlockBody(g, region)))
  }

  /** What is in the memory after the block was programmed over erased bytes. */
  function StoredBytes(g: Geometry, region: seq<byte>): (r: seq<byte>)
    requires |region| == Payload(g)
    ensures |r| == g.blockSize
  {
    BlockBytes(g, region)[..g.WholeWords()] + Zeros(g.blockSize - g.WholeWords())
  }

  /** The bytes behind the last whole word are 0, as an erased page has them anyway. */
  predicate Programs(g: Geometry, region: seq<byte>)
    requires |region| == Payload(g)
  {
    forall i :: g.WholeWords() <= i < g.blockSize ==> BlockBytes(g, region)[i] == 0
  }

  lemma ProgramsTheBlock(g: Geometry, region: seq<byte>)
    requires |region| == Payload(g)
    ensures StoredBytes(g, region) == BlockBytes(g, region) <==> Programs(g, region)
  {
    hide BlockBytes;
    var stored, whole := StoredBytes(g, region), g.WholeWords();
    if Programs(g, region) {
      assert forall i :: 0 <= i < g.blockSize ==> stored[i] == BlockBytes(g, region)[i];
    } else {
      assert forall i :: whole <= i < g.blockSize ==> stored[i] == 0;
    }
  }

  ghost predicate Erased(m: seq<byte>, g: Geometry, page: nat) {
    page + g.pageSize <= |m| && forall i :: page <= i < page + g.pageSize ==> m[i] == 0
  }

  /** The page is marked valid and its blocks are `log`, oldest first, and then erased ones. */
  ghost predicate HoldsLog(m: seq<byte>, g: Geometry, page: nat, log: seq<seq<byte>>)
    requires g.Usable(|m|) && g.IsPage(page)
  {
    && Word(m, page) == PAGE_VALID
    && |log| <= g.Slots()
    && (forall i :: 0 <= i < |log| ==> HoldsBlock(m, g, page, i, log[i]))
    && (forall i :: |log| <= i < g.Slots() ==> BlockErased(m, g, page, i))
  }

  ghost predicate HoldsBlock(m: seq<byte>, g: Geometry, page: nat, i: nat, region: seq<byte>) {
    && |region| == Payload(g)
    && g.BlockAddr(page, i) + g.blockSize <= |m|
    && Slice(m, g.BlockAddr(page, i), g.blockSize) == StoredBytes(g, region)
  }

  ghost predicate BlockErased(m: seq<byte>, g: Geometry, page: nat, i: nat) {
    && g.BlockAddr(page, i) + g.blockSize <= |m|
    && Slice(m, g.BlockAddr(page, i), g.blockSize) == Zeros(g.blockSize)
  }

  /** The store as its user sees it between calls. */
  datatype Contents =
    | Empty
    | Holding(page: nat, log: seq<seq<byte>>)
    | Torn     // both pages are marked: a write failed or was cut off while it changed pages
    | Unknown  // any memory

  ghost predicate Represents(m: seq<byte>, g: Geometry, c: Contents) {
    && g.Usable(|m|)
    && match c
       case Empty => Erased(m, g, g.page0) && Erased(m, g, g.page1)
       case Holding(page, log) =>
         && g.IsPage(page) && log != [] && HoldsLog(m, g, page, log) && Erased(m, g, g.Other(page))
       case Torn => Word(m, g.page0) == PAGE_VALID && Word(m, g.page1) == PAGE_VALID
       case Unknown => true
  }

  // ------------------------------------------------------- changes to a page

  predicate Agree(m: seq<byte>, n: seq<byte>, a: nat, len: nat) {
    |m| == |n| && a + len <= |m| && forall i :: a <= i < a + len ==> m[i] == n[i]
  }

  lemma AgreeingWords(m: seq<byte>, n: seq<byte>, a: nat, len: nat, b: nat)
    requires Agree(m, n, a, len) && a <= b && b + 4 <= a + len
    ensures Word(n, b) == Word(m, b)
  {
  }

  lemma AgreeingSlices(m: seq<byte>, n: seq<byte>, a: nat, len: nat, b: nat, k: nat)
    requires Agree(m, n, a, len) && a <= b && b + k <= a + len
    ensures Slice(n, b, k) == Slice(m, b, k)
  {
  }

  lemma AgreeingBlocks(m: seq<byte>, n: seq<byte>, g: Geometry, page: nat, i: nat)
    requires Agree(m, n, g.BlockAddr(page, i), g.blockSize)
    ensures BlockErased(n, g, page, i) == BlockErased(m, g, page, i)
    ensures forall region :: HoldsBlock(n, g, page, i, region) == HoldsBlock(m, g, page, i, region)
  {
    hide Slice, Agree, StoredBytes, Zeros, Geometry.BlockAddr;
    AgreeingSlices(m, n, g.BlockAddr(page, i), g.blockSize, g.BlockAddr(page, i), g.blockSize);
    AgreeingLengths(m, n, g.BlockAddr(page, i), g.blockSize);
  }

  lemma AgreeingLengths(m: seq<byte>, n: seq<byte>, a: nat, len: nat)
    requires Agree(m, n, a, len)
    ensures |m| == |n| && a + len <= |m|
  {
  }

  lemma AgreeingPart(m: seq<byte>, n: seq<byte>, a: nat, len: nat, b: nat, k: nat)
    requires Agree(m, n, a, len) && a <= b && b + k <= a + len
    ensures Agree(m, n, b, k)
  {
  }

  lemma PatchAgrees(m: seq<byte>, a: nat, bs: seq<byte>, b: nat, len: nat)
    requires a + |bs| <= |m| && b + len <= |m| && (b + len <= a || a + |bs| <= b)
    ensures Agree(m, Patch(m, a, bs), b, len)
  {
  }

  /** What happens elsewhere leaves a page as it is. */
  lemma AgreeingPages(m: seq<byte>, n: seq<byte>, g: Geometry, page: nat, log: seq<seq<byte>>)
    requires g.Usable(|m|) && g.IsPage(page) && Agree(m, n, page, g.pageSize)
    ensures HoldsLog(m, g, page, log) ==> HoldsLog(n, g, page, log)
    ensures Erased(m, g, page) ==> Erased(n, g, page)
  {
    hide Word, HoldsBlock, BlockErased, Geometry.Slots, Geometry.BlockAddr, Geometry.Usable;
    assert 4 <= g.blockSize && 2 * g.blockSize <= g.pageSize by { UsableSizes(g, |m|); }
    AgreeingWords(m, n, page, g.pageSize, page);
    forall i: nat, region | i < g.Slots()
      ensures HoldsBlock(n, g, page, i, region) == HoldsBlock(m, g, page, i, region)
    {
      g.BlocksInPage(page, i);
      AgreeingPart(m, n, page, g.pageSize, g.BlockAddr(page, i), g.blockSize);
      AgreeingBlocks(m, n, g, page, i);
    }
    forall i: nat | i < g.Slots()
      ensures BlockErased(n, g, page, i) == BlockErased(m, g, page, i)
    {
      g.BlocksInPage(page, i);
      AgreeingPart(m, n, page, g.pageSize, g.BlockAddr(page, i), g.blockSize);
      AgreeingBlocks(m, n, g, page, i);
    }
  }

  lemma UsableSizes(g: Geometry, memory: nat)
    requires g.Usable(memory)
    ensures BLOCK_HEAD_SIZE + BLOCK_CRC_SIZE <= g.blockSize <= MAX_BLOCK_SIZE && 2 * g.blockSize <= g.pageSize
    ensures g.page0 + g.pageSize <= memory && g.page1 + g.pageSize <= memory
    ensures 8 <= g.WholeWords() <= g.blockSize < g.WholeWords() + 4
  {
  }

  lemma PagesApart(g: Geometry, memory: nat, page: nat)
    requires g.Usable(memory) && g.IsPage(page)
    ensures g.IsPage(g.Other(page)) && g.Other(g.Other(page)) == page
    ensures page + g.pageSize <= memory && g.Other(page) + g.pageSize <= memory
    ensures page + g.pageSize <= g.Other(page) || g.Other(page) + g.pageSize <= page
  {
  }

  lemma PatchedBlock(m: seq<byte>, g: Geometry, page: nat, i: nat, region: seq<byte>)
    requires |region| == Payload(g) && BlockErased(m, g, page, i)
    ensures HoldsBlock(Patch(m, g.BlockAddr(page, i), BlockBytes(g, region)[..g.WholeWords()]), g, page, i, region)
  {
    hide BlockBytes, Geometry.BlockAddr;
    var a, bytes := g.BlockAddr(page, i), BlockBytes(g, region)[..g.WholeWords()];
    var s := Slice(Patch(m, a, bytes), a, g.blockSize);
    forall k | 0 <= k < g.blockSize
      ensures s[k] == StoredBytes(g, region)[k]
    {
      assert m[a + k] == Slice(m, a, g.blockSize)[k] == 0;
    }
  }

  /** Programming the next block appends to the log and leaves the rest alone. */
  lemma AppendToLog(m: seq<byte>, g: Geometry, page: nat, log: seq<seq<byte>>, region: seq<byte>)
    requires g.Usable(|m|) && g.IsPage(page) && HoldsLog(m, g, page, log) && |log| < g.Slots()
    requires |region| == Payload(g) && g.BlockAddr(page, |log|) + g.blockSize <= |m|
    ensures var n := Patch(m, g.BlockAddr(page, |log|), BlockBytes(g, region)[..g.WholeWords()]);
            HoldsLog(n, g, page, log + [region]) && Agree(m, n, g.Other(page), g.pageSize)
  {
    hide Word, HoldsBlock, BlockErased, Geometry.Slots, Geometry.BlockAddr, Geometry.Usable, BlockBytes, Patch,
      Agree, Geometry.Other, Geometry.WholeWords;
    UsableSizes(g, |m|);
    PagesApart(g, |m|, page);
    var a, bytes := g.BlockAddr(page, |log|), BlockBytes(g, region)[..g.WholeWords()];
    var n := Patch(m, a, bytes);
    g.BlocksInPage(page, |log|);
    PatchAgrees(m, a, bytes, page, g.blockSize);
    AgreeingWords(m, n, page, g.blockSize, page);
    PatchAgrees(m, a, bytes, g.Other(page), g.pageSize);
    PatchedBlock(m, g, page, |log|, region);
    forall i: nat, r | i < |log|
      ensures HoldsBlock(n, g, page, i, r) == HoldsBlock(m, g, page, i, r)
    {
      g.BlocksInPage(page, i);
      g.BlocksApart(page, i, |log|);
      PatchAgrees(m, a, bytes, g.BlockAddr(page, i), g.blockSize);
      AgreeingBlocks(m, n, g, page, i);
    }
    forall i: nat | |log| < i < g.Slots()
      ensures BlockErased(n, g, page, i)
    {
      g.BlocksInPage(page, i);
      g.BlocksApart(page, |log|, i);
      PatchAgrees(m, a, bytes, g.BlockAddr(page, i), g.blockSize);
      AgreeingBlocks(m, n, g, page, i);
    }
  }

  /** Writing a header block to an erased page opens it with an empty log. */
  lemma OpenPage(m: seq<byte>, g: Geometry, page: nat, header: seq<byte>)
    requires g.Usable(|m|) && g.IsPage(page) && Erased(m, g, page)
    requires 4 <= |header| <= g.blockSize && Word(header, 0) == PAGE_VALID
    ensures page + g.blockSize <= |m|
    ensures var n := Patch(m, page, header);
            HoldsLog(n, g, page, []) && Agree(m, n, g.Other(page), g.pageSize)
  {
    hide Word, Geometry.Slots, Geometry.BlockAddr, Geometry.Usable, Patch, Agree, Geometry.Other;
    UsableSizes(g, |m|);
    PagesApart(g, |m|, page);
    var n := Patch(m, page, header);
    assert Word(n, page) == Word(header, 0) by { PatchedWord(m, page, header); }
    PatchAgrees(m, page, header, g.Other(page), g.pageSize);
    forall i: nat | i < g.Slots()
      ensures BlockErased(n, g, page, i)
    {
      g.BlocksInPage(page, i);
      PatchAgrees(m, page, header, g.BlockAddr(page, i), g.blockSize);
      AgreeingBlocks(m, n, g, page, i);
      ErasedBlock(m, g, page, i);
    }
  }

  lemma ErasedBlock(m: seq<byte>, g: Geometry, page: nat, i: nat)
    requires Erased(m, g, page)
    requires page <= g.BlockAddr(page, i) && g.BlockAddr(page, i) + g.blockSize <= page + g.pageSize
    ensures BlockErased(m, g, page, i)
  {
  }

  lemma PatchedWord(m: seq<byte>, a: nat, bs: seq<byte>)
    requires a + |bs| <= |m| && 4 <= |bs|
    ensures Word(Patch(m, a, bs), a) == Word(bs, 0)
  {
  }

  lemma ErasedWord(m: seq<byte>, g: Geometry, page: nat, a: nat)
    requires Erased(m, g, page) && page <= a && a + 4 <= page + g.pageSize
    ensures Word(m, a) == PAGE_ERASED
  {
  }

  lemma ErasePage(m: seq<byte>, g: Geometry, page: nat)
    requires g.Usable(|m|) && g.IsPage(page)
    ensures page + g.pageSize <= |m|
    ensures var n := Patch(m, page, Zeros(g.pageSize));
            Erased(n, g, page) && Agree(m, n, g.Other(page), g.pageSize)
  {
    PagesApart(g, |m|, page);
    PatchAgrees(m, page, Zeros(g.pageSize), g.Other(page), g.pageSize);
  }

  // ---------------------------------------------------- what the store stands for

  /** A block that is not programmed whole is still the last of its log, but a full page then
      stays as it is beside the new one. */
  function Written(g: Geometry, c: Contents, region: seq<byte>): (r: Contents)
    requires g.blockSize > 0 && |region| == Payload(g)
    ensures r.Unknown? <==> c.Unknown?
  {
    match c
    case Empty => Holding(g.page0, [region])
    case Torn => Holding(g.page0, [region])
    case Holding(page, log) =>
      if |log| < g.Slots() then Holding(page, log + [region])
      else if Programs(g, region) then Holding(g.Other(page), [region])
      else Torn
    case Unknown => Unknown
  }

  function ErasesFor(g: Geometry, c: Contents, region: seq<byte>): nat
    requires g.blockSize > 0 && |region| == Payload(g)
  {
    match c
    case Empty => 0
    case Torn => 2
    case Holding(page, log) => if |log| < g.Slots() || !Programs(g, region) then 0 else 1
    case Unknown => 0  // not said
  }

  predicate Regions(g: Geometry, regions: seq<seq<byte>>) {
    forall k :: 0 <= k < |regions| ==> |regions[k]| == Payload(g)
  }

  predicate AllProgram(g: Geometry, regions: seq<seq<byte>>) {
    forall k :: 0 <= k < |regions| ==> |regions[k]| == Payload(g) && Programs(g, regions[k])
  }

  function AfterWrites(g: Geometry, regions: seq<seq<byte>>): Contents
    requires g.blockSize > 0 && Regions(g, regions)
  {
    if regions == [] then Empty
    else Written(g, AfterWrites(g, regions[..|regions| - 1]), regions[|regions| - 1])
  }

  function ErasesAfter(g: Geometry, regions: seq<seq<byte>>): nat
    requires g.blockSize > 0 && Regions(g, regions)
  {
    if regions == [] then 0
    else
      var before := regions[..|regions| - 1];
      ErasesAfter(g, before) + ErasesFor(g, AfterWrites(g, before), regions[|regions| - 1])
  }

  /** The log holds the latest of the `n` regions, in the page that the full ones have led to. */
  ghost predicate HoldsLatest(g: Geometry, regions: seq<seq<byte>>, c: Contents)
    requires g.blockSize > 0
  {
    var n, b := |regions|, g.Slots();
    && c.Holding? && g.IsPage(c.page) && regions != []
    && |c.log| == (n - 1) % b + 1 <= n && c.log == regions[n - |c.log|..]
    && (c.page == g.page0 <==> (n - 1) / b % 2 == 0)
  }

  lemma OneMoreIsHeld(g: Geometry, before: seq<seq<byte>>, c: Contents, last: seq<byte>)
    requires g.blockSize > 0 && g.page0 != g.page1
    requires HoldsLatest(g, before, c) && |last| == Payload(g) && Programs(g, last)
    ensures HoldsLatest(g, before + [last], Written(g, c, last))
    ensures |before| / g.Slots() == (|before| - 1) / g.Slots() + ErasesFor(g, c, last)
  {
    hide Geometry.Slots, Programs;
    var n, b, regions := |before| + 1, g.Slots(), before + [last];
    Arithmetic.DivisionOfSuccessor(n - 2, b);
    if |c.log| < b {
      assert regions[n - 1 - |c.log|..] == before[n - 1 - |c.log|..] + [last];
    }
  }

  /** After any number of writes to an empty store the page holds the latest of them, the
      last one last, and a page was erased once for every full page before. */
  lemma {:induction false} LatestIsLast(g: Geometry, regions: seq<seq<byte>>)
    requires g.blockSize > 0 && g.page0 != g.page1 && regions != []
    requires AllProgram(g, regions)
    ensures HoldsLatest(g, regions, AfterWrites(g, regions))
    ensures ErasesAfter(g, regions) == (|regions| - 1) / g.Slots()
  {
    hide Geometry.Slots, Programs, Written, ErasesFor, HoldsLatest;
    var n, b := |regions|, g.Slots();
    var before, last := regions[..n - 1], regions[n - 1];
    assert regions == before + [last];
    if n == 1 {
      FirstIsHeld(g, last);
    } else {
      LatestIsLast(g, before);
      OneMoreIsHeld(g, before, AfterWrites(g, before), last);
    }
  }

  lemma FirstIsHeld(g: Geometry, region: seq<byte>)
    requires g.blockSize > 0 && |region| == Payload(g)
    ensures HoldsLatest(g, [region], AfterWrites(g, [region]))
    ensures ErasesAfter(g, [region]) == 0 && 0 / g.Slots() == 0
  {
    hide Geometry.Slots, Programs;
    assert [region][..0] == [];
    Arithmetic.DivisionIsUnique(0, g.Slots(), 0, 0);
  }

  /** Between calls exactly one page is marked once something was written, its valid blocks
      come before the erased ones, and the last of them is the latest write. */
  lemma OnePageIsMarked(m: seq<byte>, g: Geometry, c: Contents)
    requires Represents(m, g, c) && c.Holding?
    ensures g.page0 + 4 <= |m| && g.page1 + 4 <= |m|
    ensures (Word(m, g.page0) == PAGE_VALID) != (Word(m, g.page1) == PAGE_VALID)
    ensures Word(m, c.page) == PAGE_VALID
    ensures |c.log| <= g.Slots()
    ensures forall i :: 0 <= i < g.Slots() ==>
              g.BlockAddr(c.page, i) + 4 <= |m|
              && Word(m, g.BlockAddr(c.page, i)) == if i < |c.log| then BLOCK_VALID else PAGE_ERASED
  {
    hide Word, StoredBytes, Slice, Zeros, Geometry.Slots, Geometry.BlockAddr;
    UsableSizes(g, |m|);
    ErasedWord(m, g, g.Other(c.page), g.Other(c.page));
    forall i | 0 <= i < g.Slots()
      ensures g.BlockAddr(c.page, i) + 4 <= |m|
      ensures Word(m, g.BlockAddr(c.page, i)) == if i < |c.log| then BLOCK_VALID else PAGE_ERASED
    {
      if i < |c.log| {
        assert HoldsBlock(m, g, c.page, i, c.log[i]);
        BlockWord(m, g, g.BlockAddr(c.page, i), c.log[i]);
      } else {
        assert BlockErased(m, g, c.page, i);
        ErasedBlockWord(m, g, c.page, i);
      }
    }
  }

  lemma BlockWord(m: seq<byte>, g: Geometry, a: nat, region: seq<byte>)
    requires |region| == Payload(g) && a + g.blockSize <= |m| && g.blockSize <= MAX_BLOCK_SIZE
    requires Slice(m, a, g.blockSize) == StoredBytes(g, region)
    ensures Word(m, a) == BLOCK_VALID && Word(m, a + 4) == Payload(g)
  {
    hide Crc16, Word, WordBytes;
    var s := Slice(m, a, g.blockSize);
    assert Slice(m, a, 4) == s[..4] == WordBytes(BLOCK_VALID);
    assert Slice(m, a + 4, 4) == s[4..8] == WordBytes(|region|);
    WordOfBytes(m, a, BLOCK_VALID);
    WordOfBytes(m, a + 4, |region|);
  }

  lemma WordOfBytes(m: seq<byte>, a: nat, w: nat)
    requires a + 4 <= |m| && Slice(m, a, 4) == WordBytes(w) && w < 0x1_0000_0000
    ensures Word(m, a) == w
  {
    hide WordBytes;
    assert m[a] == Slice(m, a, 4)[0] && m[a + 1] == Slice(m, a, 4)[1];
    assert m[a + 2] == Slice(m, a, 4)[2] && m[a + 3] == Slice(m, a, 4)[3];
    WordRoundTrip(w);
  }

  lemma ErasedBlockWord(m: seq<byte>, g: Geometry, page: nat, i: nat)
    requires BlockErased(m, g, page, i) && 4 <= g.blockSize
    ensures Word(m, g.BlockAddr(page, i)) == PAGE_ERASED
  {
    var a := g.BlockAddr(page, i);
    assert forall k :: 0 <= k < 4 ==> m[a + k] == Slice(m, a, g.blockSize)[k];
  }

  // ------------------------------------------------------------ the header

  /** PageHeader_t; its CRC is taken while the CRC field is still 0, and is stored with the
      low byte first. */
  function HeaderFields(g: Geometry, page: nat): (r: seq<byte>)
    requires g.blockSize > 0 && g.blockSize <= g.pageSize
    ensures |r| == 20
  {
    WordBytes(PAGE_VALID) + WordBytes(page) + WordBytes(g.pageSize) + WordBytes(g.blockSize) +
      WordBytes(g.pageSize / g.blockSize - 1)
  }

  function HeaderBytes(g: Geometry, page: nat): (r: seq<byte>)
    requires g.blockSize > 0 && g.blockSize <= g.pageSize
    ensures |r| == PAGE_HEADER_SIZE
  {
    var crc := Crc16(HeaderFields(g, page) + Zeros(2));
    HeaderFields(g, page) + [(crc % 0x100) as byte, (crc / 0x100) as byte] + Zeros(2)
  }

  /** What is found in a header: the mark, where and how large the page is, how large its blocks are
      and how many, and a checksum over that with the checksum still 0. */
  ghost predicate IsHeader(h: seq<byte>, g: Geometry, page: nat)
    requires |h| == PAGE_HEADER_SIZE && g.blockSize > 0
  {
    && Word(h, 0) == PAGE_VALID && Word(h, 4) == page && Word(h, 8) == g.pageSize
    && Word(h, 12) == g.blockSize && Word(h, 16) == g.BlockNum()
    && h[20] as nat + 0x100 * h[21] as nat == Crc16(h[..20] + Zeros(2)) && h[22] == h[23] == 0
  }

  lemma HeaderReadsBack(g: Geometry, page: nat)
    requires 0 < g.blockSize <= g.pageSize < 0x1_0000_0000 && page < 0x1_0000_0000
    ensures IsHeader(HeaderBytes(g, page), g, page)
  {
    hide Word, WordBytes, Crc16;
    var h, n := HeaderBytes(g, page), g.pageSize / g.blockSize - 1;
    var fields := HeaderFields(g, page);
    assert h[..20] == fields;
    assert Slice(h, 0, 4) == WordBytes(PAGE_VALID);
    assert Slice(h, 4, 4) == WordBytes(page);
    assert Slice(h, 8, 4) == WordBytes(g.pageSize);
    assert Slice(h, 12, 4) == WordBytes(g.blockSize);
    assert Slice(h, 16, 4) == WordBytes(n);
    QuotientIsNoLarger(g.pageSize, g.blockSize);
    WordOfBytes(h, 0, PAGE_VALID);
    WordOfBytes(h, 4, page);
    WordOfBytes(h, 8, g.pageSize);
    WordOfBytes(h, 12, g.blockSize);
    WordOfBytes(h, 16, n);
  }

  lemma QuotientIsNoLarger(a: nat, b: nat)
    requires 0 < b <= a
    ensures 1 <= a / b <= a
  {
    Arithmetic.QuotientAbove(a, b, 1);
    Arithmetic.LargerProduct(b, a / b);
    Arithmetic.MultipleBelow(a, b, a / b);
  }

  // ------------------------------------------------------------ the driver

  datatype Search = Found | PageEmpty | PageMultiInvalid | BlockInvalid | WriteFull0 | WriteFull1

  datatype Action = ForWrite | ForRead

  datatype Status = Success | BlockErr | CrcErr | SizeErr | WriteDataErr

  /** The page that flash_find_block goes through, when exactly one is marked. */
  predicate IsMarkedPage(m: seq<byte>, g: Geometry, page: nat)
    requires g.Usable(|m|)
  {
    && g.IsPage(page)
    && (Word(m, page) == PAGE_VALID && Word(m, g.Other(page)) != PAGE_VALID)
  }

  predicate BlockMarked(m: seq<byte>, g: Geometry, page: nat, i: nat, mark: nat) {
    g.BlockAddr(page, i) + 4 <= |m| && Word(m, g.BlockAddr(page, i)) == mark
  }

  /** What flash_find_block promises of any memory. */
  ghost predicate FindResult(m: seq<byte>, g: Geometry, action: Action, page: nat, search: Search, i: nat)
    requires g.Usable(|m|)
  {
    match search
    case PageMultiInvalid => Word(m, g.page0) == PAGE_VALID && Word(m, g.page1) == PAGE_VALID
    case PageEmpty => Word(m, g.page0) != PAGE_VALID && Word(m, g.page1) != PAGE_VALID
    case Found =>
      && IsMarkedPage(m, g, page) && i < g.BlocksSearched()
      && (action.ForWrite? ==>
            && BlockMarked(m, g, page, i, PAGE_ERASED)
            && forall j :: 0 <= j < i ==> !BlockMarked(m, g, page, j, PAGE_ERASED))
      && (action.ForRead? ==>
            && BlockMarked(m, g, page, i, BLOCK_VALID)
            && forall j :: i < j < g.BlocksSearched() ==> !BlockMarked(m, g, page, j, BLOCK_VALID))
    case BlockInvalid =>
      && action.ForRead? && IsMarkedPage(m, g, page)
      && forall j :: 0 <= j < g.BlocksSearched() ==> !BlockMarked(m, g, page, j, BLOCK_VALID)
    case _ =>
      && action.ForWrite? && IsMarkedPage(m, g, page)
      && page == (if search.WriteFull0? then g.page0 else g.page1)
      && forall j :: 0 <= j < g.BlocksSearched() ==> !BlockMarked(m, g, page, j, PAGE_ERASED)
  }

  /** Exactly one page is marked, and this is the last of its blocks that is marked. */
  ghost predicate IsLastBlock(m: seq<byte>, g: Geometry, page: nat, i: nat)
    requires g.Usable(|m|)
  {
    && IsMarkedPage(m, g, page) && i < g.BlocksSearched() && BlockMarked(m, g, page, i, BLOCK_VALID)
    && forall j :: i < j < g.BlocksSearched() ==> !BlockMarked(m, g, page, j, BLOCK_VALID)
  }

  /** A search for reading finds the last block that is marked, if there is one. */
  lemma ReadSearchIsExact(m: seq<byte>, g: Geometry, page: nat, search: Search, i: nat)
    requires g.Usable(|m|) && FindResult(m, g, ForRead, page, search, i)
    ensures search == Found ==> IsLastBlock(m, g, page, i)
    ensures search != Found ==> forall p, k: nat :: !IsLastBlock(m, g, p, k)
  {
    hide Word, Geometry.BlocksSearched, Geometry.BlockAddr;
  }

  /** The page is erased, or else its mark says that it is not. */
  ghost predicate Honest(m: seq<byte>, g: Geometry, page: nat)
    requires g.Usable(|m|) && g.IsPage(page)
  {
    Erased(m, g, page) || Word(m, page) != PAGE_ERASED
  }

  /** Nothing of an unknown memory is left in the pages that a write opens and leaves behind. */
  ghost predicate StartsAfresh(m: seq<byte>, g: Geometry, search: Search)
    requires g.Usable(|m|)
  {
    && Honest(m, g, OpenedPage(g, search))
    && (search.WriteFull0? || search.WriteFull1? || Honest(m, g, g.page1))
  }

  /** A write finds no block, and starts afresh. */
  ghost predicate Recovers(m: seq<byte>, g: Geometry)
    requires g.Usable(|m|)
  {
    exists page, search, i :: SearchedAfresh(m, g, page, search, i)
  }

  ghost predicate SearchedAfresh(m: seq<byte>, g: Geometry, page: nat, search: Search, i: nat)
    requires g.Usable(|m|)
  {
    FindResult(m, g, ForWrite, page, search, i) && search != Found && StartsAfresh(m, g, search)
  }

  lemma RecoversWith(m: seq<byte>, g: Geometry, page: nat, search: Search, i: nat)
    requires g.Usable(|m|) && Recovers(m, g) && FindResult(m, g, ForWrite, page, search, i)
    ensures search != Found && StartsAfresh(m, g, search)
  {
    hide Word, Geometry.BlocksSearched, Geometry.BlockAddr, StartsAfresh, Geometry.Other;
    var p, s, k :| SearchedAfresh(m, g, p, s, k);
    OtherOfPages(g);
  }

  lemma OtherOfPages(g: Geometry)
    ensures g.Other(g.page0) == g.page1
    ensures g.page0 != g.page1 ==> g.Other(g.page1) == g.page0
  {
  }

  /** The page that a write opens when it has found no block. */
  function OpenedPage(g: Geometry, search: Search): nat {
    if search.WriteFull0? then g.page1 else g.page0
  }

  /** The first erased block of the one marked page; or, if there is none, the first block of the
      other page; or, if not exactly one page is marked, the first block of page 0. */
  ghost predicate IsWhereItGoes(m: seq<byte>, g: Geometry, address: nat)
    requires g.Usable(|m|)
  {
    exists page, search, i ::
      && FindResult(m, g, ForWrite, page, search, i)
      && address == if search.Found? then g.BlockAddr(page, i) else g.BlockAddr(OpenedPage(g, search), 0)
  }

  /** The block at `address` is all that a write of `data` wants it to be. */
  ghost predicate HoldsBytes(m: seq<byte>, g: Geometry, address: nat, data: seq<byte>)
    requires 0 <= Payload(g)
  {
    address + g.blockSize <= |m| && Slice(m, address, g.blockSize) == BlockBytes(g, Padded(g, data))
  }

  lemma AgreeingBytes(m: seq<byte>, n: seq<byte>, g: Geometry, page: nat, address: nat, data: seq<byte>)
    requires Agree(m, n, page, g.pageSize) && page <= address && address + g.blockSize <= page + g.pageSize
    requires 0 <= Payload(g)
    ensures HoldsBytes(m, g, address, data) == HoldsBytes(n, g, address, data)
  {
    hide BlockBytes, Padded;
    AgreeingSlices(m, n, page, g.pageSize, address, g.blockSize);
  }

  lemma SearchForWriting(m: seq<byte>, g: Geometry, page: nat, search: Search, i: nat)
    requires g.Usable(|m|) && FindResult(m, g, ForWrite, page, search, i)
    ensures search != BlockInvalid
    ensures search == Found ==> g.IsPage(page) && i < g.Slots()
  {
    hide Word, Geometry.BlocksSearched, Geometry.BlockAddr;
  }

  lemma WholeIsProgrammed(m: seq<byte>, g: Geometry, address: nat, region: seq<byte>)
    requires |region| == Payload(g) && address + g.blockSize <= |m| && g.WholeWords() <= g.blockSize
    ensures g.blockSize % 4 == 0 ==>
              Slice(Patch(m, address, BlockBytes(g, region)[..g.WholeWords()]), address, g.blockSize) ==
              BlockBytes(g, region)
  {
    hide BlockBytes;
  }

  lemma EmptyIsFound(m: seq<byte>, g: Geometry, c: Contents, action: Action, page: nat, search: Search, i: nat)
    requires Represents(m, g, c) && (c.Empty? || c.Torn?) && FindResult(m, g, action, page, search, i)
    ensures search == if c.Empty? then PageEmpty else PageMultiInvalid
  {
    hide Word, Geometry.Slots;
    if c.Empty? {
      ErasedWord(m, g, g.page0, g.page0);
      ErasedWord(m, g, g.page1, g.page1);
    }
  }

  /** A search for writing finds the block behind the log, unless the page is full. */
  lemma NextBlockIsFound(m: seq<byte>, g: Geometry, c: Contents, page: nat, search: Search, i: nat)
    requires Represents(m, g, c) && c.Holding? && FindResult(m, g, ForWrite, page, search, i)
    ensures page == c.page
    ensures |c.log| < g.Slots() ==> search == Found && i == |c.log|
    ensures |c.log| == g.Slots() ==> search == if c.page == g.page0 then WriteFull0 else WriteFull1
    ensures |c.log| <= g.Slots()
  {
    hide Word, Geometry.Slots, Geometry.BlockAddr, HoldsLog;
    OnePageIsMarked(m, g, c);
    if |c.log| < g.Slots() {
      assert BlockMarked(m, g, c.page, |c.log|, PAGE_ERASED);
    }
  }

  /** A search for reading finds the last block of the log, unless no block is searched. */
  lemma LastBlockIsFound(m: seq<byte>, g: Geometry, c: Contents, page: nat, search: Search, i: nat)
    requires Represents(m, g, c) && c.Holding? && FindResult(m, g, ForRead, page, search, i)
    ensures page == c.page
    ensures if g.BlocksSearched() > 0 then search == Found && i == |c.log| - 1 else search == BlockInvalid
  {
    hide Word, Geometry.BlocksSearched, Geometry.BlockAddr, HoldsLog;
    OnePageIsMarked(m, g, c);
    assert BlockMarked(m, g, c.page, |c.log| - 1, BLOCK_VALID);
  }

  class Store {
    const memory: array<byte>
    const blockBuffer: array<byte>
    var info: Geometry
    ghost var contents: Contents
    ghost var erases: nat

    constructor (memory: array<byte>)
      ensures this.memory == memory && fresh(blockBuffer) && blockBuffer.Length == MAX_BLOCK_SIZE + 4
    {
      this.memory := memory;
      blockBuffer := new byte[MAX_BLOCK_SIZE + 4];
      info := Geometry(0, 0, 0, 0);
      contents, erases := Empty, 0;
    }

    ghost predicate Valid()
      reads this, memory, blockBuffer
    {
      && memory != blockBuffer && blockBuffer.Length == MAX_BLOCK_SIZE + 4
      && Represents(memory[..], info, contents)
    }

    lemma ValidIsUsable()
      requires Valid()
      ensures info.Usable(memory.Length)
    {
    }

    // ------------------------------------------------------------ the device

    /** flash_empty_device */
    method EmptyDevice(address: nat, size: nat)
      requires address + size <= memory.Length
      modifies memory
      ensures memory[..] == Patch(old(memory[..]), address, Zeros(size))
    {
      forall i | address <= i < address + size {
        memory[i] := 0;
      }
    }

    /** flash_write_device: `words` words of the block buffer. */
    method WriteDevice(address: nat, words: nat)
      requires memory != blockBuffer && address + 4 * words <= memory.Length && 4 * words <= blockBuffer.Length
      modifies memory
      ensures memory[..] == Patch(old(memory[..]), address, blockBuffer[..4 * words])
    {
      var index := 0;
      while index < words
        invariant index <= words
        invariant forall i :: address <= i < address + 4 * index ==> memory[i] == blockBuffer[i - address]
        invariant forall i :: 0 <= i < address || address + 4 * index <= i < memory.Length ==>
          memory[i] == old(memory[i])
      {
        var at, from := address + 4 * index, 4 * index;
        memory[at], memory[at + 1] := blockBuffer[from], blockBuffer[from + 1];
        memory[at + 2], memory[at + 3] := blockBuffer[from + 2], blockBuffer[from + 3];
        index := index + 1;
      }
    }

    /** flash_read_device: into the block buffer, whose other bytes stay. */
    method ReadDevice(address: nat, words: nat)
      requires memory != blockBuffer && address + 4 * words <= memory.Length && 4 * words <= blockBuffer.Length
      modifies blockBuffer
      ensures blockBuffer[..] == Patch(old(blockBuffer[..]), 0, Slice(memory[..], address, 4 * words))
    {
      var index := 0;
      while index < words
        invariant index <= words
        invariant forall i :: 0 <= i < 4 * index ==> blockBuffer[i] == memory[address + i]
        invariant forall i :: 4 * index <= i < blockBuffer.Length ==> blockBuffer[i] == old(blockBuffer[i])
      {
        var at, from := 4 * index, address + 4 * index;
        blockBuffer[at], blockBuffer[at + 1] := memory[from], memory[from + 1];
        blockBuffer[at + 2], blockBuffer[at + 3] := memory[from + 2], memory[from + 3];
        index := index + 1;
      }
    }

    // ------------------------------------------------------- the block buffer

    method ClearBuffer()
      requires blockBuffer.Length == MAX_BLOCK_SIZE + 4
      modifies blockBuffer
      ensures blockBuffer[..MAX_BLOCK_SIZE] == Zeros(MAX_BLOCK_SIZE)
    {
      forall i | 0 <= i < MAX_BLOCK_SIZE {
        blockBuffer[i] := 0;
      }
    }

    method Put(at: nat, bytes: seq<byte>)
      requires at + |bytes| <= blockBuffer.Length
      modifies blockBuffer
      ensures blockBuffer[..] == Patch(old(blockBuffer[..]), at, bytes)
    {
      forall i | 0 <= i < |bytes| {
        blockBuffer[at + i] := bytes[i];
      }
    }

    /** The header of flash_write. */
    method FillHeader(page: nat)
      requires blockBuffer.Length == MAX_BLOCK_SIZE + 4
      requires 0 < info.blockSize <= info.pageSize && info.blockSize <= MAX_BLOCK_SIZE
      modifies blockBuffer
      ensures blockBuffer[..MAX_BLOCK_SIZE] == HeaderBytes(info, page) + Zeros(MAX_BLOCK_SIZE - PAGE_HEADER_SIZE)
      ensures page < 0x1_0000_0000 && info.pageSize < 0x1_0000_0000 ==>
                IsHeader(blockBuffer[..PAGE_HEADER_SIZE], info, page)
    {
      hide Crc16, WordBytes, HeaderFields, HeaderBytes, IsHeader;
      ClearBuffer();
      ghost var cleared := blockBuffer[..];
      Put(0, HeaderFields(info, page));
      FieldsInBuffer(cleared, HeaderFields(info, page));
      assert blockBuffer[..PAGE_HEADER_SIZE - 2] == blockBuffer[..][..PAGE_HEADER_SIZE - 2];
      var crc := CalcCrc16(blockBuffer, PAGE_HEADER_SIZE - 2);
      Put(20, [(crc % 0x100) as byte, (crc / 0x100) as byte]);
      HeaderInBuffer(info, page, cleared);
      if page < 0x1_0000_0000 && info.pageSize < 0x1_0000_0000 {
        HeaderReadsBack(info, page);
      }
      assert blockBuffer[..PAGE_HEADER_SIZE] == blockBuffer[..MAX_BLOCK_SIZE][..PAGE_HEADER_SIZE];
      assert blockBuffer[..MAX_BLOCK_SIZE] == blockBuffer[..][..MAX_BLOCK_SIZE];
    }

    /** The data block of flash_write; the checksum goes over data that does not fit. */
    method FillBlock(data: seq<byte>)
      requires blockBuffer.Length == MAX_BLOCK_SIZE + 4
      requires BLOCK_HEAD_SIZE + BLOCK_CRC_SIZE <= info.blockSize <= MAX_BLOCK_SIZE && |data| <= MAX_DATA
      modifies blockBuffer
      ensures blockBuffer[..info.blockSize] == BlockBytes(info, Padded(info, data))
    {
      hide Crc16, WordBytes;
      ClearBuffer();
      Put(0, WordBytes(BLOCK_VALID) + WordBytes(Payload(info)));
      Put(8, data);
      assert blockBuffer[..info.blockSize - 2] == BlockBody(info, Padded(info, data));
      var crc := CalcCrc16(blockBuffer, info.blockSize - 2);
      Put(info.blockSize - 2, CrcBytes(crc));
    }

    // -------------------------------------------------------------- searching

    method WordAt(a: nat) returns (w: nat)
      requires a + 4 <= memory.Length
      ensures w == Word(memory[..], a)
    {
      w := memory[a] as nat + 0x100 * memory[a + 1] as nat + 0x1_0000 * memory[a + 2] as nat +
        0x100_0000 * memory[a + 3] as nat;
    }

    /** flash_find_block */
    method FindBlock(action: Action) returns (search: Search, address: nat, page: nat, i: nat)
      requires info.Usable(memory.Length)
      ensures FindResult(memory[..], info, action, page, search, i)
      ensures search.Found? ==> address == info.BlockAddr(page, i)
    {
      hide Word, Geometry.BlocksSearched;
      UsableSizes(info, memory.Length);
      address, page, i := 0, 0, 0;
      var valid0 := WordAt(info.page0);
      var valid1 := WordAt(info.page1);
      if valid0 == PAGE_VALID && valid1 == PAGE_VALID {
        search := PageMultiInvalid;
        return;
      }
      var pageAddr;
      if valid0 == PAGE_VALID {
        pageAddr := info.page0;
      } else if valid1 == PAGE_VALID {
        pageAddr := info.page1;
      } else {
        search := PageEmpty;
        return;
      }
      page := pageAddr;
      var found;
      if action.ForWrite? {
        found, address, i := FirstErased(pageAddr);
        search := if found then Found else if pageAddr == info.page0 then WriteFull0 else WriteFull1;
      } else {
        found, address, i := LastValid(pageAddr);
        search := if found then Found else BlockInvalid;
      }
    }

    method FirstErased(page: nat) returns (found: bool, address: nat, i: nat)
      requires info.Usable(memory.Length) && info.IsPage(page)
      ensures found ==> i < info.BlocksSearched() && address == info.BlockAddr(page, i)
      ensures found ==> BlockMarked(memory[..], info, page, i, PAGE_ERASED)
      ensures forall j :: 0 <= j < (if found then i else info.BlocksSearched()) ==>
                !BlockMarked(memory[..], info, page, j, PAGE_ERASED)
    {
      hide Word, Geometry.BlocksSearched;
      UsableSizes(info, memory.Length);
      var index := 0;
      while index < info.BlocksSearched()
        invariant index <= info.BlocksSearched()
        invariant forall j :: 0 <= j < index ==> !BlockMarked(memory[..], info, page, j, PAGE_ERASED)
      {
        info.BlocksInPage(page, index);
        address := page + (index + 1) * info.blockSize;
        var w := WordAt(address);
        if w == PAGE_ERASED {
          return true, address, index;
        }
        index := index + 1;
      }
      found, address, i := false, 0, 0;
    }

    method LastValid(page: nat) returns (found: bool, address: nat, i: nat)
      requires info.Usable(memory.Length) && info.IsPage(page)
      ensures found ==> i < info.BlocksSearched() && address == info.BlockAddr(page, i)
      ensures found ==> BlockMarked(memory[..], info, page, i, BLOCK_VALID)
      ensures forall j :: (if found then i + 1 else 0) <= j < info.BlocksSearched() ==>
                !BlockMarked(memory[..], info, page, j, BLOCK_VALID)
    {
      hide Word, Geometry.BlocksSearched;
      UsableSizes(info, memory.Length);
      var index, num := 0, info.BlocksSearched();
      while index < num
        invariant index <= num
        invariant forall j :: num - index <= j < num ==> !BlockMarked(memory[..], info, page, j, BLOCK_VALID)
      {
        info.BlocksInPage(page, num - index - 1);
        address := page + (num - index) * info.blockSize;
        var w := WordAt(address);
        if w == BLOCK_VALID {
          return true, address, num - index - 1;
        }
        index := index + 1;
      }
      found, address, i := false, 0, 0;
    }

    // ---------------------------------------------------------------- writing

    /** Programs the block buffer at an address and compares, the end of flash_write. */
    method ProgramBlock(address: nat) returns (status: Status)
      requires memory != blockBuffer && blockBuffer.Length == MAX_BLOCK_SIZE + 4
      requires info.blockSize <= MAX_BLOCK_SIZE && address + info.blockSize <= memory.Length
      modifies memory
      ensures memory[..] == Patch(old(memory[..]), address, blockBuffer[..4 * (info.blockSize / 4)])
      ensures status == if Slice(memory[..], address, info.blockSize) == blockBuffer[..info.blockSize] then Success
        else WriteDataErr
    {
      WriteDevice(address, info.blockSize / 4);
      status := if memory[address..address + info.blockSize] == blockBuffer[..info.blockSize] then Success
        else WriteDataErr;
    }

    /** Erases a page unless its mark says that it is erased. */
    method EraseIfMarked(page: nat)
      requires info.Usable(memory.Length) && info.IsPage(page) && memory != blockBuffer
      modifies memory, `erases
      ensures Agree(old(memory[..]), memory[..], info.Other(page), info.pageSize)
      ensures old(Word(memory[..], page)) == PAGE_ERASED ==> memory[..] == old(memory[..]) && erases == old(erases)
      ensures old(Word(memory[..], page)) != PAGE_ERASED ==> Erased(memory[..], info, page) && erases == old(erases) + 1
      ensures old(Erased(memory[..], info, page)) ==> memory[..] == old(memory[..]) && erases == old(erases)
    {
      hide Word, Geometry.Slots, Erased, Agree;
      UsableSizes(info, memory.Length);
      var mark := WordAt(page);
      if Erased(memory[..], info, page) {
        ErasedWord(memory[..], info, page, page);
      }
      if mark != PAGE_ERASED {
        EmptyPage(page);
      } else {
        assert Agree(memory[..], memory[..], info.Other(page), info.pageSize) by {
          AgreesWithItself(memory[..], info.Other(page), info.pageSize);
        }
      }
    }

    method EmptyPage(page: nat)
      requires info.Usable(memory.Length) && info.IsPage(page)
      modifies memory, `erases
      ensures Erased(memory[..], info, page) && Agree(old(memory[..]), memory[..], info.Other(page), info.pageSize)
      ensures erases == old(erases) + 1
    {
      hide Word, Geometry.Slots, Erased, Agree, Patch, Zeros;
      UsableSizes(info, memory.Length);
      ErasePage(memory[..], info, page);
      EmptyDevice(page, info.pageSize);
      erases := erases + 1;
    }

    /** Opens a page; an erased one then holds an empty log. */
    method WriteHeader(page: nat)
      requires info.Usable(memory.Length) && info.IsPage(page)
      requires memory != blockBuffer && blockBuffer.Length == MAX_BLOCK_SIZE + 4
      modifies memory, blockBuffer
      ensures old(Erased(memory[..], info, page)) ==> HoldsLog(memory[..], info, page, [])
      ensures Word(memory[..], page) == PAGE_VALID
      ensures Agree(old(memory[..]), memory[..], info.Other(page), info.pageSize)
    {
      hide Geometry.Slots, Geometry.Usable, Geometry.IsPage, Geometry.Other, Patch, Agree, Erased, HoldsLog,
        HeaderBytes, Word;
      UsableSizes(info, memory.Length);
      PagesApart(info, memory.Length, page);
      FillHeader(page);
      HeaderIsMarked(info, page, blockBuffer[..MAX_BLOCK_SIZE], info.WholeWords());
      ghost var m, header := memory[..], blockBuffer[..info.WholeWords()];
      assert blockBuffer[..MAX_BLOCK_SIZE][..info.WholeWords()] == header;
      if Erased(m, info, page) {
        OpenPage(m, info, page, header);
      }
      PatchAgrees(m, page, header, info.Other(page), info.pageSize);
      PatchedWord(m, page, header);
      WriteDevice(page, info.blockSize / 4);
    }

    /** Makes room when no block is left to write: the block behind the header of the page
        that is opened. */
    method PreparePage(search: Search) returns (page: nat)
      requires Valid() && !search.Found? && !search.BlockInvalid?
      requires if contents.Holding? then |contents.log| == info.Slots() else true
      requires match contents
               case Empty => search == PageEmpty
               case Torn => search == PageMultiInvalid
               case Holding(page, _) => search == if page == info.page0 then WriteFull0 else WriteFull1
               case Unknown => true
      modifies memory, blockBuffer, `erases
      ensures page == OpenedPage(info, search) && Word(memory[..], page) == PAGE_VALID
      ensures old(Honest(memory[..], info, OpenedPage(info, search))) ==> HoldsLog(memory[..], info, page, [])
      ensures !search.WriteFull0? && !search.WriteFull1? && old(Honest(memory[..], info, info.page1)) ==>
                Erased(memory[..], info, info.page1)
      ensures !contents.Unknown? ==> HoldsLog(memory[..], info, page, [])
      ensures contents.Holding? ==>
                && page == info.Other(contents.page) && erases == old(erases)
                && HoldsLog(memory[..], info, contents.page, contents.log)
      ensures contents.Empty? || contents.Torn? ==>
                && page == info.page0 && Erased(memory[..], info, info.page1)
                && erases == old(erases) + if contents.Torn? then 2 else 0
    {
      hide Geometry.Slots, Geometry.Usable, Word, Patch, Agree, Erased, HoldsLog;
      ghost var m := memory[..];
      UsableSizes(info, memory.Length);
      PagesApart(info, memory.Length, info.page0);
      if search.PageEmpty? || search.PageMultiInvalid? {
        page := info.page0;
        EraseBoth();
      } else {
        page := if search.WriteFull0? then info.page1 else info.page0;
        if contents.Holding? {
          PagesApart(info, memory.Length, contents.page);
        }
        EraseIfMarked(page);
      }
      ghost var n := memory[..];
      WriteHeader(page);
      AgreeingPages(n, memory[..], info, info.Other(page), if contents.Holding? then contents.log else []);
    }

    method EraseBoth()
      requires Valid() && !contents.Holding?
      modifies memory, `erases
      ensures old(Honest(memory[..], info, info.page0)) ==> Erased(memory[..], info, info.page0)
      ensures old(Honest(memory[..], info, info.page1)) ==> Erased(memory[..], info, info.page1)
      ensures !contents.Unknown? ==>
                && Erased(memory[..], info, info.page0) && Erased(memory[..], info, info.page1)
                && erases == old(erases) + if contents.Torn? then 2 else 0
    {
      hide Geometry.Slots, Geometry.Usable, Word, Patch, Agree, Erased;
      UsableSizes(info, memory.Length);
      PagesApart(info, memory.Length, info.page0);
      PagesApart(info, memory.Length, info.page1);
      ghost var m := memory[..];
      EraseIfMarked(info.page0);
      AgreeingWords(m, memory[..], info.page1, info.pageSize, info.page1);
      AgreeingPages(m, memory[..], info, info.page1, []);
      ghost var n := memory[..];
      EraseIfMarked(info.page1);
      AgreeingPages(n, memory[..], info, info.page0, []);
    }

    /** Writes a block of a page, and compares; written behind the log of the page it is appended
        to it, and compares equal exactly if it could be programmed whole. */
    method AppendBlock(ghost page: nat, ghost log: seq<seq<byte>>, address: nat, data: seq<byte>)
      returns (status: Status)
      requires info.Usable(memory.Length) && info.IsPage(page) && |data| <= MAX_DATA
      requires |log| < info.Slots() && address == info.BlockAddr(page, |log|)
      requires memory != blockBuffer && blockBuffer.Length == MAX_BLOCK_SIZE + 4
      modifies memory, blockBuffer
      ensures Agree(old(memory[..]), memory[..], info.Other(page), info.pageSize)
      ensures Agree(old(memory[..]), memory[..], page, info.blockSize)
      ensures status == if HoldsBytes(memory[..], info, address, data) then Success else WriteDataErr
      ensures old(HoldsLog(memory[..], info, page, log)) ==>
                && HoldsLog(memory[..], info, page, log + [Padded(info, data)])
                && status == if Programs(info, Padded(info, data)) then Success else WriteDataErr
      ensures info.blockSize % 4 == 0 ==> status == Success
    {
      hide Geometry.Slots, Geometry.Usable, Geometry.BlockAddr, Geometry.Other, Patch, Agree, BlockBytes, Padded,
        HoldsLog, Programs, StoredBytes, Slice;
      UsableSizes(info, memory.Length);
      PagesApart(info, memory.Length, page);
      info.BlocksInPage(page, |log|);
      ghost var m, region := memory[..], Padded(info, data);
      FillBlock(data);
      assert memory[..] == m;
      ghost var bytes := blockBuffer[..info.WholeWords()];
      assert blockBuffer[..info.blockSize][..info.WholeWords()] == bytes;
      PatchAgrees(m, address, bytes, info.Other(page), info.pageSize);
      PatchAgrees(m, address, bytes, page, info.blockSize);
      WholeIsProgrammed(m, info, address, region);
      if HoldsLog(m, info, page, log) {
        AppendToLog(m, info, page, log, region);
      }
      status := ProgramBlock(address);
      if HoldsLog(m, info, page, log) {
        LastOfLog(memory[..], info, page, log, region);
        ProgramsTheBlock(info, region);
      }
    }

    method WriteNext(ghost page: nat, ghost i: nat, address: nat, data: seq<byte>) returns (status: Status)
      requires Valid() && |data| <= MAX_DATA && (contents.Holding? || contents.Unknown?)
      requires info.IsPage(page) && i < info.Slots() && address == info.BlockAddr(page, i)
      requires contents.Holding? ==> page == contents.page && |contents.log| == i
      modifies memory, blockBuffer, `contents
      ensures Valid() && (old(contents).Unknown? ==> contents.Unknown?)
      ensures old(contents).Holding? ==>
                && contents == Holding(page, old(contents.log) + [Padded(info, data)])
                && status == if Programs(info, Padded(info, data)) then Success else WriteDataErr
      ensures status == if HoldsBytes(memory[..], info, address, data) then Success else WriteDataErr
      ensures info.blockSize % 4 == 0 ==> status == Success
    {
      hide Geometry.Slots, Geometry.BlockAddr, Geometry.Usable, Word, Agree, Erased, HoldsLog, Padded, Programs,
        HoldsBytes;
      PagesApart(info, memory.Length, page);
      ghost var m := memory[..];
      ghost var log := if contents.Holding? then contents.log else seq(i, _ => []);
      status := AppendBlock(page, log, address, data);
      if contents.Holding? {
        AgreeingPages(m, memory[..], info, info.Other(page), []);
        contents := Holding(page, contents.log + [Padded(info, data)]);
      }
    }

    method WriteFirst(search: Search, data: seq<byte>) returns (status: Status)
      requires Valid() && |data| <= MAX_DATA && !search.Found? && !search.BlockInvalid?
      requires if contents.Holding? then |contents.log| == info.Slots() else true
      requires match contents
               case Empty => search == PageEmpty
               case Torn => search == PageMultiInvalid
               case Holding(page, _) => search == if page == info.page0 then WriteFull0 else WriteFull1
               case Unknown => true
      modifies memory, blockBuffer, `contents, `erases
      ensures Valid() && contents == Written(info, old(contents), Padded(info, data))
      ensures !old(contents).Unknown? ==>
                && erases == old(erases) + ErasesFor(info, old(contents), Padded(info, data))
                && status == if Programs(info, Padded(info, data)) then Success else WriteDataErr
      ensures var address := info.BlockAddr(OpenedPage(info, search), 0);
              status == if HoldsBytes(memory[..], info, address, data) then Success else WriteDataErr
      ensures old(StartsAfresh(memory[..], info, search)) && status == Success ==>
                Represents(memory[..], info, Holding(OpenedPage(info, search), [Padded(info, data)]))
      ensures info.blockSize % 4 == 0 ==> status == Success
    {
      hide Geometry.Slots, Geometry.Usable, Word, Agree, Erased, HoldsLog, Padded, Programs, HoldsBytes, Honest;
      UsableSizes(info, memory.Length);
      var page := PreparePage(search);
      PagesApart(info, memory.Length, page);
      ghost var m := memory[..];
      status := AppendBlock(page, [], page + info.blockSize, data);
      assert [] + [Padded(info, data)] == [Padded(info, data)];
      AgreeingPages(m, memory[..], info, info.Other(page), if contents.Holding? then contents.log else []);
      assert page == info.page0 && info.page0 != info.page1 ==> info.Other(page) == info.page1;
      if status == WriteDataErr {
        if !contents.Unknown? {
          BothMarked(page, data);
        }
        contents := Written(info, contents, Padded(info, data));
        return;
      }
      FinishPage(search, page, data);
    }

    /** A failed write that should have opened the other page leaves both marked. */
    lemma BothMarked(page: nat, data: seq<byte>)
      requires info.Usable(memory.Length) && info.IsPage(page) && HoldsLog(memory[..], info, page, [Padded(info, data)])
      requires contents.Holding? ==>
                 && info.IsPage(contents.page) && page == info.Other(contents.page)
                 && HoldsLog(memory[..], info, contents.page, contents.log)
      ensures contents.Holding? ==> Represents(memory[..], info, Torn)
    {
      hide HoldsBlock, BlockErased, Geometry.Slots;
    }

    /** The end of flash_write: the page that was full is erased. */
    method FinishPage(search: Search, page: nat, data: seq<byte>)
      requires info.Usable(memory.Length) && memory != blockBuffer && blockBuffer.Length == MAX_BLOCK_SIZE + 4
      requires page == OpenedPage(info, search)
      requires !contents.Unknown? ==>
                 && HoldsLog(memory[..], info, page, [Padded(info, data)])
                 && (!search.WriteFull0? && !search.WriteFull1? ==> Erased(memory[..], info, info.Other(page)))
      modifies memory, `contents, `erases
      ensures Valid()
      ensures contents == if old(contents).Unknown? then Unknown else Holding(page, [Padded(info, data)])
      ensures erases == old(erases) + if search.WriteFull0? || search.WriteFull1? then 1 else 0
      ensures old(HoldsLog(memory[..], info, page, [Padded(info, data)]))
              && (search.WriteFull0? || search.WriteFull1? || old(Erased(memory[..], info, info.Other(page)))) ==>
                Represents(memory[..], info, Holding(page, [Padded(info, data)]))
      ensures var address := info.BlockAddr(page, 0);
              HoldsBytes(memory[..], info, address, data) == old(HoldsBytes(memory[..], info, address, data))
    {
      hide Geometry.Slots, Geometry.Usable, Word, Agree, Erased, HoldsLog, Padded, HoldsBytes;
      UsableSizes(info, memory.Length);
      PagesApart(info, memory.Length, info.page0);
      PagesApart(info, memory.Length, info.page1);
      ghost var m := memory[..];
      if search.WriteFull0? {
        EmptyPage(info.page0);
      } else if search.WriteFull1? {
        EmptyPage(info.page1);
      }
      if search.WriteFull0? || search.WriteFull1? {
        AgreeingPages(m, memory[..], info, page, [Padded(info, data)]);
        info.BlocksInPage(page, 0);
        AgreeingBytes(m, memory[..], info, page, info.BlockAddr(page, 0), data);
      }
      if !contents.Unknown? {
        contents := Holding(page, [Padded(info, data)]);
      }
    }

    /** flash_write.  On any memory: it succeeds exactly if the block that the search has picked then
        holds the data, which it always does with blocks of whole words.  On a store that is empty,
        holds a log, or has both pages marked, that is exactly if the block can be programmed
        whole; the block is then the latest, and a page is erased only when it was full, or both
        when both were marked.  On an unknown memory in which it finds no block, and in which no
        page is dirty under an erased mark, a good write leaves a store that holds just its data. */
    method Write(data: seq<byte>) returns (status: Status)
      requires Valid() && |data| <= MAX_DATA
      modifies memory, blockBuffer, `contents, `erases
      ensures Valid() && contents == Written(info, old(contents), Padded(info, data))
      ensures !old(contents).Unknown? ==>
                && erases == old(erases) + ErasesFor(info, old(contents), Padded(info, data))
                && status == if Programs(info, Padded(info, data)) then Success else WriteDataErr
      ensures exists address :: IsWhereItGoes(old(memory[..]), info, address)
                && status == if HoldsBytes(memory[..], info, address, data) then Success else WriteDataErr
      ensures old(Recovers(memory[..], info)) && status == Success ==>
                exists page :: Represents(memory[..], info, Holding(page, [Padded(info, data)]))
      ensures info.blockSize % 4 == 0 ==> status == Success
    {
      hide Geometry.Slots, Geometry.Usable, Geometry.BlockAddr, Word, Agree, Erased, HoldsLog, Padded, FindResult,
        Programs, HoldsBytes, OpenedPage, StartsAfresh, Recovers;
      UsableSizes(info, memory.Length);
      var search, address, page, i := FindBlock(ForWrite);
      ghost var m := memory[..];
      SearchForWriting(m, info, page, search, i);
      if Recovers(m, info) {
        RecoversWith(m, info, page, search, i);
      }
      if contents.Holding? {
        NextBlockIsFound(m, info, contents, page, search, i);
      } else if !contents.Unknown? {
        EmptyIsFound(m, info, contents, ForWrite, page, search, i);
      }
      if search == Found {
        status := WriteNext(page, i, address, data);
      } else {
        address := info.BlockAddr(OpenedPage(info, search), 0);
        status := WriteFirst(search, data);
      }
      assert IsWhereItGoes(m, info, address);
    }

    // ---------------------------------------------------------------- reading

    /** flash_read.  On any memory the data comes from a block whose copy passes the tests, or
        not at all.  Of a store in use it is what was written last, if that was written whole;
        a block whose last data byte is behind the whole words is judged by a stale byte. */
    method Read(size: nat) returns (status: Status, data: seq<byte>, ghost at: nat)
      requires info.Usable(memory.Length) && size <= MAX_DATA
      requires memory != blockBuffer && blockBuffer.Length == MAX_BLOCK_SIZE + 4
      modifies blockBuffer
      ensures status.BlockErr? || at + info.blockSize <= memory.Length
      ensures status.BlockErr? ==> forall p, k: nat :: !IsLastBlock(memory[..], info, p, k)
      ensures !status.BlockErr? ==>
                exists p, k: nat :: IsLastBlock(memory[..], info, p, k) && at == info.BlockAddr(p, k)
      ensures status.Success? ==>
                && Intact(memory[..], old(blockBuffer[..]), info, at)
                && data == Copied(memory[..], old(blockBuffer[..]), info, at)[BLOCK_HEAD_SIZE..BLOCK_HEAD_SIZE + size]
      ensures status.CrcErr? || status.SizeErr? ==> !Intact(memory[..], old(blockBuffer[..]), info, at)
      ensures !status.WriteDataErr? && (!status.Success? ==> data == [])
      ensures Represents(memory[..], info, contents) && !contents.Unknown? ==>
                ReadsLatest(info, contents, size, status, data)
    {
      hide Geometry.Slots, Geometry.BlockAddr, Geometry.Usable, Word, Erased, HoldsLog, StoredBytes, Crc16,
        Intact, FindResult, Copied, Programs, Geometry.WholeWords, KeptBytes, IsLastBlock, StartsAlike;
      UsableSizes(info, memory.Length);
      var search, address, page, i := FindBlock(ForRead);
      ReadSearchIsExact(memory[..], info, page, search, i);
      at, data := address, [];
      ghost var m, buffer := memory[..], blockBuffer[..];
      if Represents(memory[..], info, contents) {
        if contents.Holding? {
          LastBlockIsFound(m, info, contents, page, search, i);
          LatestIsJudged(m, buffer, info, contents, size);
        } else if !contents.Unknown? {
          EmptyIsFound(m, info, contents, ForRead, page, search, i);
        }
      }
      if search == Found {
        FoundIsInPage(m, info, page, i, ForRead);
        status, data := ReadBlock(address, size);
        assert memory[..] == m;
      } else {
        status := BlockErr;
      }
    }

    method ReadBlock(address: nat, size: nat) returns (status: Status, data: seq<byte>)
      requires memory != blockBuffer && blockBuffer.Length == MAX_BLOCK_SIZE + 4 && size <= MAX_DATA
      requires BLOCK_HEAD_SIZE + BLOCK_CRC_SIZE <= info.blockSize <= MAX_BLOCK_SIZE
      requires address + info.blockSize <= memory.Length
      modifies blockBuffer
      ensures var copy := Copied(memory[..], old(blockBuffer[..]), info, address);
              if Intact(memory[..], old(blockBuffer[..]), info, address) then
                status == Success && data == copy[BLOCK_HEAD_SIZE..BLOCK_HEAD_SIZE + size]
              else
                status == (if SizeFits(copy, info) then CrcErr else SizeErr) && data == []
    {
      hide Word, Crc16, Copied, Geometry.WholeWords;
      ReadIntoBuffer(address);
      ghost var copy := blockBuffer[..];
      data := [];
      assert blockBuffer[4..8] == copy[4..8];
      var regionSize := WordOf(blockBuffer[4..8]);
      if (regionSize + BLOCK_HEAD_SIZE + BLOCK_CRC_SIZE) % 0x1_0000_0000 != info.blockSize {
        status := SizeErr;
      } else {
        var softCrc := CalcCrc16(blockBuffer, info.blockSize - 2);
        assert blockBuffer[..info.blockSize - 2] == copy[..info.blockSize - 2];
        var flashCrc := CrcOf(memory[address + info.blockSize - 2], memory[address + info.blockSize - 1]);
        if softCrc == flashCrc {
          status, data := Success, blockBuffer[8..8 + size];
        } else {
          status := CrcErr;
        }
      }
    }

    method ReadIntoBuffer(address: nat)
      requires memory != blockBuffer && blockBuffer.Length == MAX_BLOCK_SIZE + 4
      requires info.blockSize <= MAX_BLOCK_SIZE && address + info.blockSize <= memory.Length
      modifies blockBuffer
      ensures blockBuffer[..] == Copied(memory[..], old(blockBuffer[..]), info, address)
    {
      ReadDevice(address, info.blockSize / 4);
    }

    // ------------------------------------------------------------- the others

    /** flash_set_empty */
    method SetEmpty()
      requires info.Usable(memory.Length) && memory != blockBuffer && blockBuffer.Length == MAX_BLOCK_SIZE + 4
      modifies memory, `contents, `erases
      ensures Valid() && contents == Empty
    {
      hide Geometry.Slots, Geometry.Usable, Word, Agree, Erased;
      PagesApart(info, memory.Length, info.page0);
      PagesApart(info, memory.Length, info.page1);
      EmptyPage(info.page0);
      ghost var m := memory[..];
      EmptyPage(info.page1);
      AgreeingPages(m, memory[..], info, info.page0, []);
      contents := Empty;
    }

    /** flash_check_empty; of a store in use it says whether it is empty. */
    method CheckEmpty() returns (empty: bool)
      requires info.Usable(memory.Length)
      ensures empty <==> Word(memory[..], info.page0) == PAGE_ERASED && Word(memory[..], info.page1) == PAGE_ERASED
      ensures Represents(memory[..], info, contents) && !contents.Unknown? ==> (empty <==> contents.Empty?)
    {
      hide Word, HoldsLog, Geometry.Slots;
      UsableSizes(info, memory.Length);
      var mark0 := WordAt(info.page0);
      var mark1 := WordAt(info.page1);
      empty := mark0 == PAGE_ERASED && mark1 == PAGE_ERASED;
      if Represents(memory[..], info, contents) {
        if contents.Holding? {
          OnePageIsMarked(memory[..], info, contents);
        } else if contents.Empty? {
          ErasedWord(memory[..], info, info.page0, info.page0);
          ErasedWord(memory[..], info, info.page1, info.page1);
        }
      }
    }

    /** flash_driver_init */
    method DriverInit(address0: nat, address1: nat, pageSize: nat, blockSize: nat) returns (pass: bool)
      modifies `info
      ensures pass <==> Accepted(address0, address1, pageSize, blockSize)
      ensures info == if pass then Geometry(address0, address1, pageSize, blockSize) else old(info)
    {
      if pageSize == 0 || blockSize == 0 || blockSize > MAX_BLOCK_SIZE || pageSize < blockSize * 2 {
        return false;
      }
      if HasBitTwo(address0) || HasBitTwo(address1) || HasBitTwo(pageSize) || HasBitTwo(blockSize) {
        return false;
      }
      info := Geometry(address0, address1, pageSize, blockSize);
      pass := true;
    }

    /** A write and a read behind it.  Unless a data byte lies behind the whole words of a block,
        what was reported as written is found exactly if the number of blocks is no multiple of
        2^16. */
    method WriteThenRead(data: seq<byte>, size: nat) returns (wrote: Status, read: Status, back: seq<byte>)
      requires Valid() && |data| <= MAX_DATA && size <= MAX_DATA
      modifies memory, blockBuffer, `contents, `erases
      ensures Valid()
      ensures !old(contents).Unknown? ==> (wrote == Success <==> Programs(info, Padded(info, data)))
      ensures !old(contents).Unknown? && wrote == Success && info.blockSize % 4 != 3 ==>
                && (read == Success <==> info.BlockNum() % 0x1_0000 != 0)
                && (read != Success ==> read == BlockErr)
                && (read == Success ==>
                      && |back| == size && StartsAlike(back, Padded(info, data), Payload(info))
                      && StartsAlike(back, data, Payload(info)))
    {
      hide Geometry.Slots, Geometry.Usable, Word, Agree, Erased, HoldsLog, Padded, Programs, StartsAlike;
      UsableSizes(info, memory.Length);
      wrote := Write(data);
      ghost var at;
      read, back, at := Read(size);
      StartsWithTheData(back, info, data);
    }

    /** Any number of writes to an empty store. */
    method WriteAll(data: seq<seq<byte>>)
      requires Valid() && contents == Empty && forall k :: 0 <= k < |data| ==> |data[k]| <= MAX_DATA
      modifies memory, blockBuffer, `contents, `erases
      ensures Valid() && contents == AfterWrites(info, PaddedAll(info, data))
      ensures erases == old(erases) + ErasesAfter(info, PaddedAll(info, data))
      ensures data != [] && AllProgram(info, PaddedAll(info, data)) ==>
                && contents.Holding? && Latest(info, contents) == Padded(info, data[|data| - 1])
                && erases == old(erases) + (|data| - 1) / info.Slots()
    {
      hide Represents, Geometry.Slots, Geometry.Usable, Padded, Written, ErasesFor, Programs, HoldsBytes,
        IsWhereItGoes;
      ValidIsUsable();
      UsableSizes(info, memory.Length);
      ghost var regions := PaddedAll(info, data);
      var k := 0;
      while k < |data|
        invariant k <= |data| && Valid() && !contents.Unknown? && contents == AfterWrites(info, regions[..k])
        invariant erases == old(erases) + ErasesAfter(info, regions[..k])
      {
        assert regions[..k + 1][..k] == regions[..k];
        var _ := Write(data[k]);
        k := k + 1;
      }
      assert regions[..|data|] == regions;
      if data != [] && AllProgram(info, regions) {
        assert info.page0 != info.page1 by { PagesApart(info, memory.Length, info.page0); }
        LatestIsLast(info, regions);
      }
    }
  }

  function Latest(g: Geometry, c: Contents): seq<byte>
    requires c.Holding? && c.log != []
  {
    c.log[|c.log| - 1]
  }

  function PaddedAll(g: Geometry, data: seq<seq<byte>>): (r: seq<seq<byte>>)
    requires 0 <= Payload(g)
    ensures Regions(g, r) && |r| == |data| && forall k :: 0 <= k < |data| ==> r[k] == Padded(g, data[k])
  {
    seq(|data|, k requires 0 <= k < |data| => Padded(g, data[k]))
  }

  /** The block buffer once a block was read into it. */
  function Copied(m: seq<byte>, buffer: seq<byte>, g: Geometry, a: nat): (r: seq<byte>)
    requires g.blockSize <= |buffer| && a + g.blockSize <= |m|
    ensures |r| == |buffer|
  {
    Patch(buffer, 0, Slice(m, a, g.WholeWords()))
  }

  predicate SizeFits(copy: seq<byte>, g: Geometry)
    requires 8 <= |copy|
  {
    (WordOf(copy[4..8]) + BLOCK_HEAD_SIZE + BLOCK_CRC_SIZE) % 0x1_0000_0000 == g.blockSize
  }

  /** The tests that flash_read makes: on the copy, but with the checksum from the memory. */
  predicate Intact(m: seq<byte>, buffer: seq<byte>, g: Geometry, a: nat) {
    && BLOCK_HEAD_SIZE + BLOCK_CRC_SIZE <= g.blockSize <= |buffer| && a + g.blockSize <= |m|
    && var copy := Copied(m, buffer, g, a);
    && SizeFits(copy, g)
    && CrcOf(m[a + g.blockSize - 2], m[a + g.blockSize - 1]) == Crc16(copy[..g.blockSize - 2])
  }

  /** The data bytes of a block that lie in its whole words. */
  function KeptBytes(g: Geometry): (n: int)
    ensures g.blockSize % 4 != 3 && g.blockSize >= 10 ==> n == Payload(g)
    ensures g.blockSize % 4 == 3 && g.blockSize >= 10 ==> n == Payload(g) - 1
  {
    if g.WholeWords() - BLOCK_HEAD_SIZE < Payload(g) then g.WholeWords() - BLOCK_HEAD_SIZE else Payload(g)
  }

  function WordOf(s: seq<byte>): nat
    requires |s| == 4
  {
    Word(s, 0)
  }

  lemma SliceWord(m: seq<byte>, a: nat, n: nat, b: nat)
    requires a + n <= |m| && b + 4 <= n
    ensures WordOf(Slice(m, a, n)[b..b + 4]) == Word(m, a + b)
  {
  }

  /** What a read of a store in use gives. */
  ghost predicate ReadsLatest(g: Geometry, c: Contents, size: nat, status: Status, data: seq<byte>)
    requires g.blockSize > 0
  {
    if !c.Holding? || g.BlocksSearched() == 0 then status == BlockErr
    else
      && c.log != [] && |Latest(g, c)| == Payload(g)
      && (status == Success || status == CrcErr)
      && (g.blockSize % 4 != 3 ==> status == if Programs(g, Latest(g, c)) then Success else CrcErr)
      && (status == Success ==> |data| == size && StartsAlike(data, Latest(g, c), KeptBytes(g)))
  }

  /** The first bytes agree, `n` of them or all there are. */
  ghost predicate StartsAlike(data: seq<byte>, region: seq<byte>, n: int) {
    forall i :: 0 <= i < n && i < |data| && i < |region| ==> data[i] == region[i]
  }

  lemma StartsWithTheData(back: seq<byte>, g: Geometry, data: seq<byte>)
    requires 0 <= Payload(g)
    ensures StartsAlike(back, Padded(g, data), Payload(g)) ==> StartsAlike(back, data, Payload(g))
  {
  }

  lemma FoundIsInPage(m: seq<byte>, g: Geometry, page: nat, i: nat, action: Action)
    requires g.Usable(|m|) && FindResult(m, g, action, page, Found, i)
    ensures g.BlockAddr(page, i) + g.blockSize <= |m|
  {
    hide Word, Geometry.Slots;
    g.BlocksInPage(page, i);
    PagesApart(g, |m|, page);
  }

  /** What flash_read makes of a block that flash_write has left, whatever is in the buffer. */
  lemma StoredIsJudged(m: seq<byte>, buffer: seq<byte>, g: Geometry, a: nat, region: seq<byte>)
    requires |region| == Payload(g) && a + g.blockSize <= |m| && g.blockSize <= MAX_BLOCK_SIZE
    requires g.blockSize <= |buffer|
    requires Slice(m, a, g.blockSize) == StoredBytes(g, region)
    ensures SizeFits(Copied(m, buffer, g, a), g)
    ensures g.blockSize % 4 != 3 ==> (Intact(m, buffer, g, a) <==> Programs(g, region))
  {
    hide Crc16, Word, WordBytes, BlockBytes, WordOf;
    CopyOfStored(m, buffer, g, a, region);
    BlockWord(m, g, a, region);
    var copy := Copied(m, buffer, g, a);
    SliceWord(m, a, g.blockSize, 4);
    assert copy[4..8] == Slice(m, a, g.blockSize)[4..8];
    if g.blockSize % 4 != 3 {
      var body := BlockBody(g, region);
      assert copy[..g.blockSize - 2] == body;
      ChecksumIsJudged(m, g, a, region);
    }
  }

  lemma CopyOfStored(m: seq<byte>, buffer: seq<byte>, g: Geometry, a: nat, region: seq<byte>)
    requires |region| == Payload(g) && a + g.blockSize <= |m| && g.blockSize <= |buffer|
    requires Slice(m, a, g.blockSize) == StoredBytes(g, region)
    ensures 8 <= g.WholeWords()
    ensures forall i :: 0 <= i < g.WholeWords() ==> Copied(m, buffer, g, a)[i] == BlockBytes(g, region)[i] == m[a + i]
    ensures forall i :: 0 <= i < g.WholeWords() && i < |BlockBody(g, region)| ==>
              Copied(m, buffer, g, a)[i] == BlockBody(g, region)[i]
    ensures forall i :: 0 <= i < KeptBytes(g) ==> Copied(m, buffer, g, a)[8 + i] == region[i]
  {
    hide Crc16, WordBytes;
    assert forall i :: 0 <= i < g.WholeWords() ==> m[a + i] == Slice(m, a, g.blockSize)[i];
  }

  lemma ChecksumIsJudged(m: seq<byte>, g: Geometry, a: nat, region: seq<byte>)
    requires |region| == Payload(g) && a + g.blockSize <= |m| && g.blockSize % 4 != 3
    requires Slice(m, a, g.blockSize) == StoredBytes(g, region)
    ensures CrcOf(m[a + g.blockSize - 2], m[a + g.blockSize - 1]) == Crc16(BlockBody(g, region)) <==>
      Programs(g, region)
  {
    hide Crc16, WordBytes;
    var n, s := g.blockSize, Slice(m, a, g.blockSize);
    assert m[a + n - 2] == s[n - 2] && m[a + n - 1] == s[n - 1];
    assert BlockBytes(g, region)[n - 2..] == CrcBytes(Crc16(BlockBody(g, region)));
    assert BlockBytes(g, region)[n - 2] == CrcBytes(Crc16(BlockBody(g, region)))[0];
    assert BlockBytes(g, region)[n - 1] == CrcBytes(Crc16(BlockBody(g, region)))[1];
  }

  lemma LatestIsJudged(m: seq<byte>, buffer: seq<byte>, g: Geometry, c: Contents, size: nat)
    requires Represents(m, g, c) && c.Holding? && |buffer| == MAX_BLOCK_SIZE + 4 && size <= MAX_DATA
    ensures |Latest(g, c)| == Payload(g)
    ensures var a := g.BlockAddr(c.page, |c.log| - 1);
            && a + g.blockSize <= |m|
            && SizeFits(Copied(m, buffer, g, a), g)
            && (g.blockSize % 4 != 3 ==> (Intact(m, buffer, g, a) <==> Programs(g, Latest(g, c))))
            && StartsAlike(Copied(m, buffer, g, a)[8..8 + size], Latest(g, c), KeptBytes(g))
  {
    hide Geometry.BlockAddr, Word, StoredBytes, Intact, Slice, Programs, Copied, SizeFits, Geometry.WholeWords,
      KeptBytes;
    assert HoldsBlock(m, g, c.page, |c.log| - 1, Latest(g, c));
    StoredIsJudged(m, buffer, g, g.BlockAddr(c.page, |c.log| - 1), Latest(g, c));
    CopyOfStored(m, buffer, g, g.BlockAddr(c.page, |c.log| - 1), Latest(g, c));
  }

  lemma LastOfLog(m: seq<byte>, g: Geometry, page: nat, log: seq<seq<byte>>, region: seq<byte>)
    requires g.Usable(|m|) && g.IsPage(page) && HoldsLog(m, g, page, log + [region])
    ensures g.BlockAddr(page, |log|) + g.blockSize <= |m| && |region| == Payload(g)
    ensures Slice(m, g.BlockAddr(page, |log|), g.blockSize) == StoredBytes(g, region)
  {
    hide Geometry.BlockAddr, StoredBytes, Slice, Geometry.Slots;
    assert HoldsBlock(m, g, page, |log|, (log + [region])[|log|]);
  }

  predicate HasBitTwo(x: nat) { x / 4 % 2 == 1 }

  predicate Accepted(address0: nat, address1: nat, pageSize: nat, blockSize: nat) {
    && pageSize != 0 && 0 < blockSize <= MAX_BLOCK_SIZE && 2 * blockSize <= pageSize
    && !HasBitTwo(address0) && !HasBitTwo(address1) && !HasBitTwo(pageSize) && !HasBitTwo(blockSize)
  }

  /** The mask in flash_driver_init tests bit 2 instead of bits 0 and 1: it lets numbers pass
      that are not whole words, and turns down half of those that are. */
  lemma AlignmentIsNotWhatIsChecked(x: nat)
    ensures !HasBitTwo(x) && x % 4 != 0 <==> 1 <= x % 8 <= 3
    ensures HasBitTwo(x) && x % 4 == 0 <==> x % 8 == 4
  {
    assert x == 8 * (x / 8) + x % 8;
  }

  lemma FieldsInBuffer(cleared: seq<byte>, fields: seq<byte>)
    requires |cleared| == MAX_BLOCK_SIZE + 4 && cleared[..MAX_BLOCK_SIZE] == Zeros(MAX_BLOCK_SIZE) && |fields| == 20
    ensures Patch(cleared, 0, fields)[..22] == fields + Zeros(2)
  {
    assert forall i :: 0 <= i < MAX_BLOCK_SIZE ==> cleared[i] == cleared[..MAX_BLOCK_SIZE][i];
  }

  lemma HeaderInBuffer(g: Geometry, page: nat, cleared: seq<byte>)
    requires g.blockSize > 0 && g.blockSize <= g.pageSize
    requires |cleared| == MAX_BLOCK_SIZE + 4 && cleared[..MAX_BLOCK_SIZE] == Zeros(MAX_BLOCK_SIZE)
    ensures var crc := Crc16(HeaderFields(g, page) + Zeros(2));
            Patch(Patch(cleared, 0, HeaderFields(g, page)), 20,
              [(crc % 0x100) as byte, (crc / 0x100) as byte])[..MAX_BLOCK_SIZE]
            == HeaderBytes(g, page) + Zeros(MAX_BLOCK_SIZE - PAGE_HEADER_SIZE)
  {
    hide Crc16, HeaderFields;
    assert forall i :: 0 <= i < MAX_BLOCK_SIZE ==> cleared[i] == cleared[..MAX_BLOCK_SIZE][i];
  }

  lemma HeaderIsMarked(g: Geometry, page: nat, m: seq<byte>, n: nat)
    requires g.blockSize > 0 && g.blockSize <= g.pageSize && 4 <= n <= MAX_BLOCK_SIZE
    requires m == HeaderBytes(g, page) + Zeros(MAX_BLOCK_SIZE - PAGE_HEADER_SIZE)
    ensures Word(m[..n], 0) == PAGE_VALID
  {
    hide Crc16;
    var s := m[..n];
    assert s[0] == WordBytes(PAGE_VALID)[0] && s[1] == WordBytes(PAGE_VALID)[1];
    assert s[2] == WordBytes(PAGE_VALID)[2] && s[3] == WordBytes(PAGE_VALID)[3];
    WordRoundTrip(PAGE_VALID);
  }

  lemma AgreesWithItself(m: seq<byte>, a: nat, len: nat)
    requires a + len <= |m|
    ensures Agree(m, m, a, len)
  {
  }

  // ------------------------------------------------- blocks that are cut off

  lemma WholeBlockPrograms(g: Geometry, region: seq<byte>)
    requires |region| == Payload(g)
    ensures g.blockSize % 4 == 0 ==> Programs(g, region)
  {
  }

  /** `x` moved up by `n` places. */
  function Shifted(x: nat, n: nat): (r: nat)
    ensures x == 0 ==> r == 0
  {
    if n == 0 then x else 2 * Shifted(x, n - 1)
  }

  lemma XorStep(a: nat, b: nat)
    ensures Xor(a, b) == 2 * Xor(a / 2, b / 2) + if a % 2 == b % 2 then 0 else 1
  {
  }

  /** The low bits and the high ones do not mix. */
  lemma {:induction false} XorSplits(n: nat, aHigh: nat, aLow: nat, bHigh: nat, bLow: nat)
    requires aLow < Shifted(1, n) && bLow < Shifted(1, n)
    ensures Xor(Shifted(aHigh, n) + aLow, Shifted(bHigh, n) + bLow) == Shifted(Xor(aHigh, bHigh), n) + Xor(aLow, bLow)
    ensures Xor(aLow, bLow) < Shifted(1, n)
  {
    hide Xor;
    if n == 0 {
      XorOfZeros();
    } else {
      XorSplits(n - 1, aHigh, aLow / 2, bHigh, bLow / 2);
      XorStep(aLow, bLow);
      XorStep(Shifted(aHigh, n) + aLow, Shifted(bHigh, n) + bLow);
    }
  }

  lemma XorOfZeros()
    ensures Xor(0, 0) == 0
  {
  }

  lemma XorWithZero(a: nat)
    ensures Xor(a, 0) == a
  {
  }

  lemma LowByteOfXor(a: nat, b: nat)
    ensures Xor(a, b) % 0x100 == Xor(a % 0x100, b % 0x100) < 0x100
  {
    hide Xor;
    ShiftedByEight(1);
    ShiftedByEight(a / 0x100);
    ShiftedByEight(b / 0x100);
    ShiftedByEight(Xor(a / 0x100, b / 0x100));
    XorSplits(8, a / 0x100, a % 0x100, b / 0x100, b % 0x100);
  }

  lemma ShiftedByEight(x: nat)
    ensures Shifted(x, 8) == 0x100 * x
  {
    assert Shifted(x, 1) == 2 * x;
    assert Shifted(x, 2) == 4 * x;
    assert Shifted(x, 3) == 8 * x;
    assert Shifted(x, 4) == 0x10 * x;
    assert Shifted(x, 5) == 0x20 * x;
    assert Shifted(x, 6) == 0x40 * x;
  }

  /** A shift of the checksum turns its low byte to the left. */
  function Turned(x: nat): nat {
    if x >= 0x80 then 2 * x - 0xFF else 2 * x
  }

  lemma ShiftTurnsLowByte(crc: uint16)
    ensures (if crc / 0x80 % 2 == 1 then Xor(2 * crc, 0xA001) else 2 * crc) % 0x1_0000 % 0x100 == Turned(crc % 0x100)
  {
    hide Xor;
    var c := crc % 0x100;
    TopBit(crc);
    LowOfLow(2 * crc);
    if c >= 0x80 {
      LowOfLow(Xor(2 * crc, 0xA001));
      LowByteOfXor(2 * crc, 0xA001);
      XorStep(2 * c - 0x100, 1);
      XorWithZero(c - 0x80);
    }
  }

  lemma TopBit(crc: nat)
    ensures crc / 0x80 % 2 == (if crc % 0x100 >= 0x80 then 1 else 0)
    ensures 2 * crc % 0x100 == 2 * (crc % 0x100) - if crc % 0x100 >= 0x80 then 0x100 else 0
  {
  }

  lemma LowOfLow(x: nat)
    ensures x % 0x1_0000 % 0x100 == x % 0x100
  {
  }

  function Turns(x: nat, n: nat): nat
    decreases n
  {
    if n == 0 then x else Turns(Turned(x), n - 1)
  }

  lemma {:induction false} ShiftsTurnLowByte(crc: uint16, n: nat)
    ensures CrcShifts(crc, n) % 0x100 == Turns(crc % 0x100, n)
    decreases n
  {
    hide Xor;
    if n > 0 {
      ShiftTurnsLowByte(crc);
      ShiftsTurnLowByte((if crc / 0x80 % 2 == 1 then Xor(2 * crc, 0xA001) else 2 * crc) % 0x1_0000, n - 1);
    }
  }

  lemma OneTurn(top: nat, rest: nat, n: nat)
    requires top <= 1 && rest < 0x80 && n > 0
    ensures Turns(0x80 * top + rest, n) == Turns(2 * rest + top, n - 1)
  {
  }

  lemma EightTurnsAreNone(x: nat)
    requires x < 0x100
    ensures Turns(x, 8) == x
  {
    hide Turns;
    var a := x % 0x80;
    var b := a % 0x40;
    var c := b % 0x20;
    var d := c % 0x10;
    var top, half := x / 0x80, a / 0x40;
    var quarter, eighth := b / 0x20, c / 0x10;
    OneTurn(top, a, 8);
    OneTurn(half, 2 * b + top, 7);
    OneTurn(quarter, 4 * c + 2 * top + half, 6);
    OneTurn(eighth, 8 * d + 4 * top + 2 * half + quarter, 5);
    FourMoreTurns(d, 8 * top + 4 * half + 2 * quarter + eighth);
  }

  lemma NoTurn(x: nat)
    ensures Turns(x, 0) == x
  {
  }

  lemma FourMoreTurns(d: nat, y: nat)
    requires d < 0x10 && y < 0x10
    ensures Turns(0x10 * d + y, 4) == 0x10 * y + d
  {
    hide Turns;
    var e := d % 8;
    var f := e % 4;
    var h := f % 2;
    var top, half, quarter := d / 8, e / 4, f / 2;
    OneTurn(top, 0x10 * e + y, 4);
    OneTurn(half, 0x20 * f + 2 * y + top, 3);
    OneTurn(quarter, 0x40 * h + 4 * y + 2 * top + half, 2);
    OneTurn(h, 8 * y + 4 * top + 2 * half + quarter, 1);
    NoTurn(0x10 * y + d);
  }

  /** All bytes, one added to the other without carry. */
  function Parity(s: seq<byte>): nat {
    if s == [] then 0xFF else Xor(Parity(s[..|s| - 1]), s[|s| - 1] as nat)
  }

  lemma LowByteAfterByte(crc: uint16, b: nat)
    requires b < 0x100
    ensures CrcShifts(Xor(crc, b) % 0x1_0000, 8) % 0x100 == Xor(crc % 0x100, b)
  {
    hide Xor, CrcShifts, Turns;
    var x := Xor(crc, b);
    LowByteOfXor(crc, b);
    ShiftsTurnLowByte(x % 0x1_0000, 8);
    LowOfLow(x);
    EightTurnsAreNone(x % 0x100);
  }

  /** The eight shifts bring the low byte back: that of the checksum is a mere parity. */
  lemma {:induction false} LowByteOfCrcIsParity(s: seq<byte>)
    ensures Crc16(s) % 0x100 == Parity(s)
  {
    hide Xor, CrcShifts;
    if s != [] {
      LowByteOfCrcIsParity(s[..|s| - 1]);
      LowByteAfterByte(Crc16(s[..|s| - 1]), s[|s| - 1] as nat);
    }
  }

  lemma ParityOfOneMore(s: seq<byte>, b: byte)
    ensures Parity(s + [b]) == Xor(Parity(s), b as nat)
  {
    assert (s + [b])[..|s|] == s;
  }

  /** A block with an end behind the whole words can be programmed only if the parity of its
      body, and with three bytes at the end also the last byte of the data, happen to be 0. */
  lemma CutBlockNeedsParity(g: Geometry, region: seq<byte>)
    requires |region| == Payload(g) && g.blockSize % 4 != 0 && Programs(g, region)
    ensures Parity(BlockBody(g, region)) == 0
    ensures g.blockSize % 4 == 3 ==> region != [] && region[|region| - 1] == 0
  {
    hide Crc16, WordBytes, Parity;
    var n := g.blockSize;
    assert BlockBytes(g, region)[n - 1] == CrcBytes(Crc16(BlockBody(g, region)))[1];
    LowByteOfCrcIsParity(BlockBody(g, region));
    if n % 4 == 3 {
      assert BlockBytes(g, region)[n - 3] == BlockBody(g, region)[n - 3] == region[|region| - 1];
    }
  }

  lemma BodiesThatDiffer(g: Geometry, a: byte, b: byte)
    requires Payload(g) > 0
    ensures var zeros := Zeros(Payload(g) - 1);
            Parity(BlockBody(g, zeros + [b])) == Xor(Parity(BlockBody(g, zeros + [a])[..g.blockSize - 3]), b as nat)
  {
    hide Parity, WordBytes, Xor;
    var zeros := Zeros(Payload(g) - 1);
    var front := BlockBody(g, zeros + [a])[..g.blockSize - 3];
    assert BlockBody(g, zeros + [b]) == front + [b];
    ParityOfOneMore(front, b);
  }

  lemma {:induction false} XorTwice(a: nat, b: nat)
    ensures Xor(Xor(a, b), b) == a
  {
    hide Xor;
    if a == 0 && b == 0 {
      XorOfZeros();
    } else {
      XorStep(a, b);
      XorStep(Xor(a, b), b);
      assert Xor(a, b) / 2 == Xor(a / 2, b / 2);
      XorTwice(a / 2, b / 2);
    }
  }

  lemma PairsCancel(s: seq<byte>, b: byte)
    ensures Parity(s + [b, b]) == Parity(s)
  {
    hide Xor, Parity;
    assert s + [b, b] == s + [b] + [b];
    ParityOfOneMore(s, b);
    ParityOfOneMore(s + [b], b);
    XorTwice(Parity(s), b as nat);
  }

  lemma ParityOfSmallestBody(g: Geometry)
    requires Payload(g) == 0
    ensures Parity(BlockBody(g, [])) == 0xFF
  {
    hide Parity;
    assert BlockBody(g, []) == [0xA5, 0xA5, 0xA5, 0xA5] + [0, 0] + [0, 0];
    assert [0xA5, 0xA5, 0xA5, 0xA5] == [] + [0xA5, 0xA5] + [0xA5, 0xA5];
    PairsCancel([], 0xA5);
    PairsCancel([] + [0xA5, 0xA5], 0xA5);
    PairsCancel([0xA5, 0xA5, 0xA5, 0xA5], 0);
    PairsCancel([0xA5, 0xA5, 0xA5, 0xA5] + [0, 0], 0);
    ParityOfNothing();
  }

  lemma ParityOfNothing()
    ensures Parity([]) == 0xFF
  {
  }

  /** Whatever the geometry, every payload can be programmed exactly if a block is a whole
      number of words. */
  lemma WholeWordsAreNeeded(g: Geometry)
    requires 0 <= Payload(g)
    ensures (forall region: seq<byte> :: |region| == Payload(g) ==> Programs(g, region)) <==> g.blockSize % 4 == 0
  {
    hide Programs, Parity, BlockBody;
    if g.blockSize % 4 == 0 {
      forall region: seq<byte> | |region| == Payload(g)
        ensures Programs(g, region)
      {
        WholeBlockPrograms(g, region);
      }
    } else {
      var _ := PayloadThatFails(g);
    }
  }

  /** So of the geometries that flash_driver_init accepts, exactly these have a payload that
      flash_write reports as not written. */
  lemma AcceptedMayFail(address0: nat, address1: nat, pageSize: nat, blockSize: nat)
    requires Accepted(address0, address1, pageSize, blockSize) && BLOCK_HEAD_SIZE + BLOCK_CRC_SIZE <= blockSize
    ensures var g := Geometry(address0, address1, pageSize, blockSize);
            (exists region: seq<byte> :: |region| == Payload(g) && !Programs(g, region)) <==> 1 <= blockSize % 8 <= 3
  {
    hide Programs, HasBitTwo;
    WholeWordsAreNeeded(Geometry(address0, address1, pageSize, blockSize));
    AlignmentIsNotWhatIsChecked(blockSize);
  }

  lemma PayloadThatFails(g: Geometry) returns (region: seq<byte>)
    requires 0 <= Payload(g) && g.blockSize % 4 != 0
    ensures |region| == Payload(g) && !Programs(g, region)
  {
    hide Programs, Parity, BlockBody, Xor;
    if Payload(g) == 0 {
      region := [];
      ParityOfSmallestBody(g);
    } else {
      var zeros := Zeros(Payload(g) - 1);
      region := if Programs(g, zeros + [0]) then zeros + [1] else zeros + [0];
      BodiesThatDiffer(g, 0, 0);
      BodiesThatDiffer(g, 0, 1);
      XorWithZero(Parity(BlockBody(g, zeros + [0])[..g.blockSize - 3]));
      XorStep(0, 1);
      XorOfZeros();
      if Programs(g, zeros + [0]) {
        CutBlockNeedsParity(g, zeros + [0]);
      }
    }
    if Programs(g, region) {
      CutBlockNeedsParity(g, region);
    }
  }

  /** Accepted by flash_driver_init, with pages that are apart and in the memory: 65537 blocks of 16
      bytes.  A write is reported good, and a read does not find it. */
  method WriteThatIsNotFound() returns (pass: bool, wrote: Status, read: Status)
    ensures pass && wrote == Success && read == BlockErr
  {
    var memory := new byte[0x20_0020];
    var store := new Store(memory);
    pass := store.DriverInit(0, 0x10_0010, 0x10_0010, 16);
    assert store.info.BlockNum() == 0x1_0000;
    store.SetEmpty();
    var back;
    WholeBlockPrograms(store.info, Padded(store.info, [1]));
    wrote, read, back := store.WriteThenRead([1], 1);
  }

  /** Accepted by flash_driver_init, with pages that are apart and in the memory; and still a
      write that fails. */
  method WriteThatFails() returns (pass: bool, status: Status)
    ensures pass && status == WriteDataErr
  {
    var memory := new byte[48];
    var store := new Store(memory);
    pass := store.DriverInit(0, 24, 24, 11);
    assert store.info.BlockNum() == 1;
    store.SetEmpty();
    EndsInOne(store.info);
    status := store.Write([1]);
  }

  lemma EndsInOne(g: Geometry)
    requires g.blockSize == 11
    ensures !Programs(g, Padded(g, [1]))
  {
    hide Crc16;
    assert BlockBytes(g, Padded(g, [1]))[8] == BlockBody(g, Padded(g, [1]))[8] == 1;
  }

}
