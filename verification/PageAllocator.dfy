/** PageAllocator: a bump allocator over regions of whole pages obtained from the kernel. */
module PageAllocator {
  import opened Addresses
  import opened Options

  /** `sizeof(PageHeader)`: a pointer and a size. */
  const HEADER_SIZE := 16

  /** A set of pages from one mmap call; its header, at `base`, holds `pages`. */
  datatype Region = Region(base: Address, pages: Address)

  datatype Block = Block(start: int, size: int) {
    function End(): int {
      start + size
    }

    predicate Apart(that: Block) {
      End() <= that.start || that.End() <= start
    }
  }

  /** The allocator's fields. `regions` is the list that starts at `last_`, and 0 stands for a null `current_page_`. */
  datatype Fields = Fields(pageSize: Address, regions: seq<Region>, currentPage: Address, pageOffset: Address)

  /** What getpagesize returns: a C int, and a page has room for more than the header. */
  predicate PlausiblePageSize(pageSize: int) {
    HEADER_SIZE < pageSize < 0x8000_0000
  }

  /** The size in bytes of a number of pages. */
  function Total(pageSize: int, pages: int): int {
    pageSize * pages
  }

  /** All of a region's bytes, as one block. */
  function Bytes(pageSize: int, r: Region): Block {
    Block(r.base, Total(pageSize, r.pages))
  }

  // ---------- Arithmetic on size_t ----------

  function Wrap(x: int): Address {
    x % ADDRESS_SPACE
  }

  lemma WrapSmall(x: int)
    requires 0 <= x < ADDRESS_SPACE
    ensures Wrap(x) == x
  {
  }

  /** The number of pages asked for; the sum in it may wrap. */
  function PagesFor(pageSize: Address, bytes: Address): Address
    requires pageSize > 0
  {
    var sum := Wrap(bytes + HEADER_SIZE + pageSize - 1);
    QuotientBounds(sum, pageSize);
    sum / pageSize
  }

  lemma TimesNegative(d: int, q: int)
    requires 0 < d && q < 0
    ensures d * q <= -d
  {
  }

  lemma TimesGrows(d: int, q: int)
    requires 0 < d && 0 <= q
    ensures q <= d * q
  {
  }

  lemma QuotientBounds(x: int, d: int)
    requires 0 <= x && 0 < d
    ensures 0 <= x / d <= x
    ensures Total(d, x / d) <= x < Total(d, x / d) + d
  {
    var q := x / d;
    assert x == d * q + x % d;
    if q < 0 {
      TimesNegative(d, q);
    } else {
      TimesGrows(d, q);
    }
  }

  /** Rounding up does not wrap. */
  predicate Fits(pageSize: Address, bytes: Address) {
    bytes + HEADER_SIZE + pageSize - 1 < ADDRESS_SPACE
  }

  /** The modular formula for `page_offset_`. */
  function OffsetFor(pageSize: Address, pages: Address, bytes: Address): Address
    requires pageSize > 0
  {
    Wrap(pageSize - Wrap(Wrap(Total(pageSize, pages)) - Wrap(bytes + HEADER_SIZE))) % pageSize
  }

  lemma TotalMinusOne(pageSize: int, pages: int)
    ensures Total(pageSize, pages - 1) == Total(pageSize, pages) - pageSize
    ensures Total(pageSize, 0) == 0
  {
  }

  lemma TotalPositive(pageSize: int, pages: int)
    requires 0 < pageSize
    ensures 0 < Total(pageSize, pages) <==> 0 < pages
    ensures 0 < pages ==> pageSize <= Total(pageSize, pages)
  {
    if pages < 0 {
      TimesNegative(pageSize, pages);
    } else if pages > 0 {
      TimesGrows(pageSize, pages - 1);
      assert pageSize * pages == pageSize * (pages - 1) + pageSize;
    }
  }

  lemma SmallRemainder(x: int, d: int)
    requires 0 <= x <= d && 0 < d
    ensures x % d == if x == d then 0 else x
  {
  }

  /** Without wrapping, the pages are just enough for the header and the bytes, and the offset is where these end in
      the last page, or zero if they fill it. */
  lemma RoundedUp(pageSize: Address, bytes: Address)
    requires PlausiblePageSize(pageSize) && Fits(pageSize, bytes)
    ensures var pages, total := PagesFor(pageSize, bytes), bytes + HEADER_SIZE;
            && pages >= 1
            && total <= Total(pageSize, pages) < total + pageSize
            && Total(pageSize, pages - 1) == Total(pageSize, pages) - pageSize
            && OffsetFor(pageSize, pages, bytes)
               == (if Total(pageSize, pages) == total then 0 else total - Total(pageSize, pages - 1))
  {
    hide Wrap, Total;
    var total := bytes + HEADER_SIZE;
    var sum, pages := total + pageSize - 1, PagesFor(pageSize, bytes);
    WrapSmall(sum);
    QuotientBounds(sum, pageSize);
    TotalPositive(pageSize, pages);
    TotalMinusOne(pageSize, pages);
    var spare := Total(pageSize, pages) - total;
    WrapSmall(total);
    WrapSmall(Total(pageSize, pages));
    WrapSmall(spare);
    WrapSmall(pageSize - spare);
    SmallRemainder(pageSize - spare, pageSize);
  }

  // ---------- One call ----------

  /** `Alloc`; `mapped` is what sys_mmap returns if it is called. */
  function AllocStep(f: Fields, bytes: Address, mapped: Option<Address>): (Fields, Option<Address>)
    requires PlausiblePageSize(f.pageSize)
  {
    if bytes == 0 then
      (f, None)
    else if UsesCurrent(f, bytes) then
      var ret := Wrap(f.currentPage + f.pageOffset);
      var offset := Wrap(f.pageOffset + bytes);
      (if offset == f.pageSize then f.(currentPage := 0, pageOffset := 0) else f.(pageOffset := offset), Some(ret))
    else if mapped.None? then
      (f, None)
    else
      var pages := PagesFor(f.pageSize, bytes);
      var offset := OffsetFor(f.pageSize, pages, bytes);
      var lastPage := Wrap(mapped.value + Total(f.pageSize, Wrap(pages as int - 1)));
      (f.(regions := [Region(mapped.value, pages)] + f.regions,
          currentPage := if offset != 0 then lastPage else 0, pageOffset := offset),
       Some(Wrap(mapped.value + HEADER_SIZE)))
  }

  predicate UsesCurrent(f: Fields, bytes: Address) {
    f.currentPage != 0 && bytes <= Sub(f.pageSize, f.pageOffset)
  }

  /** What the kernel promises: no region of length zero, and otherwise a new region that does not overlap those in
      use, does not start at address zero, and ends inside the address space. */
  predicate KernelAllows(f: Fields, bytes: Address, mapped: Option<Address>)
    requires PlausiblePageSize(f.pageSize)
  {
    mapped.Some? ==>
      var r := Region(mapped.value, PagesFor(f.pageSize, bytes));
      && 0 < r.base && 0 < r.pages && Bytes(f.pageSize, r).End() <= ADDRESS_SPACE
      && forall i :: 0 <= i < |f.regions| ==> Bytes(f.pageSize, r).Apart(Bytes(f.pageSize, f.regions[i]))
  }

  /** What a call does, without the arithmetic of the source: nothing for no bytes; from the current page what fits there, and
      the page is left when that fills it; otherwise the first bytes behind the 16-byte header of the least number of new
      pages, whose last one becomes the current page if any of it is left. */
  ghost predicate Allocated(f: Fields, bytes: Address, mapped: Option<Address>, g: Fields, ret: Option<Address>) {
    if bytes == 0 then
      g == f && ret == None
    else if f.currentPage != 0 && bytes <= f.pageSize - f.pageOffset then
      && ret == Some(f.currentPage + f.pageOffset)
      && g == if bytes == f.pageSize - f.pageOffset then Fields(f.pageSize, f.regions, 0, 0)
              else Fields(f.pageSize, f.regions, f.currentPage, f.pageOffset + bytes)
    else if mapped.None? then
      g == f && ret == None
    else
      && ret == Some(mapped.value + 16) && g.pageSize == f.pageSize && g.regions != []
      && var n := g.regions[0].pages;
         && g.regions == [Region(mapped.value, n)] + f.regions
         && f.pageSize * n - f.pageSize < bytes + 16 <= f.pageSize * n
         && if bytes + 16 == f.pageSize * n then g.currentPage == 0
            else && g.currentPage != 0
                 && g.currentPage + g.pageOffset == mapped.value + 16 + bytes
                 && g.currentPage + g.pageSize == mapped.value + f.pageSize * n
  }

  // ---------- Safety ----------

  /** `b` lies in the region, behind its header. */
  ghost predicate InRegion(pageSize: int, b: Block, r: Region) {
    r.base + HEADER_SIZE <= b.start && b.End() <= Bytes(pageSize, r).End()
  }

  ghost predicate InSomeRegion(f: Fields, b: Block) {
    exists i :: 0 <= i < |f.regions| && InRegion(f.pageSize, b, f.regions[i])
  }

  /** The bytes that the next calls may hand out. */
  function FreeTail(f: Fields): Block {
    if f.currentPage == 0 then Block(0, 0) else Block(f.currentPage + f.pageOffset, f.pageSize - f.pageOffset)
  }

  /** The regions do not overlap, and end inside the address space. */
  ghost predicate RegionsSafe(f: Fields) {
    && (forall i, j :: 0 <= i < j < |f.regions| ==> Bytes(f.pageSize, f.regions[i]).Apart(Bytes(f.pageSize, f.regions[j])))
    && (forall i :: 0 <= i < |f.regions| ==> Bytes(f.pageSize, f.regions[i]).End() <= ADDRESS_SPACE)
  }

  /** The blocks returned so far are not empty, do not overlap, and lie in one region each, behind its header. */
  ghost predicate BlocksSafe(f: Fields, blocks: seq<Block>) {
    && (forall i, j :: 0 <= i < j < |blocks| ==> blocks[i].Apart(blocks[j]))
    && (forall i :: 0 <= i < |blocks| ==> 0 < blocks[i].size && InSomeRegion(f, blocks[i]))
  }

  /** The free tail lies in a region, behind its header, and overlaps no block. */
  ghost predicate TailSafe(f: Fields, blocks: seq<Block>) {
    f.currentPage != 0 ==>
      && 0 < f.pageOffset < f.pageSize
      && InSomeRegion(f, FreeTail(f))
      && forall i :: 0 <= i < |blocks| ==> blocks[i].Apart(FreeTail(f))
  }

  ghost predicate Safe(f: Fields, blocks: seq<Block>) {
    PlausiblePageSize(f.pageSize) && RegionsSafe(f) && BlocksSafe(f, blocks) && TailSafe(f, blocks)
  }

  lemma AddBlock(f: Fields, blocks: seq<Block>, block: Block)
    requires BlocksSafe(f, blocks) && 0 < block.size && InSomeRegion(f, block)
    requires forall i :: 0 <= i < |blocks| ==> blocks[i].Apart(block)
    ensures BlocksSafe(f, blocks + [block])
  {
    hide InSomeRegion, Block.Apart;
  }

  lemma TailApart(f: Fields, blocks: seq<Block>, block: Block)
    requires f.currentPage != 0 ==> 0 < f.pageOffset < f.pageSize && InSomeRegion(f, FreeTail(f))
    requires f.currentPage != 0 ==> forall i :: 0 <= i < |blocks| ==> blocks[i].Apart(FreeTail(f))
    requires f.currentPage != 0 ==> block.Apart(FreeTail(f))
    ensures TailSafe(f, blocks + [block])
  {
    hide InSomeRegion, Block.Apart, FreeTail;
  }

  /** The blocks after a call. */
  function Returned(blocks: seq<Block>, ret: Option<Address>, bytes: Address): seq<Block> {
    if ret.Some? then blocks + [Block(ret.value, bytes)] else blocks
  }

  /** The call, with the wrapping arithmetic worked out. */
  lemma CurrentArithmetic(f: Fields, bytes: Address, mapped: Option<Address>)
    requires PlausiblePageSize(f.pageSize) && 0 < bytes && UsesCurrent(f, bytes)
    requires 0 < f.pageOffset < f.pageSize && FreeTail(f).End() <= ADDRESS_SPACE
    ensures var (g, ret) := AllocStep(f, bytes, mapped);
            && bytes <= FreeTail(f).size && ret == Some(FreeTail(f).start)
            && g == if bytes == FreeTail(f).size then f.(currentPage := 0, pageOffset := 0)
                    else f.(pageOffset := f.pageOffset + bytes)
  {
    hide Wrap;
    WrapSmall(f.currentPage + f.pageOffset);
    WrapSmall(f.pageOffset + bytes);
  }

  lemma SafeAfterCurrent(f: Fields, blocks: seq<Block>, bytes: Address, mapped: Option<Address>)
    requires Safe(f, blocks) && 0 < bytes && UsesCurrent(f, bytes)
    ensures var (g, ret) := AllocStep(f, bytes, mapped); ret.Some? && Safe(g, Returned(blocks, ret, bytes))
  {
    hide Wrap, Total, RegionsSafe, BlocksSafe;
    assert InSomeRegion(f, FreeTail(f));
    var i :| 0 <= i < |f.regions| && InRegion(f.pageSize, FreeTail(f), f.regions[i]);
    RegionEnds(f, i);
    CurrentArithmetic(f, bytes, mapped);
    hide AllocStep, UsesCurrent;
    var (g, ret) := AllocStep(f, bytes, mapped);
    var block := Block(ret.value, bytes);
    SameRegions(f, g, blocks);
    assert InRegion(g.pageSize, block, g.regions[i]);
    assert g.currentPage != 0 ==> InRegion(g.pageSize, FreeTail(g), g.regions[i]);
    hide InRegion;
    AddBlock(g, blocks, block);
    TailApart(g, blocks, block);
  }

  /** Safe allocators do that, unless the rounding wraps. */
  lemma AllocStepAllocates(f: Fields, blocks: seq<Block>, bytes: Address, mapped: Option<Address>)
    requires Safe(f, blocks) && KernelAllows(f, bytes, mapped)
    requires UsesCurrent(f, bytes) || Fits(f.pageSize, bytes)
    ensures var (g, ret) := AllocStep(f, bytes, mapped); Allocated(f, bytes, mapped, g, ret)
  {
    if f.currentPage != 0 {
      TailEnds(f, blocks);
    }
    if 0 < bytes && UsesCurrent(f, bytes) {
      CurrentArithmetic(f, bytes, mapped);
    } else if 0 < bytes && mapped.Some? {
      MapArithmetic(f, bytes, mapped);
      hide Wrap, PagesFor, OffsetFor, KernelAllows;
      RoundedUp(f.pageSize, bytes);
    }
  }

  lemma TailEnds(f: Fields, blocks: seq<Block>)
    requires Safe(f, blocks) && f.currentPage != 0
    ensures 0 < f.pageOffset < f.pageSize && FreeTail(f).End() <= ADDRESS_SPACE
  {
    hide Total, BlocksSafe;
    var i :| 0 <= i < |f.regions| && InRegion(f.pageSize, FreeTail(f), f.regions[i]);
    RegionEnds(f, i);
  }

  lemma RegionEnds(f: Fields, i: nat)
    requires RegionsSafe(f) && i < |f.regions|
    ensures Bytes(f.pageSize, f.regions[i]).End() <= ADDRESS_SPACE
  {
  }

  lemma SameRegions(f: Fields, g: Fields, blocks: seq<Block>)
    requires RegionsSafe(f) && BlocksSafe(f, blocks) && g.regions == f.regions && g.pageSize == f.pageSize
    ensures RegionsSafe(g) && BlocksSafe(g, blocks)
  {
    hide Bytes, InRegion, Block.Apart;
    forall k | 0 <= k < |blocks|
      ensures InSomeRegion(g, blocks[k])
    {
      assert InSomeRegion(f, blocks[k]);
    }
  }

  lemma MapArithmetic(f: Fields, bytes: Address, mapped: Option<Address>)
    requires PlausiblePageSize(f.pageSize) && 0 < bytes && !UsesCurrent(f, bytes)
    requires mapped.Some? && KernelAllows(f, bytes, mapped) && Fits(f.pageSize, bytes)
    ensures var (g, ret) := AllocStep(f, bytes, mapped);
            var r := Region(mapped.value, PagesFor(f.pageSize, bytes));
            var block := Block(r.base + HEADER_SIZE, bytes);
            && ret == Some(block.start) && g.regions == [r] + f.regions && g.pageSize == f.pageSize
            && block.End() <= Bytes(f.pageSize, r).End()
            && (if block.End() == Bytes(f.pageSize, r).End() then g.currentPage == 0
                else && g.currentPage != 0 && 0 < g.pageOffset < g.pageSize
                     && FreeTail(g) == Block(block.End(), Bytes(f.pageSize, r).End() - block.End()))
  {
    var pages := PagesFor(f.pageSize, bytes);
    var r := Region(mapped.value, pages);
    assert Bytes(f.pageSize, r).End() <= ADDRESS_SPACE;
    hide Wrap, Total, UsesCurrent, PagesFor, OffsetFor, KernelAllows;
    RoundedUp(f.pageSize, bytes);
    TotalPositive(f.pageSize, pages);
    hide Fits;
    WrapSmall(pages - 1);
    WrapSmall(mapped.value + Total(f.pageSize, pages - 1));
    WrapSmall(mapped.value + HEADER_SIZE);
  }

  lemma SafeAfterMap(f: Fields, blocks: seq<Block>, bytes: Address, mapped: Option<Address>)
    requires Safe(f, blocks) && 0 < bytes && !UsesCurrent(f, bytes)
    requires mapped.Some? && KernelAllows(f, bytes, mapped) && Fits(f.pageSize, bytes)
    ensures var (g, ret) := AllocStep(f, bytes, mapped); ret.Some? && Safe(g, Returned(blocks, ret, bytes))
  {
    MapArithmetic(f, bytes, mapped);
    var r := Region(mapped.value, PagesFor(f.pageSize, bytes));
    hide Wrap, Total, UsesCurrent, AllocStep, PagesFor, RegionsSafe, BlocksSafe, TailSafe, Fits;
    var (g, ret) := AllocStep(f, bytes, mapped);
    var block := Block(ret.value, bytes);
    RegionsAfterMap(f, g, blocks, r);
    InNewRegion(g, block, r);
    if g.currentPage != 0 {
      InNewRegion(g, FreeTail(g), r);
    }
    hide InSomeRegion, InRegion, KernelAllows;
    AddBlock(g, blocks, block);
    TailApart(g, blocks, block);
  }

  lemma InNewRegion(g: Fields, b: Block, r: Region)
    requires g.regions != [] && g.regions[0] == r && InRegion(g.pageSize, b, r)
    ensures InSomeRegion(g, b)
  {
  }

  /** The blocks are still in their regions, and apart from the new one. */
  lemma RegionsAfterMap(f: Fields, g: Fields, blocks: seq<Block>, r: Region)
    requires RegionsSafe(f) && BlocksSafe(f, blocks) && g.regions == [r] + f.regions && g.pageSize == f.pageSize
    requires Bytes(f.pageSize, r).End() <= ADDRESS_SPACE
    requires forall i :: 0 <= i < |f.regions| ==> Bytes(f.pageSize, r).Apart(Bytes(f.pageSize, f.regions[i]))
    ensures RegionsSafe(g) && BlocksSafe(g, blocks)
    ensures forall i :: 0 <= i < |blocks| ==> blocks[i].Apart(Bytes(f.pageSize, r))
  {
    hide Bytes;
    forall i | 0 <= i < |blocks|
      ensures InSomeRegion(g, blocks[i]) && blocks[i].Apart(Bytes(f.pageSize, r))
    {
      assert InSomeRegion(f, blocks[i]);
      var k :| 0 <= k < |f.regions| && InRegion(f.pageSize, blocks[i], f.regions[k]);
      RegionStart(f.pageSize, f.regions[k]);
      assert g.regions[k + 1] == f.regions[k];
    }
  }

  lemma RegionStart(pageSize: int, r: Region)
    ensures Bytes(pageSize, r).start == r.base
  {
  }

  /** A call keeps everything safe, whatever mmap does, unless it asks for new pages and the rounding wraps. */
  lemma AllocStepSafe(f: Fields, blocks: seq<Block>, bytes: Address, mapped: Option<Address>)
    requires Safe(f, blocks) && KernelAllows(f, bytes, mapped)
    requires UsesCurrent(f, bytes) || Fits(f.pageSize, bytes)
    ensures var (g, ret) := AllocStep(f, bytes, mapped); Safe(g, Returned(blocks, ret, bytes))
  {
    if 0 < bytes && UsesCurrent(f, bytes) {
      SafeAfterCurrent(f, blocks, bytes, mapped);
    } else if 0 < bytes && mapped.Some? {
      SafeAfterMap(f, blocks, bytes, mapped);
    }
  }

  /** When new pages are mapped, the block starts inside them, so it can lie in no other region; and if the rounding
      wrapped, it is too long for them. */
  lemma WrappedBlock(f: Fields, bytes: Address, mapped: Option<Address>)
    requires PlausiblePageSize(f.pageSize) && KernelAllows(f, bytes, mapped)
    requires 0 < bytes && !UsesCurrent(f, bytes) && mapped.Some? && !Fits(f.pageSize, bytes)
    ensures var (g, ret) := AllocStep(f, bytes, mapped);
            var r := Region(mapped.value, PagesFor(f.pageSize, bytes));
            && ret == Some(r.base + HEADER_SIZE) && g.regions == [r] + f.regions && g.pageSize == f.pageSize
            && r.base + HEADER_SIZE < Bytes(f.pageSize, r).End()
            && !InRegion(f.pageSize, Block(ret.value, bytes), r)
  {
    var sum := bytes + HEADER_SIZE + f.pageSize - 1;
    assert Wrap(sum) == sum - ADDRESS_SPACE;
    QuotientBounds(Wrap(sum), f.pageSize);
    hide Wrap, Total;
    TotalPositive(f.pageSize, PagesFor(f.pageSize, bytes));
    var r := Region(mapped.value, PagesFor(f.pageSize, bytes));
    assert Bytes(f.pageSize, r).End() <= ADDRESS_SPACE;
    WrapSmall(mapped.value + HEADER_SIZE);
  }

  lemma NotInOthers(f: Fields, block: Block, r: Region, bytes: Address, mapped: Option<Address>)
    requires PlausiblePageSize(f.pageSize) && KernelAllows(f, bytes, mapped)
    requires mapped.Some? && r == Region(mapped.value, PagesFor(f.pageSize, bytes))
    requires block.start == r.base + HEADER_SIZE < Bytes(f.pageSize, r).End() && 0 < block.size
    ensures !InSomeRegion(f, block)
  {
    hide Total, PagesFor;
    forall i | 0 <= i < |f.regions|
      ensures !InRegion(f.pageSize, block, f.regions[i])
    {
      assert Bytes(f.pageSize, r).Apart(Bytes(f.pageSize, f.regions[i]));
    }
  }

  /** Exactly then: a call that maps new pages keeps everything safe if and only if its rounding does not wrap. */
  lemma SafeExactlyWithoutWrap(f: Fields, blocks: seq<Block>, bytes: Address, mapped: Option<Address>)
    requires Safe(f, blocks) && KernelAllows(f, bytes, mapped)
    requires 0 < bytes && !UsesCurrent(f, bytes) && mapped.Some?
    ensures var (g, ret) := AllocStep(f, bytes, mapped); Safe(g, Returned(blocks, ret, bytes)) <==> Fits(f.pageSize, bytes)
  {
    if Fits(f.pageSize, bytes) {
      SafeAfterMap(f, blocks, bytes, mapped);
    } else {
      WrappedBlock(f, bytes, mapped);
      hide AllocStep, UsesCurrent, PagesFor, InRegion, Fits;
      var (g, ret) := AllocStep(f, bytes, mapped);
      var r, block := g.regions[0], Block(ret.value, bytes);
      NotInOthers(f, block, r, bytes, mapped);
      assert forall i :: 0 < i < |g.regions| ==> g.regions[i] == f.regions[i - 1];
      assert !InSomeRegion(g, block);
      var all := Returned(blocks, ret, bytes);
      assert all[|all| - 1] == block;
    }
  }

  /** The largest request, on a machine with 4096-byte pages: the kernel keeps its promise, one page is mapped, and the
      block is not safe. */
  lemma LargestRequestIsNotSafe()
    ensures var f, bytes, mapped := Fields(0x1000, [], 0, 0), ADDRESS_SPACE - 1, Some(0x1_0000);
            && Safe(f, []) && KernelAllows(f, bytes, mapped)
            && var (g, ret) := AllocStep(f, bytes, mapped);
               ret.Some? && !Safe(g, Returned([], ret, bytes))
  {
    hide Safe;
    var f, bytes: Address, mapped: Option<Address> := Fields(0x1000, [], 0, 0), ADDRESS_SPACE - 1, Some(0x1_0000);
    NothingIsSafe(f);
    assert PagesFor(0x1000, bytes) == 1;
    SafeExactlyWithoutWrap(f, [], bytes, mapped);
  }

  lemma NothingIsSafe(f: Fields)
    requires PlausiblePageSize(f.pageSize) && f.regions == [] && f.currentPage == 0
    ensures Safe(f, [])
  {
  }

  // ---------- Runs ----------

  datatype Request = Request(bytes: Address, mapped: Option<Address>)

  /** The fields and the blocks returned after a run of calls. */
  function Run(f: Fields, blocks: seq<Block>, requests: seq<Request>): (Fields, seq<Block>)
    requires PlausiblePageSize(f.pageSize)
    decreases |requests|
  {
    if requests == [] then
      (f, blocks)
    else
      var (g, ret) := AllocStep(f, requests[0].bytes, requests[0].mapped);
      Run(g, Returned(blocks, ret, requests[0].bytes), requests[1..])
  }

  /** In every call of the run the kernel keeps its promise, and no rounding wraps. */
  ghost predicate Reasonable(f: Fields, requests: seq<Request>)
    requires PlausiblePageSize(f.pageSize)
    decreases |requests|
  {
    requests == []
    || (var r := requests[0];
        && KernelAllows(f, r.bytes, r.mapped)
        && (UsesCurrent(f, r.bytes) || Fits(f.pageSize, r.bytes))
        && Reasonable(AllocStep(f, r.bytes, r.mapped).0, requests[1..]))
  }

  /** Over any run of calls, with any pattern of mmap failures. */
  lemma {:induction false} RunSafe(f: Fields, blocks: seq<Block>, requests: seq<Request>)
    requires Safe(f, blocks) && Reasonable(f, requests)
    ensures var (g, all) := Run(f, blocks, requests); Safe(g, all) && blocks <= all
    decreases |requests|
  {
    hide Safe, KernelAllows, UsesCurrent, Fits, AllocStep;
    SafePageSize(f, blocks);
    if requests != [] {
      var r := requests[0];
      AllocStepSafe(f, blocks, r.bytes, r.mapped);
      var (g, ret) := AllocStep(f, r.bytes, r.mapped);
      SafePageSize(g, Returned(blocks, ret, r.bytes));
      RunSafe(g, Returned(blocks, ret, r.bytes), requests[1..]);
    }
  }

  lemma SafePageSize(f: Fields, blocks: seq<Block>)
    requires Safe(f, blocks)
    ensures PlausiblePageSize(f.pageSize)
  {
  }

  // ---------- The class ----------

  class PageAllocator {
    const pageSize: Address
    var regions: seq<Region>
    var currentPage: Address
    var pageOffset: Address
    /** The blocks returned so far. */
    ghost var blocks: seq<Block>

    constructor (pageSize: Address)
      requires PlausiblePageSize(pageSize)
      ensures this.pageSize == pageSize && regions == [] && currentPage == 0 && pageOffset == 0 && blocks == []
      ensures Safe(Now(), blocks)
    {
      this.pageSize := pageSize;
      regions, currentPage, pageOffset, blocks := [], 0, 0, [];
    }

    function Now(): Fields
      reads this
    {
      Fields(pageSize, regions, currentPage, pageOffset)
    }

    /** The result is None for a null pointer. */
    method Alloc(bytes: Address, mapped: Option<Address>) returns (ret: Option<Address>)
      requires Safe(Now(), blocks) && KernelAllows(Now(), bytes, mapped)
      modifies this
      ensures (Now(), ret) == AllocStep(old(Now()), bytes, mapped)
      ensures blocks == Returned(old(blocks), ret, bytes)
      ensures old(UsesCurrent(Now(), bytes)) || Fits(pageSize, bytes) ==> Safe(Now(), blocks)
      ensures bytes + pageSize + 15 < 0x1_0000_0000_0000_0000 ==> Allocated(old(Now()), bytes, mapped, Now(), ret)
    {
      hide Safe, KernelAllows, PagesFor, OffsetFor, Wrap, Total, Allocated;
      SafePageSize(Now(), blocks);
      if UsesCurrent(Now(), bytes) || Fits(pageSize, bytes) {
        AllocStepSafe(Now(), blocks, bytes, mapped);
        AllocStepAllocates(Now(), blocks, bytes, mapped);
      }
      if bytes == 0 {
        return None;
      }
      if currentPage != 0 && Sub(pageSize, pageOffset) >= bytes {
        ret := Some(Wrap(currentPage + pageOffset));
        pageOffset := Wrap(pageOffset + bytes);
        if pageOffset == pageSize {
          pageOffset := 0;
          currentPage := 0;
        }
        blocks := blocks + [Block(ret.value, bytes)];
        return;
      }
      var pages := PagesFor(pageSize, bytes);
      var page := GetNPages(pages, mapped);
      if page.None? {
        return None;
      }
      pageOffset := OffsetFor(pageSize, pages, bytes);
      currentPage := if pageOffset != 0 then Wrap(page.value + Total(pageSize, Wrap(pages as int - 1))) else 0;
      ret := Some(Wrap(page.value + HEADER_SIZE));
      blocks := blocks + [Block(ret.value, bytes)];
    }

    /** Map pages and put their header at the front of the list. */
    method GetNPages(pages: Address, mapped: Option<Address>) returns (page: Option<Address>)
      modifies this`regions
      ensures page == mapped
      ensures regions == if mapped.Some? then [Region(mapped.value, pages)] + old(regions) else old(regions)
    {
      if mapped.None? {
        return None;
      }
      regions := [Region(mapped.value, pages)] + regions;
      page := mapped;
    }

    /** Whether some region holds the address. */
    method OwnsPointer(p: Address) returns (owns: bool)
      ensures owns <==> exists i :: 0 <= i < |regions| && regions[i].base <= p < Bytes(pageSize, regions[i]).End()
    {
      var header := 0;
      while header < |regions|
        invariant header <= |regions|
        invariant forall i :: 0 <= i < header ==> !(regions[i].base <= p < Bytes(pageSize, regions[i]).End())
      {
        var current := regions[header].base;
        if p >= current && p < current + regions[header].pages * pageSize {
          return true;
        }
        header := header + 1;
      }
      return false;
    }

    /** The destructor: unmap every region once. The lengths are those that were mapped. */
    method FreeAll() returns (unmapped: seq<Block>)
      ensures |unmapped| == |regions| && forall i :: 0 <= i < |regions| ==> unmapped[i] == Bytes(pageSize, regions[i])
    {
      unmapped := [];
      var cur := 0;
      while cur < |regions|
        invariant cur == |unmapped| <= |regions|
        invariant forall i :: 0 <= i < cur ==> unmapped[i] == Bytes(pageSize, regions[i])
      {
        unmapped := unmapped + [Block(regions[cur].base, regions[cur].pages * pageSize)];
        cur := cur + 1;
      }
    }
  }
}
