/** The page allocator of memory_manager.cpp as functions on span lists, with the
    wrapped uint32_t arithmetic and the cast to `int` of the gap test. */
module AllocatorSpec {
  import opened AddressSpace

  const FIRST_BLOCK: int := 0x6000_0000
  const NO_MEMORY: int := 0xFFFF_FFFF

  /** `(size + 0x1000) & ~0xFFF` */
  function MemorySize(size: Address): Address {
    PageFloor(Wrap(size + 0x1000))
  }

  /** `(end + 1 + 0x1000) & ~0xFFF` */
  function NextPage(end: Address): Address {
    PageFloor(Wrap(Wrap(end + 1) + 0x1000))
  }

  /** The `empty_paged_block >= 0` test, in uint32_t and then `int`. */
  predicate GapAccepted(cur: Span, next: Span, memorySize: Address) {
    AsInt32(Wrap(Wrap(Wrap(next.start - 0x1000) - NextPage(cur.end)) - memorySize)) >= 0
  }

  /** What the loop leaves in `top_address`, from region `i` on. */
  function Search(spans: seq<Span>, i: nat, top: Address, memorySize: Address): Address
    requires i <= |spans|
    decreases |spans| - i
  {
    if i == |spans| then top
    else
      var top' := if top < spans[i].end then NextPage(spans[i].end) else top;
      if i + 1 < |spans| && GapAccepted(spans[i], spans[i + 1], memorySize) then NextPage(spans[i].end)
      else Search(spans, i + 1, top', memorySize)
  }

  /** (address, memory_size), or (0xFFFFFFFF, 0xFFFFFFFF). */
  function MoreMemory(spans: seq<Span>, size: Address): (Address, Address) {
    if spans == [] then (FIRST_BLOCK, MemorySize(size))
    else
      var top := Search(spans, 0, 0, MemorySize(size));
      if top != 0 then (top, MemorySize(size)) else (NO_MEMORY, NO_MEMORY)
  }

  /** The region `map_memory` is asked for. */
  function Block(address: Address, memorySize: Address): Span {
    Span(address, Wrap(Wrap(address + memorySize) - 1))
  }

  /** Region list after an allocation, and the block if one was found. */
  function Allocate(spans: seq<Span>, size: Address): (seq<Span>, Address, Address) {
    var (address, memorySize) := MoreMemory(spans, size);
    if address == NO_MEMORY then (spans, NO_MEMORY, NO_MEMORY)
    else (Insert(spans, Block(address, memorySize)), address, memorySize)
  }

  /** `allocate_stack` returns the first address past the block. */
  function AllocateStack(spans: seq<Span>, size: Address): (seq<Span>, Address) {
    var (spans', address, memorySize) := Allocate(spans, size);
    (spans', if address == NO_MEMORY then 0 else Wrap(address + memorySize))
  }

  /** `allocate_heap` returns the first address of the block. */
  function AllocateHeap(spans: seq<Span>, size: Address): (seq<Span>, Address) {
    var (spans', address, memorySize) := Allocate(spans, size);
    (spans', if address == NO_MEMORY then 0 else address)
  }

  // ---------------------------------------------------------------- the gap test

  /** Bytes left over between two regions once the block, a guard page before it
      and a guard page after it are taken out. Exact, not wrapped. */
  function Slack(cur: Span, next: Span, memorySize: int): int {
    next.start - (cur.end + 1) - 2 * PAGE - memorySize
  }

  /** Largest request for which the wrapped test is sound. */
  predicate SizeOk(size: Address) {
    size < 0x7FFF_E000
  }

  lemma MemorySizeExact(size: Address)
    requires SizeOk(size)
    ensures size < MemorySize(size) <= size + PAGE
    ensures MemorySize(size) % PAGE == 0
    ensures PAGE <= MemorySize(size) <= 0x8000_0000 - 2 * PAGE
  {
  }

  lemma WrapDifference(x: int, y: int)
    ensures Wrap(Wrap(x) - y) == Wrap(x - y)
  {
    var q := x / LIMIT;
    assert Wrap(x) == x - q * LIMIT;
  }

  lemma WrapSigned(x: int)
    requires -0x8000_0000 <= x < LIMIT
    ensures AsInt32(Wrap(x)) >= 0 <==> 0 <= x < 0x8000_0000
  {
  }

  lemma NextPageExact(end: Address)
    requires end % PAGE == PAGE - 1 && end + 1 + PAGE < LIMIT
    ensures NextPage(end) == end + 1 + PAGE
  {
    assert (end + 1 + PAGE) % PAGE == 0;
  }

  /** The wrapped, sign-cast test accepts a gap exactly when the exact slack is
      in [0, 2^31). */
  lemma GapTest(cur: Span, next: Span, memorySize: Address)
    requires cur.end % PAGE == PAGE - 1 && cur.end < next.start
    requires 0 < memorySize <= 0x8000_0000 - 2 * PAGE
    ensures GapAccepted(cur, next, memorySize) <==> 0 <= Slack(cur, next, memorySize) < 0x8000_0000
  {
    if cur.end + 1 + PAGE < LIMIT {
      NextPageExact(cur.end);
      WrapDifference(next.start - 0x1000, NextPage(cur.end));
      WrapDifference(next.start - 0x1000 - NextPage(cur.end), memorySize);
      WrapSigned(Slack(cur, next, memorySize));
    } else {
      LastPageRefused(cur, next, memorySize);
    }
  }

  /** Before the last page the next page wraps to 0, and the test refuses. */
  lemma LastPageRefused(cur: Span, next: Span, memorySize: Address)
    requires cur.end % PAGE == PAGE - 1 && cur.end < next.start && cur.end + 1 + PAGE >= LIMIT
    requires 0 < memorySize <= 0x8000_0000 - 2 * PAGE
    ensures !GapAccepted(cur, next, memorySize) && Slack(cur, next, memorySize) < 0
  {
    assert cur.end == 0xFFFF_EFFF;
    assert NextPage(cur.end) == 0;
    assert Wrap(next.start - 0x1000) == next.start - 0x1000;
  }

  predicate Acceptable(spans: seq<Span>, k: int, memorySize: int) {
    0 <= k < |spans| - 1 && 0 <= Slack(spans[k], spans[k + 1], memorySize) < 0x8000_0000
  }

  /** The lowest region from `i` on that is followed by a gap the allocator takes,
      or `|spans|`. */
  function FirstGap(spans: seq<Span>, i: nat, memorySize: int): (k: nat)
    requires i <= |spans|
    ensures i <= k <= |spans|
    ensures k < |spans| ==> Acceptable(spans, k, memorySize)
    ensures forall j :: i <= j < k ==> !Acceptable(spans, j, memorySize)
    decreases |spans| - i
  {
    if i == |spans| || Acceptable(spans, i, memorySize) then i else FirstGap(spans, i + 1, memorySize)
  }

  /** The last region leaves a representable address one guard page after it. */
  predicate TopRepresentable(spans: seq<Span>) {
    spans != [] ==> spans[|spans| - 1].end + 1 + PAGE < LIMIT
  }

  lemma AtRegion(spans: seq<Span>, i: nat, memorySize: Address)
    requires Layout(spans) && i < |spans|
    requires 0 < memorySize <= 0x8000_0000 - 2 * PAGE
    ensures i + 1 < |spans| ==>
              (GapAccepted(spans[i], spans[i + 1], memorySize) <==> Acceptable(spans, i, memorySize))
  {
    if i + 1 < |spans| {
      LayoutOrder(spans, i, i + 1);
      GapTest(spans[i], spans[i + 1], memorySize);
    }
  }

  /** The page after the guard page of region `i`, when it is below 2^32. */
  lemma PageAfter(spans: seq<Span>, i: nat)
    requires Layout(spans) && i < |spans| && (TopRepresentable(spans) || spans[i].end + 1 + PAGE < LIMIT)
    ensures NextPage(spans[i].end) == spans[i].end + 1 + PAGE
    ensures (spans[i].end + 1 + PAGE) % PAGE == 0
  {
    if i < |spans| - 1 && TopRepresentable(spans) {
      LayoutOrder(spans, i, |spans| - 1);
    }
    NextPageExact(spans[i].end);
  }

  /** With an acceptable gap ahead, the search stops at the lowest one. */
  lemma {:induction false} SearchTakesLowestGap(spans: seq<Span>, i: nat, top: Address, memorySize: Address)
    requires Layout(spans) && i <= |spans|
    requires 0 < memorySize <= 0x8000_0000 - 2 * PAGE
    requires FirstGap(spans, i, memorySize) < |spans|
    ensures Search(spans, i, top, memorySize) == spans[FirstGap(spans, i, memorySize)].end + 1 + PAGE
    decreases |spans| - i
  {
    AtRegion(spans, i, memorySize);
    if Acceptable(spans, i, memorySize) {
      PageAfter(spans, i);
    } else {
      SearchTakesLowestGap(spans, i + 1, if top < spans[i].end then NextPage(spans[i].end) else top, memorySize);
    }
  }

  /** `top` is page aligned and past the first `i` regions, by exactly one guard page
      when the regions are themselves kept apart by guard pages. */
  predicate PastRegions(spans: seq<Span>, i: nat, top: int)
    requires i <= |spans|
  {
    && top % PAGE == 0
    && (forall j :: 0 <= j < i ==> spans[j].end < top)
    && (if i == 0 then top == 0 else top <= spans[i - 1].end + 1 + PAGE)
    && (i > 0 && GuardPages(spans) ==> top == spans[i - 1].end + 1 + PAGE)
  }

  /** Without one, the search ends past every region. Page-ended regions make the
      `top_address < end` test right even when regions touch. */
  lemma {:induction false} SearchGoesOnTop(spans: seq<Span>, i: nat, top: Address, memorySize: Address)
    requires Layout(spans) && TopRepresentable(spans) && i <= |spans|
    requires 0 < memorySize <= 0x8000_0000 - 2 * PAGE
    requires FirstGap(spans, i, memorySize) == |spans|
    requires PastRegions(spans, i, top)
    ensures PastRegions(spans, |spans|, Search(spans, i, top, memorySize))
    decreases |spans| - i
  {
    if i < |spans| {
      AtRegion(spans, i, memorySize);
      PageAfter(spans, i);
      var top' := if top < spans[i].end then NextPage(spans[i].end) else top;
      AdvancePast(spans, i, top, top');
      SearchGoesOnTop(spans, i + 1, top', memorySize);
    }
  }

  lemma AlignedPast(end: Address, top: Address, top': int)
    requires end % PAGE == PAGE - 1 && top % PAGE == 0
    requires top' == if top < end then end + 1 + PAGE else top
    ensures top' % PAGE == 0 && end < top' && top <= top'
  {
    assert (end + 1 + PAGE) % PAGE == 0;
  }

  lemma AdvancePast(spans: seq<Span>, i: nat, top: Address, top': int)
    requires Layout(spans) && i < |spans| && PastRegions(spans, i, top)
    requires top' == if top < spans[i].end then spans[i].end + 1 + PAGE else top
    ensures PastRegions(spans, i + 1, top')
  {
    assert spans[i].end % PAGE == PAGE - 1 && spans[i].start <= spans[i].end;
    if i > 0 {
      LayoutOrder(spans, i - 1, i);
      assert GuardPages(spans) ==> spans[i - 1].end + 1 + PAGE <= spans[i].start;
    }
    hide Layout, GuardPages;
    AlignedPast(spans[i].end, top, top');
    forall j | 0 <= j < i ensures spans[j].end < top' {}
  }

  // ---------------------------------------------------------------- one allocation

  /** The address space suffices: a gap is free, or the block fits past the last region. */
  predicate Room(spans: seq<Span>, size: Address) {
    && SizeOk(size)
    && (spans != [] && FirstGap(spans, 0, MemorySize(size)) == |spans| ==>
          spans[|spans| - 1].end + 1 + PAGE + MemorySize(size) <= LIMIT)
  }

  lemma BlockExact(address: Address, memorySize: Address)
    requires 0 < memorySize && address + memorySize <= LIMIT
    requires address % PAGE == 0 && memorySize % PAGE == 0
    ensures Block(address, memorySize) == Span(address, address + memorySize - 1)
    ensures (address + memorySize - 1) % PAGE == PAGE - 1
  {
    WrapDifference(address + memorySize, 1);
  }

  /** The block goes into the lowest acceptable gap, else past every region; it is
      page aligned, meets no region, and does not wrap. */
  lemma MoreMemoryPlaces(spans: seq<Span>, size: Address)
    requires Layout(spans) && Room(spans, size)
    ensures var (address, memorySize) := MoreMemory(spans, size);
            && memorySize == MemorySize(size)
            && address % PAGE == 0 && 0 < address && address + memorySize <= LIMIT
            && Block(address, memorySize) == Span(address, address + memorySize - 1)
            && (address + memorySize - 1) % PAGE == PAGE - 1
            && ApartFromAll(spans, Block(address, memorySize))
            && var k := FirstGap(spans, 0, memorySize);
            if k < |spans| then
              && address == spans[k].end + 1 + PAGE
              && address + memorySize + PAGE <= spans[k + 1].start
            else spans != [] ==> PastRegions(spans, |spans|, address)
  {
    hide Search, Block, NextPage, GapAccepted, Layout, MemorySize, GuardPages, Slack;
    var memorySize := MemorySize(size);
    MemorySizeExact(size);
    if spans != [] {
      var k := FirstGap(spans, 0, memorySize);
      if k < |spans| {
        SearchTakesLowestGap(spans, 0, 0, memorySize);
        GapHoldsBlock(spans, k, memorySize);
        PageAfter(spans, k);
      } else {
        SearchGoesOnTop(spans, 0, 0, memorySize);
        assert spans[0].end < Search(spans, 0, 0, memorySize);
        ApartAbove(spans, Search(spans, 0, 0, memorySize));
      }
    }
    BlockExact(MoreMemory(spans, size).0, memorySize);
  }

  lemma ApartAbove(spans: seq<Span>, top: Address)
    requires PastRegions(spans, |spans|, top)
    ensures forall end: Address :: ApartFromAll(spans, Span(top, end))
  {
  }

  /** An acceptable gap holds the block, the guard page before it and one after it. */
  lemma GapHoldsBlock(spans: seq<Span>, k: nat, memorySize: Address)
    requires Layout(spans) && Acceptable(spans, k, memorySize) && 0 < memorySize
    ensures var address := spans[k].end + 1 + PAGE;
            && address + memorySize + PAGE <= spans[k + 1].start
            && ApartFromAll(spans, Span(address, address + memorySize - 1))
            && forall j :: k < j < |spans| ==> spans[k + 1].start <= spans[j].start
  {
    forall j | 0 <= j < |spans|
      ensures if j <= k then spans[j].end <= spans[k].end else spans[k + 1].start <= spans[j].start
    {
      if j > k + 1 { LayoutOrder(spans, k + 1, j); }
    }
  }

  /** Every allocation keeps the layout and the guard pages, in both branches. */
  lemma AllocateKeepsLayout(spans: seq<Span>, size: Address)
    requires Layout(spans) && Room(spans, size)
    ensures var (spans', address, memorySize) := Allocate(spans, size);
            && address != NO_MEMORY
            && Layout(spans')
            && (GuardPages(spans) ==> GuardPages(spans'))
  {
    MemorySizeExact(size);
    MoreMemoryPlaces(spans, size);
    var (address, memorySize) := MoreMemory(spans, size);
    var block := Block(address, memorySize);
    InsertKeepsLayout(spans, block);
    if GuardPages(spans) {
      BlockIsGuarded(spans, size);
      InsertKeepsGuards(spans, block);
    }
  }

  lemma BlockIsGuarded(spans: seq<Span>, size: Address)
    requires Layout(spans) && Room(spans, size) && GuardPages(spans)
    ensures var (address, memorySize) := MoreMemory(spans, size);
            LeavesGuards(spans, Block(address, memorySize))
  {
    MemorySizeExact(size);
    MoreMemoryPlaces(spans, size);
    var (address, memorySize) := MoreMemory(spans, size);
    var k := FirstGap(spans, 0, memorySize);
    if k < |spans| {
      GapHoldsBlock(spans, k, memorySize);
      forall i | 0 <= i < |spans|
        ensures if i <= k then spans[i].end <= spans[k].end
                else address + memorySize + PAGE <= spans[i].start <= spans[i].end
      {}
    } else if spans != [] {
      var last := |spans| - 1;
      forall i | 0 <= i < |spans| ensures spans[i].end <= spans[last].end {}
    }
  }

  // ---------------------------------------------------------------- without room

  /** What the first `i` regions leave in `top_address` when no gap is taken. */
  function TopAfter(spans: seq<Span>, i: nat): (top: Address)
    requires i <= |spans|
    ensures top % PAGE == 0
  {
    if i == 0 then 0
    else
      var top := TopAfter(spans, i - 1);
      if top < spans[i - 1].end then NextPage(spans[i - 1].end) else top
  }

  lemma {:induction false} SearchWithoutGap(spans: seq<Span>, i: nat, memorySize: Address)
    requires Layout(spans) && i <= |spans|
    requires 0 < memorySize <= 0x8000_0000 - 2 * PAGE
    requires FirstGap(spans, i, memorySize) == |spans|
    ensures Search(spans, i, TopAfter(spans, i), memorySize) == TopAfter(spans, |spans|)
    decreases |spans| - i
  {
    hide Layout, NextPage, GapAccepted, Acceptable;
    if i < |spans| {
      AtRegion(spans, i, memorySize);
      SearchWithoutGap(spans, i + 1, memorySize);
    }
  }

  predicate NoGap(spans: seq<Span>, size: Address) {
    spans != [] && FirstGap(spans, 0, MemorySize(size)) == |spans|
  }

  /** When no gap is taken, the address on top is 0, and the request refused, or the block
      there ends below 2^32 and meets no region. */
  predicate Placeable(spans: seq<Span>, size: Address) {
    && SizeOk(size)
    && (NoGap(spans, size) ==>
          var top := TopAfter(spans, |spans|);
          top == 0 || (top + MemorySize(size) <= LIMIT && ApartFromAll(spans, Span(top, top + MemorySize(size) - 1))))
  }

  lemma MoreMemoryOnTop(spans: seq<Span>, size: Address)
    requires Layout(spans) && SizeOk(size) && NoGap(spans, size)
    ensures var top := TopAfter(spans, |spans|);
            MoreMemory(spans, size) == if top == 0 then (NO_MEMORY, NO_MEMORY) else (top, MemorySize(size))
  {
    hide Layout, MemorySize, TopAfter, Search, FirstGap;
    MemorySizeExact(size);
    NothingYet(spans);
    SearchWithoutGap(spans, 0, MemorySize(size));
  }

  lemma NothingYet(spans: seq<Span>)
    ensures TopAfter(spans, 0) == 0
  {
  }

  /** An allocation, with room or without, keeps the layout exactly when it is placeable. */
  lemma AllocateKeepsLayoutIff(spans: seq<Span>, size: Address)
    requires Layout(spans) && SizeOk(size)
    ensures Layout(Allocate(spans, size).0) <==> Placeable(spans, size)
  {
    hide Layout, MemorySize, TopAfter, Search, FirstGap, MoreMemory, Insert, Block, ApartFromAll;
    MemorySizeExact(size);
    if NoGap(spans, size) {
      MoreMemoryOnTop(spans, size);
      var top, memorySize := TopAfter(spans, |spans|), MemorySize(size);
      InsertKeepsLayoutIff(spans, Block(top, memorySize));
      if top + memorySize <= LIMIT {
        BlockExact(top, memorySize);
      } else {
        BlockWraps(top, memorySize);
      }
    } else {
      AllocateKeepsLayout(spans, size);
    }
  }

  lemma BlockWraps(address: Address, memorySize: Address)
    requires address + memorySize > LIMIT
    ensures Block(address, memorySize).end < Block(address, memorySize).start
  {
    WrapDifference(address + memorySize, 1);
    assert Wrap(address + memorySize - 1) == address + memorySize - 1 - LIMIT;
  }

  /** What is asked for without room. Under a region that ends the address space it is
      placed in page 1, wherever the regions are; below an empty last page it is refused,
      unless the region before already left `top_address` in that page; otherwise it is
      placed past every region. */
  lemma WithoutRoom(spans: seq<Span>, size: Address)
    requires Layout(spans) && SizeOk(size) && !Room(spans, size)
    ensures spans != []
    ensures var last := spans[|spans| - 1].end;
            var address := MoreMemory(spans, size).0;
            if last == LIMIT - 1 then address == PAGE
            else if last == LIMIT - 1 - PAGE && TopAfter(spans, |spans| - 1) < last then address == NO_MEMORY
            else last < address && address + MemorySize(size) + PAGE > LIMIT
  {
    hide MoreMemory, FirstGap, MemorySize;
    MoreMemoryOnTop(spans, size);
    var last, top := spans[|spans| - 1].end, TopAfter(spans, |spans| - 1);
    assert last % PAGE == PAGE - 1;
    hide Layout;
    TopOverLast(last, top);
  }

  lemma TopOverLast(last: Address, top: Address)
    requires last % PAGE == PAGE - 1 && top % PAGE == 0
    ensures last == LIMIT - 1 ==> top < last && NextPage(last) == PAGE
    ensures last == LIMIT - 1 - PAGE ==> NextPage(last) == 0
    ensures last < LIMIT - 1 - PAGE ==> NextPage(last) == last + 1 + PAGE
    ensures top >= last ==> top > last
  {
    if last < LIMIT - 1 - PAGE {
      assert last + 1 + PAGE < LIMIT;
      NextPageExact(last);
    }
  }

  /** When the last region is one page right after another, `top_address` already points
      past it, and a block on top is placed without a guard page. */
  lemma TouchingLosesGuard(spans: seq<Span>, size: Address)
    requires Layout(spans) && Room(spans, size) && NoGap(spans, size) && |spans| >= 2
    requires var last := |spans| - 1;
             && spans[last].start == spans[last - 1].end + 1 && spans[last].end == spans[last - 1].end + 0x1000
             && TopAfter(spans, last - 1) < spans[last - 1].end
    ensures MoreMemory(spans, size).0 == spans[|spans| - 1].end + 1
  {
    hide FirstGap, MemorySize, MoreMemory;
    MoreMemoryOnTop(spans, size);
    var end := spans[|spans| - 2].end;
    assert end % PAGE == PAGE - 1;
    MemorySizeExact(size);
    NextPageExact(end);
  }

  // ---------------------------------------------------------------- how far the gap test goes

  /** For this request size, no pair of regions makes the wrapped test take a gap
      that cannot hold `size` bytes and a guard page on either side. */
  ghost predicate GapTestSound(size: Address) {
    forall cur: Span, next: Span ::
      && Layout([cur, next])
      && GapAccepted(cur, next, MemorySize(size))
      ==> cur.end + 1 + 2 * PAGE + size <= next.start
  }

  /** `SizeOk` is the exact bound: one byte more and some gap is wrongly taken. */
  lemma GapTestSoundIff(size: Address)
    ensures GapTestSound(size) <==> SizeOk(size)
  {
    if SizeOk(size) {
      MemorySizeExact(size);
      forall cur: Span, next: Span |
        && Layout([cur, next])
        && GapAccepted(cur, next, MemorySize(size))
        ensures cur.end + 1 + 2 * PAGE + size <= next.start
      {
        LayoutOrder([cur, next], 0, 1);
        assert [cur, next][0] == cur && [cur, next][1] == next;
        GapTest(cur, next, MemorySize(size));
      }
    } else {
      var memorySize := MemorySize(size);
      var start := if memorySize == 0 then 0x3000 else if memorySize == 0xFFFF_F000 then 0x2000 else 0x1000;
      OversizeTaken(size, start);
      assert Layout([Span(0, 0xFFF), Span(start, start + 0xFFF)]);
    }
  }

  lemma OversizeTaken(size: Address, start: Address)
    requires !SizeOk(size)
    requires start == var m := MemorySize(size); if m == 0 then 0x3000 else if m == 0xFFFF_F000 then 0x2000 else 0x1000
    ensures GapAccepted(Span(0, 0xFFF), Span(start, start + 0xFFF), MemorySize(size))
  {
    var m := MemorySize(size);
    MemorySizeOversize(size);
    hide MemorySize;
    assert NextPage(0xFFF) == 0x2000;
    hide NextPage;
    if m != 0 && m != 0xFFFF_F000 {
      WrapDifference(start - 0x1000, 0x2000);
      assert Wrap(start - 0x1000) == 0;
      OversizeWraps(m);
    }
  }

  lemma MemorySizeOversize(size: Address)
    requires !SizeOk(size)
    ensures var m := MemorySize(size); m % PAGE == 0 && (m == 0 || 0x7FFF_F000 <= m <= 0xFFFF_F000)
  {
    if size < 0xFFFF_F000 {
      assert Wrap(size + 0x1000) == size + 0x1000;
      hide Wrap;
    } else {
      assert Wrap(size + 0x1000) == size - 0xFFFF_F000;
      hide Wrap;
      assert PageFloor(size - 0xFFFF_F000) == 0;
    }
  }

  lemma OversizeWraps(m: Address)
    requires 0x7FFF_F000 <= m < 0xFFFF_F000 && m % PAGE == 0
    ensures AsInt32(Wrap(Wrap(0 - 0x2000) - m)) >= 0
  {
    assert m <= 0xFFFF_E000;
    assert Wrap(0 - 0x2000) == 0xFFFF_E000;
    assert Wrap(0xFFFF_E000 - m) == 0xFFFF_E000 - m;
  }

  /** A gap with 2^31 or more bytes to spare is passed over: the block goes on top. */
  lemma HugeGapPassedOver()
    ensures var spans := [Span(0, 0xFFF), Span(0x9000_0000, 0x9000_0FFF)];
            && Layout(spans)
            && Slack(spans[0], spans[1], MemorySize(0x1000)) >= 0
            && MoreMemory(spans, 0x1000) == (0x9000_2000, 0x2000)
  {
    var spans := [Span(0, 0xFFF), Span(0x9000_0000, 0x9000_0FFF)];
    HugeGapRefused();
    hide GapAccepted, NextPage;
    assert Search(spans, 2, 0x9000_2000, 0x2000) == 0x9000_2000;
    assert Search(spans, 1, 0x2000, 0x2000) == 0x9000_2000;
  }

  lemma HugeGapRefused()
    ensures NextPage(0xFFF) == 0x2000 && NextPage(0x9000_0FFF) == 0x9000_2000
    ensures !GapAccepted(Span(0, 0xFFF), Span(0x9000_0000, 0x9000_0FFF), 0x2000)
  {
  }

  // ---------------------------------------------------------------- runs

  /** The calls that change the region list. */
  datatype Request =
    | MapAt(span: Span)
    | StackFor(size: Address)
    | HeapFor(size: Address)

  function Serve(spans: seq<Span>, request: Request): seq<Span> {
    match request
    case MapAt(span) => Insert(spans, span)
    case StackFor(size) => AllocateStack(spans, size).0
    case HeapFor(size) => AllocateHeap(spans, size).0
  }

  /** What the loader guarantees of its own mappings, and what an allocation needs: with
      less, it does not keep the layout. */
  predicate Admissible(spans: seq<Span>, request: Request) {
    match request
    case MapAt(span) => span.start <= span.end && span.end % PAGE == PAGE - 1 && ApartFromAll(spans, span)
    case StackFor(size) => Placeable(spans, size)
    case HeapFor(size) => Placeable(spans, size)
  }

  predicate Refused(spans: seq<Span>, request: Request) {
    !request.MapAt? && MoreMemory(spans, request.size).0 == NO_MEMORY
  }

  /** A mapping that keeps a page free on each side. Allocations with room always do. */
  predicate KeepsGuards(spans: seq<Span>, request: Request) {
    if request.MapAt? then GuardPages(Insert(spans, request.span))
    else Room(spans, request.size) || Refused(spans, request)
  }

  /** The requests along a run that are not refused. */
  function Accepted(spans: seq<Span>, requests: seq<Request>): nat
    decreases |requests|
  {
    if requests == [] then 0
    else (if Refused(spans, requests[0]) then 0 else 1) + Accepted(Serve(spans, requests[0]), requests[1..])
  }

  function ServeAll(spans: seq<Span>, requests: seq<Request>): seq<Span>
    decreases |requests|
  {
    if requests == [] then spans else ServeAll(Serve(spans, requests[0]), requests[1..])
  }

  predicate AdmissibleRun(spans: seq<Span>, requests: seq<Request>)
    decreases |requests|
  {
    requests != [] ==>
      && Admissible(spans, requests[0])
      && AdmissibleRun(Serve(spans, requests[0]), requests[1..])
  }

  predicate GuardedRun(spans: seq<Span>, requests: seq<Request>)
    decreases |requests|
  {
    requests != [] ==>
      && KeepsGuards(spans, requests[0])
      && GuardedRun(Serve(spans, requests[0]), requests[1..])
  }

  /** Over every run the region list stays sorted, disjoint and page-ended, no region
      is lost, guard pages survive, and no address changes the region that holds it. */
  lemma {:induction false} RunKeepsLayout(spans: seq<Span>, requests: seq<Request>)
    requires Layout(spans) && AdmissibleRun(spans, requests)
    ensures var final := ServeAll(spans, requests);
            && Layout(final)
            && (GuardPages(spans) && GuardedRun(spans, requests) ==> GuardPages(final))
            && (forall x :: x in spans ==> x in final)
            && |final| == |spans| + Accepted(spans, requests)
            && SameLookup(spans, final)
    decreases |requests|
  {
    if requests != [] {
      var next := Serve(spans, requests[0]);
      ServeKeepsLayout(spans, requests[0]);
      RunKeepsLayout(next, requests[1..]);
    }
  }

  lemma ServeKeepsLayout(spans: seq<Span>, request: Request)
    requires Layout(spans) && Admissible(spans, request)
    ensures var next := Serve(spans, request);
            && Layout(next)
            && (GuardPages(spans) && KeepsGuards(spans, request) ==> GuardPages(next))
            && (forall x :: x in spans ==> x in next)
            && |next| == |spans| + (if Refused(spans, request) then 0 else 1)
            && SameLookup(spans, next)
  {
    hide Layout, GuardPages, Room, MemorySize, Placeable, MoreMemory, Insert, SameLookup, Block;
    if Refused(spans, request) {
      SameLookupSelf(spans);
    } else {
      var span := if request.MapAt? then request.span
                  else var (address, memorySize) := MoreMemory(spans, request.size); Block(address, memorySize);
      assert Serve(spans, request) == Insert(spans, span);
      if request.MapAt? {
        InsertKeepsLayout(spans, span);
      } else {
        SizeIsOk(spans, request.size);
        AllocateKeepsLayoutIff(spans, request.size);
        if GuardPages(spans) && Room(spans, request.size) {
          AllocateKeepsLayout(spans, request.size);
        }
      }
      InsertKeepsLayoutIff(spans, span);
      InsertMembers(spans, span);
      InsertKeepsSameLookup(spans, span);
      OneMore(spans, span);
    }
  }

  lemma SizeIsOk(spans: seq<Span>, size: Address)
    requires Placeable(spans, size)
    ensures SizeOk(size)
  {
  }

  lemma SameLookupSelf(spans: seq<Span>)
    ensures SameLookup(spans, spans)
  {
  }

  lemma OneMore(spans: seq<Span>, x: Span)
    ensures |Insert(spans, x)| == |spans| + 1
  {
  }
}
