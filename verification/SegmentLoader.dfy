/** The segment mapping loop of `load_self_to_memory`, and what guest memory holds once
    it and the relocation pass are done. */
module SegmentLoader {
  import opened Words
  import opened AddressSpace
  import opened GuestMemory
  import opened MaskedWrites
  import opened RelocationPass

  /** `((p_vaddr + p_memsz + 0xFFF) & ~0xFFF) - 1` */
  function PageAlignedEnd(start: Address, memsz: Address): Address {
    Wrap(PageFloor(Wrap(start + memsz + 0xFFF)) - 1)
  }

  function Range(seg: DecryptedSegment): Span {
    Span(Start(seg), PageAlignedEnd(Start(seg), seg.phdr.memsz))
  }

  predicate Loaded(seg: DecryptedSegment) {
    seg.canLoad && !seg.relocatable
  }

  /** The segment is not empty and does not run past the address space, nor fill all of
      it, and its file bytes fit its pages. */
  predicate WellSized(seg: DecryptedSegment) {
    && 0 < seg.phdr.memsz && Start(seg) + seg.phdr.memsz <= LIMIT && Range(seg) != Span(0, LIMIT - 1)
    && seg.segmentLength <= |seg.data|
    && Start(seg) + seg.segmentLength <= Range(seg).end + 1
  }

  /** Also for a segment in the last page, where the sum wraps to 0 and back. */
  lemma RangeExact(seg: DecryptedSegment)
    requires 0 < seg.phdr.memsz && Start(seg) + seg.phdr.memsz <= LIMIT
    ensures Range(seg).start == Start(seg) == seg.phdr.vaddr as int
    ensures Start(seg) + seg.phdr.memsz <= Range(seg).end + 1 < Start(seg) + seg.phdr.memsz + 0x1000
    ensures Range(seg).end % 0x1000 == 0xFFF
  {
    PageAlignedEndExact(Start(seg), seg.phdr.memsz);
  }

  lemma PageAlignedEndExact(start: Address, memsz: Address)
    requires 0 < memsz && start + memsz <= LIMIT
    ensures var end := PageAlignedEnd(start, memsz);
            start + memsz <= end + 1 < start + memsz + PAGE && end % PAGE == PAGE - 1
  {
    var x := start + memsz + 0xFFF;
    if x < LIMIT {
      assert Wrap(x) == x;
    } else {
      assert Wrap(x) == x - LIMIT && PageFloor(x - LIMIT) == 0;
    }
  }

  function Protection(flags: bv8): bv8 {
    (if flags & 4 != 0 then 1 else 0) | (if flags & 2 != 0 then 2 else 0) | (if flags & 1 != 0 then 4 else 0)
  }

  /** Readable, writable and executable exactly as the header's PF_R, PF_W and PF_X say. */
  lemma ProtectionBits(flags: bv8)
    ensures var p := Protection(flags);
            && (p & 1 != 0 <==> flags & 4 != 0)
            && (p & 2 != 0 <==> flags & 2 != 0)
            && (p & 4 != 0 <==> flags & 1 != 0)
            && p < 8
  {
  }

  /** Loaded segments keep to their own pages and to free address space. */
  ghost predicate Loadable(spans: seq<Span>, segments: seq<DecryptedSegment>) {
    && (forall i :: 0 <= i < |segments| && Loaded(segments[i]) ==>
          WellSized(segments[i]) && ApartFromAll(spans, Range(segments[i])))
    && (forall i, j :: 0 <= i < j < |segments| && Loaded(segments[i]) && Loaded(segments[j]) ==>
          Apart(Range(segments[i]), Range(segments[j])))
  }

  function LoadOne(mem: Bytes, seg: DecryptedSegment): Bytes
    requires seg.segmentLength <= |seg.data|
  {
    Overlay(mem + Zeros(Range(seg).start, Range(seg).end), Start(seg), seg.data[..seg.segmentLength])
  }

  function LoadAll(mem: Bytes, segments: seq<DecryptedSegment>): Bytes
    requires forall i :: 0 <= i < |segments| && Loaded(segments[i]) ==> segments[i].segmentLength <= |segments[i].data|
    decreases |segments|
  {
    if segments == [] then mem
    else LoadAll(if Loaded(segments[0]) then LoadOne(mem, segments[0]) else mem, segments[1..])
  }

  /** The region list after the loop. */
  function MapAll(spans: seq<Span>, segments: seq<DecryptedSegment>): seq<Span>
    decreases |segments|
  {
    if segments == [] then spans
    else MapAll(if Loaded(segments[0]) then Insert(spans, Range(segments[0])) else spans, segments[1..])
  }

  /** What the loop leaves in `bottom_address`. */
  function LowestStart(segments: seq<DecryptedSegment>, bottom: Address): Address
    decreases |segments|
  {
    if segments == [] then bottom
    else
      LowestStart(segments[1..],
                  if Loaded(segments[0]) && bottom > Start(segments[0]) then Start(segments[0]) else bottom)
  }

  /** It is the least start of a loaded segment, or the initial value. */
  lemma {:induction false} LowestStartIsLeast(segments: seq<DecryptedSegment>, bottom: Address)
    ensures var r := LowestStart(segments, bottom);
            && r <= bottom
            && (forall i :: 0 <= i < |segments| && segments[i].canLoad && !segments[i].relocatable ==>
                  r <= Start(segments[i]))
            && (r == bottom || exists i ::
                  && 0 <= i < |segments| && segments[i].canLoad && !segments[i].relocatable
                  && r == Start(segments[i]))
    decreases |segments|
  {
    hide Start;
    if segments != [] {
      var rest := segments[1..];
      var next := if Loaded(segments[0]) && bottom > Start(segments[0]) then Start(segments[0]) else bottom;
      LowestStartIsLeast(rest, next);
      assert forall i :: 0 <= i < |rest| ==> rest[i] == segments[i + 1];
      assert forall i :: 1 <= i < |segments| ==> segments[i] == rest[i - 1];
    }
  }

  // ---------------------------------------------------------------- the loop

  /** Each of the first `n` segments, if loaded, has a region of its own bounds, name and
      protection. */
  ghost predicate Placed(regions: seq<MemoryMap>, segments: seq<DecryptedSegment>, n: nat) {
    forall i :: 0 <= i < |segments| && i < n && Loaded(segments[i]) ==>
      HasRegion(regions, segments[i].name, Range(segments[i]), Protection(segments[i].phdr.flags))
  }

  lemma PlacedStill(before: seq<MemoryMap>, after: seq<MemoryMap>, segments: seq<DecryptedSegment>, n: nat)
    requires Placed(before, segments, n) && forall r :: r in before ==> r in after
    ensures Placed(after, segments, n)
  {
    forall i | 0 <= i < |segments| && i < n && Loaded(segments[i])
      ensures HasRegion(after, segments[i].name, Range(segments[i]), Protection(segments[i].phdr.flags))
    {
      assert HasRegion(before, segments[i].name, Range(segments[i]), Protection(segments[i].phdr.flags));
    }
  }

  method LoadSegment(memory: Memory, seg: DecryptedSegment)
    requires memory.Valid() && Layout(Spans(memory.regions))
    requires WellSized(seg) && ApartFromAll(Spans(memory.regions), Range(seg))
    modifies memory, memory.Buffers()
    ensures memory.Valid() && Layout(Spans(memory.regions))
    ensures memory.Buffers() >= old(memory.Buffers()) && fresh(memory.Buffers() - old(memory.Buffers()))
    ensures Spans(memory.regions) == Insert(Spans(old(memory.regions)), Range(seg))
    ensures HasRegion(memory.regions, seg.name, Range(seg), Protection(seg.phdr.flags))
    ensures forall r :: r in old(memory.regions) ==> r in memory.regions
    ensures memory.View() == LoadOne(old(memory.View()), seg)
  {
    hide Memory.View, WellFormed, Spans, Layout, PairwiseApart, ApartFromAll, Overlay, PageAlignedEnd;
    RangeExact(seg);
    InsertKeepsLayout(Spans(memory.regions), Range(seg));
    InsertKeepsLookup(Spans(memory.regions), Range(seg), Start(seg));
    memory.MapMemory(seg.name, Start(seg), PageAlignedEnd(Start(seg), seg.phdr.memsz), Protection(seg.phdr.flags));
    memory.Memcpy(Start(seg), seg.data[..seg.segmentLength]);
  }

  method LoadSegments(memory: Memory, segments: seq<DecryptedSegment>) returns (bottom: Address)
    requires memory.Valid() && Layout(Spans(memory.regions))
    requires Loadable(Spans(memory.regions), segments)
    modifies memory, memory.Buffers()
    ensures memory.Valid() && Layout(Spans(memory.regions))
    ensures memory.Buffers() >= old(memory.Buffers()) && fresh(memory.Buffers() - old(memory.Buffers()))
    ensures memory.View() == LoadAll(old(memory.View()), segments)
    ensures Spans(memory.regions) == MapAll(Spans(old(memory.regions)), segments)
    ensures Placed(memory.regions, segments, |segments|)
    ensures bottom == LowestStart(segments, LIMIT - 1)
  {
    hide Memory.View, WellFormed, Spans, Insert, HasRegion, Layout, LoadOne, Range, ApartFromAll;
    bottom := LIMIT - 1;
    var n := 0;
    while n < |segments|
      invariant 0 <= n <= |segments|
      invariant memory.Valid() && Layout(Spans(memory.regions))
      invariant memory.Buffers() >= old(memory.Buffers()) && fresh(memory.Buffers() - old(memory.Buffers()))
      invariant Loadable(Spans(memory.regions), segments[n..])
      invariant Placed(memory.regions, segments, n)
      invariant LoadAll(old(memory.View()), segments) == LoadAll(memory.View(), segments[n..])
      invariant MapAll(Spans(old(memory.regions)), segments) == MapAll(Spans(memory.regions), segments[n..])
      invariant LowestStart(segments, LIMIT - 1) == LowestStart(segments[n..], bottom)
    {
      ghost var pending := segments[n..];
      assert segments[n + 1..] == pending[1..];
      if segments[n].canLoad && !segments[n].relocatable {
        if bottom > Start(segments[n]) {
          bottom := Start(segments[n]);
        }
        StillLoadable(Spans(memory.regions), pending);
        ghost var before := memory.regions;
        LoadSegment(memory, segments[n]);
        PlacedStill(before, memory.regions, segments, n);
      }
      n := n + 1;
    }
  }

  /** Mapping the first segment leaves room for the others. */
  lemma StillLoadable(spans: seq<Span>, segments: seq<DecryptedSegment>)
    requires segments != [] && Loaded(segments[0]) && Loadable(spans, segments)
    ensures Loadable(Insert(spans, Range(segments[0])), segments[1..])
  {
    var x := Range(segments[0]);
    InsertMembers(spans, x);
    forall i | 0 <= i < |segments| - 1 && Loaded(segments[1..][i])
      ensures ApartFromAll(Insert(spans, x), Range(segments[1..][i]))
    {
      assert Apart(x, Range(segments[i + 1]));
      forall m | 0 <= m < |Insert(spans, x)| ensures Apart(Insert(spans, x)[m], Range(segments[i + 1])) {
        assert Insert(spans, x)[m] in Insert(spans, x);
      }
    }
  }

  // ---------------------------------------------------------------- contents

  /** Byte `a` belongs to no segment that gets loaded. */
  ghost predicate Outside(segments: seq<DecryptedSegment>, a: int) {
    forall i :: 0 <= i < |segments| && segments[i].canLoad && !segments[i].relocatable ==>
      !(Start(segments[i]) <= a <= Range(segments[i]).end)
  }

  /** Loading leaves every address outside the segments as it was. */
  lemma {:induction false} LoadKeeps(mem: Bytes, spans: seq<Span>, segments: seq<DecryptedSegment>, a: int)
    requires Loadable(spans, segments) && Outside(segments, a)
    ensures a in LoadAll(mem, segments) <==> a in mem
    ensures a in mem ==> LoadAll(mem, segments)[a] == mem[a]
    decreases |segments|
  {
    hide Start, PageAlignedEnd;
    if segments != [] {
      var rest := segments[1..];
      assert forall i :: 0 <= i < |rest| ==> rest[i] == segments[i + 1];
      var next := if Loaded(segments[0]) then LoadOne(mem, segments[0]) else mem;
      LoadKeeps(next, spans, rest, a);
    }
  }

  /** The bytes a loaded segment gives its address range: its file bytes, then zeros to
      the end of its last page. */
  function SegmentByte(seg: DecryptedSegment, a: int): Byte
    requires seg.segmentLength <= |seg.data| && Range(seg).Has(a)
  {
    if a - Start(seg) < seg.segmentLength then seg.data[a - Start(seg)] else 0
  }

  lemma LoadOneByte(mem: Bytes, seg: DecryptedSegment, a: int)
    requires WellSized(seg) && Range(seg).Has(a)
    ensures a in LoadOne(mem, seg) && LoadOne(mem, seg)[a] == SegmentByte(seg, a)
  {
  }

  lemma {:induction false} LoadedByte(mem: Bytes, spans: seq<Span>, segments: seq<DecryptedSegment>, i: nat, a: int)
    requires Loadable(spans, segments) && i < |segments| && Loaded(segments[i]) && Range(segments[i]).Has(a)
    ensures a in LoadAll(mem, segments) && LoadAll(mem, segments)[a] == SegmentByte(segments[i], a)
    decreases |segments|
  {
    hide PageAlignedEnd, Start;
    var rest := segments[1..];
    assert forall j :: 0 <= j < |rest| ==> rest[j] == segments[j + 1];
    var next := if Loaded(segments[0]) then LoadOne(mem, segments[0]) else mem;
    if i == 0 {
      LoadOneByte(mem, segments[0], a);
      assert forall j :: 0 < j < |segments| && Loaded(segments[j]) ==> Apart(Range(segments[0]), Range(segments[j]));
      LoadKeeps(next, spans, rest, a);
    } else {
      LoadedByte(next, spans, rest, i - 1, a);
    }
  }

  /** After loading, every segment holds its file bytes and then zeros. */
  lemma LoadedContents(mem: Bytes, spans: seq<Span>, segments: seq<DecryptedSegment>, i: nat, k: nat)
    requires Loadable(spans, segments) && i < |segments| && segments[i].canLoad && !segments[i].relocatable
    requires Start(segments[i]) + k <= Range(segments[i]).end
    ensures var a := Start(segments[i]) + k;
            && a in LoadAll(mem, segments)
            && LoadAll(mem, segments)[a] == if k < segments[i].segmentLength then segments[i].data[k] else 0
  {
    hide LoadAll, PageAlignedEnd, Start;
    LoadedByte(mem, spans, segments, i, Start(segments[i]) + k);
  }

  /** Loading and then relocating: a bit of a segment that some relocation field covers
      is the last such relocation's, and any other bit is the file's. */
  lemma LoadedAndRelocated(mem: Bytes, spans: seq<Span>, segments: seq<DecryptedSegment>, i: nat, a: int, q: Byte)
    requires Loadable(spans, segments) && i < |segments| && segments[i].canLoad && !segments[i].relocatable
    requires Range(segments[i]).Has(a)
    requires IsBit(q) && Run(LoadAll(mem, segments), PassSteps(segments, segments)).1
    ensures var steps := PassSteps(segments, segments);
            var after := Run(LoadAll(mem, segments), steps).0;
            var k := LastCover(steps, a, q);
            && a in after
            && Bit(after[a], q) == Bit(if k >= 0 then ValueAt(steps[k], a) else SegmentByte(segments[i], a), q)
  {
    var loaded := LoadAll(mem, segments);
    var steps := PassSteps(segments, segments);
    LoadedByte(mem, spans, segments, i, a);
    RunSucceedsIff(loaded, steps);
    RunLastWriter(loaded, steps, a, q);
  }
}
