/** memory.cpp: the sorted list of mapped regions, each with its own host buffer,
    and the translation of guest addresses to host pointers. `View` is the flat
    byte map that translation makes of the regions. */
module GuestMemory {
  import opened AddressSpace
  import opened Words

  datatype MemoryMap = MemoryMap(
    name: string, start: Address, end: Address, size: Address, protection: bv8, data: array<Byte>)

  /** A host pointer into a region buffer, or nullptr. */
  datatype Pointer = Null | At(data: array<Byte>, offset: nat)

  function Spans(regions: seq<MemoryMap>): (s: seq<Span>)
    ensures |s| == |regions|
  {
    seq(|regions|, i requires 0 <= i < |regions| => Span(regions[i].start, regions[i].end))
  }

  /** The host pointer of the first region holding `address`. */
  function Locate(regions: seq<MemoryMap>, address: int): Pointer {
    var i := Scan(Spans(regions), address);
    if i < |regions| then At(regions[i].data, address - regions[i].start) else Null
  }

  predicate WellFormed(regions: seq<MemoryMap>) {
    && SortedByEnd(Spans(regions))
    && (forall i :: 0 <= i < |regions| ==>
          && regions[i].size == regions[i].data.Length
          && (regions[i].start <= regions[i].end ==>
                regions[i].data.Length == regions[i].end - regions[i].start + 1))
    && (forall i, j :: 0 <= i < j < |regions| ==> regions[i].data != regions[j].data)
  }

  ghost function BufferSet(regions: seq<MemoryMap>): set<array<Byte>> {
    set r | r in regions :: r.data
  }

  /** Some region has these bounds, name and protection. */
  ghost predicate HasRegion(regions: seq<MemoryMap>, name: string, span: Span, protection: bv8) {
    exists r ::
      r in regions && r.name == name && r.start == span.start && r.end == span.end && r.protection == protection
  }

  /** Translation is injective: distinct addresses never share a host byte. */
  lemma LocateInjective(regions: seq<MemoryMap>, a: Address, b: Address)
    requires WellFormed(regions)
    requires Locate(regions, a).At? && Locate(regions, a) == Locate(regions, b)
    ensures a == b
  {
    assert Scan(Spans(regions), a) == Scan(Spans(regions), b);
  }

  /** Translation does not depend on the order in which the list is scanned. */
  lemma LocateIgnoresOrder(regions: seq<MemoryMap>, shuffled: seq<MemoryMap>, a: Address)
    requires PairwiseApart(Spans(regions)) && PairwiseApart(Spans(shuffled))
    requires forall r :: r in regions <==> r in shuffled
    ensures Locate(regions, a) == Locate(shuffled, a)
  {
    var i, j := Scan(Spans(regions), a), Scan(Spans(shuffled), a);
    if i < |regions| {
      assert regions[i] in shuffled;
      var k :| 0 <= k < |shuffled| && shuffled[k] == regions[i];
      ScanFinds(Spans(shuffled), a, k);
    } else {
      forall m | 0 <= m < |shuffled| ensures !Spans(shuffled)[m].Has(a) {
        assert shuffled[m] in regions;
        var k :| 0 <= k < |regions| && regions[k] == shuffled[m];
        assert !Spans(regions)[k].Has(a);
      }
    }
  }

  /** Byte `a` is one of the `n` from `address` exactly when its host byte is one of
      the `n` from the host pointer of `address`. */
  lemma LocateWithin(regions: seq<MemoryMap>, address: Address, n: nat, a: Address)
    requires WellFormed(regions) && PairwiseApart(Spans(regions))
    requires var p := Locate(regions, address); p.At? && p.offset + n <= p.data.Length
    requires Locate(regions, a).At?
    ensures var p, q := Locate(regions, address), Locate(regions, a);
            && ((q.data == p.data && p.offset <= q.offset < p.offset + n) <==> address <= a < address + n)
            && (address <= a < address + n ==> q.offset - p.offset == a - address)
  {
    LocateNear(regions, address, a);
  }

  /** `std::memcpy` into a host buffer. */
  method CopyBytes(p: Pointer, bytes: seq<Byte>)
    requires p.At? && p.offset + |bytes| <= p.data.Length
    modifies p.data
    ensures forall j :: 0 <= j < p.data.Length ==>
              p.data[j] == if p.offset <= j < p.offset + |bytes| then bytes[j - p.offset] else old(p.data[j])
  {
    for i := 0 to |bytes|
      invariant forall j :: 0 <= j < p.data.Length ==>
                  p.data[j] == if p.offset <= j < p.offset + i then bytes[j - p.offset] else old(p.data[j])
    {
      p.data[p.offset + i] := bytes[i];
    }
  }

  class Memory {
    var regions: seq<MemoryMap>

    ghost predicate Valid()
      reads this
    {
      WellFormed(regions)
    }

    ghost function Buffers(): set<array<Byte>>
      reads this
    {
      BufferSet(regions)
    }

    ghost function View(): Bytes
      requires Valid()
      reads this, Buffers()
    {
      map a: int | 0 <= a < LIMIT && Locate(regions, a).At? :: ByteAt(a)
    }

    lemma ViewIs()
      requires Valid()
      ensures forall a: int :: a in View() <==> 0 <= a < LIMIT && Locate(regions, a).At?
      ensures forall a: int :: a in View() ==> View()[a] == ByteAt(a)
    {
    }

    /** The byte a guest address is translated to. */
    ghost function ByteAt(a: int): Byte
      requires Valid() && Locate(regions, a).At?
      reads this, Buffers()
    {
      var p := Locate(regions, a);
      p.data[p.offset]
    }

    constructor ()
      ensures Valid() && regions == [] && View() == map[]
    {
      regions := [];
    }

    method GetPointerUnchecked(address: Address) returns (p: Pointer)
      requires Valid()
      ensures p == Locate(regions, address)
      ensures p.At? <==> address in View()
      ensures p.At? ==> p.data in Buffers() && p.offset < p.data.Length && p.data[p.offset] == View()[address]
      ensures View() == old(View())
    {
      var i := 0;
      while i < |regions|
        invariant 0 <= i <= |regions|
        invariant forall k :: 0 <= k < i ==> !Spans(regions)[k].Has(address)
      {
        if address >= regions[i].start && address <= regions[i].end {
          assert Spans(regions)[i].Has(address);
          assert Scan(Spans(regions), address) == i;
          return At(regions[i].data, address - regions[i].start);
        }
        i := i + 1;
      }
      p := Null;
    }

    /** `push_back` and `std::sort` by end: sorting a list that was sorted before one
        element was pushed amounts to inserting that element. */
    method PushSorted(region: MemoryMap)
      requires Valid() && region.data !in Buffers()
      requires region.size == region.data.Length == Wrap(region.end - region.start + 1)
      requires !(region.start == 0 && region.end == LIMIT - 1)
      modifies this
      ensures Valid() && Buffers() == old(Buffers()) + {region.data}
      ensures regions == InsertAt(old(regions), Position(Spans(old(regions)), region.end), region)
      ensures Spans(regions) == Insert(Spans(old(regions)), Span(region.start, region.end))
      ensures region in regions && forall r :: r in old(regions) ==> r in regions
      ensures ApartFromAll(Spans(old(regions)), Span(region.start, region.end)) ==>
                forall a :: Locate(regions, a) == LocateBeside(old(regions), region, a)
    {
      var k := 0;
      while k < |regions| && regions[k].end <= region.end
        invariant 0 <= k <= |regions|
        invariant forall i :: 0 <= i < k ==> Spans(regions)[i].end <= region.end
      {
        k := k + 1;
      }
      assert k < |regions| ==> region.end < Spans(regions)[k].end;
      PositionIs(Spans(regions), region.end, k);
      assert forall i :: 0 <= i < |regions| ==> regions[i] in regions;
      InsertedRegion(regions, region, k);
      regions := InsertAt(regions, k, region);
      if ApartFromAll(Spans(old(regions)), Span(region.start, region.end)) {
        forall a ensures Locate(regions, a) == LocateBeside(old(regions), region, a) {
          LocateAfterInsert(old(regions), region, k, a);
        }
      }
    }

    /** Beside a zero-filled region apart from the others, every byte stays as it was. */
    method AddZeroRegion(region: MemoryMap)
      requires Valid() && region.data !in Buffers()
      requires region.size == region.data.Length == Wrap(region.end - region.start + 1)
      requires !(region.start == 0 && region.end == LIMIT - 1)
      requires forall i :: 0 <= i < region.data.Length ==> region.data[i] == 0
      modifies this
      ensures Valid() && Buffers() == old(Buffers()) + {region.data}
      ensures Spans(regions) == Insert(Spans(old(regions)), Span(region.start, region.end))
      ensures region in regions && forall r :: r in old(regions) ==> r in regions
      ensures ApartFromAll(Spans(old(regions)), Span(region.start, region.end)) ==>
                forall a: Address ::
                  && Locate(regions, a) == LocateBeside(old(regions), region, a)
                  && (Locate(regions, a).At? ==>
                        ByteAt(a) == if region.start <= a <= region.end then 0 else old(ByteAt(a)))
    {
      PushSorted(region);
      if ApartFromAll(Spans(old(regions)), Span(region.start, region.end)) {
        forall a: Address | Locate(regions, a).At?
          ensures ByteAt(a) == if region.start <= a <= region.end then 0 else old(ByteAt(a))
        {
          assert Locate(regions, a) == LocateBeside(old(regions), region, a);
        }
      }
    }

    /** The same, on the flat view: zero bytes join it and no other byte changes. */
    method GrowView(region: MemoryMap)
      requires Valid() && region.data !in Buffers()
      requires region.size == region.data.Length == Wrap(region.end - region.start + 1)
      requires !(region.start == 0 && region.end == LIMIT - 1)
      requires forall i :: 0 <= i < region.data.Length ==> region.data[i] == 0
      modifies this
      ensures Valid() && Buffers() == old(Buffers()) + {region.data}
      ensures Spans(regions) == Insert(Spans(old(regions)), Span(region.start, region.end))
      ensures region in regions && forall r :: r in old(regions) ==> r in regions
      ensures ApartFromAll(Spans(old(regions)), Span(region.start, region.end)) ==>
                View() == old(View()) + Zeros(region.start, region.end)
    {
      ghost var before := View();
      ViewIs();
      AddZeroRegion(region);
      ViewIs();
      hide WellFormed, View, ByteAt, Locate, Spans, Insert, ApartFromAll, Zeros;
      if ApartFromAll(Spans(old(regions)), Span(region.start, region.end)) {
        forall a: int
          ensures a in View() <==> region.start <= a <= region.end || a in before
          ensures a in View() ==> View()[a] == if region.start <= a <= region.end then 0 else before[a]
        {
          assert 0 <= a < LIMIT && Locate(regions, a).At? ==>
                   Locate(regions, a) == LocateBeside(old(regions), region, a);
        }
        IsGrown(old(View()), region.start, region.end, View());
      }
    }

    /** `map_memory` */
    method MapMemory(name: string, start: Address, end: Address, protection: bv8)
      requires Valid()
      requires !(start == 0 && end == LIMIT - 1)
      modifies this
      ensures Valid() && Buffers() >= old(Buffers()) && fresh(Buffers() - old(Buffers()))
      ensures Spans(regions) == Insert(Spans(old(regions)), Span(start, end))
      ensures HasRegion(regions, name, Span(start, end), protection)
      ensures forall r :: r in old(regions) ==> r in regions
      ensures ApartFromAll(Spans(old(regions)), Span(start, end)) ==>
                View() == old(View()) + Zeros(start, end)
    {
      hide View, WellFormed, Spans, Insert, Zeros, ApartFromAll;
      var data := new Byte[Wrap(end - start + 1)](_ => 0);
      var region := MemoryMap(name, start, end, data.Length, protection, data);
      GrowView(region);
      assert region in regions;
    }

    /** A copy of bytes through a host pointer, as `std::memcpy` and word stores make:
        it overwrites exactly the guest bytes from the pointer's address on. */
    method Store(p: Pointer, bytes: seq<Byte>, ghost address: Address)
      requires Valid() && PairwiseApart(Spans(regions))
      requires p.At? && p == Locate(regions, address) && p.offset + |bytes| <= p.data.Length
      modifies p.data
      ensures View() == Overlay(old(View()), address, bytes)
    {
      CopyBytes(p, bytes);
      forall a: int | 0 <= a < LIMIT && Locate(regions, a).At?
        ensures ByteAt(a) == if address <= a < address + |bytes| then bytes[a - address] else old(ByteAt(a))
      {
        LocateWithin(regions, address, |bytes|, a);
        assert Locate(regions, a).data in Buffers();
      }
    }

    /** `unmap_memory_all` */
    method UnmapAll()
      modifies this
      ensures Valid() && regions == [] && View() == map[]
    {
      regions := [];
    }

    /** `memcpy(uint32_t dst, const void *src, uint32_t size)` */
    method Memcpy(dst: Address, src: seq<Byte>)
      requires Valid() && PairwiseApart(Spans(regions))
      requires Mapped(Spans(regions), dst) ==> Fits(Spans(regions), dst, |src|)
      modifies Buffers()
      ensures View() == if dst in old(View()) then Overlay(old(View()), dst, src) else old(View())
    {
      var p := GetPointerUnchecked(dst);
      if p.At? {
        Store(p, src, dst);
      }
    }

    function LoadWord(p: Pointer): Word
      requires p.At? && p.offset + 4 <= p.data.Length
      reads if p.At? then {p.data} else {}
    {
      PackSeq(p.data[p.offset..p.offset + 4])
    }

    lemma ByteNear(address: Address, a: Address)
      requires Valid() && PairwiseApart(Spans(regions))
      requires Mapped(Spans(regions), address) && Spans(regions)[Scan(Spans(regions), address)].Has(a)
      requires address <= a
      ensures var p := Locate(regions, address);
              && p.offset + (a - address) < p.data.Length
              && a in View() && View()[a] == p.data[p.offset + (a - address)]
    {
      LocateNear(regions, address, a);
    }

    /** A word loaded through a pointer is the word of the view. */
    lemma LoadIsWordAt(address: Address)
      requires Valid() && PairwiseApart(Spans(regions)) && Fits(Spans(regions), address, 4)
      ensures HasWord(View(), address)
      ensures var p := Locate(regions, address); p.At? && p.offset + 4 <= p.data.Length
      ensures LoadWord(Locate(regions, address)) == WordAt(View(), address)
    {
      hide View, ByteAt, PairwiseApart, WellFormed, PackSeq;
      ByteNear(address, address);
      ByteNear(address, address + 1);
      ByteNear(address, address + 2);
      ByteNear(address, address + 3);
      var p := Locate(regions, address);
      assert p.data[p.offset..p.offset + 4] == BytesAt(View(), address);
    }
  }

  /** `*(uint32_t *) p` */
  method ReadWord(memory: Memory, p: Pointer, ghost address: Address) returns (w: Word)
    requires memory.Valid() && PairwiseApart(Spans(memory.regions))
    requires Fits(Spans(memory.regions), address, 4) && p == Locate(memory.regions, address)
    ensures HasWord(memory.View(), address) && w == WordAt(memory.View(), address)
    ensures memory.View() == old(memory.View())
  {
    memory.LoadIsWordAt(address);
    w := memory.LoadWord(p);
  }

  lemma InsertedRegion(before: seq<MemoryMap>, region: MemoryMap, k: nat)
    requires WellFormed(before) && k == Position(Spans(before), region.end)
    requires forall i :: 0 <= i < |before| ==> before[i].data != region.data
    requires region.size == region.data.Length == Wrap(region.end - region.start + 1)
    requires !(region.start == 0 && region.end == LIMIT - 1)
    ensures var after := InsertAt(before, k, region);
            && Spans(after) == Insert(Spans(before), Span(region.start, region.end))
            && WellFormed(after)
            && BufferSet(after) == BufferSet(before) + {region.data}
            && forall r :: r in before ==> r in after
  {
    var after := InsertAt(before, k, region);
    InsertedSpans(before, region, k);
    InsertKeepsSorted(Spans(before), Span(region.start, region.end));
    RegionSize(region);
    InsertAtMembers(before, k, region);
    InsertedBuffers(before, region, k);
    hide Position, Insert, SortedByEnd, InsertAt, BufferSet;
  }

  lemma InsertedBuffers(before: seq<MemoryMap>, region: MemoryMap, k: nat)
    requires k <= |before|
    ensures BufferSet(InsertAt(before, k, region)) == BufferSet(before) + {region.data}
  {
    InsertAtMembers(before, k, region);
    hide InsertAt;
  }

  lemma RegionSize(region: MemoryMap)
    requires region.size == Wrap(region.end - region.start + 1)
    requires !(region.start == 0 && region.end == LIMIT - 1)
    ensures region.start <= region.end ==> region.size == region.end - region.start + 1
  {
  }

  lemma InsertedSpans(before: seq<MemoryMap>, region: MemoryMap, k: nat)
    requires k == Position(Spans(before), region.end)
    ensures Spans(InsertAt(before, k, region)) == Insert(Spans(before), Span(region.start, region.end))
  {
  }

  /** Translation once `region` has been added beside the others. */
  function LocateBeside(before: seq<MemoryMap>, region: MemoryMap, a: int): Pointer {
    if region.start <= a <= region.end then At(region.data, a - region.start) else Locate(before, a)
  }

  lemma LocateAfterInsert(before: seq<MemoryMap>, region: MemoryMap, k: nat, a: int)
    requires k == Position(Spans(before), region.end)
    requires ApartFromAll(Spans(before), Span(region.start, region.end))
    requires Spans(InsertAt(before, k, region)) == Insert(Spans(before), Span(region.start, region.end))
    ensures Locate(InsertAt(before, k, region), a) == LocateBeside(before, region, a)
  {
    InsertKeepsLookup(Spans(before), Span(region.start, region.end), a);
  }

  /** Within one region, host offsets run with guest addresses. */
  lemma LocateNear(regions: seq<MemoryMap>, a: Address, b: Address)
    requires WellFormed(regions) && PairwiseApart(Spans(regions))
    requires Locate(regions, a).At?
    ensures var i := Scan(Spans(regions), a);
            Spans(regions)[i].Has(b) ==>
              Locate(regions, b) == At(Locate(regions, a).data, Locate(regions, a).offset + (b - a))
    ensures Locate(regions, b).At? && Locate(regions, b).data == Locate(regions, a).data ==>
              Locate(regions, b).offset - Locate(regions, a).offset == b - a
    ensures Locate(regions, b).At? && Locate(regions, b).data == Locate(regions, a).data ==>
              Scan(Spans(regions), b) == Scan(Spans(regions), a)
  {
    var i := Scan(Spans(regions), a);
    if Spans(regions)[i].Has(b) {
      ScanFinds(Spans(regions), b, i);
    }
  }
}
