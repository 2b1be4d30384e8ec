/** memory_manager.cpp over the shared region list: the search loop refines
    `AllocatorSpec.MoreMemory`, and allocations add one zero-filled region. */
module MemoryManager {
  import opened AddressSpace
  import opened GuestMemory
  import opened Words
  import Spec = AllocatorSpec

  method MoreMemory(memory: Memory, size: Address) returns (address: Address, memorySize: Address)
    requires memory.Valid()
    ensures (address, memorySize) == Spec.MoreMemory(Spans(memory.regions), size)
  {
    var list := memory.regions;
    var top: Address := 0;
    memorySize := Spec.MemorySize(size);
    if |list| == 0 {
      return Spec.FIRST_BLOCK, memorySize;
    }
    var i := 0;
    while i < |list|
      invariant 0 <= i <= |list|
      invariant Spec.Search(Spans(list), 0, 0, memorySize) == Spec.Search(Spans(list), i, top, memorySize)
    {
      if top < list[i].end {
        top := PageFloor(Wrap(Wrap(list[i].end + 1) + 0x1000));
      }
      if i + 1 < |list| {
        var newPaged := PageFloor(Wrap(Wrap(list[i].end + 1) + 0x1000));
        var emptyPagedBlock := AsInt32(Wrap(Wrap(Wrap(list[i + 1].start - 0x1000) - newPaged) - memorySize));
        if emptyPagedBlock >= 0 {
          top := newPaged;
          break;
        }
      }
      i := i + 1;
    }
    if top != 0 {
      address := top;
    } else {
      address, memorySize := Spec.NO_MEMORY, Spec.NO_MEMORY;
    }
  }

  method AllocateStack(memory: Memory, size: Address, name: string) returns (r: Address)
    requires memory.Valid()
    modifies memory
    ensures memory.Valid() && memory.Buffers() >= old(memory.Buffers())
    ensures fresh(memory.Buffers() - old(memory.Buffers()))
    ensures (Spans(memory.regions), r) == Spec.AllocateStack(Spans(old(memory.regions)), size)
    ensures var (address, memorySize) := Spec.MoreMemory(Spans(old(memory.regions)), size);
            address != Spec.NO_MEMORY ==>
              HasRegion(memory.regions, name + "_stack", Spec.Block(address, memorySize), 3)
    ensures Layout(Spans(old(memory.regions))) && Spec.Room(Spans(old(memory.regions)), size) ==>
              GrownByBlock(old(memory.View()), Spans(old(memory.regions)), size, memory.View())
  {
    hide Layout, Spec.Room, Spec.MoreMemory, WellFormed, Spans, Insert, ApartFromAll, Zeros;
    PlacedApart(Spans(memory.regions), size);
    var address, memorySize := MoreMemory(memory, size);
    if address == Spec.NO_MEMORY {
      return 0;
    }
    BlockNotEverything(Spans(memory.regions), size);
    memory.MapMemory(name + "_stack", address, Spec.Block(address, memorySize).end, 3);
    r := Wrap(address as int + memorySize as int);
  }

  method AllocateHeap(memory: Memory, size: Address, name: string) returns (r: Address)
    requires memory.Valid()
    modifies memory
    ensures memory.Valid() && memory.Buffers() >= old(memory.Buffers())
    ensures fresh(memory.Buffers() - old(memory.Buffers()))
    ensures (Spans(memory.regions), r) == Spec.AllocateHeap(Spans(old(memory.regions)), size)
    ensures var (address, memorySize) := Spec.MoreMemory(Spans(old(memory.regions)), size);
            address != Spec.NO_MEMORY ==>
              HasRegion(memory.regions, name + "_heap", Spec.Block(address, memorySize), 3)
    ensures Layout(Spans(old(memory.regions))) && Spec.Room(Spans(old(memory.regions)), size) ==>
              GrownByBlock(old(memory.View()), Spans(old(memory.regions)), size, memory.View())
  {
    hide Layout, Spec.Room, Spec.MoreMemory, WellFormed, Spans, Insert, ApartFromAll, Zeros;
    PlacedApart(Spans(memory.regions), size);
    var address, memorySize := MoreMemory(memory, size);
    if address == Spec.NO_MEMORY {
      return 0;
    }
    BlockNotEverything(Spans(memory.regions), size);
    memory.MapMemory(name + "_heap", address, Spec.Block(address, memorySize).end, 3);
    r := address;
  }

  /** The allocation adds its zero-filled block to the view and changes nothing else. */
  ghost predicate GrownByBlock(before: Bytes, spans: seq<Span>, size: Address, after: Bytes) {
    var (address, memorySize) := Spec.MoreMemory(spans, size);
    var block := Spec.Block(address, memorySize);
    after == before + Zeros(block.start, block.end)
  }

  /** Whatever the search returns, the region asked for is not the whole address space. */
  lemma BlockNotEverything(spans: seq<Span>, size: Address)
    ensures var (address, memorySize) := Spec.MoreMemory(spans, size);
            address == Spec.NO_MEMORY || Spec.Block(address, memorySize) != Span(0, LIMIT - 1)
  {
  }

  lemma PlacedApart(spans: seq<Span>, size: Address)
    ensures Layout(spans) && Spec.Room(spans, size) ==>
              var (address, memorySize) := Spec.MoreMemory(spans, size);
              && address != Spec.NO_MEMORY
              && ApartFromAll(spans, Spec.Block(address, memorySize))
  {
    if Layout(spans) && Spec.Room(spans, size) {
      Spec.MoreMemoryPlaces(spans, size);
    }
  }
}
