/** `load_self_to_memory`: mapping, relocation and import patching in sequence, and what
    every bit of a loaded segment holds in the end. */
module SelfLoader {
  import opened Words
  import opened AddressSpace
  import opened GuestMemory
  import opened MaskedWrites
  import opened RelocationPass
  import opened SegmentLoader
  import opened ImportStubs
  import opened ImportLoader
  import Hle

  /** The segment that the top two bits of the entry name exists. */
  predicate NamesSegment(segments: seq<DecryptedSegment>, entry: Word) {
    (entry >> 30) as int < |segments|
  }

  /** Address of the module info: the rest of the entry is an offset into that segment. */
  function ModuleInfoAddress(segments: seq<DecryptedSegment>, entry: Word): Address
    requires NamesSegment(segments, entry)
  {
    Wrap(segments[(entry >> 30) as int].phdr.vaddr as int + (entry & 0x3FFF_FFFF) as int)
  }

  lemma EntryParts(entry: Word)
    ensures entry as int == (entry >> 30) as int * 0x4000_0000 + (entry & 0x3FFF_FFFF) as int
  {
  }

  lemma Below(x: bv30)
    ensures (x as Word) as int == x as int < 0x4000_0000
  {
  }

  lemma LowPart(entry: Word)
    ensures ((entry & 0x3FFF_FFFF) as bv30) as Word == entry & 0x3FFF_FFFF
  {
  }

  lemma Parts(entry: int, n: int, off: int, high: int, low: int)
    requires entry == n * 0x4000_0000 + off == high * 0x4000_0000 + low
    requires 0 <= off < 0x4000_0000 && 0 <= low < 0x4000_0000
    ensures high == n && low == off
  {
  }

  /** An entry `n * 2^30 + off` names the address `off` bytes into segment `n`. */
  lemma ModuleInfoAt(segments: seq<DecryptedSegment>, entry: Word, n: nat, off: nat)
    requires n < |segments| && off < 0x4000_0000 && entry as int == n * 0x4000_0000 + off
    ensures NamesSegment(segments, entry)
    ensures ModuleInfoAddress(segments, entry) == (segments[n].phdr.vaddr as int + off) % 0x1_0000_0000
  {
    EntryParts(entry);
    LowPart(entry);
    Below((entry & 0x3FFF_FFFF) as bv30);
    Parts(entry as int, n, off, (entry >> 30) as int, (entry & 0x3FFF_FFFF) as int);
  }

  /** A program whose module info lies in a loaded segment is never refused at that check:
      loading fails exactly when a relocation or an import does, and leaves memory empty
      exactly when a relocation does. */
  lemma LoadFailsIff(mem: Bytes, spans: seq<Span>, segments: seq<DecryptedSegment>, entry: Word, n: nat, off: nat,
                     headers: seq<ImportHeader>, i: nat)
    requires n < |segments| && off < 0x4000_0000 && entry as int == n * 0x4000_0000 + off
    requires Loadable(spans, segments) && BuffersHold(segments)
    requires i < |segments| && segments[i].canLoad && !segments[i].relocatable
    requires Range(segments[i]).Has((segments[n].phdr.vaddr as int + off) % 0x1_0000_0000)
    ensures NamesSegment(segments, entry)
    ensures var r := Load(mem, segments, ModuleInfoAddress(segments, entry), headers);
            var (relocated, done) := Run(LoadAll(mem, segments), PassSteps(segments, segments));
            && (r.ok <==> done && PatchAll(relocated, ModuleActions(headers, 0)).ok)
            && (r.mem == map[] <==> !done)
            && (done ==> r.mem.Keys == LoadAll(mem, segments).Keys)
  {
    hide *;
    ModuleInfoAt(segments, entry, n, off);
    BytesPresent(segments);
    var info := (segments[n].phdr.vaddr as int + off) % 0x1_0000_0000;
    InfoIsMapped(mem, spans, segments, i, info);
    LoadPast(mem, segments, info, headers);
  }

  lemma InfoIsMapped(mem: Bytes, spans: seq<Span>, segments: seq<DecryptedSegment>, i: nat, info: int)
    requires Loadable(spans, segments) && BuffersHold(segments)
    requires i < |segments| && segments[i].canLoad && !segments[i].relocatable && Range(segments[i]).Has(info)
    ensures info in LoadAll(mem, segments)
  {
    hide LoadAll, Loadable, Range;
    LoadedByte(mem, spans, segments, i, info);
  }

  lemma LoadPast(mem: Bytes, segments: seq<DecryptedSegment>, info: int, headers: seq<ImportHeader>)
    requires BuffersHold(segments) && info in LoadAll(mem, segments)
    ensures var r := Load(mem, segments, info, headers);
            var (relocated, done) := Run(LoadAll(mem, segments), PassSteps(segments, segments));
            && (r.ok <==> done && PatchAll(relocated, ModuleActions(headers, 0)).ok)
            && (r.mem == map[] <==> !done)
            && (done ==> r.mem.Keys == LoadAll(mem, segments).Keys)
  {
    hide LoadAll, Run, PassSteps, PatchAll, ModuleActions;
    var r := Load(mem, segments, info, headers);
    assert Run(LoadAll(mem, segments), PassSteps(segments, segments)).1 ==> info in r.mem.Keys;
  }

  /** The buffer of each loaded segment holds the bytes to copy. */
  ghost predicate BuffersHold(segments: seq<DecryptedSegment>) {
    forall i :: 0 <= i < |segments| && Loaded(segments[i]) ==> segments[i].segmentLength <= |segments[i].data|
  }

  /** Memory, the imports recorded, and whether imports succeeded. A failed relocation
      unmaps all. */
  ghost function Load(mem: Bytes, segments: seq<DecryptedSegment>, info: int, headers: seq<ImportHeader>): Outcome
    requires BuffersHold(segments)
  {
    var loaded := LoadAll(mem, segments);
    if info !in loaded then Outcome(loaded, [], false)
    else
      var (relocated, ok) := Run(loaded, PassSteps(segments, segments));
      if !ok then Outcome(map[], [], false) else PatchAll(relocated, ModuleActions(headers, 0))
  }

  /** No patched word, import table or stub straddles the end of its region. */
  ghost predicate AllFit(spans: seq<Span>, loaded: Bytes, segments: seq<DecryptedSegment>, headers: seq<ImportHeader>) {
    var steps := PassSteps(segments, segments);
    && WordsFit(spans, loaded.Keys, steps)
    && (Run(loaded, steps).1 ==> ActionsFit(spans, Run(loaded, steps).0, ModuleActions(headers, 0)))
  }

  /** What the source takes for granted of a program and of the memory it is loaded to. */
  ghost predicate WellBehaved(spans: seq<Span>, mem: Bytes, segments: seq<DecryptedSegment>, entry: Word,
                              headers: seq<ImportHeader>) {
    && Layout(spans) && Loadable(spans, segments) && BuffersHold(segments) && NamesSegment(segments, entry)
    && (forall seg :: seg in segments && seg.relocatable ==> |seg.data| % 12 == 0)
    && AllFit(MapAll(spans, segments), LoadAll(mem, segments), segments, headers)
  }

  /** One module more, with the libraries the imports were recorded for. */
  ghost predicate Registers(before: seq<Hle.RuntimeModule>, after: seq<Hle.RuntimeModule>, name: string,
                            headers: seq<ImportHeader>, imports: seq<FunctionImport>) {
    && |after| == |before| + 1 && after[..|before|] == before
    && var last := after[|before|];
    && last.libraryName == name && Grouped(last.libraries, headers, |headers|) && AllImports(last.libraries) == imports
  }

  /** Loads a relocatable program; one that is not is refused once its segments are mapped.
      The module is registered as soon as its imports are patched, whether or not its
      exports, which are only read, are then accepted. */
  method LoadSelfToMemory(memory: Memory, hle: Hle.State, segments: seq<DecryptedSegment>, entry: Word,
                          headers: seq<ImportHeader>, name: string, exportsAccepted: bool) returns (ok: bool)
    requires memory.Valid() && WellBehaved(Spans(memory.regions), memory.View(), segments, entry, headers)
    modifies memory, memory.Buffers(), hle
    ensures memory.Valid() && Layout(Spans(memory.regions))
    ensures var r := Load(old(memory.View()), segments, ModuleInfoAddress(segments, entry), headers);
            && memory.View() == r.mem
            && ok == (r.ok && exportsAccepted)
            && if r.ok then Registers(old(hle.runtimeModuleList), hle.runtimeModuleList, name, headers, r.imports)
               else hle.runtimeModuleList == old(hle.runtimeModuleList)
  {
    hide Memory.View, WellFormed, Spans, Run, WordsFit, ActionsFit, PatchAll, ModuleActions, LoadAll, MapAll, PassSteps;
    hide Loadable, PairwiseApart, Placed, HasRegion, ModuleInfoAddress, NamesSegment, BuffersHold, Grouped, AllImports;
    var bottom := LoadSegments(memory, segments);
    var modinfo := memory.GetPointerUnchecked(ModuleInfoAddress(segments, entry));
    if modinfo.Null? {
      return false;
    }
    ok := DoSelfRelocation(memory, segments);
    if !ok {
      memory.UnmapAll();
      NothingMapped();
      return;
    }
    var libraries;
    ok, libraries := AddModuleImports(memory, headers);
    if !ok {
      return;
    }
    hle.AddRuntimeModule(Hle.RuntimeModule(name, libraries));
    ok := exportsAccepted;
  }

  /** In the end, off the import stubs, every bit of a loaded segment is what the last
      relocation covering it gives; a bit no relocation covers is that of the segment's
      file, or zero past its end. */
  lemma LoadedImage(mem: Bytes, spans: seq<Span>, segments: seq<DecryptedSegment>, info: int,
                    headers: seq<ImportHeader>, i: nat, a: int, q: Byte)
    requires Loadable(spans, segments) && i < |segments| && segments[i].canLoad && !segments[i].relocatable
    requires Range(segments[i]).Has(a)
    requires IsBit(q) && BuffersHold(segments) && Load(mem, segments, info, headers).ok
    requires var relocated := Run(LoadAll(mem, segments), PassSteps(segments, segments)).0;
             StubsApart(relocated, ModuleActions(headers, 0)) && OffStubs(relocated, ModuleActions(headers, 0), a)
    ensures var steps := PassSteps(segments, segments);
            var final := Load(mem, segments, info, headers).mem;
            var k := LastCover(steps, a, q);
            && a in final
            && Bit(final[a], q) == Bit(if k >= 0 then ValueAt(steps[k], a) else SegmentByte(segments[i], a), q)
  {
    hide *;
    BytesPresent(segments);
    var relocated := Run(LoadAll(mem, segments), PassSteps(segments, segments)).0;
    LoadSucceeds(mem, segments, info, headers);
    LoadedAndRelocated(mem, spans, segments, i, a, q);
    OffStubsKept(relocated, ModuleActions(headers, 0), a);
  }

  lemma LoadSucceeds(mem: Bytes, segments: seq<DecryptedSegment>, info: int, headers: seq<ImportHeader>)
    requires BuffersHold(segments) && Load(mem, segments, info, headers).ok
    ensures var (relocated, ok) := Run(LoadAll(mem, segments), PassSteps(segments, segments));
            && ok && info in LoadAll(mem, segments)
            && Load(mem, segments, info, headers) == PatchAll(relocated, ModuleActions(headers, 0))
  {
    hide Run, LoadAll, PassSteps, PatchAll;
  }

  lemma BytesPresent(segments: seq<DecryptedSegment>)
    requires BuffersHold(segments)
    ensures forall i :: 0 <= i < |segments| && Loaded(segments[i]) ==> segments[i].segmentLength <= |segments[i].data|
  {
  }

  lemma NothingMapped()
    ensures Layout(Spans([]))
  {
  }
}
