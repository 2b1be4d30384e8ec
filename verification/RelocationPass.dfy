/** `do_self_relocation_program_data`: the walk over packed 12-byte format 0 entries.
    The loops refine `MaskedWrites.Run` on the list of masked writes the entries
    stand for, so the algebra of runs is about the loader. */
module RelocationPass {
  import opened Words
  import opened AddressSpace
  import opened GuestMemory
  import opened MaskedWrites
  import opened Relocation

  // ---------------------------------------------------------------- program data

  datatype ProgramHeader = ProgramHeader(vaddr: Word, memsz: Address, flags: bv8)

  /** `data` is the buffer of p_filesz bytes; decompression may set a smaller length. */
  datatype DecryptedSegment = DecryptedSegment(
    name: string, data: seq<Byte>, segmentLength: nat, relocatable: bool, canLoad: bool, phdr: ProgramHeader)

  // ---------------------------------------------------------------- entries

  /** `EntryFormat0`, with bit fields at their widths. */
  datatype Entry = Entry(
    format: bv4, symbolSegment: bv4, code: bv8, patchSegment: bv4, code2: bv8, dist2: bv4,
    addend: Word, offset: Word)

  /** Bit fields fill the first word from its lowest bit. */
  function DecodeEntry(w: Word, addend: Word, offset: Word): Entry {
    Entry((w & 0xF) as bv4, ((w >> 4) & 0xF) as bv4, ((w >> 8) & 0xFF) as bv8, ((w >> 16) & 0xF) as bv4,
          ((w >> 20) & 0xFF) as bv8, ((w >> 28) & 0xF) as bv4, addend, offset)
  }

  function EncodeEntry(e: Entry): (Word, Word, Word) {
    ((e.format as Word) | ((e.symbolSegment as Word) << 4) | ((e.code as Word) << 8) | ((e.patchSegment as Word) << 16)
      | ((e.code2 as Word) << 20) | ((e.dist2 as Word) << 28), e.addend, e.offset)
  }

  /** The packing is a bijection: no field is lost, and every word triple is an entry. */
  lemma EntryRoundTrip(e: Entry, w: Word, addend: Word, offset: Word)
    ensures var (w0, w1, w2) := EncodeEntry(e); DecodeEntry(w0, w1, w2) == e
    ensures EncodeEntry(DecodeEntry(w, addend, offset)) == (w, addend, offset)
  {
    var (w0, w1, w2) := EncodeEntry(e);
    assert DecodeEntry(w0, w1, w2).format == e.format;
    assert DecodeEntry(w0, w1, w2).symbolSegment == e.symbolSegment;
    assert DecodeEntry(w0, w1, w2).code == e.code;
    assert DecodeEntry(w0, w1, w2).patchSegment == e.patchSegment;
    assert DecodeEntry(w0, w1, w2).code2 == e.code2;
    assert DecodeEntry(w0, w1, w2).dist2 == e.dist2;
  }

  function EntryAt(data: seq<Byte>): Entry
    requires |data| >= 12
  {
    DecodeEntry(PackSeq(data[0..4]), PackSeq(data[4..8]), PackSeq(data[8..12]))
  }

  /** The fields of an entry as integers. */
  datatype Numbers = Numbers(
    format: int, symbolSegment: int, code: int, patchSegment: int, code2: int, dist2: int, addend: int, offset: int)

  function AsNumbers(e: Entry): Numbers {
    Numbers(e.format as int, e.symbolSegment as int, e.code as int, e.patchSegment as int, e.code2 as int,
            e.dist2 as int, e.addend as int, e.offset as int)
  }

  /** What the bytes of an entry mean: slices of the first four, and then the little-endian
      addend and offset. */
  function BytesAsNumbers(data: seq<Byte>): Numbers
    requires |data| >= 12
  {
    Numbers(Value(data, 0) % 16, Value(data, 0) / 16, Value(data, 1), Value(data, 2) % 16,
            Value(data, 2) / 16 + 16 * (Value(data, 3) % 16), Value(data, 3) / 16, Number(data, 4), Number(data, 8))
  }

  lemma EntryBytes(data: seq<Byte>)
    requires |data| >= 12
    ensures AsNumbers(EntryAt(data)) == BytesAsNumbers(data)
  {
    hide DecodeEntry, PackSeq;
    FirstWord(PackSeq(data[4..8]), PackSeq(data[8..12]), data[0], data[1], data[2], data[3]);
    LittleEndian(data[4..8]);
    LittleEndian(data[8..12]);
    PackSeqOf(data[0..4]);
  }

  lemma PackSeqOf(s: Bytes4)
    ensures PackSeq(s) == Pack(s[0], s[1], s[2], s[3])
  {
  }

  lemma FirstWord(addend: Word, offset: Word, b0: Byte, b1: Byte, b2: Byte, b3: Byte)
    ensures var n := AsNumbers(DecodeEntry(Pack(b0, b1, b2, b3), addend, offset));
            && n.format == b0 as int % 16 && n.symbolSegment == b0 as int / 16 && n.code == b1 as int
            && n.patchSegment == b2 as int % 16 && n.code2 == b2 as int / 16 + 16 * (b3 as int % 16)
            && n.dist2 == b3 as int / 16 && n.addend == addend as int && n.offset == offset as int
  {
    FirstFields(b0, b1, b2, b3);
    SecondFields(b0, b1, b2, b3);
    Nibbles(b0);
    Nibbles(b2);
    Nibbles(b3);
    Straddling(b2, b3);
    hide Pack;
  }

  lemma FirstFields(b0: Byte, b1: Byte, b2: Byte, b3: Byte)
    ensures var w := Pack(b0, b1, b2, b3);
            && (w & 0xF) as bv4 == (b0 & 0xF) as bv4 && ((w >> 4) & 0xF) as bv4 == (b0 >> 4) as bv4
            && ((w >> 8) & 0xFF) as bv8 == b1
  {
  }

  lemma SecondFields(b0: Byte, b1: Byte, b2: Byte, b3: Byte)
    ensures var w := Pack(b0, b1, b2, b3);
            && ((w >> 16) & 0xF) as bv4 == (b2 & 0xF) as bv4
            && ((w >> 20) & 0xFF) as bv8 == (b2 >> 4) | ((b3 & 0xF) << 4)
            && ((w >> 28) & 0xF) as bv4 == (b3 >> 4) as bv4
  {
  }

  lemma Nibbles(b: Byte)
    ensures ((b & 0xF) as bv4) as int == b as int % 16
    ensures ((b >> 4) as bv4) as int == b as int / 16
  {
  }

  lemma Straddling(b: Byte, c: Byte)
    ensures ((b >> 4) | ((c & 0xF) << 4)) as int == b as int / 16 + 16 * (c as int % 16)
  {
    var low, high := (b >> 4) as bv4, (c & 0xF) as bv4;
    Nibbles(b);
    Nibbles(c);
    Joined(low, high);
    SameByte(b, c);
  }

  lemma Joined(low: bv4, high: bv4)
    ensures ((low as bv8) | ((high as bv8) << 4)) as int == low as int + 16 * (high as int)
  {
  }

  lemma SameByte(b: Byte, c: Byte)
    ensures (((b >> 4) as bv4) as bv8) | ((((c & 0xF) as bv4) as bv8) << 4) == (b >> 4) | ((c & 0xF) << 4)
  {
  }

  function SegmentAddress(segments: seq<DecryptedSegment>, n: nat): Word {
    if n < |segments| then segments[n].phdr.vaddr else 0
  }

  function Start(seg: DecryptedSegment): Address {
    seg.phdr.vaddr as int
  }

  function PatchAddress(segments: seq<DecryptedSegment>, e: Entry): Address {
    var n := e.patchSegment as nat;
    if n < |segments| then Wrap(Start(segments[n]) + e.offset as int) else 0
  }

  /** `p + dist2 * 2` */
  function Further(p: Address, e: Entry): Address {
    Wrap(p + e.dist2 as int * 2)
  }

  /** Where the second relocation lands: the distance is added once to
      `patch_address` and once more in the call. */
  function SecondAddress(segments: seq<DecryptedSegment>, e: Entry): Address {
    Further(Further(PatchAddress(segments, e), e), e)
  }

  function StepFor(code: int, s: Word, a: Word, p: Address): Step {
    if Supported(code) then Write(p, WordBytes(FieldMask(code)), WordBytes(FieldValue(code, s, a, p as Word)))
    else Reject
  }

  function EntrySteps(segments: seq<DecryptedSegment>, e: Entry): seq<Step> {
    var s := SegmentAddress(segments, e.symbolSegment as nat);
    if e.format != 0 then [Reject]
    else
      [StepFor(e.code as int, s, e.addend, PatchAddress(segments, e))]
      + (if e.code2 as int != 0 then [StepFor(e.code2 as int, s, e.addend, SecondAddress(segments, e))] else [])
  }

  /** The steps of one relocation segment. */
  function DataSteps(segments: seq<DecryptedSegment>, data: seq<Byte>): seq<Step>
    decreases |data|
  {
    if |data| < 12 then [] else EntrySteps(segments, EntryAt(data)) + DataSteps(segments, data[12..])
  }

  /** The steps of every relocation segment among `pending`. */
  function PassSteps(segments: seq<DecryptedSegment>, pending: seq<DecryptedSegment>): seq<Step>
    decreases |pending|
  {
    if pending == [] then []
    else if pending[0].relocatable then DataSteps(segments, pending[0].data) + PassSteps(segments, pending[1..])
    else PassSteps(segments, pending[1..])
  }

  /** Doubling the distance moves the second patch off the intended place exactly when
      the distance is not zero. */
  lemma SecondAddressIntendedIff(segments: seq<DecryptedSegment>, e: Entry)
    ensures SecondAddress(segments, e) == Further(PatchAddress(segments, e), e) <==> e.dist2 == 0
    ensures SecondAddress(segments, e) == Wrap(PatchAddress(segments, e) + 4 * (e.dist2 as int))
  {
    hide PatchAddress;
    WrapTwice(PatchAddress(segments, e), e.dist2 as int * 2);
  }

  lemma WrapTwice(p: Address, d: int)
    requires 0 <= d < 0x1000
    ensures Wrap(Wrap(p + d) + d) == Wrap(p + 2 * d)
    ensures Wrap(Wrap(p + d) + d) == Wrap(p + d) <==> d == 0
  {
  }

  // ---------------------------------------------------------------- the walk

  /** No word the pass gets to patch straddles the end of its region. */
  ghost predicate WordsFit(spans: seq<Span>, keys: set<int>, steps: seq<Step>)
    decreases |steps|
  {
    steps != [] && Applies(keys, steps[0]) ==>
      Fits(spans, steps[0].address, 4) && WordsFit(spans, keys, steps[1..])
  }

  lemma {:induction false} WordsFitSplit(spans: seq<Span>, keys: set<int>, first: seq<Step>, second: seq<Step>)
    requires WordsFit(spans, keys, first + second)
    ensures WordsFit(spans, keys, first)
    ensures AllApply(keys, first) ==> WordsFit(spans, keys, second)
    decreases |first|
  {
    if first == [] {
      assert first + second == second;
    } else if Applies(keys, first[0]) {
      assert (first + second)[1..] == first[1..] + second;
      WordsFitSplit(spans, keys, first[1..], second);
      assert AllApply(keys, first) ==> AllApply(keys, first[1..]);
    }
  }

  /** Running the first part and then the second is running both; the second need only
      fit when the first succeeded. */
  lemma SplitRun(spans: seq<Span>, mem: Bytes, first: seq<Step>, second: seq<Step>)
    requires WordsFit(spans, mem.Keys, first + second)
    ensures WordsFit(spans, mem.Keys, first)
    ensures Run(mem, first).1 ==> WordsFit(spans, Run(mem, first).0.Keys, second)
    ensures Run(mem, first + second) ==
              if Run(mem, first).1 then Run(Run(mem, first).0, second) else Run(mem, first)
  {
    WordsFitSplit(spans, mem.Keys, first, second);
    RunSucceedsIff(mem, first);
    RunAppend(mem, first, second);
  }

  lemma StepFits(memory: Memory, code: int, s: Word, a: Word, p: Address)
    requires memory.Valid()
    requires WordsFit(Spans(memory.regions), memory.View().Keys, [StepFor(code, s, a, p)])
    ensures Supported(code) && Mapped(Spans(memory.regions), p) ==> Fits(Spans(memory.regions), p, 4)
  {
    hide Supported, FieldMask, FieldValue, WordBytes, Fits;
    if Mapped(Spans(memory.regions), p) && Supported(code) {
      assert Locate(memory.regions, p).At? && p in memory.View().Keys;
      FitsAlone(Spans(memory.regions), memory.View().Keys, StepFor(code, s, a, p));
    }
  }

  lemma FitsAlone(spans: seq<Span>, keys: set<int>, step: Step)
    requires WordsFit(spans, keys, [step]) && Applies(keys, step)
    ensures Fits(spans, step.address, 4)
  {
    hide Fits;
    assert [step][0] == step;
  }

  method ApplyStep(memory: Memory, code: int, s: Word, a: Word, p: Address) returns (ok: bool)
    requires memory.Valid() && PairwiseApart(Spans(memory.regions))
    requires WordsFit(Spans(memory.regions), memory.View().Keys, [StepFor(code, s, a, p)])
    modifies memory.Buffers()
    ensures Run(old(memory.View()), [StepFor(code, s, a, p)]) == (memory.View(), ok)
  {
    hide Run, Supported, FieldMask, FieldValue, WordBytes, MaskedWrite, WordsFit;
    hide WellFormed, Spans, Fits, Mapped, PairwiseApart, Memory.View;
    SupportedCodes(code);
    RunOne(memory.View(), StepFor(code, s, a, p));
    StepFits(memory, code, s, a, p);
    ok := ApplyOneRelocation(memory, code, s, a, p);
  }

  method ApplyEntry(memory: Memory, segments: seq<DecryptedSegment>, e: Entry) returns (ok: bool)
    requires memory.Valid() && PairwiseApart(Spans(memory.regions))
    requires WordsFit(Spans(memory.regions), memory.View().Keys, EntrySteps(segments, e))
    modifies memory.Buffers()
    ensures Run(old(memory.View()), EntrySteps(segments, e)) == (memory.View(), ok)
  {
    if e.format != 0 {
      return false;
    }
    var symbolAddress := SegmentAddress(segments, e.symbolSegment as nat);
    var patchAddress := PatchAddress(segments, e);
    ghost var first := [StepFor(e.code as int, symbolAddress, e.addend, patchAddress)];
    if e.code2 as int == 0 {
      ok := ApplyStep(memory, e.code as int, symbolAddress, e.addend, patchAddress);
      assert EntrySteps(segments, e) == first;
      return;
    }
    ghost var second := [StepFor(e.code2 as int, symbolAddress, e.addend, SecondAddress(segments, e))];
    assert EntrySteps(segments, e) == first + second;
    SplitRun(Spans(memory.regions), memory.View(), first, second);
    ok := ApplyStep(memory, e.code as int, symbolAddress, e.addend, patchAddress);
    if ok {
      patchAddress := Further(patchAddress, e);
      ok := ApplyStep(memory, e.code2 as int, symbolAddress, e.addend, Further(patchAddress, e));
    }
  }

  lemma WholeEntries(n: nat)
    requires n % 12 == 0 && n > 0
    ensures n >= 12 && (n - 12) % 12 == 0
  {
  }

  lemma DataStep(segments: seq<DecryptedSegment>, data: seq<Byte>, i: nat)
    requires i + 12 <= |data| && (|data| - i) % 12 == 0
    ensures DataSteps(segments, data[i..]) ==
              EntrySteps(segments, EntryAt(data[i..])) + DataSteps(segments, data[i + 12..])
  {
    assert data[i..][12..] == data[i + 12..];
  }

  lemma NoMoreSteps(segments: seq<DecryptedSegment>, data: seq<Byte>)
    ensures data[0..] == data && data[|data|..] == []
    ensures DataSteps(segments, []) == []
    ensures forall mem :: Run(mem, []) == (mem, true)
  {
  }

  method PerformSegmentRelocation(memory: Memory, segments: seq<DecryptedSegment>, segment: DecryptedSegment)
    returns (ok: bool)
    requires memory.Valid() && PairwiseApart(Spans(memory.regions))
    requires |segment.data| % 12 == 0
    requires WordsFit(Spans(memory.regions), memory.View().Keys, DataSteps(segments, segment.data))
    modifies memory.Buffers()
    ensures Run(old(memory.View()), DataSteps(segments, segment.data)) == (memory.View(), ok)
  {
    hide Memory.View, WellFormed, Spans, PairwiseApart, Run, EntrySteps, EntryAt, WordsFit, DataSteps;
    var i := 0;
    NoMoreSteps(segments, segment.data);
    while i < |segment.data|
      invariant i <= |segment.data| && (|segment.data| - i) % 12 == 0
      invariant WordsFit(Spans(memory.regions), memory.View().Keys, DataSteps(segments, segment.data[i..]))
      invariant Run(old(memory.View()), DataSteps(segments, segment.data)) ==
                Run(memory.View(), DataSteps(segments, segment.data[i..]))
    {
      WholeEntries(|segment.data| - i);
      var e := EntryAt(segment.data[i..]);
      DataStep(segments, segment.data, i);
      SplitRun(Spans(memory.regions), memory.View(), EntrySteps(segments, e),
               DataSteps(segments, segment.data[i + 12..]));
      ok := ApplyEntry(memory, segments, e);
      if !ok {
        return;
      }
      i := i + 12;
    }
    ok := true;
  }

  method DoSelfRelocation(memory: Memory, segments: seq<DecryptedSegment>) returns (ok: bool)
    requires memory.Valid() && PairwiseApart(Spans(memory.regions))
    requires forall seg :: seg in segments && seg.relocatable ==> |seg.data| % 12 == 0
    requires WordsFit(Spans(memory.regions), memory.View().Keys, PassSteps(segments, segments))
    modifies memory.Buffers()
    ensures Run(old(memory.View()), PassSteps(segments, segments)) == (memory.View(), ok)
  {
    hide Memory.View, WellFormed, Spans, PairwiseApart, Run, WordsFit, DataSteps;
    NoMoreSteps(segments, []);
    var n := 0;
    while n < |segments|
      invariant 0 <= n <= |segments|
      invariant WordsFit(Spans(memory.regions), memory.View().Keys, PassSteps(segments, segments[n..]))
      invariant Run(old(memory.View()), PassSteps(segments, segments)) ==
                Run(memory.View(), PassSteps(segments, segments[n..]))
    {
      ghost var pending := segments[n..];
      assert segments[n + 1..] == pending[1..];
      if segments[n].relocatable {
        SplitRun(Spans(memory.regions), memory.View(), DataSteps(segments, segments[n].data),
                 PassSteps(segments, pending[1..]));
        ok := PerformSegmentRelocation(memory, segments, segments[n]);
        if !ok {
          return;
        }
      }
      n := n + 1;
    }
    ok := true;
  }
}
