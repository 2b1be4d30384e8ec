/** What a whole relocation pass guarantees, for every list of entries. */
module PassProperties {
  import opened Words
  import opened AddressSpace
  import opened MaskedWrites
  import opened Relocation
  import opened RelocationPass

  /** After a successful pass every bit of guest memory is what the last relocation
      whose field covers it gives, or what it was before. */
  lemma PassLastWriter(mem: Bytes, segments: seq<DecryptedSegment>)
    requires Run(mem, PassSteps(segments, segments)).1
    ensures var steps := PassSteps(segments, segments);
            var after := Run(mem, steps).0;
            forall a, q :: a in mem && IsBit(q) ==> LastWriterWins(mem, steps, after, a, q)
  {
    var steps := PassSteps(segments, segments);
    RunSucceedsIff(mem, steps);
    forall a, q | a in mem && IsBit(q) ensures LastWriterWins(mem, steps, Run(mem, steps).0, a, q) {
      RunLastWriter(mem, steps, a, q);
    }
  }

  /** Relocating a second time changes nothing, and ends the same way. */
  lemma PassTwice(mem: Bytes, segments: seq<DecryptedSegment>)
    ensures var steps := PassSteps(segments, segments);
            Run(Run(mem, steps).0, steps) == Run(mem, steps)
  {
    RunTwice(mem, PassSteps(segments, segments));
  }

  // ---------------------------------------------------------------- order of entries

  function Entries(data: seq<Byte>): seq<Entry>
    decreases |data|
  {
    if |data| < 12 then [] else [EntryAt(data)] + Entries(data[12..])
  }

  lemma {:induction false} StepOfSomeEntry(segments: seq<DecryptedSegment>, data: seq<Byte>, st: Step)
    ensures st in DataSteps(segments, data) <==> exists e :: e in Entries(data) && st in EntrySteps(segments, e)
    decreases |data|
  {
    if |data| >= 12 {
      StepOfSomeEntry(segments, data[12..], st);
      var e0 := EntryAt(data);
      assert forall e :: e in Entries(data) <==> e == e0 || e in Entries(data[12..]);
    }
  }

  /** The entries of every relocation segment among `pending`. */
  function PassEntries(pending: seq<DecryptedSegment>): seq<Entry>
    decreases |pending|
  {
    if pending == [] then []
    else if pending[0].relocatable then Entries(pending[0].data) + PassEntries(pending[1..])
    else PassEntries(pending[1..])
  }

  lemma {:induction false} StepOfPass(segments: seq<DecryptedSegment>, pending: seq<DecryptedSegment>, st: Step)
    ensures st in PassSteps(segments, pending) <==>
              exists e :: e in PassEntries(pending) && st in EntrySteps(segments, e)
    decreases |pending|
  {
    hide EntrySteps, DataSteps, Entries;
    if pending != [] {
      StepOfPass(segments, pending[1..], st);
      if pending[0].relocatable {
        StepOfSomeEntry(segments, pending[0].data, st);
        var first, rest := Entries(pending[0].data), PassEntries(pending[1..]);
        assert forall e :: e in first + rest <==> e in first || e in rest;
      }
    }
  }

  /** The same segment addresses, and among all relocation segments the same entries. */
  ghost predicate SameEntries(x: seq<DecryptedSegment>, y: seq<DecryptedSegment>) {
    && |x| == |y|
    && (forall i :: 0 <= i < |x| ==> x[i].phdr.vaddr == y[i].phdr.vaddr)
    && (forall e :: e in PassEntries(x) <==> e in PassEntries(y))
  }

  lemma SameSteps(x: seq<DecryptedSegment>, y: seq<DecryptedSegment>, st: Step)
    requires SameEntries(x, y)
    ensures st in PassSteps(x, x) <==> st in PassSteps(y, y)
  {
    hide StepFor, Further, PassSteps, PassEntries;
    forall e ensures EntrySteps(x, e) == EntrySteps(y, e) {
      SameEntrySteps(x, y, e);
    }
    hide EntrySteps;
    StepOfPass(x, x, st);
    StepOfPass(y, y, st);
  }

  lemma SameEntrySteps(x: seq<DecryptedSegment>, y: seq<DecryptedSegment>, e: Entry)
    requires |x| == |y| && forall i :: 0 <= i < |x| ==> x[i].phdr.vaddr == y[i].phdr.vaddr
    ensures EntrySteps(x, e) == EntrySteps(y, e)
  {
    SamePatchAddress(x, y, e);
    SameSecondAddress(x, y, e);
    SameSymbolAddress(x, y, e);
    hide StepFor, SegmentAddress, PatchAddress, SecondAddress;
  }

  lemma SameSymbolAddress(x: seq<DecryptedSegment>, y: seq<DecryptedSegment>, e: Entry)
    requires |x| == |y| && forall i :: 0 <= i < |x| ==> x[i].phdr.vaddr == y[i].phdr.vaddr
    ensures SegmentAddress(x, e.symbolSegment as nat) == SegmentAddress(y, e.symbolSegment as nat)
  {
  }

  lemma SamePatchAddress(x: seq<DecryptedSegment>, y: seq<DecryptedSegment>, e: Entry)
    requires |x| == |y| && forall i :: 0 <= i < |x| ==> x[i].phdr.vaddr == y[i].phdr.vaddr
    ensures PatchAddress(x, e) == PatchAddress(y, e)
  {
  }

  lemma SameSecondAddress(x: seq<DecryptedSegment>, y: seq<DecryptedSegment>, e: Entry)
    requires PatchAddress(x, e) == PatchAddress(y, e)
    ensures SecondAddress(x, e) == SecondAddress(y, e)
  {
    hide PatchAddress, Further;
  }

  /** Reordering or repeating the entries of a program, within its relocation segments or
      across them, gives the same memory and outcome when overlapping fields agree. */
  lemma PassIgnoresEntryOrder(mem: Bytes, x: seq<DecryptedSegment>, y: seq<DecryptedSegment>)
    requires SameEntries(x, y)
    requires Run(mem, PassSteps(x, x)).1
    requires AllCompatible(mem.Keys, PassSteps(x, x))
    ensures Run(mem, PassSteps(y, y)) == Run(mem, PassSteps(x, x))
  {
    hide *;
    forall st ensures st in PassSteps(x, x) <==> st in PassSteps(y, y) {
      SameSteps(x, y, st);
    }
    RunSucceedsIff(mem, PassSteps(x, x));
    RunIgnoresOrder(mem, PassSteps(x, x), PassSteps(y, y));
  }

  /** Different steps write different bits. */
  ghost predicate FieldsDisjoint(keys: set<int>, steps: seq<Step>) {
    forall i, j, a :: 0 <= i < |steps| && 0 <= j < |steps| && a in keys && steps[i] != steps[j] ==>
      MaskAt(steps[i], a) & MaskAt(steps[j], a) == 0
  }

  /** In particular when no two different patches overlap. */
  lemma PassIgnoresOrderOfDisjoint(mem: Bytes, x: seq<DecryptedSegment>, y: seq<DecryptedSegment>)
    requires SameEntries(x, y)
    requires Run(mem, PassSteps(x, x)).1
    requires FieldsDisjoint(mem.Keys, PassSteps(x, x))
    ensures Run(mem, PassSteps(y, y)) == Run(mem, PassSteps(x, x))
  {
    hide *;
    AllDisjointCompatible(mem.Keys, PassSteps(x, x));
    PassIgnoresEntryOrder(mem, x, y);
  }

  lemma AllDisjointCompatible(keys: set<int>, steps: seq<Step>)
    requires FieldsDisjoint(keys, steps)
    ensures AllCompatible(keys, steps)
  {
    hide MaskAt, Compatible;
    forall i, j | 0 <= i < |steps| && 0 <= j < |steps| ensures Compatible(keys, steps[i], steps[j]) {
      if steps[i] == steps[j] {
        SelfCompatible(keys, steps[i]);
      } else {
        DisjointAreCompatible(keys, steps[i], steps[j]);
      }
    }
  }

  lemma SelfCompatible(keys: set<int>, x: Step)
    ensures Compatible(keys, x, x)
  {
  }

  // ---------------------------------------------------------------- what the bytes ask for

  /** What an entry asks for. S is the start of the symbol segment, or 0; the patch goes to
      the start of the patch segment plus the offset, or to 0; a second one, if its type is
      not 0, goes four times the distance further. Other formats fail. */
  function Asked(segments: seq<DecryptedSegment>, n: Numbers, a: Word): seq<Step> {
    var s := if 0 <= n.symbolSegment < |segments| then segments[n.symbolSegment].phdr.vaddr else 0;
    var p := if 0 <= n.patchSegment < |segments|
             then (Start(segments[n.patchSegment]) + n.offset) % 0x1_0000_0000
             else 0;
    if n.format != 0 then [Reject]
    else
      [StepFor(n.code, s, a, p)]
      + (if n.code2 != 0 then [StepFor(n.code2, s, a, (p + 4 * n.dist2) % 0x1_0000_0000)] else [])
  }

  /** What the bytes of an entry do, written out. */
  lemma EntryMeaning(segments: seq<DecryptedSegment>, data: seq<Byte>)
    requires |data| >= 12
    ensures EntryAt(data).addend as int == Number(data, 4)
    ensures var a := EntryAt(data).addend;
            var symbol, patch, distance := Value(data, 0) / 16, Value(data, 2) % 16, Value(data, 3) / 16;
            var code, code2 := Value(data, 1), Value(data, 2) / 16 + 16 * (Value(data, 3) % 16);
            var s := if 0 <= symbol < |segments| then segments[symbol].phdr.vaddr else 0;
            var p := if 0 <= patch < |segments| then (Start(segments[patch]) + Number(data, 8)) % 0x1_0000_0000 else 0;
            EntrySteps(segments, EntryAt(data)) ==
              if Value(data, 0) % 16 != 0 then [Reject]
              else
                [StepFor(code, s, a, p)]
                + (if code2 != 0 then [StepFor(code2, s, a, (p + 4 * distance) % 0x1_0000_0000)] else [])
  {
    hide EntrySteps, EntryAt, StepFor, Start, Value, Number;
    EntryAsked(segments, data);
    Written(data, BytesAsNumbers(data));
  }

  lemma Written(data: seq<Byte>, n: Numbers)
    requires |data| >= 12 && n == BytesAsNumbers(data)
    ensures n.format == Value(data, 0) % 16 && n.symbolSegment == Value(data, 0) / 16 && n.code == Value(data, 1)
    ensures n.patchSegment == Value(data, 2) % 16 && n.code2 == Value(data, 2) / 16 + 16 * (Value(data, 3) % 16)
    ensures n.dist2 == Value(data, 3) / 16 && n.offset == Number(data, 8)
  {
    hide Value, Number;
  }

  lemma EntryAsked(segments: seq<DecryptedSegment>, data: seq<Byte>)
    requires |data| >= 12
    ensures EntryAt(data).addend as int == Number(data, 4)
    ensures EntrySteps(segments, EntryAt(data)) == Asked(segments, BytesAsNumbers(data), EntryAt(data).addend)
  {
    hide *;
    EntryBytes(data);
    AddendOf(data);
    MeaningOf(segments, EntryAt(data), BytesAsNumbers(data));
  }

  lemma AddendOf(data: seq<Byte>)
    requires |data| >= 12 && AsNumbers(EntryAt(data)) == BytesAsNumbers(data)
    ensures EntryAt(data).addend as int == Number(data, 4)
  {
    hide EntryAt, Number, Value;
  }

  lemma MeaningOf(segments: seq<DecryptedSegment>, e: Entry, n: Numbers)
    requires AsNumbers(e) == n
    ensures EntrySteps(segments, e) == Asked(segments, n, e.addend)
  {
    hide *;
    CodesOf(e, n);
    SymbolAddressIs(segments, e, n);
    PatchAddressIs(segments, e, n);
    SecondAddressIs(segments, e, n);
    StepsOf(segments, e, n);
    AskedIs(segments, n, e.addend);
  }

  lemma StepsOf(segments: seq<DecryptedSegment>, e: Entry, n: Numbers)
    requires e.code as int == n.code && e.code2 as int == n.code2 && (n.format == 0 <==> e.format == 0)
    ensures EntrySteps(segments, e) ==
              StepsWith(n, SegmentAddress(segments, e.symbolSegment as nat), e.addend, PatchAddress(segments, e),
                        SecondAddress(segments, e))
  {
    hide StepFor, SegmentAddress, PatchAddress, SecondAddress;
  }

  /** The steps once S, A and the two addresses are known. */
  function StepsWith(n: Numbers, s: Word, a: Word, p: Address, q: Address): seq<Step> {
    if n.format != 0 then [Reject]
    else [StepFor(n.code, s, a, p)] + (if n.code2 != 0 then [StepFor(n.code2, s, a, q)] else [])
  }

  lemma AskedIs(segments: seq<DecryptedSegment>, n: Numbers, a: Word)
    ensures var s := if 0 <= n.symbolSegment < |segments| then segments[n.symbolSegment].phdr.vaddr else 0;
            var p := if 0 <= n.patchSegment < |segments|
                     then (Start(segments[n.patchSegment]) + n.offset) % 0x1_0000_0000
                     else 0;
            Asked(segments, n, a) == StepsWith(n, s, a, p, (p + 4 * n.dist2) % 0x1_0000_0000)
  {
    hide StepFor, Start;
  }

  lemma SecondAddressIs(segments: seq<DecryptedSegment>, e: Entry, n: Numbers)
    requires AsNumbers(e) == n
    ensures SecondAddress(segments, e) == (PatchAddress(segments, e) + 4 * n.dist2) % 0x1_0000_0000
  {
    hide PatchAddress;
    SecondAddressIntendedIff(segments, e);
    hide SecondAddress;
  }

  lemma CodesOf(e: Entry, n: Numbers)
    requires AsNumbers(e) == n
    ensures e.code as int == n.code && e.code2 as int == n.code2 && e.dist2 as int == n.dist2
    ensures n.format == 0 <==> e.format == 0
  {
    FormatZero(e.format);
  }

  lemma FormatZero(format: bv4)
    ensures format as int == 0 <==> format == 0
  {
  }

  lemma SymbolAddressIs(segments: seq<DecryptedSegment>, e: Entry, n: Numbers)
    requires AsNumbers(e) == n
    ensures SegmentAddress(segments, e.symbolSegment as nat) ==
              if 0 <= n.symbolSegment < |segments| then segments[n.symbolSegment].phdr.vaddr else 0
  {
  }

  lemma PatchAddressIs(segments: seq<DecryptedSegment>, e: Entry, n: Numbers)
    requires AsNumbers(e) == n
    ensures PatchAddress(segments, e) ==
              if 0 <= n.patchSegment < |segments|
              then (Start(segments[n.patchSegment]) + n.offset) % 0x1_0000_0000
              else 0
  {
    hide Start;
  }

  /** Entries are packed: one for each 12 bytes, in order. */
  lemma {:induction false} EntriesPacked(data: seq<Byte>, k: nat)
    requires |data| % 12 == 0 && 12 * k < |data|
    ensures |Entries(data)| == |data| / 12
    ensures Entries(data)[k] == EntryAt(data[12 * k..])
    decreases |data|
  {
    hide EntryAt;
    if k > 0 {
      EntriesPacked(data[12..], k - 1);
      assert data[12..][12 * (k - 1)..] == data[12 * k..];
    } else {
      assert data[0..] == data;
      if |data| > 12 {
        EntriesPacked(data[12..], 0);
      }
    }
  }

  /** The steps of a relocation segment are those of its entries, in order. */
  lemma {:induction false} StepsInOrder(segments: seq<DecryptedSegment>, data: seq<Byte>, k: nat)
    requires |data| % 12 == 0 && 12 * k < |data|
    ensures DataSteps(segments, data) ==
              DataSteps(segments, data[..12 * k]) + EntrySteps(segments, EntryAt(data[12 * k..]))
              + DataSteps(segments, data[12 * (k + 1)..])
    decreases k
  {
    hide EntrySteps, EntryAt;
    if k > 0 {
      var rest, front := data[12..], data[..12 * k];
      StepsInOrder(segments, rest, k - 1);
      assert rest[12 * (k - 1)..] == data[12 * k..] && rest[12 * k..] == data[12 * (k + 1)..];
      assert rest[..12 * (k - 1)] == front[12..];
      SameFirstEntry(data, front);
    } else {
      assert data[0..] == data && data[..0] == [];
      assert DataSteps(segments, data) == EntrySteps(segments, EntryAt(data)) + DataSteps(segments, data[12..]);
    }
  }

  lemma SameFirstEntry(data: seq<Byte>, front: seq<Byte>)
    requires 12 <= |front| <= |data| && front == data[..|front|]
    ensures EntryAt(front) == EntryAt(data)
  {
    assert front[0..4] == data[0..4] && front[4..8] == data[4..8] && front[8..12] == data[8..12];
  }

  // ---------------------------------------------------------------- patched instructions

  /** Step `i` writes `value` in the field `mask` of the word at `address`, and no later
      step touches that field. */
  ghost predicate LastToTouch(mem: Bytes, steps: seq<Step>, i: nat, address: int, mask: Word, value: Word) {
    && AllApply(mem.Keys, steps) && HasWord(mem, address)
    && i < |steps| && steps[i] == Write(address, WordBytes(mask), WordBytes(value))
    && UntouchedFrom(steps, i + 1, address, WordBytes(mask))
  }

  /** Step `i` is a relocation of type `code` with this S and A at `at`, which as a word is
      P, and no later step touches its field. */
  ghost predicate LastRelocation(mem: Bytes, steps: seq<Step>, i: nat, code: int, s: Word, a: Word, p: Word,
                                 at: Address) {
    && AllApply(mem.Keys, steps) && HasWord(mem, at) && p == at as Word
    && Supported(code) && i < |steps| && steps[i] == StepFor(code, s, a, at)
    && UntouchedFrom(steps, i + 1, at, WordBytes(FieldMask(code)))
  }

  lemma LastRelocationTouches(mem: Bytes, steps: seq<Step>, i: nat, code: int, s: Word, a: Word, p: Word, at: Address)
    requires LastRelocation(mem, steps, i, code, s, a, p, at)
    ensures LastToTouch(mem, steps, i, at, FieldMask(code), FieldValue(code, s, a, p))
  {
    hide FieldMask, FieldValue, WordBytes, Supported, UntouchedFrom, AllApply, HasWord;
  }

  lemma SettledField(mem: Bytes, steps: seq<Step>, i: nat, address: int, mask: Word, value: Word)
    requires LastToTouch(mem, steps, i, address, mask, value)
    ensures HasWord(Run(mem, steps).0, address)
    ensures var w := WordAt(Run(mem, steps).0, address); w == Blend(w, mask, value)
  {
    FieldSurvives(mem, steps, i, address, mask, value);
  }

  /** After the pass the field of a relocation holds what its type, S, A and P determine. */
  lemma PatchedField(mem: Bytes, steps: seq<Step>, i: nat, code: int, s: Word, a: Word, p: Word, at: Address)
    requires LastRelocation(mem, steps, i, code, s, a, p, at)
    ensures HasWord(Run(mem, steps).0, at)
    ensures var w := WordAt(Run(mem, steps).0, at); w == Blend(w, FieldMask(code), FieldValue(code, s, a, p))
  {
    hide *;
    LastRelocationTouches(mem, steps, i, code, s, a, p, at);
    SettledField(mem, steps, i, at, FieldMask(code), FieldValue(code, s, a, p));
  }

  lemma WholeField(w: Word, value: Word)
    requires w == Blend(w, 0xFFFF_FFFF, value)
    ensures w == value
  {
  }

  lemma AbsoluteField(code: int, s: Word, a: Word, p: Word)
    requires code == 2 || code == 38
    ensures FieldMask(code) == 0xFFFF_FFFF && FieldValue(code, s, a, p) == s + a
  {
    hide BranchBits, MovBits;
  }

  /** After the pass the word of an ABS32 (2) or TARGET1 (38) relocation is S + A. */
  lemma PatchedAbsolute(mem: Bytes, steps: seq<Step>, i: nat, code: int, s: Word, a: Word, p: Word, at: Address)
    requires code == 2 || code == 38
    requires LastRelocation(mem, steps, i, code, s, a, p, at)
    ensures HasWord(Run(mem, steps).0, at)
    ensures WordAt(Run(mem, steps).0, at) == s + a
  {
    hide *;
    AbsoluteField(code, s, a, p);
    PatchedField(mem, steps, i, code, s, a, p, at);
    WholeField(WordAt(Run(mem, steps).0, at), s + a);
  }

  lemma Prel31Field(s: Word, a: Word, p: Word)
    ensures FieldMask(42) == 0xFFFF_FFFF && FieldValue(42, s, a, p) == (s + a - p) & 0x7FFF_FFFF
  {
    hide BranchBits, MovBits;
    SumOrder(s, a, p);
  }

  lemma SumOrder(s: Word, a: Word, p: Word)
    ensures a - p + s == s + a - p
  {
  }

  /** After the pass the word of a PREL31 (42) relocation is S + A - P without bit 31. */
  lemma PatchedPrel31(mem: Bytes, steps: seq<Step>, i: nat, s: Word, a: Word, p: Word, at: Address)
    requires LastRelocation(mem, steps, i, 42, s, a, p, at)
    ensures HasWord(Run(mem, steps).0, at)
    ensures WordAt(Run(mem, steps).0, at) == (s + a - p) & 0x7FFF_FFFF
  {
    hide *;
    Prel31Field(s, a, p);
    PatchedField(mem, steps, i, 42, s, a, p, at);
    WholeField(WordAt(Run(mem, steps).0, at), (s + a - p) & 0x7FFF_FFFF);
  }

  lemma BranchField(s: Word, a: Word, p: Word)
    ensures FieldMask(10) == 0x2FFF_07FF
    ensures FieldValue(10, s, a, p) == BranchBits(a - p + s)
  {
    hide BranchBits, MovBits;
  }

  /** After the pass a patched BL (10) branches by the displacement A - P + S exactly when
      that is even and within reach. */
  lemma PatchedBranch(mem: Bytes, steps: seq<Step>, i: nat, s: Word, a: Word, p: Word, at: Address)
    requires LastRelocation(mem, steps, i, 10, s, a, p, at)
    ensures HasWord(Run(mem, steps).0, at)
    ensures BranchOffset(WordAt(Run(mem, steps).0, at)) == a - p + s <==> BranchReaches(a - p + s)
  {
    hide *;
    BranchField(s, a, p);
    PatchedField(mem, steps, i, 10, s, a, p, at);
    BranchRoundTrip(WordAt(Run(mem, steps).0, at), a - p + s);
  }

  lemma MovFields(s: Word, a: Word, p: Word)
    ensures FieldMask(47) == FieldMask(48) == 0x70FF_040F
    ensures FieldValue(47, s, a, p) == MovBits((s + a) & 0xFFFF)
    ensures FieldValue(48, s, a, p) == MovBits((s + a) >> 16)
  {
    hide BranchBits, MovBits;
  }

  /** After the pass a MOVW (47) and a MOVT (48) patched with the same S and A load exactly
      S + A. */
  lemma PatchedMovPair(mem: Bytes, steps: seq<Step>, i: nat, j: nat, s: Word, a: Word,
                       p: Word, at: Address, q: Word, at': Address)
    requires LastRelocation(mem, steps, i, 47, s, a, p, at)
    requires LastRelocation(mem, steps, j, 48, s, a, q, at')
    ensures var after := Run(mem, steps).0;
            && HasWord(after, at) && HasWord(after, at')
            && PairValue(WordAt(after, at), WordAt(after, at')) == s + a
  {
    hide *;
    PatchedField(mem, steps, i, 47, s, a, p, at);
    PatchedField(mem, steps, j, 48, s, a, q, at');
    MovFields(s, a, p);
    MovFields(s, a, q);
    MovPairLoadsTarget(WordAt(Run(mem, steps).0, at), WordAt(Run(mem, steps).0, at'), s + a);
  }

  /** Bits of a word that no step touches, such as opcode and register bits, are kept. */
  lemma UntouchedBitsKept(mem: Bytes, steps: seq<Step>, p: int, mask: Word)
    requires AllApply(mem.Keys, steps) && HasWord(mem, p)
    requires UntouchedFrom(steps, 0, p, WordBytes(mask))
    ensures var w := WordAt(Run(mem, steps).0, p);
            w == Blend(w, mask, WordAt(mem, p))
  {
    hide Run, AllApply, UntouchedFrom, WordAt;
    UntouchedByteKept(mem, steps, p, WordBytes(mask), 0);
    UntouchedByteKept(mem, steps, p, WordBytes(mask), 1);
    UntouchedByteKept(mem, steps, p, WordBytes(mask), 2);
    UntouchedByteKept(mem, steps, p, WordBytes(mask), 3);
    var b := BytesAt(mem, p);
    BytesOfWord(mem, p);
    hide WordBytes, Blend, Settled;
    WordSettled(Run(mem, steps).0, p, mask, WordAt(mem, p), WordBytes(mask), b);
  }

  lemma UntouchedByteKept(mem: Bytes, steps: seq<Step>, p: int, mask: Bytes4, k: nat)
    requires AllApply(mem.Keys, steps) && k < 4 && p + k in mem
    requires UntouchedFrom(steps, 0, p, mask)
    ensures Settled(Run(mem, steps).0[p + k], mask[k], mem[p + k])
  {
    var x, y, m := Run(mem, steps).0[p + k], mem[p + k], mask[k];
    forall q | IsBit(q) ensures Bit(x, q) == Bit(Blend8(x, m, y), q) {
      BitOfBlend(x, m, y, q);
      if Bit(m, q) {
        forall j | 0 <= j < |steps| ensures !Covers(steps[j], p + k, q) {
          DisjointMasks(MaskAt(steps[j], p + k), m, q);
        }
        RunLastWriter(mem, steps, p + k, q);
      }
    }
    SameBits(x, Blend8(x, m, y));
  }
}
