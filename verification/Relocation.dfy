/** `apply_one_relocation`: each relocation type is a masked write of a constant, and
    what the written bits mean. The encodings are those of section 4.6.1 of ELF for
    the ARM Architecture (IHI 0044) and sections A8.8.25 (BL), A8.8.102 (MOVW) and
    A8.8.106 (MOVT) of the ARMv7-A/R Architecture Reference Manual (DDI 0406C). */
module Relocation {
  import opened Words
  import opened AddressSpace
  import opened GuestMemory

  const R_ARM_ABS32 := 2
  const R_ARM_THM_CALL := 10
  const R_ARM_TARGET1 := 38
  const R_ARM_PREL31 := 42
  const R_ARM_THM_MOVW_ABS_NC := 47
  const R_ARM_THM_MOVT_ABS := 48

  predicate Supported(code: int) {
    || code == R_ARM_ABS32 || code == R_ARM_TARGET1 || code == R_ARM_PREL31
    || code == R_ARM_THM_CALL || code == R_ARM_THM_MOVW_ABS_NC || code == R_ARM_THM_MOVT_ABS
  }

  lemma SupportedCodes(code: int)
    ensures Supported(code) <==> code in {2, 10, 38, 42, 47, 48}
  {
  }

  // ---------------------------------------------------------------- instruction fields

  function FieldS(w: Word): Word { (w >> 10) & 1 }
  function FieldJ1(w: Word): Word { (w >> 29) & 1 }
  function FieldJ2(w: Word): Word { (w >> 27) & 1 }
  function FieldImm10(w: Word): Word { w & 0x3FF }
  function FieldImm11(w: Word): Word { (w >> 16) & 0x7FF }

  /** S:I1:I2:imm10:imm11:'0' with I1 = NOT(J1 EOR S), I2 = NOT(J2 EOR S). */
  function Imm25(s: Word, j1: Word, j2: Word, imm10: Word, imm11: Word): Word {
    (s << 24) | ((!(j1 ^ s) & 1) << 23) | ((!(j2 ^ s) & 1) << 22) | (imm10 << 12) | (imm11 << 1)
  }

  function SignExtend25(x: Word): Word {
    if x & 0x0100_0000 != 0 then x | 0xFE00_0000 else x
  }

  /** The displacement a BL instruction word stands for. */
  function BranchOffset(w: Word): Word {
    SignExtend25(Imm25(FieldS(w), FieldJ1(w), FieldJ2(w), FieldImm10(w), FieldImm11(w)))
  }

  /** The 16-bit immediate imm4:i:imm3:imm8 of a Thumb-2 MOVW or MOVT. */
  function MovImmediate(w: Word): Word {
    ((w & 0xF) << 12) | (((w >> 10) & 1) << 11) | (((w >> 28) & 7) << 8) | ((w >> 16) & 0xFF)
  }

  /** What a MOVW word followed by a MOVT word for the same register load. */
  function PairValue(movw: Word, movt: Word): Word {
    (MovImmediate(movt) << 16) | MovImmediate(movw)
  }

  // ---------------------------------------------------------------- mask and value

  /** The bits of the word a relocation type writes. In a Thumb-2 BL (T1): S and imm10 of
      the first halfword, J1, J2 and imm11 of the second. In a MOVW or MOVT: i and imm4
      of the first halfword, imm3 and imm8 of the second. Otherwise the whole word. */
  function FieldMask(code: int): Word {
    if code == R_ARM_THM_CALL then 0x2FFF_07FF
    else if code == R_ARM_THM_MOVW_ABS_NC || code == R_ARM_THM_MOVT_ABS then 0x70FF_040F
    else 0xFFFF_FFFF
  }

  function BitS(d: Word): Word { (d >> 24) & 1 }
  function BitJ1(d: Word): Word { !((d >> 23) ^ (d >> 24)) & 1 }
  function BitJ2(d: Word): Word { !((d >> 22) ^ (d >> 24)) & 1 }

  function BranchBits(d: Word): Word {
    (((d >> 1) & 0x7FF) << 16) | (BitJ2(d) << 27) | (BitJ1(d) << 29) | (BitS(d) << 10) | ((d >> 12) & 0x3FF)
  }

  function MovBits(imm16: Word): Word {
    ((imm16 & 0xFF) << 16) | (((imm16 >> 8) & 7) << 28) | (((imm16 >> 11) & 1) << 10) | ((imm16 >> 12) & 0xF)
  }

  /** The bits written, from the displacement and the target alone. */
  function FieldBits(code: int, displacement: Word, target: Word): Word {
    if code == R_ARM_PREL31 then displacement & 0x7FFF_FFFF
    else if code == R_ARM_THM_CALL then BranchBits(displacement)
    else if code == R_ARM_THM_MOVW_ABS_NC then MovBits(target & 0xFFFF)
    else if code == R_ARM_THM_MOVT_ABS then MovBits(target >> 16)
    else target
  }

  function FieldValue(code: int, s: Word, a: Word, p: Word): Word {
    FieldBits(code, a - p + s, s + a)
  }

  // ---------------------------------------------------------------- what the bits mean

  /** Even, and in [-2^24, 2^24) as a signed displacement. */
  predicate BranchReaches(d: Word) {
    d & 1 == 0 && (d < 0x0100_0000 || d >= 0xFF00_0000)
  }

  // The five BL fields read back what was written, one field a lemma.
  lemma ReadsS(w: Word, d: Word)
    ensures FieldS(Blend(w, 0x2FFF_07FF, BranchBits(d))) == BitS(d)
  {
  }

  lemma ReadsJ1(w: Word, d: Word)
    ensures FieldJ1(Blend(w, 0x2FFF_07FF, BranchBits(d))) == BitJ1(d)
  {
  }

  lemma ReadsJ2(w: Word, d: Word)
    ensures FieldJ2(Blend(w, 0x2FFF_07FF, BranchBits(d))) == BitJ2(d)
  {
  }

  lemma ReadsImm10(w: Word, d: Word)
    ensures FieldImm10(Blend(w, 0x2FFF_07FF, BranchBits(d))) == (d >> 12) & 0x3FF
  {
  }

  lemma ReadsImm11(w: Word, d: Word)
    ensures FieldImm11(Blend(w, 0x2FFF_07FF, BranchBits(d))) == (d >> 1) & 0x7FF
  {
  }

  /** `d` modulo 2^25 without bit 0, sign extended from bit 24. */
  function Truncated(d: Word): Word {
    SignExtend25(d & 0x01FF_FFFE)
  }

  lemma BackwardBits(d: Word)
    requires d & 0x01FF_FFFE & 0x0100_0000 != 0
    ensures (d & 0x01FF_FFFE) | 0xFE00_0000 == d <==> d & 1 == 0 && (d < 0x0100_0000 || d >= 0xFF00_0000)
  {
  }

  lemma ForwardBits(d: Word)
    requires d & 0x01FF_FFFE & 0x0100_0000 == 0
    ensures d & 0x01FF_FFFE == d <==> d & 1 == 0 && (d < 0x0100_0000 || d >= 0xFF00_0000)
  {
  }

  lemma TruncatedIffReaches(d: Word)
    ensures Truncated(d) == d <==> BranchReaches(d)
  {
    if d & 0x01FF_FFFE & 0x0100_0000 != 0 {
      BackwardBits(d);
    } else {
      ForwardBits(d);
    }
  }

  lemma Imm25OfBits(d: Word)
    ensures Imm25(BitS(d), BitJ1(d), BitJ2(d), (d >> 12) & 0x3FF, (d >> 1) & 0x7FF) == d & 0x01FF_FFFE
  {
  }

  /** Decoding any word whose BL field was written with `d` yields `d` truncated, which
      is `d` itself exactly when `d` is even and within reach of the instruction. */
  lemma BranchRoundTrip(w: Word, d: Word)
    ensures BranchOffset(Blend(w, 0x2FFF_07FF, BranchBits(d))) == Truncated(d)
    ensures BranchOffset(Blend(w, 0x2FFF_07FF, BranchBits(d))) == d <==> BranchReaches(d)
  {
    ReadsS(w, d);
    ReadsJ1(w, d);
    ReadsJ2(w, d);
    ReadsImm10(w, d);
    ReadsImm11(w, d);
    Imm25OfBits(d);
    TruncatedIffReaches(d);
  }

  lemma MovRoundTrip(w: Word, imm16: Word)
    requires imm16 < 0x1_0000
    ensures MovImmediate(Blend(w, 0x70FF_040F, MovBits(imm16))) == imm16
  {
  }

  /** A MOVW word and a MOVT word patched for the same target load exactly that target,
      whatever else the words hold. */
  lemma MovPairLoadsTarget(w: Word, t: Word, target: Word)
    requires w == Blend(w, 0x70FF_040F, MovBits(target & 0xFFFF))
    requires t == Blend(t, 0x70FF_040F, MovBits(target >> 16))
    ensures PairValue(w, t) == target
  {
    HalvesMakeWhole(target);
    MovRoundTrip(w, target & 0xFFFF);
    MovRoundTrip(t, target >> 16);
  }

  /** Some instructions: MOVW R0, #0x1234 and #0x800; MOVT R0, #0x5678; BL to itself, and
      with a displacement of 1 MB, 4 MB and 8 MB. */
  lemma KnownInstructions()
    ensures MovImmediate(0x2034_F241) == 0x1234 && MovImmediate(0x0000_F640) == 0x800
    ensures MovImmediate(0x6078_F2C5) == 0x5678
    ensures BranchOffset(0xFFFE_F7FF) == 0xFFFF_FFFC && BranchOffset(0xF800_F100) == 0x0010_0000
    ensures BranchOffset(0xF000_F000) == 0x0040_0000 && BranchOffset(0xD800_F000) == 0x0080_0000
  {
  }

  lemma HalvesMakeWhole(x: Word)
    ensures ((x >> 16) << 16) | (x & 0xFFFF) == x
    ensures x & 0xFFFF < 0x1_0000 && x >> 16 < 0x1_0000
  {
  }

  /** The processor supplement keeps bit 31 of a PREL31 word; this code clears it. The two
      agree exactly on words whose bit 31 was clear. */
  lemma Prel31KeepsBit31Iff(w: Word, s: Word, a: Word, p: Word)
    ensures Blend(w, 0xFFFF_FFFF, (a - p + s) & 0x7FFF_FFFF) ==
              Blend(w, 0x7FFF_FFFF, a - p + s)
            <==> w & 0x8000_0000 == 0
  {
  }

  // ---------------------------------------------------------------- the code

  /** The bit-field stores of the THM_CALL case, in their order on the two halfwords.
      `sign` is written before it is read back for J1 and J2. */
  method StoreBranch(opcode: Word, displacement: Word) returns (w: Word)
    ensures w == Blend(opcode, 0x2FFF_07FF, BranchBits(displacement))
  {
    var upper := (opcode & 0xFFFF) as bv16;
    var lower := (opcode >> 16) as bv16;
    lower := (lower & 0xF800) | (((displacement >> 1) & 0x7FF) as bv16);
    upper := (upper & 0xFC00) | (((displacement >> 12) & 0x3FF) as bv16);
    upper := (upper & 0xFBFF) | ((((displacement >> 24) & 1) as bv16) << 10);
    var sign := ((upper >> 10) & 1) as Word;
    lower := (lower & 0xF7FF) | ((((sign ^ (!displacement >> 22)) & 1) as bv16) << 11);
    lower := (lower & 0xDFFF) | ((((sign ^ (!displacement >> 23)) & 1) as bv16) << 13);
    w := ((lower as Word) << 16) | (upper as Word);
  }

  /** The MOVW and MOVT cases, on the 16 bits they take from the target. */
  method StoreMov(opcode: Word, imm16: Word) returns (w: Word)
    requires imm16 < 0x1_0000
    ensures w == Blend(opcode, 0x70FF_040F, MovBits(imm16))
  {
    var imm8 := imm16 & 0xFF;
    var imm3 := (imm16 >> 8) & 0x7;
    var imm1 := (imm16 >> 11) & 0x1;
    var imm4 := (imm16 >> 12) & 0xF;
    w := opcode & 0x8F00_FBF0;
    w := w | (imm8 << 16) | (imm3 << 28) | (imm1 << 10) | imm4;
  }

  lemma WholeWord(w: Word, value: Word)
    ensures Blend(w, 0xFFFF_FFFF, value) == value
  {
  }

  method PatchedWord(opcode: Word, code: int, displacement: Word, target: Word) returns (word: Word)
    requires Supported(code)
    ensures word == Blend(opcode, FieldMask(code), FieldBits(code, displacement, target))
  {
    if code == R_ARM_ABS32 || code == R_ARM_TARGET1 {
      word := target;
      WholeWord(opcode, word);
    } else if code == R_ARM_PREL31 {
      word := displacement & 0x7FFF_FFFF;
      WholeWord(opcode, word);
    } else if code == R_ARM_THM_CALL {
      word := StoreBranch(opcode, displacement);
    } else if code == R_ARM_THM_MOVW_ABS_NC {
      HalvesMakeWhole(target);
      word := StoreMov(opcode, target & 0xFFFF);
    } else {
      HalvesMakeWhole(target);
      word := StoreMov(opcode, target >> 16);
    }
  }

  /** Storing the blended word through its pointer is a masked write of the view. */
  method StoreBlended(memory: Memory, data: Pointer, word: Word, ghost p: Address, ghost mask: Word, ghost value: Word)
    requires memory.Valid() && PairwiseApart(Spans(memory.regions))
    requires Fits(Spans(memory.regions), p, 4) && data == Locate(memory.regions, p)
    requires HasWord(memory.View(), p) && word == Blend(WordAt(memory.View(), p), mask, value)
    requires data.offset + 4 <= data.data.Length
    modifies data.data
    ensures memory.View() == MaskedWrite(old(memory.View()), p, WordBytes(mask), WordBytes(value))
  {
    OverlayIsMaskedWrite(memory.View(), p, mask, value);
    memory.Store(data, WordBytes(word), p);
  }

  /** Reads the word behind the pointer, patches it and stores it back. */
  method PatchThrough(memory: Memory, data: Pointer, code: int, displacement: Word, target: Word, ghost p: Address)
    requires memory.Valid() && PairwiseApart(Spans(memory.regions)) && Supported(code)
    requires Fits(Spans(memory.regions), p, 4) && data == Locate(memory.regions, p)
    modifies data.data
    ensures memory.View() ==
              MaskedWrite(old(memory.View()), p, WordBytes(FieldMask(code)),
                          WordBytes(FieldBits(code, displacement, target)))
  {
    hide WellFormed, PairwiseApart, Fits, Spans, WordBytes, FieldMask, FieldBits, MaskedWrite, Blend, PackSeq;
    memory.LoadIsWordAt(p);
    var word := PatchedWord(memory.LoadWord(data), code, displacement, target);
    assert memory.View() == old(memory.View());
    StoreBlended(memory, data, word, p, FieldMask(code), FieldBits(code, displacement, target));
  }

  /** One relocation either fails and changes nothing, or is the masked write of its
      constant. It fails exactly on an unmapped address or an unknown type. */
  method ApplyOneRelocation(memory: Memory, code: int, s: Word, a: Word, p: Address) returns (ok: bool)
    requires memory.Valid() && PairwiseApart(Spans(memory.regions))
    requires Supported(code) && Mapped(Spans(memory.regions), p) ==>
               Fits(Spans(memory.regions), p, 4)
    modifies memory.Buffers()
    ensures ok <==> p in old(memory.View()) && code in {2, 10, 38, 42, 47, 48}
    ensures ok ==>
              memory.View() == MaskedWrite(old(memory.View()), p, WordBytes(FieldMask(code)),
                                           WordBytes(FieldValue(code, s, a, p as Word)))
    ensures !ok ==> memory.View() == old(memory.View())
  {
    var data := memory.GetPointerUnchecked(p);
    if data.Null? || !Supported(code) {
      return false;
    }
    assert memory.View() == old(memory.View());
    PatchThrough(memory, data, code, a - (p as Word) + s, s + a, p);
    ok := true;
  }
}
