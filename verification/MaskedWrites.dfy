/** The algebra of a relocation pass: a list of masked writes of constants, run until
    one of them fails. */
module MaskedWrites {
  import opened Words

  /** A masked write of the word at `address`, or an entry the loader rejects. */
  datatype Step = Reject | Write(address: int, mask: Bytes4, value: Bytes4)

  predicate Applies(keys: set<int>, step: Step) {
    step.Write? && step.address in keys
  }

  predicate AllApply(keys: set<int>, steps: seq<Step>) {
    forall i :: 0 <= i < |steps| ==> Applies(keys, steps[i])
  }

  function Apply(mem: Bytes, step: Step): (r: Bytes)
    requires step.Write?
    ensures r.Keys == mem.Keys
  {
    MaskedWrite(mem, step.address, step.mask, step.value)
  }

  /** Applies the steps in order and stops at the first that fails, leaving the
      earlier ones done. */
  function Run(mem: Bytes, steps: seq<Step>): (r: (Bytes, bool))
    ensures r.0.Keys == mem.Keys
    decreases |steps|
  {
    if steps == [] then (mem, true)
    else if !Applies(mem.Keys, steps[0]) then (mem, false)
    else Run(Apply(mem, steps[0]), steps[1..])
  }

  lemma {:induction false} RunSucceedsIff(mem: Bytes, steps: seq<Step>)
    ensures Run(mem, steps).1 <==> AllApply(mem.Keys, steps)
    decreases |steps|
  {
    if steps != [] && Applies(mem.Keys, steps[0]) {
      RunSucceedsIff(Apply(mem, steps[0]), steps[1..]);
      assert forall i :: 1 <= i < |steps| ==> steps[i] == steps[1..][i - 1];
    }
  }

  lemma RunOne(mem: Bytes, step: Step)
    ensures Run(mem, [step]) == if Applies(mem.Keys, step) then (Apply(mem, step), true) else (mem, false)
  {
  }

  lemma {:induction false} RunAppend(mem: Bytes, first: seq<Step>, second: seq<Step>)
    ensures Run(mem, first + second) ==
              if Run(mem, first).1 then Run(Run(mem, first).0, second) else Run(mem, first)
    decreases |first|
  {
    if first == [] {
      assert first + second == second;
    } else {
      assert (first + second)[1..] == first[1..] + second;
      if Applies(mem.Keys, first[0]) {
        RunAppend(Apply(mem, first[0]), first[1..], second);
      }
    }
  }

  // ---------------------------------------------------------------- one masked write

  /** The mask and value the write has at byte `a`; an empty mask off its word. */
  function MaskAt(step: Step, a: int): Byte {
    if step.Write? && step.address <= a < step.address + 4 then step.mask[a - step.address] else 0
  }

  function ValueAt(step: Step, a: int): Byte {
    if step.Write? && step.address <= a < step.address + 4 then step.value[a - step.address] else 0
  }

  lemma BlendNothing(x: Byte, v: Byte)
    ensures Blend8(x, 0, v) == x
  {
  }

  lemma ApplyAt(mem: Bytes, step: Step, a: int)
    requires step.Write? && a in mem
    ensures Apply(mem, step)[a] == Blend8(mem[a], MaskAt(step, a), ValueAt(step, a))
  {
    BlendNothing(mem[a], 0);
  }

  /** The single masked write a whole run amounts to at byte `a`: it depends on which
      addresses are mapped, never on what the memory holds. */
  function Net(keys: set<int>, steps: seq<Step>, a: int): (Byte, Byte)
    decreases |steps|
  {
    if steps == [] || !Applies(keys, steps[0]) then (0, 0)
    else
      var (m, v) := Net(keys, steps[1..], a);
      (MaskAt(steps[0], a) | m, Blend8(ValueAt(steps[0], a), m, v))
  }

  lemma {:induction false} RunIsOneWrite(mem: Bytes, steps: seq<Step>, a: int)
    requires a in mem
    ensures var (m, v) := Net(mem.Keys, steps, a);
            Run(mem, steps).0[a] == Blend8(mem[a], m, v)
    decreases |steps|
  {
    if steps == [] || !Applies(mem.Keys, steps[0]) {
      BlendNothing(mem[a], 0);
    } else {
      var (m, v) := Net(mem.Keys, steps[1..], a);
      RunIsOneWrite(Apply(mem, steps[0]), steps[1..], a);
      ApplyAt(mem, steps[0], a);
      BlendCompose(mem[a], MaskAt(steps[0], a), ValueAt(steps[0], a), m, v);
    }
  }

  /** Running a pass a second time changes nothing, whether or not it succeeds and
      however its writes overlap. */
  lemma RunTwice(mem: Bytes, steps: seq<Step>)
    ensures Run(Run(mem, steps).0, steps) == Run(mem, steps)
  {
    var once := Run(mem, steps).0;
    forall a | a in mem ensures Run(once, steps).0[a] == once[a] {
      var (m, v) := Net(mem.Keys, steps, a);
      RunIsOneWrite(mem, steps, a);
      RunIsOneWrite(once, steps, a);
      BlendCompose(mem[a], m, v, m, v);
    }
    assert Run(once, steps).0 == once;
    RunSucceedsIff(mem, steps);
    RunSucceedsIff(once, steps);
  }

  // ---------------------------------------------------------------- last writer wins

  predicate Covers(step: Step, a: int, q: Byte) {
    Bit(MaskAt(step, a), q)
  }

  /** The bit `q` of byte `a` is what the last covering step gives it, and what it was
      before when no step covers it. */
  ghost predicate LastWriterWins(before: Bytes, steps: seq<Step>, after: Bytes, a: int, q: Byte)
    requires a in before && a in after
  {
    && ((forall i :: 0 <= i < |steps| ==> !Covers(steps[i], a, q)) ==> Bit(after[a], q) == Bit(before[a], q))
    && (forall i :: 0 <= i < |steps| && Covers(steps[i], a, q)
                    && (forall j :: i < j < |steps| ==> !Covers(steps[j], a, q))
                    ==> Bit(after[a], q) == Bit(ValueAt(steps[i], a), q))
  }

  /** A successful run gives every bit of memory the value of the last step whose field
      mask covers it, or leaves it alone. */
  lemma {:induction false} RunLastWriter(mem: Bytes, steps: seq<Step>, a: int, q: Byte)
    requires AllApply(mem.Keys, steps) && a in mem && IsBit(q)
    ensures LastWriterWins(mem, steps, Run(mem, steps).0, a, q)
    decreases |steps|
  {
    hide LastWriterWins, Blend8, IsBit;
    if steps == [] {
      NoWriter(mem, a, q);
    } else {
      RunLastWriter(Apply(mem, steps[0]), steps[1..], a, q);
      ApplyAt(mem, steps[0], a);
      BitOfBlend(mem[a], MaskAt(steps[0], a), ValueAt(steps[0], a), q);
      LastWriterStep(mem, steps, Apply(mem, steps[0]), Run(mem, steps).0, a, q);
    }
  }

  lemma NoWriter(mem: Bytes, a: int, q: Byte)
    requires a in mem
    ensures LastWriterWins(mem, [], mem, a, q)
  {
  }

  /** One step earlier. */
  lemma LastWriterStep(before: Bytes, steps: seq<Step>, next: Bytes, after: Bytes, a: int, q: Byte)
    requires steps != [] && a in before && a in next && a in after
    requires Bit(next[a], q) == if Covers(steps[0], a, q) then Bit(ValueAt(steps[0], a), q) else Bit(before[a], q)
    requires LastWriterWins(next, steps[1..], after, a, q)
    ensures LastWriterWins(before, steps, after, a, q)
  {
    hide Bit, Covers, ValueAt;
    var rest := steps[1..];
    assert forall i :: 0 <= i < |rest| ==> rest[i] == steps[i + 1];
    assert forall i :: 1 <= i < |steps| ==> steps[i] == rest[i - 1];
  }

  // ---------------------------------------------------------------- order

  /** Where the masks of the two steps overlap, their values agree. Steps with disjoint
      field masks are compatible, and a step is compatible with itself. */
  ghost predicate Compatible(keys: set<int>, x: Step, y: Step) {
    forall a, q :: a in keys && IsBit(q) && Covers(x, a, q) && Covers(y, a, q) ==>
      Bit(ValueAt(x, a), q) == Bit(ValueAt(y, a), q)
  }

  lemma DisjointAreCompatible(keys: set<int>, x: Step, y: Step)
    requires forall a :: a in keys ==> MaskAt(x, a) & MaskAt(y, a) == 0
    ensures Compatible(keys, x, y)
  {
    forall a, q | a in keys && IsBit(q) && Covers(x, a, q) ensures !Covers(y, a, q) {
      DisjointMasks(MaskAt(y, a), MaskAt(x, a), q);
    }
  }

  ghost predicate AllCompatible(keys: set<int>, steps: seq<Step>) {
    forall i, j :: 0 <= i < |steps| && 0 <= j < |steps| ==> Compatible(keys, steps[i], steps[j])
  }

  /** Index of the last step covering the bit, or -1. */
  function LastCover(steps: seq<Step>, a: int, q: Byte): (k: int)
    ensures -1 <= k < |steps|
    ensures k >= 0 ==> Covers(steps[k], a, q)
    ensures forall j :: k < j < |steps| ==> !Covers(steps[j], a, q)
  {
    if steps == [] then -1
    else if Covers(steps[|steps| - 1], a, q) then |steps| - 1
    else LastCover(steps[..|steps| - 1], a, q)
  }

  /** With compatible steps only the set of entries matters: reordering or repeating
      them gives the same memory. */
  lemma RunIgnoresOrder(mem: Bytes, steps: seq<Step>, shuffled: seq<Step>)
    requires AllApply(mem.Keys, steps) && AllCompatible(mem.Keys, steps)
    requires forall s :: s in steps <==> s in shuffled
    ensures Run(mem, shuffled) == Run(mem, steps)
  {
    forall i | 0 <= i < |shuffled| ensures Applies(mem.Keys, shuffled[i]) {
      assert shuffled[i] in steps;
    }
    RunSucceedsIff(mem, steps);
    RunSucceedsIff(mem, shuffled);
    forall a | a in mem ensures Run(mem, shuffled).0[a] == Run(mem, steps).0[a] {
      forall q | IsBit(q) ensures Bit(Run(mem, shuffled).0[a], q) == Bit(Run(mem, steps).0[a], q) {
        SameBitInAnyOrder(mem, steps, shuffled, a, q);
      }
      SameBits(Run(mem, shuffled).0[a], Run(mem, steps).0[a]);
    }
    assert Run(mem, shuffled).0 == Run(mem, steps).0;
  }

  lemma SameBitInAnyOrder(mem: Bytes, steps: seq<Step>, shuffled: seq<Step>, a: int, q: Byte)
    requires AllApply(mem.Keys, steps) && AllCompatible(mem.Keys, steps) && AllApply(mem.Keys, shuffled)
    requires forall s :: s in steps <==> s in shuffled
    requires a in mem && IsBit(q)
    ensures Bit(Run(mem, shuffled).0[a], q) == Bit(Run(mem, steps).0[a], q)
  {
    RunLastWriter(mem, steps, a, q);
    RunLastWriter(mem, shuffled, a, q);
    var k, n := LastCover(steps, a, q), LastCover(shuffled, a, q);
    if k >= 0 {
      assert steps[k] in shuffled;
      assert n >= 0;
      assert shuffled[n] in steps;
      var m :| 0 <= m < |steps| && steps[m] == shuffled[n];
      assert Compatible(mem.Keys, steps[k], steps[m]);
    } else {
      forall i | 0 <= i < |shuffled| ensures !Covers(shuffled[i], a, q) {
        assert shuffled[i] in steps;
      }
    }
  }

  /** Compatibility is exactly what makes two steps commute. */
  lemma SwapIff(mem: Bytes, x: Step, y: Step)
    requires AllApply(mem.Keys, [x, y])
    ensures Run(mem, [x, y]) == Run(mem, [y, x]) <==> Compatible(mem.Keys, x, y)
  {
    var xy, yx := [x, y], [y, x];
    assert Applies(mem.Keys, xy[0]) && Applies(mem.Keys, xy[1]);
    if Compatible(mem.Keys, x, y) {
      assert AllCompatible(mem.Keys, xy);
      RunIgnoresOrder(mem, xy, yx);
    }
    if Run(mem, xy) == Run(mem, yx) {
      forall a, q | a in mem && IsBit(q) && Covers(x, a, q) && Covers(y, a, q)
        ensures Bit(ValueAt(x, a), q) == Bit(ValueAt(y, a), q)
      {
        RunLastWriter(mem, xy, a, q);
        RunLastWriter(mem, yx, a, q);
        assert Covers(xy[1], a, q) && Covers(yx[1], a, q);
      }
    }
  }

  // ---------------------------------------------------------------- whole fields

  /** No step from `i` on touches a bit of the field (`address`, `mask`). */
  ghost predicate UntouchedFrom(steps: seq<Step>, i: nat, address: int, mask: Bytes4) {
    forall j, k :: i <= j < |steps| && 0 <= k < 4 ==> MaskAt(steps[j], address + k) & mask[k] == 0
  }

  lemma DisjointMasks(m1: Byte, m2: Byte, q: Byte)
    requires m1 & m2 == 0 && Bit(m2, q) && IsBit(q)
    ensures !Bit(m1, q)
  {
  }

  lemma BitOfFieldSurvives(mem: Bytes, steps: seq<Step>, i: nat, k: nat, q: Byte)
    requires AllApply(mem.Keys, steps) && i < |steps| && k < 4 && steps[i].address + k in mem
    requires UntouchedFrom(steps, i + 1, steps[i].address, steps[i].mask)
    requires IsBit(q) && Bit(steps[i].mask[k], q)
    ensures Bit(Run(mem, steps).0[steps[i].address + k], q) == Bit(steps[i].value[k], q)
  {
    var a := steps[i].address + k;
    forall j | i < j < |steps| ensures !Covers(steps[j], a, q) {
      DisjointMasks(MaskAt(steps[j], a), steps[i].mask[k], q);
    }
    assert Covers(steps[i], a, q);
    RunLastWriter(mem, steps, a, q);
  }

  lemma ByteOfFieldSurvives(mem: Bytes, steps: seq<Step>, i: nat, a: int, m: Bytes4, v: Bytes4, k: nat)
    requires AllApply(mem.Keys, steps) && i < |steps| && steps[i] == Write(a, m, v) && k < 4 && a + k in mem
    requires UntouchedFrom(steps, i + 1, a, m)
    ensures Settled(Run(mem, steps).0[a + k], m[k], v[k])
  {
    hide Run, AllApply, UntouchedFrom, Bit, Blend8;
    var x := Run(mem, steps).0[a + k];
    forall q | IsBit(q) ensures Bit(x, q) == Bit(Blend8(x, m[k], v[k]), q) {
      BitOfBlend(x, m[k], v[k], q);
      if Bit(m[k], q) {
        BitOfFieldSurvives(mem, steps, i, k, q);
      }
    }
    SameBits(x, Blend8(x, m[k], v[k]));
  }

  /** A field no later step touches still holds what its step wrote when the run ends. */
  lemma FieldSurvives(mem: Bytes, steps: seq<Step>, i: nat, a: int, mask: Word, value: Word)
    requires AllApply(mem.Keys, steps) && HasWord(mem, a)
    requires i < |steps| && steps[i] == Write(a, WordBytes(mask), WordBytes(value))
    requires UntouchedFrom(steps, i + 1, a, WordBytes(mask))
    ensures var w := WordAt(Run(mem, steps).0, a);
            w == Blend(w, mask, value)
  {
    hide Run, AllApply, UntouchedFrom, WordBytes, Settled, Blend, WordAt;
    var m, v := WordBytes(mask), WordBytes(value);
    ByteOfFieldSurvives(mem, steps, i, a, m, v, 0);
    ByteOfFieldSurvives(mem, steps, i, a, m, v, 1);
    ByteOfFieldSurvives(mem, steps, i, a, m, v, 2);
    ByteOfFieldSurvives(mem, steps, i, a, m, v, 3);
    WordSettled(Run(mem, steps).0, a, mask, value, m, v);
  }
}
