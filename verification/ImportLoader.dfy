/** The loops of `patch_function_import_data` and the function part of
    `add_module_imports`, refining `ImportStubs.PatchAll`. */
module ImportLoader {
  import opened Words
  import opened AddressSpace
  import opened GuestMemory
  import opened ImportStubs

  lemma OverlayAppend(mem: Bytes, a: int, s: seq<Byte>, t: seq<Byte>)
    ensures Overlay(Overlay(mem, a, s), a + |s|, t) == Overlay(mem, a, s + t)
  {
  }

  /** The host pointer `n` bytes further on, as `data + i` or `entry_addr++` makes it. */
  function Advance(p: Pointer, n: nat): Pointer
    requires p.At?
  {
    At(p.data, p.offset + n)
  }

  lemma AdvanceLocates(regions: seq<MemoryMap>, a: Address, n: nat, m: nat)
    requires WellFormed(regions) && PairwiseApart(Spans(regions))
    requires Fits(Spans(regions), a, n + m) && m > 0
    ensures Locate(regions, a).At?
    ensures a + n < LIMIT && Advance(Locate(regions, a), n) == Locate(regions, a + n)
    ensures Fits(Spans(regions), a + n, m)
    ensures Locate(regions, a).offset + n + m <= Locate(regions, a).data.Length
  {
    LocateNear(regions, a, a + n);
    ScanFinds(Spans(regions), a + n, Scan(Spans(regions), a));
  }

  lemma StubPrefix(nid: Word, i: nat)
    requires i < 3
    ensures StubBytes(nid)[..4 * i] + WordBytes([SVC, MOV_PC_LR, nid][i]) == StubBytes(nid)[..4 * (i + 1)]
  {
  }

  /** `*(data + i) = word` once the first bytes of `stub` are in place. */
  method StoreNext(memory: Memory, data: Pointer, i: nat, word: Word, ghost address: Address, ghost base: Bytes,
                   ghost done: seq<Byte>)
    requires memory.Valid() && PairwiseApart(Spans(memory.regions))
    requires i < 3 && Fits(Spans(memory.regions), address, 12) && data == Locate(memory.regions, address)
    requires |done| == 4 * i && memory.View() == Overlay(base, address, done)
    modifies data.data
    ensures memory.View() == Overlay(base, address, done + WordBytes(word))
  {
    hide Memory.View, WellFormed, PairwiseApart, Fits, Overlay, Spans;
    ghost var n := |done|;
    AdvanceLocates(memory.regions, address, n, 12 - n);
    OverlayAppend(base, address, done, WordBytes(word));
    ghost var view := memory.View();
    memory.Store(Advance(data, 4 * i), WordBytes(word), address + n);
    assert memory.View() == Overlay(view, address + n, WordBytes(word));
  }

  /** Writes the three words of a stub. */
  method PatchStub(memory: Memory, data: Pointer, nid: Word, ghost address: Address)
    requires memory.Valid() && PairwiseApart(Spans(memory.regions))
    requires Fits(Spans(memory.regions), address, 12) && data == Locate(memory.regions, address)
    modifies data.data
    ensures memory.View() == Overlay(old(memory.View()), address, StubBytes(nid))
  {
    var patchData := [SVC, MOV_PC_LR, nid];
    ghost var stub := StubBytes(nid);
    assert memory.View() == Overlay(old(memory.View()), address, stub[..0]);
    for i := 0 to 3
      invariant memory.View() == Overlay(old(memory.View()), address, stub[..4 * i])
    {
      StubPrefix(nid, i);
      StoreNext(memory, data, i, patchData[i], address, old(memory.View()), stub[..4 * i]);
    }
    assert stub[..12] == stub;
  }

  /** Reads a table row. */
  method ReadRow(memory: Memory, nid: Pointer, entry: Pointer, ghost nidAt: Address, ghost entryAt: Address)
    returns (row: FunctionImport)
    requires memory.Valid() && PairwiseApart(Spans(memory.regions))
    requires Fits(Spans(memory.regions), nidAt, 4) && nid == Locate(memory.regions, nidAt)
    requires Fits(Spans(memory.regions), entryAt, 4) && entry == Locate(memory.regions, entryAt)
    ensures HasWord(memory.View(), nidAt) && HasWord(memory.View(), entryAt)
    ensures row == FunctionImport(WordAt(memory.View(), nidAt), WordAt(memory.View(), entryAt))
    ensures memory.View() == old(memory.View())
  {
    var nidValue := ReadWord(memory, nid, nidAt);
    var entryAddress := ReadWord(memory, entry, entryAt);
    row := FunctionImport(nidValue, entryAddress);
  }

  /** The stub the row points to, if mapped, lies in one region. */
  ghost predicate TargetFits(spans: seq<Span>, mem: Bytes, nidAt: int, entryAt: int) {
    HasWord(mem, nidAt) && HasWord(mem, entryAt) && WordAt(mem, entryAt) as int in mem ==>
      Fits(spans, WordAt(mem, entryAt) as int, 12)
  }

  lemma RowTarget(spans: seq<Span>, mem: Bytes, nidAt: int, entryAt: int)
    requires Succeeds(mem, Patch(nidAt, entryAt)) ==> Fits(spans, EntryOf(mem, Patch(nidAt, entryAt)), 12)
    ensures TargetFits(spans, mem, nidAt, entryAt)
  {
    hide HasWord, WordAt, Fits;
  }

  /** One table row: patches the stub the row points to and records the row. */
  method ImportFunction(memory: Memory, nid: Pointer, entry: Pointer, ghost nidAt: Address, ghost entryAt: Address)
    returns (ok: bool, functionImport: FunctionImport)
    requires memory.Valid() && PairwiseApart(Spans(memory.regions))
    requires Fits(Spans(memory.regions), nidAt, 4) && nid == Locate(memory.regions, nidAt)
    requires Fits(Spans(memory.regions), entryAt, 4) && entry == Locate(memory.regions, entryAt)
    requires TargetFits(Spans(memory.regions), memory.View(), nidAt, entryAt)
    modifies memory.Buffers()
    ensures HasWord(old(memory.View()), nidAt) && HasWord(old(memory.View()), entryAt)
    ensures ok <==> WordAt(old(memory.View()), entryAt) as int in old(memory.View())
    ensures ok <==> Succeeds(old(memory.View()), Patch(nidAt, entryAt))
    ensures ok ==>
              && memory.View() == After(old(memory.View()), Patch(nidAt, entryAt))
              && HasWord(memory.View(), nidAt) && HasWord(memory.View(), entryAt)
              && functionImport == FunctionImport(WordAt(memory.View(), nidAt), WordAt(memory.View(), entryAt))
    ensures !ok ==> memory.View() == old(memory.View())
  {
    hide Memory.View, WellFormed, Spans, PairwiseApart, HasWord, WordAt;
    functionImport := ReadRow(memory, nid, entry, nidAt, entryAt);
    var entryData := memory.GetPointerUnchecked(functionImport.entryAddress as int);
    if entryData.Null? {
      return false, functionImport;
    }
    PatchStub(memory, entryData, functionImport.nid, functionImport.entryAddress as int);
    functionImport := ReadRow(memory, nid, entry, nidAt, entryAt);
    ok := true;
  }

  // ---------------------------------------------------------------- what stays in one region

  /** The table, the stub of the row or the word of the variable, if mapped at all, lies in
      one region. */
  ghost predicate ActionFits(spans: seq<Span>, mem: Bytes, action: Action) {
    match action
    case Refuse => true
    case Check(table, rows) => table in mem ==> Fits(spans, table, 4 * rows)
    case Patch(_, _) => Succeeds(mem, action) ==> Fits(spans, EntryOf(mem, action), 12)
    case Variable(entryAt) =>
      HasWord(mem, entryAt) && WordAt(mem, entryAt) as int in mem ==> Fits(spans, WordAt(mem, entryAt) as int, 4)
  }

  /** So does everything the patching gets to. */
  ghost predicate ActionsFit(spans: seq<Span>, mem: Bytes, actions: seq<Action>)
    decreases |actions|
  {
    actions != [] ==>
      && ActionFits(spans, mem, actions[0])
      && (Succeeds(mem, actions[0]) ==> ActionsFit(spans, After(mem, actions[0]), actions[1..]))
  }

  lemma {:induction false} ActionsFitSplit(spans: seq<Span>, mem: Bytes, first: seq<Action>, second: seq<Action>)
    requires ActionsFit(spans, mem, first + second)
    ensures ActionsFit(spans, mem, first)
    ensures PatchAll(mem, first).ok ==> ActionsFit(spans, PatchAll(mem, first).mem, second)
    decreases |first|
  {
    hide After, Succeeds, ActionFits;
    if first == [] {
      assert first + second == second;
    } else if Succeeds(mem, first[0]) {
      assert (first + second)[1..] == first[1..] + second;
      assert (first + second)[0] == first[0];
      ActionsFitSplit(spans, After(mem, first[0]), first[1..], second);
    }
  }

  /** Patching the first part and then the second is patching both. */
  lemma SplitPatch(spans: seq<Span>, mem: Bytes, first: seq<Action>, second: seq<Action>)
    requires ActionsFit(spans, mem, first + second)
    ensures ActionsFit(spans, mem, first)
    ensures var a := PatchAll(mem, first);
            var b := PatchAll(a.mem, second);
            && (a.ok ==> ActionsFit(spans, a.mem, second))
            && PatchAll(mem, first + second) == if a.ok then Outcome(b.mem, a.imports + b.imports, b.ok) else a
  {
    hide ActionsFit, PatchAll;
    ActionsFitSplit(spans, mem, first, second);
    PatchAllAppend(mem, first, second);
  }

  // ---------------------------------------------------------------- one library

  lemma RowStep(spans: seq<Span>, mem: Bytes, header: ImportHeader, i: nat)
    requires i < header.numFuncs && ActionsFit(spans, mem, Rows(header, i))
    ensures var row := Patch(header.nidTable + 4 * i, header.entryTable + 4 * i);
            if !Succeeds(mem, row) then PatchAll(mem, Rows(header, i)) == Outcome(mem, [], false)
            else
              var next := After(mem, row);
              var rest := PatchAll(next, Rows(header, i + 1));
              && PatchAll(mem, Rows(header, i)) == Outcome(rest.mem, Recorded(mem, row) + rest.imports, rest.ok)
              && Fits(spans, EntryOf(mem, row), 12)
              && ActionsFit(spans, next, Rows(header, i + 1))
  {
    hide EntryOf, WordAt, StubBytes, Fits, HasWord, Overlay, Recorded, After;
    assert Rows(header, i)[1..] == Rows(header, i + 1);
  }

  lemma RowRecorded(mem: Bytes, nidAt: int, entryAt: int)
    requires Succeeds(mem, Patch(nidAt, entryAt))
    ensures var next := After(mem, Patch(nidAt, entryAt));
            && HasWord(next, nidAt) && HasWord(next, entryAt)
            && Recorded(mem, Patch(nidAt, entryAt)) == [FunctionImport(WordAt(next, nidAt), WordAt(next, entryAt))]
  {
  }

  lemma RowsEnd(mem: Bytes, header: ImportHeader)
    ensures PatchAll(mem, Rows(header, header.numFuncs)) == Outcome(mem, [], true)
  {
  }

  /** Row `i` of a table that fits in its region. */
  lemma TableRow(memory: Memory, table: Address, n: nat, i: nat)
    requires memory.Valid() && PairwiseApart(Spans(memory.regions))
    requires Fits(Spans(memory.regions), table, 4 * n) && i < n
    ensures table + 4 * i < 0x1_0000_0000 && Locate(memory.regions, table).At?
    ensures Advance(Locate(memory.regions, table), 4 * i) == Locate(memory.regions, table + 4 * i)
    ensures Fits(Spans(memory.regions), table + 4 * i, 4)
  {
    AdvanceLocates(memory.regions, table, 4 * i, 4);
  }

  /** One round of the table loop. */
  method ImportRow(memory: Memory, header: ImportHeader, nid: Pointer, entry: Pointer, i: nat)
    returns (ok: bool, functionImport: FunctionImport)
    requires memory.Valid() && PairwiseApart(Spans(memory.regions))
    requires i < header.numFuncs
    requires Fits(Spans(memory.regions), header.nidTable, 4 * header.numFuncs)
    requires Fits(Spans(memory.regions), header.entryTable, 4 * header.numFuncs)
    requires nid == Locate(memory.regions, header.nidTable) && entry == Locate(memory.regions, header.entryTable)
    requires ActionsFit(Spans(memory.regions), memory.View(), Rows(header, i))
    modifies memory.Buffers()
    ensures var r := PatchAll(old(memory.View()), Rows(header, i));
            if ok then
              var rest := PatchAll(memory.View(), Rows(header, i + 1));
              && ActionsFit(Spans(memory.regions), memory.View(), Rows(header, i + 1))
              && r == Outcome(rest.mem, [functionImport] + rest.imports, rest.ok)
            else r.mem == memory.View() && !r.ok
  {
    hide *;
    TableRow(memory, header.nidTable, header.numFuncs, i);
    TableRow(memory, header.entryTable, header.numFuncs, i);
    RowStep(Spans(memory.regions), memory.View(), header, i);
    RowTarget(Spans(memory.regions), memory.View(), header.nidTable + 4 * i, header.entryTable + 4 * i);
    if Succeeds(memory.View(), Patch(header.nidTable + 4 * i, header.entryTable + 4 * i)) {
      RowRecorded(memory.View(), header.nidTable + 4 * i, header.entryTable + 4 * i);
    }
    ok, functionImport := ImportFunction(memory, Advance(nid, 4 * i), Advance(entry, 4 * i),
                                         header.nidTable + 4 * i, header.entryTable + 4 * i);
  }

  /** The table loop of one library whose tables are mapped. */
  method ImportRows(memory: Memory, header: ImportHeader, nid: Pointer, entry: Pointer)
    returns (ok: bool, imports: seq<FunctionImport>)
    requires memory.Valid() && PairwiseApart(Spans(memory.regions))
    requires Fits(Spans(memory.regions), header.nidTable, 4 * header.numFuncs)
    requires Fits(Spans(memory.regions), header.entryTable, 4 * header.numFuncs)
    requires nid == Locate(memory.regions, header.nidTable) && entry == Locate(memory.regions, header.entryTable)
    requires ActionsFit(Spans(memory.regions), memory.View(), Rows(header, 0))
    modifies memory.Buffers()
    ensures var r := PatchAll(old(memory.View()), Rows(header, 0));
            memory.View() == r.mem && ok == r.ok && (ok ==> imports == r.imports)
  {
    hide *;
    ghost var all := PatchAll(memory.View(), Rows(header, 0));
    imports := [];
    var i := 0;
    while i < header.numFuncs
      invariant 0 <= i <= header.numFuncs
      invariant ActionsFit(Spans(memory.regions), memory.View(), Rows(header, i))
      invariant var rest := PatchAll(memory.View(), Rows(header, i));
                all == Outcome(rest.mem, imports + rest.imports, rest.ok)
    {
      var functionImport;
      ok, functionImport := ImportRow(memory, header, nid, entry, i);
      if !ok {
        return;
      }
      ghost var rest := PatchAll(memory.View(), Rows(header, i + 1));
      assert imports + ([functionImport] + rest.imports) == (imports + [functionImport]) + rest.imports;
      imports := imports + [functionImport];
      i := i + 1;
    }
    RowsEnd(memory.View(), header);
    ok := true;
  }

  // ---------------------------------------------------------------- all libraries

  /** A table that is not mapped fails; one that is changes nothing. */
  lemma CheckStep(spans: seq<Span>, mem: Bytes, table: Address, rows: nat, rest: seq<Action>)
    requires ActionsFit(spans, mem, [Check(table, rows)] + rest)
    ensures var r := PatchAll(mem, [Check(table, rows)] + rest);
            if table !in mem then r == Outcome(mem, [], false)
            else r == PatchAll(mem, rest) && Fits(spans, table, 4 * rows) && ActionsFit(spans, mem, rest)
  {
    hide Fits;
    assert ([Check(table, rows)] + rest)[1..] == rest;
    var r := PatchAll(mem, rest);
    assert [] + r.imports == r.imports;
  }

  lemma VariableStep(spans: seq<Span>, mem: Bytes, header: ImportHeader, i: nat)
    requires i < header.numVars && ActionsFit(spans, mem, Variables(header, i))
    ensures var row := header.varEntryTable + 4 * i;
            var r := PatchAll(mem, Variables(header, i));
            && (HasWord(mem, row) && WordAt(mem, row) as int in mem ==> Fits(spans, WordAt(mem, row) as int, 4))
            && if !PlainVariable(mem, row) then r == Outcome(mem, [], false)
               else r == PatchAll(mem, Variables(header, i + 1)) && ActionsFit(spans, mem, Variables(header, i + 1))
  {
    hide HasWord, WordAt, Fits, PlainVariable;
    assert Variables(header, i)[0] == Variable(header.varEntryTable + 4 * i);
    assert Variables(header, i)[1..] == Variables(header, i + 1);
    var r := PatchAll(mem, Variables(header, i + 1));
    assert [] + r.imports == r.imports;
  }

  lemma VariablesEnd(mem: Bytes, header: ImportHeader)
    ensures PatchAll(mem, Variables(header, header.numVars)) == Outcome(mem, [], true)
    ensures PatchAll(mem, []) == Outcome(mem, [], true)
  {
  }

  /** One row of the variable table. Nothing is written. */
  method CheckVariable(memory: Memory, entry: Pointer, ghost entryAt: Address) returns (ok: bool)
    requires memory.Valid() && PairwiseApart(Spans(memory.regions))
    requires Fits(Spans(memory.regions), entryAt, 4) && entry == Locate(memory.regions, entryAt)
    requires HasWord(memory.View(), entryAt) && WordAt(memory.View(), entryAt) as int in memory.View() ==>
               Fits(Spans(memory.regions), WordAt(memory.View(), entryAt) as int, 4)
    ensures memory.View() == old(memory.View())
    ensures ok <==> PlainVariable(memory.View(), entryAt)
  {
    hide Memory.View, WellFormed, Spans, PairwiseApart, WordAt, RelocationDataSize, Fits;
    var address := ReadWord(memory, entry, entryAt);
    var data := memory.GetPointerUnchecked(address as int);
    if data.Null? {
      return false;
    }
    var word := ReadWord(memory, data, address as int);
    ok := RelocationDataSize(word) == 0;
  }

  /** The loop over the variable table. */
  method CheckVariables(memory: Memory, header: ImportHeader, entry: Pointer) returns (ok: bool)
    requires memory.Valid() && PairwiseApart(Spans(memory.regions))
    requires Fits(Spans(memory.regions), header.varEntryTable, 4 * header.numVars)
    requires entry == Locate(memory.regions, header.varEntryTable)
    requires ActionsFit(Spans(memory.regions), memory.View(), Variables(header, 0))
    ensures memory.View() == old(memory.View())
    ensures PatchAll(memory.View(), Variables(header, 0)) == Outcome(memory.View(), [], ok)
  {
    hide *;
    ghost var view := memory.View();
    var i := 0;
    while i < header.numVars
      invariant 0 <= i <= header.numVars && memory.View() == view
      invariant ActionsFit(Spans(memory.regions), view, Variables(header, i))
      invariant PatchAll(view, Variables(header, 0)) == PatchAll(view, Variables(header, i))
    {
      TableRow(memory, header.varEntryTable, header.numVars, i);
      VariableStep(Spans(memory.regions), view, header, i);
      ok := CheckVariable(memory, Advance(entry, 4 * i), header.varEntryTable + 4 * i);
      if !ok {
        return;
      }
      i := i + 1;
    }
    VariablesEnd(view, header);
    ok := true;
  }

  lemma VariableTables(spans: seq<Span>, mem: Bytes, header: ImportHeader)
    requires ActionsFit(spans, mem, VariableActions(header))
    ensures var r := PatchAll(mem, VariableActions(header));
            if header.varNidTable == 0 || header.varEntryTable == 0 then r == Outcome(mem, [], true)
            else if header.varNidTable !in mem || header.varEntryTable !in mem then r == Outcome(mem, [], false)
            else
              && r == PatchAll(mem, Variables(header, 0))
              && Fits(spans, header.varEntryTable, 4 * header.numVars)
              && ActionsFit(spans, mem, Variables(header, 0))
  {
    hide ActionsFit, PatchAll, Variables, Fits;
    if header.varNidTable != 0 && header.varEntryTable != 0 {
      CheckStep(spans, mem, header.varNidTable, 0,
                [Check(header.varEntryTable, header.numVars)] + Variables(header, 0));
      if header.varNidTable in mem {
        CheckStep(spans, mem, header.varEntryTable, header.numVars, Variables(header, 0));
      }
    } else {
      VariablesEnd(mem, header);
    }
  }

  /** The variable part of one library. */
  method ImportVariables(memory: Memory, header: ImportHeader) returns (ok: bool)
    requires memory.Valid() && PairwiseApart(Spans(memory.regions))
    requires ActionsFit(Spans(memory.regions), memory.View(), VariableActions(header))
    ensures memory.View() == old(memory.View())
    ensures PatchAll(memory.View(), VariableActions(header)) == Outcome(memory.View(), [], ok)
  {
    hide *;
    VariableTables(Spans(memory.regions), memory.View(), header);
    if header.varNidTable == 0 || header.varEntryTable == 0 {
      return true;
    }
    var nid := memory.GetPointerUnchecked(header.varNidTable);
    if nid.Null? {
      return false;
    }
    var entry := memory.GetPointerUnchecked(header.varEntryTable);
    if entry.Null? {
      return false;
    }
    ok := CheckVariables(memory, header, entry);
  }

  lemma FunctionTables(spans: seq<Span>, mem: Bytes, header: ImportHeader)
    requires ActionsFit(spans, mem, FunctionActions(header))
    ensures var r := PatchAll(mem, FunctionActions(header));
            if header.nidTable !in mem || header.entryTable !in mem then r == Outcome(mem, [], false)
            else
              && r == PatchAll(mem, Rows(header, 0))
              && Fits(spans, header.nidTable, 4 * header.numFuncs)
              && Fits(spans, header.entryTable, 4 * header.numFuncs)
              && ActionsFit(spans, mem, Rows(header, 0))
  {
    hide ActionsFit, PatchAll, Rows, Fits;
    CheckStep(spans, mem, header.nidTable, header.numFuncs,
              [Check(header.entryTable, header.numFuncs)] + Rows(header, 0));
    if header.nidTable in mem {
      CheckStep(spans, mem, header.entryTable, header.numFuncs, Rows(header, 0));
    }
  }

  /** The function part of one library. */
  method ImportFunctions(memory: Memory, header: ImportHeader) returns (ok: bool, imports: seq<FunctionImport>)
    requires memory.Valid() && PairwiseApart(Spans(memory.regions))
    requires ActionsFit(Spans(memory.regions), memory.View(), FunctionActions(header))
    modifies memory.Buffers()
    ensures var r := PatchAll(old(memory.View()), FunctionActions(header));
            memory.View() == r.mem && ok == r.ok && (ok ==> imports == r.imports)
  {
    hide *;
    FunctionTables(Spans(memory.regions), memory.View(), header);
    imports := [];
    var nid := memory.GetPointerUnchecked(header.nidTable);
    if nid.Null? {
      return false, imports;
    }
    var entry := memory.GetPointerUnchecked(header.entryTable);
    if entry.Null? {
      return false, imports;
    }
    ok, imports := ImportRows(memory, header, nid, entry);
  }

  /** The header check, the functions, and then the variables, which record nothing. */
  lemma LibraryParts(spans: seq<Span>, mem: Bytes, header: ImportHeader)
    requires ActionsFit(spans, mem, HeaderActions(header))
    ensures var r := PatchAll(mem, HeaderActions(header));
            if header.address !in mem || header.size != HEADER_SIZE then r == Outcome(mem, [], false)
            else
              var a := PatchAll(mem, FunctionActions(header));
              var b := PatchAll(a.mem, VariableActions(header));
              && ActionsFit(spans, mem, FunctionActions(header))
              && (a.ok ==> ActionsFit(spans, a.mem, VariableActions(header)))
              && r == if a.ok then Outcome(b.mem, a.imports + b.imports, b.ok) else a
  {
    hide ActionsFit, PatchAll, FunctionActions, VariableActions;
    if header.size == HEADER_SIZE {
      CheckStep(spans, mem, header.address, HEADER_SIZE / 4, FunctionActions(header) + VariableActions(header));
      if header.address in mem {
        SplitPatch(spans, mem, FunctionActions(header), VariableActions(header));
      }
    } else {
      CheckStep(spans, mem, header.address, 1, [Refuse]);
      RefuseFails(mem);
    }
  }

  lemma RefuseFails(mem: Bytes)
    ensures PatchAll(mem, [Refuse]) == Outcome(mem, [], false)
  {
  }

  method ImportLibrary(memory: Memory, header: ImportHeader) returns (ok: bool, library: FunctionImportLibrary)
    requires memory.Valid() && PairwiseApart(Spans(memory.regions))
    requires ActionsFit(Spans(memory.regions), memory.View(), HeaderActions(header))
    modifies memory.Buffers()
    ensures var r := PatchAll(old(memory.View()), HeaderActions(header));
            && memory.View() == r.mem && ok == r.ok
            && (ok ==> library == FunctionImportLibrary(header.libraryName, r.imports))
  {
    hide *;
    LibraryParts(Spans(memory.regions), memory.View(), header);
    library := FunctionImportLibrary(header.libraryName, []);
    var raw := memory.GetPointerUnchecked(header.address);
    if raw.Null? || header.size != HEADER_SIZE {
      return false, library;
    }
    var imports;
    ok, imports := ImportFunctions(memory, header);
    if !ok {
      return;
    }
    library := FunctionImportLibrary(header.libraryName, imports);
    ok := ImportVariables(memory, header);
    assert imports + [] == imports;
  }

  function AllImports(libraries: seq<FunctionImportLibrary>): seq<FunctionImport> {
    if libraries == [] then []
    else AllImports(libraries[..|libraries| - 1]) + libraries[|libraries| - 1].functionImports
  }

  /** One library for each of the first `n` headers, with its name and all its functions. */
  predicate Grouped(libraries: seq<FunctionImportLibrary>, headers: seq<ImportHeader>, n: nat)
    requires n <= |headers|
  {
    && |libraries| == n
    && forall i :: 0 <= i < n ==>
         && libraries[i].libraryName == headers[i].libraryName
         && |libraries[i].functionImports| == headers[i].numFuncs
  }

  lemma OneMoreLibrary(libraries: seq<FunctionImportLibrary>, library: FunctionImportLibrary)
    ensures AllImports(libraries + [library]) == AllImports(libraries) + library.functionImports
  {
    assert (libraries + [library])[..|libraries|] == libraries;
  }

  lemma {:induction false} RowsRecordAll(mem: Bytes, header: ImportHeader, i: nat)
    requires i <= header.numFuncs && PatchAll(mem, Rows(header, i)).ok
    ensures |PatchAll(mem, Rows(header, i)).imports| == header.numFuncs - i
    decreases header.numFuncs - i
  {
    hide After, Succeeds;
    if i < header.numFuncs {
      assert Rows(header, i)[1..] == Rows(header, i + 1);
      RowsRecordAll(After(mem, Rows(header, i)[0]), header, i + 1);
    }
  }

  /** The first library's actions, and those of the rest. */
  lemma LibraryStep(spans: seq<Span>, mem: Bytes, headers: seq<ImportHeader>, n: nat)
    requires n < |headers| && ActionsFit(spans, mem, ModuleActions(headers, n))
    ensures ActionsFit(spans, mem, HeaderActions(headers[n]))
    ensures var a := PatchAll(mem, HeaderActions(headers[n]));
            var b := PatchAll(a.mem, ModuleActions(headers, n + 1));
            && (a.ok ==> ActionsFit(spans, a.mem, ModuleActions(headers, n + 1)) && |a.imports| == headers[n].numFuncs)
            && PatchAll(mem, ModuleActions(headers, n)) ==
                 if a.ok then Outcome(b.mem, a.imports + b.imports, b.ok) else a
  {
    hide HeaderActions, ActionsFit, PatchAll;
    SplitPatch(spans, mem, HeaderActions(headers[n]), ModuleActions(headers, n + 1));
    if PatchAll(mem, HeaderActions(headers[n])).ok {
      LibraryRecordsAll(spans, mem, headers[n]);
    }
  }

  lemma LibraryRecordsAll(spans: seq<Span>, mem: Bytes, header: ImportHeader)
    requires ActionsFit(spans, mem, HeaderActions(header)) && PatchAll(mem, HeaderActions(header)).ok
    ensures |PatchAll(mem, HeaderActions(header)).imports| == header.numFuncs
  {
    hide HeaderActions, FunctionActions, VariableActions, ActionsFit, PatchAll, Rows;
    LibraryParts(spans, mem, header);
    var a := PatchAll(mem, FunctionActions(header));
    FunctionTables(spans, mem, header);
    RowsRecordAll(mem, header, 0);
    VariableTables(spans, a.mem, header);
    if header.varNidTable != 0 && header.varEntryTable != 0 {
      VariablesRecordNothing(a.mem, header, 0);
    }
  }

  lemma {:induction false} VariablesRecordNothing(mem: Bytes, header: ImportHeader, i: nat)
    requires i <= header.numVars
    ensures PatchAll(mem, Variables(header, i)).imports == []
    decreases header.numVars - i
  {
    hide PlainVariable;
    if i < header.numVars {
      assert Variables(header, i)[1..] == Variables(header, i + 1);
      VariablesRecordNothing(mem, header, i + 1);
    }
  }

  lemma LibrariesEnd(mem: Bytes, headers: seq<ImportHeader>)
    ensures PatchAll(mem, ModuleActions(headers, |headers|)) == Outcome(mem, [], true)
    ensures AllImports([]) == [] && Grouped([], headers, 0)
  {
  }

  lemma OneMoreGrouped(libraries: seq<FunctionImportLibrary>, library: FunctionImportLibrary,
                       headers: seq<ImportHeader>, n: nat)
    requires n < |headers| && Grouped(libraries, headers, n)
    requires library.libraryName == headers[n].libraryName && |library.functionImports| == headers[n].numFuncs
    ensures Grouped(libraries + [library], headers, n + 1)
  {
  }

  method AddModuleImports(memory: Memory, headers: seq<ImportHeader>)
    returns (ok: bool, libraries: seq<FunctionImportLibrary>)
    requires memory.Valid() && PairwiseApart(Spans(memory.regions))
    requires ActionsFit(Spans(memory.regions), memory.View(), ModuleActions(headers, 0))
    modifies memory.Buffers()
    ensures var r := PatchAll(old(memory.View()), ModuleActions(headers, 0));
            && memory.View() == r.mem && ok == r.ok
            && (ok ==> Grouped(libraries, headers, |headers|) && AllImports(libraries) == r.imports)
  {
    hide *;
    ghost var all := PatchAll(memory.View(), ModuleActions(headers, 0));
    LibrariesEnd(memory.View(), headers);
    libraries := [];
    var n := 0;
    while n < |headers|
      invariant 0 <= n <= |headers|
      invariant ActionsFit(Spans(memory.regions), memory.View(), ModuleActions(headers, n))
      invariant Grouped(libraries, headers, n)
      invariant var rest := PatchAll(memory.View(), ModuleActions(headers, n));
                && all.mem == rest.mem && all.ok == rest.ok
                && (all.ok ==> all.imports == AllImports(libraries) + rest.imports)
    {
      LibraryStep(Spans(memory.regions), memory.View(), headers, n);
      var library;
      ok, library := ImportLibrary(memory, headers[n]);
      if !ok {
        return;
      }
      ghost var rest := PatchAll(memory.View(), ModuleActions(headers, n + 1));
      assert AllImports(libraries) + (library.functionImports + rest.imports)
          == (AllImports(libraries) + library.functionImports) + rest.imports;
      OneMoreLibrary(libraries, library);
      OneMoreGrouped(libraries, library, headers, n);
      libraries := libraries + [library];
      n := n + 1;
    }
    LibrariesEnd(memory.View(), headers);
    ok := true;
  }
}
