/** `add_module_imports` on decoded headers: every imported function's stub in guest
    memory is overwritten with a supervisor call, a return and the function's NID, and
    variable imports are refused if they need relocation. */
module ImportStubs {
  import opened Words
  import opened AddressSpace

  const SVC: Word := 0xEF00_0000
  const MOV_PC_LR: Word := 0xE1A0_F00E

  datatype FunctionImport = FunctionImport(nid: Word, entryAddress: Word)

  datatype FunctionImportLibrary = FunctionImportLibrary(libraryName: string, functionImports: seq<FunctionImport>)

  /** Where an import header is, and its fields that are read. */
  datatype ImportHeader = ImportHeader(
    address: Address, size: int, libraryName: string,
    nidTable: Address, entryTable: Address, numFuncs: nat,
    varNidTable: Address, varEntryTable: Address, numVars: nat)

  /** The one header size that is understood, in bytes. */
  const HEADER_SIZE := 0x34

  function StubBytes(nid: Word): (s: seq<Byte>)
    ensures |s| == 12
  {
    WordBytes(SVC) + WordBytes(MOV_PC_LR) + WordBytes(nid)
  }

  // ---------------------------------------------------------------- specification

  /** A header of another size, a table of `rows` words whose start must be mapped, a table
      row whose stub is patched, or a table row that names a variable. */
  datatype Action =
    | Refuse
    | Check(table: int, rows: nat)
    | Patch(nidAt: int, entryAt: int)
    | Variable(entryAt: int)

  function Rows(header: ImportHeader, i: nat): seq<Action>
    requires i <= header.numFuncs
    decreases header.numFuncs - i
  {
    if i == header.numFuncs then []
    else [Patch(header.nidTable + 4 * i, header.entryTable + 4 * i)] + Rows(header, i + 1)
  }

  function Variables(header: ImportHeader, i: nat): seq<Action>
    requires i <= header.numVars
    decreases header.numVars - i
  {
    if i == header.numVars then [] else [Variable(header.varEntryTable + 4 * i)] + Variables(header, i + 1)
  }

  function VariableActions(header: ImportHeader): seq<Action> {
    if header.varNidTable != 0 && header.varEntryTable != 0
    then [Check(header.varNidTable, 0)] + ([Check(header.varEntryTable, header.numVars)] + Variables(header, 0))
    else []
  }

  function FunctionActions(header: ImportHeader): seq<Action> {
    [Check(header.nidTable, header.numFuncs)] + ([Check(header.entryTable, header.numFuncs)] + Rows(header, 0))
  }

  function HeaderActions(header: ImportHeader): seq<Action> {
    if header.size != HEADER_SIZE then [Check(header.address, 1)] + [Refuse]
    else [Check(header.address, HEADER_SIZE / 4)] + (FunctionActions(header) + VariableActions(header))
  }

  /** What the loop over the headers does from header `n` on. */
  function ModuleActions(headers: seq<ImportHeader>, n: nat): seq<Action>
    requires n <= |headers|
    decreases |headers| - n
  {
    if n == |headers| then [] else HeaderActions(headers[n]) + ModuleActions(headers, n + 1)
  }

  function EntryOf(mem: Bytes, action: Action): int
    requires action.Patch? && HasWord(mem, action.entryAt)
  {
    WordAt(mem, action.entryAt) as int
  }

  /** The size of a variable's relocation data, from its first word. */
  function RelocationDataSize(w: Word): Word {
    (w >> 4) & 0xFF_FFFF
  }

  /** Bits 4 to 27. */
  lemma RelocationDataSizeIs(low: bv4, size: bv24, high: bv4)
    ensures RelocationDataSize((low as Word) | ((size as Word) << 4) | ((high as Word) << 28)) == size as Word
  {
  }

  /** The row points to a word that asks for no relocation. */
  predicate PlainVariable(mem: Bytes, entryAt: int) {
    && HasWord(mem, entryAt)
    && var data := WordAt(mem, entryAt) as int;
       HasWord(mem, data) && RelocationDataSize(WordAt(mem, data)) == 0
  }

  /** Only the lowest and the highest four bits of that word may be set. */
  lemma PlainVariableIff(mem: Bytes, entryAt: int)
    ensures PlainVariable(mem, entryAt) <==>
              && HasWord(mem, entryAt) && HasWord(mem, WordAt(mem, entryAt) as int)
              && exists low: bv4, high: bv4 ::
                   WordAt(mem, WordAt(mem, entryAt) as int) == Ends(low, high)
  {
    hide HasWord, WordAt, Ends, RelocationDataSize;
    if HasWord(mem, entryAt) && HasWord(mem, WordAt(mem, entryAt) as int) {
      var w := WordAt(mem, WordAt(mem, entryAt) as int);
      if RelocationDataSize(w) == 0 {
        EndsOf(w);
      }
      forall low: bv4, high: bv4 | w == Ends(low, high) ensures RelocationDataSize(w) == 0 {
        SizeOfEnds(low, high);
      }
    }
  }

  function Ends(low: bv4, high: bv4): Word {
    (low as Word) | ((high as Word) << 28)
  }

  lemma EndsOf(w: Word)
    requires RelocationDataSize(w) == 0
    ensures w == Ends((w & 0xF) as bv4, (w >> 28) as bv4)
  {
  }

  lemma SizeOfEnds(low: bv4, high: bv4)
    ensures RelocationDataSize(Ends(low, high)) == 0
  {
  }

  predicate Succeeds(mem: Bytes, action: Action) {
    match action
    case Refuse => false
    case Variable(entryAt) => PlainVariable(mem, entryAt)
    case Check(table, _) => table in mem
    case Patch(nidAt, entryAt) => HasWord(mem, nidAt) && HasWord(mem, entryAt) && EntryOf(mem, action) in mem
  }

  function After(mem: Bytes, action: Action): (r: Bytes)
    requires Succeeds(mem, action)
    ensures r.Keys == mem.Keys
  {
    match action
    case Check(_, _) => mem
    case Variable(_) => mem
    case Patch(nidAt, entryAt) => Overlay(mem, EntryOf(mem, action), StubBytes(WordAt(mem, nidAt)))
  }

  /** The record pushed for a row. It is read from the tables after the stub is written. */
  function Recorded(mem: Bytes, action: Action): seq<FunctionImport>
    requires Succeeds(mem, action)
  {
    match action
    case Check(_, _) => []
    case Variable(_) => []
    case Patch(nidAt, entryAt) =>
      [FunctionImport(WordAt(After(mem, action), nidAt), WordAt(After(mem, action), entryAt))]
  }

  datatype Outcome = Outcome(mem: Bytes, imports: seq<FunctionImport>, ok: bool)

  function PatchAll(mem: Bytes, actions: seq<Action>): (r: Outcome)
    ensures r.mem.Keys == mem.Keys
    decreases |actions|
  {
    if actions == [] then Outcome(mem, [], true)
    else if !Succeeds(mem, actions[0]) then Outcome(mem, [], false)
    else
      var rest := PatchAll(After(mem, actions[0]), actions[1..]);
      Outcome(rest.mem, Recorded(mem, actions[0]) + rest.imports, rest.ok)
  }

  lemma {:induction false} PatchAllAppend(mem: Bytes, first: seq<Action>, second: seq<Action>)
    ensures var a := PatchAll(mem, first);
            var b := PatchAll(a.mem, second);
            PatchAll(mem, first + second) ==
              if a.ok then Outcome(b.mem, a.imports + b.imports, b.ok) else a
    decreases |first|
  {
    if first == [] {
      assert first + second == second;
    } else {
      assert (first + second)[1..] == first[1..] + second;
      if Succeeds(mem, first[0]) {
        var next := After(mem, first[0]);
        PatchAllAppend(next, first[1..], second);
        var a := PatchAll(next, first[1..]);
        var r := Recorded(mem, first[0]);
        assert r + (a.imports + PatchAll(a.mem, second).imports) == (r + a.imports) + PatchAll(a.mem, second).imports;
      }
    }
  }

  // ---------------------------------------------------------------- what patching leaves

  predicate Disjoint(a: int, n: nat, b: int, m: nat) {
    a + n <= b || b + m <= a
  }

  /** In `mem`, the stubs of the rows are disjoint from each other and from every row. */
  ghost predicate StubsApart(mem: Bytes, actions: seq<Action>) {
    && (forall i :: 0 <= i < |actions| && actions[i].Patch? ==>
          HasWord(mem, actions[i].nidAt) && HasWord(mem, actions[i].entryAt))
    && (forall i, j :: 0 <= i < |actions| && 0 <= j < |actions| && actions[i].Patch? && actions[j].Patch? ==>
          && Disjoint(EntryOf(mem, actions[i]), 12, actions[j].nidAt, 4)
          && Disjoint(EntryOf(mem, actions[i]), 12, actions[j].entryAt, 4)
          && (i != j ==> Disjoint(EntryOf(mem, actions[i]), 12, EntryOf(mem, actions[j]), 12)))
  }

  lemma WordKept(mem: Bytes, a: int, s: seq<Byte>, p: int)
    requires HasWord(mem, p) && Disjoint(a, |s|, p, 4)
    ensures WordAt(Overlay(mem, a, s), p) == WordAt(mem, p)
  {
  }

  /** Writing the first stub leaves every row, and so every condition on the others. */
  lemma RowsKept(mem: Bytes, actions: seq<Action>)
    requires StubsApart(mem, actions) && actions != [] && Succeeds(mem, actions[0])
    ensures forall j :: 0 <= j < |actions| && actions[j].Patch? ==>
              && HasWord(After(mem, actions[0]), actions[j].nidAt)
              && HasWord(After(mem, actions[0]), actions[j].entryAt)
              && WordAt(After(mem, actions[0]), actions[j].nidAt) == WordAt(mem, actions[j].nidAt)
              && WordAt(After(mem, actions[0]), actions[j].entryAt) == WordAt(mem, actions[j].entryAt)
    ensures StubsApart(After(mem, actions[0]), actions[1..])
  {
    hide After, Overlay, WordAt, HasWord, StubBytes, Succeeds;
    var next, rest := After(mem, actions[0]), actions[1..];
    forall j | 0 <= j < |actions| && actions[j].Patch?
      ensures HasWord(next, actions[j].nidAt) && WordAt(next, actions[j].nidAt) == WordAt(mem, actions[j].nidAt)
      ensures HasWord(next, actions[j].entryAt) && WordAt(next, actions[j].entryAt) == WordAt(mem, actions[j].entryAt)
    {
      AfterKeepsWord(mem, actions[0], actions[j].nidAt);
      AfterKeepsWord(mem, actions[0], actions[j].entryAt);
    }
    forall j | 0 <= j < |rest| && rest[j].Patch?
      ensures HasWord(next, rest[j].nidAt) && HasWord(next, rest[j].entryAt)
      ensures EntryOf(next, rest[j]) == EntryOf(mem, actions[j + 1]) && rest[j] == actions[j + 1]
    {
    }
  }

  lemma AfterKeepsWord(mem: Bytes, action: Action, p: int)
    requires Succeeds(mem, action) && HasWord(mem, p)
    requires action.Patch? ==> Disjoint(EntryOf(mem, action), 12, p, 4)
    ensures HasWord(After(mem, action), p) && WordAt(After(mem, action), p) == WordAt(mem, p)
  {
    if action.Patch? {
      WordKept(mem, EntryOf(mem, action), StubBytes(WordAt(mem, action.nidAt)), p);
    }
  }

  /** The byte `x` lies in none of the stubs. */
  ghost predicate OffStubs(mem: Bytes, actions: seq<Action>, x: int)
    requires StubsApart(mem, actions)
  {
    forall i :: 0 <= i < |actions| && actions[i].Patch? ==> Disjoint(EntryOf(mem, actions[i]), 12, x, 1)
  }

  /** Bytes off the stubs are not changed. */
  lemma {:induction false} OffStubsKept(mem: Bytes, actions: seq<Action>, x: int)
    requires StubsApart(mem, actions) && x in mem && OffStubs(mem, actions, x)
    ensures PatchAll(mem, actions).mem[x] == mem[x]
    decreases |actions|
  {
    if actions != [] && Succeeds(mem, actions[0]) {
      RowsKept(mem, actions);
      forall j | 0 <= j < |actions| - 1 ensures actions[1..][j] == actions[j + 1] {}
      OffStubsKept(After(mem, actions[0]), actions[1..], x);
    }
  }

  /** The bytes from `a` on are `s`. */
  predicate Holds(mem: Bytes, a: int, s: seq<Byte>) {
    forall x :: a <= x < a + |s| ==> x in mem && mem[x] == s[x - a]
  }

  lemma OverlayHolds(mem: Bytes, a: int, s: seq<Byte>)
    requires forall x :: a <= x < a + |s| ==> x in mem
    ensures Holds(Overlay(mem, a, s), a, s)
  {
  }

  /** The stub at `entry` consists of the supervisor call, the return and the NID. */
  predicate IsStub(mem: Bytes, entry: int, nid: Word) {
    Holds(mem, entry, StubBytes(nid))
  }

  lemma StubWords(mem: Bytes, entry: int, nid: Word)
    requires IsStub(mem, entry, nid)
    ensures HasWord(mem, entry) && HasWord(mem, entry + 4) && HasWord(mem, entry + 8)
    ensures WordAt(mem, entry) == 0xEF00_0000 && WordAt(mem, entry + 4) == 0xE1A0_F00E && WordAt(mem, entry + 8) == nid
  {
    var s := StubBytes(nid);
    assert BytesAt(mem, entry) == s[0..4] == WordBytes(SVC);
    assert BytesAt(mem, entry + 4) == s[4..8] == WordBytes(MOV_PC_LR);
    assert BytesAt(mem, entry + 8) == s[8..12] == WordBytes(nid);
    PackOfBytes(SVC);
    PackOfBytes(MOV_PC_LR);
    PackOfBytes(nid);
  }

  ghost predicate RowsMapped(mem: Bytes, actions: seq<Action>) {
    forall i :: 0 <= i < |actions| && actions[i].Patch? ==>
      HasWord(mem, actions[i].nidAt) && HasWord(mem, actions[i].entryAt)
  }

  /** Every stub is mapped to its end. */
  ghost predicate StubsMapped(mem: Bytes, actions: seq<Action>)
    requires RowsMapped(mem, actions)
  {
    forall i, x ::
      0 <= i < |actions| && actions[i].Patch? && EntryOf(mem, actions[i]) <= x < EntryOf(mem, actions[i]) + 12
      ==> x in mem
  }

  /** The NID and entry of each row, as the tables have them. */
  ghost function TableRows(mem: Bytes, actions: seq<Action>): seq<FunctionImport>
    requires RowsMapped(mem, actions)
    decreases |actions|
  {
    if actions == [] then []
    else
      (match actions[0]
       case Refuse => []
       case Check(_, _) => []
       case Variable(_) => []
       case Patch(nidAt, entryAt) => [FunctionImport(WordAt(mem, nidAt), WordAt(mem, entryAt))])
      + (assert forall i :: 0 <= i < |actions| - 1 ==> actions[1..][i] == actions[i + 1]; TableRows(mem, actions[1..]))
  }

  ghost predicate SameRows(mem: Bytes, other: Bytes, actions: seq<Action>)
    requires RowsMapped(mem, actions) && RowsMapped(other, actions)
  {
    forall i :: 0 <= i < |actions| && actions[i].Patch? ==>
      && WordAt(other, actions[i].nidAt) == WordAt(mem, actions[i].nidAt)
      && WordAt(other, actions[i].entryAt) == WordAt(mem, actions[i].entryAt)
  }

  lemma {:induction false} TableRowsSame(mem: Bytes, other: Bytes, actions: seq<Action>)
    requires RowsMapped(mem, actions) && RowsMapped(other, actions) && SameRows(mem, other, actions)
    ensures TableRows(other, actions) == TableRows(mem, actions)
    decreases |actions|
  {
    if actions != [] {
      assert forall i :: 0 <= i < |actions| - 1 ==> actions[1..][i] == actions[i + 1];
      TableRowsSame(mem, other, actions[1..]);
    }
  }

  /** Once the first action is done the rest are as mapped as before, and their rows the
      same. */
  lemma RestMapped(mem: Bytes, actions: seq<Action>)
    requires StubsApart(mem, actions) && StubsMapped(mem, actions) && actions != [] && Succeeds(mem, actions[0])
    ensures var next, rest := After(mem, actions[0]), actions[1..];
            && StubsApart(next, rest) && StubsMapped(next, rest)
            && RowsMapped(mem, rest) && RowsMapped(next, rest) && SameRows(mem, next, rest)
  {
    RowsKept(mem, actions);
    hide After, WordAt, HasWord, Succeeds, StubsApart;
    var rest := actions[1..];
    assert forall i :: 0 <= i < |rest| ==> rest[i] == actions[i + 1];
  }

  /** When patching succeeds, the recorded imports are the tables' rows, and the stub of
      each holds the supervisor call, the return and that row's NID. */
  lemma {:induction false} ImportsPatched(mem: Bytes, actions: seq<Action>)
    requires StubsApart(mem, actions) && StubsMapped(mem, actions) && PatchAll(mem, actions).ok
    ensures var r := PatchAll(mem, actions);
            && r.imports == TableRows(mem, actions)
            && (forall k :: k in r.imports ==> IsStub(r.mem, k.entryAddress as int, k.nid))
    decreases |actions|
  {
    if actions != [] {
      hide After, IsStub, WordAt, HasWord, Succeeds, StubsApart, StubsMapped, RowsMapped, SameRows;
      var next, rest := After(mem, actions[0]), actions[1..];
      RestMapped(mem, actions);
      ImportsPatched(next, rest);
      TableRowsSame(mem, next, rest);
      if actions[0].Patch? {
        FirstStubSurvives(mem, actions);
      }
    }
  }

  /** Patching other rows leaves a stub that theirs do not meet. */
  lemma StubOutlives(mem: Bytes, actions: seq<Action>, entry: int, nid: Word)
    requires StubsApart(mem, actions) && IsStub(mem, entry, nid)
    requires forall i :: 0 <= i < |actions| && actions[i].Patch? ==> Disjoint(EntryOf(mem, actions[i]), 12, entry, 12)
    ensures IsStub(PatchAll(mem, actions).mem, entry, nid)
  {
    forall x | entry <= x < entry + 12 ensures PatchAll(mem, actions).mem[x] == mem[x] {
      OffStubsKept(mem, actions, x);
    }
  }

  lemma FirstStubWritten(mem: Bytes, actions: seq<Action>)
    requires StubsApart(mem, actions) && StubsMapped(mem, actions)
    requires actions != [] && actions[0].Patch? && Succeeds(mem, actions[0])
    ensures IsStub(After(mem, actions[0]), EntryOf(mem, actions[0]), WordAt(mem, actions[0].nidAt))
  {
    OverlayHolds(mem, EntryOf(mem, actions[0]), StubBytes(WordAt(mem, actions[0].nidAt)));
  }

  lemma FirstStubSurvives(mem: Bytes, actions: seq<Action>)
    requires StubsApart(mem, actions) && StubsMapped(mem, actions)
    requires actions != [] && actions[0].Patch? && Succeeds(mem, actions[0])
    ensures IsStub(PatchAll(mem, actions).mem, EntryOf(mem, actions[0]), WordAt(mem, actions[0].nidAt))
  {
    FirstStubWritten(mem, actions);
    RowsKept(mem, actions);
    hide After, IsStub, WordAt, HasWord, Succeeds;
    var next, rest := After(mem, actions[0]), actions[1..];
    forall i | 0 <= i < |rest| && rest[i].Patch?
      ensures Disjoint(EntryOf(next, rest[i]), 12, EntryOf(mem, actions[0]), 12)
    {
      assert rest[i] == actions[i + 1];
      assert Disjoint(EntryOf(mem, actions[0]), 12, EntryOf(mem, actions[i + 1]), 12);
    }
    StubOutlives(next, rest, EntryOf(mem, actions[0]), WordAt(mem, actions[0].nidAt));
  }

  lemma {:induction false} RowOf(mem: Bytes, actions: seq<Action>, x: FunctionImport) returns (i: nat)
    requires RowsMapped(mem, actions) && x in TableRows(mem, actions)
    ensures i < |actions| && actions[i].Patch?
    ensures x == FunctionImport(WordAt(mem, actions[i].nidAt), WordAt(mem, actions[i].entryAt))
    decreases |actions|
  {
    assert forall j :: 0 <= j < |actions| - 1 ==> actions[1..][j] == actions[j + 1];
    if x in TableRows(mem, actions[1..]) {
      i := RowOf(mem, actions[1..], x);
      i := i + 1;
    } else {
      i := 0;
    }
  }

  lemma {:induction false} TableRowsAppend(mem: Bytes, first: seq<Action>, second: seq<Action>)
    requires RowsMapped(mem, first) && RowsMapped(mem, second) && RowsMapped(mem, first + second)
    ensures TableRows(mem, first + second) == TableRows(mem, first) + TableRows(mem, second)
    decreases |first|
  {
    hide HasWord, WordAt;
    if first == [] {
      assert first + second == second;
    } else {
      assert (first + second)[1..] == first[1..] + second;
      TailMapped(mem, first);
      TailMapped(mem, first + second);
      TableRowsAppend(mem, first[1..], second);
    }
  }

  lemma TailMapped(mem: Bytes, actions: seq<Action>)
    requires RowsMapped(mem, actions) && actions != []
    ensures RowsMapped(mem, actions[1..])
  {
    hide HasWord;
    assert forall i :: 0 <= i < |actions| - 1 ==> actions[1..][i] == actions[i + 1];
  }

  lemma SplitMapped(mem: Bytes, first: seq<Action>, second: seq<Action>)
    requires RowsMapped(mem, first + second)
    ensures RowsMapped(mem, first) && RowsMapped(mem, second)
  {
    hide HasWord;
    assert forall i :: 0 <= i < |first| ==> (first + second)[i] == first[i];
    assert forall i :: 0 <= i < |second| ==> (first + second)[|first| + i] == second[i];
  }

  /** Row `i` of a table pairs the NID and the entry at offset `4 * i`. */
  ghost predicate PairsFrom(mem: Bytes, header: ImportHeader, i: nat, rows: seq<FunctionImport>) {
    && i <= header.numFuncs && |rows| == header.numFuncs - i
    && forall k :: 0 <= k < |rows| ==> PairAt(mem, header, i + k, rows[k])
  }

  ghost predicate PairAt(mem: Bytes, header: ImportHeader, k: int, row: FunctionImport) {
    && HasWord(mem, header.nidTable + 4 * k) && HasWord(mem, header.entryTable + 4 * k)
    && row == FunctionImport(WordAt(mem, header.nidTable + 4 * k), WordAt(mem, header.entryTable + 4 * k))
  }

  lemma {:induction false} RowsPair(mem: Bytes, header: ImportHeader, i: nat)
    requires i <= header.numFuncs && RowsMapped(mem, Rows(header, i))
    ensures PairsFrom(mem, header, i, TableRows(mem, Rows(header, i)))
    decreases header.numFuncs - i
  {
    hide HasWord, WordAt;
    if i < header.numFuncs {
      var actions := Rows(header, i);
      assert actions[0].Patch? && actions[1..] == Rows(header, i + 1);
      TailMapped(mem, actions);
      RowsPair(mem, header, i + 1);
      var rows, rest := TableRows(mem, actions), TableRows(mem, actions[1..]);
      assert PairAt(mem, header, i, rows[0]) && rows[1..] == rest;
      forall k | 0 <= k < |rows| ensures PairAt(mem, header, i + k, rows[k]) {
        if k > 0 {
          assert PairAt(mem, header, i + 1 + (k - 1), rest[k - 1]);
        }
      }
    }
  }

  lemma {:induction false} VariablesListNothing(mem: Bytes, header: ImportHeader, i: nat)
    requires i <= header.numVars && RowsMapped(mem, Variables(header, i))
    ensures TableRows(mem, Variables(header, i)) == []
    decreases header.numVars - i
  {
    if i < header.numVars {
      assert Variables(header, i)[1..] == Variables(header, i + 1);
      TailMapped(mem, Variables(header, i));
      VariablesListNothing(mem, header, i + 1);
    }
  }

  lemma CheckListsNothing(mem: Bytes, table: int, rows: nat, rest: seq<Action>)
    requires RowsMapped(mem, [Check(table, rows)] + rest)
    ensures RowsMapped(mem, rest) && TableRows(mem, [Check(table, rows)] + rest) == TableRows(mem, rest)
  {
    var actions := [Check(table, rows)] + rest;
    TailMapped(mem, actions);
    assert actions[1..] == rest;
    assert [] + TableRows(mem, rest) == TableRows(mem, rest);
  }

  /** The rows of a library are the pairs of its NID table and its entry table, in order. */
  lemma LibraryRows(mem: Bytes, header: ImportHeader)
    requires header.size == 0x34 && RowsMapped(mem, HeaderActions(header))
    ensures PairsFrom(mem, header, 0, TableRows(mem, HeaderActions(header)))
  {
    hide RowsMapped, TableRows, Rows, Variables, PairsFrom;
    var functions, variables := FunctionActions(header), VariableActions(header);
    CheckListsNothing(mem, header.address, HEADER_SIZE / 4, functions + variables);
    SplitMapped(mem, functions, variables);
    TableRowsAppend(mem, functions, variables);
    CheckListsNothing(mem, header.nidTable, header.numFuncs,
                      [Check(header.entryTable, header.numFuncs)] + Rows(header, 0));
    CheckListsNothing(mem, header.entryTable, header.numFuncs, Rows(header, 0));
    RowsPair(mem, header, 0);
    if variables != [] {
      CheckListsNothing(mem, header.varNidTable, 0,
                        [Check(header.varEntryTable, header.numVars)] + Variables(header, 0));
      CheckListsNothing(mem, header.varEntryTable, header.numVars, Variables(header, 0));
      VariablesListNothing(mem, header, 0);
    } else {
      NoRows(mem);
    }
    var rows := TableRows(mem, Rows(header, 0));
    assert rows + [] == rows;
  }

  lemma NoRows(mem: Bytes)
    ensures RowsMapped(mem, []) && TableRows(mem, []) == []
  {
  }

  /** Importing a library, with disjoint stubs, records the pair of each row and turns the
      12 bytes at its entry into the supervisor call, the return and its NID. */
  lemma LibraryImported(mem: Bytes, header: ImportHeader, i: nat)
    requires header.size == 0x34 && i < header.numFuncs
    requires StubsApart(mem, HeaderActions(header)) && StubsMapped(mem, HeaderActions(header))
    requires PatchAll(mem, HeaderActions(header)).ok
    ensures var r := PatchAll(mem, HeaderActions(header));
            && |r.imports| == header.numFuncs
            && PairAt(mem, header, i, r.imports[i])
            && IsStub(r.mem, r.imports[i].entryAddress as int, r.imports[i].nid)
  {
    hide HeaderActions, StubsMapped, PatchAll, TableRows, PairAt, IsStub;
    ImportsPatched(mem, HeaderActions(header));
    LibraryRows(mem, header);
    var imports := PatchAll(mem, HeaderActions(header)).imports;
    assert PairAt(mem, header, 0 + i, imports[i]);
    assert imports[i] in imports;
  }

  /** Every row is listed. */
  lemma {:induction false} RowListed(mem: Bytes, actions: seq<Action>, i: nat)
    requires RowsMapped(mem, actions) && i < |actions| && actions[i].Patch?
    ensures FunctionImport(WordAt(mem, actions[i].nidAt), WordAt(mem, actions[i].entryAt)) in TableRows(mem, actions)
    decreases |actions|
  {
    assert forall j :: 0 <= j < |actions| - 1 ==> actions[1..][j] == actions[j + 1];
    if i > 0 {
      RowListed(mem, actions[1..], i - 1);
    }
  }

  /** Disjoint stubs: no two different imports share an entry address. */
  lemma EntriesUnique(mem: Bytes, actions: seq<Action>, x: FunctionImport, y: FunctionImport)
    requires StubsApart(mem, actions)
    requires x in TableRows(mem, actions) && y in TableRows(mem, actions)
    requires x.entryAddress as int == y.entryAddress as int
    ensures x == y
  {
    var i := RowOf(mem, actions, x);
    var j := RowOf(mem, actions, y);
    assert i != j ==> Disjoint(EntryOf(mem, actions[i]), 12, EntryOf(mem, actions[j]), 12);
  }
}
