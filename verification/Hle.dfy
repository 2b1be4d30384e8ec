/** hle.cpp: resolving imported functions to the host functions registered for their
    NIDs, and the lookups the supervisor-call handler makes. */
module Hle {
  import opened Words
  import opened ImportStubs
  import opened ImportLoader

  datatype HLEFunction = HLEFunction(name: string, nid: Word)

  datatype HLEModule = HLEModule(name: string, functions: seq<HLEFunction>)

  /** A pointer to a registered function: its module and its place there. */
  datatype FunctionPtr = Nullptr | FunctionPtr(moduleIndex: nat, functionIndex: nat)

  datatype SvcCall = SvcCall(libraryName: string, nid: Word, target: FunctionPtr)

  datatype RuntimeModule = RuntimeModule(libraryName: string, libraries: seq<FunctionImportLibrary>)

  /** `nid_to_address_map`, keyed by stub address. */
  type Dispatch = map<int, SvcCall>

  // ---------------------------------------------------------------- registered functions

  predicate IsAt(modules: seq<HLEModule>, p: FunctionPtr, nid: Word) {
    && p.FunctionPtr? && p.moduleIndex < |modules|
    && p.functionIndex < |modules[p.moduleIndex].functions|
    && modules[p.moduleIndex].functions[p.functionIndex].nid == nid
  }

  predicate Before(p: FunctionPtr, m: nat, f: nat) {
    p.FunctionPtr? && (p.moduleIndex < m || (p.moduleIndex == m && p.functionIndex < f))
  }

  /** `p` is the first registered function with this NID, null if there is none. */
  ghost predicate IsFirst(modules: seq<HLEModule>, p: FunctionPtr, nid: Word) {
    if p.Nullptr? then forall q :: !IsAt(modules, q, nid)
    else IsAt(modules, p, nid) && forall q :: IsAt(modules, q, nid) ==> !Before(q, p.moduleIndex, p.functionIndex)
  }

  function FindIn(functions: seq<HLEFunction>, nid: Word, f: nat): nat
    requires f <= |functions|
    decreases |functions| - f
  {
    if f == |functions| || functions[f].nid == nid then f else FindIn(functions, nid, f + 1)
  }

  function FindFrom(modules: seq<HLEModule>, nid: Word, m: nat): FunctionPtr
    requires m <= |modules|
    decreases |modules| - m
  {
    if m == |modules| then Nullptr
    else
      var f := FindIn(modules[m].functions, nid, 0);
      if f < |modules[m].functions| then FunctionPtr(m, f) else FindFrom(modules, nid, m + 1)
  }

  lemma {:induction false} FindInIsFirst(functions: seq<HLEFunction>, nid: Word, f: nat)
    requires f <= |functions|
    ensures var k := FindIn(functions, nid, f);
            && f <= k <= |functions|
            && (k < |functions| ==> functions[k].nid == nid)
            && (forall j :: f <= j < k ==> functions[j].nid != nid)
    decreases |functions| - f
  {
    if f < |functions| && functions[f].nid != nid {
      FindInIsFirst(functions, nid, f + 1);
    }
  }

  lemma {:induction false} FindIsFirst(modules: seq<HLEModule>, nid: Word, m: nat)
    requires m <= |modules|
    requires forall q :: IsAt(modules, q, nid) ==> !Before(q, m, 0)
    ensures IsFirst(modules, FindFrom(modules, nid, m), nid)
    decreases |modules| - m
  {
    if m < |modules| {
      var f := FindIn(modules[m].functions, nid, 0);
      FindInIsFirst(modules[m].functions, nid, 0);
      forall q | IsAt(modules, q, nid) ensures !Before(q, m, f) {}
      if f == |modules[m].functions| {
        forall q | IsAt(modules, q, nid) ensures !Before(q, m + 1, 0) {}
        FindIsFirst(modules, nid, m + 1);
      }
    }
  }

  // ---------------------------------------------------------------- resolution

  datatype Binding = Binding(libraryName: string, functionImport: FunctionImport)

  function LibraryBindings(library: FunctionImportLibrary, k: nat): seq<Binding>
    requires k <= |library.functionImports|
    decreases |library.functionImports| - k
  {
    if k == |library.functionImports| then []
    else [Binding(library.libraryName, library.functionImports[k])] + LibraryBindings(library, k + 1)
  }

  function ModuleBindings(libraries: seq<FunctionImportLibrary>, j: nat): seq<Binding>
    requires j <= |libraries|
    decreases |libraries| - j
  {
    if j == |libraries| then [] else LibraryBindings(libraries[j], 0) + ModuleBindings(libraries, j + 1)
  }

  /** All imports in the order the three nested loops visit them. */
  function Bindings(runtime: seq<RuntimeModule>, i: nat): seq<Binding>
    requires i <= |runtime|
    decreases |runtime| - i
  {
    if i == |runtime| then [] else ModuleBindings(runtime[i].libraries, 0) + Bindings(runtime, i + 1)
  }

  function Key(b: Binding): int {
    b.functionImport.entryAddress as int
  }

  function CallFor(modules: seq<HLEModule>, b: Binding): SvcCall {
    SvcCall(b.libraryName, b.functionImport.nid, FindFrom(modules, b.functionImport.nid, 0))
  }

  function Resolve(modules: seq<HLEModule>, bindings: seq<Binding>, dispatch: Dispatch): Dispatch
    decreases |bindings|
  {
    if bindings == [] then dispatch
    else Resolve(modules, bindings[1..], dispatch[Key(bindings[0]) := CallFor(modules, bindings[0])])
  }

  lemma {:induction false} ResolveAppend(modules: seq<HLEModule>, first: seq<Binding>, second: seq<Binding>,
                                         dispatch: Dispatch)
    ensures Resolve(modules, first + second, dispatch) == Resolve(modules, second, Resolve(modules, first, dispatch))
    decreases |first|
  {
    if first == [] {
      assert first + second == second;
    } else {
      assert (first + second)[1..] == first[1..] + second;
      ResolveAppend(modules, first[1..], second,
                    dispatch[Key(first[0]) := CallFor(modules, first[0])]);
    }
  }

  /** Index of the last import bound to `address`, or -1. */
  function LastBinding(bindings: seq<Binding>, address: int): (k: int)
    ensures -1 <= k < |bindings|
    ensures k >= 0 ==> Key(bindings[k]) == address
    ensures forall j :: k < j < |bindings| ==> Key(bindings[j]) != address
  {
    if bindings == [] then -1
    else if Key(bindings[|bindings| - 1]) == address then |bindings| - 1
    else LastBinding(bindings[..|bindings| - 1], address)
  }

  /** The dispatch map holds, at each address, the last import bound to it. */
  lemma {:induction false} ResolveLastWins(modules: seq<HLEModule>, bindings: seq<Binding>, dispatch: Dispatch,
                                           address: int)
    ensures var k := LastBinding(bindings, address);
            var after := Resolve(modules, bindings, dispatch);
            if k >= 0 then address in after && after[address] == CallFor(modules, bindings[k])
            else
              && (address in after <==> address in dispatch)
              && (address in after ==> after[address] == dispatch[address])
    decreases |bindings|
  {
    if bindings != [] {
      var rest := bindings[1..];
      var next := dispatch[Key(bindings[0]) := CallFor(modules, bindings[0])];
      ResolveLastWins(modules, rest, next, address);
      LastBindingTail(bindings, address);
    }
  }

  lemma LastBindingTail(bindings: seq<Binding>, address: int)
    requires bindings != []
    ensures var k, n := LastBinding(bindings, address), LastBinding(bindings[1..], address);
            k == if n >= 0 then n + 1 else if Key(bindings[0]) == address then 0 else -1
  {
    var n := LastBinding(bindings[1..], address);
    assert forall j :: 0 <= j < |bindings| - 1 ==> bindings[1..][j] == bindings[j + 1];
    assert forall j :: 1 <= j < |bindings| ==> bindings[j] == bindings[1..][j - 1];
  }

  predicate FromLibrary(library: FunctionImportLibrary, b: Binding) {
    b.libraryName == library.libraryName && b.functionImport in library.functionImports
  }

  lemma {:induction false} LibraryBindingsNamed(library: FunctionImportLibrary, k: nat, b: Binding)
    requires k <= |library.functionImports| && b in LibraryBindings(library, k)
    ensures FromLibrary(library, b)
    decreases |library.functionImports| - k
  {
    if b != Binding(library.libraryName, library.functionImports[k]) {
      LibraryBindingsNamed(library, k + 1, b);
    }
  }

  lemma {:induction false} ModuleBindingsNamed(libraries: seq<FunctionImportLibrary>, j: nat, b: Binding)
    requires j <= |libraries| && b in ModuleBindings(libraries, j)
    ensures exists l :: 0 <= l < |libraries| && FromLibrary(libraries[l], b)
    decreases |libraries| - j
  {
    if b in LibraryBindings(libraries[j], 0) {
      LibraryBindingsNamed(libraries[j], 0, b);
    } else {
      ModuleBindingsNamed(libraries, j + 1, b);
    }
  }

  /** The binding is an import of a library of a registered module, under its name. */
  ghost predicate FromRuntime(runtime: seq<RuntimeModule>, b: Binding) {
    exists m, l :: 0 <= m < |runtime| && 0 <= l < |runtime[m].libraries| && FromLibrary(runtime[m].libraries[l], b)
  }

  lemma {:induction false} BindingsNamed(runtime: seq<RuntimeModule>, i: nat, b: Binding)
    requires i <= |runtime| && b in Bindings(runtime, i)
    ensures FromRuntime(runtime, b)
    decreases |runtime| - i
  {
    hide FromLibrary;
    if b in ModuleBindings(runtime[i].libraries, 0) {
      ModuleBindingsNamed(runtime[i].libraries, 0, b);
    } else {
      BindingsNamed(runtime, i + 1, b);
    }
  }

  /** Every entry that resolving makes is for an import of a registered module: it is at the
      import's address, with its library's name, its NID and the first function registered
      with that. */
  lemma ResolvedFromImports(modules: seq<HLEModule>, runtime: seq<RuntimeModule>, dispatch: Dispatch, address: int)
      returns (b: Binding)
    requires var after := Resolve(modules, Bindings(runtime, 0), dispatch);
             address in after && (address in dispatch ==> after[address] != dispatch[address])
    ensures FromRuntime(runtime, b) && b.functionImport.entryAddress as int == address
    ensures var svc := Resolve(modules, Bindings(runtime, 0), dispatch)[address];
            && svc.libraryName == b.libraryName && svc.nid == b.functionImport.nid
            && IsFirst(modules, svc.target, svc.nid)
  {
    hide Resolve, Bindings, LastBinding, FindFrom, FromRuntime, IsFirst;
    var bindings := Bindings(runtime, 0);
    ResolveLastWins(modules, bindings, dispatch, address);
    b := bindings[LastBinding(bindings, address)];
    BindingsNamed(runtime, 0, b);
    FindIsFirst(modules, b.functionImport.nid, 0);
  }

  /** Resolving again changes nothing. */
  lemma ResolveTwice(modules: seq<HLEModule>, bindings: seq<Binding>, dispatch: Dispatch)
    ensures var once := Resolve(modules, bindings, dispatch);
            Resolve(modules, bindings, once) == once
  {
    var once := Resolve(modules, bindings, dispatch);
    var twice := Resolve(modules, bindings, once);
    forall address: int
      ensures address in twice <==> address in once
    {
      ResolveLastWins(modules, bindings, dispatch, address);
      ResolveLastWins(modules, bindings, once, address);
    }
    forall address: int | address in once
      ensures twice[address] == once[address]
    {
      ResolveLastWins(modules, bindings, dispatch, address);
      ResolveLastWins(modules, bindings, once, address);
    }
    assert twice.Keys == once.Keys;
  }

  // ---------------------------------------------------------------- the code

  class State {
    var runtimeModuleList: seq<RuntimeModule>
    var moduleList: seq<HLEModule>
    var nidToAddressMap: Dispatch

    constructor (modules: seq<HLEModule>)
      ensures runtimeModuleList == [] && moduleList == modules && nidToAddressMap == map[]
    {
      runtimeModuleList, moduleList, nidToAddressMap := [], modules, map[];
    }

    method AddRuntimeModule(runtimeModule: RuntimeModule)
      modifies this`runtimeModuleList
      ensures runtimeModuleList == old(runtimeModuleList) + [runtimeModule]
    {
      runtimeModuleList := runtimeModuleList + [runtimeModule];
    }

    method GetFunctionFromModuleList(nid: Word) returns (p: FunctionPtr)
      ensures p == FindFrom(moduleList, nid, 0)
      ensures IsFirst(moduleList, p, nid)
    {
      FindIsFirst(moduleList, nid, 0);
      var i := 0;
      while i < |moduleList|
        invariant 0 <= i <= |moduleList|
        invariant FindFrom(moduleList, nid, 0) == FindFrom(moduleList, nid, i)
      {
        var j := 0;
        while j < |moduleList[i].functions|
          invariant 0 <= j <= |moduleList[i].functions|
          invariant FindIn(moduleList[i].functions, nid, 0) == FindIn(moduleList[i].functions, nid, j)
        {
          if moduleList[i].functions[j].nid == nid {
            return FunctionPtr(i, j);
          }
          j := j + 1;
        }
        i := i + 1;
      }
      p := Nullptr;
    }

    method GetFunctionFromAddress(address: int) returns (found: bool, svc: SvcCall)
      ensures found <==> address in nidToAddressMap
      ensures found ==> svc == nidToAddressMap[address]
    {
      if address in nidToAddressMap {
        return true, nidToAddressMap[address];
      }
      return false, SvcCall("", 0, Nullptr);
    }

    method ResolveLibrary(library: FunctionImportLibrary)
      modifies this`nidToAddressMap
      ensures nidToAddressMap == Resolve(moduleList, LibraryBindings(library, 0), old(nidToAddressMap))
    {
      var k := 0;
      while k < |library.functionImports|
        invariant 0 <= k <= |library.functionImports|
        invariant Resolve(moduleList, LibraryBindings(library, 0), old(nidToAddressMap)) ==
                  Resolve(moduleList, LibraryBindings(library, k), nidToAddressMap)
      {
        var functionImport := library.functionImports[k];
        var target := GetFunctionFromModuleList(functionImport.nid);
        assert LibraryBindings(library, k)[1..] == LibraryBindings(library, k + 1);
        nidToAddressMap := nidToAddressMap[functionImport.entryAddress as int :=
                                             SvcCall(library.libraryName, functionImport.nid, target)];
        k := k + 1;
      }
    }

    method ResolveModule(libraries: seq<FunctionImportLibrary>)
      modifies this`nidToAddressMap
      ensures nidToAddressMap == Resolve(moduleList, ModuleBindings(libraries, 0), old(nidToAddressMap))
    {
      var j := 0;
      while j < |libraries|
        invariant 0 <= j <= |libraries|
        invariant Resolve(moduleList, ModuleBindings(libraries, 0), old(nidToAddressMap)) ==
                  Resolve(moduleList, ModuleBindings(libraries, j), nidToAddressMap)
      {
        ResolveAppend(moduleList, LibraryBindings(libraries[j], 0), ModuleBindings(libraries, j + 1), nidToAddressMap);
        ResolveLibrary(libraries[j]);
        j := j + 1;
      }
    }

    method ResolveRuntimeModules()
      modifies this`nidToAddressMap
      ensures nidToAddressMap == Resolve(moduleList, Bindings(runtimeModuleList, 0), old(nidToAddressMap))
    {
      var i := 0;
      while i < |runtimeModuleList|
        invariant 0 <= i <= |runtimeModuleList|
        invariant Resolve(moduleList, Bindings(runtimeModuleList, 0), old(nidToAddressMap)) ==
                  Resolve(moduleList, Bindings(runtimeModuleList, i), nidToAddressMap)
      {
        ResolveAppend(moduleList, ModuleBindings(runtimeModuleList[i].libraries, 0),
                      Bindings(runtimeModuleList, i + 1), nidToAddressMap);
        ResolveModule(runtimeModuleList[i].libraries);
        i := i + 1;
      }
    }
  }

  // ---------------------------------------------------------------- stubs and dispatch agree

  function ImportsOf(bindings: seq<Binding>): (r: seq<FunctionImport>)
    ensures |r| == |bindings|
  {
    seq(|bindings|, i requires 0 <= i < |bindings| => bindings[i].functionImport)
  }

  lemma {:induction false} LibraryImports(library: FunctionImportLibrary, k: nat)
    requires k <= |library.functionImports|
    ensures ImportsOf(LibraryBindings(library, k)) == library.functionImports[k..]
    decreases |library.functionImports| - k
  {
    if k < |library.functionImports| {
      LibraryImports(library, k + 1);
    }
  }

  lemma ImportsOfAppend(first: seq<Binding>, second: seq<Binding>)
    ensures ImportsOf(first + second) == ImportsOf(first) + ImportsOf(second)
  {
  }

  /** The imports bound for the modules from `i` on are those of their libraries. */
  lemma {:induction false} ModuleImports(libraries: seq<FunctionImportLibrary>, j: nat)
    requires j <= |libraries|
    ensures AllImports(libraries) == AllImports(libraries[..j]) + ImportsOf(ModuleBindings(libraries, j))
    decreases |libraries| - j
  {
    if j < |libraries| {
      ModuleImports(libraries, j + 1);
      LibraryImports(libraries[j], 0);
      ImportsOfAppend(LibraryBindings(libraries[j], 0), ModuleBindings(libraries, j + 1));
      assert libraries[..j + 1] == libraries[..j] + [libraries[j]];
      OneMoreLibrary(libraries[..j], libraries[j]);
      var own, rest := libraries[j].functionImports, ImportsOf(ModuleBindings(libraries, j + 1));
      assert libraries[j].functionImports[0..] == own;
      assert (AllImports(libraries[..j]) + own) + rest == AllImports(libraries[..j]) + (own + rest);
    } else {
      assert libraries[..j] == libraries;
    }
  }

  /** `x` is an import of a module from `i` on. */
  ghost predicate ImportedFrom(runtime: seq<RuntimeModule>, i: nat, x: FunctionImport) {
    exists j :: i <= j < |runtime| && x in AllImports(runtime[j].libraries)
  }

  lemma {:induction false} RuntimeImports(runtime: seq<RuntimeModule>, i: nat, x: FunctionImport)
    requires i <= |runtime|
    ensures x in ImportsOf(Bindings(runtime, i)) <==> ImportedFrom(runtime, i, x)
    decreases |runtime| - i
  {
    hide AllImports, ModuleBindings, ImportsOf;
    if i < |runtime| {
      RuntimeImports(runtime, i + 1, x);
      OneModuleImports(runtime[i].libraries);
      ImportsOfAppend(ModuleBindings(runtime[i].libraries, 0), Bindings(runtime, i + 1));
      if ImportedFrom(runtime, i, x) {
        var j :| i <= j < |runtime| && x in AllImports(runtime[j].libraries);
        assert j == i || ImportedFrom(runtime, i + 1, x);
      }
    } else {
      assert |ImportsOf(Bindings(runtime, i))| == 0;
    }
  }

  lemma OneModuleImports(libraries: seq<FunctionImportLibrary>)
    ensures ImportsOf(ModuleBindings(libraries, 0)) == AllImports(libraries)
  {
    ModuleImports(libraries, 0);
    assert libraries[..0] == [];
    assert [] + ImportsOf(ModuleBindings(libraries, 0)) == ImportsOf(ModuleBindings(libraries, 0));
  }

  /** What the loop over the modules does from `i` on. */
  lemma {:induction false} ResolveFrom(modules: seq<HLEModule>, runtime: seq<RuntimeModule>, i: nat, dispatch: Dispatch)
      returns (earlier: Dispatch)
    requires i <= |runtime|
    ensures Resolve(modules, Bindings(runtime, 0), dispatch) == Resolve(modules, Bindings(runtime, i), earlier)
    decreases i
  {
    earlier := dispatch;
    if i > 0 {
      earlier := ResolveFrom(modules, runtime, i - 1, dispatch);
      ResolveAppend(modules, ModuleBindings(runtime[i - 1].libraries, 0), Bindings(runtime, i), earlier);
      earlier := Resolve(modules, ModuleBindings(runtime[i - 1].libraries, 0), earlier);
    }
  }

  /** A module whose imports were patched into guest memory `before` and recorded. */
  datatype Registration = Registration(
    name: string, headers: seq<ImportHeader>, before: Bytes, libraries: seq<FunctionImportLibrary>)
  {
    ghost predicate Done() {
      var actions := ModuleActions(headers, 0);
      && StubsApart(before, actions) && StubsMapped(before, actions)
      && PatchAll(before, actions).ok && AllImports(libraries) == PatchAll(before, actions).imports
    }

    /** Guest memory once its imports are patched. */
    function Patched(): Bytes {
      PatchAll(before, ModuleActions(headers, 0)).mem
    }
  }

  function Runtime(registered: seq<Registration>): (r: seq<RuntimeModule>)
    ensures |r| == |registered|
  {
    seq(|registered|, i requires 0 <= i < |registered| =>
      RuntimeModule(registered[i].name, registered[i].libraries))
  }

  /** No stub of a later module meets one of module `i`. */
  ghost predicate LaterApart(registered: seq<Registration>, i: nat)
    requires i < |registered|
  {
    forall j, x, y ::
      && i < j < |registered| && x in AllImports(registered[i].libraries) && y in AllImports(registered[j].libraries)
      ==> Disjoint(x.entryAddress as int, 12, y.entryAddress as int, 12)
  }

  /** The stub of an import is the supervisor call, the return and the NID of its table
      row; the dispatch entry at its address carries that NID and the first function
      registered with it. */
  ghost predicate Agree(mem: Bytes, modules: seq<HLEModule>, dispatch: Dispatch, x: FunctionImport) {
    IsStub(mem, x.entryAddress as int, x.nid) && Dispatched(modules, dispatch, x)
  }

  ghost predicate Dispatched(modules: seq<HLEModule>, dispatch: Dispatch, x: FunctionImport) {
    && x.entryAddress as int in dispatch
    && dispatch[x.entryAddress as int].nid == x.nid
    && IsFirst(modules, dispatch[x.entryAddress as int].target, x.nid)
  }

  /** The memory the next module is patched in, or that the guest runs in. */
  function Next(registered: seq<Registration>, j: nat, final: Bytes): Bytes {
    if j + 1 < |registered| then registered[j + 1].before else final
  }

  /** The byte is in the stub of an import of module `i`. */
  predicate InStub(registered: seq<Registration>, i: nat, x: FunctionImport, a: int)
    requires i < |registered|
  {
    x in AllImports(registered[i].libraries) && x.entryAddress as int <= a < x.entryAddress as int + 12
  }

  /** From module `i` on, what happens between the patching of one module and the next, and
      after the last, leaves the stubs of module `i` alone. */
  ghost predicate StubsLeft(registered: seq<Registration>, i: nat, final: Bytes)
    requires i < |registered|
  {
    forall j, x, a :: i <= j < |registered| && InStub(registered, i, x, a) && a in registered[j].Patched() ==>
      a in Next(registered, j, final) && Next(registered, j, final)[a] == registered[j].Patched()[a]
  }

  /** The stub is still there after each later module is patched. */
  lemma {:induction false} StubLives(registered: seq<Registration>, i: nat, n: nat, final: Bytes, x: FunctionImport)
    requires i <= n < |registered| && forall j :: i <= j < |registered| ==> registered[j].Done()
    requires LaterApart(registered, i) && StubsLeft(registered, i, final)
    requires x in AllImports(registered[i].libraries)
    ensures IsStub(registered[n].Patched(), x.entryAddress as int, x.nid)
    decreases n
  {
    hide StubsApart, StubsMapped, AllImports, PatchAll, IsStub, ModuleActions, TableRows;
    var r := registered[n];
    var actions := ModuleActions(r.headers, 0);
    ImportsPatched(r.before, actions);
    if i < n {
      StubLives(registered, i, n - 1, final, x);
      StubCarriesOver(registered, i, n - 1, final, x);
      forall k | 0 <= k < |actions| && actions[k].Patch?
        ensures HasWord(r.before, actions[k].entryAt)
                && Disjoint(EntryOf(r.before, actions[k]), 12, x.entryAddress as int, 12)
      {
        LaterRowApart(registered, i, n, x, k);
      }
      StubOutlives(r.before, actions, x.entryAddress as int, x.nid);
    }
  }

  lemma StubCarriesOver(registered: seq<Registration>, i: nat, j: nat, final: Bytes, x: FunctionImport)
    requires i <= j < |registered| && StubsLeft(registered, i, final) && x in AllImports(registered[i].libraries)
    requires IsStub(registered[j].Patched(), x.entryAddress as int, x.nid)
    ensures IsStub(Next(registered, j, final), x.entryAddress as int, x.nid)
  {
    hide AllImports, Registration.Patched, Next, StubBytes;
    forall a | x.entryAddress as int <= a < x.entryAddress as int + 12
      ensures a in Next(registered, j, final) && Next(registered, j, final)[a] == registered[j].Patched()[a]
    {
      assert InStub(registered, i, x, a);
      assert a in registered[j].Patched();
    }
  }

  lemma LaterRowApart(registered: seq<Registration>, i: nat, n: nat, x: FunctionImport, k: nat)
    requires i < n < |registered| && registered[n].Done() && LaterApart(registered, i)
    requires x in AllImports(registered[i].libraries)
    requires k < |ModuleActions(registered[n].headers, 0)| && ModuleActions(registered[n].headers, 0)[k].Patch?
    ensures var before, action := registered[n].before, ModuleActions(registered[n].headers, 0)[k];
            HasWord(before, action.entryAt) && Disjoint(EntryOf(before, action), 12, x.entryAddress as int, 12)
  {
    hide AllImports, ModuleActions, WordAt, HasWord, Registration.Done;
    var before, action := registered[n].before, ModuleActions(registered[n].headers, 0)[k];
    RowImported(registered[n], k);
    var y := FunctionImport(WordAt(before, action.nidAt), WordAt(before, action.entryAt));
    assert Disjoint(x.entryAddress as int, 12, y.entryAddress as int, 12);
  }

  /** Every row was recorded. */
  lemma RowImported(r: Registration, k: nat)
    requires r.Done() && k < |ModuleActions(r.headers, 0)| && ModuleActions(r.headers, 0)[k].Patch?
    ensures var action := ModuleActions(r.headers, 0)[k];
            && HasWord(r.before, action.nidAt) && HasWord(r.before, action.entryAt)
            && FunctionImport(WordAt(r.before, action.nidAt), WordAt(r.before, action.entryAt))
                 in AllImports(r.libraries)
  {
    hide AllImports, PatchAll, ModuleActions, TableRows, WordAt, HasWord, StubsMapped;
    ImportsPatched(r.before, ModuleActions(r.headers, 0));
    RowListed(r.before, ModuleActions(r.headers, 0), k);
  }

  /** Whatever modules were registered before and after, once all are loaded and resolved
      the guest stub and the dispatch entry of every import of module `i` agree, as soon as
      no later stub meets one of its own and nothing else overwrites them. Its imports are
      the rows of its tables. */
  lemma ImportsDispatched(registered: seq<Registration>, i: nat, modules: seq<HLEModule>, dispatch: Dispatch,
                          final: Bytes)
    requires i < |registered| && registered[i].Done() && forall j :: i < j < |registered| ==> registered[j].Done()
    requires LaterApart(registered, i) && StubsLeft(registered, i, final)
    ensures var r := registered[i];
            var after := Resolve(modules, Bindings(Runtime(registered), 0), dispatch);
            && AllImports(r.libraries) == TableRows(r.before, ModuleActions(r.headers, 0))
            && forall x :: x in AllImports(r.libraries) ==> Agree(final, modules, after, x)
  {
    hide Resolve, Bindings, Dispatched, StubsApart, StubsMapped, AllImports, Runtime, PatchAll, IsStub, Next;
    var r := registered[i];
    ImportsPatched(r.before, ModuleActions(r.headers, 0));
    var last := |registered| - 1;
    forall x | x in AllImports(r.libraries)
      ensures Agree(final, modules, Resolve(modules, Bindings(Runtime(registered), 0), dispatch), x)
    {
      ImportDispatched(registered, i, modules, dispatch, x);
      StubLives(registered, i, last, final, x);
      StubCarriesOver(registered, i, last, final, x);
      NothingNext(registered, final);
    }
  }

  lemma NothingNext(registered: seq<Registration>, final: Bytes)
    requires registered != []
    ensures Next(registered, |registered| - 1, final) == final
  {
  }

  lemma ImportDispatched(registered: seq<Registration>, i: nat, modules: seq<HLEModule>, dispatch: Dispatch,
                         x: FunctionImport)
    requires i < |registered| && registered[i].Done() && LaterApart(registered, i)
    requires x in AllImports(registered[i].libraries)
    ensures Dispatched(modules, Resolve(modules, Bindings(Runtime(registered), 0), dispatch), x)
  {
    hide Resolve, Bindings, LastBinding, FindFrom, AllImports;
    var runtime := Runtime(registered);
    var earlier := ResolveFrom(modules, runtime, i, dispatch);
    var bindings := Bindings(runtime, i);
    assert x in AllImports(runtime[i].libraries);
    RuntimeImports(runtime, i, x);
    var m :| 0 <= m < |bindings| && ImportsOf(bindings)[m] == x;
    assert Key(bindings[m]) == x.entryAddress as int;
    var k := LastBinding(bindings, x.entryAddress as int);
    assert bindings[k].functionImport == ImportsOf(bindings)[k];
    SameImport(registered, i, x, bindings[k].functionImport);
    ResolveLastWins(modules, bindings, earlier, x.entryAddress as int);
    FindIsFirst(modules, x.nid, 0);
  }

  /** An import of the module or a later one at the same address is the same import. */
  lemma SameImport(registered: seq<Registration>, i: nat, x: FunctionImport, y: FunctionImport)
    requires i < |registered| && registered[i].Done() && LaterApart(registered, i)
    requires x in AllImports(registered[i].libraries) && y in ImportsOf(Bindings(Runtime(registered), i))
    requires x.entryAddress as int == y.entryAddress as int
    ensures x == y
  {
    hide Bindings, AllImports, PatchAll, StubsApart, StubsMapped;
    RuntimeImports(Runtime(registered), i, y);
    var j :| i <= j < |registered| && y in AllImports(Runtime(registered)[j].libraries);
    var r := registered[i];
    ImportsPatched(r.before, ModuleActions(r.headers, 0));
    if i == j {
      EntriesUnique(r.before, ModuleActions(r.headers, 0), x, y);
    }
  }
}
