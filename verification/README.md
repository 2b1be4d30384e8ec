# Betavita core model

A Dafny model of the parts of the Betavita emulator that decide what guest memory,
guest paths and guest threads look like, with proofs about all inputs and all runs.

Four components are modelled, each with the state the program keeps and the loops that
change it:

- **The SELF loader.** Segments are mapped and filled, packed relocation entries patch
  32-bit words and split Thumb-2 fields in guest memory, and import stubs are overwritten
  and bound to host functions. `Relocation` has the encodings (section 4.6.1 of ELF for
  the ARM Architecture, IHI 0044; sections A8.8.25, A8.8.102 and A8.8.106 of the ARMv7-A/R
  Architecture Reference Manual, DDI 0406C), `MaskedWrites` the algebra of masked constant
  writes, `RelocationPass` and `PassProperties` the pass, `SegmentLoader`, `ImportStubs`,
  `ImportLoader` and `Hle` the steps around it, `SelfLoader` the whole.
- **Guest memory and the page allocator.** `GuestMemory` is the sorted region list with one
  host buffer a region, and the flat byte map it stands for. `AllocatorSpec` has the
  first-fit search with its wrapped arithmetic, `MemoryManager` its loop.
- **The virtual filesystem.** `PathScanner` is the scanner and parser, `FileTree` the tree
  as a map from paths, `Vfs` the directory nodes and parent pointers that refine it.
- **The kernel.** `KernelSpec` is the state machine of the object table, thread list, ready
  queue, stacks and TLS blocks; `Kernel` the objects that refine it.

Methods that change state are proved against a function of the old state; the lemmas are
about those functions, so they hold of the methods. Calls can come in any order: `AllocatorSpec`
and `KernelSpec` state their invariants over all runs, and a CPU slice may have any kernel calls
between its two halves.

Where the code does not do what its surroundings suggest, the model follows the code and
lemmas state what it does, with the exact condition where the two agree for some inputs:

- PREL31 clears bit 31 (`Relocation.Prel31KeepsBit31Iff`).
- The second relocation of an entry lands at offset + 4 * dist2
  (`RelocationPass.SecondAddressIntendedIff`).
- The gap test is sound up to a size bound (`AllocatorSpec.GapTestSoundIff`) and refuses gaps
  with 2^31 or more bytes to spare (`AllocatorSpec.GapTest`, `AllocatorSpec.HugeGapPassedOver`).
- A block on top has no guard page below it when the last region is one page right after another
  (`AllocatorSpec.TouchingLosesGuard`).
- `getFile` accepts a plain file in mid-path (`FileTree.AcceptIff`, `FileTree.GetIsCanonicalIff`,
  `FileTree.PlainFileMidPath`).
- A leading slash or a colon is taken for a name (`PathScanner.RelativeIff`,
  `PathScanner.RelativeWithoutBlanks`, `PathScanner.LeadingSlash`).
- A module stays registered when its exports are refused (`SelfLoader.LoadSelfToMemory`).
- The scheduler always takes the last READY thread, which is fair exactly when there is at most one
  (`KernelSpec.FairIff`); an older one starves (`KernelSpec.OlderThreadStarves`).
- `get_tls_addr` of a thread not yet started gives an address in page 0
  (`KernelSpec.TlsSlotIffStarted`).

`dafny verify dfyconfig.toml` checks the project.

## Model

| member | source | states |
|---|---|---|
| PassProperties.PassLastWriter | betavita/src/loader/self_loader.cpp:209-372 | After a successful pass every bit of guest memory is what the last relocation whose field covers it gives, or its old value if none does |
| PassProperties.PassTwice | betavita/src/loader/self_loader.cpp:290-372 | Running the whole pass again changes nothing and ends the same way, for any segments and entries, overlapping or not, successful or not |
| PassProperties.PassIgnoresEntryOrder | betavita/src/loader/self_loader.cpp:290-372 | Reordering or repeating the entries of a program, within its relocation segments or across them, gives the same memory and outcome when overlapping fields agree |
| PassProperties.PassIgnoresOrderOfDisjoint | betavita/src/loader/self_loader.cpp:290-372 | In particular the order of entries does not matter when no two different patches overlap |
| RelocationPass.EntryBytes | betavita/src/loader/self_loader.cpp:102-113 | For any 12 bytes the fields of an entry are, as integers, the slices of the first four bytes, and the addend and offset the little-endian numbers of bytes 4 to 7 and 8 to 11 |
| PassProperties.EntryMeaning | betavita/src/loader/self_loader.cpp:303-351 | What those bytes do: S is the symbol segment's start or 0, P the patch segment's start plus the offset or 0, A the addend; a second type not 0 patches 4 * dist2 further; another format is rejected |
| PassProperties.EntriesPacked | betavita/src/loader/self_loader.cpp:302-359 | There is one entry for each 12 bytes, in order |
| PassProperties.StepsInOrder | betavita/src/loader/self_loader.cpp:302-359 | The steps of a relocation segment are those of its entries one after the other |
| PassProperties.PatchedAbsolute | betavita/src/loader/self_loader.cpp:219-222 | After the pass the word of an ABS32 (2) or TARGET1 (38) relocation no later step touches is S + A |
| PassProperties.PatchedPrel31 | betavita/src/loader/self_loader.cpp:223-225 | After the pass the word of a PREL31 (42) relocation no later step touches is S + A - P without bit 31 |
| PassProperties.PatchedField | betavita/src/loader/self_loader.cpp:218-281 | After the pass a field no later step touches holds what its relocation type, S, A and P determine |
| PassProperties.PatchedBranch | betavita/src/loader/self_loader.cpp:226-253 | After the pass a patched Thumb BL decodes to the displacement S + A - P if and only if that is even and in [-2^24, 2^24) |
| PassProperties.PatchedMovPair | betavita/src/loader/self_loader.cpp:255-281 | After the pass a MOVW and a MOVT word patched with the same S and A decode together to exactly S + A |
| PassProperties.UntouchedBitsKept | betavita/src/loader/self_loader.cpp:218-281 | Bits of a word outside all fields written, such as opcode and register bits, are unchanged by the pass |
| MaskedWrites.RunIsOneWrite | betavita/src/loader/self_loader.cpp:218-281 | At each byte a whole run amounts to one masked write of a constant that depends on which addresses are mapped and not on memory contents |
| MaskedWrites.RunTwice | betavita/src/loader/self_loader.cpp:290-372 | Any sequence of masked constant writes, run until the first failure, is idempotent |
| MaskedWrites.RunSucceedsIff | betavita/src/loader/self_loader.cpp:213-216 | A run succeeds if and only if every step is a known relocation at a mapped address |
| MaskedWrites.RunLastWriter | betavita/src/loader/self_loader.cpp:302-359 | In a successful run each bit is decided by the last step covering it |
| MaskedWrites.RunIgnoresOrder | betavita/src/loader/self_loader.cpp:363-371 | With compatible steps only the set of steps matters, not their order or repetition |
| MaskedWrites.SwapIff | betavita/src/loader/self_loader.cpp:302-359 | Two steps commute on a memory if and only if their values agree wherever both masks cover a mapped bit |
| MaskedWrites.DisjointAreCompatible | betavita/src/loader/self_loader.cpp:218-281 | Steps whose field masks do not overlap are compatible |
| MaskedWrites.FieldSurvives | betavita/src/loader/self_loader.cpp:302-359 | A field no later step touches still holds its value when the run ends |
| Relocation.BranchRoundTrip | betavita/src/loader/self_loader.cpp:226-253 | Decoding any word whose BL field was written with d yields d modulo 2^25 without bit 0, sign extended; that is d itself if and only if d is even and within reach |
| Relocation.MovPairLoadsTarget | betavita/src/loader/self_loader.cpp:255-281 | A MOVW and a MOVT word holding the two halves of a target decode to that target whatever else they hold |
| Relocation.KnownInstructions | betavita/src/loader/self_loader.cpp:226-281 | The decoders agree with the encodings of some MOVW, MOVT and BL instructions |
| Relocation.SupportedCodes | betavita/src/loader/self_loader.cpp:218-286 | The relocation types handled are 2, 10, 38, 42, 47 and 48 |
| Words.LittleEndian | betavita/src/loader/self_loader.cpp:257 | A word read from four bytes is their little-endian number |
| Words.WrittenLittleEndian | betavita/src/loader/self_loader.cpp:267 | A word written is the little-endian number of its four bytes |
| Relocation.Prel31KeepsBit31Iff | betavita/src/loader/self_loader.cpp:223-225 | Clearing bit 31 agrees with the processor supplement, which keeps it, if and only if the old word had it clear |
| Relocation.StoreBranch | betavita/src/loader/self_loader.cpp:228-252 | The five bit-field stores, in the code's order, amount to one masked write whose value does not depend on the old word, although J1 and J2 read the sign field back |
| Relocation.StoreMov | betavita/src/loader/self_loader.cpp:255-281 | Clearing and or-ing the immediate fields is the masked write of imm4, i, imm3 and imm8 |
| Relocation.ApplyOneRelocation | betavita/src/loader/self_loader.cpp:209-288 | Fails if and only if the address is unmapped or the type unknown, and then changes nothing; otherwise guest memory changes by exactly one masked write at P |
| RelocationPass.EntryRoundTrip | betavita/src/loader/self_loader.cpp:102-113 | The bit-field packing of a format 0 entry is a bijection |
| RelocationPass.SecondAddressIntendedIff | betavita/src/loader/self_loader.cpp:334-337 | The second relocation of an entry lands at offset + 2 * dist2 if and only if dist2 is 0, since the distance is added twice |
| RelocationPass.ApplyEntry | betavita/src/loader/self_loader.cpp:303-351 | An entry of another format is rejected; otherwise guest memory and result are those of its one or two masked writes |
| RelocationPass.PerformSegmentRelocation | betavita/src/loader/self_loader.cpp:296-361 | The loop over packed 12-byte entries refines the run of the steps its bytes decode to |
| RelocationPass.DoSelfRelocation | betavita/src/loader/self_loader.cpp:363-372 | The pass over all relocation segments refines the run of all their steps, stopping at the first failure |
| SegmentLoader.RangeExact | betavita/src/loader/self_loader.cpp:601 | The mapped range covers the segment, ends on the last byte of a page and less than a page after it, also in the last page of the address space |
| SegmentLoader.ProtectionBits | betavita/src/loader/self_loader.cpp:589-598 | A region is readable, writable and executable exactly as the header flags say |
| SegmentLoader.LoadSegment | betavita/src/loader/self_loader.cpp:591-607 | Maps one zero-filled page-ended region with the segment's name and protection and copies the file bytes over it; no other guest byte changes |
| SegmentLoader.LoadSegments | betavita/src/loader/self_loader.cpp:587-612 | The loop keeps the layout, maps exactly the ranges of the loaded segments, each with its name and protection, and leaves the lowest start in bottom_address |
| SegmentLoader.LowestStartIsLeast | betavita/src/loader/self_loader.cpp:602-603 | bottom_address is the least start among the loaded segments |
| SegmentLoader.LoadKeeps | betavita/src/loader/self_loader.cpp:587-612 | Addresses outside the loaded segments are mapped and filled as before |
| SegmentLoader.LoadedContents | betavita/src/loader/self_loader.cpp:601-607 | After loading page-disjoint segments each holds its file bytes, then zeros to its page end |
| SegmentLoader.LoadedAndRelocated | betavita/src/loader/self_loader.cpp:587-631 | After loading and relocating, each bit of a segment is the last covering relocation's, else the file's or zero |
| SelfLoader.LoadSelfToMemory | betavita/src/loader/self_loader.cpp:587-649 | Mapping, module info check, relocation and import patching in sequence; a failed relocation unmaps all memory; the module is registered if and only if its imports succeeded; the result is true if its exports are accepted too |
| SelfLoader.ModuleInfoAt | betavita/src/loader/self_loader.cpp:614-617 | An entry n * 2^30 + off names the address off bytes into segment n, wrapped |
| SelfLoader.LoadFailsIff | betavita/src/loader/self_loader.cpp:614-642 | With the module info in a loaded segment, loading fails if and only if a relocation or an import does, and leaves memory empty if and only if a relocation does |
| SelfLoader.LoadedImage | betavita/src/loader/self_loader.cpp:587-642 | When the imports succeed, every bit of a segment off the import stubs is the last covering relocation's, else the file's or zero |
| AddressSpace.ScanFinds | betavita/src/memory/memory.cpp:63-71 | In a disjoint list the scan finds the only region that can hold an address |
| AddressSpace.InsertKeepsLayout | betavita/src/memory/memory.cpp:25-30 | Adding a page-ended region that meets no other keeps the list sorted by end, disjoint, non-empty and page-ended |
| AddressSpace.InsertKeepsLayoutIff | betavita/src/memory/memory.cpp:25-30 | Nothing less keeps the layout: the region must be non-empty, page-ended and apart from all others |
| AddressSpace.InsertKeepsGuards | betavita/src/hle/memory_manager.cpp:17-31 | Adding a region keeps a free page between all neighbours if and only if it leaves one on each side |
| AddressSpace.InsertKeepsSameLookup | betavita/src/memory/memory.cpp:25-30 | Later mappings leave every mapped address with the region that held it |
| GuestMemory.LocateInjective | betavita/src/memory/memory.cpp:63-71 | Distinct guest addresses never share a host byte |
| GuestMemory.LocateIgnoresOrder | betavita/src/memory/memory.cpp:63-71 | Translation does not depend on the order in which the region list is scanned |
| GuestMemory.LocateWithin | betavita/src/memory/memory.cpp:93-102 | A guest byte lies in a block of n from an address exactly when its host byte lies in the n from that address's pointer, at the same distance |
| GuestMemory.Memory.GetPointerUnchecked | betavita/src/memory/memory.cpp:63-71 | Null if and only if the address is unmapped; otherwise a pointer to the byte the flat view has there |
| GuestMemory.Memory.PushSorted | betavita/src/memory/memory.cpp:25-30 | push_back and sort insert the region in order and, if it meets no other, change no other translation |
| GuestMemory.Memory.MapMemory | betavita/src/memory/memory.cpp:12-34 | Adds a zero-filled region of that name and protection; if it meets no other, the flat view gains its zeros and no byte changes |
| GuestMemory.Memory.Memcpy | betavita/src/memory/memory.cpp:93-102 | Overwrites exactly the guest bytes of the destination block, or nothing if it is unmapped |
| GuestMemory.Memory.UnmapAll | betavita/src/memory/memory.cpp:40-47 | Leaves no region |
| AllocatorSpec.GapTest | betavita/src/hle/memory_manager.cpp:23-26 | The wrapped, sign-cast test accepts a gap if and only if the exact slack for the block and a page on each side is in [0, 2^31), also before the last page, where the next page wraps to 0 |
| AllocatorSpec.GapTestSoundIff | betavita/src/hle/memory_manager.cpp:9-26 | The test never takes a gap too small for the request if and only if the request is below 0x7FFFE000 bytes |
| AllocatorSpec.SearchTakesLowestGap | betavita/src/hle/memory_manager.cpp:14-31 | With an acceptable gap, the loop stops one page after the region before the lowest one, wherever the regions above it end |
| AllocatorSpec.SearchGoesOnTop | betavita/src/hle/memory_manager.cpp:14-31 | Without one, top_address ends page-aligned and past every region, at most one page after the last |
| AllocatorSpec.MoreMemoryPlaces | betavita/src/hle/memory_manager.cpp:7-38 | The block is page-aligned, does not wrap, meets no region, goes to the lowest acceptable gap leaving a page after it, else past every region |
| AllocatorSpec.AllocateKeepsLayout | betavita/src/hle/memory_manager.cpp:40-62 | Every allocation with room keeps the layout and the guard pages, in the gap branch and in the top branch |
| AllocatorSpec.AllocateKeepsLayoutIff | betavita/src/hle/memory_manager.cpp:7-62 | With room or without, an allocation keeps the layout if and only if a gap is taken, or the address on top is 0 and the request refused, or the block there does not wrap and meets no region |
| AllocatorSpec.WithoutRoom | betavita/src/hle/memory_manager.cpp:14-37 | Without room: under a region that ends the address space the block is put in page 1 whatever is there; one page lower the request is refused, unless top_address was already past that region; otherwise it goes past every region |
| AllocatorSpec.TouchingLosesGuard | betavita/src/hle/memory_manager.cpp:17-19 | After a one-page region right behind another, a block on top is placed without a guard page |
| AllocatorSpec.HugeGapPassedOver | betavita/src/hle/memory_manager.cpp:25-26 | A gap with 2^31 or more bytes to spare is refused and the block goes on top |
| AllocatorSpec.RunKeepsLayout | betavita/src/hle/memory_manager.cpp:7-62 | Over any run of map and allocate calls, refused ones included, the list stays sorted, disjoint and page-ended, loses no region, gains one for each request not refused, and keeps guard pages and every lookup |
| MemoryManager.MoreMemory | betavita/src/hle/memory_manager.cpp:7-38 | The loop with its early break returns what the search function gives for the current region list |
| MemoryManager.AllocateStack | betavita/src/hle/memory_manager.cpp:40-50 | Returns the address past the new readable and writable block; with room, guest memory gains that zero-filled block and nothing else changes |
| MemoryManager.AllocateHeap | betavita/src/hle/memory_manager.cpp:52-62 | Returns the start of the new readable and writable block; with room, guest memory gains that zero-filled block and nothing else changes |
| ImportLoader.PatchStub | betavita/src/loader/self_loader.cpp:375-384 | The three word stores overwrite exactly the 12 bytes of the stub |
| ImportLoader.ImportFunction | betavita/src/loader/self_loader.cpp:443-455 | Fails if and only if the row's entry is unmapped; otherwise patches its stub and records the row as the tables hold it afterwards |
| ImportLoader.ImportRows | betavita/src/loader/self_loader.cpp:442-456 | The table loop refines patching the rows one after the other, stopping at the first unmapped entry |
| ImportLoader.ImportFunctions | betavita/src/loader/self_loader.cpp:427-456 | Fails on an unmapped table; otherwise patches and records all rows of the library |
| ImportLoader.CheckVariable | betavita/src/loader/self_loader.cpp:471-485 | Succeeds if and only if the row points to a mapped word that asks for no relocation data; nothing is written |
| ImportLoader.CheckVariables | betavita/src/loader/self_loader.cpp:471-485 | The variable loop succeeds if and only if all rows do |
| ImportLoader.ImportVariables | betavita/src/loader/self_loader.cpp:458-486 | Without variable tables nothing is checked; with them both must be mapped and every row succeed |
| ImportLoader.ImportLibrary | betavita/src/loader/self_loader.cpp:398-488 | Fails on an unmapped header or one of another size; otherwise the functions are patched and recorded and then the variables checked |
| ImportLoader.AddModuleImports | betavita/src/loader/self_loader.cpp:394-490 | The library loop refines importing all libraries in order; if all succeed there is one library for each header, with its name and all its functions, and together they hold in order what was recorded |
| ImportStubs.ImportsPatched | betavita/src/loader/self_loader.cpp:442-456 | With disjoint stubs, the recorded imports are the rows of the tables and each stub holds the supervisor call, the return and its row's NID |
| ImportStubs.LibraryRows | betavita/src/loader/self_loader.cpp:427-455 | The rows of a library pair its NID table and its entry table word by word, in order |
| ImportStubs.LibraryImported | betavita/src/loader/self_loader.cpp:398-456 | Importing a library with disjoint stubs records each of these pairs and turns the 12 bytes at its entry into its stub |
| ImportStubs.PlainVariableIff | betavita/src/loader/self_loader.cpp:471-485 | A variable row is accepted if and only if it points to a word with no bit set but the lowest and the highest four |
| ImportStubs.RelocationDataSizeIs | betavita/src/loader/self_loader.cpp:479 | The relocation data size is bits 4 to 27 |
| ImportStubs.StubWords | betavita/src/loader/self_loader.cpp:376-383 | A stub reads back as the words 0xEF000000 (SVC), 0xE1A0F00E (MOV PC, LR) and the NID |
| ImportStubs.OffStubsKept | betavita/src/loader/self_loader.cpp:375-384 | Patching changes no byte off the stubs |
| ImportStubs.StubOutlives | betavita/src/loader/self_loader.cpp:375-384 | Patching the imports of another module leaves a stub that theirs do not meet |
| ImportStubs.EntriesUnique | betavita/src/loader/self_loader.cpp:453-455 | With disjoint stubs no two different imports share an entry address |
| Hle.FindIsFirst | betavita/src/hle/hle.cpp:48-58 | The search finds the first registered function with the NID in module and function order, null if and only if there is none |
| Hle.State.GetFunctionFromModuleList | betavita/src/hle/hle.cpp:48-58 | The nested loops return that first function |
| Hle.State.GetFunctionFromAddress | betavita/src/hle/hle.cpp:41-46 | Finds the dispatch entry of an address if and only if there is one |
| Hle.State.ResolveRuntimeModules | betavita/src/hle/hle.cpp:23-39 | The three nested loops bind every recorded import in order |
| Hle.ResolveLastWins | betavita/src/hle/hle.cpp:30-34 | At each address the dispatch map holds the last import bound to it, or what it held before |
| Hle.ResolvedFromImports | betavita/src/hle/hle.cpp:23-39 | Every dispatch entry that resolving makes is for an import of a registered module: at its address, with its library's name, its NID and the first function registered with that |
| Hle.ResolveTwice | betavita/src/hle/hle.cpp:23-39 | Resolving again changes nothing |
| Hle.StubLives | betavita/src/hle/hle.cpp:16-39 | The stub is still there after each later module's imports are patched |
| Hle.ImportsDispatched | betavita/src/hle/hle.cpp:23-39 | For every import of every registered module whose stubs no later module's stubs meet and nothing else overwrites, once all modules are loaded and resolved, the stub in guest memory and the dispatch entry at its address carry the same NID, and the entry the first function registered with it |
| PathScanner.Scanner.ScanToken | betavita/vfs/vfs.cpp:112-162 | Returns the next token and leaves the text after it |
| PathScanner.Scanner.Parse | betavita/vfs/vfs.cpp:321-339 | Appends the branches of the remaining text; terminates on every string |
| PathScanner.IdentifiersAre | betavita/vfs/vfs.cpp:121 | Names are made of the letters of both cases, the digits, `_`, `.` and `$` |
| PathScanner.NameIsOneBranch | betavita/vfs/vfs.cpp:127-134 | A text over that alphabet parses to itself as one branch |
| PathScanner.BranchCharacters | betavita/vfs/vfs.cpp:121-161 | No other character is ever part of a branch, but for a slash or colon that is one |
| PathScanner.OthersSkipped | betavita/vfs/vfs.cpp:154-157 | A leading character outside the alphabet and outside slash, colon and NUL is skipped |
| PathScanner.NulEnds | betavita/vfs/vfs.cpp:126-158 | A NUL ends the path |
| PathScanner.LeadingColon | betavita/vfs/vfs.cpp:145-152 | A leading colon is taken as a branch with the slashes after it, and the path that follows is dropped |
| PathScanner.NameThenStop | betavita/vfs/vfs.cpp:333-338 | After a name, a colon or a second name after skipped characters ends the path |
| PathScanner.ParsePrint | betavita/vfs/vfs.cpp:112-162 | Parsing a non-empty list of names, `.` and `..` included, joined by one or more slashes with any number at the end, gives exactly that list |
| PathScanner.BranchesAreTokens | betavita/vfs/vfs.cpp:321-339 | Whatever the text, every branch is an identifier, or a slash or colon taken for one |
| PathScanner.LeadingSlash | betavita/vfs/vfs.cpp:333-338 | Slashes before a printed path become a branch of their own and the whole path is dropped |
| PathScanner.RelativeIff | betavita/vfs/vfs.cpp:112-162 | For every text, only names are parsed as branches if and only if no separator without a name before it comes before the point where the parser stops |
| PathScanner.RelativeWithoutBlanks | betavita/vfs/vfs.cpp:112-162 | Among identifier characters, slashes and colons, that is: the text is empty or starts with a name, and its first colon does not follow a slash |
| PathScanner.Scanner.ReadName | betavita/vfs/vfs.cpp:127-134 | The identifier loop reads to the first other character |
| PathScanner.Scanner.ReadSlashes | betavita/vfs/vfs.cpp:136-152 | The loop after a slash or colon reads to the first other character |
| FileTree.CreateOutcome | betavita/vfs/vfs.cpp:195-248 | createFile succeeds if and only if its path leads to a directory, or only its last component is missing and the type can be created; it then adds that one node, and otherwise changes nothing |
| FileTree.CreateOne | betavita/vfs/vfs.cpp:213-245 | One component: a directory (2) or plain file (3) is created if the name is free; a directory of that name will do; nothing else succeeds |
| FileTree.CreateTwo | betavita/vfs/vfs.cpp:205-241 | Two components: the first must be a directory, `..` or `.` |
| FileTree.CreateKeepsWellFormed | betavita/vfs/vfs.cpp:195-248 | A call keeps the tree well formed, adds at most one node and changes nothing when it returns false |
| FileTree.CreateThenResolve | betavita/vfs/vfs.cpp:195-248 | After a successful call its path leads somewhere, and every path that led somewhere leads there as before |
| FileTree.CreateAllKeeps | betavita/vfs/vfs.cpp:195-248 | The same over any sequence of calls; paths whose text is relative keep all names plain |
| FileTree.GetOne | betavita/vfs/vfs.cpp:290-318 | A directory of the root prints with a slash, a plain file without, `.` and `..` as nothing |
| FileTree.FollowAgrees | betavita/vfs/vfs.cpp:290-316 | One component keeps string stack and directory in agreement if and only if it does not name a plain file; `..` at the root is a no-op |
| FileTree.AgreesIffNoPlainFile | betavita/vfs/vfs.cpp:290-316 | All along the walk currentPath is the printed path of the directory and oldPath those of its proper ancestors in order, if and only if no component names a plain file |
| FileTree.PlainFileMidPath | betavita/vfs/vfs.cpp:306-312 | A plain file in mid-path is accepted: two plain files of a directory run together in the result, though the path leads nowhere |
| FileTree.AcceptIff | betavita/vfs/vfs.cpp:290-316 | The walk accepts exactly the paths that lead somewhere, if and only if the path does not pass a plain file in the middle and lead somewhere with plain files left out |
| FileTree.WalkIsErased | betavita/vfs/vfs.cpp:290-316 | The walk goes on exactly as long as the path leads somewhere with plain files left out; its directory is where the path then leads, and its stack is as deep as the names less the `..` that undo them |
| FileTree.WalkIsResolve | betavita/vfs/vfs.cpp:290-319 | When no plain file is passed the walk fails if and only if the path leads nowhere, and else its string is the canonical path of the node |
| FileTree.GetIsCanonicalIff | betavita/vfs/vfs.cpp:279-319 | For every query the result is the canonical path of the node it leads to, or empty if it leads nowhere, if and only if it does not pass a plain file, lead somewhere without it and keep a name |
| FileTree.ResultIsPlain | betavita/vfs/vfs.cpp:279-319 | Whatever the query, the result is a printed path of plain names, without `.` or `..` |
| FileTree.GetAgainIff | betavita/vfs/vfs.cpp:279-319 | Asking for a printed path gives it back if and only if it is the printed path of a node |
| FileTree.ParseRendered | betavita/vfs/vfs.cpp:321-339 | Parsing a printed path gives back its components |
| FileTree.GetIsCanonical | betavita/vfs/vfs.cpp:279-319 | For every query and tree of plain names: getFile's result has no `.` or `..` component; it is canonical if and only if no names run together; and when canonical, getFile of it is the same string |
| FileTree.ReachableGetIsCanonical | betavita/vfs/vfs.cpp:195-319 | The same in every tree built by createFile from paths whose text is relative |
| Vfs.FileNode.FindFile | betavita/vfs/vfs.cpp:44-49 | Finds a listed node of that name, null only if there is none |
| Vfs.VirtualFilesystem.Mount | betavita/vfs/vfs.cpp:179-185 | False and no change if the name is taken; a fresh ux0 is a tree holding its root alone |
| Vfs.VirtualFilesystem.Attach | betavita/vfs/vfs.cpp:244 | Appending a new node to a directory's list keeps the heap shape and adds exactly its path to the tree |
| Vfs.VirtualFilesystem.CreateFile | betavita/vfs/vfs.cpp:195-248 | On the pointer structure, the outcome and the new tree are those of the path map specification, and the heap shape is kept |
| Vfs.VirtualFilesystem.GetFile | betavita/vfs/vfs.cpp:279-319 | On the pointer structure, the string is the one the path map specification gives; only the scanner changes |
| Vfs.AttachKeepsShape | betavita/vfs/vfs.cpp:225-245 | One more node keeps: distinct paths hold distinct nodes, each hangs in its container under its name, each child directory points back to its container, the root is its own parent |
| Vfs.SiblingNamesDistinct | betavita/vfs/vfs.cpp:216-245 | Sibling names are distinct |
| Vfs.ParentsReachRoot | betavita/vfs/vfs.cpp:66-71 | From every directory the parent pointers reach the mount root in as many steps as its path is long, and stay there: no cycles |
| Vfs.ShapeIsWellFormed | betavita/vfs/vfs.cpp:195-248 | The heap shape implies a well-formed path map |
| KernelSpec.RunKeepsConsistent | betavita/src/hle/kernel.cpp:51-116 | In every reachable state the object table and the thread list hold the same UIDs, the list increases and the ready queue is empty; UIDs handed out along a run are fresh, increasing and never come back after destruction |
| KernelSpec.DestroyedForGood | betavita/src/hle/kernel.cpp:101-116 | A destroyed thread leaves every other thread as it was and is gone for good: over any later run its UID is in neither table nor list, is never fetched, and every call answers as for an unknown UID |
| KernelSpec.RemoveFirstKeeps | betavita/src/hle/kernel.cpp:61-65 | Removing a UID from an increasing list removes exactly that UID and keeps the order |
| KernelSpec.FetchFinds | betavita/src/hle/kernel.cpp:177-203 | Fetching leaves the queue empty and the state unchanged; it returns no thread if and only if none is READY, else the READY thread of greatest UID, which is the last in the list |
| KernelSpec.DrainTakesLast | betavita/src/hle/kernel.cpp:194-198 | A queue of live threads is drained and its last entry returned |
| KernelSpec.DispatchRuns | betavita/src/hle/kernel.cpp:214-224 | Dispatching makes the READY thread of greatest UID RUNNING (1) and changes nothing else; it finds none if and only if none is READY |
| KernelSpec.DispatchTwice | betavita/src/hle/kernel.cpp:214-224 | A second dispatch finds a different thread, or none if at most one was READY |
| KernelSpec.RetireOutcome | betavita/src/hle/kernel.cpp:235-241 | Retiring stores the registers and makes the thread READY (2) if and only if it was RUNNING (1); nothing else changes |
| KernelSpec.SchedulerStarves | betavita/src/hle/kernel.cpp:209-242 | Left alone the scheduler runs the same thread in every slice |
| KernelSpec.FairIff | betavita/src/hle/kernel.cpp:209-242 | Over any slices left alone every READY thread runs if and only if at most one is READY |
| KernelSpec.OlderStarves | betavita/src/hle/kernel.cpp:194-198 | A READY thread never runs while one created after it is READY |
| KernelSpec.OlderThreadStarves | betavita/src/hle/kernel.cpp:122-242 | Two threads created and started from boot are both READY, and from then on the older one never runs |
| KernelSpec.RunKeepsBytes | betavita/src/hle/kernel.cpp:143-161 | Over any run of kernel calls and mappings every byte of guest memory, the loaded program's among them, stays as it was |
| KernelSpec.StartKeepsBytes | betavita/src/hle/kernel.cpp:156-158 | The stack and TLS blocks of a started thread join guest memory as zeros and change no byte |
| KernelSpec.FirstUid | betavita/src/hle/kernel.cpp:21-30 | The first UID is 0x100 |
| KernelSpec.CreateOutcome | betavita/src/hle/kernel.cpp:122-141 | create_thread hands out the next UID for a STAGNANT (128) thread with these fields, zero context and no TLS, and changes no other thread |
| KernelSpec.StartOutcome | betavita/src/hle/kernel.cpp:143-161 | -1 for an unknown UID whatever the argument, process exit for a non-null one, else 0 with PC, LR and CPSR set, and no other thread changes |
| KernelSpec.TlsRefused | betavita/src/hle/kernel.cpp:163-175 | get_tls_addr refuses exactly unknown UIDs and keys outside 0..0x100 |
| KernelSpec.CreateThenStart | betavita/src/hle/kernel.cpp:122-161 | A thread just created and started is the next to run, at its entry point, SP at the top of a region of its own that holds the requested stack, TLS in another region |
| KernelSpec.AllocationPlaces | betavita/src/hle/memory_manager.cpp:40-62 | An allocation is a new page-ended region larger than the request, above page 0 and apart from all others |
| KernelSpec.RunKeepsGrants | betavita/src/hle/kernel.cpp:143-161 | Over any run of calls all stacks and TLS blocks ever handed out are pairwise disjoint mapped regions, apart from every region mapped before, which stays mapped; each stack holds [SP - size, SP), and each started thread owns the TLS block it points to |
| KernelSpec.TlsSlotIffStarted | betavita/src/hle/kernel.cpp:163-175 | For every key 0..0x100 get_tls_addr gives a 4-byte slot inside a TLS block granted to that thread if and only if the thread has been started |
| KernelSpec.TlsSlotsApart | betavita/src/hle/kernel.cpp:163-175 | Slots of different started threads, or of different keys, share no byte |
| KernelSpec.ThreadsKeepApart | betavita/src/hle/kernel.cpp:122-175 | The same in every state reached from boot by any interleaving of calls, the loaded program staying mapped and apart |
| Kernel.Kernel.constructor | betavita/src/hle/kernel.cpp:21-30 | The state is the boot state over the regions mapped so far |
| Kernel.Kernel.CreateKernelObject | betavita/include/hle/kernel.h:432-447 | A fresh object under the next UID, in the table and at the end of the list |
| Kernel.Kernel.CreateThread | betavita/src/hle/kernel.cpp:122-141 | The heap state becomes that of the specification's call: a stagnant thread with zero context and no TLS |
| Kernel.Kernel.StartThread | betavita/src/hle/kernel.cpp:143-161 | -1 and no change for an unknown UID, process exit for a non-null argument, else the stack and TLS allocations and the register values of the specification, changing this thread and memory alone; with room, guest memory gains the two zero-filled blocks and nothing else changes |
| Kernel.Kernel.RemoveUidFromList | betavita/src/hle/kernel.cpp:61-65 | Removes the first occurrence and nothing else |
| Kernel.Kernel.DestroyKernelObject | betavita/src/hle/kernel.cpp:101-116 | False and no change for an unknown UID; else the object leaves table and list and every other object stays as it was |
| Kernel.Kernel.GetTlsAddr | betavita/src/hle/kernel.cpp:163-175 | tlsLow + 4 * key for a live thread and a key in 0..0x100, else 0xFFFFFFFF |
| Kernel.Kernel.CollectReady | betavita/src/hle/kernel.cpp:178-186 | The rebuilt queue holds the READY threads of the list, in order |
| Kernel.Kernel.DrainQueue | betavita/src/hle/kernel.cpp:192-198 | The do-while loop takes entries until the queue is empty or an entry is dead, and returns the last one taken |
| Kernel.Kernel.FetchReadyThread | betavita/src/hle/kernel.cpp:177-203 | Refines the specification's fetch and returns the object it names |
| Kernel.Kernel.DispatchThread | betavita/src/hle/kernel.cpp:214-224 | The fetched thread becomes RUNNING (1) and the current thread of core 0 |
| Kernel.Kernel.RetireThread | betavita/src/hle/kernel.cpp:235-241 | The CPU's registers become the thread's context; READY again if and only if still RUNNING |
| Kernel.Kernel.RunSingleThread | betavita/src/hle/kernel.cpp:209-242 | A slice in which the guest makes no kernel call refines the specification's slice |

## Left out

- The CPU engine, supervisor-call plumbing and `main`: foreign code. A CPU run is an arbitrary
  new register context, and the calls that mirror mappings into the engine have no effect.
- Decompression, decryption and SCE header parsing: segments arrive decoded, as lists of bytes.
- Module info and import headers as bytes: they arrive decoded, with the address each was read from, so
  stubs are taken not to overwrite the headers.
- Export walking, which only reads memory: whether it accepts is an input of
  `SelfLoader.LoadSelfToMemory`.
- `top_address` in the segment loop: computed and never used.
- Programs that are not relocatable: refused right after their segments are mapped.
- `unmap_memory` of one region and `change_protection`: list and engine are updated differently.
- `removeFile`: it never hands its path to the scanner and never descends.
- `unmount`, destructors and freeing: no state the properties speak of.
- Mount points other than `ux0`: no operation reaches them.
- `Directory` and `AbstractFile` are one class; `currentDirectory` is never read and is omitted.
- The lookup of registered functions by name: the same loop as the lookup by NID.
- Logging, display, mutexes, module wrappers, and thread fields that only ever hold a constant
  (`processId`, `stackAddress`, `waitType`, `waitID`).
- Object types other than threads: the program creates none.
- Guest code that destroys the thread it runs on: the source then uses a freed object.
- Use of characters outside ASCII in paths: `isalpha` and `isdigit` depend on the locale there.
- GuestMemory.Memory.PushSorted: the order `std::sort` gives regions of equal end is not fixed by the
  source; the model puts the new one last. Disjoint regions have distinct ends.
- GuestMemory.Memory.MapMemory: a region of all 2^32 bytes, whose size wraps to 0, is not modelled.
- GuestMemory.Memory.Memcpy: a block running past the end of its region is not modelled; the source
  then writes outside the host buffer.
- Relocation.ApplyOneRelocation: a patched word that straddles the end of its region is not modelled, for
  the same reason.
- RelocationPass.PerformSegmentRelocation: segment sizes are multiples of 12; the source otherwise reads past
  the buffer.
- SelfLoader.LoadSelfToMemory: the segment that the entry word names exists; the source indexes without a check.
- SegmentLoader.LoadSegments: segments are not empty, do not run past 2^32 nor fill all of it, keep to
  their own pages, and their file bytes fit those pages.
- ImportLoader.ImportLibrary: a table, stub or variable word that straddles the end of its region is not
  modelled; the source then reads or writes outside the host buffer.
- ImportStubs.ImportsPatched: stubs are disjoint from each other and from the tables; otherwise
  a later stub overwrites an earlier one.
- KernelSpec.RunKeepsGrants: UIDs stay below `int` overflow and the address space has room for
  what is started.
- KernelSpec.RunKeepsConsistent: `uid_value` is taken not to overflow its `int`.
- KernelSpec.DestroyedForGood: the same.
- KernelSpec.FetchFinds: the same, where a greater UID is taken to mean a later creation.
- KernelSpec.TlsRefused: TLS addresses are multiples of 4, as 0 and every block start are; otherwise a slot
  could be mistaken for the refusal.
- KernelSpec.RunKeepsBytes: what the guest itself writes during a slice is not part of it.
- FileTree.GetIsCanonical: when names run together, whether asking for the result gives the result is
  stated only through the tree (`FileTree.GetAgainIff`), not through the query.
- Vfs.VirtualFilesystem.CreateFile: `ux0` is mounted; the source follows a null pointer otherwise.
