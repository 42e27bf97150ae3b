# Proofs about the Ultra kernel's core algorithms

Dafny models of six parts of the kernel and of the tool that generates its symbol tables, with proofs of what those
parts are for. `dafny verify dfyconfig.toml` checks all of it.

| files | source | what is proved |
|---|---|---|
| `memory_ranges`, `range_surgery`, `boot_alloc_spec`, `boot_alloc_runs`, `boot_alloc_history`, `boot_alloc_init`, `boot_alloc_start`, `boot_alloc` | `kernel/memory/boot_alloc.c` | the split/merge surgery refines overwriting an address map; both placement strategies are optimal and complete; every legal run keeps blocks disjoint and held, panics nowhere and accounts for every byte; a run that gives everything back restores the entries; no run hands out memory that was not reported free; when growing fails |
| `tokens`, `token_table`, `symbol_tables`, `symbols` | `scripts/generate_symbol_tables.py`, `kernel/symbols.c` | interning keeps the meaning of every name and its counts exact; tables written by the generator and read by the kernel give the right name and offset, end to end |
| `dwarf_encoding`, `dwarf_cfi`, `unwind_table`, `eh_cursor`, `unwind`, `unwind_calls`, `fde_search`, `eh_encodings` | `kernel/unwind.c` | decoding inverts encoding within bounds; the interpreter with its early exit finds the row of the full unwind table; the caller's registers follow that row; unwinding inverts calling and pushing; binary search over the function table |
| `ctype`, `conversions`, `number_readings`, `integer_text`, `format_render`, `format`, `format_length`, `format_round_trip`, `format_letters`, `format_fields` | `kernel/common/conversions.c`, `kernel/common/format.c` | overflow tests are exact; printed numbers parse back; output is truncated, terminated and counted exactly, and when the result is the length; the text of every flag, field, modifier and letter |
| `command_line`, `params`, `param_restore` | `kernel/param.c` | the tokenizer inverts joining; a line that writes out all parameters restores them |
| `words`, `long_division` | `kernel/arch/x86/builtins.c` | 64-bit division on 32-bit machines |
| `errors`, `options` | `kernel/include/common/error.h` | error codes, and optional values |

The mutable parts of the source are classes with arrays and loops (`BootAllocator` with its packed entries and `memmove`s,
`TokenTable`, `FormatBuffer`, `EhData`, `UnwindState`, the arrays of parameters and output buffers). Every method is tied
to a function of the old state, and the properties are proved about those functions. Machine words are natural numbers
with the wrap-around written out where the source relies on it, for a `size_t` of 32 or 64 bits. Error codes packed into
addresses are datatypes here; `ErrorsToldApart` says when the packing confuses a caller.

Where the code falls short of what one would expect, the exact condition is proved:

* The size check of the boot allocator, `bytes <= pages`, does not catch every overflow: with a `size_t` of 32 or 64 bits
  an accepted request is served in full exactly when the page count is positive and below 2^(bits - 12)
  (`SizeCheckMeaning`); `SizeCheckAdmitsOverflow` names a count for either width that is not.
* A new buffer for the boot allocator that is placed at address 0 is taken for a failure, which happens exactly if that is
  its highest placement (`GrowthExactly`). Its pages stay allocated for nobody, allocations are answered with out of memory
  and blocks to be freed leak, although memory may be left: `GrowthAtZeroFails` names maps with 252 to 254 free pages
  before and after. The books still balance when lost blocks are counted (`RefusalSound`, `LoseBlock`), and while the
  bootloader's map is read each such growth drops one entry (`BootAllocInit`).
* Addresses up to 4095 stand for errors, so a block at address 0 reads as one: once the buffer is ready, an allocation
  fails in the caller's eyes exactly if nothing can be placed at 4096 or above (`ErrorsToldApart`).
* Dividing zero by zero gives one and does not panic, because equal operands are tested for first; every other division
  by zero does (`UDivModDi4`).
* A number printed with `%#X` never parses back, because only a lower-case `0x` announces a base (`UppercaseNeverParses`).
* A quoted command-line value is followed by one more pair whose key is the closing quote (`SplitInvertsJoin` gives the
  pairs exactly, `Pairs`).
* A caller that fixes the base still has an announced base consumed from its text: `0b1` in base 16 is read as 1
  (`FixedBaseLosesDigits`). What is read differs from what the text denotes, and not just in the error code, exactly if
  the text starts with `0x` or `0b` and an acceptable number follows (`FixedBaseExact`).
* The formatter counts in a `size_t` and returns an `int`. What it returns is the length exactly below 2^31
  (`Vsnprintf`, `LengthReturned`); longer ones come back cut down or negative, even as the code of a malformed format
  (`LengthComesBackNegative`, `LengthLooksLikeError`), and on 32-bit machines the counter wraps and the terminator lands in
  the text (`CounterWraps`). A caller is safe who keeps thirteen times the length of the format, all widths and all strings
  together below 2^31 (`BudgetSuffices`).
* On 32-bit machines the padding of `%s` ends exactly for widths below 2^32 (`StringFieldEnds`).
* The address lookup keeps 32 bits of distance from the first symbol, which is the whole distance exactly from the first
  symbol on for 4 GiB (`SeenExact`); for other addresses in the text the answer is that of a wrapped address.
* The search for a function's description looks at the first entry of its table even if the count is zero (`FindFde`).
* The groups of a LEB128 number are shifted as `int`s, so reading one is defined exactly if each group fits where it is
  shifted to (`LebScanAt`); unsigned numbers below 2^31 and signed ones from -2^27 up to there are all read back
  (`UlebRoundTrip`, `SlebRoundTrip`).
* A run of call frame instructions fails on a bad or unknown one only if it gets there: it succeeds exactly if there is
  none or the locations before it pass the target (`ExecuteFindsRow`, `BothFindRow`).

## Model

| member | source | states |
|---|---|---|
| MemoryRanges.OneEntryIsSeamlessRun | kernel/memory/boot_alloc.c:104-108 | in a sorted disjoint map a stretch lies inside one entry exactly when all its addresses have the kind and no mergeable boundary lies within it |
| MemoryRanges.CanonicalRun | kernel/memory/boot_alloc.c:104-130 | when no two neighbours could be merged, every run of one kind lies in one entry |
| MemoryRanges.CanonicalUnique | kernel/memory/boot_alloc.c:104-130 | two arrays without mergeable neighbours that denote the same address map are equal, entry for entry |
| MemoryRanges.CanonicalSeams | kernel/memory/boot_alloc.c:104-108 | an array has no mergeable neighbours exactly when it has no seam at any address |
| RangeSurgery.EntryGrowth | kernel/memory/boot_alloc.c:156-197 | the entry count changes as the comment documents for each of the nine cases, by -2 to 2 |
| RangeSurgery.AllocateOutOfOverwrites | kernel/memory/boot_alloc.c:132-268 | for every well-formed array and every contained range of the opposite kind, all nine cases give a well-formed array that denotes the old map overwritten on exactly that range, create no new mergeable boundary, and keep the number of recorded bytes |
| RangeSurgery.NewStretchInOneEntry | kernel/memory/boot_alloc.c:132-268 | the new range ends up inside a single entry |
| RangeSurgery.OtherStretchKept | kernel/memory/boot_alloc.c:132-268 | a stretch elsewhere that lay inside one entry still does |
| RangeSurgery.CanonicalKept | kernel/memory/boot_alloc.c:132-268 | an array without mergeable neighbours stays one |
| RangeSurgery.CarveAndGiveBack | kernel/memory/boot_alloc.c:132-268 | changing a range and changing it back restores the array, entry for entry, whatever cases the two steps take |
| BootAllocSpec.ScanFinds | kernel/memory/boot_alloc.c:71-102 | the linear scan that the binary search abbreviates finds the entry holding an address |
| BootAllocSpec.TopDownOptimal | kernel/memory/boot_alloc.c:270-311 | without mergeable neighbours, the address returned is the highest at which the whole request is free below the limit; out of memory exactly when there is none; no BUG_ON fires |
| BootAllocSpec.PickWithinComplete | kernel/memory/boot_alloc.c:345-369 | no early exit of the bounded search gives up before an entry that has room |
| BootAllocSpec.PickWithinSound | kernel/memory/boot_alloc.c:345-369 | what the bounded search settles on is free and has room inside the window |
| BootAllocSpec.GapNeverUnderflows | kernel/memory/boot_alloc.c:352-360 | the unsigned gap is a genuine difference in every entry the search looks at |
| BootAllocSpec.WindowCheckExact | kernel/memory/boot_alloc.c:329-339 | under wrap-around the three checks refuse exactly the windows that are too small |
| BootAllocSpec.WithinIndexLowest | kernel/memory/boot_alloc.c:341-377 | every possible placement in the window lies at or above the chosen one |
| BootAllocSpec.WithinOptimal | kernel/memory/boot_alloc.c:313-381 | without mergeable neighbours, bounded allocation returns the lowest placement in the window, and out of memory exactly when there is none |
| BootAllocRuns.SizeCheckMeaning | kernel/memory/boot_alloc.c:272-280 | for a size_t of either width, an accepted size is the size asked for exactly when the page count is positive and below 2^(width - 12) |
| BootAllocRuns.SizeCheckAdmitsOverflow | kernel/memory/boot_alloc.c:277-280 | for either width a page count that passes the check although its size wrapped |
| BootAllocRuns.TopDownCarves | kernel/memory/boot_alloc.c:270-311 | what a successful search hands to the surgery meets its BUG_ONs, and an unlimited allocation adds one entry at most |
| BootAllocRuns.WithinCarves | kernel/memory/boot_alloc.c:374-381 | the same for a bounded allocation; the block lies in the window |
| BootAllocRuns.FirstGrowth | kernel/memory/boot_alloc.c:395-437 | the first growth, if it is not placed at address 0, changes the map on the new buffer's pages only, at least doubles the capacity, and leaves room beyond the next watermark |
| BootAllocRuns.RefusedGrowth | kernel/memory/boot_alloc.c:420-422 | a growth placed at address 0 takes a whole entry there, so that the buffer gets no fuller, and its pages are lost |
| BootAllocRuns.FreePanicsExactly | kernel/memory/boot_alloc.c:466-487 | if the buffer is ready, freeing panics exactly when the block does not lie inside one allocated entry |
| BootAllocRuns.HoldOneMore | kernel/memory/boot_alloc.c:132-268 | carving a block out of free memory keeps all held blocks disjoint and inside one allocated entry each, the new one included |
| BootAllocRuns.HoldOneLess | kernel/memory/boot_alloc.c:466-487 | giving a held block back leaves the others held |
| BootAllocRuns.GrowthSound | kernel/memory/boot_alloc.c:395-437 | a growth that succeeds keeps the invariant, the books and the map beneath the blocks in use, and leaves room for any operation |
| BootAllocRuns.RefusalSound | kernel/memory/boot_alloc.c:420-422 | so does one that is refused because it was placed at address 0, its pages counted as lost |
| BootAllocRuns.LoseBlock | kernel/memory/boot_alloc.c:475-478 | and so does leaking a block instead of freeing it, the block counted as lost |
| BootAllocRuns.DoSound | kernel/memory/boot_alloc.c:448-487 | one legal operation, with whatever growth it meets, keeps the invariant, the recorded bytes, the accounted bytes and the map beneath the blocks in use, and no BUG_ON fires in it, that of a full buffer included |
| BootAllocRuns.RunSound | kernel/memory/boot_alloc.c:395-487 | over every legal run, growth and refused growth included: blocks in use are pairwise disjoint, each inside one allocated entry; nothing panics; recorded bytes stay the same; every allocated byte is accounted for; the map beneath the blocks in use stays the same |
| BootAllocHistory.DoCanonical | kernel/memory/boot_alloc.c:448-487 | every operation leaves no mergeable neighbours if there were none |
| BootAllocHistory.DoBest | kernel/memory/boot_alloc.c:448-487 | every reply is the best one for the map the operation meets after any growth; after a refused growth it is out of memory, or a leak |
| BootAllocHistory.GrowsExactly | kernel/memory/boot_alloc.c:406-416 | the buffer stays as it is exactly while four entries are left in the initial one, or six in another |
| BootAllocHistory.RoomyBest | kernel/memory/boot_alloc.c:448-487 | with that room an operation takes nothing for the allocator itself and is answered from the map as it is: the highest free stretch of all, the very address asked for, or out of memory exactly if there is none |
| BootAllocHistory.RunBest | kernel/memory/boot_alloc.c:270-487 | over every legal run from a sound state without mergeable neighbours: there are never any, and if the buffer is ready every allocation returns the highest placement and every fixed one its address, and out of memory is reported exactly when there is none |
| BootAllocHistory.AllocThenFree | kernel/memory/boot_alloc.c:448-487 | a successful allocation of either sort, and freeing its block, restores the whole state unless the buffer grows in between |
| BootAllocHistory.RunMap | kernel/memory/boot_alloc.c:395-487 | after any legal run the map is allocated where something is in use, free where something was in use at first and no longer is, and as it was everywhere else |
| BootAllocHistory.RunRestores | kernel/memory/boot_alloc.c:395-487 | a run from a state without mergeable neighbours that ends with the same blocks in use ends with the same entries, in whatever order blocks were taken and freed |
| BootAllocHistory.GrowthExactly | kernel/memory/boot_alloc.c:395-437 | when fewer than four entries are left in the initial buffer, or six in another: refused exactly if the highest placement of a new one is address 0; outside the model exactly if there is none, or one above 0 for a second growth |
| BootAllocHistory.GrowthAtZeroFails | kernel/memory/boot_alloc.c:420-422 | from a sound state a request for one page is answered with out of memory although 252 to 254 pages are free before and after, and two pages are lost |
| BootAllocHistory.ErrorsToldApart | kernel/include/common/error.h:87-114 | if the buffer is ready, the caller takes a reply for an error exactly if every free stretch of the size lies below 4096, or there is none; out of memory is 49 |
| BootAllocInit.RecordsAppend | kernel/memory/boot_alloc.c:439-446 | appending a reported entry keeps the map equal to what was recorded, but for what the allocator took itself |
| BootAllocInit.DroppedWellFormed | kernel/memory/boot_alloc.c:489-528 | an ordered map with entries left out takes the next reported entry at its end |
| BootAllocInit.AppendStep | kernel/memory/boot_alloc.c:439-446 | after any growth the next entry is recorded, or dropped for one more lost block if the growth was refused |
| BootAllocInit.ReportedLookup | kernel/memory/boot_alloc.c:498-514 | what is recorded about an address, by the types of the reported entries that cover it: free memory as free, reclaimable, kernel and loader memory as allocated, other memory not at all |
| BootAllocInit.RecordsReport | kernel/memory/boot_alloc.c:489-528 | the allocator starts with nothing free, and nothing taken for itself, that was not reported free; unless entries were dropped, with everything reported |
| BootAllocInit.RecordsSound | kernel/memory/boot_alloc.c:489-528 | such a map is a sound start for every run |
| BootAllocStart.OnlyFreeMemory | kernel/memory/boot_alloc.c:395-528 | after any legal run from there, whatever is in use was reported free, and everything else is as it was |
| BootAlloc.EncodeKeeps | kernel/memory/boot_alloc.c:25-27 | packing size and kind into one word loses nothing exactly for even sizes; the lowest bit is set for allocated memory |
| BootAlloc.MergedMeaning | kernel/memory/boot_alloc.c:110-117 | merging packed entries in either direction gives the entry that spans both, without overflow |
| BootAlloc.BootAllocator.constructor | kernel/memory/boot_alloc.c:34-39 | the empty initial buffer of 256 entries, for either width of size_t |
| BootAlloc.BootAllocator.MoveEntries | kernel/memory/boot_alloc.c:262-265 | an overlapping move copies the old contents and touches nothing else |
| BootAlloc.BootAllocator.RangeInsert | kernel/memory/boot_alloc.c:41-56 | the entries with one more in the given place |
| BootAlloc.BootAllocator.RangeEmplaceAt | kernel/memory/boot_alloc.c:58-64 | the same with the count kept; its two BUG_ONs are preconditions, proved at every call |
| BootAlloc.BootAllocator.FindRange | kernel/memory/boot_alloc.c:71-102 | in both modes the binary search agrees with scanning the entries one by one |
| BootAlloc.BootAllocator.AllocateOutOf | kernel/memory/boot_alloc.c:132-268 | the in-place code over packed words does on the array what the nine cases do on the list of ranges |
| BootAlloc.BootAllocator.AllocateTopDown | kernel/memory/boot_alloc.c:270-311 | refines the top-down strategy of `TopDownOptimal`, for every even limit and for none |
| BootAlloc.BootAllocator.AllocateWithin | kernel/memory/boot_alloc.c:313-388 | refines the bounded strategy of `WithinOptimal`, its BUG_ONs included |
| BootAlloc.BootAllocator.MaybeGrowBuffer | kernel/memory/boot_alloc.c:395-437 | refines the growth of `FirstGrowth` and the refusal of `RefusedGrowth`; if it succeeds two worst-case operations fit |
| BootAlloc.BootAllocator.BootAlloc | kernel/memory/boot_alloc.c:448-454 | replies and changes the state as the operation of the runs does, out of memory after a refused growth included |
| BootAlloc.BootAllocator.BootAllocAt | kernel/memory/boot_alloc.c:456-464 | the same, for every address and size, wrapped sums included |
| BootAlloc.BootAllocator.BootFree | kernel/memory/boot_alloc.c:466-487 | the same, with the leak after a refused growth |
| BootAlloc.BootAllocator.RangeAppend | kernel/memory/boot_alloc.c:439-446 | one more entry at the end, after growth if needed; nothing but the growth's traces if that is refused |
| BootAlloc.BootAllocator.BootAllocInit | kernel/memory/boot_alloc.c:489-528 | from an ordered memory map the allocator starts sound, denoting exactly the recorded entries but for what it took itself; recorded is what was reported with one entry dropped for each refused growth; free and allocated as the types of memory have it (`RecordsReport`) |
| Tokens.FillKeepsToken | scripts/generate_symbol_tables.py:436-439 | filling an empty slot below all compound ones leaves what every other slot stands for, and the layering that makes expansion end |
| Tokens.ReplaceRemoves | scripts/generate_symbol_tables.py:401-424 | after its round the pair occurs nowhere, overlapping runs included |
| Tokens.ReplaceLeftmost | scripts/generate_symbol_tables.py:411-421 | the leftmost occurrence is replaced first, and the search goes on behind it |
| Tokens.ReplaceShortens | scripts/generate_symbol_tables.py:411-421 | a stream gets strictly shorter exactly if the pair occurs in it |
| Tokens.ReplaceKeepsMeaning | scripts/generate_symbol_tables.py:443-452 | replacing the pair by a slot that stands for it does not change what a stream expands to |
| Tokens.CountAllUpdate | scripts/generate_symbol_tables.py:416-424 | removing and adding one symbol's pairs keeps the global count exact |
| Tokens.CountPositive | scripts/generate_symbol_tables.py:369-374 | the count of a pair is positive exactly when it occurs |
| Tokens.CountsPlaces | scripts/generate_symbol_tables.py:369-374 | the count of a pair is the number of places where it occurs, overlapping ones included |
| TokenTables.TokenTable.UpdateCounts | scripts/generate_symbol_tables.py:369-374 | adds the addend times the true count of every pair of the symbol |
| TokenTables.TokenTable.RecordLiterals | scripts/generate_symbol_tables.py:376-378 | exactly the characters seen become literal slots |
| TokenTables.TokenTable.MostUsed | scripts/generate_symbol_tables.py:388-399 | the first index with the highest count |
| TokenTables.TokenTable.ReplaceTokens | scripts/generate_symbol_tables.py:405-421 | rewriting the tokens in place is the left-to-right replacement, and the counts of the symbol are taken out before its first change |
| TokenTables.TokenTable.CompressSymbol | scripts/generate_symbol_tables.py:404-424 | the symbol gets its replaced tokens, and the counts stay those of all symbols |
| TokenTables.TokenTable.CompressWithCompoundToken | scripts/generate_symbol_tables.py:401-424 | the same for all symbols |
| TokenTables.TokenTable.OptimizeRound | scripts/generate_symbol_tables.py:427-441 | a round stops only when no pair is left; otherwise the pair it gives a slot is the most frequent one, and of equally frequent ones that with the lowest second and then the lowest first token; it is gone afterwards, and the streams are strictly shorter; names keep their meaning and counts stay exact |
| TokenTables.TokenTable.Optimize | scripts/generate_symbol_tables.py:426-441 | ends with every slot taken or no pair left, all names meaning the same, every compound slot referring to literals or higher compound slots |
| TokenTables.TokenTable.constructor | scripts/generate_symbol_tables.py:351-367 | from any names: streams that expand to exactly those names, with exact pair counts |
| SymbolTables.NamePlace | scripts/generate_symbol_tables.py:820-844 | every name lies in the blob at the running offset, prefixed by its length |
| SymbolTables.TokenPlace | scripts/generate_symbol_tables.py:853-859 | every slot's text lies in the token table at its offset, terminated |
| SymbolTables.TokenBytesBound | scripts/generate_symbol_tables.py:861-863 | tokens of at most 127 characters keep the offsets within 16 bits |
| SymbolTables.NamesBound | scripts/generate_symbol_tables.py:821-848 | a bound that keeps the markers within 32 bits |
| SymbolTables.EmitName | scripts/generate_symbol_tables.py:827-840 | length prefix of one byte or two, then the tokens |
| SymbolTables.LengthBytes | scripts/generate_symbol_tables.py:827-838 | lengths in numbers: one byte below 128, else the low seven bits with the high bit set and the rest |
| SymbolTables.EmitNames | scripts/generate_symbol_tables.py:820-848 | all names in order, and the offset of every 256th |
| SymbolTables.EmitMarkers | scripts/generate_symbol_tables.py:846-848 | the markers are refused exactly if one exceeds 32 bits |
| SymbolTables.EmitTokens | scripts/generate_symbol_tables.py:853-863 | the texts of all 256 slots, terminated, with their offsets |
| SymbolTables.EmitAddresses | scripts/generate_symbol_tables.py:865-872 | addresses relative to the first symbol, refused exactly if one exceeds 32 bits |
| SymbolTables.EmitTables | scripts/generate_symbol_tables.py:812-875 | for any sorted symbol list: the generator stops exactly if a count, marker, distance or base exceeds 32 bits, and otherwise the tables describe the symbols; the 16-bit offsets always fit |
| SymbolTables.StopsExactly | scripts/generate_symbol_tables.py:812-875 | the condition under which the generator stops, in numbers |
| SymbolTables.SmallTextFits | scripts/generate_symbol_tables.py:469-477 | it does not stop for up to 2^24 symbols within 4 GiB |
| Symbols.LengthDecodes | kernel/symbols.c:7-18 | the kernel's length decoding inverts the generator's encoding, one byte or two |
| Symbols.NameDecodes | kernel/symbols.c:42-54 | at a name's offset the kernel reads its length and its tokens, and the next offset |
| Symbols.GetCompressedSymbolLength | kernel/symbols.c:7-18 | length and cursor by `LengthDecodes` |
| Symbols.GetCompressedSymbolNameCursor | kernel/symbols.c:42-54 | marker and walk arrive at the offset of the name with that index |
| Symbols.CopyToken | kernel/symbols.c:35-36 | copies a text up to its terminator behind what is there |
| Symbols.UncompressSymbol | kernel/symbols.c:20-40 | writes the expansion of the stream at the cursor, and a NUL |
| Symbols.FindAddress | kernel/symbols.c:71-80 | the last entry at or below the address |
| Symbols.SymbolLookupByAddress | kernel/symbols.c:56-89 | on tables that describe the symbols, for every address: the name with its NUL and the offset of the last symbol at or below the address as 32 bits of distance from the first symbol leave it, and the two errors exactly when they are due |
| Symbols.SeenExact | kernel/symbols.c:69 | that is the address itself exactly from the first symbol on for 4 GiB |
| Symbols.GenerateAndLookUp | scripts/generate_symbol_tables.py:812-875 | end to end: tables generated from any sorted symbol list, loaded at any address, give for every address in the text from the first symbol on for 4 GiB the name of the last symbol at or below it and the right offset, in a buffer of 128 bytes; below the first symbol the wrapped answer exactly; an error exactly outside the text |
| DwarfEncoding.SignExtendMeaning | kernel/unwind.c:140-149 | setting the high bits gives the 64-bit two's complement of the signed reading |
| DwarfEncoding.UlebRoundTrip | kernel/unwind.c:99-113 | every number below 2^31 is decoded from its unsigned LEB128 bytes, whatever follows them |
| DwarfEncoding.SlebRoundTrip | kernel/unwind.c:99-151 | every number from -2^27 up to below 2^31 is decoded from its signed LEB128 bytes, in two's complement |
| DwarfEncoding.FixedRoundTrip | kernel/unwind.c:94-151 | every number within reach of a fixed-width format, signed or not, is decoded from its bytes |
| DwarfEncoding.ShortFormats | kernel/unwind.c:94-151 | two and four bytes in each format, as numbers |
| DwarfEncoding.LongFormats | kernel/unwind.c:94-151 | the same for eight bytes |
| DwarfEncoding.AddressFormat | kernel/unwind.c:94-96 | addresses take as many bytes as a pointer |
| DwarfEncoding.BadFormats | kernel/unwind.c:94-138 | the formats that are refused, and the errors of numbers that are cut off |
| DwarfEncoding.UlebExamples | kernel/unwind.c:99-113 | examples of DWARF 5, section 7.6, unsigned |
| DwarfEncoding.SlebExamples | kernel/unwind.c:99-151 | and signed |
| DwarfCfi.StepPerforms | kernel/unwind.c:555-652 | the interpreter does to the state what the disassembled instruction means, and fails exactly where there is none |
| DwarfCfi.FetchInverts | kernel/unwind.c:523-539 | every instruction over the supported opcodes is read back from its encoding, whatever follows |
| DwarfCfi.DisassembleInverts | kernel/unwind.c:523-539 | so is every program |
| DwarfCfi.AdvanceBytes | kernel/unwind.c:560-623 | the four advances in bytes: the location moves by the operand times the code alignment factor |
| DwarfCfi.RuleBytes | kernel/unwind.c:571-600 | register rules in bytes |
| DwarfCfi.CfaBytes | kernel/unwind.c:625-647 | the CFA in bytes; unknown registers are refused |
| DwarfCfi.OtherBytes | kernel/unwind.c:546-659 | the opcode that does nothing, those that are unknown, and missing operands |
| UnwindTable.FinalLocation | kernel/unwind.c:560-623 | a program ends at its start plus the sum of its advances times the factor |
| UnwindTable.ExecuteFindsRow | kernel/unwind.c:546-659 | for all bytes whose good instructions have ascending locations: interpretation with early exit succeeds exactly if no instruction is bad or those before the first bad one pass the target, and then yields the CFA and rules of the last row at or below the target of the full unwind table |
| UnwindTable.BothFindRow | kernel/unwind.c:715-721 | the same for running the common instructions and then the function's own, the early exit or the bad instruction falling into either |
| EhCursor.EhData.ConsumeByte | kernel/unwind.c:65-74 | one byte, or an error with the cursor untouched |
| EhCursor.EhData.ConsumeRaw | kernel/unwind.c:48-63 | the little-endian number, cursor and bytes left moved together |
| EhCursor.EhData.ConsumeLeb | kernel/unwind.c:99-113 | the bytewise loop computes the LEB128 value; cursor plus bytes left stays the same on every outcome |
| EhCursor.EhData.DecodeFormat | kernel/unwind.c:86-153 | for every format and every input the value or the error that the format means, cursor within bounds |
| EhCursor.EhData.DecodeValue | kernel/unwind.c:155-182 | the same with the scaling: absolute, or relative to cursor, text or header |
| Unwind.UnwindState.RegisterInstruction | kernel/unwind.c:571-600 | the rule of one register, those beyond the known ones skipped |
| Unwind.UnwindState.AdvanceBy | kernel/unwind.c:609-623 | an advance by one, two or four bytes, an error if they are missing |
| Unwind.UnwindState.CfaInstruction | kernel/unwind.c:625-647 | CFA register and offset, an error for an unknown register |
| Unwind.UnwindState.DwarfExec | kernel/unwind.c:546-659 | for every byte string the final state or the error of `Execute`, cursor within bounds |
| Unwind.UnwindState.ApplyRegRules | kernel/unwind.c:661-690 | the new frame holds for each register what its rule says, from the old frame and memory |
| Unwind.UnwindState.NextFrame | kernel/unwind.c:692-734 | a step gives the caller's registers by the state after both programs; on any error the registers stay and the walk is over; it is over too at return address zero |
| Unwind.ExecuteKeepsCfaReg | kernel/unwind.c:625-634 | every run leaves a CFA register that the frame has |
| Unwind.CallerByTable | kernel/unwind.c:692-729 | a step succeeds exactly under the condition of `BothFindRow`, and then the caller's registers are those of the unwind table's row at or below the return address |
| UnwindCalls.UnwindCall | kernel/unwind.c:692-734 | for a function that stands behind a call and any number of its pushes, with the words they left in memory: one step gives all of the caller's registers, the stack pointer being the CFA |
| UnwindCalls.CallRow | kernel/unwind.c:546-690 | the same for the programs and the rules |
| UnwindCalls.FramePointerPushed | kernel/unwind.c:546-690 | the usual prologue in bytes, before and after the push of the frame pointer, with the addresses of the saved words in numbers |
| FdeSearch.FunctionAtExact | kernel/unwind.c:283-317 | the entry looked for is the only one at or below the address with none such above it |
| FdeSearch.EncodedReads | kernel/unwind.c:155-182 | a fixed-width value relative to whatever base its encoding names is read back |
| FdeSearch.FindFde | kernel/unwind.c:283-317 | binary search over encoded entries finds what a search one by one finds, in an empty table the first entry; an error is that of some entry |
| FdeSearch.FindInTable | kernel/unwind.c:283-317 | on a sorted table written in any fixed-width encoding: the description of the last function at or below the address, or the first one for addresses below them all |
| EhEncodings.FourBytesRead | kernel/unwind.c:155-182 | four signed bytes of the distance from nothing, from themselves, from the text and from the header are read back as the address under the encodings 0x0B, 0x1B, 0x2B and 0x3B |
| EhEncodings.AbsoluteFourRead | kernel/unwind.c:155-182 | four unsigned bytes under the encoding 0x03 |
| EhEncodings.OtherScalings | kernel/unwind.c:174-179 | all encodings from 0x40 on are refused |
| EhEncodings.FindInHeader | kernel/unwind.c:283-317 | in a table of pairs of distances from the header, four bytes each, the description of the last function at or below the address |
| Conversions.OverflowTestExact | kernel/common/conversions.c:48-50 | under wrap-around the division test passes exactly when the digit belongs to the base and the number fits |
| Conversions.DoStrToU64Unchecked | kernel/common/conversions.c:30-56 | for every base and text: the value of the whole text if all characters are digits of the base and it fits in 64 bits, else the error of the first offence |
| Conversions.ConsumeBase | kernel/common/conversions.c:4-28 | the base announced, and the rest |
| Conversions.DoStrToU64 | kernel/common/conversions.c:58-65 | refines the reading of `FixedBaseExact` and `FixedBasePlain` for every text and base, base zero included |
| Conversions.FixedBasePlain | kernel/common/conversions.c:58-65 | with a fixed base, a text that starts with neither `0x` nor `0b` is read as it stands, leading zeros included |
| Conversions.FixedBaseExact | kernel/common/conversions.c:4-65 | with a fixed base, what is read differs from what the text denotes, other than in the error code, exactly if it starts with `0x` or `0b` and an acceptable number follows |
| Conversions.FixedBaseLosesDigits | kernel/common/conversions.c:14-17 | `0b1` in base 16 is read as 1, not as 177 |
| NumberReadings.DigitTable | kernel/common/conversions.c:36-46 | the digits and their values, in either case |
| NumberReadings.AnnouncedReadings | kernel/common/conversions.c:4-65 | 0x, 0b, a leading zero and a digit announce the bases 16, 2, 8 and 10; anything else is refused |
| NumberReadings.ReadingExamples | kernel/common/conversions.c:4-65 | a number of two digits in each base |
| NumberReadings.SignReadings | kernel/common/conversions.c:67-105 | a plus sign changes nothing, a minus sign negates down to -2^63 and is refused for unsigned numbers |
| Conversions.NegationTestExact | kernel/common/conversions.c:78-80 | the test on the negated word accepts exactly magnitudes up to 2^63, and negates them |
| Conversions.StrToI64WithBase | kernel/common/conversions.c:67-94 | signed parsing over all texts, the result within the type |
| Conversions.StrToU64WithBase | kernel/common/conversions.c:96-105 | unsigned parsing over all texts, the result within the type |
| Conversions.NarrowExact | kernel/common/conversions.c:116-117 | a value survives narrowing exactly when it is one of the narrow type |
| Conversions.StrToIntWithBase | kernel/common/conversions.c:107-185 | the 8, 16 and 32-bit signed variants accept exactly the values of their type |
| Conversions.StrToUIntWithBase | kernel/common/conversions.c:123-201 | the 8, 16 and 32-bit unsigned variants accept exactly the values of their type |
| IntegerText.DigitsValue | kernel/common/format.c:104-118 | the printed digits are digits of the base and their value is the number |
| IntegerText.BodyParses | kernel/common/format.c:104-134 | a printed magnitude in decimal, octal or hexadecimal parses back with the base detected |
| IntegerText.UppercaseNeverParses | kernel/common/format.c:125-134 | an upper-case announced number is refused by the parser, whatever its value |
| IntegerText.UnsignedRoundTrip | kernel/common/format.c:81-143 | every u64 printed in decimal, `%#x` or `%#o`, with or without plus sign, parses back |
| IntegerText.SignedRoundTrip | kernel/common/format.c:81-143 | every i64, the most negative one included, parses back |
| Format.FormatBuffer.WriteOne | kernel/common/format.c:30-36 | the text grows by the character and the counter in its word; until it wraps the buffer holds as much of the text as fits; nothing past the capacity is touched |
| Format.FormatBuffer.WriteMany | kernel/common/format.c:38-54 | the same for a string, cut where the buffer ends |
| Format.FormatBuffer.WritePadding | kernel/common/format.c:64-77 | the same for padding |
| Format.FormatBuffer.FillDigits | kernel/common/format.c:104-118 | the digits fill the local buffer from its end, with at least ten places to spare |
| Format.FormatBuffer.WriteInteger | kernel/common/format.c:81-143 | sign, padding, prefix and digits of the number |
| Format.ConsumeFlags | kernel/common/format.c:264-283 | all flags in any order, and the rest |
| Format.ParseNumber | kernel/common/format.c:145-175 | width or precision, from the format or from the arguments |
| Format.WriteConversion | kernel/common/format.c:309-424 | one conversion writes the text it stands for, or fails as it must |
| Format.WriteAll | kernel/common/format.c:240-424 | the loop writes the text that the format denotes, or stops at the first conversion that is refused |
| Format.Vsnprintf | kernel/common/format.c:223-434 | for every format, argument list and capacity: an error, or the low 32 bits of the full length as an int, which is the length exactly below 2^31; the first min(length, capacity - 1) characters and a NUL unless the counter of 32 or 64 bits wrapped, and the NUL where the wrapped counter stands; nothing at or past the capacity is touched |
| Format.LengthReturned | kernel/common/format.c:433 | the counter cut down to an int is the length cut down to an int, whichever width the counter has |
| FormatLength.WithinBudget | kernel/common/format.c:240-424 | no text is longer than thirteen characters for each of the format, the widths and the string arguments together |
| FormatLength.BudgetSuffices | kernel/common/format.c:223-434 | a caller who keeps that sum below 2^31 is told the length and gets the text as far as it fits |
| FormatLength.WidthRendered | kernel/common/format.c:285-293 | a width in a format is read as the number its digits denote, and the number is put into a field of that width |
| FormatLength.LengthComesBackNegative | kernel/common/format.c:426-433 | for `%2147483648d` the result is negative, which means an error |
| FormatLength.LengthLooksLikeError | kernel/common/format.c:426-433 | for `%4294967268d` it is the very code of a malformed format |
| FormatLength.CounterWraps | kernel/common/format.c:30-36 | with a 32-bit counter `%4294967301d` returns five and puts the NUL into the text |
| FormatLength.StringFieldEnds | kernel/common/format.c:317-329 | the padding of a string ends exactly if the width fits the counter of the loop |
| FormatRoundTrip.SignedParameter | kernel/common/format.c:382-410 | `%d` and `%lld` print what the signed parser reads back |
| FormatRoundTrip.UnsignedParameter | kernel/common/format.c:382-412 | `%u` and `%llu` print what the unsigned parser reads back |
| FormatLetters.IntegerRendered | kernel/common/format.c:240-424 | any flags, width, precision, length modifier and letter: sign, padding on the side and with the character that the flags say, announcement and digits of the low bits of the argument |
| FormatLetters.LettersDenote | kernel/common/format.c:204-216 | `x`, `X`, `o` and `u` print digits of base 16, 8 and 10 in the letter's case, without leading zeros, that denote the low bits of the argument |
| FormatLetters.AnnouncedLetters | kernel/common/format.c:125-134 | `%#x` and `%#o` print `0x` and `0` first, and the text is read back with the base detected |
| FormatLetters.SignedLetters | kernel/common/format.c:342-412 | `d` and `i` print the signed reading of the low bits, whatever their number |
| FormatLetters.TwoDigits | kernel/common/format.c:104-118 | of two digits the higher one comes first |
| FormatFields.StringRendered | kernel/common/format.c:317-329 | strings: as many characters as the precision allows, blanks behind them, a text for null pointers |
| FormatFields.SizedRendered | kernel/common/format.c:331-350 | sized strings: as many characters as the precision allows |
| FormatFields.CharRendered | kernel/common/format.c:309-314 | the low byte as a character |
| FormatFields.PointerRendered | kernel/common/format.c:352-356 | pointers: 8 or 16 hexadecimal digits, zeros in front |
| FormatFields.StarRendered | kernel/common/format.c:285-286 | a width from the arguments |
| FormatFields.StarPrecision | kernel/common/format.c:295-300 | a precision from the arguments |
| FormatFields.PlainTextRendered | kernel/common/format.c:240-255 | plain text stands for itself |
| FormatFields.PercentRendered | kernel/common/format.c:257-260 | two percent signs for one |
| FormatFields.UnknownRefused | kernel/common/format.c:402-412 | unknown letters and a missing one are refused with the code of EINVAL |
| FormatFields.PointRefused | kernel/common/format.c:293-305 | so is a precision without a number |
| FormatFields.WideRefused | kernel/common/format.c:145-175 | a width beyond 64 bits is refused with the code of ERANGE |
| CommandLine.ScanItem | kernel/param.c:144-187 | one item of a line yields its key and value; after a quoted value the closing quote stays |
| CommandLine.SplitInvertsJoin | kernel/param.c:132-213 | every line joined from good items, blanks and an optional tail splits into exactly those items in order and the tail without leading blanks |
| CommandLine.LineSplits | kernel/param.c:132-213 | a line with a value, a quoted value, a switch and a tail, in characters |
| CommandLine.Separators | kernel/param.c:144-187 | exactly six characters separate items |
| Params.NamesEqual | kernel/param.c:94-102 | names are compared with dashes and underscores alike |
| Params.SameNameExact | kernel/param.c:94-102 | two names are the same exactly if they are equal but for dashes and underscores |
| Params.FindParam | kernel/param.c:104-119 | the first parameter of the name, none exactly if there is none |
| Params.StrToBool | kernel/common/conversions.c:203-231 | the eight spellings in either case, nothing else |
| Params.BoolSpellings | kernel/common/conversions.c:203-231 | the spellings of true and of false, one by one |
| Params.SetParam | kernel/param.c:10-74 | the value that a text sets, by type |
| Params.Dispatch | kernel/param.c:192-208 | only the first parameter of the name changes, and only if it takes the value |
| Params.EmptyValue | kernel/param.c:192-208 | a key alone sets a switch and changes no other parameter |
| Params.DashSets | kernel/param.c:94-102 | `foo-bar=1` sets `foo_bar` |
| Params.NextToken | kernel/param.c:144-187 | the inner loop yields the token at the start of the line |
| Params.CmdlineParse | kernel/param.c:132-213 | on every line, terminating: parameters as if the pairs were applied in order, the unknown ones reported in order, and the rest of the line |
| ParamRestore.GetThenSet | kernel/param.c:16-86 | what a getter prints, the setter of the same type reads back |
| ParamRestore.SwitchText | kernel/param.c:51-51 | a switch is printed as 1 or 0 |
| ParamRestore.LineRestoresParams | kernel/param.c:132-213 | a line with every parameter as name=value sets each to that value, whatever they held |
| LongDivision.DivisionStep | kernel/arch/x86/builtins.c:21-28 | shifting the remainder loses no bit, because it never exceeds the bits consumed so far |
| LongDivision.Do64BitDivision | kernel/arch/x86/builtins.c:16-34 | the bit-serial loop divides with remainder |
| LongDivision.UDivModDi4 | kernel/arch/x86/builtins.c:43-83 | quotient and remainder on every path; a panic exactly for a non-zero number divided by zero; zero by zero is one |
| LongDivision.UModDi3 | kernel/arch/x86/builtins.c:85-91 | the remainder, zero for zero by zero, a panic for other zero divisors |
| LongDivision.UDivDi3 | kernel/arch/x86/builtins.c:93-96 | the quotient, one for zero by zero, a panic for other zero divisors |

## Left out

- BootAllocRuns.RunSound: a run that reaches the second growth of the buffer, or a growth for which there is no memory, ends there as outside the model (`GrowthExactly` says exactly when that is); the source copies the entries before it frees the old buffer (`kernel/memory/boot_alloc.c:424-432`), and it tests a failed growth for zero although failure is reported otherwise (lines 420-422).
- BootAlloc.BootAllocator.MaybeGrowBuffer: the new buffer is a fresh array; where its pages are mapped, and that nobody else writes there, is not part of this model.
- BootAlloc.BootAllocator.BootFree: asks for a size that is neither zero nor past the end of the address space, which the source does not check.
- BootAlloc.BootAllocator.AllocateTopDown: asks for an even limit or none, for the same reason as the next two.
- BootAlloc.BootAllocator.AllocateWithin: asks for an even lower limit, for the same reason as the next one.
- BootAlloc.BootAllocator.BootAllocAt: asks for an even address, since an odd one would spill into the kind bit of the entry below; all callers pass page addresses.
- BootAlloc.BootAllocator.BootAllocInit: asks for a memory map in ascending order without overlaps, and with even sizes, as the boot protocol has it; neighbours of one kind are not merged, so optimality is proved for maps without such neighbours.
- Symbols.GetCompressedSymbolNameCursor: reads the length first and then skips as many bytes, which is what the single expression at `kernel/symbols.c:51` is meant to do; the order in which C evaluates it is not modelled.
- EhCursor.EhData.ConsumeLeb: a LEB128 number one of whose groups does not fit an `int` where it is shifted to (`kernel/unwind.c:108`; that takes five bytes or more) ends as outside the model, because C leaves the shift undefined.
- EhCursor.EhData.DecodeFormat: the same exception for LEB128 numbers.
- EhCursor.EhData.DecodeValue: the same exception for LEB128 numbers.
- Unwind.UnwindState.DwarfExec: the same exception for LEB128 operands; such a run has an outcome of its own.
- UnwindTable.BothFindRow: an instruction whose LEB128 operand is outside the model counts as a bad one.
- Unwind.CallerByTable: an instruction whose LEB128 operand is outside the model counts as a bad one.
- FdeSearch.FindFde: asks for a table that lies in memory with all entries it counts, and the first one in any case.
- Unwind.UnwindState.NextFrame: starts with the two programs and the state that parsing the descriptions yields; `parse_cie`, `parse_fde`, `unwind_init`, the signal-frame flag and the walk over frames are not part of this model, nor is the termination of that walk; memory is a function from addresses to 64-bit words, and the registers are those of x86-64.
- UnwindTable.ExecuteFindsRow: an instruction whose LEB128 operand is outside the model counts as a bad one; `DW_CFA_restore` means "same value" and rows are compared with the return address itself, as the code has it, not as section 6.4 of DWARF 5 does.
- Format.Vsnprintf: the padding loops that do not end, that of `%pS` with a precision beyond the string's length and that of `%s` on 32-bit machines, are an outcome of its own; what the buffer holds after the counter has wrapped is not stated, but for the NUL; arguments are a list of typed values in place of a C argument list.
- Format.FormatBuffer.WriteInteger: bases other than 8, 10 and 16, which print question marks, are unreachable from a format and not covered.
- Params.CmdlineParse: the callback for unknown parameters is a list of what it is called with; error messages are not part of this model.
- ParamRestore.GetThenSet: getters are given enough room; how they cut off the text is part of `Format.Vsnprintf` for numbers only.
- SymbolTables.EmitTables: asks for names of 1 to 127 characters without NUL and with codes below 256, in the order of their addresses and within the text section, which is what reading, filtering and sorting leave.
- The Linux mode of the generator, running `nm`, sorting, writing files and the name-sorted index table.
- Console, log, page tables, interrupt tables, port and memory I/O, assembly, the build scripts and the tests.
