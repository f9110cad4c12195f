# Verification of the memory managers, the kernel loader and the console input

A Dafny 4.11 model of the hard core of a small x86-64 operating system, with proofs of what
its parts promise each other. `dafny verify dfyconfig.toml` checks everything.

## What is modelled

**Physical pages and page tables** (`kernel/pmm.c`, `kernel/paging.c`). The allocator is a
class over two bitmaps of 64-bit words, counters and a roving cursor. The page-table manager
is a class over the flat registry of its frames, the root, physical memory as frames of 512
words, and the processor's TLB and paging-structure caches (sections 4.5 and 4.10 of the
Intel SDM, Volume 3A), which may cache any walk result between any two statements. Its
invariant ties three things together: the radix tree that lies in memory word for word, the
registry, and the allocator's set. On top of it,

- every operation has an exact success condition, and an exact effect on the set of mapped
  pages, on the frames in use and on memory that clients hold; a failed `paging_map` leaves
  every live entry, the registry element for element, and the allocator as they were;
- no cached translation is stale when an operation returns, and no cached entry refers to a
  table frame when it is released;
- over every run of every client that keeps the contract of `kernel/paging.h`, calls, loads
  and stores in any order, the client gets only replies and words that a plain partial map
  with a set of owned frames and their contents could give (`ClientRuns.Run`), and the
  identity half never changes;
- `initialize_memory` reaches that state from the loader's hand-off exactly when the stated
  conditions hold; if the loader's memory is ordinary RAM they say where the kernel and the
  hand-off allocation may lie. `MemoryStart.StartFromLoader` says it of the very block that
  the loader writes;
- the boot-time self-tests are proved as client programs, including the one that threads a
  list through the pages it holds and forces a rollback; so are the fixtures that provoke
  page faults, after revoking a right that has been used, or by touching the kernel's code,
  constants, data, stack and guards.

**The ELF64 loader** (`boot/load.c`; System V gABI, chapters "ELF Header" and "Program
Header"). Headers are parsed from bytes. Acceptance is characterised on the segments,
without the loader's loops: disjoint, in bounds of file and memory, no 64-bit sum wraps, span
of at most 64 MiB. After placement each byte of the range is the one file byte that claims
it, or 0; nothing outside is written; the order of the program headers makes no difference.
Headers and whole files written in the format's field order are read back field by field.

**Console input** (`kernel/rx_buffer.c`, `kernel/serial.c`, `kernel/console.c`). The ring
buffer, the interrupt handler, the line editor and the input loop are classes and methods in
the source's form. Interrupts may come between any two statements while the interrupt flag is
set, and the device's registers hold arbitrary bytes. The buffer keeps a history that divides
all arrivals into bytes read and stretches reported as lost; the editor is proved against
definitions on whole input sequences (where lines begin and end, which are executed, and what
their text is). Every executed line is the edited text of a whole line of the arrival stream,
from one line end to the next, with no byte lost in it; lines are executed in the order of
their arrival; and each line whose end is read is executed if all of it was read and it was
never too long, and discarded otherwise. A step machine shows mutual exclusion and that no wake-up is lost, and that the
delay of STI is what makes it so.

## Conventions

Where the code and its specification share a predicate, a lemma named `...Meaning` says what
it amounts to in literal values, single bytes or processor walks, without that predicate.

Addresses are 64-bit numbers (`u64`, with `Wrap` where the source's sums could wrap); pages
and frames are page numbers. A page-table word is a record of its fields; where the code
computes with entries and indices, `Entries` does so on the 64-bit numbers, with the source's
masks, shifts and flag constants, and says which field results. Table frames and positions
in the tree are ghost data that no result depends on. Where the source returns early on a
check that cannot fail, the client programs here make the check a conjunct of the result and
prove it.

The hand-off contract (`IdentityMap.HandOff`) states what `boot/main.c:30-53`,
`boot/load.c:110-117` and `kernel/linker.ld:15-32` provide: one allocation of 35 pages of
loader data with boot information, memory map, guard, stack and guard at fixed offsets; the
kernel in loader code; its sections and the guarded double-fault stack in the order of the
linker script. That no guard page holds anything the kernel is handed is proved from this.

## Files

| file | contents |
|---|---|
| `bits.dfy` | bitwise operators on numbers, bitmaps as sets, page-table words |
| `boot_info.dfy` | boot information, memory map, which pages are usable |
| `boot_contract.dfy` | the same on single bytes and literal values; the loader's block |
| `pmm.dfy` | the physical page allocator |
| `radix_tree.dfy` | page tables as trees and as memory, walks, single writes |
| `entries.dfy` | the page-table code's expressions on entries and addresses |
| `registry.dfy` | the list of table frames |
| `translation_cache.dfy` | TLB and paging-structure caches |
| `accounting.dfy` | which tables a set of pages needs, and how many |
| `map_path.dfy`, `pruning.dfy` | the path `paging_map` builds, the climb of `paging_unmap` |
| `paging.dfy` | the page-table manager |
| `identity.dfy`, `paging_init.dfy` | the identity map and `paging_init` |
| `clients.dfy` | allocation, loads and stores as clients see them |
| `plain_paging.dfy` | the plain machine that each operation refines |
| `client_runs.dfy` | refinement over every run of calls, loads and stores |
| `self_tests.dfy`, `paging_check.dfy`, `alias_check.dfy` | the boot-time checks |
| `fault_check.dfy`, `kernel_faults.dfy` | the page-fault fixtures |
| `memory_start.dfy` | `initialize_memory` |
| `elf_image.dfy`, `elf_loader.dfy` | ELF files, their acceptance and placement |
| `elf_format.dfy` | the format from the writer's side, and acceptance on its fields |
| `bytes.dfy`, `rx_buffer.dfy`, `serial.dfy` | bytes, ring buffer, serial receive side |
| `line_editing.dfy`, `console.dfy` | meaning of console input; editor, commands and loop |
| `input_machine.dfy` | console and interrupt as interleaved steps |

## Model

| member | source | states |
|---|---|---|
| Bits.TestBit | kernel/pmm.c:10-13 | masking with a shifted 1 reads exactly that binary digit |
| Bits.PagesSet | kernel/pmm.c:14-17 | OR-ing one bit into a bitmap word adds exactly that page to the bitmap's set |
| Bits.PagesClear | kernel/pmm.c:18-21 | AND-NOT of one bit removes exactly that page |
| Bits.SetInWord | kernel/pmm.c:14-17 | a bitmap word with one more bit set is still a 64-bit word |
| Bits.DecodeEncode | kernel/paging.c:5-8 | every page-table word is its fields: decoding an encoded word gives it back |
| Bits.EncodeDecode | kernel/paging.c:5-8 | and encoding a decoded 64-bit number gives the number back |
| Bits.LinkBits | kernel/paging.c:221 | the word stored for a new table decodes as a present, writable link to it |
| Bits.LeafBits | kernel/paging.c:179-182 | address OR leaf flags decodes to the frame and exactly the requested rights |
| Bits.IdentityBits | kernel/paging.c:37-42 | the three identity leaf encodings decode to RX, R and RW with no-execute |
| Bits.AddressBits | kernel/paging.c:35 | masking with the address mask gives the frame's address, whatever the other bits |
| Bits.ProtectBits | kernel/paging.c:256 | replacing the flags under the mask keeps the frame and sets exactly the new rights |
| Bits.TestedBits | kernel/paging.c:266-268 | the bit tests on an entry read present, writable and no-execute |
| Bits.KeepLow | kernel/paging.c:210 | masking with ones keeps exactly the lowest digits |
| Bits.ClearLow | kernel/paging.c:199 | masking with their complement clears exactly those |
| Bits.ShrValue | kernel/paging.c:207 | shifting right divides by a power of two |
| Bits.BitMeaning | kernel/pmm.c:10-13 | binary digit `k` is the parity after dividing by a power of two |
| Bits.EncodedBits | kernel/paging.c:5-8 | which digits of a page-table word are its present, writable, frame and no-execute fields |
| Entries.Present | kernel/paging.c:208 | the test of bit 0 is the present field |
| Entries.FrameOf | kernel/paging.c:223 | the masked entry, as a frame number, is the frame field |
| Entries.ReportedRights | kernel/paging.c:268 | the flag tests report exactly the rights of the entry |
| Entries.LinkTo | kernel/paging.c:221 | the stored number is a present, writable link to the child |
| Entries.LeafFor | kernel/paging.c:227 | the stored number is a leaf with the frame and exactly the requested rights |
| Entries.LeafProtected | kernel/paging.c:256 | the new number keeps the frame and has exactly the new rights |
| Entries.IndexOf | kernel/paging.c:207 | shift and mask give the index of the address's page, whatever the sign extension |
| Entries.QueriedBits | kernel/paging.c:227-268 | the number stored for a frame and flags gives both back to a query |
| BootInformation.EndDoesNotWrap | kernel/pmm.c:54-58 | for an accepted descriptor neither the product nor the sum wraps |
| BootInformation.OneOwner | kernel/pmm.c:60-77 | in an accepted map a page belongs to at most one descriptor |
| BootInformation.UsableIsRam | kernel/pmm.c:79-99 | what the allocator may hand out is always mapped RAM |
| BootContract.BootInfoMeaning | kernel/pmm.c:39-52 | accepted exactly with magic, version 2, size 88, flag 1, an aligned map of at most 64 KiB that its stride of at least 40 divides, and ranges inside 64 bits |
| BootContract.CountMeaning | kernel/pmm.c:62 | the descriptors of an accepted map fill it without a rest |
| BootContract.MapMeaning | kernel/pmm.c:54-77 | a map is accepted exactly if its ranges are aligned, non-empty and inside 64 bits, and no byte is described twice |
| BootContract.UsableMeaning | kernel/pmm.c:79-99 | a page may be handed out exactly if conventional non-runtime memory covers it between 1 MiB and 4 GiB and it holds no byte of kernel, boot information, map or stack |
| BootContract.RamMeaning | kernel/paging.c:82-86 | RAM to be mapped is loader code, loader data and conventional memory, not at run time, between 1 MiB and 4 GiB; nothing else |
| BootContract.WriteBackMeaning | kernel/paging.c:87-89 | write-back memory is wanted exactly where something is mapped |
| BootContract.LoaderBlockIsValid | boot/main.c:43-51 | the block that the loader fills in is accepted exactly if the firmware's map size, stride and version are in order |
| BootContract.LoaderBlockLayout | boot/main.c:30-51 | and it has the layout the kernel relies on exactly if the map says what was allocated |
| PhysicalPages.TestPage | kernel/pmm.c:10-13 | true exactly for members of the bitmap's set |
| PhysicalPages.SetPage | kernel/pmm.c:14-17 | adds exactly one page |
| PhysicalPages.ClearPage | kernel/pmm.c:18-21 | removes exactly one page |
| PhysicalPages.ValidMapRanges | kernel/pmm.c:60-77 | true exactly if all descriptors are valid and pairwise disjoint, sums computed modulo 2^64 |
| PhysicalPages.TouchedPages | kernel/pmm.c:26-33 | rounding a byte range outward gives exactly the pages it touches |
| PhysicalPages.PageAllocator.MarkUsablePages | kernel/pmm.c:79-91 | the eligible set becomes the pages of non-runtime conventional descriptors in 1 MiB to 4 GiB |
| PhysicalPages.PageAllocator.Reserve | kernel/pmm.c:26-33 | withdraws exactly the pages that the range touches |
| PhysicalPages.PageAllocator.Init | kernel/pmm.c:101-112 | succeeds exactly once, for valid boot information and a well-formed map, never with another magic, version, size, flag or a stride that leaves a rest; computes the usable set; a refusal changes no state |
| PhysicalPages.PageAllocator.Alloc | kernel/pmm.c:114-127 | despite the roving cursor always the lowest free page; fails exactly when none is free |
| PhysicalPages.PageAllocator.Free | kernel/pmm.c:129-138 | accepts exactly aligned addresses of pages handed out; keeps the cursor below every free page |
| PhysicalPages.PageAllocator.IsAllocated | kernel/pmm.c:142-146 | true exactly for aligned addresses of pages handed out |
| RadixTree.SetLeaf | kernel/paging.c:225-227 | writing a leaf changes the stored tree at that page and nowhere else |
| RadixTree.ClearLeaf | kernel/paging.c:237 | zeroing a leaf removes that page and nothing else |
| RadixTree.LinkTable | kernel/paging.c:208-221 | linking a zeroed frame adds one empty table and changes no translation |
| RadixTree.UnlinkTable | kernel/paging.c:242 | zeroing the link of an empty table removes that table and no translation |
| RadixTree.WalkFollowsTree | kernel/paging.c:185-195 | a hardware walk through memory finds exactly what the tree says |
| RadixTree.WalkOnEntries | kernel/paging.c:186-195 | the walk reads the entries at address bits 47:39, 38:30, 29:21 and 20:12; all must be present, all writable for writes, none no-execute for fetches |
| TableRegistry.SwapRemoveDrops | kernel/paging.c:169-177 | overwriting an entry with the last one removes exactly that frame from the registry |
| TableRegistry.RegisteredSize | kernel/paging.c:9-10 | the registry is as long as there are tables: each table once, in a frame of its own |
| TranslationCache.FillAgrees | kernel/paging.c:227-228 | whatever the processor caches between a write and its invalidation belongs to the old or new tree |
| TranslationCache.InvalidationRestores | kernel/paging.c:227-228 | one INVLPG leaves no stale entry of either kind |
| TranslationCache.CoherentAfterGrowth | kernel/paging.c:221 | linking new tables needs no invalidation |
| TranslationCache.UnlinkedTableNotCached | kernel/paging.c:242-244 | after unlinking and INVLPG no cached entry leads to the table that is released |
| TranslationCache.WalkIsCached | kernel/paging.c:227-228 | the processor may cache every step of the walk to a mapped page |
| TranslationCache.StaleWithoutInvalidation | kernel/paging.c:236-243 | without INVLPG a cached page or table outlives its removal |
| Accounting.TableCount | kernel/paging.c:206-224 | number of tables: identity tables, plus one if anything is mapped, plus one per gigabyte and per 2 MiB in use |
| Accounting.MissingIsGrowth | kernel/paging.c:206-224 | the levels missing on a path are the growth in tables that mapping the page costs |
| Accounting.NoGaps | kernel/paging.c:226 | below a missing table everything is missing, so an existing leaf implies no new tables |
| MapPath.LastCreated | kernel/paging.c:211-216 | the newest table on an unfinished path is empty and hangs where the recorded link says |
| MapPath.StepBack | kernel/paging.c:211-216 | taking it off leaves the path one step shorter |
| MapPath.BackToStart | kernel/paging.c:211-217 | with all new tables taken off, the tree is the one at entry |
| Pruning.StopClimb | kernel/paging.c:239-241 | a table with a non-zero entry, and everything above it, is still needed |
| Pruning.BlankIsUnused | kernel/paging.c:240-244 | a table of zeros is needed by no mapped page |
| Pruning.ClimbDone | kernel/paging.c:239-246 | after the climb no empty window table is left |
| IdentityMap.IdentityBudget | kernel/paging.c:7 | the identity map never needs more than 2054 of the 4096 tables |
| IdentityMap.GuardsRemovable | kernel/paging.c:107-123 | aligned guards can all be removed exactly if they are distinct mapped pages |
| IdentityMap.UnguardedPages | kernel/paging.c:107-123 | removing them leaves the mapped pages minus the guards |
| IdentityMap.IdentityLeaf | kernel/paging.c:37-42 | address or-ed with the section's flags is the leaf with that section's rights |
| IdentityMap.IdentityLeafRights | kernel/paging.c:37-42 | code is read and executed, constants are read, all other RAM is read and written |
| IdentityMap.StackGuards | boot/main.c:36-49 | in the loader's layout the stack's guards are the 18th and the last of its 35 pages |
| IdentityMap.GuardsAreApart | kernel/paging.c:109-113 | no guard page holds stack, boot information or memory map |
| IdentityMap.UsablePagesArePlain | kernel/pmm.c:79-99 | no page the allocator hands out is a guard or in a kernel section |
| IdentityMap.GuardsDistinct | kernel/paging.c:107-123 | in the hand-off layout the four guards are aligned and lie in four different pages |
| IdentityMap.GuardAddresses | kernel/paging.c:112-113 | the guard pages are the four named addresses and no others |
| IdentityMap.GuardsFit | kernel/paging.c:107-123 | so they can be removed one after the other exactly if all are mapped RAM |
| IdentityMap.ReachSuffices | kernel/paging.c:96-123 | for loader memory that is ordinary RAM: all regions mapped and all guards removable exactly if the kernel and the hand-off allocation lie between 1 MiB and 4 GiB, the upper guard included |
| IdentityMap.RegionsSurvive | kernel/paging.c:96-123 | stack, boot information and memory map stay mapped when the guards go |
| Paging.PageTables.Speculate | kernel/paging.c:227-228 | any number of cache fills at any moment keeps every entry that of the old or new tree |
| Paging.PageTables.Invalidate | kernel/paging.c:228 | invalidating the page, with fills before and after, leaves the caches coherent |
| Paging.PageTables.NewTable | kernel/paging.c:15-23 | fails exactly without budget or memory, changing nothing; else a zeroed frame at the end of the registry |
| Paging.PageTables.ReleaseTable | kernel/paging.c:169-177 | needs that no cached walk leads to the frame; swap-removes it and frees it |
| Paging.PageTables.Rollback | kernel/paging.c:211-216 | restores tree, registry and allocated set of the state at entry, writing only live and pending tables |
| Paging.PageTables.BuildPath | kernel/paging.c:203-224 | reaches the page table, or stops at a missing level with no frame or budget left |
| Paging.PageTables.AcceptsArguments | kernel/paging.c:199-202 | true exactly for a window address, known flags, and an allocated frame that is no table |
| Paging.PageTables.DynamicAddressMeaning | kernel/paging.c:161-167 | the window is all of PML4 slot 256 and nothing else, page by page, only while paging is active and interrupts are off |
| Paging.PageTables.MappedMeaning | kernel/paging.c:185-195 | a page has a leaf exactly if the walk finds it |
| Paging.PageTables.MissingMeaning | kernel/paging.c:206-224 | the tables a page lacks are the steps at which the walk ends |
| Paging.PageTables.MapMeaning | kernel/paging.c:197-230 | the success condition of `paging_map` on address bits, flags, allocator, registry and walk alone |
| Paging.PageTables.Map | kernel/paging.c:197-230 | exact success condition; adds exactly one translation; a failure changes nothing; tables stay where they are; client memory untouched |
| Paging.PageTables.Path | kernel/paging.c:185-195 | finds the four tables exactly for mapped pages |
| Paging.PageTables.Unmap | kernel/paging.c:232-247 | succeeds exactly for mapped window pages; removes that translation only and every table it leaves empty |
| Paging.PageTables.Protect | kernel/paging.c:249-259 | changes exactly the rights of one mapped page |
| Paging.PageTables.Query | kernel/paging.c:261-270 | returns exactly frame and rights of a mapped page |
| Paging.ReleasedBooked | kernel/paging.c:169-177 | releasing keeps root at index 0 and tree, registry and allocator in agreement |
| Paging.AddedConsistent | kernel/paging.c:203-229 | a finished map keeps the whole invariant |
| PagingInit.MapIdentityPage | kernel/paging.c:25-44 | maps one RAM page to itself, or fails exactly for want of memory |
| PagingInit.MapBootRam | kernel/paging.c:77-94 | maps exactly the RAM pages; fails exactly on non-write-back RAM or want of memory |
| PagingInit.MappedRange | kernel/paging.c:46-63 | true exactly for a non-empty range between 1 MiB and 4 GiB of which every page is mapped |
| PagingInit.RequiredRegionsMapped | kernel/paging.c:96-105 | true exactly if kernel, stack, boot information and map are mapped; the table frames always are |
| PagingInit.UnmapStackGuards | kernel/paging.c:107-123 | succeeds exactly if the guards can be removed one after the other, and removes them |
| PagingInit.Discard | kernel/paging.c:138-142 | gives back every table frame |
| PagingInit.Init | kernel/paging.c:144-159 | exact success condition; a failure returns every frame and leaves the manager inactive; only frames that were free at entry are written |
| PagingInit.CanStartExactly | kernel/paging.c:144-159 | the success condition without the order of removal: write-back RAM, enough frames, regions and guards mapped |
| PagingInit.StartedIsValid | kernel/paging.c:144-159 | with the hand-off contract the started state satisfies the invariant of the dynamic operations, every allocatable frame mapped to itself writable and not executable |
| PagingInit.StartedTranslations | kernel/paging.c:37-42 | a walk finds exactly the RAM pages but the guards, each mapped to itself: code executable, constants read-only, the rest writable |
| PagingInit.StartedPages | kernel/paging.c:77-123 | mapped are exactly the pages that loader or conventional memory covers between 1 MiB and 4 GiB, without the four guard addresses |
| PagingInit.StartedKeepsRegions | kernel/paging.c:96-123 | stack, boot information, map and all table frames are still mapped, the guards are not |
| Clients.ExactAccounting | kernel/paging.c:206-246 | every managed page is free, a client's or a registered table; exact table count |
| Clients.AllocPage | kernel/pmm.c:114-127 | allocating keeps the paging invariant and takes no table |
| Clients.FreePage | kernel/paging.h:14-19 | under the client contract freeing keeps the paging invariant |
| Clients.TablesReachable | kernel/paging.c:20-21 | in every valid state each table frame is mapped to itself, writable, so tables can always be zeroed, walked and linked |
| Clients.Translate | kernel/paging.c:211-244 | from any cached entry or a walk, the processor finds exactly the mapped translation |
| Clients.Load | kernel/paging_check.c:47-50 | a load returns the word of the mapped frame, and faults exactly on unmapped pages |
| Clients.Fetch | kernel/paging_check.c:122-125 | an instruction fetch faults exactly without execute rights |
| Clients.Store | kernel/paging_check.c:58-63 | a store changes one word of the mapped frame, and faults exactly without write rights |
| Clients.MapThenUnmap | kernel/paging.c:197-247 | unmapping undoes mapping: same tree, same tables in the same frames, same allocated set |
| SelfTests.MiddleComesBack | kernel/pmm_check.c:20-21 | the page freed between two others is the lowest free page again |
| SelfTests.PmmBootCheck | kernel/pmm_check.c:4-25 | on memory that keeps its contents true exactly with three free pages; leaves the allocator as it was |
| PagingCheck.ChainGrows | kernel/paging_check.c:85-89 | storing the old head in a fresh page extends the list |
| PagingCheck.ChainStep | kernel/paging_check.c:93-97 | loading the first word of the head gives the page held before |
| PagingCheck.FailToMap | kernel/paging_check.c:90-92 | with at most two pages left the map fails and the list survives |
| PagingCheck.FreeHoard | kernel/paging_check.c:93-97 | following the list frees exactly the held pages |
| PagingCheck.CheckFailedMapCleanup | kernel/paging_check.c:75-102 | true exactly with four free pages; then tree, allocated set and held memory are as before |
| PlainPaging.Counted | kernel/paging.c:206-246 | free pages and table count are functions of the plain state |
| PlainPaging.RoomCounted | kernel/paging.c:208-218 | the test for room is the plain one: growth in tables against free pages and budget |
| PlainPaging.DoMap | kernel/paging.c:197-230 | insertion into the plain map, under the plain condition |
| PlainPaging.DoUnmap | kernel/paging.c:232-247 | deletion from the plain map |
| PlainPaging.DoProtect | kernel/paging.c:249-259 | update of the plain map |
| PlainPaging.DoQuery | kernel/paging.c:261-270 | lookup in the plain map |
| PlainPaging.Perform | kernel/paging.c:197-270 | every operation is a step of the plain machine and spares owned memory |
| PlainPaging.QueryAnswersMap | kernel/paging.c:197-270 | after a successful map of frame and flags, a query answers exactly these |
| ClientRuns.Act | kernel/paging.h:14-19 | every call, load and store is an action of the plain machine with the contents of owned frames |
| ClientRuns.Run | kernel/paging.h:14-19 | refinement over every run of calls, loads and stores of every client that keeps the contract |
| PlainPaging.TranslationsSeen | kernel/paging.c:197-270 | walks and cached translations show the plain map in the window and the unchanged identity half elsewhere |
| PlainPaging.RepresentedIsBacked | kernel/paging.h:14-19 | in every reachable state mapped frames are owned, owned frames managed, and memory adds up |
| PlainPaging.UnmapUndoesMap | kernel/paging.c:197-247 | on the plain machine map and unmap cancel, and cost nothing |
| PlainPaging.StartIsPlain | kernel/paging.c:144-159 | the state after `paging_init` is the plain machine with an empty window |
| AliasCheck.CheckedTables | kernel/paging_check.c:41 | the two test pages share all tables but the last: four tables together |
| AliasCheck.RejectsInvalidMappings | kernel/paging_check.c:14-35 | every listed call is refused and changes nothing |
| AliasCheck.Aliasing | kernel/paging_check.c:44-50 | two pages on one frame see each other's stores; exact memory needed |
| AliasCheck.Permissions | kernel/paging_check.c:51-58 | rights are reported, removed and restored; a store then goes through |
| AliasCheck.Remapping | kernel/paging_check.c:59-65 | a remapped page reaches only its new frame |
| AliasCheck.CheckAliasesAndPermissions | kernel/paging_check.c:37-73 | true exactly with six free pages; then everything is as before |
| AliasCheck.PagingBootCheck | kernel/paging_check.c:104-108 | both checks together, same condition, same state |
| FaultCheck.Run | kernel/paging_check.c:111-131 | exactly with four free pages each fixture ends in the fault it provokes, though the revoked translation was used before; otherwise it is stuck in `check_failed` |
| KernelFaults.TextWrite | kernel/paging_check.c:136 | in any state after the start, every byte of code can be fetched and a store to it faults |
| KernelFaults.RodataWrite | kernel/paging_check.c:137 | constants can be loaded; stores to them and fetches fault |
| KernelFaults.DataExec | kernel/paging_check.c:138-139 | data can be loaded, a fetch from it faults |
| KernelFaults.StackExec | kernel/paging_check.c:140-145 | so it is for the stack |
| KernelFaults.GuardLoad | kernel/paging_check.c:146-151 | a load right below or above either stack faults |
| MemoryStart.RamCheck | kernel/main.c:60 | the allocator's self-test disturbs no page table |
| MemoryStart.InitializeMemory | kernel/main.c:54-66 | exact success condition of the whole bring-up, stated on boot information, map and layout alone, and the plain state it ends in |
| MemoryStart.StartFromLoader | boot/main.c:43-87 | on the loader's own block: exact success condition on the firmware's figures, the map and the two addresses, without the kernel's validity predicates |
| ElfImage.ProgramsInFile | boot/load.c:26-28 | every program header of a valid file lies inside it |
| ElfFormat.HeaderMeaning | boot/load.c:18-29 | a valid header is that of a little-endian ELF64 executable for x86-64 with 1 to 128 program headers inside the file |
| ElfFormat.HeaderRoundTrip | boot/load.c:4-10 | reading a file header written in the order of the gABI, little-endian, gives it back |
| ElfFormat.SegmentRoundTrip | boot/load.c:12-15 | so does reading a program header, wherever it lies |
| ElfFormat.FileRoundTrip | boot/load.c:26-28 | from a written file the loader reads exactly the header and the program headers written |
| ElfImage.PowerTest | boot/load.c:39 | the test on the alignment accepts exactly powers of two |
| ElfImage.ValidSegmentMeaning | boot/load.c:31-41 | valid segments are exactly those in bounds of file and memory, placed where linked, congruently aligned |
| ElfImage.SumsAreExact | boot/load.c:51-75 | for valid segments no 64-bit sum of the loader wraps |
| ElfImage.PageMask | boot/load.c:74-75 | the mask rounds down to a page |
| ElfImage.LoadableIsSound | boot/load.c:59-84 | accepted files have disjoint segments in an aligned range of at most 64 MiB between 1 MiB and 4 GiB, and an executable entry |
| ElfImage.RangeIsUnique | boot/load.c:74-77 | the range is determined by the file |
| ElfImage.AcceptanceIgnoresOrder | boot/load.c:59-84 | acceptance and range do not depend on the order of program headers |
| ElfFormat.LoadableMeaning | boot/load.c:59-84 | acceptance, address by address: segments in order, no address claimed twice, entry in executable file bytes, smallest page range of at most 64 MiB |
| ElfFormat.InterpretedMeaning | boot/load.c:68 | `EFI_UNSUPPORTED` means a dynamic-linking header with everything before it in order |
| ElfFormat.AcceptedExactly | boot/load.c:102-109 | which written files are accepted, on header fields and segments alone |
| ElfImage.OneFileByte | boot/load.c:93-99 | at most one file byte claims an address |
| ElfImage.OrderIsIrrelevant | boot/load.c:93-99 | neither does the image depend on that order |
| ElfFormat.PlacedMeaning | boot/load.c:86-100 | the placed byte is the file byte at the segment's offset, or 0 |
| ElfLoader.OverlapsPrevious | boot/load.c:43-53 | true exactly if an earlier occupied segment overlaps, with sums modulo 2^64 |
| ElfLoader.InspectSegments | boot/load.c:59-84 | success exactly for loadable files, with their range; which error is reported |
| ElfLoader.CopySegment | boot/load.c:96-98 | copies the file part of one segment and nothing else |
| ElfLoader.CopySegments | boot/load.c:86-100 | every byte of the range is the claiming file byte or 0; nothing outside changes |
| ElfLoader.EntryIsCode | boot/load.c:72-73 | the entry point is a file-backed byte of an executable segment inside the image |
| ElfLoader.PlaceKernel | boot/load.c:102-119 | success exactly for accepted files and granted memory, and which error otherwise; the placed image; otherwise memory is untouched |
| ElfLoader.ReadEntireFile | boot/load.c:121-132 | for any answers of the firmware: where reading ends, and with which status; success means the whole file was read |
| ElfLoader.ReadingEndsOnce | boot/load.c:121-132 | the firmware's answers determine where reading ends |
| ReceiveBuffer.ReadsAreContiguous | kernel/rx_buffer.h:13-15 | bytes read one after the other arrived one after the other |
| ReceiveBuffer.QueuedPush | kernel/rx_buffer.c:18-24 | storing at head going round appends to the queue |
| ReceiveBuffer.QueuedRead | kernel/rx_buffer.c:34-37 | reading at tail going round takes the oldest byte |
| ReceiveBuffer.RxBuffer.Fail | kernel/rx_buffer.c:9-13 | drops everything pending and stays failed |
| ReceiveBuffer.RxBuffer.Push | kernel/rx_buffer.c:15-26 | appends up to 255 bytes; the next drops all; a failed buffer takes nothing |
| ReceiveBuffer.RxBuffer.Read | kernel/rx_buffer.c:28-38 | oldest byte, nothing, or one report per loss; the output is untouched otherwise; the history stays accounted for |
| SerialPort.StatusBits | kernel/serial.c:90-94 | mask 0x1e tests bits 4:1, mask 1 the lowest bit |
| SerialPort.Serial.EnableReceive | kernel/serial.c:78-88 | starts once, with interrupts off, on an empty buffer |
| SerialPort.Serial.ReceiveError | kernel/serial.c:15-21 | fails the buffer with interrupts off and restores the flag |
| SerialPort.Serial.ReceiveByte | kernel/serial.c:90-101 | what each status does to buffer, history and both loss counters |
| SerialPort.Serial.Interrupt | kernel/serial.c:103-125 | for any answers of the device: services at most 256 causes, up to the first it does not know or the device going quiet; reports exactly these rounds' signals, in order; gives up all input unless the device went quiet; exact effect on buffer state and loss counters |
| SerialPort.Serial.WaitStatus | kernel/serial.c:23-35 | for any answers of the device: at most a million polls, ended by the first status with the bits or from no device, with which result; every line error that a poll shows is reported and fails the buffer, and with interrupts off log and drop counter grow by exactly these |
| LineEditing.PlainGrows | kernel/console.c:79-93 | one more byte is kept exactly if it neither starts nor continues an escape sequence |
| LineEditing.SequencesVanish | kernel/console.c:79-93 | ESC `[` or ESC `O` with parameters and final byte, and ESC with any other byte, leave no trace; nothing else does |
| LineEditing.TextGrows | kernel/console.c:95-115 | what each key does to the text of a line, by its code: 8 and 127 erase, 9 types a blank, 32 to 126 themselves, others nothing |
| LineEditing.ErasureTakesOne | kernel/console.c:98-104 | an erasure cancels the character before it, anywhere in the input |
| LineEditing.ErasureOfNothing | kernel/console.c:98-104 | on an empty line an erasure does nothing |
| LineEditing.WithoutErasures | kernel/console.c:105-113 | otherwise the text is the printable input, tabs shown as blanks |
| LineEditing.GoodMeaning | kernel/console.c:106-109 | a line is sound exactly if nothing was lost and no prefix outgrew 127 characters |
| LineEditing.OpenIsLatest | kernel/console.c:117-134 | the open line is what follows the last line end or Ctrl-C |
| LineEditing.EffectMeaning | kernel/console.c:117-134 | lines end at 13, and at 10 unless it follows 13; only 3 cancels |
| LineEditing.ExecutedLines | kernel/console.c:70-77 | every executed line is the text of a whole line of the arrival stream, from one line end to the next, without loss |
| LineEditing.LineIsUnique | kernel/console.c:117-134 | a line of the stream is determined by where it ends |
| LineEditing.ExecutedInOrder | kernel/console.c:136-160 | lines are executed in the order of their arrival, none twice |
| LineEditing.LinesExactly | kernel/console.c:117-134 | a line of the stream whose end is read is executed, with exactly its text, if all its bytes and the one before were read and it was never too long; otherwise it is discarded |
| LineEditing.DiscardedLines | kernel/console.c:70-77 | a line end discards exactly the blocks that lost input or were too long |
| Console.Equal | kernel/console.c:13-17 | comparison of NUL-terminated text is equality |
| Console.TrimMeaning | kernel/console.c:30-32 | trimming removes exactly the blanks at both ends |
| Console.NamedMeaning | kernel/console.c:28-55 | the command of a line by the bytes of the five words |
| Console.Execute | kernel/console.c:28-55 | each of the five commands exactly for its word with blanks around it, nothing exactly for blanks, unknown for all else |
| Console.LineEditor.ConsumeEscape | kernel/console.c:79-93 | one step of the escape automaton |
| Console.LineEditor.EditCharacter | kernel/console.c:95-115 | the fields keep describing the open line, or that it is unsound |
| Console.LineEditor.FinishLine | kernel/console.c:70-77 | executes the text of a sound line, discards any other, starts afresh |
| Console.LineEditor.AcceptInput | kernel/console.c:117-134 | the effect of each byte is the one defined on the whole input before it, CR LF counted once |
| Console.LineEditor.LoseInput | kernel/console.c:152-155 | a reported loss makes the open line unsound |
| Console.InputLoop.EnableAndHalt | kernel/console.c:144-148 | the state in which the processor sleeps has nothing to read and no loss to report |
| Console.InputLoop.Wake | include/x86.h:60-65 | the interrupt that ends the sleep keeps the loop's invariant |
| Console.InputLoop.Take | kernel/console.c:144-145 | reads with interrupts off, so the empty check still holds at the halt |
| Console.InputLoop.Output | kernel/console.c:8-11 | goes through exactly if every character finds the transmitter ready in its polls |
| Console.InputLoop.Handle | kernel/console.c:45-51 | one item is delivered; only "halt", or failing output, ends the loop, "halt" with interrupts off |
| Console.InputLoop.Round | kernel/console.c:142-159 | one round keeps effects, editor and buffer in step under any interrupts; it takes exactly one item if any is pending; the loop goes on unless output fails or that item ends the line "halt" |
| Console.InputLoop.Run | kernel/console.c:136-160 | and so does any number of rounds; the loop stops at the first "halt" and for no other reason but failing output |
| Console.InputLoop.Safety | kernel/console.c:136-160 | in every state of the loop, an executed line is a whole, undamaged line of the arrival stream, ending at its item's own signal |
| Console.InputLoop.Exactly | kernel/console.c:136-160 | in every state of the loop, the effect at a line's end is exactly execution of that line, or its being discarded |
| Console.InputLoop.InOrder | kernel/console.c:136-160 | and executed lines are in the order of their arrival |
| InputMachine.InvariantHolds | kernel/console.c:142-151 | the invariant of every reachable state of the interleaving |
| InputMachine.MutualExclusion | kernel/serial.c:15-21 | whoever touches the buffer, in any run, does so with interrupts off |
| InputMachine.NoLostWakeUp | include/x86.h:60-65 | a sleeping processor has nothing to read, and a request can be delivered at once |
| InputMachine.SleepsWithoutDelay | include/x86.h:60-65 | without the delay of STI a run puts the processor to sleep on input |

## Left out

- Null output pointers of `pmm_alloc`, `paging_query` and `rx_read`: the model returns values instead.
- Physical memory and the translation caches are value-typed fields that methods reassign; aliasing between C pointers into memory is covered by the frame numbers, not by references. Memory at or above 4 GiB is not modelled.
- Accessed and dirty bits, and the privilege bit of page-table entries.
- `supported_cpu_state` and the control-register writes of `activate_page_tables`: one boolean input, and "caches emptied, root in force".
- Descriptor attributes are the two booleans that the code looks at; the memory map is a sequence of descriptors, not bytes.
- Table frames are addressed directly; that each of them is mapped to itself is proved (`Clients.TablesReachable`), not used for the accesses themselves.
- Clients.Load: models accesses to aligned 64-bit words only, like Clients.Store and Clients.Fetch.
- ClientRuns.Run: leaves open which free page an allocation returns and what it holds; that it is the lowest is `PhysicalPages.PageAllocator.Alloc`. Stores to memory the client does not own are outside the contract.
- MemoryStart.InitializeMemory: the log messages between the steps are not modelled.
- The checks of `kernel_main` that come before `initialize_memory` (`kernel/main.c:18-40`): the block's header and map again, and the entry stack pointer.
- UEFI protocols, opening and closing of the kernel file, and `load_kernel`'s cleanup; `AllocatePages` is a yes-or-no answer.
- Port I/O, UART, interrupt-controller and timer programming: what the registers answer is a parameter, or arbitrary.
- Console.InputLoop.Output: which characters are printed, and how many, is not modelled, only the polling and the interrupts while printing; a failed write stops the loop where the source spins; the final flush of "halt" is one more character here.
- SerialPort.Serial.Interrupt: the interrupt-enable register, the FIFO reset at the bound, and end-of-interrupt handling are not modelled.
- Effects of the commands themselves: only which command a line names.
- Assembly stubs, descriptor tables, exception printing and the timer.
