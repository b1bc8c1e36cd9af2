# Kalorona kernel: memory, page tables, locks and device tree

A Dafny model of the parts of the kernel whose correctness rests on invariants, with proofs for
every input, every run or every interleaving.

**Physical memory.** `Bitmap` and `Links` hold the byte-packed bit maps and the intrusive lists as
arrays that are written in place. `Blocks` and `BuddySteps` state, as a function of the page map
alone, what the buddy system should list: the maximal aligned free blocks. `Buddy` is the page
manager itself: page map, pair maps and linked lists agree after initialisation, every allocation
and every free of a single page. `BuddyRuns` draws the consequences for whole runs: which block a
request breaks up, and that no page is handed out twice. `QSort` and `Sweep` compute the available
RAM from the reserved ranges, `Bootmem` is the boot allocator on top of it, with `BootmemPlaces` for
the places it gives, and `Boot` joins them up to the free lists of the page manager. `Objects` and
`ObjectManager` are the object allocator on top of the buddy system.

**Page tables.** `PageTable` relates trees of 512-entry tables in memory (section 4.4 of the RISC-V
Privileged Architecture, version 20211203) to a plain map from virtual pages to entries. `Vm` walks,
maps and unmaps, with pages from the buddy model; `VmRestore` maps and then unmaps a range, `VmReap`
frees a tree, `VmFork` copies an address space and `VmInherit` follows a mapping into the copy,
`VmBytes` copies bytes through translation.

**Locks.** `Spinlock` and `Sleeplock` are step systems over any number of harts and processes, one
step per access to a lock's fields, with inductive invariants. `SpinlockProgress` and
`SleeplockProgress` say what the calls achieve, `SleeplockWakes` which processes a release wakes,
and `SleeplockForeign` what a release by another process does.

**Device tree.** `Fdt`, `FdtWalk`, `FdtReserve` and `FdtReader` read a flattened tree (sections 5.3
to 5.5 of the Devicetree Specification v0.4), following the version in the header, and `FdtExact`
says exactly what they accept; `FdtWriter` and `FdtFinish` write one sequentially; `FdtCheck` is the
full check and `FdtRoundTrip` joins writer, readers and check; `FdtNodes` goes from node to node;
`FdtProps`, `FdtEdit`, `FdtSetProp` and `FdtRoom` look up and set a property in place. A `Layout`
ties tokens to their places in the bytes, so that every operation on bytes is an operation on the
token sequence a reader sees.

Operations that the source performs in place are methods on arrays and on classes with the source's
fields. Panics and NULL results are values. Where a property turns out not to hold of the code, the
code is kept, a concrete input is given and the exact condition is proved:

- the pair maps of the page manager are large enough exactly under `Buddy.AreaCovers` (17 pages:
  `Buddy.AreaTooSmall`);
- a range that was mapped can be unmapped exactly if its address passes the alignment test and its
  flags are more than V (`VmRestore.MapThenUnmap`, flags 0: `VmRestore.FlagsZero`);
- vm_reap_pagetable tells tables from mapped pages exactly if every mapped page carries R, W or X
  (`VmReap.GuardTellsIff`, without them: `VmReap.BarePage`);
- a sub-table may stay uncleared exactly if its page holds zeros (`VmFork.UnclearedTable`);
- a copied address space holds all mapped pages exactly if each carries R or X
  (`VmFork.AllCopiedIff`, without them: `VmFork.BareFlags`, `VmFork.NotCopied`);
- a sleeplock excludes as long as only its holder releases it (`Sleeplock.MutualExclusion`), and one
  release by another process is enough to break it (`SleeplockForeign.ForeignRelease`);
- the room test for names is right exactly up to the size of the buffer (`FdtWriter.StringGuard`,
  199 bytes for 100: `FdtWriter.StringGuardFails`);
- the reservations written are all counted exactly if none has size 0 (`FdtReserve.AllFoundIff`, two
  entries: `FdtRoundTrip.HiddenReservation`);
- an offset accepted as a node is one exactly if it does not lie inside a token or behind the end
  (`FdtProps.AcceptedIsNode`, `FdtProps.FalseNodeIff`), and all accepted ones are exactly if no such
  position looks like a node (`FdtProps.NoFalseNodeIff`; a value: `FdtProps.AcceptedInValue`, a
  length word: `FdtProps.AcceptedLength`);
- memory below the RAM is reported available exactly if it is not reserved and follows something
  reserved (`Sweep.AvailableBelow`, `Sweep.SegmentsInRam`, an input: `Sweep.SegmentBelowRam`);
- boot regions stay apart exactly unless one is appended with alignment 0 (`Bootmem.PlaceApart`, two
  requests: `Bootmem.ZeroAlignmentOverlaps`);
- alignments above a page are met exactly if the first fit in the map before the call is a multiple
  (`Bootmem.Node.Alloc` with `Bootmem.AlignedAbovePage`, two requests:
  `Bootmem.LargeAlignmentIgnored`);
- the page manager gets all its pair maps exactly if each finds a run of free pages in its turn
  (`Boot.MapsThereIff` and `Boot.StartUp`, 67584 pages: `Boot.MapsMissing`).

## Model

| member | source | states |
|---|---|---|
| Bitmap.Map.Test | kernel/utilities/bytes.c:50-53 | answers bit `i` of the byte-packed map seen as a sequence of bits |
| Bitmap.Map.TestAndSet | kernel/utilities/bytes.c:36-41 | the bit sequence changes at that one bit, which becomes set; returns the bit before |
| Bitmap.Map.TestAndClear | kernel/utilities/bytes.c:43-48 | the bit sequence changes at that one bit, which becomes clear; returns the bit before |
| Bitmap.Map.Toggle | kernel/utilities/bytes.c:55-59 | the bit sequence changes at that one bit, which is flipped; returns the bit after the flip |
| Bitmap.SetByte | kernel/utilities/bytes.c:36-41 | or-ing the shifted one changes exactly bit `j` of a byte |
| Bitmap.ClearByte | kernel/utilities/bytes.c:43-48 | masking with the complement of the shifted one changes exactly bit `j` |
| Bitmap.ToggleByte | kernel/utilities/bytes.c:55-59 | xor with the shifted one flips exactly bit `j` |
| Links.Nodes.Insert | kernel/utilities/algorithm/list.c:5-14 | the pointer writes put the node behind the head of one well-formed doubly linked list; all other lists keep their nodes and order |
| Links.Nodes.Detach | kernel/utilities/algorithm/list.c:16-25 | the pointer writes cut exactly one node out of its list, all lists stay well formed and share no node |
| Links.Nodes.Append | kernel/memory/object.c:150-161 | linking a node behind the last one extends that list at its end and no other |
| Addr.PageVaRoundTrip | kernel/include/vmem.h:109-110 | the direct map gives page addresses that are aligned and lead back to their page |
| Blocks.MaximalDisjoint | kernel/memory/buddy.c:86-108 | two maximal aligned free blocks that share a page are one block of one order |
| Blocks.MaximalAround | kernel/memory/buddy.c:86-108 | every aligned free block lies in a maximal one |
| BuddySteps.MapDetermines | kernel/memory/buddy.c:78-119 | list and pair bits of an order are determined by the memory map alone |
| BuddySteps.TogglePair | kernel/memory/buddy.c:86-98 | listing or unlisting one block flips the bit of its pair and no other |
| BuddySteps.FreeMerge | kernel/memory/buddy.c:86-108 | when the buddy is free, exactly the buddy leaves the maximal blocks of this order |
| BuddySteps.FreeStop | kernel/memory/buddy.c:86-108 | when the buddy is not free, exactly the current block joins the maximal blocks of this order |
| BuddySteps.FreeAbove | kernel/memory/buddy.c:86-108 | above the order where merging stops the maximal blocks are unchanged |
| BuddySteps.TakeBetween | kernel/memory/buddy.c:45-61 | between request and found order exactly the right halves split off become maximal |
| BuddySteps.TakeBelow | kernel/memory/buddy.c:45-68 | below the requested order an allocation changes no maximal block |
| Buddy.AreaCovers | kernel/memory/buddy.c:18-18 | the pair map whose size is rounded down reaches every block of the order if and only if `AreaFits` holds of the number of pages |
| Buddy.AreaTooSmall | kernel/memory/buddy.c:18-18 | of 17 pages the last one is a block of order 0 whose pair has index 8, in a map of 8 bits |
| Buddy.PairBitMeaning | kernel/memory/buddy.c:86-99 | while a page is freed, the pair bit tells exactly whether the buddy is a listed block |
| Buddy.NoRun | kernel/memory/buddy.c:37-44 | empty lists from the requested order up mean that no aligned run of that size is free |
| Buddy.PageManager.constructor | kernel/memory/buddy.c:12-28 | from all-zero pair maps and empty lists, handing over the clear pages one by one ends in a state where all three representations agree with the unchanged memory map |
| Buddy.PageManager.AllocPages | kernel/memory/buddy.c:30-76 | keeps the invariant; panics exactly for an order of 11 or more; returns NULL exactly when no aligned run of 2^order clear pages exists; otherwise the block begins a maximal free block of the smallest order, from the one asked for up, that has any, namely the first one in its list; it is aligned, was entirely clear and the map changes on exactly its pages |
| Buddy.PageManager.SplitDown | kernel/memory/buddy.c:45-61 | the splitting loop reaches the state in which only the part handed out is still to be unlisted |
| Buddy.PageManager.MarkAll | kernel/memory/buddy.c:66-68 | the marking loop never meets a page in use and marks exactly the block |
| Buddy.PageManager.Coalesce | kernel/memory/buddy.c:86-108 | the coalescing loop restores the invariant for the map with the page clear |
| Buddy.PageManager.FreePage | kernel/memory/buddy.c:78-110 | keeps the invariant; succeeds exactly for an aligned address of a page in use and then clears that page only; the maximal block it ends up in stands first in its list |
| Buddy.PageManager.FreePages | kernel/memory/buddy.c:112-119 | succeeds exactly when the address is aligned and all pages are in use, and then clears exactly these pages |
| BuddyRuns.ListsPartitionFreePages | kernel/memory/buddy.c:22-110 | a page is clear if and only if a listed block covers it; that block is the only one and is aligned to its order |
| BuddyRuns.NoTwoBuddiesListed | kernel/memory/buddy.c:86-108 | below the top order two buddies are never both listed |
| BuddyRuns.StateFollowsMap | kernel/memory/buddy.c:78-119 | two states with the same memory map have the same free sets and the same pair bits, however they were reached |
| BuddyRuns.AllocationCount | kernel/memory/buddy.c:62-69 | an allocation lowers the number of free pages by exactly 2^order |
| BuddyRuns.LiveBlocksDisjoint | kernel/memory/buddy.c:30-119 | in every run, two blocks that share a page have a free of that page between their allocations |
| BuddyRuns.BreaksSmallest | kernel/memory/buddy.c:34-44 | in every run, a block handed out begins a maximal one no larger than any maximal block of at least the order asked for, and all other such blocks stay maximal |
| BuddyRuns.LargerRunKept | kernel/memory/buddy.c:34-44 | in every run, a free run of a larger order is still there after a request for which a smaller maximal block will do |
| BuddyRuns.PageThenBlock | kernel/memory/buddy.c:34-73 | of 2048 pages with page 1 and the upper half clear, a request for one page and then one for 1024 pages are given page 1 and page 1024 |
| BuddyRuns.FreeThenAlloc | kernel/memory/buddy.c:37-46 | freeing a page and asking for the order of the maximal block it ends up in gives back exactly this block |
| BuddyRuns.Execute | kernel/memory/buddy.c:30-110 | any list of allocation and free calls, executed on the page manager up to the first that panics, is such a run; the calls that panic are exactly those with a too large order, an unaligned address or a page not in use |
| BuddyRuns.AllocateAndFree | kernel/memory/buddy.c:30-110 | allocating a block and freeing its pages one at a time in any order restores the memory map, every free set and every pair map |
| PageTable.PteFacts | kernel/include/vmem.h:94-100 | page number and flags packed into an entry are read back from it |
| PageTable.PteCarries | kernel/memory/vmem.c:48-48 | the entry made has its page number, V and of the bits 2 to 512 exactly those of the flags given |
| PageTable.CarriesIs | kernel/memory/vmem.c:48-48 | these bits determine the entry |
| PageTable.AddTable | kernel/memory/vmem.c:24-30 | a cleared fresh table behind an empty entry keeps the tree unshared and the abstract map unchanged |
| PageTable.SetLeaf | kernel/memory/vmem.c:43-48 | writing a last-level entry changes the abstract map at that one virtual page |
| PageTable.TreeFrame | kernel/memory/vmem.c:17-33 | memory outside the tables may change without changing the tree or its map |
| PageTable.MappedLookup | kernel/memory/vmem.c:35-51 | after mapping, every page of the range leads to the matching physical page with V and bit by bit the given flags, every other virtual page as before |
| VmRestore.MapThenUnmap | kernel/memory/vmem.c:35-67 | mapping a fresh range and unmapping it: the unmap panics exactly if the address fails its alignment test or the flags are 0 or 1; otherwise the abstract map is as before everywhere and, with `do_free`, exactly the frames of the range have been returned once |
| VmRestore.FlagsZero | kernel/memory/vmem.c:46-62 | a range mapped with flags 0 has valid first entries that the unmap does not take for leaves |
| Vm.Machine.AddTable | kernel/memory/vmem.c:24-30 | the allocating branch of the walk takes one page from the page manager and hooks it in cleared |
| Vm.Machine.Descend | kernel/memory/vmem.c:19-31 | one turn of the walk reaches the table one level below, or stops for want of a table or of a page |
| Vm.Machine.Walk | kernel/memory/vmem.c:17-33 | returns the last-level slot of the address; with `alloc` it fails only when the page manager is out of pages; without it nothing changes and it fails exactly when a table is missing; the tables stay an unshared tree apart from all free pages |
| Vm.Machine.MapOne | kernel/memory/vmem.c:41-48 | enters one page unless it is mapped, in which case it panics |
| Vm.Machine.MapPages | kernel/memory/vmem.c:35-51 | refines an update of the abstract map on the pages done, whose entries have the matching page number, V and bit by bit the given flags; all are done on success, and it stops only at a page already mapped or when no table page is left |
| Vm.Machine.UnmapOne | kernel/memory/vmem.c:60-65 | clears one entry and, if asked, returns its page to the page manager, or panics |
| Vm.Machine.UnmapPages | kernel/memory/vmem.c:53-67 | removes the pages done from the abstract map; with `do_free` each page is returned to the page manager exactly once; the alignment test is the one in the code, on entry indices |
| VmReap.GuardTellsIff | kernel/memory/vmem.c:69-86 | the guard, which has no level to look at, holds exactly at the entries that lead to tables if and only if every entry with bit 1 also has bit 2, 4 or 8 |
| VmReap.BarePage | kernel/memory/vmem.c:74-79 | a page mapped with given flags is taken for a table, with its number for the recursion, if and only if bits 2, 4 and 8 of the flags are clear |
| VmReap.WholeTree | kernel/memory/vmem.c:69-86 | started at the root the tables reaped are all tables of the tree |
| VmReap.ReapEntry | kernel/memory/vmem.c:71-84 | one entry: its subtree is reaped, or the panic on a leaf is reached |
| VmReap.Reap | kernel/memory/vmem.c:69-86 | succeeds exactly when no leaf is left below the table, and then has returned every table page exactly once and touched nothing else |
| VmFork.CopyPage | kernel/memory/vmem.c:160-170 | a leaf missing in the child gets a fresh page with the same contents and flags |
| VmFork.SubTable | kernel/memory/vmem.c:173-178 | the child's table behind an entry, taken without clearing it, keeps the child's map because free pages hold zeros |
| VmFork.CopyTable | kernel/memory/vmem.c:153-183 | the recursive copy keeps the parent's tree, the child's older entries and all pages copied so far apart from each other |
| VmFork.CopySpace | kernel/memory/vmem.c:185-185 | on success every page of the parent mapped with R or X has in the child the same contents and flags on a page shared with nothing, unless the child had an entry before and overwriting is off; a page mapped with neither is not copied; the child keeps its older tables and all other entries, new tables and copies come from the free pages, and no other page of memory changes; failure only when the page manager is out of pages |
| VmFork.PermittedCopied | kernel/memory/vmem.c:158-171 | every page of the parent whose entry has bit 1 and bit 2 or 8 has in the child, unless that keeps an older entry, the same flags and contents on a page of its own that was free |
| VmFork.NotCopied | kernel/memory/vmem.c:158-171 | a page mapped with neither R nor X has no copy: the child's entry is what it was before |
| VmFork.BareFlags | kernel/memory/vmem.c:158-171 | a page mapped with flags in which bits 2 and 8 are clear is valid and passed over by the copy |
| VmFork.AllCopiedIff | kernel/memory/vmem.c:153-185 | all mapped pages of the parent without an entry to keep in the child are copied if and only if the entry of each has bit 2 or bit 8 |
| VmFork.UnclearedTable | kernel/memory/vmem.c:173-178 | hooking in a table of either level without clearing it leaves a tree with the same abstract map if and only if the page holds zeros |
| VmInherit.MapThenCopy | kernel/memory/vmem.c:35-185 | a range mapped with R or X and then inherited: every page of it has in the child, unless that keeps an older entry, its own copy of the frame's contents with bit by bit the flags it was mapped with |
| VmInherit.StackInherited | kernel/memory/vmem.c:35-185 | for pages mapped with R, W and U the child's entries end in V, R, W and U |
| VmBytes.Translate | kernel/memory/vmem.c:145-151 | the physical address read off the last-level entry, nothing exactly when a table is missing; the valid bit of that entry is not looked at |
| VmBytes.MappedTranslates | kernel/memory/vmem.c:145-151 | after mapping a range every address in it translates to the matching physical address |
| VmBytes.CopyOut | kernel/memory/vmem.c:202-215 | stores the bytes at the places the range translates to, changes no other byte of memory, and stops exactly at the first address without a table |
| VmBytes.CopyIn | kernel/memory/vmem.c:187-200 | returns the bytes of the range; succeeds exactly when every address has its table |
| VmBytes.OutThenIn | kernel/memory/vmem.c:187-215 | what was copied out is read back, across page boundaries, for every length |
| Spinlock.StepInv | kernel/spinlock.c:14-43 | every step of every hart, one access to a field of a lock, keeps the invariant |
| Spinlock.RunInv | kernel/spinlock.c:14-43 | the invariant holds in every state of every interleaving |
| Spinlock.HolderUnique | kernel/spinlock.c:14-43 | a lock that names a hart is locked and that hart alone owns it; is_holding_spinlock answers exactly that, except between the two writes of the hart's own acquire or release |
| Spinlock.DepthCounts | kernel/asm/hart.c:22-43 | the push-off depth is the number of locks owned plus the acquire or release in progress; interrupts are off while it is positive; popoff_hart does not panic |
| Spinlock.InterruptsRestored | kernel/asm/hart.c:22-43 | any balanced stretch, released in any order, restores the interrupt flag seen at its outermost push |
| SpinlockProgress.FreeLockTaken | kernel/spinlock.c:21-25 | in every run, a hart that tests a free lock owns it, and its next step names it in the lock |
| SpinlockProgress.UsedLockAwaited | kernel/spinlock.c:21-22 | a hart that tests a lock in use changes nothing and tests again |
| SpinlockProgress.OwnerReleases | kernel/spinlock.c:28-38 | an owner that gives a lock back reads, clears the name, clears the lock and pops without a panic, and with the third step the lock is free |
| Sleeplock.StepInv | kernel/sleeplock.c:13-30 | every statement of every process keeps the invariant, including every step of the walk in proc_wakeup, when only the holder releases |
| Sleeplock.RunInv | kernel/sleeplock.c:13-30 | the invariant holds in every state of every interleaving in which only the holder releases |
| Sleeplock.MutualExclusion | kernel/sleeplock.c:13-39 | at most one process is between the return of acquire and release, `locked` and `pid` name it, and is_holding_sleeplock is true for it alone |
| Sleeplock.NoLostWakeup | kernel/proc/proc.c:186-219 | while the lock is free no process sleeps on it or is on its way there past the inner lock |
| Sleeplock.ReleaseWakesAll | kernel/proc/proc.c:212-219 | when a release clears the lock, every process off its hart on this channel can run |
| SleeplockWakes.OnlySleepersWake | kernel/proc/proc.c:212-219 | in every run, a step of another process changes nothing of a process, except that a visit of the walk makes it runnable if it slept on this lock's channel |
| SleeplockWakes.ReleaseWakesExactly | kernel/proc/proc.c:212-219 | in every run, the walk of a release makes runnable exactly the processes that slept on this channel when it began and leaves all others as they are |
| SleeplockWakes.OthersSleepOn | kernel/proc/proc.c:212-219 | a process that sleeps on another channel sleeps on through the walk |
| SleeplockProgress.FreeLockTaken | kernel/sleeplock.c:13-21 | in every run, a process that finds the lock free under the inner lock holds it after three more steps of its own, and the lock names it |
| SleeplockProgress.ReleaseFrees | kernel/sleeplock.c:23-30 | in every run, three steps after its walk a release has left the lock free, naming no one, with the inner lock released |
| SleeplockForeign.ForeignRelease | kernel/sleeplock.c:13-30 | sleeplock_release does not look at the pid: from every state in which one process holds the lock and another one is idle, a release and an acquire by that other one lead to a state in which both hold it |
| Fdt.OffsetCheckExact | kernel/device/libfdt/fdt.c:140-160 | the wrapping 32-bit tests of fdt_offset_ptr hold if and only if the bytes lie in the blob and, from version 17 on, in the structure block |
| Fdt.NextTagAdvances | kernel/device/libfdt/fdt.c:162-221 | whatever the bytes, a tag that is not an error lies inside the blob and the next offset is aligned and at least 4 further |
| Fdt.NextTagAt | kernel/device/libfdt/fdt.c:162-221 | on the bytes of a token the reader returns its tag and the offset right behind it |
| FdtReader.FdtNextTag | kernel/device/libfdt/fdt.c:162-221 | the code with its loop and its wrapping tests computes the tag function, for every header of every version and every buffer below INT_MAX |
| FdtReader.FdtGetString | kernel/device/libfdt/fdt_ro.c:34-98 | the code with its search for the NUL computes the string function, for every header of every version |
| FdtExact.PropTagIff | kernel/device/libfdt/fdt.c:187-219 | a property is accepted exactly if its head and value, with the padding before it, lie in the blob and the structure block; the next token begins at the next word |
| FdtExact.ValueAligned | kernel/device/libfdt/fdt.c:201-204 | before version 16 a value of 8 bytes or more begins at a multiple of 8, otherwise right behind its head |
| FdtExact.NodeTagIff | kernel/device/libfdt/fdt.c:178-219 | a node is refused when its name runs out of the structure block, and otherwise ends with the word of the first NUL |
| FdtExact.GetStringIff | kernel/device/libfdt/fdt_ro.c:48-90 | in a finished blob a name is returned exactly if it begins in the strings block, as far as its size is known, and ends there with a NUL |
| FdtExact.GetStringBackIff | kernel/device/libfdt/fdt_ro.c:69-90 | while a blob is being written a name is returned exactly for a negative offset into the strings block, counted from the end of the buffer, that leads to a NUL |
| FdtWalk.GetStringInside | kernel/device/libfdt/fdt_ro.c:34-98 | a string that is returned ends inside the blob |
| FdtWalk.GetStringAt | kernel/device/libfdt/fdt_ro.c:34-98 | a name that stands in the strings block is found with its length |
| FdtWalk.WalkLaid | kernel/device/libfdt/fdt.c:162-221 | walking a laid-out finished blob from any of its tokens yields exactly the remaining tokens, names through fdt_get_string |
| FdtWriter.FindString | kernel/device/libfdt/fdt.c:315-325 | the first place in the table where the name stands with its NUL, or -1 exactly when there is none |
| FdtWriter.StringGuard | kernel/device/libfdt/fdt_sw.c:250-265 | the room test on wrapping numbers is right if and only if the strings block with the new name is no larger than the buffer; beyond that it always says yes |
| FdtWriter.StringGuardFails | kernel/device/libfdt/fdt_sw.c:250-265 | a run of calls on a buffer of 100 bytes after which a name of 199 bytes has no room, passes the test, and is to be copied to a place before the buffer |
| FdtWriter.BuildingSnoc | kernel/device/libfdt/fdt_sw.c:219-248 | one more token behind the structure leaves all earlier tokens and names readable |
| FdtWriter.Writer.Create | kernel/device/libfdt/fdt_sw.c:109-141 | succeeds exactly for a large enough buffer and known flags, with nothing written yet |
| FdtWriter.Writer.AddReserve | kernel/device/libfdt/fdt_sw.c:188-206 | succeeds exactly in the reservation phase with 16 bytes left, and then the reservation map holds the entries added before and this one, address and size; otherwise nothing changes |
| FdtWriter.Writer.FinishReserve | kernel/device/libfdt/fdt_sw.c:208-217 | succeeds under the same condition, and then the entries added stand in the map, followed by the zero entry, and the structure phase opens with no token and no name |
| FdtWriter.Writer.GrabSpace | kernel/device/libfdt/fdt_sw.c:94-107 | gives the place behind the structure exactly when the bytes fit before the strings |
| FdtWriter.Writer.BeginNode | kernel/device/libfdt/fdt_sw.c:219-234 | succeeds exactly in the structure phase with room, then the tokens are the old ones and this one; otherwise nothing changes |
| FdtWriter.Writer.EndNode | kernel/device/libfdt/fdt_sw.c:236-248 | succeeds exactly in the structure phase with room, then the tokens are the old ones and an end; otherwise nothing changes |
| FdtWriter.Writer.AddString | kernel/device/libfdt/fdt_sw.c:250-265 | the copy leaves the buffer exactly if the strings block with the name would be larger than it; otherwise the name stands in front of the block and its negative offset is returned, or 0 exactly when there is no room |
| FdtWriter.Writer.NameOffset | kernel/device/libfdt/fdt_sw.c:276-291 | the offset of a name that stands there already, or of the name added; sharing exactly when the flag allows it; the strings block afterwards is the old one, with the name in front if it was added |
| FdtWriter.Writer.Property | kernel/device/libfdt/fdt_sw.c:293-335 | succeeds exactly when property and unshared name fit, then the tokens are the old ones and this one; a failure takes the added name back; a name too long for the whole buffer is told apart |
| FdtFinish.MovedName | kernel/device/libfdt/fdt_sw.c:353-372 | a name counted from the end of the buffer is found under the rebased offset after the strings block has moved |
| FdtFinish.RebaseStep | kernel/device/libfdt/fdt_sw.c:362-370 | correcting one property leaves every other token as it was |
| FdtFinish.Correct | kernel/device/libfdt/fdt_sw.c:359-374 | the loop that walks the structure rebases every name offset and changes nothing behind the structure |
| FdtFinish.Finish | kernel/device/libfdt/fdt_sw.c:337-384 | succeeds exactly in the structure phase with room for the end tag; then a reader that walks the blob sees exactly the tokens written, names and values included, the reservation map is unchanged and every header field has its final value |
| FdtFinish.WriteAll | kernel/device/libfdt/fdt_sw.c:219-384 | any token sequence written call by call and finished reads back as that sequence; it succeeds exactly if structure, end tag and the names that are not shared fit into the buffer |
| FdtReserve.AllFoundIff | kernel/device/libfdt/fdt_ro.c:189-199 | of a terminated map fdt_num_mem_rsv counts the entries before the first one of size 0, so all of them if and only if none has size 0 |
| FdtReserve.GetRsv | kernel/device/libfdt/fdt_ro.c:175-187 | address and size of the entry that stands there, nothing exactly if it would not lie in the blob |
| FdtRoundTrip.WriteThenCheck | kernel/device/libfdt/fdt_check.c:13-96 | fdt_check_full accepts a tree written and finished if and only if its tokens are well nested, with one root of empty name |
| FdtRoundTrip.WriteTree | kernel/device/libfdt/fdt_sw.c:109-384 | from fdt_create to fdt_finish, with any reservations and tokens: it succeeds exactly if the blob fits; readers then find exactly these tokens and these reservations, in order with address and size and followed by the zero entry, and fdt_check_full accepts it if and only if the tokens are well nested |
| FdtRoundTrip.HiddenReservation | kernel/device/libfdt/fdt_ro.c:194-197 | of two reservations, the first of size 0, none is counted |
| FdtCheck.HeaderAccepted | kernel/device/libfdt/fdt.c:89-138 | a header of any version passes if and only if it has the right magic and versions and both blocks, as far as their sizes are known, lie between header and end |
| FdtCheck.HeaderSizeIs | kernel/device/libfdt/fdt.c:69-81 | the header size of a version is one word for each field the version has |
| FdtCheck.AcceptedNested | kernel/device/libfdt/fdt_check.c:38-95 | accepted tokens are well nested: the depth is never negative, ends at zero, and a node at depth zero has an empty name |
| FdtCheck.AcceptedOneRoot | kernel/device/libfdt/fdt_check.c:38-95 | at most one top-level node: nothing but the end follows once the depth is back at zero |
| FdtCheck.AcceptedIff | kernel/device/libfdt/fdt_check.c:38-95 | tokens are accepted if and only if the depth is never negative and ends at zero, nodes at depth zero have empty names and an end that leads to depth zero is the last token |
| FdtCheck.CheckFull | kernel/device/libfdt/fdt_check.c:13-96 | from version 16 on, accepts only blobs with an acceptable header, a terminated reservation map and an acceptable token sequence up to the end tag, and accepts all of those below INT_MAX |
| FdtProps.ReadyReads | kernel/device/libfdt/fdt.c:162-221 | a blob that holds a layout reads as its tokens |
| FdtProps.AcceptedOffset | kernel/device/libfdt/fdt.c:223-245 | at the offset of a token of the tree the node test and the property test accept exactly tokens of that kind and answer with the offset of the next token |
| FdtProps.AcceptedLooks | kernel/device/libfdt/fdt.c:223-233 | for every blob, finished tree or not, the node test accepts an offset if and only if it is aligned, the node tag stands there inside the structure block, and a NUL follows inside it |
| FdtProps.AcceptedIsNode | kernel/device/libfdt/fdt.c:223-233 | an accepted offset is that of a node if and only if some token of the tree begins there |
| FdtProps.FalseNodeIff | kernel/device/libfdt/fdt.c:223-233 | for every offset: it is accepted without being a node if and only if it looks like a node and lies strictly inside a token or behind the beginning of the end tag |
| FdtProps.NoFalseNodeIff | kernel/device/libfdt/fdt.c:223-233 | for every blob: each accepted offset is that of a node if and only if no position strictly inside a token or behind the beginning of the end tag looks like a node |
| FdtProps.AcceptedInValue | kernel/device/libfdt/fdt.c:223-233 | a value that begins with the node tag and a NUL is a false node: its offset is accepted, the answer is 8 further, and no token begins there |
| FdtProps.AcceptedLength | kernel/device/libfdt/fdt.c:223-233 | the length word of every property of one byte is a false node, if its name offset is below 2^24 |
| FdtProps.NodeArgAlways | kernel/device/libfdt/fdt.c:223-233 | the callers' condition on the node offset holds of all offsets if and only if the blob has no false node |
| FdtProps.NextProp | kernel/device/libfdt/fdt_ro.c:201-223 | skips no-ops to the next property, or gives the error that belongs to the token found instead |
| FdtProps.GetProperty | kernel/device/libfdt/fdt_ro.c:394-422 | the offset of the first property of the node with that name, or the exact error |
| FdtProps.GetProp | kernel/device/libfdt/fdt_ro.c:451-467 | place and length of exactly the value a reader of the tokens sees, or the exact error |
| FdtNodes.HopMeans | kernel/device/libfdt/fdt.c:247-285 | with the depth counted from any start, the next stop of fdt_next_node skips no node at depth zero |
| FdtNodes.NextNode | kernel/device/libfdt/fdt.c:247-285 | from a node, or from the beginning for a negative offset: offset and depth of the next node, or of the place behind the end that closes too much, or not found; a bad offset is refused |
| FdtNodes.FirstSubnode | kernel/device/libfdt/fdt.c:287-296 | the first direct child, for a negative offset the first top-level node; not found exactly when there is none or the offset is not that of a node |
| FdtNodes.NextSubnode | kernel/device/libfdt/fdt.c:298-313 | the next sibling of any node, not found exactly when there is none or the offset is not that of a node |
| FdtNodes.ChildrenAreSiblings | kernel/device/libfdt/fdt.c:298-313 | behind a child of a node, the children of that node are exactly the siblings of the child |
| FdtNodes.ChildrenExactly | kernel/device/libfdt/fdt.c:287-313 | first and next together list exactly the direct children |
| FdtNodes.ForEachSubnode | kernel/device/libfdt/fdt.c:287-313 | the loop over subnodes meets all direct children once and in order, and none for a bad offset |
| FdtEdit.SetThenGet | kernel/device/libfdt/fdt_rw.c:258-289 | the property reads as the new value |
| FdtEdit.SetFrame | kernel/device/libfdt/fdt_rw.c:258-289 | every other property of every node reads as before |
| FdtEdit.SetKeepsNodes | kernel/device/libfdt/fdt_rw.c:258-289 | the sequence of nodes is unchanged |
| FdtEdit.EditedReady | kernel/device/libfdt/fdt_rw.c:54-95 | after a splice with the new token in place the blob holds the edited tokens, with all names and the end tag moved along |
| FdtEdit.ReadyFrame | kernel/device/libfdt/fdt_rw.c:97-116 | bytes behind the used part do not matter: growing the strings block or taking a name back keeps the tree |
| FdtSetProp.Blob.Splice | kernel/device/libfdt/fdt_rw.c:54-68 | moves everything behind the splice point exactly when the result fits; otherwise nothing changes |
| FdtSetProp.Blob.SpliceStruct | kernel/device/libfdt/fdt_rw.c:83-95 | additionally shifts structure size and strings offset by the difference |
| FdtSetProp.Blob.FindAddString | kernel/device/libfdt/fdt_rw.c:127-153 | the offset of a name that stands there already or of the one added at the end; fails exactly for want of room; the tree is unchanged |
| FdtSetProp.Blob.Resize | kernel/device/libfdt/fdt_rw.c:184-200 | the property found keeps its place and name with the new length; fails exactly for want of room and then changes nothing |
| FdtSetProp.Blob.Add | kernel/device/libfdt/fdt_rw.c:202-233 | a property right behind the node's begin; fails exactly when property and missing name do not fit, and then name and tree are as before |
| FdtSetProp.Blob.Placeholder | kernel/device/libfdt/fdt_rw.c:258-274 | resizes or adds, with the exact result code for every outcome |
| FdtSetProp.Blob.SetProp | kernel/device/libfdt/fdt_rw.c:276-289 | a walk afterwards reads the tree with that property set, or on every failure the old tree; the result code is exact |
| FdtSetProp.SetThenRead | kernel/device/libfdt/fdt_rw.c:276-289 | fdt_getprop on the same node returns exactly the bytes set while all nodes and every other property of every node read as before |
| FdtRoom.RoomIff | kernel/device/libfdt/fdt_rw.c:184-233 | on a node fdt_setprop succeeds if and only if the bytes in use, plus those by which the tokens grow, plus the name if the strings block does not hold it, are no more than the blob's size; otherwise it answers no space |
| QSort.Partition | kernel/utilities/algorithm/qsort.c:7-24 | the pivot ends with smaller elements before it and no smaller one behind, as a permutation of the range with the rest in place |
| QSort.Sort | kernel/utilities/algorithm/qsort.c:4-28 | the range becomes sorted, as a permutation, and nothing else moves |
| Sweep.CountPerm | kernel/device/memory.c:31-32 | how many positions are up to `x` does not depend on the order |
| Sweep.CountCover | kernel/device/memory.c:33-67 | the begins up to `x` are at least as many as the ends, and more exactly when some range covers `x`, however the ends are paired |
| Sweep.Gap | kernel/device/memory.c:53-67 | between two positions everything is covered or nothing is, as the counter says |
| Sweep.BeginEvent | kernel/device/memory.c:53-54 | a begin alone keeps the sweep's invariant |
| Sweep.EndEvent | kernel/device/memory.c:55-56 | an end alone keeps the sweep's invariant |
| Sweep.TieEvent | kernel/device/memory.c:43-52 | all begins and ends at one position together keep the sweep's invariant |
| Sweep.NextEvent | kernel/device/memory.c:37-56 | the branches and inner loops of the sweep yield exactly one of these events |
| Sweep.Update | kernel/device/memory.c:57-66 | the gap's beginning and the reported segments follow the change of the counter |
| Sweep.Run | kernel/device/memory.c:33-67 | the segments hold exactly the addresses no range covers, from the RAM's beginning on or behind a covered address, in increasing order and apart |
| Sweep.Align | kernel/device/memory.c:20-25 | begins are rounded down and ends up, page by page |
| Sweep.CalcAvailable | kernel/device/memory.c:14-68 | the same for the reserved ranges, the kernel image and the end of the RAM, all in place on the arrays; the output array is large enough |
| Sweep.AvailableExactly | kernel/device/memory.c:14-68 | from the RAM's beginning on, an address is reported if and only if it is below the rounded end and neither a rounded reserved range nor the kernel image covers it |
| Sweep.AvailableBelow | kernel/device/memory.c:14-68 | before the RAM's beginning, an address is reported if and only if it is not reserved but some address before it is |
| Sweep.SegmentsInRam | kernel/device/memory.c:14-68 | every reported address lies in the RAM if and only if no unreserved address below the RAM follows a reserved one |
| Sweep.RangesInRam | kernel/device/memory.c:14-68 | there is no such address if every reserved range begins in the RAM |
| Sweep.SegmentsArePages | kernel/device/memory.c:14-68 | the segments begin on page boundaries and consist of whole pages |
| Sweep.SegmentBelowRam | kernel/device/memory.c:57-65 | a reserved range below the RAM for which memory below the RAM is reported |
| Bootmem.Node.constructor | kernel/memory/bootmem.c:28-35 | all pages of a new node are reserved |
| Bootmem.Node.Free | kernel/memory/bootmem.c:166-179 | succeeds exactly if the rounded range lies in the node and every page of it was reserved, and then clears exactly these |
| Bootmem.Node.Reserve | kernel/memory/bootmem.c:56-69 | succeeds exactly if the rounded range lies in the node and every page of it was free, and then reserves exactly these |
| Bootmem.Node.FreeAll | kernel/memory/bootmem.c:38-43 | for segments in the node that do not overlap no free panics, and afterwards exactly their pages are free |
| Bootmem.Node.Init | kernel/memory/bootmem.c:38-54 | no panic exactly if the map's pages lie in the available segments; afterwards exactly the pages of the segments behind the map are free |
| Bootmem.Node.Scan | kernel/memory/bootmem.c:102-118 | the first run of free pages from the start position on, or none exactly when there is none |
| Bootmem.Node.Mark | kernel/memory/bootmem.c:159-161 | never panics and marks exactly the pages |
| Bootmem.PlaceKeeps | kernel/memory/bootmem.c:126-158 | whichever branch places a request, regions lie in pages that were free after initialisation and have been marked |
| Bootmem.PlaceTouches | kernel/memory/bootmem.c:126-161 | no page is marked that holds no byte of a region |
| Bootmem.PlaceApart | kernel/memory/bootmem.c:126-158 | regions stay apart exactly off one path, the one that appends with alignment 0, where the new region lies over an earlier one |
| Bootmem.RoundUpForward | kernel/memory/bootmem.c:129-129 | rounding up does not lead back into the used bytes if and only if the alignment is not 0 |
| Bootmem.ZeroAlignmentOverlaps | kernel/memory/bootmem.c:126-142 | on a node of three pages a request of 8 bytes with alignment 0 is given the address of the 8 bytes before it |
| Bootmem.AlignedAbovePage | kernel/memory/bootmem.c:93-118 | the address of a page is aligned to more than a page if and only if the page number is a multiple of that many pages |
| Bootmem.LargeAlignmentIgnored | kernel/memory/bootmem.c:93-118 | the second of two requests aligned to two pages is given an address that is not aligned, because the scan advances by single pages |
| Bootmem.NoOffset | kernel/memory/bootmem.c:79-82 | for alignments up to a page the scan may begin at page 0 |
| Bootmem.GoalHonoured | kernel/memory/bootmem.c:85-90 | with a page of the node as goal the scan begins exactly at that page, for alignments up to a page |
| Bootmem.FitNone | kernel/memory/bootmem.c:74-122 | as a function of the map before the call, the page found is none if and only if the size is 0, the alignment is malformed or no run of free pages begins at the first admissible page or later |
| BootmemPlaces.FirstAdmissible | kernel/memory/bootmem.c:78-82 | with an alignment above a page the scans may begin at the first page of the node whose number is a multiple of it |
| BootmemPlaces.PreferredAligned | kernel/memory/bootmem.c:85-92 | with an alignment above a page the first scan begins at such a page too, and not before a goal inside the node |
| BootmemPlaces.PlaceExact | kernel/memory/bootmem.c:126-158 | a request whose first fit is the page behind the one used last begins, for alignments up to a page and unless that page is full, at the first aligned byte behind the bytes used last, any other one at its first fit; exactly the pages from there to its last byte are marked, and the byte behind it is where the next one may begin |
| BootmemPlaces.NoPageMarkedIff | kernel/memory/bootmem.c:126-139 | no page is marked if and only if the request is appended and fits on the page used last |
| Bootmem.Node.Alloc | kernel/memory/bootmem.c:71-164 | NULL exactly for size 0, an alignment that is neither 0 nor a power of two, or no run of free pages from the first admissible page on; otherwise the region goes to the first fit from the preferred page on, or right behind the bytes used last, the map and the page used last change accordingly, and the region is apart from all others exactly unless it is appended with alignment 0; it is aligned as asked up to a page, and above a page if and only if the page that `Fit` computes from the map before the call is a multiple |
| Bootmem.Serve | kernel/memory/bootmem.c:71-164 | in every run of requests with alignments other than 0 the node ends as the requests leave it one by one, an address is returned exactly where the map at that moment has room, and all ranges returned are pairwise disjoint and aligned as asked, up to a page |
| Boot.Bounds | kernel/memory/bootmem.c:15-29 | the loop finds the least first page and the greatest end page of the segments |
| Boot.StartNode | kernel/memory/bootmem.c:45-54 | the node spans exactly from the first to the last available page; it starts exactly if its map lies in available memory, and then exactly the available pages behind the map are free |
| Boot.HandOver | kernel/memory/buddy.c:21-28 | where the pair maps are large enough, the free lists built from the boot map cover exactly the available pages that hold neither the map nor a region handed out before |
| Boot.StartUp | kernel/memory/kmem.c:39-49 | the whole chain from the reserved ranges to the free lists, with any boot requests and the pair maps: it gets through if and only if there is available memory, the map lies in it, the pair maps are large enough and each of them that has a byte finds a run of free pages in the map as the requests before it leave it; then a page is listed if and only if it is reported available and holds neither the map nor a boot region |
| Boot.MapsThereIff | kernel/memory/buddy.c:16-20 | the calls for the pair maps all return memory, where any is asked for, if and only if each finds a run of free pages in its turn |
| Boot.MapsMissing | kernel/memory/buddy.c:16-20 | a memory of 67584 pages, all but four reserved: the map fits and the pair maps are large enough, but bootmem_alloc has no two pages for the one of order 0, a NULL the code does not look at |
| Objects.SlotsApart | kernel/memory/object.c:145-161 | slots lie behind the block's head, inside the block, one unit apart |
| Objects.Block.constructor | kernel/memory/object.c:132-163 | the carving makes exactly as many slots as fit, all free, in one well-formed chain |
| Objects.Block.Carve | kernel/memory/object.c:145-161 | the loop ends with every unit that fits linked into the free chain |
| Objects.LiveCount | kernel/memory/object.c:29-38 | the slots handed out are as many as the block has exactly when the free chain is empty |
| Objects.Block.Take | kernel/memory/object.c:29-38 | panics exactly when all slots are handed out; otherwise the first slot of the free chain moves to the allocated chain and both chains still split the slots |
| Objects.Block.Release | kernel/memory/object.c:92-94 | exactly that slot moves back to the free chain |
| Objects.ReleaseThenTake | kernel/memory/object.c:29-97 | the slot given back last is handed out first |
| ObjectManager.ObjectsApart | kernel/memory/object.c:145-161 | any two slots, of one block or of two, are at least one unit apart |
| ObjectManager.Manager.LiveAligned | kernel/memory/object.c:148-161 | every object begins at a multiple of 8 |
| ObjectManager.Smallest | kernel/memory/object.c:65-68 | the smallest order whose block holds one unit |
| ObjectManager.RoomAt | kernel/memory/object.c:65-68 | a free run of any order that holds a unit means there is one of the smallest such order |
| ObjectManager.Manager.CreateBlock | kernel/memory/object.c:123-164 | a block in pages that were free, all its slots free, or null exactly when no run of the order is free |
| ObjectManager.Manager.FindBlock | kernel/memory/object.c:47-55 | the first block with a free slot, or none exactly when all are full, and then the bytes in use in all blocks |
| ObjectManager.FirstOrder | kernel/memory/object.c:61-63 | the smallest order that holds more than the bytes in use, or the largest |
| ObjectManager.Manager.NewBlock | kernel/memory/object.c:61-76 | a block with a free slot exactly when the page manager has a run of the smallest order that holds a unit; its order is the largest with a free run that is not above the first one for more than the bytes given; otherwise nothing changes |
| ObjectManager.Manager.Alloc | kernel/memory/object.c:40-83 | NULL exactly when every block is full and the page manager has no run of the smallest order that holds a unit; otherwise one object more, different from and apart from all live ones: from the first block with a free slot, or else from a new one, whose order is the largest with a free run not above the first one for more than four units and the bytes in use; the page map changes at most by the pages of this block, which were free |
| ObjectManager.OthersApart | kernel/memory/object.c:40-83 | objects of two managers whose blocks are apart do not overlap, whatever their sizes |
| ObjectManager.AllocBeside | kernel/memory/object.c:40-83 | an allocation by one manager keeps another one valid, its objects the same, the blocks of the two apart and every page in use in use |
| ObjectManager.Manager.Free | kernel/memory/object.c:85-97 | exactly that object is no longer live |
| ObjectManager.Manager.FreeBlock | kernel/memory/object.c:99-120 | panics exactly if an object of the block is live; otherwise exactly its pages return to the page manager, the other blocks and all objects stay |

## Left out

- Buddy.PageManager.constructor: requires `AreaFits` of every order; without it the code tests and flips bits behind the pair maps, which the model does not follow.
- Buddy.PageManager.FreePage: the address must be that of a managed page or unaligned; for other addresses the code indexes outside its map.
- Buddy.PageManager.FreePages: the same for all pages of the range.
- BuddyRuns.Execute: the same for every free among the calls.
- Vm.Machine.MapPages: flag words of more than ten bits are excluded, which would change the page number of an entry, and ranges that end less than a page below 2^64, where the bound of the loop wraps.
- VmRestore.MapThenUnmap: the same, and with `do_free` the frames must be managed, in use and no tables, as kmem_free_page demands.
- VmReap.Reap: requires that every mapped page carries R, W or X, the exact condition of VmReap.GuardTellsIff; without it the code walks into a data page, which the model does not follow.
- VmReap.ReapEntry: the same.
- VmReap.WholeTree: the same.
- VmFork.CopySpace: pages of the parent with neither R nor X are not promised a copy, the exact condition being that of VmFork.AllCopiedIff; free pages are required to hold zeros, as VmFork.UnclearedTable shows they must. Where the source would write through a null page because the page manager is out of pages, the model stops with a failure.
- VmInherit.MapThenCopy: what Vm.Machine.MapPages and VmFork.CopySpace ask for, and the frames must be pages of memory that are neither free nor tables.
- VmFork.AllCopiedIff: no older entry of the child may map a page that is free.
- VmBytes.CopyOut: the places the range translates to are required to be different from each other and no tables; where they are not, the order of the stores would show.
- VmBytes.OutThenIn: the same.
- FdtWriter.Writer.AddString: where the copy of a name that is too long would begin before the buffer, the model stops, as do its callers. Names longer than INT_MAX are excluded.
- FdtWriter.Writer.NameOffset: names longer than INT_MAX are excluded.
- FdtWriter.Writer.Property: names and values longer than INT_MAX are excluded.
- Sleeplock.StepInv: a release is a step of the holder only, though the code does not test it; what a release by any other process does is SleeplockForeign.ForeignRelease.
- Sleeplock.RunInv: the same.
- FdtProps.GetProperty: the node offset must not be a false node, the condition FdtProps.FalseNodeIff makes exact for an offset and FdtProps.NodeArgAlways for a blob; the blob must hold a finished tree of version 17 or later.
- FdtProps.GetProp: the same.
- FdtNodes.NextNode: the same.
- FdtNodes.FirstSubnode: the same.
- FdtNodes.NextSubnode: the same.
- FdtNodes.ForEachSubnode: the same.
- FdtSetProp.Blob.Placeholder: the same, and values and names so long that the aligned length overflows a C int are excluded.
- FdtSetProp.Blob.SetProp: the same.
- FdtExact.GetStringIff: headers that fdt_check_header refuses because the strings block begins behind the end of the blob are excluded.
- FdtExact.PropTagIff: blobs of INT_MAX bytes are excluded.
- FdtRoundTrip.WriteTree: nothing is said of reading a blob of INT_MAX bytes, which the readers refuse.
- FdtCheck.CheckFull: versions below 16 are excluded, since the root's name then is a path.
- Bootmem.Node.Alloc: the bytes cleared by memset are not modelled.
- Bootmem.Serve: requests with alignment 0 are excluded, since Bootmem.PlaceApart shows that their regions may overlap.
- Boot.HandOver: requires `AreaFits` of every order, as Buddy.PageManager.constructor does.
- Boot.StartUp: stops without available memory, where the source goes on with the initial values of the bounds, where a pair map would be too small, and where one is NULL, which the source writes through; boot requests with alignment 0 are excluded.
- ObjectManager.Manager.Free: the block and slot that the header of the object names are arguments, since header bytes are not modelled; by ObjectManager.ObjectsApart the address determines them.
- Spinlocks around allocator calls: each call is one atomic step; the lock protocol is proved separately.
- List nodes live in link arrays and not in the bytes of the free pages; header fields of device tree blobs live in a record and not in bytes 0 to 39.
- Weak memory: test-and-set and fences are atomic steps of a sequentially consistent interleaving.
- Scheduler, context switch, process exit and creation, traps, system calls.
- Superpages, boot-time mapping, satp and TLB flushes; vm_reap_pagetable_force and the user page table setup.
- The list of object managers; bootmem_free after initialisation.
- open_into, pack, overlays, path lookup and the other editing calls of libfdt; fdt_next_node without a depth; node names before version 16.
- Devices, console and user programs.
