# MiniCore, verified

MiniCore is a teaching kernel for one RV64 hart: Sv39 page tables over a page
allocator and a slab heap, processes with private address spaces, a round-robin
scheduler, wait queues, pipes, descriptors, a name space with a boot archive and
tmpfs, an ELF loader and a device-tree parser. This project models its logic in
Dafny and proves what its design promises. `dafny verify dfyconfig.toml` checks
everything.

The model keeps the kernel's own form. What the kernel updates in place is a class
(`Memory`, `AddressSpace`, `Scheduler`, `Pipe`, `FileTable`, `Processes`, `OpenFile`,
`FileSystem`), and each loop of the source is a loop with invariants, proved against
a function or property of the state before. What spans many calls is a theorem about
every run of a step relation, and the methods are proved to take exactly such steps.

| modules | subject |
|---|---|
| Common, Chunks | notions shared by the rest |
| Physical, PageAlloc, PageInit, Heap | page frames, the free list and its first contents, the slab heap |
| PteWords, PageTable, Vm, VmUser | entries as 64-bit words; the three-level tree as a map from pages to entries |
| Space, SpaceSteps, SpaceOps, Neutral, Areas | the address-space invariant, its primitive steps, resource neutrality |
| UserView, AddressSpaces, Break, Unmapping, Lifecycle, UserCopy | what a program sees at each address; mmap, brk, munmap, creation, cloning, destruction, copies to and from user memory |
| Worlds | all address spaces together, over whole runs |
| Scheduling, Threads | the thread machine and the loops that drive it |
| Pipes, PipeProtocol | the ring buffer, and any number of readers and writers over it |
| Files, Descriptors | reference counts of open descriptions and pipe ends |
| PipeLifetime | the two together: no pipe goes while a thread is inside it |
| Family, ExitStatus | fork, exit, adoption, reaping, waitpid; the status a wait reports, over whole runs |
| Tmpfs, Transfers | sparse files, and read and write between files and user memory |
| Newc, NewcFormat, Namespace, Vfs, PathRules, Opening, BootTree | the boot archive, its writer and its layout, path resolution and its rules, getcwd, creating opens, the boot tree |
| WorkingDirectory | working directories over whole runs |
| Exec, Loader, FirstStack, ElfFormat, ElfLoad, ExecRequest | from the bytes of an executable to a complete image with its first stack |
| Dtb, Fdt, TreeContents, FdtParser, DtbFormat | the flattened device tree: the parser, what a tree describes, and its bytes |

## Where the kernel falls short

Five promises do not hold without a condition. Each has its exact condition as a
theorem.

- A sleep whose wake time is tick number 0 modulo 2 to the 64 never ends, because 0
  also means "no wake time" (`Scheduling.LostStep`, `Scheduling.RunLoses`; from boot,
  `Scheduling.LostRun`).
- A sleep lasts as many ticks as asked if and only if the clock does not wrap on the way,
  with one exception (`Scheduling.SleepLasts`; from boot, `Scheduling.ShortRun`).
- A process that exits and leaves a reapable child to the first process does not wake
  it, so a waitpid(-1) of the first process can sleep on (`Family.StepKeeps`,
  `Family.OrphanRun`). No other process ever misses an exit (`Family.RunKeeps`).
- Between the exit of the first process and the end of its thread, the exit of another
  process still hands its children to it, and their parent pointer dangles afterwards
  (`Family.StepKeeps`, `Family.DoomedDangles`, `Family.DoomedRun`). The comment in the
  source says that the first process adopts every descendant; the code does so even
  when it is dying, and the model follows the code.
- Overlapping memory ranges in the device tree put pages on the free list twice
  (`PageInit.DistinctExactly`, `PageInit.OverlapExample`); the parser neither merges
  nor refuses them.

## Model

| member | source | states |
|---|---|---|
| PageInit.IsReserved | src/mm/page_alloc.c:34-51 | true of exactly the pages that meet the kernel, the device tree, the firmware below the kernel or a reserved range |
| PageInit.FindFirmware | src/mm/page_alloc.c:65-74 | the firmware starts at the base of the first memory range that holds the kernel, with the sum of base and size in 64 bits, and at the kernel if none does |
| PageInit.PushRange | src/mm/page_alloc.c:76-95 | every unreserved whole page of the range goes on the free list once more than before, and no other page does |
| PageInit.Init | src/mm/page_alloc.c:53-97 | succeeds exactly when the kernel is not empty, no range wraps around and some page is left; then every page is listed as often as unreserved memory describes it |
| PageInit.InRangeIs | src/mm/page_alloc.c:76-84 | a page counts as part of a memory range if and only if every one of its addresses lies in the range, at the top of the address space too |
| PageInit.OverlapIs | src/mm/page_alloc.c:21-32 | a page overlaps a range if and only if they have an address in common |
| PageInit.ListedExactly | src/mm/page_alloc.c:34-97 | address by address: a page is on the first free list if and only if it lies wholly in one memory range, none of its addresses is in the kernel, the device tree or a reserved range, and it does not start between firmware and kernel |
| PageInit.DistinctExactly | src/mm/page_alloc.c:76-95 | the first free list has no repetition if and only if no unreserved page lies in two memory ranges |
| PageInit.OverlapExample | src/mm/page_alloc.c:76-95 | a memory map that describes a page twice, for which the first free list holds that page twice |
| PageInit.StartsSound | src/mm/page_alloc.c:53-97 | with disjoint memory ranges the first free list satisfies the allocator invariant and lists exactly the unreserved pages |
| PageAlloc.Alloc | src/mm/page_alloc.c:99-112 | takes the head of the free list, or fails exactly when the list is empty; the invariant is kept |
| PageAlloc.Free | src/mm/page_alloc.c:114-127 | puts the page at the head as a raw page; the null page is ignored; the invariant is kept if and only if the page was not free already |
| Heap.RoomIsQuotient | src/mm/heap.c:42-56 | the number of objects a slab page is cut into is the usable room divided by the object size |
| Heap.Carve | src/mm/heap.c:37-59 | the carving loop makes a free list of all the aligned, in-page object slots of a class, each once |
| Heap.NewSlab | src/mm/heap.c:37-59 | a fresh page is carved and appended to its class list; failure, exactly when no page is free, changes nothing |
| Heap.ClassFor | src/mm/heap.c:68-75 | the smallest class that fits, or none exactly for requests over 2048 bytes |
| Heap.ClassSizes | src/mm/heap.c:24-26 | the eight sizes: 16 bytes, each the double of the one before, up to 2048 |
| Heap.FindSlab | src/mm/heap.c:78-86 | finds a slab of the class with a free object exactly when there is one |
| Heap.Kmalloc | src/mm/heap.c:61-101 | hands out an object that nobody holds, of the smallest class that fits; fails exactly when the request is too large or neither a slab of that class nor the free list has anything, and then changes nothing; takes a page only when no slab of the class can serve; the object has at least the bytes asked for and less than twice as many, 16 for requests up to 16, and a request up to 2048 fails only when no page is free |
| Heap.Kfree | src/mm/heap.c:103-135 | takes exactly one object out of the live set; free pages and slab pages together stay the same pages |
| Heap.SlabsAreLiveFrames | src/mm/heap.c:103-135 | at any time the heap keeps exactly the pages that hold a live object, so empty slabs are always given back |
| Heap.LiveObjectsDisjoint | src/mm/heap.c:37-101 | two live objects never overlap, lie inside their page and never touch the slab header |
| PteWords.TableEntry | src/mm/vm.c:19-27 | packing a page address into a table entry and unpacking it gives it back, and the entry is a branch |
| PteWords.LeafEntry | src/mm/vm.c:39-54 | a leaf entry gives back its page address and its flags, is valid and accessed, is dirty exactly when writable, and is never read as a branch |
| PteWords.LeafInjective | src/mm/vm.c:47-54 | equal leaf entries come from equal pages and flags |
| PteWords.SlotOnlyIf | src/mm/vm.c:34-37 | addresses that use the same three table indices agree in bits 12 to 38 |
| PteWords.SlotIf | src/mm/vm.c:34-37 | addresses that agree in bits 12 to 38 use the same three table indices |
| PteWords.HalvesAlias | src/mm/vm.c:13-17 | the indices alone are not injective: both canonical halves of the address space meet in one slot |
| PteWords.UserSlots | src/mm/vm.c:34-37 | below the user limit the three indices determine the page |
| PageTable.SetLeaf | src/mm/vm.c:111-124 | writing a slot of a level-0 table changes the page map at exactly that page and keeps the tree sound |
| PageTable.GrowMid | src/mm/vm.c:93-101 | hanging an empty level-1 table changes no translation and keeps the tree sound |
| PageTable.GrowLow | src/mm/vm.c:93-101 | hanging an empty level-0 table changes no translation and keeps the tree sound |
| PageTable.CutLow | src/mm/vm.c:160-165 | cutting an empty level-0 table changes no translation and keeps the tree sound |
| PageTable.CutMid | src/mm/vm.c:160-165 | cutting an empty level-1 table changes no translation and keeps the tree sound |
| PageTable.TableCount | src/mm/vm.c:135-168 | a tree without empty tables has exactly one table per needed place: the number of table pages is a function of the set of mapped pages |
| Vm.Walk | src/mm/vm.c:83-109 | a creating walk reaches the level-0 table exactly when the address is canonical and the free list holds as many pages as the path lacks tables; it takes exactly that many, and never changes a translation |
| Vm.Find | src/mm/vm.c:83-109 | a walk that does not create finds the level-0 table exactly when it exists |
| Vm.Map | src/mm/vm.c:111-124 | succeeds exactly when aligned, flags valid, canonical, unmapped and enough pages are free; adds exactly one translation on success and none on failure; a tree without empty tables stays one on success; the new entry is valid, accessed, dirty exactly if writable, points to the page and has each permission exactly if asked |
| Vm.Unmap | src/mm/vm.c:135-168 | succeeds exactly when the page is mapped; removes exactly that translation and returns every table that became empty |
| Vm.TrimPath | src/mm/vm.c:160-165 | walking back up returns each table that is now empty, and leaves none behind |
| Vm.Protect | src/mm/vm.c:170-183 | succeeds exactly when the page is mapped and the flags are valid; changes only its permissions |
| Vm.Query | src/mm/vm.c:185-198 | answers exactly what the page map says |
| VmUser.CreateUser | src/mm/vm.c:67-81 | a new root maps nothing in the user half and shares every kernel entry; fails exactly when no page is free |
| VmUser.DestroyUser | src/mm/vm.c:200-240 | returns every table page of the user half and the root, each once, and touches nothing else |
| VmUser.PruneUser | src/mm/vm.c:245-270 | removes every empty table and changes no translation |
| Neutral.SameLeavesSameTableCount | src/mm/vm.c:135-168 | two trees without empty tables that translate alike have equally many table pages, whatever their history |
| Neutral.SameRecordsNeutral | src/mm/address_space.c:59-99 | an operation that ends with the records it began with leaves the same heap objects, slab pages, translations, number of tables and number of free pages |
| AddressSpaces.AddressSpace.AddPage | src/mm/address_space.c:59-99 | adds one zero-padded page with its record and translation, or restores everything it took at whatever step it failed; succeeds whenever the request is proper, the page new and four pages are free |
| AddressSpaces.AddressSpace.Vacant | src/mm/address_space.c:216-223 | true exactly when no reservation meets the range |
| AddressSpaces.AddressSpace.Reserve | src/mm/address_space.c:225-235 | appends one reservation for a proper vacant range, or restores everything |
| AddressSpaces.AddressSpace.RemovePages | src/mm/address_space.c:237-248 | removes exactly the pages of the range from ledger and page table and frees them |
| AddressSpaces.AddressSpace.Populate | src/mm/address_space.c:282-291 | maps the pages of a range in order with the source bytes and zero padding; says how far it got |
| AddressSpaces.AddressSpace.Place | src/mm/address_space.c:266-276 | the requested address if it fits in the window, else the lowest place that fits, else none |
| AddressSpaces.AddressSpace.Mmap | src/mm/address_space.c:250-299 | each refusal exactly when its condition, written out over the arguments, holds; after success at r, unless no access was asked for, the byte a program sees at r+i is byte offset+i of the file if that is inside the file and 0 otherwise, 0 for an anonymous mapping, each address of the rounded range is readable, writable and executable exactly as asked, and every other address shows what it showed; a failure at any step changes no address and restores ledger, reservations, translations and free pages; out of memory only if no place fits or too few pages are free |
| AddressSpaces.MappingSeen | src/mm/address_space.c:265-299 | pages that hold the slices of a source are seen as one run of its bytes, zero beyond its end, with the permissions asked for |
| UserView.PageSeen | src/mm/address_space.c:59-99 | inside a page of the ledger a program sees the bytes of its frame, and may read, write and execute exactly as its record says |
| UserView.NothingSeen | src/mm/address_space.c:59-99 | outside every page of the ledger no address is accessible |
| UserView.SamePagesSeen | src/mm/address_space.c:59-99 | an address in the same page with the same bytes before and after, or in none, shows the same |
| Unmapping.Check | src/mm/address_space.c:307-318 | refuses exactly ranges that meet the heap, the stack or the program; allocates a record beforehand exactly when one reservation must be split, and is out of memory exactly when that record cannot be had |
| Unmapping.TrimAreas | src/mm/address_space.c:320-331 | walks the reservation list, cutting, splitting or dropping each so that the range is subtracted |
| Unmapping.TrimSubtracts | src/mm/address_space.c:320-331 | trimming a list of reservations subtracts the range: what remains covers exactly what was covered outside it |
| Unmapping.SplitSubtracts | src/mm/address_space.c:320-331 | the same when the range lies inside one reservation, which becomes two |
| Unmapping.Munmap | src/mm/address_space.c:301-334 | each of the three errors if and only if its condition, written out, holds, with nothing changed; success leaves no address of the range accessible and every other address as it was, removes exactly the pages of the range and subtracts it from the reservations |
| Break.Brk | src/mm/address_space.c:336-372 | a query reports; growth makes every address up to the rounded new break a writable zero, shrinking leaves none above it accessible, and every other address shows what it showed; a failed request changes nothing, and one that is in range and vacant fails only for want of pages |
| Lifecycle.Init | src/mm/address_space.c:26-35 | an empty address space that takes one page, or nothing |
| Lifecycle.Destroy | src/mm/address_space.c:37-57 | every table, page and record is returned exactly once: the free and slab pages afterwards are all the pages the space could use |
| Lifecycle.Clone | src/mm/address_space.c:101-131 | every user address shows in the copy the byte and the permissions it shows in the original, which is untouched; reservations and break are the same, on pages of its own; failure at any step gives back everything; succeeds whenever enough pages are free |
| Lifecycle.Isolation | src/mm/address_space.c:59-372 | whatever one address space does, every other keeps its invariant, its translations and its bytes |
| Lifecycle.CopyUndone | src/mm/address_space.c:105-131 | dissolving a half-built copy gives back exactly what it took |
| UserCopy.Validate | src/mm/address_space.c:198-214 | true exactly when every byte of the range is mapped with the permission asked for |
| UserCopy.CopyFrom | src/mm/address_space.c:155-193 | succeeds exactly when the range is readable, and returns the bytes of user memory in order |
| UserCopy.CopyTo | src/mm/address_space.c:155-193 | succeeds exactly when the range is writable; user memory then differs from before by exactly the data; a failure has written a prefix and stops at an unwritable byte |
| UserCopy.ValidatedPieces | src/kernel/fd.c:52-72 | a range checked once stays accessible piece by piece while translations stay the same |
| Worlds.WorldKept | src/mm/address_space.c:26-372 | any step of any process keeps all address spaces sound and separate |
| Worlds.RunKept | src/mm/address_space.c:26-372 | over every run the same set of pages is free, in the heap or owned by one space: none is lost or shared |
| Worlds.RunRestores | src/mm/address_space.c:37-57 | a run that ends with the address spaces and heap objects it began with ends with as many free pages |
| Worlds.ReadsStay | src/mm/address_space.c:26-372 | a space that takes no step reads the same bytes at the end of every run, so writes after a fork stay private |
| Worlds.CloneReads | src/mm/address_space.c:101-131 | original and copy read the same byte at every address right after cloning |
| Threads.Scheduler.constructor | src/kernel/scheduler.c:156-182 | starts with the bootstrap thread running and the idle thread ready, which satisfies the invariant with no thread lost |
| Threads.Scheduler.PickNext | src/kernel/scheduler.c:77-97 | the loop finds the thread whose turn it is: the first ready one after the current in list order, round to the current itself, or idle exactly when none but idle is ready |
| Scheduling.ScanStops | src/kernel/scheduler.c:77-97 | the scan stops at a ready thread with none ready before it, and ends in idle exactly when none is ready |
| Scheduling.PickInTurn | src/kernel/scheduler.c:77-97 | the pick is the ready thread with the fewest list places from the current one, counted cyclically, idle left out; idle if there is none |
| Scheduling.SwitchInTurn | src/kernel/scheduler.c:99-113 | a switch makes that thread the current and running one and changes nothing else |
| Threads.Scheduler.Switch | src/kernel/scheduler.c:99-113 | the thread whose turn it is becomes the running one, and no other state changes |
| Threads.Scheduler.Create | src/kernel/scheduler.c:115-154 | a new thread is ready, without wake time and at the end of the list, or nothing changes when there is no memory |
| Threads.Scheduler.Yield | src/kernel/scheduler.c:208-216 | the current thread becomes ready and the one whose turn it is runs; the invariant is kept |
| Threads.Scheduler.Sleep | src/kernel/scheduler.c:218-231 | the caller sleeps with wake time tick plus duration modulo 2 to the 64, or only yields for duration 0, and the thread whose turn it is runs; keeps the invariant, and loses a thread if and only if it is the caller and that sum is 0 |
| Threads.Scheduler.BlockCurrent | src/kernel/scheduler.c:233-237 | the current thread sleeps at the end of the queue, and the one whose turn it is runs |
| Threads.Scheduler.WakeOne | src/kernel/sync.c:63-69 | the first waiter leaves the queue and becomes ready, if there is one |
| Threads.Scheduler.WakeAll | src/kernel/sync.c:71-75 | empties the queue and makes exactly its waiters ready |
| Threads.Scheduler.Tick | src/kernel/scheduler.c:248-268 | counts the tick, makes ready exactly the sleepers whose wake time is set and reached, clears their wake time, and preempts to the thread whose turn it is; the invariant is kept |
| Threads.Scheduler.Exit | src/kernel/scheduler.c:295-302 | the current thread is dead and the one whose turn it is runs |
| Threads.Scheduler.Reap | src/kernel/scheduler.c:304-323 | removes exactly the dead threads that are neither current nor idle, each reported once, and keeps the others in order |
| Scheduling.LivingOrder | src/kernel/scheduler.c:304-323 | which threads stay, and that they stay in order |
| Scheduling.StepKeeps | src/kernel/scheduler.c:77-323 | every event keeps: one running thread, which is current; idle always ready; queues hold exactly their sleepers, each once; wake times only on sleepers |
| Scheduling.LostStep | src/kernel/scheduler.c:218-231 | a step leaves a thread asleep in no queue and without a wake time if and only if it was so before, or it is the caller of a sleep until tick number 0 |
| Scheduling.RunKeeps | src/kernel/scheduler.c:77-323 | the invariant holds at every point of every run |
| Scheduling.RunLoses | src/kernel/scheduler.c:218-231 | over every run the lost threads are exactly those that made such a sleep, and they stay lost |
| Scheduling.LostRun | src/kernel/scheduler.c:218-231 | a run of two events from boot in which the bootstrap thread is lost |
| Scheduling.SleepLength | src/kernel/scheduler.c:218-231 | counting from tick T, the n-th tick is the first to show a time at or past T + n if and only if that sum does not wrap, one exception included |
| Scheduling.SleepsOn | src/kernel/scheduler.c:248-268 | over any run a timed sleeper stays asleep until the clock reaches its time, whatever else happens |
| Scheduling.WakesThen | src/kernel/scheduler.c:248-268 | and is up after the tick that does |
| Scheduling.SleepLasts | src/kernel/scheduler.c:218-268 | in every run after a sleep of n ticks, its thread sleeps until the n-th tick and is up right after it if and only if the clock does not wrap on the way, one exception included |
| Scheduling.ShortRun | src/kernel/scheduler.c:218-268 | a run from boot, of 2 to the 64 less 2 ticks, after which a sleep of 4 ticks ends with the first |
| Scheduling.SwitchNearer | src/kernel/scheduler.c:77-113 | every switch runs a ready thread or brings its turn nearer |
| Scheduling.FairStep | src/kernel/scheduler.c:77-113 | whatever happens, a ready thread runs next or stays ready and comes no further from its turn, nearer at every switch |
| Scheduling.RunsSoon | src/kernel/scheduler.c:77-113 | in every run with a fixed set of threads a ready thread runs within as many switches as there are other threads |
| Pipes.RingDrop | src/fs/pipe.c:25-30 | moving head and count drops the oldest bytes of the ring and nothing else |
| Pipes.RingPush | src/fs/pipe.c:44-47 | storing behind the last byte appends to the ring contents, across the wrap |
| Pipes.Pipe.Take | src/fs/pipe.c:18-34 | the copy loop returns the oldest bytes in order and leaves the rest |
| Pipes.Pipe.Put | src/fs/pipe.c:36-51 | the copy loop appends the bytes in order |
| Pipes.Pipe.ReadTurn | src/fs/pipe.c:18-34 | sleeps exactly while the pipe is empty, a writer is open and bytes are asked for; else returns the oldest bytes, as many as the smaller of the size asked for and the bytes held, takes exactly those out, and wakes all writers |
| Pipes.Pipe.WriteTurn | src/fs/pipe.c:36-51 | of something: broken pipe exactly when the read end is closed, sleep exactly when that is open and the pipe full; else accepts the first bytes offered, as many as the smaller of their number and the room left, in order, and wakes all readers |
| Pipes.Pipe.Release | src/fs/pipe.c:53-64 | closes one end, wakes both sides, and says whether both are closed now |
| PipeProtocol.FreshPipe | src/fs/pipe.c:70-85 | a pipe as created satisfies the invariant of the protocol |
| PipeProtocol.RunKeepsOrder | src/fs/pipe.c:18-64 | over every run of any number of readers and writers, bytes delivered followed by bytes held are exactly bytes accepted, and capacity is never exceeded |
| PipeProtocol.TurnMoves | src/fs/pipe.c:18-51 | a turn of a read delivers, and a turn of a write accepts, as many bytes as the smaller of what was asked and what there is, the oldest held or the first offered, and touches nothing else |
| PipeProtocol.CallsAreEntered | src/fs/pipe.c:18-51 | a call in progress is the one its thread entered with, in every run |
| PipeProtocol.DeliveredAsAsked | src/fs/pipe.c:18-34 | in every run each delivery is made by a reader and is as large as the smaller of the size that reader asked for and the bytes held |
| PipeProtocol.AcceptedAsAsked | src/fs/pipe.c:36-51 | in every run each acceptance takes the first bytes of what its writer offered, as many as the smaller of their number and the room left |
| PipeProtocol.SleeperMustWait | src/fs/pipe.c:18-51 | no lost wake-up: whoever sleeps on the pipe would go to sleep again if it ran now |
| PipeProtocol.NoDeadlock | src/fs/pipe.c:18-51 | a reader and a writer are never asleep at the same time |
| PipeProtocol.EndOfFile | src/fs/pipe.c:18-34 | a read returns nothing if and only if the writer is closed and everything accepted was delivered |
| PipeProtocol.EndOfFileIsFinal | src/fs/pipe.c:18-64 | after end of file every later read in every run returns nothing again |
| PipeProtocol.DeliveredGrows | src/fs/pipe.c:18-51 | what was delivered or accepted is never taken back or reordered |
| PipeProtocol.BrokenExactly | src/fs/pipe.c:36-51 | a write fails with a broken pipe if and only if the read end is closed |
| PipeProtocol.BodyUnused | src/fs/pipe.c:53-64 | when both ends are closed no thread is inside a call and both wait queues are empty |
| PipeLifetime.Born | src/fs/pipe.c:70-85 | the call that makes a pipe starts a run in which pipe and descriptors agree |
| PipeLifetime.ClosesUnused | src/fs/pipe.c:53-64 | a descriptor call closes an end only when no thread is inside a call through it, because each such thread holds a reference |
| PipeLifetime.JKeeps | src/fs/pipe.c:18-64 | every move of a reader or writer and every descriptor call of any process keeps pipe protocol, reference counts and the agreement of the two |
| PipeLifetime.FreedUnused | src/fs/pipe.c:53-64 | over every such run, once the body of a pipe is freed nobody is inside a call on it or asleep on it |
| Descriptors.FileTable.Get | src/fs/vfs.c:348-352 | takes a reference into the hand of the caller: every count is the number of holders, the hand included |
| Descriptors.FileTable.Put | src/fs/vfs.c:354-366 | gives the reference back; the description goes if and only if it was the last one, and then nobody names it; its pipe end closes with it |
| Descriptors.FileTable.Close | src/kernel/fd.c:88-92 | succeeds exactly for an open slot, empties it and keeps all counts right |
| Descriptors.FileTable.EmptySlot | src/kernel/fd.c:16-21 | the lowest free slot, or none exactly when all are taken |
| Descriptors.FileTable.Dup | src/kernel/fd.c:93-103 | bad descriptor and no slot exactly under their conditions; else the lowest free slot shares the description |
| Descriptors.FileTable.Dup2 | src/kernel/fd.c:93-103 | bad descriptor exactly when either number is bad; same numbers change nothing; else the target shares the description and lets go of its old one |
| Descriptors.FileTable.OpenInto | src/kernel/fd.c:104-119 | a new plain description, held once, in the lowest free slot, or no change |
| Descriptors.FileTable.PipeInto | src/kernel/fd.c:120-136 | a bad buffer faults first; the lowest free slot gets the read end and the next one the write end of a pipe with both ends open; no slot exactly when fewer than two are free; any failed allocation leaves every table as it was |
| Descriptors.FileTable.CreatePipe | src/fs/pipe.c:70-85 | a pipe with both ends open and one description for each, the reading one first; or none: a failure after the first undoes it |
| Descriptors.FileTable.Inherit | src/kernel/process.c:110-113 | the child shares every description of the parent, slot by slot |
| Descriptors.FileTable.CloseAll | src/kernel/process.c:257-261 | every slot of the process is empty and every count is right |
| Descriptors.FileTable.Begin | src/kernel/fd.c:43-58 | a transfer holds a reference of its own, exactly when the slot is open and its mode and memory allow the transfer |
| Descriptors.FileTable.Finish | src/kernel/fd.c:73-75 | and gives it back |
| Descriptors.CallKeeps | src/kernel/fd.c:78-136 | every call of every process keeps: reference count equals number of holders, live count equals number of descriptions, a pipe end is open exactly while a description names it |
| Descriptors.RunKeeps | src/kernel/fd.c:78-136 | and so does every run |
| Descriptors.ReleasedOnce | src/fs/vfs.c:354-366 | over every run a description is released at most once, and exactly when it is gone |
| Descriptors.FreedOnce | src/fs/pipe.c:53-64 | over every run a pipe body is freed at most once, and exactly when it is gone |
| Descriptors.TransferPins | src/kernel/fd.c:58-74 | during a transfer the description and its pipe end stay alive, whatever closes |
| Descriptors.EndClosesUnused | src/fs/pipe.c:53-64 | a pipe end is closed only when nobody holds it any more |
| Descriptors.PipeUndone | src/fs/pipe.c:70-85 | undoing half a pipe gives back exactly the tables before |
| Family.Processes.constructor | src/kernel/user.c:178-218 | the first process alone |
| Family.Processes.FindChild | src/kernel/process.c:161-179 | the loop finds the child of that pid, or for -1 the first reapable child in list order, else the first child; none exactly when no child matches |
| Family.FoundMeans | src/kernel/process.c:161-179 | none is found exactly when no child matches, and a reapable match is found whenever there is one |
| Family.Processes.WaitTurn | src/kernel/process.c:181-219 | each outcome of waitpid if and only if its condition, written out over the table, holds; a delivered status is the one the child has in the table, of the child named or for -1 of the first reapable one in list order; only that consumes the child, which leaves the list in place; the family stays sound and no exit is newly missed |
| Family.AnswersExactly | src/kernel/process.c:181-219 | the same of the step relation: invalid, no child, sleep, fault and done exactly under their conditions, and whose status is given |
| ExitStatus.StatusIsExit | src/kernel/process.c:161-282 | in every run, if waitpid answers with a child and a status, that child called exit with that status earlier in the run, and only with that one, its thread had ended, the waiter had forked it or is the first process, and no other waitpid ever answers with that child |
| ExitStatus.RunTells | src/kernel/process.c:161-282 | at every point of every run the status in the table of a process that has left is the one it left with, through adoption, reaping and the waits of others |
| ExitStatus.AskedIsTold | src/kernel/process.c:181-219 | a wait for a reapable child is answered, and one for that very child with its status |
| ExitStatus.StatusRun | src/kernel/process.c:161-282 | the run of a fork, exit(7), the end of the thread and waitpid(-1), which answers 7 |
| Family.Processes.Fork | src/kernel/process.c:85-132 | a new running child of status 0 with the next pid, at the end of the parent's list, or only a used-up pid, or nothing; all other records as they were; family stays sound |
| Family.Processes.Leave | src/kernel/process.c:221-246 | the leaver is a zombie with the status it gave and no children; the exit loop moves the children to the end of the list of the first process in order, or frees the reapable ones and unparents the rest when there is none; every other process keeps its state and status; the family stays sound if and only if no child is left to a dying first process |
| Family.ExitShape | src/kernel/process.c:221-246 | after an exit with an adopter its list is its own followed by that of the leaver, whose children have it as parent, and nothing else differs |
| Family.OrphanShape | src/kernel/process.c:221-246 | after an exit without one exactly the reapable children are gone and the others have no parent |
| Family.Processes.ThreadReaped | src/kernel/process.c:248-282 | gives up resources before the record is reapable, keeps its status, and wakes the parent; frees the record at once when nobody can wait for it |
| Family.StepKeeps | src/kernel/process.c:79-282 | a step keeps links, tree and ownership sound if and only if it does not leave children to a dying adopter; it loses an exit if and only if it leaves a reapable child to an adopter asleep in waitpid(-1); and nobody but the first process ever misses one |
| Family.RunKeeps | src/kernel/process.c:79-282 | over every run without adoption by a dying process the family is sound and every process but the first hears of its children; without such orphans the first does too |
| Family.MissEnds | src/kernel/process.c:248-282 | a first process that missed an exit wakes as soon as any child of its own ends |
| Family.NoneDoomedYet | src/kernel/process.c:221-246 | up to the exit of the first process no run has such an adoption |
| Family.RunAdvances | src/kernel/process.c:79-282 | over such a run states only go forward and a record is freed at most once: it is in the table until then |
| Family.DoomedDangles | src/kernel/process.c:221-282 | an exit that leaves a child to a dying first process always ends with that child pointing at a freed record |
| Family.DoomedRun | src/kernel/process.c:221-282 | a run from boot that leaves such a dangling parent |
| Family.OrphanRun | src/kernel/process.c:181-282 | a run from boot in which the first process sleeps on although it has a reapable child |
| Tmpfs.PRead | src/fs/vfs.c:267-284 | returns exactly the bytes of the file at the offset, cut at its end; holes read as zeros |
| Tmpfs.EnsureBlock | src/fs/vfs.c:300-304 | a missing block becomes a zero page without changing what the file reads as; fails exactly when no page is free |
| Tmpfs.StoreChunk | src/fs/vfs.c:305-308 | the file is its old content with the chunk written at the offset |
| Tmpfs.OpenFile.Write | src/fs/vfs.c:286-311 | each error exactly under its condition; otherwise the file is its old content with the first n bytes written at the position or, in append mode, at the end, and n is short only at the size limit or without memory |
| Tmpfs.OpenFile.Read | src/fs/vfs.c:442-454 | reads at the position and moves it by what was read |
| Tmpfs.OpenFile.Seek | src/fs/vfs.c:465-477 | only regular files seek; the new position, or an error exactly when it would be negative or too large |
| Tmpfs.Truncate | src/fs/vfs.c:407-413 | the file is empty and all its pages are free |
| Tmpfs.WrittenMore | src/fs/vfs.c:286-311 | writing in pieces is writing at once |
| Tmpfs.ReadBack | src/fs/vfs.c:267-311 | what was written is read back, and the rest of the file is unchanged |
| Transfers.WriteCall | src/kernel/fd.c:43-76 | write(2): bad descriptor and fault exactly under their conditions; the file takes the first n bytes of user memory as if in one piece, user memory is untouched, and a refusal has the error of the file |
| Transfers.ReadCall | src/kernel/fd.c:43-76 | read(2): user memory differs from before by exactly the file bytes at the position, whose number is exact; nothing else changes |
| Newc.Writer.Pad4 | tools/mkinitramfs.py:8-9 | pads with zeros to a multiple of four |
| Newc.Writer.AddEntry | tools/mkinitramfs.py:12-21 | appends the encoding of the entry to an aligned archive, which stays aligned; fields too large for eight digits widen, as the format string does |
| NewcFormat.WrittenFields | tools/mkinitramfs.py:12-21 | each of the thirteen fields of a written header by its place: inode and links 1, mode, payload size, name size with its zero, and 0 elsewhere |
| NewcFormat.PadIs | tools/mkinitramfs.py:8-9 | the padding is zeros, up to the next multiple of four |
| Newc.Build | tools/mkinitramfs.py:24-43 | the archive of the entries with its trailer |
| Newc.ReadHex8 | src/fs/vfs.c:151-163 | accepts exactly eight hexadecimal digits, and gives their value |
| NewcFormat.DigitIs | src/fs/vfs.c:151-163 | the reader takes exactly 0-9, a-f and A-F, each with its value, and the writer uses the small ones |
| NewcFormat.HexIs | src/fs/vfs.c:151-163 | digits have a value if and only if each is the digit of that number at its place |
| Newc.ReadHeader | src/fs/vfs.c:228-242 | reads one entry, or refuses a malformed one; NewcFormat.ReadsExactly says which |
| NewcFormat.ReadsExactly | src/fs/vfs.c:227-241 | an entry is read at an offset if and only if one stands there: magic, mode at 14, payload size at 54, name size at 94, a name of fewer than 256 bytes without zeros and its final zero at 110, the payload and the next entry at the next multiples of four, all inside the archive |
| Newc.ReadArchive | src/fs/vfs.c:217-263 | reads entries until the trailer, or refuses |
| NewcFormat.ArchiveIs | src/fs/vfs.c:227-243 | the reader accepts an archive if and only if entries stand one behind the other and an empty trailer closes them, and gives exactly those entries |
| Newc.HexRoundTrip | tools/mkinitramfs.py:12-21 | a number written in hexadecimal reads back |
| Newc.ReadsEntry | tools/mkinitramfs.py:12-21 | an encoded entry reads back wherever it stands, and the next one is found behind it |
| Newc.RoundTrip | tools/mkinitramfs.py:24-43 | reading a built archive gives exactly its entries |
| Vfs.FileSystem.FindChild | src/fs/vfs.c:24-33 | the child of that name, or none exactly when no child has it |
| Vfs.FileSystem.ResolvePath | src/fs/vfs.c:58-124 | the path loop, with its buffer, its link expansion and its limits, computes the recursive walk, which PathRules.ResolvesByRules states by rules |
| PathRules.ResolvesByRules | src/fs/vfs.c:58-124 | a path resolves to a result, error or node, if and only if a way leads there in which each step is one rule: a dot stays, two dots go up but not above the root and across mounts, a name goes to the child or what is mounted on it, a link puts its text before what is left, from its directory or from the root; each error has its rule |
| PathRules.LinkRefused | src/fs/vfs.c:107-108 | a path that ends in a link is LOOP under no-follow |
| PathRules.LinkFollowed | src/fs/vfs.c:105-118 | otherwise, within the limits, resolving the link and what follows is resolving its text and what follows, from the root if the text starts with a slash and from the directory of the link if not, unless the links run out |
| PathRules.PathsCompose | src/fs/vfs.c:58-124 | a path after a prefix that leads to a directory is resolved from that directory, unless links or buffer run out |
| PathRules.LinkReachesTarget | tools/mkinitramfs.py:24-36 | in the tree of the boot archive /link leads to etc/message, and to LOOP under no-follow |
| Namespace.ResolveStays | src/fs/vfs.c:58-124 | whatever the path holds, dots and links included, resolving never leaves the process root, and never ends on a covered directory or below one |
| Namespace.WalksBack | src/fs/vfs.c:58-149 | the path that getcwd builds leads back to the directory, from any suffix on |
| Namespace.CwdRoundTrip | src/fs/vfs.c:126-149 | resolving the reported working directory finds that directory |
| Vfs.FileSystem.GetCwd | src/fs/vfs.c:126-149 | fills the buffer backwards with exactly the path; too long and no room exactly under their conditions |
| PathRules.PathIsTrail | src/fs/vfs.c:126-149 | the path spells the directory entries that lead from the root to the directory, each by its legal name after one slash |
| PathRules.TrailIsPath | src/fs/vfs.c:126-149 | and any entries that lead there spell that path, so it is the only one |
| WorkingDirectory.StepKeeps | src/kernel/fd.c:152-160 | chdir, a creating open, fork and exit keep every working directory a reachable directory below the root |
| WorkingDirectory.PathAfter | src/fs/vfs.c:126-149 | a new file changes the path of no directory |
| WorkingDirectory.MadeIsCreate | src/fs/vfs.c:380-396 | what a creating open makes is such a step |
| WorkingDirectory.CwdAlwaysBack | src/kernel/fd.c:152-165 | at every point of every run the path that getcwd reports to a process leads back to its working directory |
| WorkingDirectory.AnswerStays | src/kernel/fd.c:152-165 | and changes only when that process itself changes its directory |
| WorkingDirectory.BootWorld | src/kernel/process.c:45-46 | a first process at the root of a sound name space starts such a run |
| Vfs.FileSystem.NewNode | src/fs/vfs.c:35-52 | a new empty node of the given name, kind and contents, on the mount of its directory, at the end of that directory; no other node changes; the name space stays sound |
| Vfs.AddKeeps | src/fs/vfs.c:35-52 | a legal name that a directory lacks keeps the name space sound |
| Vfs.MountKeeps | src/fs/vfs.c:246-256 | so does a mount on an uncovered directory |
| Vfs.DotsNeverMissing | src/fs/vfs.c:380-396 | dot and dot-dot after an existing directory are never reported missing, so they are never created |
| Opening.MadeIsFound | src/fs/vfs.c:58-124 | once a missing name has been made, the path that missed it leads to it, through links too |
| Opening.CreatedIsFound | src/fs/vfs.c:380-396 | the same for a whole resolution with its limits |
| Opening.FindOrMake | src/fs/vfs.c:376-396 | existing, exclusive, missing and created exactly under their conditions, and each refusal of a creation if and only if its condition on the path holds; a created node is where the path leads from now on |
| Opening.OpenAt | src/fs/vfs.c:368-421 | each refusal exactly, in the order of the checks, for names that exist and for names to be made; a refused open leaves the name space as it was, even after the node had been made; a success opens what the path now leads to, with a fitting type |
| Opening.Remove | src/fs/vfs.c:416-417 | taking back a node that was just made gives exactly the tree before |
| BootTree.ArchiveNode | src/fs/vfs.c:168-202 | an archive member is placed under its parent directory, or refused with nothing changed; BootTree.PlacedExactly says which |
| BootTree.PlacedExactly | src/fs/vfs.c:165-202 | an entry is placed if and only if it is "." and a directory, or its path is legal names with single slashes whose directories exist and whose last name is new, its type is one of the three and its contents fit the type; the result is the tree with that one node added |
| BootTree.FindPlace | src/fs/vfs.c:173-188 | the loop finds the directory and the last name of the path |
| BootTree.LookupInjective | src/fs/vfs.c:168-202 | no node has two paths |
| BootTree.LookupAdded | src/fs/vfs.c:168-202 | a new node is found under its path and every other path leads where it led |
| BootTree.BootRoundTrip | src/fs/vfs.c:217-263 | building an archive from a list of files, reading it and placing its members gives a sound tree with exactly those files, types and contents |
| ExecRequest.CopyString | src/kernel/user.c:40-53 | succeeds exactly when a readable string of fewer than 64 bytes is there, and returns it |
| ExecRequest.CopyVector | src/kernel/user.c:55-79 | succeeds exactly when at most eight readable pointers to such strings end in a null pointer, and returns the strings in order |
| Exec.MapZero | src/kernel/elf.c:108-115 | maps zero pages over a reserved range; user memory reads as before elsewhere |
| Exec.CopyIn | src/kernel/elf.c:117-134 | user memory is as before with the bytes laid at the address |
| Loader.LoadSegment | src/kernel/elf.c:73-135 | accepted exactly when the header is sound and its range vacant, memory permitting; then the pages have the segment permissions, hold the file bytes and are zero elsewhere |
| Loader.NoSharedBit | src/kernel/elf.c:73-90 | the test of an alignment for a power of two is that it shares no bit with its predecessor |
| FirstStack.PushStrings | src/kernel/elf.c:157-176 | each string stands zero-terminated at its recorded address, in the order of the loop, below everything pushed before |
| FirstStack.BuildStack | src/kernel/elf.c:137-192 | the stack a program starts with: an aligned pointer to the count, pointers to the argument strings, null, pointers to the environment strings, null; succeeds whenever 17 pages are free and the range is vacant |
| FirstStack.ImageOfWords | user/crt.S:6-10 | the words laid by the kernel are what the start code reads: count, argument vector and environment behind it |
| FirstStack.WordRoundTrip | src/kernel/elf.c:177-190 | a word stored in little-endian bytes reads back |
| FirstStack.LeByte | src/kernel/elf.c:177-190 | byte i of a stored word is its digit of weight 256 to the i |
| ElfLoad.LoadAll | src/kernel/elf.c:215-233 | all segments of an acceptable executable are loaded without disturbing each other |
| ElfLoad.Load | src/kernel/elf.c:194-244 | on a file with the ELF64 header h and segments ps in the layout of the ABI: accepted only if count, segments, their page-wise disjointness and the entry are in order, and always then if enough pages are free; then the entry is that of h, the user byte at vaddr+i is file byte offset+i below filesz and 0 below memsz, readable, writable and executable exactly by bits 4, 2 and 1 of the flags; every accepted file is such a file; the first stack is in place; a failure at any step gives back every page and object |
| ElfFormat.ElfRoundTrip | src/kernel/elf.c:22-73 | fields written little-endian at the offsets of the ABI are read back: count, entry and every program header are those of the record, and the header is accepted exactly with 1 to 16 segments |
| ElfFormat.AcceptedIsElf | src/kernel/elf.c:57-73 | every file whose header is accepted is the encoding of some header and segments |
| ElfFormat.WrittenIsElf | src/kernel/elf.c:22-50 | a file put together from an encoded header and an encoded table, wherever the header puts the table, has them |
| ElfLoad.RunsIsLegal | src/kernel/elf.c:73-135 | the conditions on the header and segments as written are those the kernel tests on what it reads |
| Fdt.ValidateHeader | src/platform/dtb.c:413-466 | accepts exactly the headers of the right version whose blocks are aligned, inside the blob and apart |
| FdtParser.ParseReservations | src/platform/dtb.c:473-501 | accepts exactly a table that ends and whose entries can be recorded; the result is its non-empty entries in order |
| FdtParser.NextToken | src/platform/dtb.c:587-662 | reads the token at an offset, or refuses one that runs out of its block |
| FdtParser.CompatibleHas | src/platform/dtb.c:130-149 | true exactly when one of the zero-terminated strings of the list is the text |
| FdtParser.FinishNode | src/platform/dtb.c:327-406 | a closed node changes the boot information from a to b if and only if b is a with what the node gives added, stated by TreeContents.Adds: the images of its non-empty register tuples in order to memory or to reserved, its one window, interrupt and source count to uart, plic or virtio, exactly if it is enabled and of that sort |
| FdtParser.ParseStructure | src/platform/dtb.c:579-665 | accepts exactly the blocks that are one nameless root with properly nested nodes and collect without error; the result is what those tokens record |
| FdtParser.Parse | src/platform/dtb.c:672-690 | accepts exactly the blobs whose header, reservation table and structure are in order; then memory is the images of the register tuples of the enabled memory nodes in the order in which they close, reserved the table and those of the reserved nodes, and uart, plic, virtio, interrupts, source count and clock the values of the nodes that give them, and nothing else; any blob whose tokens have such a history is accepted with its end as result |
| TreeContents.PathIs | src/platform/dtb.c:503-575 | at every token the stack of the parser holds exactly the open nodes, each with its name and the last value of each of its own properties |
| TreeContents.SortIs | src/platform/dtb.c:327-406 | memory, reserved, uart, plic and virtio nodes are told by device type, parent and the strings in compatible |
| TreeContents.ClosedAdds | src/platform/dtb.c:327-406 | what closing a node computes is what the node gives, if and only if |
| TreeContents.CollectsExactly | src/platform/dtb.c:327-665 | a block collects to a result if and only if there is a history, one record per token, in which each End adds what its node gives, each timebase property under cpus sets the clock and nothing else changes anything |
| TreeContents.CollectedIsRecorded | src/platform/dtb.c:327-665 | the tables are exactly the contributions of the closing nodes, in token order, and the clock is the last timebase |
| DtbFormat.TupleRoundTrip | src/platform/dtb.c:266-309 | a register tuple written in big-endian cells reads back |
| DtbFormat.WindowRoundTrip | src/platform/dtb.c:207-241 | so does a window of a ranges property |
| DtbFormat.TokenRoundTrip | src/platform/dtb.c:587-662 | so does a token with its padding, and the next is found behind it |
| DtbFormat.TokensRoundTrip | src/platform/dtb.c:587-665 | and all tokens of a block up to the end mark |
| DtbFormat.HeaderRoundTrip | src/platform/dtb.c:413-466 | a header written in big-endian words is accepted exactly if its blocks are aligned, inside and apart, and gives those blocks |
| DtbFormat.BlobRoundTrip | src/platform/dtb.c:413-690 | a blob written from a header, reservations and tokens is read as those |
| DtbFormat.BlobTells | src/platform/dtb.c:672-690 | so the parser returns for it the end of the history of its tokens |
| Fdt.CollectedFrom | src/platform/dtb.c:327-572 | every recorded range is the image, through one window per bus, of a register tuple of an enabled node of the right sort, and no table overflows |
| Dtb.DecodeCells | src/platform/dtb.c:164-174 | the big-endian value of one or two cells; more are unsupported |
| Dtb.CrossBus | src/platform/dtb.c:185-241 | one bus level: no ranges property refuses, an empty one is the identity, else a window decides |
| Dtb.FindWindow | src/platform/dtb.c:207-241 | the loop finds the first window that holds the whole range |
| Dtb.TranslateAddress | src/platform/dtb.c:181-244 | crosses every bus up to the root |
| Dtb.ThroughExact | src/platform/dtb.c:207-241 | the loop over windows gives an address if and only if it is the image through the first window that holds the whole range, without overflow |
| Dtb.CrossedExact | src/platform/dtb.c:185-241 | one bus gives an address if and only if the bus has a ranges property and is the identity or has such a window |
| Dtb.TranslatedExact | src/platform/dtb.c:181-244 | a translation gives an address if and only if one crossing per bus leads to it from the node to the root |
| Dtb.ParseReg | src/platform/dtb.c:266-309 | decodes and translates each register tuple |
| Dtb.RegExact | src/platform/dtb.c:266-309 | a register property gives a table if and only if its form is right, the table fits and it is the old one followed by the images of all the tuples that are not empty, in order |

## Left out

- Bytes of kernel objects: a page frame has a type (raw, data, table, slab) instead of raw bytes, and intrusive lists are sequences, so the zeroing of heap objects and pointer aliasing inside records are not modelled.
- Heap.Kmalloc: the zeroing of the object is not stated, because objects have no bytes in the model.
- Heap.Kfree: requires a live object or null; the magic-number check that makes kfree ignore some stray pointers is not modelled, because typed frames have no bytes to misread.
- Entry words: the tree is proved over entries as records; PteWords relates the 64-bit words to those fields, and the two layers are not composed in one theorem.
- Leaf entries above level 0: the trees built here have none, so the branch of the walk that stops at one is unreachable.
- Table arguments that are null: every walk starts from an existing root.
- TLB flushes, fences, interrupt flags and spin locks: calls are atomic between sleeps, as they are on one hart with interrupts off; preemption is the Tick event of the scheduler.
- vm_build_kernel and map_physical_range: the kernel half of a root is an arbitrary table that all roots share.
- address_space_move: hands over the fields of a space, easy.
- AddressSpaces.AddressSpace.AddPage: out of memory is bounded by a sufficient number of free pages; the exact number depends on the slabs, and is exact in Heap.Kmalloc and Vm.Map. The requires about two pages at one address is what every caller in the source establishes by reserving first.
- AddressSpaces.AddressSpace.Mmap: the same sufficient bound.
- Break.Brk: the same sufficient bound.
- Lifecycle.Clone: the same sufficient bound.
- Worlds: tmpfs pages, kernel stacks and other kernel allocations are the Kernel step, which keeps the free and slab pages together; Transfers shows separately that file writes leave address spaces alone.
- Threads.Scheduler.Create: whether the thread record and its stack could be had is a parameter.
- Threads.Scheduler.Reap: the stack page, the record and the callback into the process table are left out here; Family.Processes.ThreadReaped is that callback.
- Scheduling.RunsSoon: for runs in which no thread is created or reaped, since either moves the places the scan counts.
- Threads.Scheduler.Sleep: requires that the idle thread does not call it, as in the source, where idle only reaps and yields; the same holds of BlockCurrent and Exit.
- Stacks, trap frames and context switching: a thread is its state, wake time and place in a queue.
- Timer programming and scheduler statistics other than the preemption count.
- Reference counts, pids, file and inode numbers do not wrap around; 64-bit ticks do.
- Pipes.Pipe.ReadTurn: one turn of the loop, from taking the lock to sleeping or returning; PipeProtocol repeats turns over any interleaving. The same holds of WriteTurn and of Family.Processes.WaitTurn.
- Descriptors.FileTable.OpenInto: whether the description could be made is a parameter; Opening.OpenAt says when. Copying the path from user memory and the checks on the base descriptor are left out.
- Descriptors.FileTable.PipeInto: whether the user buffer is writable and each allocation succeeds are parameters.
- PipeLifetime: one pipe at a time, and one thread per process, as in the source.
- Descriptors.FileTable.Begin: whether mode and memory allow the transfer is a parameter, which Transfers.WriteCall and Transfers.ReadCall work out; requires that the process is not already in a transfer; a process has one thread.
- File offsets shared by two transfers that interleave at a sleep: regular files do not sleep.
- Family.Processes.Leave: requires that the leaver is not asleep in waitpid, which a running thread is not.
- Family.Processes.WaitTurn: whether the status can be copied out is a parameter; UserCopy.CopyTo says when.
- Family.Processes.Fork: whether the record and the rest could be had are parameters; copying memory and descriptors is Lifecycle.Clone and Descriptors.FileTable.Inherit. A failed thread creation is folded into the second parameter.
- process_exec: replacing the old image after a successful load, easy once ElfLoad.Load is given.
- device_read, device_write, file_getdents and the console.
- Tmpfs.OpenFile.Seek: requires a position and a size below 2 to the 63, which every operation keeps.
- Vfs.FileSystem.GetCwd: requires a reachable directory below the process root, which WorkingDirectory.StepKeeps keeps in every run.
- Opening.OpenAt: truncation of what was opened is Tmpfs.Truncate and not part of this contract; whether records can be had are parameters.
- vfs_init: the two boot mounts are covered by MountKeeps; the device nodes and the teardown after a failed boot are left out.
- BootTree.BootRoundTrip: for lists in which parents come before children and names are proper, which the archive format demands.
- Newc.RoundTrip: for names and payloads that fit the format's fields; names that equal the trailer end the archive in the code too.
- ElfLoad.Load: the executable is its bytes, so reads of the file are never short; the number of pages that suffices is not the least one.
- FdtParser.Parse: which of several errors a bad blob gets is not stated. The caller vouches that the header and as many bytes as it declares are in memory.
- dtb_error_string, boot_info reporting, virtio, PLIC and UART drivers, trap entry.
- The user programs and the in-kernel drivers that exercise them.
- PageInit.ListedExactly: for kernel, device tree and reserved ranges that end inside 64 bits; ranges that end beyond are cut at the top as in the source (PageInit.IsReserved).
- PathRules.LinkFollowed: the links run out one earlier after a link than from its text alone, so LOOP is the one other answer; PathRules.ResolvesByRules says exactly when. The same holds of PathRules.PathsCompose.
- Fault codes of processes killed by a trap: an exit has the status it was called with.
