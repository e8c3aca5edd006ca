# eVisor: a verified model

eVisor is a small type-1 hypervisor for 64-bit Arm. This project models the parts of it
that have hard properties, in the form the sources have (classes whose methods change
arrays and fields, loops with invariants), and proves them with Dafny. `dafny verify
dfyconfig.toml` checks everything.

| file | what it models |
|---|---|
| Wrappers.dfy | a value that may be missing |
| Bits.dfy | 64-bit words: OR, AND and BIC by digits, and what masks and shifts do to fields |
| Descriptor.dfy | VMSAv8-64 translation descriptors of the hypervisor's own address space (section D8.3 of the Arm Architecture Reference Manual, DDI 0487) |
| XlatTree.dfy | the tree those descriptors form, the hardware walk, and what one changed entry does to every walk |
| Mmu.dfy | the table builder: blocks, on-demand tables, splits, the static table index |
| Stage2Tree.dfy, Stage2.dfy | the kernel page heap, the user frame bitmap, the stage-2 tables, creation of guests, translation faults |
| VirtioBlk.dfy | the virtio-blk driver and a device that runs beside it (sections 2.7 and 5.2 of VIRTIO 1.3) |
| Loader.dfy | loading a disk image into a guest |
| Sched.dfy | the counter/priority scheduler and runs of it |
| Syndrome.dfy | the syndrome of a data abort, and what an Arm CPU and the trap handler make of a device access (sections C6.2 and D17.2.37 of the Arm Architecture Reference Manual) |
| Vcpu.dfy | one physical CPU multiplexed over private guest CPUs |
| Hypervisor.dfy | memory and CPU joined: what a guest reaches while it executes, data aborts, the first run of a guest |
| Kernel.dfy | the scheduler joined with both: when each guest gets to execute |
| Fat32.dfy | the cluster chain, its cache and Read |
| Queue.dfy, Printf.dfy | the console ring queue and integer printing |

How things are read:

- An `ASSERT` that fails, a `PANIC` and running out of memory stop the machine. Methods
  then give `false`, `Null`, `None` or `Panic`, and nothing is claimed afterwards.
- `Mmu.Mmu`, `Stage2.Memory`, `VirtioBlk.VirtioBlk`, `Sched.Sched`, `Vcpu.Machine`,
  `Kernel.Kernel`, `Fat32.File`, `Queue.Queue` and `Queue.Console` have an invariant `Valid()` (for
  the disk driver `Quiet()`, `InFlight()` and `InStep()`, for `Hypervisor.Hypervisor` `Linked()`),
  established by their constructors and kept by every operation; so it holds in every reachable
  state, after any number of operations in any order. The table builder keeps all of it for regions whose
  offset fits, and that the tables form a tree (`Sound()`) for any other.
- Every operation that can run out of memory says exactly when it does: by the free heap pages
  (`Stage2.Memory.FreePages`), the frames from the hint on that are not taken
  (`Stage2.Memory.FramesLeft`) and the tables a guest lacks for a page (`Stage2Tree.Missing`).
- Ghost fields name what an implementation does not store: the translation a guest should
  see (`Stage2.Task.view`), the one IPA page a frame was handed out for
  (`Stage2.Memory.owner`), the private CPU of each guest (`Vcpu.Machine.priv`).
- What the hardware, a device or a guest's instruction does is said in bit positions and numbers,
  not with the names the code has for them: the fields of a descriptor (`Descriptor.HasAttrs`), of a
  stage-2 leaf (`Stage2Tree.IsPage`, `Hypervisor.AccessBy`), of a syndrome
  (`Syndrome.Describes`, `Hypervisor.Reports`), the steps of the disk (`VirtioBlk.VirtioBlk.DeviceStep`), the
  entries of the file allocation table (`Fat32.Next`). A guest's instruction (`Syndrome.Instruction`)
  is a ghost parameter of the trap; the code sees only the syndrome.
- Nondeterminism is a parameter: the schedule and the failures of the disk (`Oracle`), the
  scheduler's choice in `Vcpu.Machine.SwitchTaskTo`, console input, the instructions of a guest,
  the IPA its own translation gives for a virtual address.
- `Stage2.TableLeaf` is what the software's tables hold for an IPA page, `Stage2.Translation`
  what the hardware finds for it.
- Every `VirtioBlk::Init` takes new memory for the queue and resets the device, so each of them
  is a `new VirtioBlk` on the disk the last one left, whatever the memory holds.

Where the code differs from what its comments say or its callers may expect, the model
follows the code:

- `src/arch/arm64/mmu.cc:324` tests only the virtual address before writing a block. An entry
  written with a physical address that is not aligned to it maps to that address rounded down
  (`XlatTree.BlockStep`). A page-aligned region comes out as it asks if and only if the offset
  from its virtual to its physical address is a multiple of every entry size it gets blocks of
  (`Mmu.RegionMappedIff`; `Mmu.PageTooLow` is a region that does not); identity maps meet
  this. Regions may overlap: the last one wins, page by page.
- `src/arch/arm64/mmu.cc:162-167` gives stage-2 translation an input size of 36 bits
  (`src/arch/mmu_config.h:17`), while `src/mm/pgtable_stage2.cc:103-143` indexes its tables with
  bits 38 to 12. What is mapped from 2^36 on is never found by the hardware
  (`Hypervisor.FirstOutOfReach`), and addresses that differ only above bit 38 are one page. The
  trap handler maps a page for every translation fault all the same, so such an access faults
  again each time it is tried and takes a frame each time, until the hypervisor stops
  (`Hypervisor.Hypervisor.FaultsAgain`). An access goes through after its fault was handled if and
  only if its IPA is below 2^36 and on the page that was mapped (`Hypervisor.Cured`); an image is
  visible as a whole if and only if it ends below 2^36 (`Loader.AllInReach`).
- `src/arch/arm64/irq/trap.cc:336` passes FAR_EL2, the virtual address of the access, where the
  handlers of `src/mm/kmm_trap.cc` want an IPA. The two are parameters of their own here. The page
  of the virtual address is mapped, and the device is asked at the virtual address, which is right
  if and only if it is the IPA's page, or the IPA.
- `src/mm/pgtable_stage2.cc:26-29` calls SH 2 inner and SH 3 outer shareable, where the architecture
  has them the other way round; guest DRAM is inner shareable (`Stage2Tree.LeafReads`).
- `src/kernel/sched/sched_create_task.cc:18-22` names the PSTATE bits of D, A, I and F enabling; set,
  as they are, they mask (`Vcpu.Machine.LoadTaskImage`).
- The stack pointer that `src/kernel/sched/sched_create_task.cc:46` gets from the loader is put in the
  saved registers, and `src/arch/arm64/irq/vectors_common.S:49-82` takes none from there: a guest starts
  with the stack pointers of the template, whatever its configuration says.
- `src/kernel/sched/sched_core.cc:151` says that the init task is skipped; the loop starts
  at 0 and does not skip it.
- `src/drivers/virtio/virtio-blk.cc:70` computes the capacity in 32 bits, so only disks
  below 4 GiB are reachable as a whole (`VirtioBlk.WholeDiskReachable`).
- `BlockDeviceInit` leaves `avail.index` as it finds it, and only 0 is right. Any other value
  makes as many entries look offered that were not, and stays ahead of the driver's own count. In
  every run, whenever the driver sees a request answered, the device has still to take exactly that
  many entries, the request's own among them (`VirtioBlk.VirtioBlk.RunRequests`):
  when the driver sees its request answered, the device still has that many entries to take
  (`VirtioBlk.VirtioBlk.AnsweredTooEarly`), and once it has taken them all the driver sees
  nothing (`VirtioBlk.VirtioBlk.WaitsForever`). With 1 found the first request is answered by a
  stale entry (`VirtioBlk.StaleEntryAnswered`), with 0xFFFF it is never seen
  (`VirtioBlk.RequestNeverSeen`).
- `src/fs/fat/fat32.cc:292` computes the byte position in 32 bits as well
  (`Fat32.BlockReached`), and `CalcNextCluster` caches the end mark of a chain, after which
  `CalcCluster` at the very end of a file differs from an uncached walk unless the mark is
  0x0FFFFFF7 (`Fat32.CacheAgrees`).
- `src/fs/fat/fat32.cc:246` looks for a cluster in the cached list without testing for its end.
  It runs off the list exactly for an empty range at the end of a file that fills its clusters,
  unless the end mark is cached: it does not when the offset lies inside the chain or the list
  is longer than the chain (`Fat32.File.Locate`, `Fat32.File.Read`).
- `src/fs/fat/fat32.cc:483` takes a sector for the last of its cluster by its number in the
  volume. That is right if and only if the data begin at a multiple of the cluster size
  (`Fat32.BoundaryFound`).
- `src/mm/kmm_trap.cc:29-31` moves a whole word between register and device, whatever the size of
  the access and whether it extends a sign, and trusts the syndrome's register number also where
  the syndrome does not describe the instruction (ISV clear, as for register pairs). It indexes
  the saved registers with up to 31, which means the zero register; the word found there is the
  saved stack pointer, which after a trap is never 0. The guest and the device see what they would
  on an Arm CPU if and only if the address is the IPA, ISV is set and, for a store, the register is
  not the zero register and holds no more than is stored, or, for a load, the register is the zero
  register or the answer needs no truncation or sign extension (`Syndrome.RightIff`;
  `Syndrome.ByteStoredWhole` and `Syndrome.SignLost` are accesses that go wrong).
- `src/common/queue.cc:13` asks for 1024 bytes and uses 1024 words; it fits because the
  kernel heap hands out whole pages.

## Model

| member | source | states |
|---|---|---|
| Mmu.Mmu.CreatePageTables | src/arch/arm64/mmu.cc:285-297 | for any lists of mappable, possibly overlapping regions the hardware walk of every va below 2^36 is invalid where no region reaches; where one is the last to reach, it gives that region's address and ends on a descriptor with its memory type, NS, read-only, shareability, AF, PXN and UXN, each said in bits of the descriptor and of the attribute word; it succeeds only if all regions are page-aligned, and does so whenever there are four tables for each of them |
| Mmu.LastDecides | src/arch/arm64/mmu.cc:285-297 | the last region to reach a va decides where its walk ends and with what attribute bits, regions behind it in the list notwithstanding |
| Mmu.Mmu.InitXlatTables | src/arch/arm64/mmu.cc:299-348 | one region with any offset: each of its addresses goes where the largest entry that fits around it is sent, all others as before, whatever was mapped; that is what the region asks if and only if its offset fits; at most four new tables; it succeeds whenever the region is page-aligned and four tables are left |
| Mmu.RegionMappedIff | src/arch/arm64/mmu.cc:315-330 | a page-aligned region comes out as it asks if and only if its offset is a multiple of every entry size it gets blocks of |
| Mmu.BuiltAsAsked | src/arch/arm64/mmu.cc:324-330 | the same for one address and the entry it lies in |
| Mmu.PageTooLow | src/arch/arm64/mmu.cc:324-330 | 2 MiB at va 0 that ask for pa 0x1000 get pa 0: every address comes out a page too low |
| Mmu.Mmu.MapRegion | src/arch/arm64/mmu.cc:315-347 | the greedy loop ends (remaining size, then levels left) and makes at most two tables a level, one for each ragged end |
| Mmu.Mmu.FindPteIndex | src/arch/arm64/mmu.cc:350-372 | the pointer walk finds the entry that the hardware walk passes at that level, or nothing where the walk ends earlier |
| Mmu.Mmu.NewXlatTablesEntry | src/arch/arm64/mmu.cc:378-384 | tables are handed out in order, each once, until none is left |
| Mmu.Mmu.CreateTable | src/arch/arm64/mmu.cc:335-338 | hanging an empty table under an invalid entry changes no translation and keeps the tree unshared |
| Mmu.Mmu.SplitPteBlockDesc | src/arch/arm64/mmu.cc:466-486 | replacing a block by a table of 512 smaller ones changes no translation and keeps the tree unshared |
| Mmu.BlockNeedsAlignedPa | src/arch/arm64/mmu.cc:324-330 | an entry maps its range to pa onwards if and only if pa is aligned to the entry, which the code does not test |
| Mmu.AtMostFour | src/arch/arm64/mmu.cc:315-347 | the entries of one region that need a table of their own number at most four |
| Mmu.AttrsTruncated | src/arch/arm64/mmu.cc:397-400 | passing the 64-bit attributes as 32 bits loses nothing |
| Descriptor.BlockDesc | src/arch/arm64/mmu.cc:397-451 | the word built by successive ORs has the type for its level and the output address; its index is the memory type, AF is set, NS and read-only are those asked for; PXN (bit 53) is set if and only if it is device memory, or normal memory that is asked to be execute-never; UXN (bit 54) exactly for device memory; shareability is inner for write-back memory, outer for the other types, none for an unknown one |
| Descriptor.MeaningBits | src/arch/arm64/mmu.cc:397-451 | for every attribute word: a descriptor that carries its meaning has those bits, in numbers |
| Descriptor.SplitPreservesDecode | src/arch/arm64/mmu.cc:466-486 | for every address of a 1 GiB or 2 MiB block, the entry of the split table decodes to the same output address and attributes, with the descriptor type of its level |
| Descriptor.SplitOr | src/arch/arm64/mmu.cc:477-482 | OR with the shifted index is the addition of i entries and touches no other field |
| XlatTree.BlockStep | src/arch/arm64/mmu.cc:324-334 | writing a block or page descriptor maps exactly the entry's range, to the address rounded down to the entry's size, and keeps the tree well formed |
| XlatTree.HangStep | src/arch/arm64/mmu.cc:335-341 | hanging a table whose entries decode as the entry they replace did changes no walk |
| XlatTree.WalkOutside | src/arch/arm64/mmu.cc:350-372 | a walk that does not pass a changed entry is unchanged |
| Stage2.Memory.constructor | src/mm/heap/kmm_malloc.cc:17 | at boot, whatever the heap and guest memory hold, the invariant holds: nothing is taken, no frame is lost and there are no guests |
| Stage2.Memory.MapPage | src/mm/pgtable_stage2.cc:103-114 | a pointwise update: the target IPA page holds the given frame and flags, every other page of this and every other guest is as before, also when tables are created; the hardware finds what was mapped if and only if the IPA is below 2^36; pages grows by one; it takes one heap page for each table the guest lacks for that page, and fails exactly when there are fewer |
| Stage2.Memory.CreatePageTable | src/mm/pgtable_stage2.cc:116-131 | the table of the next level on the way to the IPA, made from a zeroed heap page if and only if the guest lacks it; no walk changes; PANIC exactly when it is needed and no page is free |
| Stage2.Memory.SetPageTableEntry | src/mm/pgtable_stage2.cc:133-143 | writing one leaf enters it in the view of the one guest whose tree it belongs to |
| Stage2.Memory.MapNewPage | src/mm/pgtable_stage2.cc:73-77 | masking the IPA selects the same page, which is read-write write-back memory by the fields of its leaf; the page fault is counted with it; it fails exactly when heap pages for the missing tables have run out |
| Stage2.Memory.MapNewDevicePage | src/mm/pgtable_stage2.cc:79-86 | the device page appears at its IPA, as the hardware reads its leaf: device memory with S2AP 0 or 3, as asked; nothing else changes; it fails exactly when heap pages for the missing tables have run out |
| Stage2.Memory.KmmMalloc | src/mm/heap/kmm_malloc.cc:20-34 | first fit: the lowest free page, null for size 0, PANIC exactly when no page is free |
| Stage2.Memory.KmmZalloc | src/mm/heap/kmm_zalloc.cc:8-14 | a zeroed page that no table uses, all walks as before; PANIC exactly when no page is free |
| Stage2.Memory.KmmFree | src/mm/heap/kmm_malloc.cc:36-39 | exactly that page is free again; the invariant and all walks are kept |
| Stage2.Memory.UmmMalloc | src/mm/user_heap/umm_malloc.cc:22-48 | the lowest free frame not below the hint, never handed out before; the hint moves behind it; PANIC exactly when none is left; null for sizes that are not whole pages |
| Stage2.Memory.UmmFree | src/mm/user_heap/umm_malloc.cc:50-56 | only the frame's bit is cleared; the hint stays above it, so there are no more frames to hand out than before |
| Stage2.Memory.PageAllocate | src/mm/pgtable_stage1.cc:9-11 | a fresh frame, zeroed, and no other byte of guest memory changed |
| Stage2.Memory.PageMap | src/mm/pgtable_stage1.cc:17-21 | a fresh zeroed frame behind the IPA, read-write write-back memory by the fields of its leaf, booked for it; it takes one frame and a heap page for each missing table, and fails exactly when there are not as many; no frame is lost if the page was unmapped |
| Stage2.Memory.HandleMmTrapMemoryAccessFault | src/mm/kmm_trap.cc:9-20 | a translation fault leaves a fresh zeroed frame behind the faulting page, read-write write-back memory, counted as a page fault and as a page; it is handled exactly when there is a frame and a heap page for each missing table; a page counted twice was mapped before |
| Stage2.Memory.BoardInit | src/platforms/qemu/board_qemu.cc:16-39 | by the fields of the leaves: the 16 pages of the distributor and the UART's are device memory without access (S2AP 0), at their own addresses; the two pages at 0x8010000 are read-write device memory (S2AP 3) at the virtual CPU interface, 0x30000 further on; no other page is mapped; it takes nine heap pages and fails exactly when there are fewer |
| Stage2.Memory.CreateTask | src/kernel/sched/sched_create_task.cc:55-87 | a new guest sees its 19 device pages, distributor and UART without access and the virtual CPU interface read-write, and nothing else; all other guests are as before; a guest costs ten heap pages, and creating one fails exactly when there are fewer |
| Stage2Tree.LeafReads | src/mm/pgtable_stage2.cc:50-66 | what the code writes as leaves, as the hardware reads them: type 1:0, MemAttr 5:2, S2AP 7:6, SH 9:8, AF 10, address |
| Stage2Tree.DramReads | src/mm/pgtable_stage2.cc:54-66 | of these leaves, the read-write write-back ones are those of guest DRAM |
| Stage2.FramesNotShared | src/mm/pgtable_stage2.cc:103-143 | in every reachable state two walks that end on the same DRAM frame are the same walk |
| Stage2.LeavesNotShared | src/mm/pgtable_stage2.cc:103-143 | nor do two leaves in the tables lead to one frame, in reach of the hardware or not |
| Stage2.TablesNotShared | src/mm/pgtable_stage2.cc:116-131 | in every reachable state a heap page used as a table is the root of one guest, and then nothing points at it, or hangs from exactly one entry, of its own guest's table one level up, and then is nobody's root |
| Stage2.PointsDown | src/mm/pgtable_stage2.cc:120-130 | what an entry above level 3 points at is a table of the same guest, one level down |
| Stage2.DramFrame | src/mm/user_heap/umm_malloc.cc:35-43 | every DRAM leaf leads to a frame whose bit is set and that was handed out for this guest and page, never into the heap |
| Stage2.BitsAreLeaves | src/mm/user_heap/umm_malloc.cc:35-43 | without remapping and freeing, a bit is set if and only if some guest's tables have a leaf for the frame, and some guest reaches it if and only if the page it was handed out for is in reach of the hardware |
| Stage2.PagesCountLeaves | src/mm/pgtable_stage2.cc:112 | pages is the sum of device pages, loaded pages and page faults; it equals the number of leaves in the tables if and only if no mapping hit a mapped page, and then the DRAM leaves are the loaded pages and the page faults |
| Stage2.NoSecondFault | src/mm/kmm_trap.cc:9-20 | a page below 2^36 at which the hardware faults never had a fault handled before; so if a fault is handled for the page that faulted, no page in reach faults twice |
| Stage2.Reached | src/arch/arm64/mmu.cc:162-167 | in every reachable state the tables hold what a guest should see, and the hardware finds it exactly below 2^36 |
| Stage2Tree.WalkElsewhere | src/mm/pgtable_stage2.cc:116-143 | a walk is unchanged when the only changed entry lies off its way |
| Stage2Tree.OneParent | src/mm/pgtable_stage2.cc:120-128 | two entries that point at one table are the same entry |
| Stage2Tree.EntryIsTable | src/mm/pgtable_stage2.cc:120-128 | an entry above level 3 is empty exactly when the guest lacks the table it leads to |
| Stage2Tree.TableUnique | src/mm/pgtable_stage2.cc:116-131 | a guest has at most one table of a level on the way to a page |
| VirtioBlk.VirtioBlk.constructor | src/drivers/virtio/virtio-blk.cc:114-145 | after any Init, whatever the queue's memory holds, the device posts what it takes, and as many entries are stale as the avail.index found says; the protocol starts out right if that is 0 |
| VirtioBlk.VirtioBlk.RunRequests | src/drivers/virtio/virtio-blk.cc:147-226 | any number of requests of any kind after any Init, under every schedule, up to a wait that is not over: at each answer the driver sees, the device has still to take as many entries as were stale at the start; so no answer is to the request itself if the avail.index found was not 0, and every one is if it was |
| VirtioBlk.VirtioBlk.TryRequest | src/drivers/virtio/virtio-blk.cc:155-207 | one request in any state after Init keeps the number of stale entries, and its answer comes that many entries too early |
| VirtioBlk.VirtioBlk.AnsweredTooEarly | src/drivers/virtio/virtio-blk.cc:204-207 | in every state, whenever the driver sees its last request answered, the device has still to take as many entries as were stale at the start |
| VirtioBlk.VirtioBlk.WaitsForever | src/drivers/virtio/virtio-blk.cc:204-207 | once the device has taken all entries, the driver sees its last request answered if and only if none was stale |
| VirtioBlk.StaleEntryAnswered | src/drivers/virtio/virtio-blk.cc:114-145 | a run with avail.index 1 found: the first request counts as answered while the device has yet to take it |
| VirtioBlk.RequestNeverSeen | src/drivers/virtio/virtio-blk.cc:114-145 | a run with avail.index 0xFFFF found: the first request leaves the ring empty for the device, and the driver busy |
| VirtioBlk.VirtioBlk.ReadWriteDisk | src/drivers/virtio/virtio-blk.cc:147-220 | for every schedule of the device and every position of the 16-bit indices: success is one atomic read or write of exactly one sector; failure changes nothing, or is a reported failure of a write that did arrive; it succeeds exactly for a sector in range whose own transfer the device does not fail, and makes one transfer for such a sector and none otherwise; no request is left in flight |
| VirtioBlk.VirtioBlk.Offer | src/drivers/virtio/virtio-blk.cc:189-202 | the request is in flight even if the device answers before the driver counts it; stale entries stay as many as they were |
| VirtioBlk.VirtioBlk.Await | src/drivers/virtio/virtio-blk.cc:204-213 | the busy wait ends, with the device idle again and the request's outcome decided |
| VirtioBlk.VirtioBlk.DeviceStep | src/drivers/virtio/virtio-blk.cc:197-207 | each device step, as the standard's numbers for types, flags, layout and status say, brings the request in flight nearer to its answer and keeps what is promised about it; without a request nothing changes |
| VirtioBlk.VirtioBlk.VirtqIsBusy | src/drivers/virtio/virtio-blk.cc:222-226 | for a request that the driver has counted: busy exactly as long as the device still has work to do for it; with stale entries, not busy exactly when the device has as many entries to take as are stale |
| VirtioBlk.VirtioBlk.ReadDisk | src/drivers/virtio/virtio-blk.cc:73-75 | a read never changes the disk, and changes the buffer only where and when it succeeds |
| VirtioBlk.VirtioBlk.WriteDisk | src/drivers/virtio/virtio-blk.cc:77-79 | a write never changes the buffer and at most the one sector |
| VirtioBlk.VirtioBlk.AtMostOneInFlight | src/drivers/virtio/virtio-blk.cc:193-202 | the distance of the two wrapping indices is never more than one, and is one exactly while the device still works |
| VirtioBlk.CapacityWraps | src/drivers/virtio/virtio-blk.cc:69-71 | the sector count is the configured one modulo 2^23 |
| VirtioBlk.WholeDiskReachable | src/drivers/virtio/virtio-blk.cc:148-153 | all sectors can be addressed if and only if the disk is below 4 GiB |
| Loader.LoadFile | src/fs/loader.cc:22-53 | a successful load puts the whole image into fresh frames behind va rounded down to a page, uses one page for every eight sectors begun, leaves every other IPA and every frame handed out before as it was, counts loaded pages and nothing else, and loses no frame if the pages were unmapped; it succeeds exactly when there are frames for all pages, heap pages for all tables the guest lacks for them, and the device fails none of the transfers |
| Loader.LoadPage | src/fs/loader.cc:34-46 | up to eight sectors fill one zeroed frame, the rest of which stays zero; it fails exactly when one of those transfers does |
| Loader.ImageVisible | src/fs/loader.cc:31-48 | after a load the tables lead from the address of every byte of the image to a frame that holds the disk's byte, or zero behind the image's end, and the hardware finds it if and only if the address is below 2^36 |
| Loader.AllInReach | src/fs/loader.cc:31-48 | an image is in reach of the hardware as a whole if and only if it is empty or its last page is below 2^36 |
| Loader.LoadSector | src/fs/loader.cc:34-46 | one more sector of a page stands behind the ones before it, and no other frame changes; it fails exactly when its transfer does |
| Loader.PageAdds | src/fs/loader.cc:32-47 | one more page disturbs none of the earlier ones, because its frame was free |
| Loader.MissingIsNew | src/mm/pgtable_stage2.cc:103-131 | the heap pages that mapping page k of an image takes are the tables that no earlier page of it and nothing before the load needed |
| Sched.Sched.constructor | src/kernel/sched/sched_core.cc:69-74 | the init task alone, current, with no time left |
| Sched.Sched.AddTask | src/kernel/sched/sched_core.cc:93-98 | pids are positions; counters and priorities stay in range |
| Sched.Sched.PickNext | src/kernel/sched/sched_core.cc:148-158 | the scan finds the lowest-index RUNNING task of greatest counter, or task 0 with counter -1 if none is RUNNING |
| Sched.Sched.FindNext | src/kernel/sched/sched_core.cc:147-170 | with positive priorities the loop ends after at most one recharge, with the decision Decide describes |
| Sched.Sched.ScheduleInternal | src/kernel/sched/sched_core.cc:144-172 | the task chosen from counters and priorities, as DecideChooses says it, becomes the current one |
| Sched.Sched.Schedule | src/kernel/sched/sched_core.cc:88-91 | one step of the scheduler's machine: the current task gives up its time, and the task is chosen from what is left |
| Sched.Sched.SchedTimerHandler | src/kernel/sched/sched_core.cc:136-142 | one step of the machine: a tick takes one from the current counter; when at most one was left, it is 0 and a task is chosen; counters stay between 0 and twice the priority less one |
| Sched.Sched.ExitTask | src/kernel/sched/sched_core.cc:100-108 | exactly that task stops being RUNNING, then the current one yields |
| Sched.DecideMeans | src/kernel/sched/sched_core.cc:147-171 | a decision recharges if and only if some task is RUNNING and none of those has time left, and then takes the lowest-index RUNNING task of greatest counter; task 0 if none is RUNNING |
| Sched.DecideChooses | src/kernel/sched/sched_core.cc:147-171 | the same without the code's functions: either the counters stay, or each becomes half of what was left and the priority |
| Sched.EndsIff | src/kernel/sched/sched_core.cc:147-170 | for priorities from 0 on: the loop ends if and only if no task is RUNNING or a RUNNING one has a counter or a priority, and then within one recharge |
| Sched.ChoiceServes | src/kernel/sched/sched_core.cc:88-91 | a decision serves a task whose turn is due; when none is, it recharges and all RUNNING ones become due |
| Sched.SelectedOncePerRecharge | src/kernel/sched/sched_core.cc:136-172 | over every run: a RUNNING task was selected as often as there were recharges, less its turn if that is still due |
| Sched.FairCounts | src/kernel/sched/sched_core.cc:136-172 | counts taken from a recharge never differ by more than one |
| Sched.OncePerEpoch | src/kernel/sched/sched_core.cc:136-172 | between consecutive recharges every RUNNING task is selected exactly once |
| Sched.BoundedWaiting | src/kernel/sched/sched_core.cc:136-172 | from any state a RUNNING task is selected within 2N-1 decisions |
| Vcpu.Machine.CpuRegLoadVCpuSysregs | src/arch/arm64/cpu_regs.cc:24-82 | afterwards the guest reads, register by register, the words of the block in the order of the struct |
| Vcpu.Machine.CpuRegStoreVCpuSysregs | src/arch/arm64/cpu_regs.cc:84-142 | the block gets what the guest reads, but for the two identification registers, which are the hardware's |
| Vcpu.Machine.StopVcpu | src/kernel/sched/sched_task_context.cc:19-21 | the current block holds the guest's registers |
| Vcpu.Machine.RunVcpu | src/kernel/sched/sched_task_context.cc:13-17 | registers, stage-2 base, VMID and virtual interrupt are those of the guest |
| Vcpu.Machine.SetCpuVirtualInterrupt | src/kernel/sched/sched_virq.cc:7-25 | the cached flag always equals the HCR_EL2.VI bit, which equals the guest's pending interrupt; no other bit than VI and VF changes |
| Vcpu.Machine.VmEnter | src/kernel/vm/vm.cc:8-24 | the CPU becomes the current guest's, with an interrupt pending exactly if its console has input |
| Vcpu.Machine.EnterHypervisor | src/arch/arm64/irq/vectors_common.S:13-43 | a trap saves everything: no private CPU changes; the saved stack pointer is the top of the task's page |
| Vcpu.Machine.LeaveHypervisor | src/arch/arm64/irq/vectors_common.S:49-82 | while the guest executes, the physical registers are its private ones: pc, x0 to x30 and PSTATE as well as its system registers, with the virtual interrupt exactly if its console has input |
| Vcpu.Machine.GuestExecute | src/kernel/vm/vm.cc:8-42 | whatever a guest writes changes its own private CPU and no other |
| Vcpu.Machine.SwitchTaskTo | src/kernel/sched/sched_core.cc:174-182 | the next task goes on where it left off; no private CPU changes |
| Vcpu.Machine.TrapWfx | src/arch/arm64/irq/trap.cc:196-198 | a WFI or WFE acts on the trapping guest's private CPU once: it goes on at its old pc + 4 modulo 2^64, with one more trap counted, whenever it runs again |
| Vcpu.Machine.FinishWfx | src/arch/arm64/irq/trap.cc:199-200 | behind Schedule the current task is the one that trapped: its saved pc grows by 4 modulo 2^64, and its count by one |
| Vcpu.Machine.IncrementCurrentTaskPc | src/kernel/sched/sched_task_context.cc:7-11 | only the saved pc moves, modulo 2^64 |
| Vcpu.Machine.LoadTaskImage | src/kernel/sched/sched_create_task.cc:37-51 | a new guest starts at its entry, in EL1h with D, A, I and F masked, said in bits of PSTATE, and with its own registers loaded |
| Vcpu.Machine.Resume | src/arch/arm64/irq/vectors.S:15-47 | wherever a task left off, the hypervisor ends up in its guest, whose private CPU is on the CPU, its pc, registers and PSTATE included, with the virtual interrupt exactly if its console has input |
| Vcpu.Machine.InitialRegs | src/kernel/sched/sched_create_task.cc:25-35 | the template is taken once, with the MMU bit clear |
| Vcpu.Machine.CreateTask | src/kernel/sched/sched_create_task.cc:55-87 | a new private CPU with the template, zeros and the tables it was given; the others are as before |
| Vcpu.Machine.FlushTlbVmid | src/mm/pgtable_stage2.cc:156-163 | a page fault takes the tables off the CPU, which no private CPU notices |
| Vcpu.Machine.HandleMmTrapRegisterAccess | src/mm/kmm_trap.cc:22-38 | an emulated access asks the device once, at the address given, loads or stores the register named and no other, moves the pc by 4 modulo 2^64 and is counted once; for every access size, sign extension and register width that is what the guest's own CPU would have done at the IPA if and only if the address is the IPA, the value fits and no zero register is stored |
| Syndrome.RightIff | src/arch/arm64/irq/trap.cc:263-311 | for every instruction, every syndrome that reports it by its raw bits, register contents, addresses and answer: the emulation is what an Arm CPU would have done for the instruction if and only if the virtual address is the IPA, ISV is set and the value fits |
| Syndrome.SingleIff | src/mm/kmm_trap.cc:22-38 | the same for one load or store instruction of any size, signedness and register width |
| Syndrome.ExtendedIff | src/mm/kmm_trap.cc:30 | the whole answer is what an Arm load leaves in the register if and only if it fits the size or is already extended |
| Syndrome.ByteStoredWhole | src/mm/kmm_trap.cc:32 | a byte store of a register that holds 0x1ff gives the device 0x1ff, not 0xff |
| Syndrome.SignLost | src/mm/kmm_trap.cc:30 | a signed byte load of 0x80 leaves 0x80 in the register, not 0xffffffffffffff80 |
| Hypervisor.Hypervisor.constructor | src/kernel/sched/sched_core.cc:69-74 | with no guests the two halves of the machine agree |
| Hypervisor.Hypervisor.OwnTables | src/kernel/sched/sched_task_context.cc:13-17 | in every reachable state, while a guest executes, the stage-2 base and the VMID on the CPU are its own, so every hardware walk is a walk of its own tree |
| Hypervisor.Hypervisor.OwnRegisters | src/arch/arm64/irq/vectors_common.S:49-82 | and so are pc, PSTATE, x0 to x30 and the system registers it reads |
| Hypervisor.Hypervisor.OwnFrames | src/mm/pgtable_stage2.cc:103-143 | every DRAM frame the executing guest reaches was handed out for it and that page, lies outside the hypervisor's heap, and is reached by no other guest and no other page |
| Hypervisor.Hypervisor.GuestStore | src/mm/pgtable_stage2.cc:103-143 | a guest's store to DRAM changes the byte it finds at that address, and no other byte of its own or of any other guest |
| Hypervisor.Hypervisor.GuestExecute | src/kernel/vm/vm.cc:8-42 | what a guest does to its registers keeps the halves joined and all memory as it was |
| Hypervisor.Hypervisor.HandleMemoryAccessFault | src/mm/kmm_trap.cc:9-20 | for an IPA without a translation and any virtual address of it: handled exactly when there is a frame and a heap page for each missing table, for one frame; then the access goes through if and only if the IPA is below 2^36 and on the page selected for the virtual address, and otherwise is still untranslated; that page, if in reach, reads as zeros, every other byte of every guest is as before, and no page in reach has faulted twice in a guest whose own translation was the identity at its faults |
| Hypervisor.Hypervisor.HandleTrapMemAbort | src/arch/arm64/irq/trap.cc:291-311 | for every instruction that makes the access, as the syndrome's raw bits report it: a translation fault maps the page, any other status but a permission fault fails; at a permission fault a store makes exactly one Store of its register and keeps all registers, a load exactly one Load, whose answer its register gets; pc + 4 either way; with the exact condition for each to give what the access was to give |
| Hypervisor.Hypervisor.DataAbort | src/arch/arm64/irq/trap.cc:335-339 | the same from the moment the guest executes: whether the access goes through, is untranslated or forbidden is read from the fields of the leaf the hardware finds |
| Hypervisor.Hypervisor.ServeAbort | src/arch/arm64/irq/vectors.S:22-29 | the same up to the moment the guest goes on |
| Hypervisor.Hypervisor.ServePageFault | src/arch/arm64/irq/vectors.S:22-29 | when the guest goes on after a page fault its registers are as they were, and the access, by the tables on the CPU, goes through if and only if the IPA is below 2^36 and on the page that was mapped |
| Hypervisor.Hypervisor.FaultsAgain | src/mm/kmm_trap.cc:9-20 | an access out of reach, or on another page than the one mapped, faults each time it is tried and takes a frame each time; tried more often than there are frames it stops the hypervisor |
| Hypervisor.FirstOutOfReach | src/mm/pgtable_stage2.cc:103-143 | address 2^36: the tables hold what was mapped for it and the access is untranslated all the same |
| Hypervisor.Hypervisor.Interrupt | src/arch/arm64/irq/vectors_common.S:13-43 | an interrupt of a guest or of the idle loop keeps the halves joined and changes no private CPU |
| Hypervisor.Hypervisor.SwitchTaskTo | src/kernel/sched/sched_core.cc:174-182 | whatever the scheduler chooses, the halves stay joined |
| Hypervisor.Hypervisor.Resume | src/arch/arm64/irq/vectors_common.S:49-82 | the chosen guest goes on with its private CPU as it was |
| Hypervisor.Hypervisor.CreateGuest | src/kernel/sched/sched_create_task.cc:55-87 | the tables built for a new guest are the ones its CPU part names; by the leaves the hardware finds, distributor and UART are device memory without access and the virtual CPU interface is read-write device memory; it has no memory yet, and no byte of another guest changes; it fails exactly when fewer than ten heap pages are free |
| Hypervisor.Hypervisor.StartGuest | src/kernel/sched/sched_create_task.cc:37-51 | a guest that runs for the first time executes at its entry in EL1h with D, A, I and F masked, and finds the disk's bytes, then zeros, at every address of its image below 2^36 (va rounded down to a page, and on from there) and nothing at the others, while every other guest finds the bytes it had; it fails exactly when frames or heap pages are too few or a transfer fails |
| Kernel.Kernel.EveryGuestRuns | src/kernel/sched/sched_core.cc:136-182 | in every reachable state and wherever one starts to count: of any 2n+1 decisions in a row (timer interrupts, WFx traps, turns of the idle loop), n being the number of guests, each guest was on the CPU after one |
| Kernel.Kernel.TimerInterrupt | src/kernel/sched/sched_core.cc:136-142 | behind the interrupt the task that the scheduler's machine selects is on the CPU. A guest that never ran executes at its entry and finds the disk's bytes, then zeros, from its va rounded down to a page on (nothing from 2^36 on), and every other guest has the bytes and the private CPU it had; in all other cases every byte of every guest and every private CPU is as before. It fails exactly when a guest starts for whose image frames or heap pages are too few or a transfer fails |
| Kernel.Kernel.TrapWfx | src/arch/arm64/irq/trap.cc:196-201 | the same behind a WFx trap, which moves the trapping guest's pc by 4 modulo 2^64 and is counted once |
| Kernel.Kernel.Idle | src/kernel/kernel_main.cc:97-101 | the same behind a turn of the idle loop |
| Kernel.Kernel.CreateGuest | src/kernel/sched/sched_create_task.cc:55-87 | a new guest has the same pid for the scheduler and on the CPU, and time for one turn; the idle loop's next decision takes the first guest that has time left, and not the init task; it fails exactly when fewer than ten heap pages are free |
| Kernel.Kernel.GuestStore | src/mm/pgtable_stage2.cc:103-143 | a store changes one byte of the executing guest and keeps the scheduler joined |
| Kernel.Kernel.DataAbort | src/arch/arm64/irq/trap.cc:335-339 | a data abort keeps the machine whole and the same guest on the CPU: a page fault changes no private CPU and no byte but those of the page mapped; an emulated access is the one HandleTrapMemAbort describes, with the device's answer |
| Kernel.Kernel.OtherInterrupt | src/arch/arm64/irq/vectors.S:31-36 | an interrupt that is not the scheduler's leaves the same task on the CPU, with all private CPUs as they were and the virtual interrupt exactly if its console has input |
| Kernel.AllDecide | src/kernel/sched/sched_create_task.cc:63-64 | with priority 1 every tick is a decision |
| Fat32.BlockReached | src/fs/fat/fat32.cc:288-302 | a sector is reached if and only if it lies below 4 GiB |
| Fat32.EntryRead | src/fs/fat/fat32.cc:348-358 | the sector and offset the code computes hold the cluster's table entry |
| Fat32.NoRepeat | src/fs/fat/fat32.cc:245-248 | a chain that ends has no cluster twice, its end mark included, so searching the list by value finds the right node |
| Fat32.CacheAgrees | src/fs/fat/fat32.cc:338-378 | the cached walk equals the uncached one if and only if the offset is inside the chain, the end mark is not cached, or the mark is the bad cluster |
| Fat32.FoundInChain | src/fs/fat/fat32.cc:338-378 | for every offset inside the chain, on any volume and whether the chain ends or not, the cached result is the cluster an uncached walk finds, whatever is cached |
| Fat32.File.StepAlong | src/fs/fat/fat32.cc:346-371 | the list stays a beginning of the chain on the card |
| Fat32.File.CalcCluster | src/fs/fat/fat32.cc:338-378 | the cluster of an offset, inside the chain the one an uncached walk finds, whatever earlier calls cached; the list is still a beginning of the chain and only clusters in use were added |
| Fat32.File.CalcNextCluster | src/fs/fat/fat32.cc:492-511 | the next cluster of the chain, cached unchecked |
| Fat32.File.CalcNextSector | src/fs/fat/fat32.cc:479-490 | the next sector, or the first one of the next cluster, which is cached, behind a sector that counts as the last of its cluster |
| Fat32.BoundaryFound | src/fs/fat/fat32.cc:479-485 | the test for the last sector of a cluster is right for all its sectors if and only if the data begin at a multiple of the cluster size |
| Fat32.SectorReached | src/fs/fat/fat32.cc:513-522 | for any cluster size the 32-bit arithmetic finds the sector of an offset in a valid cluster, below 4 GiB: the data start, and whole clusters and 512-byte sectors on from there |
| Fat32.SectorOfOffset | src/fs/fat/fat32.cc:342 | an offset lies in the cluster of the chain, and the sector of it, that the code divides out, counting 512 bytes a sector |
| Fat32.File.FindNode | src/fs/fat/fat32.cc:245-248 | the search ends at the first node with the value, or runs off the list exactly when no node has it |
| Fat32.File.Locate | src/fs/fat/fat32.cc:241-248 | for an offset not behind the chain, on any volume: the node found is that of its cluster; there is none exactly at the end of the chain when the end mark is not cached |
| Fat32.File.Read | src/fs/fat/fat32.cc:226-278 | a range inside the file is copied byte for byte and nothing else of the buffer changes; a range that exceeds the file is refused; the code runs off its list exactly for an empty range at the end of a file that fills its clusters, unless the end mark is cached |
| Queue.Queue.Push | src/common/queue.cc:30-40 | a FIFO of 1023 words: accepted unless full, and then last |
| Queue.Queue.Pop | src/common/queue.cc:42-53 | the first word in order, or 0 when empty; no access outside the heap page |
| Queue.Queue.Full | src/common/queue.cc:26-28 | full exactly at 1023 words |
| Queue.Queue.Empty | src/common/queue.cc:22-24 | empty exactly when nothing is queued |
| Queue.RingPush | src/common/queue.cc:35-38 | writing at the tail appends, also around the end |
| Queue.RingPop | src/common/queue.cc:48-51 | moving the head drops the first, also around the end |
| Queue.Console.WriteData | src/platforms/virtio/virtio_pl011_uart.cc:99-107 | bytes accepted are bytes printed followed by bytes queued, in order; a byte that finds the queue full is dropped |
| Queue.Console.Flush | src/kernel/sched/sched_task_console.cc:15-21 | afterwards everything accepted is printed, in order |
| Printf.Ulitoa | src/common/cstdio/printf.cc:10-27 | for every 64-bit (ulitoa) or 32-bit (uitoa) value and base 2 to 16: the text reads back as the value, is made of the digits of the base in the case asked for, has no leading zeros, fits the buffer, and no power of the base leaves the word |
| Printf.Litoa | src/common/cstdio/printf.cc:29-44 | the same for every signed 64-bit value, the most negative included |
| Printf.Itoa | src/common/cstdio/printf.cc:65-80 | the same for every signed 32-bit value and base |
| Printf.PutDigits | src/common/cstdio/printf.cc:16-25 | the digit loop writes one digit for every power of the base |
| Printf.AtoiOfDigit | src/common/cstdio/printf.cc:82-91 | reading a digit's character gives the digit; the characters are 0 to 9 and then A to F, or a to f, by case |
| Printf.DigitsAre | src/common/cstdio/printf.cc:10-27 | the characters of every text printed are the first ones of 0123456789ABCDEF, or of 0123456789abcdef, as many as the base |
| Printf.NumeralIsUnique | src/common/cstdio/printf.cc:10-27 | a number has only one such text, so the properties above determine it |

## Left out

- Mmu.Mmu.InitXlatTables: both ends of a region are taken to be in range, and its physical address to be page-aligned; the source tests the range for guest regions only.
- Mmu.Mmu.CreatePageTables: says nothing for lists with a region whose offset does not fit, since splitting one of its blocks later would change what it maps.
- Hypervisor.Hypervisor.DataAbort: the other traps of the guest (system registers, hypercalls) are not modelled; what the devices answer is a parameter.
- Syndrome.RightIff: guests with big-endian data are not modelled; a store of one register, or a pair, is one value for each register.
- Hypervisor.Hypervisor.SwitchTaskTo: any choice is allowed; Kernel joins it with the scheduler's.
- Kernel.Kernel.EveryGuestRuns: counts decisions since the last guest was created, and no task has left the RUNNING ones, as nothing in the source calls ExitTask.
- Stage2.Memory.KmmMalloc: sizes above one page get one page in the source too; contiguous blocks do not exist.
- Stage2.Memory.KmmZalloc: clears a page of requested size, as every caller asks for whole pages.
- Stage2.Memory.UmmFree: requires that no leaf points at the frame; the source has no caller and no such test.
- Stage2.Memory.MapPage: the heap, the user region and the devices are taken to be apart.
- Sched.Sched.AddTask: requires a free slot, where the source writes past its array of eight.
- Vcpu.Machine.EnterHypervisor: entering and leaving are single steps, as interrupts are masked there; stack depth and instructions are not modelled.
- Vcpu.Machine.LeaveHypervisor: floating-point and SIMD registers, timers and the trapped system registers, which the source does not switch, are not part of the private CPU.
- Vcpu.Machine.TrapWfx: the counters of traps are unbounded here and 64-bit words in the source.
- VirtioBlk.VirtioBlk.DeviceStep: the device takes requests one after the other and answers each in finitely many polls; a device that never answers would hang the driver.
- VirtioBlk.VirtioBlk.constructor: feature negotiation and the queue registers are not modelled; two initializations are two queues, so memory of the first one is taken not to be reused by the second.
- Fat32.File.Read: clusters of several sectors (the multi-sector branch steps the list once a transfer) and failing reads of the card, which the source does not check, are not modelled; blocks past the card's end read as zeros.
- Fat32.EntryRead: the file allocation table is taken to begin below 3 GiB, so that all of it can be reached.
- Fat32 Init, Open and long file names: directory parsing is not modelled.
- Loader.LoadFile: the FAT32 path for other boards, which would combine Read and PageMap in the same way.
- Queue.Console.Flush: which guest owns the serial line, and the input side.
- Printf: format strings, field widths and varargs.
- Printf uitoa: is Ulitoa with 32-bit words, the code being the same.
- TLB and cache maintenance, MMU enabling, barriers, interrupt controller, UART, GPIO, mailbox, clocks, timers, MMC: hardware effects without state to reason about.
- Interrupt controller emulation, list.cc, uncached allocator, serial commands, logging: not modelled.
