# A verified model of the kernel's memory, scheduling and trap paths

This project models the RISC-V kernel's page allocator, its Sv39 page tables,
demand paging and fork, its priority scheduler, the register save and restore
code of `entry.S`, and the random number generator that feeds priorities. The
code that changes state is modelled by classes and loops that change state in
place; each method is proved against a specification, and the specifications
carry the theorems.

`dafny verify dfyconfig.toml` checks everything.

## How it is organised

| file | what it holds |
|---|---|
| `Bits.dfy`, `Defs.dfy` | 64-bit words, bitwise operators, `fixsize`, the address macros |
| `Formats.dfy` | what constants, macros and page-table formats come to, bit by bit and by number |
| `BuddyTree.dfy`, `Buddy.dfy` | the buddy tree as a function of the live blocks; the allocator |
| `Sv39.dfy` | the hardware's translation (section 4.3.2 of the RISC-V Privileged Architecture, version 1.12, with the Sv39 parameters of section 4.4), and the kernel's trees of tables |
| `Bytes.dfy`, `Ram.dfy` | bytes in words and frames; RAM and the byte routines |
| `Paging.dfy`, `Early.dfy` | `vm.c`: final and early page tables |
| `UserMemory.dfy` | `alloc_elf_mem` and `alloc_annoymous_vm` |
| `World.dfy` | address spaces as programs see them, lazy steps, the eager reference |
| `Spaces.dfy` | how kernel memory represents address spaces; isolation |
| `Processes.dfy` | task creation, page faults, fork, user loads and stores |
| `Scheduler.dfy` | `do_timer`, `schedule_priority`, the task table |
| `Context.dfy` | `_traps`, `__ret_from_fork`, `__dummy`, `__switch_to`, trap dispatch |
| `Rand.dfy` | `rand` |
| `Joint.dfy` | runs in which memory, task table and registers move together |
| `System.dfy` | the three parts of the same tasks in one object: boot, and every deed of a user program as one step of such a run |

Three ideas tie the memory part together.

*Canonical tree.* The allocator's array is always `Longest`, a function of the
set of live blocks alone. A live node reads 0 and everything below it keeps its
full size, which is what the upward search of `buddy_free` relies on.

*Ownership.* Every frame in use by the paging code carries a label: root, second
or third level table at a place in a root's tree, data page of a root, task page,
kernel image. Tables of different roots are disjoint except for the kernel half,
which every root copies. Free frames read zero; this is an explicit invariant,
because `setup_pte` does not clear the tables it allocates. It holds since RAM
starts zero and no path of the kernel frees a page.

*Lazy and eager.* What a program sees at an address is the mapped byte, or what a
fault would bring in. Faults are invisible, fork copies what is seen, and along
every run each read returns the byte of a reference in which every program owns
its whole memory from the start, wherever the program wrote the byte or its area
determines it. `Processes.Kernel` records what user programs do in a history, and
its invariant says that the memory it holds is reached by that history; so the
run theorem speaks of the kernel's own operations (`HistoryRefines`). `System.Os`
logs what the programs do, and its invariant says that the log is a joint run of
memory, scheduler and registers since the first program's start; what all such runs
guarantee is in `RunSinceBoot`.

Where the code and its intent disagree, the model follows the code and states the
exact condition: `perm_elf2vm` tests flags with `|`, so it always grants read,
write and execute (`PermFollowsFlagsIff`); a program that runs after a trap
has its own stack pointer exactly if that is not 0 (`UserTrap`); `fixsize` wraps to 0
outside 1..2^63 (`Fixsize`); the scheduler's loop ends exactly when some task has
time left or a positive priority (`DispatchesIff`); a page fault copies a
whole page of memory from the embedded file on, so a segment reads as its header
promises exactly if memory holds zeros where the segment goes on behind p_filesz,
in the file or behind it (`SegmentPromiseIff`).

## Model

| member | source | states |
|---|---|---|
| Bits.Fixsize | arch/riscv/kernel/mm.c:51-60 | the bit-smearing returns the least power of two that is at least n for 1 <= n <= 2^63, and 0 for every other 64-bit n |
| Bits.PowerTestCorrect | arch/riscv/kernel/mm.c:43 | the test `!(x & (x-1))` accepts exactly 0 and the powers of two |
| Bits.RoundPages | arch/riscv/kernel/mm.c:120-123 | a request of 0 pages counts as 1, any other up to 2^63 is rounded up to the least power of two |
| Bits.RoundUpLeast | arch/riscv/kernel/mm.c:51-60 | the rounded size is the least power of two not below n |
| Bits.OperatorBits | arch/riscv/kernel/mm.c:51-60 | the three operators bit by bit: bit k of or, of and, and of a right shift by j, for every k |
| Defs.PageAddressRoundTrip | arch/riscv/include/defs.h:123-126 | page number to address and back is the identity for every page and offset, the address is page-aligned, and 0 is no page's address |
| Formats.DirectMapNumbers | arch/riscv/include/defs.h:96-126 | by number: page pfn of RAM is at 0x8000_0000 + 0x1000 * pfn physically and at 0xffff_ffe0_0000_0000 + 0x1000 * pfn in the kernel, and the four macros convert between the three |
| Formats.RoundingIsTight | arch/riscv/include/defs.h:91-92 | the rounding macros give the greatest multiple of 4096 up to the address, and the least from it on, or 0 where that needs 65 bits |
| BuddyTree.LongestCovers | arch/riscv/kernel/mm.c:87-147 | a node with no live block at, below or above it makes every node above it show at least its size |
| BuddyTree.FullIffNothingUnder | arch/riscv/kernel/mm.c:108-111 | a node shows its full size exactly when no live block lies at or below it |
| BuddyTree.ClearIffPagesFree | arch/riscv/kernel/mm.c:125-135 | a node is clear of live blocks exactly when all its pages are free |
| BuddyTree.SharedPage | arch/riscv/kernel/mm.c:135 | two nodes that share a page are nested |
| BuddyAllocator.Buddy.constructor | arch/riscv/kernel/mm.c:62-85 | buddy_init establishes the canonical tree with exactly the pages up to the end of the kernel and of the tree array live, one leaf each |
| BuddyAllocator.Buddy.Fill | arch/riscv/kernel/mm.c:72-76 | the filling loop writes every node's size: the canonical tree of no live block |
| BuddyAllocator.Buddy.Reserve | arch/riscv/kernel/mm.c:78-81 | the k-th single-page allocation of the loop returns page k, and the loop stops at the first page behind the end |
| BuddyAllocator.Buddy.BuddyAlloc | arch/riscv/kernel/mm.c:115-147 | fails, changing nothing, exactly when no aligned run of the rounded size is free; otherwise returns the lowest such run and adds exactly that block; the tree stays canonical |
| BuddyAllocator.Buddy.FindFit | arch/riscv/kernel/mm.c:127-132 | the descent ends at a node of the requested size through nodes that all fit, never inside a live block |
| BuddyAllocator.Landed | arch/riscv/kernel/mm.c:127-135 | where the descent ends, the node's run is free and (index + 1) * node_size - size is its first page |
| BuddyAllocator.Buddy.RepairAncestors | arch/riscv/kernel/mm.c:137-141 | taking the maximum of both children up to the root makes the whole array canonical again |
| BuddyAllocator.Buddy.BuddyFree | arch/riscv/kernel/mm.c:87-113 | from any page of a live block exactly that block is released, and the tree is canonical again, so it is coalesced as far as possible |
| BuddyAllocator.Buddy.FindBlock | arch/riscv/kernel/mm.c:91-97 | the climb from a leaf stops at the live block that contains the page, with node_size equal to the block's size |
| BuddyAllocator.Buddy.Coalesce | arch/riscv/kernel/mm.c:101-112 | the upward loop restores the canonical tree after a release |
| BuddyAllocator.Buddy.AllocPages | arch/riscv/kernel/mm.c:149-159 | while page 0 is live, result 0 means failure and only failure; otherwise the result is the address of the lowest fitting run, whose pages were free and are the only ones added |
| BuddyAllocator.Buddy.FreePages | arch/riscv/kernel/mm.c:161 | any address inside a live block releases that block and no other |
| BuddyAllocator.HistoryIndependent | arch/riscv/kernel/mm.c:87-147 | two arrays reached by any histories with the same live blocks are equal |
| BuddyAllocator.AllocThenFreeRestores | arch/riscv/kernel/mm.c:87-147 | freeing any page of the run just allocated restores the array entry by entry |
| BuddyAllocator.AllFreed | arch/riscv/kernel/mm.c:87-113 | when every live block is freed the root shows `size` again |
| BuddyAllocator.BlocksApart | arch/riscv/kernel/mm.c:115-147 | two live blocks share no page, and each is aligned to its length inside the array |
| BuddyAllocator.PagesConserved | arch/riscv/kernel/mm.c:87-147 | live and free pages total `size`, and the live ones are the sum of the live blocks' sizes |
| Sv39.WalkIsLookup | arch/riscv/kernel/vm.c:41-58 | on the kernel's tables the hardware walk finds exactly what the kernel stored, for every page of every root |
| Sv39.LinkMid | arch/riscv/kernel/vm.c:26-29 | linking a zero frame as second-level table keeps all trees well formed and changes no translation of any root |
| Sv39.LinkLow | arch/riscv/kernel/vm.c:31-35 | the same for a third-level table |
| Sv39.SetLeaf | arch/riscv/kernel/vm.c:37-38 | writing a leaf changes one page's translation, for user pages in one root only |
| Sv39.AddRoot | arch/riscv/kernel/proc.c:34-38 | a copy of the kernel root is a root with an empty user half and the kernel's own kernel half |
| Formats.EntryBits | arch/riscv/include/defs.h:129-136 | V, R, W, X, U, A and D are bits 0, 1, 2, 3, 4, 6 and 7 of an entry, and bit k of the page number is bit k + 10 |
| Formats.EntryMeaning | arch/riscv/include/defs.h:129-136 | by bit number: which entries stop the walk, which are leaves, which point to the next table |
| Formats.ThreeLevels | arch/riscv/kernel/vm.c:20-39 | address bits 38-30, 29-21 and 20-12 index the three tables; a leaf at the end is the translation |
| Formats.MacroBits | arch/riscv/include/defs.h:117-118 | bits 12 up of an address are bits 10 up of an entry, and back, the others 0 |
| Bytes.ByteOfWithByte | arch/riscv/kernel/elfutils.c:24-31 | a stored byte reads back, and the other bytes of the word are unchanged |
| Bytes.OverwriteBytes | lib/string.c:3-15 | writing n bytes one after the other changes exactly those bytes, each to its source byte |
| Formats.ByteOfRam | arch/riscv/kernel/elfutils.c:28-31 | byte p of RAM is bits 8 * (p % 8) up of word p % 4096 / 8 of frame p / 4096 |
| Memory.Ram.Memset | lib/string.c:3-9 | n bytes from dst on are c, in order, nothing else changes |
| Memory.Ram.CopyBytes | lib/string.c:10-15 | n bytes between ranges that do not overlap are copied, nothing else changes |
| Memory.Ram.PgCpy | include/string.h:10-13 | the destination frame equals the source frame, nothing else changes |
| Memory.Ram.CopyTable | arch/riscv/kernel/proc.c:36-38 | the entry-wise copy makes the new root equal to the kernel root |
| Paging.Vm.Kalloc | arch/riscv/kernel/mm.c:170-180 | returns 0, changing nothing, exactly when no page is free, and otherwise hands out one page that was free |
| Paging.Vm.AllocRun | arch/riscv/kernel/mm.c:149-153 | returns 0, changing nothing, exactly when no aligned run of the rounded size is free, and otherwise hands out such a run, all of it free before |
| Paging.Vm.SetupPte | arch/riscv/kernel/vm.c:6-10 | the entry points, with the valid bit only, to a freshly allocated frame that reads zero; no other word of memory changes |
| Paging.Vm.MapFinal | arch/riscv/kernel/vm.c:20-39 | the hardware walk of va yields pa with perm and V, every other page of every root is unchanged also when tables are allocated, the tables stay well formed, and exactly the missing tables are allocated |
| Paging.Vm.WalkDown | arch/riscv/kernel/vm.c:22-35 | both upper levels exist afterwards and no translation changed |
| Paging.Vm.IsVaMapped | arch/riscv/kernel/vm.c:41-58 | true exactly when the hardware walk finds a leaf |
| Paging.Vm.HardwareWalk | arch/riscv/kernel/vma.c:27 | a level-by-level execution of the walk returns what the reference translation defines |
| Paging.Vm.MapRun | arch/riscv/kernel/vma.c:15-18 | the mapping loop maps consecutive pages to consecutive frames and leaves all other pages of all roots alone |
| Paging.Vm.SetupVmFinal | arch/riscv/kernel/vm.c:95-123 | the kernel root maps exactly the pages from the end of OpenSBI to the end of RAM, each at its fixed offset, R and X for text, R for read-only data, R and W behind |
| Formats.SatpBits | arch/riscv/kernel/vm.c:88-91 | the hardware takes the root's page number from bits 0 to 43 of `satp` |
| Formats.KernelPagePerms | arch/riscv/kernel/vm.c:101-119 | permission bits by address: 11 for pages that begin below the end of the text, 3 below the end of read-only data, 7 for all others |
| Paging.VpnIndices | arch/riscv/include/defs.h:109-111 | the index macros extract the three fields of the virtual page number |
| Paging.PteDecode | arch/riscv/include/defs.h:117-120 | the entry macros recover frame, flags and direct-map address of every entry that the kernel builds |
| EarlyPaging.SetupVm | arch/riscv/kernel/vm.c:70-83 | the early table holds 124 identity and 124 shifted gigabyte entries and nothing else |
| EarlyPaging.EarlyTranslates | arch/riscv/kernel/vm.c:13-17 | under the early table every physical address of the mapped range translates to itself, the same memory appears PA2VA_OFFSET higher, nothing else is mapped |
| EarlyPaging.DirectMapTranslates | arch/riscv/kernel/vm.c:95-123 | under the final kernel root va translates to va - PA2VA_OFFSET for VM_START + OPENSBI_SIZE <= va < PHY_END + PA2VA_OFFSET, and no other 64-bit address translates |
| EarlyPaging.HandedOutIsMapped | arch/riscv/kernel/mm.c:78-81 | every page that the allocator can still hand out after boot is a mapped kernel address |
| UserMemory.AllocZeroed | arch/riscv/kernel/vma.c:8-10 | newly allocated frames read zero and no other frame changed |
| UserMemory.AllocAnonymousVm | arch/riscv/kernel/vma.c:3-19 | the whole area, rounded to pages, is mapped to fresh zero frames; no other page of any root changes |
| UserMemory.AllocElfMem | arch/riscv/kernel/elfutils.c:40-66 | for any alignment the covering pages are mapped to fresh frames that hold zeros, the file bytes, zeros; no other page of any root changes |
| UserMemory.LoadedReadsBack | arch/riscv/kernel/elfutils.c:52-66 | read through the page table, every address of the segment yields its file byte and every other address of the covering pages yields zero |
| UserMemory.UserPermLegal | include/vma.h:30-33 | a readable area gives a legal user leaf whatever its other flags, executable exactly if the area is |
| UserMemory.UserPermBits | include/vma.h:29-33 | bit by bit: a user leaf has V and U, has R, W and X exactly as bits 1, 2 and 3 of its area's flags say, and nothing else |
| World.FindVma | arch/riscv/kernel/proc.c:213-225 | some area containing the address, or none exists |
| Formats.AreaPages | include/vma.h:9-27 | the pages of an area are those that hold an address from vm_start up to vm_end; it is anonymous exactly if bit 0 of its flags is set |
| World.ZeroFillIff | arch/riscv/kernel/trap.c:21-28 | laid over given bytes that hold all of it, a segment shows on a set of pages what its header promises, file bytes and then zeros, exactly if the bytes behind p_filesz are zeros there |
| World.FaultInvisible | arch/riscv/kernel/trap.c:9-30 | servicing a fault changes no byte of another program, no byte on a present page, and no byte whose first contents the area determines (zeros, or what the given bytes hold there, which may be the file or all of memory behind it) |
| World.WriteVisible | arch/riscv/kernel/syscall.c:50-59 | a store by parent or child to a page it has is seen by that program only, at that address only: address spaces share no memory |
| World.ForkPreservesMeaning | arch/riscv/kernel/syscall.c:50-59 | the child sees the parent's memory at every address although only mapped pages were copied; nobody else's memory changes |
| World.CopyOne | arch/riscv/kernel/vma.c:25-31 | copying one more mapped page extends the set of copied pages by exactly that page |
| World.AllCopied | arch/riscv/kernel/syscall.c:54-59 | after all areas every mapped page of the parent is copied |
| World.StepRefines | arch/riscv/kernel/trap.c:9-30 | each step of the lazy system is a step of the eager reference; a read returns the reference's byte if the program wrote it before or its area determines it |
| World.RunRefines | arch/riscv/kernel/trap.c:9-30 | over every run of faults, reads, writes, forks and task creations every read of a byte that the program or, before a fork, its parent wrote, or that its area determines, returns the byte of the eager reference |
| World.HistoryRefines | init/main.c:15-25 | whatever happened since boot, the world reached is sound, agrees with the reference, and every read on the way got the reference's byte |
| Spaces.FramesApart | arch/riscv/kernel/syscall.c:50-59 | no user page of a task shares its frame with another user page of any task, a task page, a root, a table or the kernel image |
| Spaces.TablesApart | arch/riscv/kernel/syscall.c:50-59 | no second- or third-level table of one task's user half is a table of another task, a task page, a root or a frame that a user page shows |
| Spaces.TaskPagesApart | arch/riscv/kernel/syscall.c:22 | two tasks never live in the same page |
| Spaces.UserConfined | arch/riscv/kernel/proc.c:32-47 | whatever address a user program uses and however it accesses it, it reaches a page of its own or faults: never the kernel half, a task page, a root, the kernel image or another task's page |
| Spaces.EntriesCanBeFollowed | arch/riscv/kernel/vm.c:25-35 | under every task's root, the root's own address and `PTE2VA` of every table entry on the way to any page are mapped kernel addresses of the table meant |
| Spaces.KernelHalfShared | arch/riscv/kernel/proc.c:34-38 | every task's root translates the upper half exactly as the direct map |
| Spaces.ViewSound | arch/riscv/kernel/vma.c:21-33 | ownership labels, together with anonymous areas being mapped wholly or not at all, make the represented address spaces disjoint |
| Spaces.Adopt | arch/riscv/kernel/vma.c:15-18 | installing fresh frames in one root, with the permission of their area, adds these pages to that task's space and changes no other task's |
| Spaces.NewProc | arch/riscv/kernel/proc.c:32-47 | a fresh task page and root make a new, wholly unmapped space and change nothing else |
| Spaces.StoreStep | arch/riscv/kernel/trap.c:9-30 | a store to a mapped user page changes that byte of that task's space and keeps all invariants |
| Processes.SatpSelects | arch/riscv/kernel/vm.c:88-91 | `satp` is 0x8000_0000_0008_0000 plus the frame number (mode 8 in bits 63-60) and selects exactly the given root |
| Processes.PermFollowsFlagsIff | arch/riscv/kernel/elfutils.c:3-6 | the converted permissions equal the segment's flags exactly when all three are set; a read-only segment becomes writable; every segment is readable and writable |
| Formats.SegmentPermBits | arch/riscv/kernel/elfutils.c:3-6 | what p_flags ask for, bit by bit, and that the conversion gives 14 (R, W and X) for all of them |
| Processes.Kernel.constructor | init/main.c:15-19 | the boot state satisfies the ownership invariant with no task |
| Processes.MmInit | arch/riscv/kernel/mm.c:163-168 | from RAM that reads zero behind the kernel: allocated are exactly the pages that begin below the end of the kernel plus 0x8_0000 bytes of tree array, and all memory invariants hold |
| Processes.StartKernel | init/main.c:15-25 | from the boot image to the first switch: one task runs on its own root, with the stack area and one area for each loadable segment; what it sees is the eager image of its program, and the history says so |
| Processes.Kernel.TaskInit | arch/riscv/kernel/proc.c:49-95 | one wholly unmapped task with the stack area [0x3f_ffff_f000, 0x40_0000_0000) and one area for each loadable segment, in terms of the file's bytes; the history and the reference gain exactly this task |
| Processes.Kernel.NewTask | arch/riscv/kernel/proc.c:32-38 | the new space is empty and no other space changes |
| Processes.Kernel.DoMmap | arch/riscv/kernel/proc.c:199-211 | one area is appended, nothing is mapped, all invariants are kept |
| Processes.Kernel.LoadElfProgram | arch/riscv/kernel/proc.c:227-247 | for every 56-byte header from e_phoff on, e_phnum of them, whose first word is 1, in order and no others, one area is added: start from byte 16 of the header, file offset from byte 8, p_filesz from byte 32, end at start plus byte 40's p_memsz modulo 2^64, flags 14 |
| Processes.AreasOfFile | include/elf.h:604-613 | the same for the areas that the specification derives from the file |
| Processes.LittleEndian | include/elf.h:604-613 | 2-, 4- and 8-byte fields of the file are little endian |
| Processes.Kernel.ReadHeader | arch/riscv/kernel/proc.c:236-244 | the fields read through the direct map are those of the k-th program header of the file, little endian |
| Processes.FieldAt | arch/riscv/kernel/proc.c:230-231 | the bytes that a load of n bytes finds at an offset of the embedded program are the file's |
| Processes.ReachedIffPresent | arch/riscv/kernel/trap.c:43-55 | a user-mode load or store at any 64-bit address is let through by the hardware, permission bits included, exactly on the program's present pages, and an instruction fetch exactly on those of an executable area (flag bit 3); so after every fault and fork |
| Processes.MappedBits | include/vma.h:30-33 | on every mapped page of every task the leaf has U, R and W, and X exactly if the page's area is executable |
| Processes.Kernel.FindArea | arch/riscv/kernel/proc.c:213-225 | the search loop returns the first area containing the address |
| Processes.FirstMatch | arch/riscv/kernel/proc.c:217-224 | the area found is the first one |
| Processes.Kernel.DoPageFault | arch/riscv/kernel/trap.c:9-30 | with no area nothing changes and the fault is not handled; otherwise, for the first area that contains the address: exactly its one page, a copy of the 4096 bytes of RAM at uapp + offset + (page - vm_start), or the whole anonymous area, all bytes 0, is added on frames nobody used; only tables of that task change, and the reference does not notice |
| Processes.Kernel.FaultInAnonymous | arch/riscv/kernel/trap.c:18-19 | the whole anonymous area appears, byte by byte zero |
| Processes.Kernel.FaultInFilePage | arch/riscv/kernel/trap.c:20-28 | the page appears with the bytes of memory at uapp + vm_content_offset_in_file + (va - vm_start), all 4096 of them, in the file and behind it, byte by byte |
| Processes.FilePageStart | arch/riscv/kernel/trap.c:22-25 | the 64-bit address arithmetic selects the file page that belongs to the faulting page, for congruent offsets |
| Processes.FilePageShows | arch/riscv/kernel/trap.c:22-28 | the page brought in is a copy of the whole source frame, in the file and behind it |
| Processes.ImageCovers | arch/riscv/kernel/trap.c:21-28 | memory from the file on determines the first contents of every page of every area, so with it UserLoad, UserStore and FaultInvisible speak of every reachable byte |
| Processes.SegmentPromiseIff | arch/riscv/kernel/trap.c:21-28 | for every file-backed area of every task and any of its pages: what faults bring in, as memory is, is what the program header promises exactly if memory holds zeros from p_filesz to p_memsz there, within the file or behind its end |
| Processes.SegmentPromiseFails | arch/riscv/kernel/trap.c:21-28 | a loadable file of 120 bytes, with p_flags 5, p_offset 32, p_vaddr 0x1_0020, p_filesz 2 and p_memsz 0x2000: 32 bytes into its segment, where zero is promised, the program reads a 1 |
| Processes.Kernel.UserLoad | arch/riscv/kernel/trap.c:42-50 | a load at any address, with its fault serviced if need be, returns the byte the program's memory has there, which on an absent page is what memory from the file on holds, and the reference's byte if there is one; no program's memory changes; it fails exactly when the page is absent and no area contains the address |
| Processes.Kernel.UserStore | arch/riscv/kernel/trap.c:52-55 | a store at any address changes that byte of that program and no other byte of any program, absent pages taken as memory from the file on was before; the only allocated frames that change are the page stored to and tables of that task; it fails exactly when a load would |
| Processes.AccessRefines | arch/riscv/kernel/trap.c:9-30 | whatever the address, a memory that differs as UserLoad or UserStore say follows the reference from then on |
| Processes.Kernel.SysFork | arch/riscv/kernel/syscall.c:20-65 | with two free pages and one for every mapped page and every table these need: the child gets the parent's areas, a root of its own and a fresh equal copy of every mapped page; all other spaces are unchanged; the child runs next on its own table; the reference gains a copy of the parent |
| Processes.ForkFramesAdd | arch/riscv/kernel/vma.c:24-32 | copying one more page takes one frame and one for each of its two tables that no page copied before shares |
| Processes.ForkFramesFew | arch/riscv/kernel/vma.c:24-32 | nothing mapped takes no frame, one page takes three |
| Processes.Kernel.CreateChild | arch/riscv/kernel/syscall.c:22-52 | task page and root are fresh, the child's space is wholly unmapped |
| Processes.Kernel.CopyVmaMem | arch/riscv/kernel/vma.c:21-33 | exactly the mapped pages of the area are copied |
| Processes.Kernel.CopyPage | arch/riscv/kernel/vma.c:25-31 | a page is copied exactly if the parent has it mapped |
| Processes.Kernel.CopyToFresh | arch/riscv/kernel/vma.c:26-27 | the fresh frame holds what the parent's page holds, read through the active table |
| Processes.Kernel.SwitchTo | arch/riscv/kernel/proc.c:113-120 | the running task's own root becomes active and no memory changes |
| Scheduling.PickIsBest | arch/riscv/kernel/proc.c:169-178 | the scan picks a task whose positive counter is maximal, the highest slot on ties, and none only if all counters are 0 |
| Scheduling.DispatchesIff | arch/riscv/kernel/proc.c:168-187 | dispatch succeeds, with at most one recharge, exactly if some task has a positive counter or priority; otherwise recharging changes nothing and the loop never ends |
| Scheduling.StepGood | arch/riscv/kernel/proc.c:122-189 | every timer tick and fork keeps all counters at most 10 and runs only a task with time left; idle never runs again |
| Scheduling.RunGood | arch/riscv/kernel/proc.c:122-189 | the same over every run of ticks and forks |
| Scheduling.UsedUp | arch/riscv/kernel/proc.c:163-189 | from any state the tasks use up their counters one after the other in dispatch order, and then an epoch starts with the same priorities |
| Scheduling.Epoch | arch/riscv/kernel/proc.c:163-189 | an epoch lasts the sum of the priorities, runs each task exactly priority ticks in one go, and returns to its start state |
| Scheduling.TurnsSorted | arch/riscv/kernel/proc.c:169-178 | the dispatch order is by decreasing counter, ties to the higher slot |
| Scheduling.ProportionalShare | arch/riscv/kernel/proc.c:163-189 | after k epochs every task has run exactly k times its priority |
| Scheduling.NoStarvation | arch/riscv/kernel/proc.c:122-189 | without forks a task with time left runs within as many ticks as all tasks have left together |
| Scheduling.EveryoneRuns | arch/riscv/kernel/proc.c:122-189 | without forks every task, its counter used up or not, runs within the sum of all counters and priorities |
| Scheduling.NoStarvationWithForks | arch/riscv/kernel/proc.c:122-189 | over every run with forks a task with time left has run before the ticks exceed the time left at the start and 10 for each fork, and any task at most 150 ticks later |
| Scheduling.TaskTable.constructor | arch/riscv/kernel/proc.c:49-95 | idle and one task, pids are slot numbers, the rest of the table is empty |
| Scheduling.TaskTable.AddTask | arch/riscv/kernel/proc.c:20-29 | the task takes the first free slot, used slots stay a prefix, and -1 is returned exactly when the table is full |
| Scheduling.TaskTable.Fork | arch/riscv/kernel/syscall.c:22-39 | the child takes the next slot, with pid equal to its slot, the counter its parent has and priority random % 10 + 1, and runs at once; counter and priority of every older task are unchanged |
| Scheduling.ChildKeepsProcessor | arch/riscv/kernel/syscall.c:30-62 | a fresh child keeps the processor for exactly the ticks its parent had left, tick by tick, and then the next task is dispatched |
| Scheduling.TaskTable.DoTimer | arch/riscv/kernel/proc.c:122-132 | the new table state is the policy's tick of the old one |
| Scheduling.TaskTable.ScheduleByPriority | arch/riscv/kernel/proc.c:163-189 | for any fields in range, when some counter or priority is positive: terminates with at most one recharge and dispatches the policy's choice |
| Scheduling.TaskTable.Scan | arch/riscv/kernel/proc.c:169-178 | the downward scan over a table with empty slots finds the policy's choice |
| TrapContext.Machine.Traps | arch/riscv/kernel/entry.S:28-84 | all registers, sepc and sstatus are saved below the kernel stack pointer, with t0 and sp replaced by kernel values, and sscratch holds the user's sp; also for a trap from kernel mode |
| TrapContext.Machine.RestoreAndReturn | arch/riscv/kernel/entry.S:93-148 | every register but sp and t0 comes from the frame; sp comes from sscratch if that is not 0, and from the frame otherwise |
| TrapContext.Machine.Dummy | arch/riscv/kernel/entry.S:154-161 | sp and sscratch change places and the program starts at sepc |
| TrapContext.Machine.SwitchRegisters | arch/riscv/kernel/entry.S:176-230 | ra, sp, s0 to s11, sepc, sstatus and sscratch are saved in prev and loaded from next, also when both are the same task |
| TrapContext.Machine.FirstDispatch | arch/riscv/kernel/proc.c:74-86 | the first task enters user mode at its entry point with sp = 0x40_0000_0000, sstatus 0x4_0020 and the last byte of its page in sscratch |
| TrapContext.Machine.UserTrap | arch/riscv/kernel/trap.c:32-78 | for every cause, system call number and stack pointer, on registers by number: cause 8 with x17 172 gives x10 the pid, 64 what write returned, 220 forks, any other leaves x10, and pc advances by 4; cause 0x8000000000000005 switches to the task the scheduler chose; no other cause, page faults 12, 13 and 15 included, changes x10 or pc; all other registers stay, x5 aside; the program that runs next is in user mode with its own stack pointer exactly if that is not 0, and otherwise with the kernel's |
| TrapContext.AnsweredAsDispatched | arch/riscv/include/syscall.h:13-15 | the dispatch by cause and number does what these numbers say |
| TrapContext.Machine.FaultFromAnyStack | arch/riscv/kernel/entry.S:133-141 | a program gets its stack pointer back after a fault exactly if it is not 0 |
| TrapContext.Machine.Depart | arch/riscv/kernel/proc.c:113-120 | the task that is left will return to its context when it is switched to |
| TrapContext.Machine.Resume | arch/riscv/kernel/entry.S:202-230 | whatever way the next task had left by, it is in user mode with its own context |
| TrapContext.Machine.ServeFork | arch/riscv/kernel/syscall.c:20-65 | the child resumes behind the ecall with the parent's registers but a0 = 0, on the kernel stack in its own page; the parent will get its own pid |
| TrapContext.Machine.CopyTask | arch/riscv/kernel/syscall.c:30-48 | the copied page, with the relocated frame, returns to the child's context |
| TrapContext.ServedKeeps | arch/riscv/kernel/trap.c:57-78 | the trapping program keeps sp and every register but t0 and a result in a0; pc advances by 4 for system calls only; other programs' registers are untouched |
| TrapContext.RegistersSurvive | arch/riscv/kernel/entry.S:28-148 | over every interleaving of programs, timer switches and forks, a program that trapped and runs again finds the registers it trapped with |
| Random.Generator.Rand | lib/rand.c:7-35 | call number n writes the sum modulo 2^32 of the words 31 and 3 before, in the word the recurrence gives for call n, and returns one more than its last decimal digit, for a negative word that of the word plus 2^64; always 1 to 10 and never outside the array |
| Random.DigitLaw | lib/rand.c:34 | the digit by the sign of the word; -1 gives 6, and -31116076 gives 1 |
| Random.RemLaw | lib/rand.c:13 | C's remainder: congruent to the dividend, smaller than the divisor, and never of the opposite sign |
| Random.Wrap32Law | lib/rand.c:22 | the wrapped sum is the one 32-bit integer congruent to the sum modulo 2^32 |
| Random.LaggedLaw | lib/rand.c:11-30 | the sequence by number: 5, then 30 words by factor 16807 modulo 2147483647, 3 copies, and sums modulo 2^32 of the words 31 and 3 before |
| Random.Generator.Refill | lib/rand.c:30 | a call overwrites one word with the sum of the words 31 and 3 before it, in the array as earlier calls left it |
| Random.Generator.Seeded | lib/rand.c:13-16 | the seeding step is the residue modulo 2^31 - 1 for every word, negative ones included |
| Random.Generator.Initialize | lib/rand.c:11-23 | the first 344 words are those of the lagged sequence, with 32-bit wrapping sums |
| Random.ContentsLagged | lib/rand.c:28-34 | after any number of calls the array holds the lagged sequence: a later pass reproduces every word |
| Random.Periodic | lib/rand.c:28-34 | what is written repeats every 656 calls from the first call on, although the array is rewritten |
| System.Boot | init/main.c:15-25 | from the boot image: address space, task slot and registers of the first task agree, and it is in user mode at the file's e_entry, its 8 bytes from 24 on, with sp = USER_END |
| System.Os.TimerTrap | arch/riscv/kernel/trap.c:39-42 | the policy's tick decides who runs next, on its own root, kernel stack and registers, and no memory changes |
| System.Os.FaultTrap | arch/riscv/kernel/trap.c:43-55 | the page is mapped with its initial contents and the program goes on with its registers, t0 aside |
| System.Os.ForkTrap | arch/riscv/kernel/trap.c:71-77 | one fork as a whole: slot (the parent's counter, priority random % 10 + 1), copied memory and registers are those of one new task, which runs at once on the kernel stack in its own page |
| System.Os.Load | arch/riscv/kernel/trap.c:47-50 | a load, with the page fault taken if the page is absent, is logged as one or two steps of the joint run; it fails exactly if no area contains the address |
| System.Os.Store | arch/riscv/kernel/trap.c:52-55 | the same for a store |
| System.Os.Call | arch/riscv/kernel/trap.c:62-70 | getpid (172 in x17) returns the pid in x10, write (64) its result, unknown calls leave x10; pc advances by 4; each is one step of the joint run |
| System.Os.Tick | arch/riscv/kernel/trap.c:39-42 | so is a timer interrupt |
| System.Os.Fork | arch/riscv/kernel/trap.c:71-77 | so is a fork |
| System.Os.RunSinceBoot | init/main.c:15-25 | since the first program's start, whatever all programs did: their memory is the eager reference and every load got its byte; from any point on no program was kept waiting beyond the bound; every program that trapped and ran again found its registers |
| Joint.MemoryAlong | arch/riscv/kernel/trap.c:32-79 | over every joint run memory refines the eager reference and loads return its bytes |
| Joint.NobodyWaitsLong | arch/riscv/kernel/proc.c:122-189 | from any point of a joint run a program has run before the ticks exceed what the tasks had left, 10 for each fork, and 150 if it had nothing left |
| Joint.RegistersAlong | arch/riscv/kernel/entry.S:28-148 | over every joint run a program that traps and runs again finds its registers |
| Joint.Together | arch/riscv/kernel/proc.c:113-120 | at every point of a joint run the same program runs for memory, scheduler and registers |

## Left out

- SysFork: requires as many free frames as it uses, because the callers do not check allocations; a fork that runs out of memory is not modelled.
- MapFinal: excludes allocation failure, as do AllocAnonymousVm, AllocElfMem and DoPageFault; the kernel does not check the result there, so running out of memory is undefined.
- AllocElfMem: asks for an upper bound on the tables the run can need (`Ahead`), not for the exact number; so does AllocAnonymousVm.
- UserLoad: loads and stores of one byte only; whether the hardware lets an instruction fetch through is stated (ReachedIffPresent, Hits), but fetches are not logged.
- UserTrap: t0 is lost on every trap (it holds the user's stack pointer afterwards); what a program does after it came back with the kernel's stack pointer is not modelled. System.Os requires a program that traps to have a stack pointer other than 0.
- HistoryRefines: the reference over a whole run knows the file's bytes; what lies behind the file is kernel memory, which can change between two faults, so there each fault is stated against memory at its own time.
- ServeFork: C code between entry and exit is modelled by what it stores and by arbitrary values in all other registers; the depth of its stack frames is a parameter.
- Fork: fewer than 15 tasks are required, since the kernel halts when the task table is full.
- The task structure is split by concern: its areas and root are in Processes, its scheduling fields in Scheduling, its registers in TrapContext; System joins them task by task, but a task's page in RAM is not decoded into these fields. What the C functions keep on a suspended task's kernel stack is a flag that says which of them have to return. Overlap of a growing area array with the kernel stack is not modelled.
- The allocator's tree array is an array of its own, not a part of modelled RAM; that it does not overlap pages in use is the reservation made by buddy_init.
- Areas are required to be page-disjoint, readable and writable (as every area this kernel makes is), inside user space and, when file-backed, congruent with the file modulo the page size, as the System V gABI demands of loadable segments; a file-backed area's pages must lie in allocated frames.
- Writes to `satp` take effect at once; TLB fences and the accessed and dirty bits are not modelled. The changes that a trap and `sret` make to sstatus are not modelled: its value is saved and restored.
- Traps taken inside the kernel while a user trap is served, SBI calls, the clock, printing and sys_write's output are not modelled; what write returns is a parameter.
- `schedule_short_first`, `assign_counter`, `create_mapping`, `kfreerange` and `dummy` are not called in this build.
- `rand` is called once for a new task's priority; the model takes the drawn number as a parameter and does not join the two.
