/** Tasks and their memory: creating the first task, servicing page faults,
    forking, and what a load or a store of a user program does. */
module Processes {
  import opened Bits
  import opened Defs
  import opened BuddyTree
  import opened BuddyAllocator
  import opened Sv39
  import opened Bytes
  import opened Memory
  import opened Paging
  import opened UserMemory
  import opened World
  import opened Spaces

  /** `satp` for a root table: mode Sv39 and the table's physical page number. */
  function GetSatp(pgtbl: Word): (satp: nat) { Or(0x8000_0000_0000_0000, Shr(Va2Pa(pgtbl), 12)) }

  /** The root table the memory-management unit walks. */
  function ActiveRoot(satp: Word): int { satp % 0x1000_0000_0000 - PPN_BASE }

  lemma SatpSelects(f: nat)
    requires f < FRAMES
    ensures GetSatp(Kva(f)) == 0x8000_0000_0008_0000 + f < TWO_64 && ActiveRoot(GetSatp(Kva(f))) == f
  {
    hide Pow2, Or, Shr, Va2Pa, Kva;
    var x := PPN_BASE + f;
    SatpPpn(f);
    assert Pow2(63) == 0x8000_0000_0000_0000 by { Pow2Values(); }
    OrDisjoint(1, x, 63);
    DivUnique(0x8000_0000_0000_0000 + x, 0x1000_0000_0000, 0x8_0000, x);
  }

  lemma SatpPpn(f: nat)
    requires f < FRAMES
    ensures Shr(Va2Pa(Kva(f)), 12) == PPN_BASE + f
  {
    hide Pow2, Wrap, Va2Pa;
    PageAddressRoundTrip(f, 0);
    assert Pow2(12) == 0x1000 by { Pow2Values(); }
    DivUnique(PHY_START + 0x1000 * f, 0x1000, PPN_BASE + f, 0);
  }

  /** The fields of a program header that the loader uses. */
  datatype ProgramHeader =
    ProgramHeader(kind: Word, flags: Word, offset: Word, vaddr: Word, fileSize: Word, memSize: Word)

  const PT_LOAD: Word := 1
  const PF_X: Word := 1
  const PF_W: Word := 2
  const PF_R: Word := 4

  function BitIf(on: bool, mask: Word): Word { if on then mask else 0 }

  function PermElf2Vm(elfPerm: Word): Word {
    PermBits();
    Or(Or(BitIf(Or(elfPerm, PF_W) != 0, VM_W_MASK), BitIf(Or(elfPerm, PF_R) != 0, VM_R_MASK)),
       BitIf(Or(elfPerm, PF_X) != 0, VM_X_MASK))
  }

  /** What the segment's flags ask for. */
  function SegmentPerm(elfPerm: Word): Word {
    PermBits();
    Or(Or(BitIf(And(elfPerm, PF_W) != 0, VM_W_MASK), BitIf(And(elfPerm, PF_R) != 0, VM_R_MASK)),
       BitIf(And(elfPerm, PF_X) != 0, VM_X_MASK))
  }

  /** The conversion follows the segment's flags exactly when these ask for
      everything. A read-only segment (PF_R alone) becomes writable. */
  lemma PermFollowsFlagsIff(elfPerm: Word)
    ensures PermElf2Vm(elfPerm) == SegmentPerm(elfPerm) <==>
            And(elfPerm, PF_X) != 0 && And(elfPerm, PF_W) != 0 && And(elfPerm, PF_R) != 0
    ensures PermElf2Vm(PF_R) != SegmentPerm(PF_R)
    ensures And(PermElf2Vm(elfPerm), VM_R_MASK) != 0 && And(PermElf2Vm(elfPerm), VM_W_MASK) != 0
    ensures And(PermElf2Vm(elfPerm), VM_ANONYM) == 0
  {
    OrNotZero(elfPerm, PF_W);
    OrNotZero(elfPerm, PF_R);
    OrNotZero(elfPerm, PF_X);
    PermBits();
  }

  lemma OrNotZero(a: nat, b: nat)
    requires b > 0
    ensures Or(a, b) != 0
  {}

  lemma PermBits()
    ensures Or(0, 0) == 0 && Or(4, 0) == 4 && Or(0, 2) == 2 && Or(4, 2) == 6
    ensures Or(0, 8) == 8 && Or(4, 8) == 12 && Or(2, 8) == 10 && Or(6, 8) == 14
    ensures Or(2, 0) == 2 && Or(6, 0) == 6 && Or(2, 4) == 6 && Or(6, 1) == 7
    ensures And(14, 2) == 2 && And(14, 4) == 4 && And(14, 1) == 0 && And(4, 4) == 4 && And(4, 2) == 0
  {}

  /** n bytes of the file, little endian. */
  function FileWord(file: File, off: nat, n: nat): (w: nat)
    requires off + n <= |file|
    ensures w < Byte256(n)
    decreases n
  { if n == 0 then 0 else file[off] + 256 * FileWord(file, off + 1, n - 1) }

  /** The file has an ELF header, and its program headers lie inside it. */
  predicate ElfShaped(file: File) {
    64 <= |file| < 0x1000 * FRAMES && FileWord(file, 32, 8) + 56 * FileWord(file, 56, 2) <= |file|
  }

  /** The program header at offset off: `Elf64_Phdr`. */
  function HeaderAt(file: File, off: nat): ProgramHeader
    requires off + 56 <= |file|
  {
    Word8();
    assert Byte256(4) == 0x1_0000_0000;
    ProgramHeader(FileWord(file, off, 4), FileWord(file, off + 4, 4), FileWord(file, off + 8, 8),
                  FileWord(file, off + 16, 8), FileWord(file, off + 32, 8), FileWord(file, off + 40, 8))
  }

  /** All e_phnum program headers, from e_phoff on. */
  function HeadersOf(file: File): (headers: seq<ProgramHeader>)
    requires ElfShaped(file)
    ensures |headers| == FileWord(file, 56, 2)
  {
    var first := FileWord(file, 32, 8);
    seq(FileWord(file, 56, 2), k requires 0 <= k < FileWord(file, 56, 2) => HeaderAt(file, first + 56 * k))
  }

  function SegmentArea(h: ProgramHeader): Vma {
    Vma(h.vaddr, Wrap(h.vaddr + h.memSize), PermElf2Vm(h.flags), h.offset, h.fileSize)
  }

  /** One area for every loadable segment, in order. */
  function SegmentAreas(headers: seq<ProgramHeader>): seq<Vma> {
    if headers == [] then []
    else
      var last := headers[|headers| - 1];
      SegmentAreas(headers[..|headers| - 1]) + if last.kind == PT_LOAD then [SegmentArea(last)] else []
  }

  /** The first task's areas: its stack page and its segments. */
  function ProgramAreas(file: File): seq<Vma>
    requires ElfShaped(file)
  { [Vma(USER_END - PGSIZE, USER_END, 7, 0, 0)] + SegmentAreas(HeadersOf(file)) }

  /** How many of the file's first k program headers, 56 bytes each, have p_type 1. */
  function LoadsBefore(file: File, k: nat): nat
    requires ElfShaped(file) && k <= FileWord(file, 56, 2)
  {
    if k == 0 then 0
    else LoadsBefore(file, k - 1) + if FileWord(file, FileWord(file, 32, 8) + 56 * (k - 1), 4) == 1 then 1 else 0
  }

  /** v is the area of the Elf64_Phdr at offset h: p_offset, p_vaddr, p_filesz and
      p_memsz are its words at bytes 8, 16, 32 and 40, and all is permitted. */
  predicate AreaOfHeader(file: File, h: nat, v: Vma)
    requires h + 56 <= |file|
  {
    && v.start == FileWord(file, h + 16, 8) && v.offset == FileWord(file, h + 8, 8)
    && v.end == (v.start + FileWord(file, h + 40, 8)) % 0x1_0000_0000_0000_0000
    && v.fileSize == FileWord(file, h + 32, 8) && v.flags == 14
  }

  /** From the given index on, the areas are those of the loadable segments of the
      file, one for each, in the order of the program headers. */
  ghost predicate OneAreaPerSegment(file: File, vmas: seq<Vma>, first: nat)
    requires ElfShaped(file)
  {
    && |vmas| == first + LoadsBefore(file, FileWord(file, 56, 2))
    && forall k: nat :: k < FileWord(file, 56, 2) ==>
         var h := FileWord(file, 32, 8) + 56 * k;
         FileWord(file, h, 4) == 1 ==>
           var n := first + LoadsBefore(file, k);
           n < |vmas| && AreaOfHeader(file, h, vmas[n])
  }

  class Kernel {
    const vm: Vm
    const uapp: Word
    ghost const boot: Boot
    /** task[1..], the slots in use. */
    var procs: seq<Proc>
    /** Index into procs of the running task. */
    var current: nat
    var satp: Word
    /** What user programs did and the kernel did for them, since boot. */
    ghost var history: seq<MemoryEvent>

    ghost function Repr(): set<object> { {this} + vm.Repr() }

    ghost function Seen(): World
      reads Repr()
    { View(vm.Now(), procs) }

    /** Between steps of an operation. */
    ghost predicate Steady()
      reads Repr()
    {
      && vm.Ready() && vm.kroot == boot.kroot && boot.uapp < FRAMES && uapp == Kva(boot.uapp)
      && KernelOnly(boot.perms) && Sane(vm.Now(), boot, procs)
    }

    /** The programs' memory is the outcome of the history. */
    ghost predicate Valid()
      reads Repr()
    { Steady() && Sound(Seen()) && Reached(boot.file, history, Seen()) }

    /** The eager programs that the history leads to. */
    ghost function Reference(): seq<Eager>
      reads this
    { EagerRun([], history) }

    /** One more step, from the world `before`. */
    ghost method Record(before: World, e: MemoryEvent)
      requires Steady() && Reached(boot.file, history, before) && Next(boot.file, before, e, Seen())
      modifies this`history
      ensures Valid() && history == old(history) + [e] && Seen() == old(Seen())
      ensures Reference() == EagerNext(old(Reference()), e)
      ensures ReadsReference(boot.file, e, old(Reference()))
    {
      hide KernelOnly, Sane, Sound, View, Next, Reached, UsedPages, ReadsReference, EagerNext;
      ReachedStep(boot.file, history, before, e, Seen());
      history := history + [e];
      HistoryRefines(boot.file, history, Seen());
      HistoryEnds(boot.file, old(history), e);
    }

    /** A user program runs, on its own table. */
    ghost predicate Running()
      reads this
    { current < |procs| && procs[current].root < FRAMES && satp == GetSatp(Kva(procs[current].root)) }

    /** The running task's root table. */
    ghost function RootNow(): nat
      reads this
    { if current < |procs| then procs[current].root else 0 }

    /** An access to addr by the running program faults, and memory suffices. */
    ghost predicate Faulting(addr: Word)
      reads Repr()
    { Running() && !Present(Seen(), current, addr) && FaultRoom(vm, procs[current].vmas, addr) }

    /** Some area of the running program contains addr. */
    ghost predicate HasArea(addr: Word)
      reads this
    { current < |procs| && FindVma(procs[current].vmas, addr).Some? }

    /** After `setup_vm_final`: no task exists, and the frames of the embedded
        program file become the file every task is loaded from. */
    constructor (vm: Vm, uapp: Word, ghost boot: Boot)
      requires vm.Valid() && vm.kroot == boot.kroot && boot.uapp < FRAMES && uapp == Kva(boot.uapp)
      requires DirectMapped(vm.ram.frames, boot.kroot, 512, FRAMES, boot.perms) && KernelOnly(boot.perms)
      requires ImageIn(vm.Now(), boot) && NoData(vm.owner)
      modifies vm
      ensures Valid() && this.vm == vm && this.uapp == uapp && procs == [] && this.boot == boot
      ensures vm.used == old(vm.used)
      ensures history == [] && Seen() == NoWorld()
      ensures vm.owner == old(vm.owner) + ImageLabels(boot) && vm.Ready()
    {
      this.vm, this.uapp, this.boot := vm, uapp, boot;
      procs, current, satp := [], 0, 0;
      history := [];
      new;
      ghost var s := vm.Now();
      vm.Label(ImageLabels(boot));
      ImageAdopted(s, vm.Now(), boot);
      ReachedNothing(boot.file);
    }

    /** `switch_to`, as far as memory goes. */
    method SwitchTo(next: nat)
      requires Steady() && next < |procs|
      modifies this`current, this`satp
      ensures Steady() && Running() && current == next && Seen() == old(Seen()) && (old(Valid()) ==> Valid())
    {
      RootFacts(vm.Now(), boot, procs, next);
      SatpSelects(procs[next].root);
      current := next;
      satp := GetSatp(Kva(procs[next].root));
    }

    /** `find_vma`. */
    method FindArea(vmas: seq<Vma>, addr: Word) returns (r: Option<nat>)
      ensures r == FindVma(vmas, addr)
      ensures r.Some? ==> FirstArea(vmas, addr, r.value)
      ensures r.None? ==> forall k: nat :: !FirstArea(vmas, addr, k)
    {
      var i := 0;
      while i < |vmas|
        invariant i <= |vmas| && forall j :: 0 <= j < i ==> !HasAddr(vmas[j], addr)
      {
        if HasAddr(vmas[i], addr) {
          FirstMatch(vmas, addr, i);
          return Some(i);
        }
        i := i + 1;
      }
      r := None;
    }

    /** `do_page_fault`: false when no area contains the address (the kernel
        halts); otherwise the address is mapped afterwards, and what was added
        holds the area's initial contents. */
    method DoPageFault(errAddr: Word) returns (handled: bool, ghost added: map<nat, nat>)
      requires Valid() && Running() && Faulting(errAddr)
      modifies vm.Repr(), this`history
      ensures Valid() && handled == HasArea(errAddr) == old(HasArea(errAddr))
      ensures !handled ==> vm.Now() == old(vm.Now()) && Seen() == old(Seen()) && history == old(history)
      ensures handled == exists k: nat :: FirstArea(procs[current].vmas, errAddr, k)
      ensures forall k: nat :: FirstArea(procs[current].vmas, errAddr, k) ==>
                BroughtIn(old(vm.ram.frames), vm.ram.frames, boot.uapp, old(procs[current].vmas[k]), errAddr / 0x1000,
                        added)
      ensures handled ==> errAddr / 0x1000 in added && FaultStep(boot.file, old(Seen()), Seen(), current, added)
      ensures handled ==> FaultStep(ImageAt(old(vm.ram.frames), boot), old(Seen()), Seen(), current, added)
      ensures handled ==> Keeps(old(vm.Now()), vm.Now(), RootNow(), -1)
      ensures handled ==> history == old(history) + [MemoryEvent.Fault(current)] && Reference() == old(Reference())
    {
      hide KernelOnly, Sane, Sound, FaultStep, FindVma, Room, Reached, Next, View, UsedPages, EagerRun, ImageAt, Keeps,
           BroughtIn;
      ghost var before, image := Seen(), ImageAt(vm.ram.frames, boot);
      FileIsPrefix(vm.Now(), boot, procs);
      added := map[];
      var found := FindArea(procs[current].vmas, errAddr);
      if found == None { return false, added; }
      added := BringIn(errAddr, found.value);
      FaultStepPrefix(boot.file, image, before, Seen(), current, added);
      FaultEvent(boot.file, before, Seen(), current, added);
      Record(before, MemoryEvent.Fault(current));
      handled := true;
    }

    /** Lines 18 to 29 of trap.c, for the first area that has the address. */
    method BringIn(errAddr: Word, k: nat) returns (ghost added: map<nat, nat>)
      requires Valid() && Running() && Faulting(errAddr) && FindVma(procs[current].vmas, errAddr) == Some(k)
      modifies vm.Repr()
      ensures Steady() && errAddr / 0x1000 in added
      ensures FaultStep(ImageAt(old(vm.ram.frames), boot), old(Seen()), Seen(), current, added)
      ensures Keeps(old(vm.Now()), vm.Now(), RootNow(), -1)
      ensures BroughtIn(old(vm.ram.frames), vm.ram.frames, boot.uapp, old(procs[current].vmas[k]), errAddr / 0x1000,
                        added)
    {
      hide KernelOnly, Sane, Sound, FaultStep, Room, Reached, View, UsedPages, ImageAt, Keeps, Anonymous, BroughtIn;
      if Anonymous(procs[current].vmas[k]) {
        added := FaultInAnonymous(errAddr, k);
      } else {
        added := FaultInFilePage(errAddr, k);
      }
    }

    /** Line 19 of trap.c. */
    method FaultInAnonymous(errAddr: Word, k: nat) returns (ghost added: map<nat, nat>)
      requires Valid() && Running() && k < |procs[current].vmas| && Anonymous(procs[current].vmas[k])
      requires HasAddr(procs[current].vmas[k], errAddr) && !Present(Seen(), current, errAddr)
      requires AreaRoom(vm, procs[current].vmas[k])
      modifies vm.Repr()
      ensures Steady() && errAddr / 0x1000 in added
      ensures FaultStep(ImageAt(old(vm.ram.frames), boot), old(Seen()), Seen(), current, added)
      ensures Keeps(old(vm.Now()), vm.Now(), RootNow(), -1)
      ensures BroughtIn(old(vm.ram.frames), vm.ram.frames, boot.uapp, old(procs[current].vmas[k]), errAddr / 0x1000,
                        added)
    {
      hide KernelOnly, Sane, Sound, FaultStep, Inv, Installed, View, Labels, RunPagesMap, Room, Anonymous, ImageAt,
           Keeps, BroughtIn;
      ghost var s := vm.Now();
      var vma, root := procs[current].vmas[k], procs[current].root;
      TaskFacts(s, boot, procs, current, k);
      ghost var base := AllocAnonymousVm(vm, vma, Kva(root));
      ghost var t0 := vm.Now();
      vm.Label(Labels(root, FirstPage(vma), EndPage(vma) - FirstPage(vma), base));
      AnonymousFault(s, t0, vm.Now(), boot, procs, current, k, base, errAddr / 0x1000);
      added := RunPagesMap(FirstPage(vma), EndPage(vma) - FirstPage(vma), base);
    }

    /** Lines 21 to 28 of trap.c. */
    method FaultInFilePage(errAddr: Word, k: nat) returns (ghost added: map<nat, nat>)
      requires Valid() && Running() && k < |procs[current].vmas| && !Anonymous(procs[current].vmas[k])
      requires HasAddr(procs[current].vmas[k], errAddr) && !Present(Seen(), current, errAddr)
      requires Room(vm, errAddr / 0x1000, 1)
      modifies vm.Repr()
      ensures Steady() && errAddr / 0x1000 in added
      ensures FaultStep(ImageAt(old(vm.ram.frames), boot), old(Seen()), Seen(), current, added)
      ensures Keeps(old(vm.Now()), vm.Now(), RootNow(), -1)
      ensures BroughtIn(old(vm.ram.frames), vm.ram.frames, boot.uapp, old(procs[current].vmas[k]), errAddr / 0x1000,
                        added)
    {
      hide KernelOnly, Sane, Sound, FaultStep, Inv, Installed, Loaded, View, Labels, RunPagesMap, UserPerm, LeafPerm,
           SourceAllocated, Fits, Ahead, Wrap, VmaOK, UsedPages, Tables, ImageAt, Keeps, BroughtIn;
      ghost var s, n := vm.Now(), errAddr / 0x1000;
      var vma, root := procs[current].vmas[k], procs[current].root;
      TaskFacts(s, boot, procs, current, k);
      FilePageStart(vma, boot, s, errAddr);
      UserPermLegal(vma.flags);
      var fileSegStart := Wrap(uapp + vma.offset);
      var localOffset := errAddr - vma.start;
      var filePageStart := PgRoundDown(Wrap(fileSegStart + localOffset));
      ghost var base := AllocElfMem(vm, filePageStart, PGSIZE, PGSIZE, PgRoundDown(errAddr), Kva(root),
        UserPerm(vma.flags));
      ghost var t0 := vm.Now();
      vm.Label(Labels(root, n, 1, base));
      FileFault(s, t0, vm.Now(), boot, procs, current, k, base, n);
      added := RunPagesMap(n, 1, base);
    }

    // ---- creating the first task ------------------------------------------------

    /** `task_init`, as far as memory goes: one task, nothing of it mapped yet. */
    method TaskInit()
      requires Valid() && procs == [] && vm.FreePages() >= 3 && ElfShaped(boot.file)
      requires AreasOK(ProgramAreas(boot.file), boot, vm.used)
      modifies Repr()
      ensures Valid() && |procs| == 1 && Seen() == Spawned(old(Seen()), ProgramAreas(boot.file))
      ensures history == old(history) + [Spawn(ProgramAreas(boot.file))]
      ensures Reference() == old(Reference()) + [Eager(ProgramAreas(boot.file), map[])]
      ensures OneAreaPerSegment(boot.file, procs[0].vmas, 1)
      ensures |procs[0].vmas| > 0 && procs[0].vmas[0] == Vma(0x3f_ffff_f000, 0x40_0000_0000, 7, 0, 0)
    {
      hide KernelOnly, ElfShaped, HeadersOf, Sane, Sound, View, UsedPages, AreasOK, ProgramAreas, Fresh, Reached, Next,
           OneAreaPerSegment;
      ghost var w, s := Seen(), vm.Now();
      var idle := vm.Kalloc();
      JustAllocated(s, vm.Now(), boot, procs, PfnOf(idle));
      NewTask();
      ghost var areas := ProgramAreas(boot.file);
      AreasPrefix(areas, |areas|, boot, s.used, vm.used);
      AreasOfFile(boot.file, []);
      MapProgram();
      TaskReady(vm.Now(), boot, procs, w, areas);
      Record(w, Spawn(areas));
    }

    /** The user stack and the program's segments. */
    method MapProgram()
      requires Steady() && |procs| == 1 && procs[0].vmas == [] && ElfShaped(boot.file)
      requires AreasOK(ProgramAreas(boot.file), boot, vm.used)
      modifies this`procs
      ensures Steady() && |procs| == 1 && procs[0].vmas == ProgramAreas(boot.file)
      ensures Seen() == WithAreas(old(Seen()), 0, ProgramAreas(boot.file))
    {
      hide KernelOnly, ElfShaped, HeadersOf, Sane, Sound, View, UsedPages, AreasOK, SegmentAreas, WithAreas;
      var perm := Or(Or(VM_R_MASK, VM_W_MASK), VM_ANONYM);
      assert perm == 7 by { PermBits(); }
      ghost var w, areas := Seen(), ProgramAreas(boot.file);
      AreasPrefix(areas, 1, boot, vm.used, vm.used);
      assert areas[..1] == [] + [Vma(USER_END - PGSIZE, USER_END, 7, 0, 0)];
      DoMmap(0, USER_END - PGSIZE, PGSIZE, perm, 0, 0);
      assert procs[0].vmas + SegmentAreas(HeadersOf(boot.file)) == areas;
      LoadElfProgram(0);
      WithAreasTwice(w, 0, areas[..1], areas);
    }

    /** Lines 34 to 38 and 75 of proc.c: a task page and a root that shows the kernel half. */
    method NewTask()
      requires Steady() && procs == [] && vm.FreePages() >= 2
      modifies this`procs, vm.Repr()
      ensures Steady() && |procs| == 1 && procs[0].vmas == []
      ensures Seen() == Spawned(old(Seen()), []) && old(vm.used) <= vm.used
    {
      hide KernelOnly, Sane, Sound, View, UsedPages;
      ghost var s := vm.Now();
      var task := vm.Kalloc();
      ghost var s1 := vm.Now();
      var table := vm.Kalloc();
      ghost var s3 := vm.Now();
      KernelRootFacts(s, boot, procs);
      vm.ram.CopyTable(table, Kva(vm.kroot));
      ghost var page, root := PfnOf(task), PfnOf(table);
      ghost var s4 := vm.Now();
      vm.Label(map[root := Root, page := TaskPage(root)]);
      procs := [Proc((task - VM_START) / 0x1000, (table - VM_START) / 0x1000, [])];
      TaskCreated(s, s3, s4, vm.Now(), boot, page, root);
    }

    /** `do_mmap`: one more area, nothing of it mapped. */
    method DoMmap(i: nat, addr: Word, length: Word, flags: Word, offset: Word, size: Word)
      requires Steady() && i < |procs|
      requires AreasOK(procs[i].vmas + [Vma(addr, Wrap(addr + length), flags, offset, size)], boot, vm.used)
      modifies this`procs
      ensures Steady()
      ensures var p := old(procs)[i];
              procs == old(procs)[i := p.(vmas := p.vmas + [Vma(addr, Wrap(addr + length), flags, offset, size)])]
      ensures Seen() == WithAreas(old(Seen()), i, procs[i].vmas)
    {
      hide KernelOnly, Sane, Sound, View, UsedPages, AreasOK;
      var vmas := procs[i].vmas + [Vma(addr, Wrap(addr + length), flags, offset, size)];
      AreaAdded(vm.Now(), boot, procs, i, vmas);
      procs := procs[i := procs[i].(vmas := vmas)];
    }

    /** `load_elf_program`: reads the headers from the file in memory. */
    method LoadElfProgram(i: nat)
      requires Steady() && i < |procs| && ElfShaped(boot.file)
      requires AreasOK(procs[i].vmas + SegmentAreas(HeadersOf(boot.file)), boot, vm.used)
      modifies this`procs
      ensures procs == old(procs)[i := old(procs)[i].(vmas := old(procs)[i].vmas + SegmentAreas(HeadersOf(boot.file)))]
      ensures Steady() && Seen() == WithAreas(old(Seen()), i, procs[i].vmas)
      ensures OneAreaPerSegment(boot.file, procs[i].vmas, |old(procs)[i].vmas|)
    {
      hide KernelOnly, Sane, Sound, View, UsedPages, AreasOK, ElfShaped, HeadersOf, ImageOK, LeAt, WithAreas,
           OneAreaPerSegment;
      AreasOfFile(boot.file, procs[i].vmas);
      ghost var p, w, headers := procs[i], Seen(), HeadersOf(boot.file);
      WithSameAreas(vm.Now(), procs, i);
      assert headers[..0] == [] && p.vmas + [] == p.vmas;
      HeaderFields(boot.file);
      var phoff := ReadField(uapp + 32, 8);
      var phdrCnt := ReadField(uapp + 56, 2);
      var k := 0;
      while k < phdrCnt
        invariant k <= |headers| && Steady() && |procs| == |old(procs)|
        invariant procs == old(procs)[i := p.(vmas := p.vmas + SegmentAreas(headers[..k]))]
        invariant Seen() == WithAreas(w, i, p.vmas + SegmentAreas(headers[..k]))
      {
        WithAreasTwice(w, i, p.vmas + SegmentAreas(headers[..k]), p.vmas + SegmentAreas(headers[..k + 1]));
        LoadSegment(i, uapp + phoff + 56 * k, k, p.vmas);
        k := k + 1;
      }
      assert headers[..k] == headers;
    }

    /** One round of its loop. */
    method LoadSegment(i: nat, at: Word, ghost k: nat, ghost vmas: seq<Vma>)
      requires Steady() && i < |procs| && ElfShaped(boot.file) && k < |HeadersOf(boot.file)|
      requires at == uapp + FileWord(boot.file, 32, 8) + 56 * k
      requires AreasOK(vmas + SegmentAreas(HeadersOf(boot.file)), boot, vm.used)
      requires procs[i].vmas == vmas + SegmentAreas(HeadersOf(boot.file)[..k])
      modifies this`procs
      ensures procs == old(procs)[i := old(procs)[i].(vmas := vmas + SegmentAreas(HeadersOf(boot.file)[..k + 1]))]
      ensures Steady() && Seen() == WithAreas(old(Seen()), i, procs[i].vmas)
    {
      hide KernelOnly, Sane, Sound, View, UsedPages, AreasOK, ElfShaped, HeadersOf, SegmentAreas, ImageOK, WithAreas,
           PermElf2Vm, FileWord;
      WithSameAreas(vm.Now(), procs, i);
      SegmentNext(HeadersOf(boot.file), k, vmas, boot, vm.used);
      var h := ReadHeader(at, k);
      if h.kind == PT_LOAD {
        DoMmap(i, h.vaddr, h.memSize, PermElf2Vm(h.flags), h.offset, h.fileSize);
      }
    }

    /** The fields of one program header, as line 236 of proc.c locates it. */
    method ReadHeader(at: Word, ghost k: nat) returns (h: ProgramHeader)
      requires Steady() && ElfShaped(boot.file) && k < |HeadersOf(boot.file)|
      requires at == uapp + FileWord(boot.file, 32, 8) + 56 * k
      ensures h == HeadersOf(boot.file)[k]
    {
      hide KernelOnly, Sane, UsedPages, ElfShaped, HeadersOf, FileWord;
      HeaderInFile(boot.file, k);
      var kind := ReadField(at, 4);
      var flags := ReadField(at + 4, 4);
      var offset := ReadField(at + 8, 8);
      var vaddr := ReadField(at + 16, 8);
      var fileSize := ReadField(at + 32, 8);
      var memSize := ReadField(at + 40, 8);
      h := ProgramHeader(kind, flags, offset, vaddr, fileSize, memSize);
    }

    /** n bytes of the embedded file. */
    method ReadField(at: Word, n: nat) returns (w: Word)
      requires Steady() && n <= 8 && uapp <= at && at - uapp + n <= |boot.file| < 0x1000 * FRAMES
      ensures w == FileWord(boot.file, at - uapp, n)
    {
      hide KernelOnly, Sane, UsedPages, LeAt, ImageOK, FileWord;
      ImageOf(vm.Now(), boot, procs);
      FieldAt(vm.Now(), boot, at - uapp, n);
      w := vm.ram.LoadLe(at, n);
    }

    // ---- what user programs do ------------------------------------------------

    /** The frame that an access to a mapped page reaches through `satp`. */
    method Reach(a: Word) returns (frame: nat)
      requires Steady() && Running() && Present(Seen(), current, a)
      ensures frame == Seen().spaces[current].pages[a / 0x1000] && frame < FRAMES
    {
      hide KernelOnly, Sane, View, Walk, UsedPages;
      SatpSelects(procs[current].root);
      MappedPages(vm.Now(), boot, procs, current, a / 0x1000);
      MappedFrame(vm.Now(), boot, procs, current, a);
      var leaf := vm.HardwareWalk(ActiveRoot(satp), a, 2);
      frame := leaf.value.ppn - PPN_BASE;
    }

    /** Whether the hardware lets a load, a store or an instruction fetch through. */
    method Hits(a: Word, need: Word) returns (ok: bool)
      requires Valid() && Running() && need in {2, 4, 8}
      ensures ok <==> Present(Seen(), current, a) && (need == 8 ==> Executable(procs[current].vmas, a / 0x1000))
    {
      hide KernelOnly, Sane, Sound, View, Walk, Reached, UsedPages;
      SatpSelects(procs[current].root);
      ReachedIffPresent(vm.Now(), boot, procs, current, a, need);
      var leaf := vm.HardwareWalk(ActiveRoot(satp), a, 2);
      ok := Canonical39(a) && leaf.Some? && Allows(leaf.value.perm, need);
    }

    /** What the hardware and the fault handler do about an access that needs the
        given permission: the page is mapped afterwards, unless no area contains
        the address. */
    method MakePresent(a: Word, need: Word) returns (ok: bool)
      requires Valid() && Running() && Servable(vm, Seen(), current, a) && (need == 2 || need == 4)
      modifies vm.Repr(), this`history
      ensures Valid() && SameMemory(boot.file, old(Seen()), Seen())
      ensures SameMemory(ImageAt(old(vm.ram.frames), boot), old(Seen()), Seen())
      ensures Keeps(old(vm.Now()), vm.Now(), RootNow(), -1)
      ensures ok == Reachable(old(Seen()), current, a)
      ensures ok ==> Present(Seen(), current, a)
      ensures history == old(history) + FaultsFor(old(Seen()), current, a) && Reference() == old(Reference())
    {
      hide KernelOnly, Sane, Sound, View, FaultRoom, FaultStep, Walk, FindVma, Reached, EagerRun, ImageAt,
           SameMemory, Keeps, UsedPages;
      ghost var w, image := Seen(), ImageAt(vm.ram.frames, boot);
      SameForNow(vm.Now(), boot, w, procs[current].root);
      ViewSpaces(vm.Now(), procs, current);
      ok := Hits(a, need);
      if ok { return; }
      ghost var added;
      ok, added := DoPageFault(a);
      if ok {
        FaultKeepsMemory(boot.file, w, Seen(), current, added);
        FaultKeepsMemory(image, w, Seen(), current, added);
      }
    }

    /** A load by the running program. It returns the byte the program's memory
        has at a, whether or not the page was present. */
    method UserLoad(a: Word) returns (b: Option<Byte>)
      requires Valid() && Running() && Servable(vm, Seen(), current, a)
      modifies vm.Repr(), this`history
      ensures Valid() && SameMemory(boot.file, old(Seen()), Seen()) && Reference() == old(Reference())
      ensures Reads(boot.file, old(Seen()), Seen(), current, a, b)
      ensures var image := ImageAt(old(vm.ram.frames), boot);
              SameMemory(image, old(Seen()), Seen()) && Reads(image, old(Seen()), Seen(), current, a, b)
      ensures Keeps(old(vm.Now()), vm.Now(), RootNow(), -1)
      ensures history == old(history) + FaultsFor(old(Seen()), current, a)
                         + if b.Some? then [Read(current, a, b.value)] else []
      ensures b.Some? ==> ReadsReference(boot.file, Read(current, a, b.value), Reference())
    {
      hide KernelOnly, Sane, Sound, View, FindVma, CoveredAt, FaultRoom, SameMemory, UsedPages, Peek, Known,
           Reached, Next, EagerRun, ReadsReference, FaultsFor, ByteAt, ImageAt, Keeps;
      ghost var w, image := Seen(), ImageAt(vm.ram.frames, boot);
      var ok := MakePresent(a, PTE_R);
      if !ok { return None; }
      ReadIsPeek(boot.file, w, Seen(), current, a);
      ReadIsPeek(image, w, Seen(), current, a);
      var byte := LoadPresent(a);
      b := Some(byte);
    }

    /** The load itself, from a present page. */
    method LoadPresent(a: Word) returns (b: Byte)
      requires Valid() && Running() && Present(Seen(), current, a)
      modifies this`history
      ensures Valid() && Running() && Seen() == old(Seen()) && Reference() == old(Reference())
      ensures Next(boot.file, Seen(), Read(current, a, b), Seen()) && history == old(history) + [Read(current, a, b)]
      ensures ReadsReference(boot.file, Read(current, a, b), Reference())
    {
      hide KernelOnly, Sane, Sound, View, UsedPages, Reached, Next, EagerRun, ReadsReference, ByteAt;
      var frame := Reach(a);
      ByteOfFrame(vm.Now(), boot, procs, current, a, frame);
      b := vm.ram.LoadByte(Kva(frame) + a % 0x1000);
      LoadIsRead(vm.Now(), boot, procs, current, a, frame);
      Record(Seen(), Read(current, a, b));
    }

    /** A store by the running program: it is seen by this program at this
        address, and nowhere else. */
    method UserStore(a: Word, v: Byte) returns (ok: bool)
      requires Valid() && Running() && Servable(vm, Seen(), current, a)
      modifies vm.Repr(), this`history
      ensures Valid() && ok == Reachable(old(Seen()), current, a)
      ensures history == old(history) + FaultsFor(old(Seen()), current, a)
                         + if ok then [MemoryEvent.Write(current, a, v)] else []
      ensures ok ==> Reference() == EagerNext(old(Reference()), MemoryEvent.Write(current, a, v))
      ensures !ok ==> SameMemory(boot.file, old(Seen()), Seen())
      ensures ok ==> SameMemoryBut(boot.file, old(Seen()), Seen(), current, a, v)
      ensures var image := ImageAt(old(vm.ram.frames), boot);
              if ok then SameMemoryBut(image, old(Seen()), Seen(), current, a, v)
              else SameMemory(image, old(Seen()), Seen())
      ensures Keeps(old(vm.Now()), vm.Now(), RootNow(),
                    if ok then FrameOfPage(Seen(), current, a / 0x1000) else -1)
    {
      hide KernelOnly, Sane, Sound, View, FindVma, FaultRoom, SameMemory, SameMemoryBut, UsedPages, WriteStep, Reached,
           EagerRun, PutByte, FaultsFor, ImageAt, Keeps;
      ghost var w0, image, s0 := Seen(), ImageAt(vm.ram.frames, boot), vm.Now();
      ok := MakePresent(a, PTE_W);
      if !ok { return; }
      ghost var s, w := vm.Now(), Seen();
      StorePresent(a, v);
      WriteAfterFaults(boot.file, w0, w, Seen(), current, a, v);
      WriteAfterFaults(image, w0, w, Seen(), current, a, v);
      StoreKeeps(s0, s, vm.Now(), RootNow(), FrameOfPage(w, current, a / 0x1000), a % 0x1000, v);
    }

    /** The store itself, to a present page. */
    method StorePresent(a: Word, v: Byte)
      requires Valid() && Running() && Present(Seen(), current, a)
      modifies vm.Repr(), this`history
      ensures Valid() && Running() && history == old(history) + [MemoryEvent.Write(current, a, v)]
      ensures Reference() == EagerNext(old(Reference()), MemoryEvent.Write(current, a, v))
      ensures WriteStep(old(Seen()), Seen(), current, a, v)
      ensures var f := FrameOfPage(old(Seen()), current, a / 0x1000);
              && f == FrameOfPage(Seen(), current, a / 0x1000) && 0 <= f < FRAMES == |old(vm.ram.frames)|
              && vm.Now() == old(vm.Now()).(mem := PutByte(old(vm.ram.frames), 0x1000 * f + a % 0x1000, v))
    {
      hide KernelOnly, Sane, Sound, View, UsedPages, WriteStep, Reached, EagerRun, PutByte;
      ghost var s, w := vm.Now(), Seen();
      var frame := Reach(a);
      ByteOfFrame(s, boot, procs, current, a, frame);
      vm.ram.StoreByte(Kva(frame) + a % 0x1000, v);
      UserStored(s, vm.Now(), boot, procs, current, a, v, frame);
      Record(w, MemoryEvent.Write(current, a, v));
    }

    // ---- fork -------------------------------------------------------------------

    /** `sys_fork`, as far as memory goes: the child has the parent's areas, a copy
        of every mapped page, and a table of its own; it runs next. */
    method SysFork() returns (ghost copies: map<nat, nat>)
      requires Valid() && Running() && |procs| < NR_TASKS - 1
      requires vm.FreePages() >= 2 + ForkFrames(Seen().spaces[current].pages.Keys)
      modifies Repr()
      ensures Valid() && Running() && current == |old(procs)| == |procs| - 1
      ensures procs[..|old(procs)|] == old(procs) && procs[current].vmas == old(procs[current].vmas)
      ensures ForkStep(old(Seen()), Seen(), old(current), copies)
      ensures history == old(history) + [MemoryEvent.Fork(old(current))]
      ensures Reference() == EagerNext(old(Reference()), MemoryEvent.Fork(old(current)))
    {
      hide KernelOnly, Sane, Sound, View, Copied, ForkStep, UsedPages, Spawned, Backed, Reached, Next, EagerRun,
           ForkFrames;
      ghost var w := Seen();
      var parent, child := current, |procs|;
      ViewSpaces(vm.Now(), procs, parent);
      CreateChild();
      SpawnedFacts(w, parent, procs[parent].vmas);
      copies := CopyAreas(child, Seen());
      ForkDone(vm.Now(), boot, procs, w, parent, copies);
      SwitchTo(child);
      Record(w, MemoryEvent.Fork(parent));
    }

    /** Lines 54 to 59 of syscall.c. */
    method CopyAreas(child: nat, ghost w0: World) returns (ghost copies: map<nat, nat>)
      requires Steady() && Running() && w0 == Seen() && Twins(w0, procs, current, child)
      requires vm.FreePages() >= ForkFrames(w0.spaces[current].pages.Keys)
      modifies vm.Repr()
      ensures Steady() && Copied(w0, Seen(), current, child, copies, |procs[current].vmas|, 0)
    {
      hide KernelOnly, Sane, Sound, View, Copied, UsedPages, Backed;
      CopyStarts(w0, current, child);
      copies := map[];
      var k := 0;
      while k < |procs[child].vmas|
        invariant k <= |procs[child].vmas| && Steady() && Copied(w0, Seen(), current, child, copies, k, 0)
        invariant vm.FreePages() >= Owed(w0, current, copies)
      {
        copies := CopyVmaMem(k, child, w0, copies);
        k := k + 1;
      }
    }

    /** Lines 22 to 52 of syscall.c: the child's task page and root. */
    method CreateChild()
      requires Valid() && Running() && vm.FreePages() >= 2
      modifies this`procs, vm.Repr()
      ensures Steady() && Running() && |procs| == |old(procs)| + 1 && procs[..|old(procs)|] == old(procs)
      ensures procs[|old(procs)|].vmas == procs[current].vmas
      ensures Seen() == Spawned(old(Seen()), procs[current].vmas)
      ensures vm.FreePages() == old(vm.FreePages()) - 2
    {
      hide KernelOnly, Sane, Sound, View, UsedPages, Spawned, Fits, Reached, Inv, Tables, ForkFrames;
      ghost var s := vm.Now();
      TaskPageFacts(s, boot, procs, current);
      var childTask := vm.KallocCopy(Kva(procs[current].page));
      ghost var s2 := vm.Now();
      var table := vm.KallocCopy(Kva(vm.kroot));
      ghost var page, root := PfnOf(childTask), PfnOf(table);
      ghost var s4 := vm.Now();
      vm.Label(map[root := Root, page := TaskPage(root)]);
      ChildCreated(s, s2, s4, vm.Now(), boot, procs, current, page, root);
      procs := procs + [Proc((childTask - VM_START) / 0x1000, (table - VM_START) / 0x1000, procs[current].vmas)];
    }

    /** `copy_vma_mem`. */
    method CopyVmaMem(k: nat, child: nat, ghost w0: World, ghost copies: map<nat, nat>)
      returns (ghost copies': map<nat, nat>)
      requires Steady() && Running() && Twins(w0, procs, current, child) && k < |procs[current].vmas|
      requires Copied(w0, Seen(), current, child, copies, k, 0)
      requires vm.FreePages() >= Owed(w0, current, copies)
      modifies vm.Repr()
      ensures Steady() && Copied(w0, Seen(), current, child, copies', k + 1, 0)
      ensures vm.FreePages() >= Owed(w0, current, copies')
    {
      hide KernelOnly, Sane, Sound, View, Copied, UsedPages, Owed, Backed, ImageOK;
      var vma := procs[current].vmas[k];
      TaskFacts(vm.Now(), boot, procs, current, k);
      PageSpanOf(vma);
      EnterArea(w0, Seen(), current, child, copies, k);
      copies' := copies;
      ghost var n := FirstPage(vma);
      var va := PgRoundDown(vma.start);
      while va < vma.end
        invariant Steady() && va == 0x1000 * n && FirstPage(vma) <= n
        invariant Copied(w0, Seen(), current, child, copies', k, n)
        invariant vm.FreePages() >= Owed(w0, current, copies')
        decreases USER_END + 0x1000 - va
      {
        copies' := CopyPage(va, vma.flags, k, child, w0, copies', n);
        va := va + PGSIZE;
        n := n + 1;
      }
      LeaveArea(w0, Seen(), current, child, copies', k, n);
    }

    /** The loop body. */
    method CopyPage(va: Word, flags: Word, ghost k: nat, child: nat, ghost w0: World, ghost copies: map<nat, nat>,
                    ghost n: nat)
      returns (ghost copies': map<nat, nat>)
      requires Steady() && Running() && Twins(w0, procs, current, child) && k < |procs[current].vmas|
      requires Copied(w0, Seen(), current, child, copies, k, n)
      requires va == 0x1000 * n && HasPage(procs[current].vmas[k], n) && flags == procs[current].vmas[k].flags
      requires vm.FreePages() >= Owed(w0, current, copies)
      modifies vm.Repr()
      ensures Steady() && Copied(w0, Seen(), current, child, copies', k, n + 1)
      ensures vm.FreePages() >= Owed(w0, current, copies')
    {
      hide KernelOnly, Sane, Sound, View, Copied, CopyStep, UsedPages, Walk, Tables, Lookup, Owed, MissingTables;
      ghost var s, w := vm.Now(), Seen();
      CopyFacts(s, boot, procs, current, child, k, n, w0, copies);
      var mapped := vm.IsVaMapped(va, Kva(procs[current].root));
      copies' := copies;
      if mapped {
        ghost var f := CopyMappedPage(va, flags, child, n);
        CopyOne(w0, w, Seen(), current, child, copies, k, n, f);
        SameOwed(w0, current, copies, n, f);
        copies' := copies[n := f];
      } else {
        CopySkips(w0, w, current, child, copies, k, n);
      }
    }

    /** Lines 26 to 30 of vma.c. */
    method CopyMappedPage(va: Word, flags: Word, child: nat, ghost n: nat) returns (ghost f: nat)
      requires Steady() && Running() && child < |procs| && child != current && va == 0x1000 * n && n < USER_PAGES
      requires n in Seen().spaces[current].pages && n !in Seen().spaces[child].pages
      requires Granted(procs[child].vmas, n, UserPerm(flags)) && And(flags, VM_R_MASK) != 0
      requires vm.FreePages() >= 1 + MissingTables(vm.ram.frames, procs[child].root, PageNo(n))
      modifies vm.Repr()
      ensures Steady() && CopyStep(old(Seen()), Seen(), current, child, n, f)
      ensures vm.FreePages() ==
              old(vm.FreePages()) - 1 - old(MissingTables(vm.ram.frames, procs[child].root, PageNo(n)))
    {
      hide KernelOnly, Sane, Sound, View, CopyStep, UsedPages, Inv, Installed, UserPerm, LeafPerm, Labels, Fresh,
           NewFrames, PageHolds, MissingTables, Granted, Lookup, Walk, Tables, Kva, PageNo, Or, And;
      ghost var s, root := vm.Now(), procs[child].root;
      RootFacts(s, boot, procs, child);
      UserPermLegal(flags);
      var realVa := CopyToFresh(va);
      FreshMissing(boot.kroot, s, vm.Now(), root, PageNo(n));
      f := PfnOf(realVa);
      MapFreshPage(vm, Kva(procs[child].root), va, realVa, UserPerm(flags), n, s);
      ghost var t0 := vm.Now();
      vm.Label(Labels(root, n, 1, f));
      PageAdopted(s, t0, vm.Now(), boot, procs, current, child, n, f, UserPerm(flags));
    }

    /** `kalloc` and `pgcpy`: the page is read through the active table. */
    method CopyToFresh(va: Word) returns (realVa: Word)
      requires Steady() && Running() && Present(Seen(), current, va) && vm.FreePages() >= 1
      modifies vm.Repr()
      ensures vm.Valid() && IsPage(realVa) && PfnOf(realVa) < FRAMES
      ensures Fresh(old(vm.Now()), vm.Now()) && NewFrames(old(vm.Now()), vm.Now(), PfnOf(realVa), 1)
      ensures PageHolds(old(Seen()), current, va / 0x1000, vm.ram.frames[PfnOf(realVa)])
      ensures vm.FreePages() == old(vm.FreePages()) - 1
    {
      hide KernelOnly, Sane, Sound, View, UsedPages, Inv, Fresh, NewFrames;
      ghost var s := vm.Now();
      MappedPages(s, boot, procs, current, va / 0x1000);
      MappedFrame(s, boot, procs, current, va);
      realVa := vm.Kalloc();
      ghost var s1 := vm.Now();
      JustAllocated(s, s1, boot, procs, PfnOf(realVa));
      var frame := Reach(va);
      assert frame != PfnOf(realVa);
      PageAddressRoundTrip(frame, 0);
      vm.ram.PgCpy(realVa, Kva(frame));
      JustWritten(s, s1, vm.Now(), boot, procs, PfnOf(realVa), vm.ram.frames[PfnOf(realVa)]);
    }
  }

  /** The pages up to the end of the kernel image and of the tree array behind it. */
  function BootPages(ekernel: Word): nat
    requires VM_START <= ekernel <= Kva(FRAMES)
  { ReservedPages(ekernel + 16 * FRAMES) }

  /** RAM as the boot loader leaves it: the image above OpenSBI, the kernel's root
      table in it still empty, and everything behind the reserved pages zero. */
  ghost predicate BootRam(mem: Mem, ekernel: Word, kroot: nat) {
    && |mem| == FRAMES && Kva(512) <= ekernel <= Kva(FRAMES) && FIRMWARE <= kroot < FRAMES && Kva(kroot) < ekernel
    && mem[kroot] == ZeroFrame()
    && BootPages(ekernel) + 64 + 3 <= FRAMES
    && forall f: nat :: BootPages(ekernel) <= f < FRAMES ==> mem[f] == ZeroFrame()
  }

  /** `mm_init`: exactly the reserved pages are allocated. */
  method MmInit(ram: Ram, ekernel: Word, kroot: nat) returns (vm: Vm)
    requires ram.Valid() && BootRam(ram.frames, ekernel, kroot)
    ensures vm.Valid() && fresh(vm) && fresh(vm.buddy) && fresh(vm.buddy.bitmap) && vm.ram == ram && vm.kroot == kroot
    ensures vm.owner == map[kroot := Root] && vm.used == Run(0, BootPages(ekernel))
    ensures forall p: int :: p in vm.used <==> 0 <= p && 0xffff_ffe0_0000_0000 + 0x1000 * p < ekernel + 0x8_0000
  {
    hide WellFormed, Canonical, Fits, RoundUp, IsPow2, PageLive, FirstLeaves, Run, ReservedPages;
    FramesPow2();
    BootBounds(ekernel, kroot);
    var buddy := new Buddy(PHY_SIZE / PGSIZE, ekernel);
    LeavesPages(FRAMES, BootPages(ekernel));
    vm := new Vm(ram, buddy, kroot);
    BootUsed(vm.used, buddy.live, BootPages(ekernel));
    forall p: int ensures p in vm.used <==> 0 <= p && 0xffff_ffe0_0000_0000 + 0x1000 * p < ekernel + 0x8_0000 {
      BeforeTreeEnd(ekernel, p);
    }
  }

  /** The tree array takes 16 bytes for each of the 0x8000 pages. */
  lemma BeforeTreeEnd(ekernel: Word, p: int)
    requires Kva(0) <= ekernel <= Kva(FRAMES)
    ensures p in Run(0, BootPages(ekernel)) <==> 0 <= p && 0xffff_ffe0_0000_0000 + 0x1000 * p < ekernel + 0x8_0000
  {
    var k := BootPages(ekernel);
    assert p in Run(0, k) <==> InRun(0, k, p);
  }

  lemma FramesPow2()
    ensures PHY_SIZE / PGSIZE == FRAMES && RoundUp(FRAMES) == FRAMES && IsPow2(FRAMES)
  {
    assert FRAMES == Pow2(15) by { Pow2Values(); }
    RoundUpLeast(FRAMES, FRAMES);
  }

  lemma BootUsed(used: set<int>, live: set<nat>, k: nat)
    requires UsedPages(used, FRAMES, live) && forall p :: PageLive(FRAMES, live, p) <==> 0 <= p < k
    ensures used == Run(0, k)
  {
    forall p ensures p in used <==> p in Run(0, k) {
      assert p in used <==> PageLive(FRAMES, live, p);
      assert InRun(0, k, p) <==> 0 <= p < k;
    }
  }

  /** The layout that the linker script and the boot loader establish: kernel text,
      read-only data and the root table inside the image, an executable at `uapp`,
      and areas that meet the demands of the loader. */
  ghost predicate BootImage(ram: Ram, ekernel: Word, kroot: nat, uapp: Word, etext: Word, erodata: Word, boot: Boot)
    reads ram, ram.words
  {
    && ram.Valid() && BootRam(ram.frames, ekernel, kroot) && Kva(512) <= etext <= erodata <= ekernel
    && boot.kroot == kroot && boot.perms == KernelPerms(etext, erodata)
    && boot.uapp < FRAMES && uapp == Kva(boot.uapp)
    && ImageIn(Snap(ram.frames, map[kroot := Root], Run(0, BootPages(ekernel))), boot)
    && ElfShaped(boot.file) && AreasOK(ProgramAreas(boot.file), boot, Run(0, BootPages(ekernel)))
  }

  lemma BootFacts(ram: Ram, ekernel: Word, kroot: nat, uapp: Word, etext: Word, erodata: Word, boot: Boot)
    requires BootImage(ram, ekernel, kroot, uapp, etext, erodata, boot)
    ensures ElfShaped(boot.file) && boot.uapp < FRAMES && uapp == Kva(boot.uapp)
    ensures PagesDisjoint(ProgramAreas(boot.file))
  {}

  /** `start_kernel`: the allocator, the direct map, the first task, and the switch
      to it. What the task sees is the eager image of its program. */
  method StartKernel(ram: Ram, ekernel: Word, kroot: nat, uapp: Word, etext: Word, erodata: Word,
                     ghost boot: Boot) returns (k: Kernel)
    requires BootImage(ram, ekernel, kroot, uapp, etext, erodata, boot)
    modifies ram, ram.words
    ensures k.Valid() && k.Running() && fresh(k) && k.boot == boot && k.uapp == uapp && |k.procs| == 1
    ensures k.Seen() == Spawned(NoWorld(), ProgramAreas(boot.file)) && k.history == [Spawn(ProgramAreas(boot.file))]
    ensures k.Reference() == [Eager(ProgramAreas(boot.file), map[])]
    ensures OneAreaPerSegment(boot.file, k.procs[0].vmas, 1)
    ensures |k.procs[0].vmas| > 0 && k.procs[0].vmas[0] == Vma(0x3f_ffff_f000, 0x40_0000_0000, 7, 0, 0)
  {
    hide ElfShaped, HeadersOf, Tables, Sane, Sound, View, UsedPages, AreasOK, DirectMapped, ImageIn, Grows, Fits,
         Run, Reached, OneAreaPerSegment;
    var vm := MmInit(ram, ekernel, kroot);
    ghost var s, areas := vm.Now(), ProgramAreas(boot.file);
    vm.SetupVmFinal(etext, erodata);
    ImageKept(s, vm.Now(), boot);
    AreasPrefix(areas, |areas|, boot, s.used, vm.used);
    NothingMappedYet(s, vm.Now(), kroot);
    KernelPermsOnly(etext, erodata);
    k := new Kernel(vm, uapp, boot);
    k.TaskInit();
    k.SwitchTo(0);
  }

  lemma BootBounds(ekernel: Word, kroot: nat)
    requires Kva(512) <= ekernel <= Kva(FRAMES) && BootPages(ekernel) <= FRAMES && kroot < FRAMES
    requires Kva(kroot) < ekernel
    ensures ekernel + 0x8_0000 <= VM_START + 0x1000 * FRAMES < TWO_64 && kroot < BootPages(ekernel)
    ensures ReservedPages(ekernel + 16 * FRAMES) == BootPages(ekernel)
  {}

  lemma ImageKept(s: Snap, t: Snap, b: Boot)
    requires Inv(s, b.kroot) && Grows(s, t, b.kroot) && ImageIn(s, b) && s.owner == map[b.kroot := Root]
    ensures ImageIn(t, b) && s.used <= t.used
  {
    forall o: nat | o < |b.file| ensures b.file[o] == ByteAt(t.mem, 0x1000 * b.uapp + o) {
      assert b.file[o] == ByteAt(s.mem, 0x1000 * b.uapp + o);
      assert b.uapp <= (0x1000 * b.uapp + o) / 0x1000 < b.uapp + FilePages(b);
    }
  }

  lemma NothingMappedYet(s: Snap, s1: Snap, kroot: nat)
    requires s.owner == map[kroot := Root] && Grows(s, s1, kroot)
    ensures NoData(s1.owner)
  {}

  /** Enough memory to bring in the whole area. */
  ghost predicate AreaRoom(vm: Vm, v: Vma)
    reads vm.Repr()
  { FirstPage(v) <= EndPage(v) && Room(vm, FirstPage(v), EndPage(v) - FirstPage(v)) }

  /** Enough memory for what a fault at addr allocates. */
  ghost predicate FaultRoom(vm: Vm, vmas: seq<Vma>, addr: Word)
    reads vm.Repr()
  {
    match FindVma(vmas, addr)
    case None => true
    case Some(k) => if Anonymous(vmas[k]) then AreaRoom(vm, vmas[k]) else Room(vm, addr / 0x1000, 1)
  }

  ghost function FilePages(b: Boot): nat { (|b.file| + 0xfff) / 0x1000 }

  ghost function ImageLabels(b: Boot): Owner {
    map f: nat | b.uapp <= f < b.uapp + FilePages(b) && InRun(b.uapp, FilePages(b), f) :: Image
  }

  /** The file's bytes lie in allocated frames that hold no table. */
  ghost predicate ImageIn(s: Snap, b: Boot) {
    && |s.mem| == FRAMES && FIRMWARE <= b.uapp && b.uapp + FilePages(b) <= FRAMES
    && (forall f: nat :: b.uapp <= f < b.uapp + FilePages(b) ==> f in s.used && f !in s.owner)
    && forall o: nat :: o < |b.file| ==> b.file[o] == ByteAt(s.mem, 0x1000 * b.uapp + o)
  }

  ghost predicate NoData(owner: Owner) { forall f <- owner :: !owner[f].Data? }

  lemma ImageAdopted(s: Snap, t: Snap, b: Boot)
    requires Inv(s, b.kroot) && DirectMapped(s.mem, b.kroot, 512, FRAMES, b.perms) && ImageIn(s, b)
    requires t == s.(owner := s.owner + ImageLabels(b))
    requires NoData(s.owner)
    ensures Sane(t, b, []) && View(t, []) == NoWorld() && Sound(NoWorld())
  {
    hide Lookup, Tables, FileByteAt, DirectMapped;
    AddOwners(s.mem, s.owner, b.kroot, ImageLabels(b));
    forall o: nat | o < |b.file| ensures FileByteAt(t, b, o) { ImageByteAdopted(s, t, b, o); }
  }

  lemma ImageByteAdopted(s: Snap, t: Snap, b: Boot, o: nat)
    requires ImageIn(s, b) && t == s.(owner := s.owner + ImageLabels(b)) && o < |b.file|
    ensures FileByteAt(t, b, o)
  {
    hide FrameByte;
    assert b.file[o] == ByteAt(s.mem, 0x1000 * b.uapp + o);
    ByteInFrame(s.mem, b.uapp + o / 0x1000, o % 0x1000);
  }

  lemma RootFacts(s: Snap, b: Boot, procs: seq<Proc>, i: nat)
    requires Sane(s, b, procs) && i < |procs|
    ensures Inv(s, b.kroot) && IsRoot(s.owner, procs[i].root) && procs[i].root < FRAMES && procs[i].root != b.kroot
    ensures IsPage(Kva(procs[i].root)) && PfnOf(Kva(procs[i].root)) == procs[i].root
  {
    assert ProcOK(s, b, procs[i]);
    PageAddressRoundTrip(procs[i].root, 0);
  }

  lemma TaskFacts(s: Snap, b: Boot, procs: seq<Proc>, i: nat, k: nat)
    requires Sane(s, b, procs) && i < |procs| && k < |procs[i].vmas|
    ensures Inv(s, b.kroot) && IsRoot(s.owner, procs[i].root) && procs[i].root < FRAMES && procs[i].root != b.kroot
    ensures IsPage(Kva(procs[i].root)) && PfnOf(Kva(procs[i].root)) == procs[i].root
    ensures VmaOK(procs[i].vmas[k], b, s.used)
  {
    RootFacts(s, b, procs, i);
    assert ProcOK(s, b, procs[i]);
  }

  /** Area k is the first that contains addr. */
  ghost predicate FirstArea(vmas: seq<Vma>, addr: Word, k: nat) {
    && k < |vmas| && vmas[k].start <= addr < vmas[k].end
    && forall j :: 0 <= j < k ==> !(vmas[j].start <= addr < vmas[j].end)
  }

  /** What a fault on page n puts into memory, byte by byte. For an anonymous area
      (flag bit 0): all its pages, on frames of zeros. Otherwise the one page, on a
      frame that holds what RAM has from the same place of the embedded file on. */
  ghost predicate BroughtIn(m: Mem, m': Mem, uapp: nat, v: Vma, n: nat, added: map<nat, nat>) {
    if v.flags % 2 == 1 then
      && (forall k: nat :: k in added <==> v.start / 0x1000 <= k < (v.end + 0xfff) / 0x1000)
      && forall k: nat :: k in added ==> HoldsZeros(m', added[k])
    else
      added.Keys == {n} && HoldsBytes(m', added[n], m, 0x1000 * uapp + v.offset + 0x1000 * n - v.start)
  }

  ghost predicate HoldsZeros(m: Mem, f: nat) {
    f < |m| && forall p: nat :: 0x1000 * f <= p < 0x1000 * f + 0x1000 ==> ByteAt(m, p) == 0
  }

  /** Frame f holds what m has from the given place on. */
  ghost predicate HoldsBytes(m': Mem, f: nat, m: Mem, from: int) {
    && f < |m'| && 0 <= from && from + 0x1000 <= 0x1000 * |m|
    && forall p: nat :: 0x1000 * f <= p < 0x1000 * f + 0x1000 ==> ByteAt(m', p) == ByteAt(m, from + p - 0x1000 * f)
  }

  lemma ZerosBroughtIn(m: Mem, m': Mem, uapp: nat, v: Vma, base: nat, n: nat)
    requires Anonymous(v) && FirstPage(v) <= EndPage(v) && base + (EndPage(v) - FirstPage(v)) <= |m'|
    requires forall f: nat :: base <= f < base + (EndPage(v) - FirstPage(v)) ==> m'[f] == ZeroFrame()
    ensures BroughtIn(m, m', uapp, v, n, RunPagesMap(FirstPage(v), EndPage(v) - FirstPage(v), base))
  {
    hide RunPagesMap, ByteAt;
    var first, count := FirstPage(v), EndPage(v) - FirstPage(v);
    var added := RunPagesMap(first, count, base);
    RunPagesMapIs(first, count, base);
    MaskBits(v.flags);
    forall k: nat | k in added ensures HoldsZeros(m', added[k]) {
      assert m'[added[k]] == ZeroFrame();
      forall p: nat | 0x1000 * added[k] <= p < 0x1000 * added[k] + 0x1000 ensures ByteAt(m', p) == 0 {
        ByteInFrame(m', added[k], p - 0x1000 * added[k]);
        ZeroFrameBytes(p - 0x1000 * added[k]);
      }
    }
  }

  lemma FileBytesBroughtIn(s: Snap, m': Mem, b: Boot, v: Vma, base: nat, n: nat)
    requires VmaOK(v, b, s.used) && !Anonymous(v) && HasPage(v, n) && 0 <= SourceFrame(v, b, n) < FRAMES
    requires Loaded(s.mem, m', base, 1, 0, Kva(SourceFrame(v, b, n)), 0x1000)
    ensures BroughtIn(s.mem, m', b.uapp, v, n, RunPagesMap(n, 1, base))
  {
    hide RunPagesMap, ByteAt, FrameByte, Loaded;
    var f := SourceFrame(v, b, n);
    RunPagesMapIs(n, 1, base);
    MaskBits(v.flags);
    SourceIsAligned(v, n);
    SourceByte(s.mem, m', base, f, 0);
    assert 0x1000 * b.uapp + v.offset + 0x1000 * n - v.start == 0x1000 * f;
    forall p: nat | 0x1000 * base <= p < 0x1000 * base + 0x1000
      ensures ByteAt(m', p) == ByteAt(s.mem, 0x1000 * f + p - 0x1000 * base)
    {
      var o := p - 0x1000 * base;
      SourceByte(s.mem, m', base, f, o);
      ByteInFrame(m', base, o);
      ByteInFrame(s.mem, f, o);
    }
  }

  lemma {:induction false} FirstMatch(vmas: seq<Vma>, a: nat, i: nat)
    requires i < |vmas| && HasAddr(vmas[i], a) && forall j :: 0 <= j < i ==> !HasAddr(vmas[j], a)
    ensures FindVma(vmas, a) == Some(i)
  {
    if i > 0 { FirstMatch(vmas[1..], a, i - 1); }
  }

  /** A page is in the represented space exactly when the walk finds it. */
  lemma MappedPages(s: Snap, b: Boot, procs: seq<Proc>, i: nat, n: nat)
    requires Sane(s, b, procs) && i < |procs|
    ensures n in View(s, procs).spaces[i].pages <==> n < USER_PAGES && Lookup(s.mem, procs[i].root, PageNo(n)).Some?
    ensures n in View(s, procs).spaces[i].pages ==>
              View(s, procs).spaces[i].pages[n] == FrameAt(s.mem, procs[i].root, n)
  {
    assert ProcOK(s, b, procs[i]);
  }

  /** The file page that a fault at addr copies. */
  lemma FilePageStart(v: Vma, b: Boot, s: Snap, addr: Word)
    requires VmaOK(v, b, s.used) && !Anonymous(v) && HasAddr(v, addr) && b.uapp < FRAMES
    ensures var n := addr / 0x1000;
            && 0 <= SourceFrame(v, b, n) < FRAMES
            && PgRoundDown(Wrap(Wrap(Kva(b.uapp) + v.offset) + (addr - v.start))) == Kva(SourceFrame(v, b, n))
            && SourceAllocated(s, Kva(SourceFrame(v, b, n)), 0x1000)
            && CoveringPages(0x1000 * n, 0x1000) == 1 && PgRoundDown(addr) == 0x1000 * n && n < USER_PAGES
  {
    hide Wrap, PgRoundUp;
    var n, first := addr / 0x1000, FirstPage(v);
    assert HasPage(v, n) && HasPage(v, first);
    assert 0 <= SourceFrame(v, b, n) < FRAMES && 0 <= SourceFrame(v, b, first) < FRAMES;
    SourceIsAligned(v, n);
    SourceIsAligned(v, first);
    SourceStart(b.uapp, v.offset, addr - v.start, SourceFrame(v, b, n), addr % 0x1000);
    PageAddressRoundTrip(SourceFrame(v, b, n), 0);
  }

  lemma SourceStart(uapp: nat, offset: nat, local: nat, f: nat, o: nat)
    requires uapp < FRAMES && f < FRAMES && o < 0x1000 && offset <= 0x1000 * FRAMES + 0x1000
    requires 0x1000 * uapp + offset + local == 0x1000 * f + o
    ensures PgRoundDown(Wrap(Wrap(Kva(uapp) + offset) + local)) == Kva(f)
  {
    assert Wrap(Kva(uapp) + offset) == Kva(uapp) + offset;
    DivUnique(Kva(f) + o, 0x1000, Kva(f) / 0x1000, o);
  }

  lemma SourceIsAligned(v: Vma, n: nat)
    requires v.offset % 0x1000 == v.start % 0x1000
    ensures v.offset + 0x1000 * n - v.start == 0x1000 * ((v.offset + 0x1000 * n - v.start) / 0x1000)
  {}

  /** Bringing in an anonymous area is a fault step. */
  lemma AnonymousFault(s: Snap, t0: Snap, t: Snap, b: Boot, procs: seq<Proc>, i: nat, k: nat, base: nat, a: nat)
    requires Sane(s, b, procs) && Sound(View(s, procs)) && i < |procs| && k < |procs[i].vmas|
    requires var v := procs[i].vmas[k];
             && Anonymous(v) && FirstPage(v) <= EndPage(v) <= USER_PAGES && HasPage(v, a)
             && Installed(b.kroot, s, t0, procs[i].root, FirstPage(v), EndPage(v) - FirstPage(v), base,
                UserPerm(v.flags))
             && base + (EndPage(v) - FirstPage(v)) <= FRAMES
             && (forall f: nat :: base <= f < base + (EndPage(v) - FirstPage(v)) ==>
                f < |t0.mem| && t0.mem[f] == ZeroFrame())
             && t ==
                Snap(t0.mem, t0.owner + Labels(procs[i].root, FirstPage(v), EndPage(v) - FirstPage(v), base), t0.used)
    requires Inv(t0, b.kroot) && a !in View(s, procs).spaces[i].pages
    ensures var v := procs[i].vmas[k]; var added := RunPagesMap(FirstPage(v), EndPage(v) - FirstPage(v), base);
            && Sane(t, b, procs) && a in added && Keeps(s, t, procs[i].root, -1)
            && FaultStep(ImageAt(s.mem, b), View(s, procs), View(t, procs), i, added)
            && BroughtIn(s.mem, t.mem, b.uapp, v, a, added)
  {
    hide Sane, Inv, Installed, Sound, Lookup, Labels, PagedIn, WholeOrNot, InitialPage, RunPagesMap, UserPerm,
         PagesOf, StoreOf, Anonymous, ImageAt, BroughtIn;
    var v := procs[i].vmas[k];
    InstalledKeeps(b.kroot, s, t0, procs[i].root, FirstPage(v), EndPage(v) - FirstPage(v), base, UserPerm(v.flags));
    var first, n := FirstPage(v), EndPage(v) - FirstPage(v);
    AreaUnmapped(s, b, procs, i, k, a);
    Adopt(s, t0, t, b, procs, i, first, n, base, UserPerm(v.flags));
    AreaIsWhole(procs[i].vmas, k, base);
    RunPagesMapIs(first, n, base);
    ZeroPagesShow(ImageAt(s.mem, b), procs[i].vmas, k);
    ZerosBroughtIn(s.mem, t.mem, b.uapp, v, base, a);
  }

  /** When one page of an anonymous area is unmapped, all of them are. */
  lemma AreaUnmapped(s: Snap, b: Boot, procs: seq<Proc>, i: nat, k: nat, a: nat)
    requires Sane(s, b, procs) && Sound(View(s, procs)) && i < |procs| && k < |procs[i].vmas|
    requires Anonymous(procs[i].vmas[k]) && HasPage(procs[i].vmas[k], a) && a !in View(s, procs).spaces[i].pages
    ensures PagesDisjoint(procs[i].vmas)
    ensures forall m: nat :: HasPage(procs[i].vmas[k], m) && m < USER_PAGES ==>
              && Granted(procs[i].vmas, m, UserPerm(procs[i].vmas[k].flags))
              && Lookup(s.mem, procs[i].root, PageNo(m)).None?
  {
    hide Sane, Lookup, View;
    ViewSpaces(s, procs, i);
    assert SpaceOK(View(s, procs).spaces[i]);
    forall m: nat | HasPage(procs[i].vmas[k], m) && m < USER_PAGES
      ensures Granted(procs[i].vmas, m, UserPerm(procs[i].vmas[k].flags))
      ensures Lookup(s.mem, procs[i].root, PageNo(m)).None?
    {
      MappedPages(s, b, procs, i, m);
    }
  }

  lemma ViewSpaces(s: Snap, procs: seq<Proc>, i: nat)
    requires i < |procs|
    ensures |View(s, procs).spaces| == |procs| && View(s, procs).spaces[i].vmas == procs[i].vmas
  {}

  lemma ZeroPagesShow(file: File, vmas: seq<Vma>, k: nat)
    requires k < |vmas| && Anonymous(vmas[k])
    ensures forall m: nat :: HasPage(vmas[k], m) ==> InitialPage(file, vmas, m, ZeroFrame())
  {
    forall m: nat | HasPage(vmas[k], m) ensures InitialPage(file, vmas, m, ZeroFrame()) {
      ZeroShowsAnonymous(file, vmas[k], m);
    }
  }

  lemma ZeroShowsAnonymous(file: File, v: Vma, n: nat)
    requires Anonymous(v)
    ensures ShowsInitial(file, v, n, ZeroFrame())
  {
    forall o: nat | o < 0x1000 ensures FrameByte(ZeroFrame(), o) == 0 { ZeroFrameBytes(o); }
  }

  lemma AreaIsWhole(vmas: seq<Vma>, k: nat, base: nat)
    requires PagesDisjoint(vmas) && k < |vmas| && FirstPage(vmas[k]) <= EndPage(vmas[k])
    ensures WholeOrNot(vmas, RunPagesMap(FirstPage(vmas[k]), EndPage(vmas[k]) - FirstPage(vmas[k]), base).Keys)
  {
    var first, n := FirstPage(vmas[k]), EndPage(vmas[k]) - FirstPage(vmas[k]);
    forall j: nat, p: nat, q: nat |
      j < |vmas| && Anonymous(vmas[j]) && HasPage(vmas[j], p) && HasPage(vmas[j], q) && p in RunPagesMap(first, n, base)
      ensures q in RunPagesMap(first, n, base)
    {
      assert HasPage(vmas[k], p);
      InRunIs(first, n, q);
    }
  }

  /** Bringing in one page of a file-backed area is a fault step. */
  lemma FileFault(s: Snap, t0: Snap, t: Snap, b: Boot, procs: seq<Proc>, i: nat, k: nat, base: nat, n: nat)
    requires Sane(s, b, procs) && Sound(View(s, procs)) && i < |procs| && k < |procs[i].vmas| && n < USER_PAGES
    requires var v := procs[i].vmas[k];
             && !Anonymous(v) && HasPage(v, n) && 0 <= SourceFrame(v, b, n) < FRAMES
             && Installed(b.kroot, s, t0, procs[i].root, n, 1, base, UserPerm(v.flags))
             && Loaded(s.mem, t0.mem, base, 1, 0, Kva(SourceFrame(v, b, n)), 0x1000)
    requires t == Snap(t0.mem, t0.owner + Labels(procs[i].root, n, 1, base), t0.used)
    requires Inv(t0, b.kroot) && n !in View(s, procs).spaces[i].pages
    ensures Sane(t, b, procs) && n in RunPagesMap(n, 1, base) && Keeps(s, t, procs[i].root, -1)
    ensures FaultStep(ImageAt(s.mem, b), View(s, procs), View(t, procs), i, RunPagesMap(n, 1, base))
    ensures BroughtIn(s.mem, t.mem, b.uapp, procs[i].vmas[k], n, RunPagesMap(n, 1, base))
  {
    hide Sane, Inv, Installed, Sound, Lookup, Labels, PagedIn, WholeOrNot, ShowsInitial, RunPagesMap, UserPerm, VmaOK,
         ImageAt, BroughtIn;
    var v := procs[i].vmas[k];
    InstalledKeeps(b.kroot, s, t0, procs[i].root, n, 1, base, UserPerm(v.flags));
    AreasApart(s, b, procs, i, k);
    MappedPages(s, b, procs, i, n);
    Adopt(s, t0, t, b, procs, i, n, 1, base, UserPerm(v.flags));
    RunPagesMapIs(n, 1, base);
    FilePageShows(s, t0, b, v, n, base);
    FileBytesBroughtIn(s, t0.mem, b, v, base, n);
    NotAnonymous(procs[i].vmas, k, n, RunPagesMap(n, 1, base).Keys);
  }

  lemma AreasApart(s: Snap, b: Boot, procs: seq<Proc>, i: nat, k: nat)
    requires Sane(s, b, procs) && i < |procs| && k < |procs[i].vmas|
    ensures PagesDisjoint(procs[i].vmas) && VmaOK(procs[i].vmas[k], b, s.used) && ImageOK(s, b)
  {
    assert ProcOK(s, b, procs[i]);
  }

  lemma NotAnonymous(vmas: seq<Vma>, k: nat, n: nat, keys: set<nat>)
    requires PagesDisjoint(vmas) && k < |vmas| && !Anonymous(vmas[k]) && HasPage(vmas[k], n)
    requires forall m: nat :: m in keys ==> m == n
    ensures WholeOrNot(vmas, keys)
  {}

  /** The page brought in is a copy of the whole source frame. */
  lemma FilePageShows(s: Snap, t: Snap, b: Boot, v: Vma, n: nat, base: nat)
    requires VmaOK(v, b, s.used) && !Anonymous(v) && 0 <= SourceFrame(v, b, n) < FRAMES
    requires Loaded(s.mem, t.mem, base, 1, 0, Kva(SourceFrame(v, b, n)), 0x1000)
    ensures ShowsInitial(ImageAt(s.mem, b), v, n, t.mem[base])
    ensures forall o: nat :: o < 0x1000 ==> FrameByte(t.mem[base], o) == FrameByte(s.mem[SourceFrame(v, b, n)], o)
  {
    hide FrameByte, Loaded, ByteAt;
    var f, image := SourceFrame(v, b, n), ImageAt(s.mem, b);
    SourceIsAligned(v, n);
    SourceByte(s.mem, t.mem, base, f, 0);
    forall o: nat | o < 0x1000
      ensures FrameByte(t.mem[base], o) == FrameByte(s.mem[f], o)
    {
      SourceByte(s.mem, t.mem, base, f, o);
    }
    forall o: nat | o < 0x1000 && Covered(image, v, 0x1000 * n + o)
      ensures FrameByte(t.mem[base], o) == InitialByte(image, v, 0x1000 * n + o)
    {
      assert FileOffset(v, 0x1000 * n + o) == 0x1000 * (f - b.uapp) + o;
      ByteInFrame(s.mem, f, o);
    }
  }

  lemma SourceByte(m: Mem, m': Mem, base: nat, f: nat, o: nat)
    requires f < FRAMES && o < 0x1000 && Loaded(m, m', base, 1, 0, Kva(f), 0x1000)
    ensures base < |m'| && f < |m| && FrameByte(m'[base], o) == FrameByte(m[f], o)
  {
    hide FrameByte;
    ByteInFrame(m', base, o);
    ByteInFrame(m, f, o);
  }

  /** Memory from the file on determines the first contents of whole areas. */
  lemma ImageCovers(s: Snap, b: Boot, procs: seq<Proc>, i: nat, a: nat)
    requires Sane(s, b, procs) && i < |procs| && AreaOf(procs[i].vmas, a / 0x1000).Some?
    ensures CoveredAt(ImageAt(s.mem, b), procs[i].vmas, a)
  {
    hide Sane, ByteAt;
    var k := AreaOf(procs[i].vmas, a / 0x1000).value;
    AreasApart(s, b, procs, i, k);
    if !Anonymous(procs[i].vmas[k]) { SourceIsAligned(procs[i].vmas[k], a / 0x1000); }
  }

  ghost function FrameOfPage(w: World, i: nat, n: nat): int {
    if i < |w.spaces| && n in w.spaces[i].pages then w.spaces[i].pages[n] else -1
  }

  /** Allocated frames other than f0 and the tables of root r are unchanged. */
  ghost predicate Keeps(s: Snap, t: Snap, r: nat, f0: int) {
    && |s.mem| == |t.mem| == FRAMES && s.used <= t.used
    && forall f: nat :: f < FRAMES && f in s.used && !TableOf(s.owner, r, f) && f != f0 ==> t.mem[f] == s.mem[f]
  }

  lemma SameForNow(s: Snap, b: Boot, w: World, r: nat)
    requires Sound(w) && |s.mem| == FRAMES
    ensures SameMemory(b.file, w, w) && SameMemory(ImageAt(s.mem, b), w, w) && Keeps(s, s, r, -1)
  {}

  lemma StoreKeeps(s0: Snap, s: Snap, t: Snap, r: nat, frame: nat, o: nat, v: Byte)
    requires Keeps(s0, s, r, -1) && frame < FRAMES && o < 0x1000
    requires t == s.(mem := PutByte(s.mem, 0x1000 * frame + o, v))
    ensures Keeps(s0, t, r, frame)
  {
    hide PutFrameByte;
    DivUnique(0x1000 * frame + o, 0x1000, frame, o);
  }

  lemma InstalledKeeps(kroot: nat, s: Snap, t: Snap, r: nat, first: nat, n: nat, base: nat, perm: nat)
    requires Installed(kroot, s, t, r, first, n, base, perm)
    ensures forall owner: Owner :: Keeps(s, Snap(t.mem, owner, t.used), r, -1)
  {
    hide Lookup;
  }

  lemma FileIsPrefix(s: Snap, b: Boot, procs: seq<Proc>)
    requires Sane(s, b, procs) && b.uapp < FRAMES
    ensures b.file <= ImageAt(s.mem, b)
  {
    hide Lookup, Tables, DirectMapped;
    FileEnds(s, b);
    forall o: nat | o < |b.file| ensures ByteAt(s.mem, 0x1000 * b.uapp + o) == b.file[o] {
      assert FileByteAt(s, b, o);
      ByteInFrame(s.mem, b.uapp + o / 0x1000, o % 0x1000);
    }
  }

  // ---- what a segment shows ----------------------------------------------------

  /** Every file-backed area of a task, laid over memory from the file on, ends
      inside RAM. */
  lemma ImageHoldsSegment(s: Snap, b: Boot, procs: seq<Proc>, i: nat, k: nat)
    requires Sane(s, b, procs) && i < |procs| && k < |procs[i].vmas| && !Anonymous(procs[i].vmas[k])
    ensures var v := procs[i].vmas[k];
            v.start < v.end ==> v.offset + v.end - v.start <= |ImageAt(s.mem, b)|
    ensures PagesDisjoint(procs[i].vmas)
  {
    hide Sane, ByteAt;
    AreasApart(s, b, procs, i, k);
    var v := procs[i].vmas[k];
    if v.start < v.end {
      var n := EndPage(v) - 1;
      assert HasPage(v, n);
      SourceIsAligned(v, n);
    }
  }

  /** What faults bring in, as memory is now, against what the program header
      promises: they agree on a set of pages exactly if memory holds zeros where
      the segment goes on behind p_filesz there, in the file or behind it. */
  lemma SegmentPromiseIff(s: Snap, b: Boot, procs: seq<Proc>, i: nat, k: nat, pages: set<nat>)
    requires Sane(s, b, procs) && b.uapp < FRAMES && i < |procs| && k < |procs[i].vmas|
    requires !Anonymous(procs[i].vmas[k])
    ensures var v, image := procs[i].vmas[k], ImageAt(s.mem, b);
            && b.file <= image
            && ((forall a: nat :: HasAddr(v, a) && a / 0x1000 in pages ==>
                   InitialAt(image, procs[i].vmas, a) == SegmentByte(image, v, a))
                <==> forall o: nat :: BehindFileSize(v, pages, o) ==>
                       o < |image| && ByteAt(s.mem, 0x1000 * b.uapp + o) == 0)
  {
    hide Sane, Anonymous, InitialAt, SegmentByte, ByteAt;
    FileIsPrefix(s, b, procs);
    ImageHoldsSegment(s, b, procs, i, k);
    RootFacts(s, b, procs, i);
    ZeroFillIff(ImageAt(s.mem, b), procs[i].vmas, k, pages);
  }

  /** A loadable file: one program header, with p_type 1, p_flags 5, p_offset 32,
      p_vaddr 0x1_0020, p_filesz 2 and p_memsz 0x2000. */
  function SampleFile(): File {
    seq(120, o => if o == 32 then 64 else if o == 56 then 1 else if o == 64 then 1 else if o == 68 then 5
                  else if o == 72 || o == 80 || o == 105 then 32 else if o == 82 then 1 else if o == 96 then 2 else 0)
  }

  /** A little-endian word all of whose bytes but the lowest are 0. */
  lemma {:induction false} SmallWord(file: File, off: nat, n: nat)
    requires 0 < n && off + n <= |file| && forall o :: off < o < off + n ==> file[o] == 0
    ensures FileWord(file, off, n) == file[off]
    decreases n
  {
    if n > 1 { SmallWord(file, off + 1, n - 1); }
  }

  lemma SampleHeader()
    ensures ElfShaped(SampleFile())
    ensures HeadersOf(SampleFile()) == [ProgramHeader(1, 5, 32, 0x1_0020, 2, 0x2000)]
  {
    hide FileWord;
    var file := SampleFile();
    SmallWord(file, 32, 8);
    SmallWord(file, 56, 2);
    SmallWord(file, 64, 4);
    SmallWord(file, 68, 4);
    SmallWord(file, 72, 8);
    SmallWord(file, 82, 6);
    SmallWord(file, 96, 8);
    SmallWord(file, 105, 7);
    assert FileWord(file, 80, 8) == 0x1_0020 by { LowByte(file, 80, 8); LowByte(file, 81, 7); }
    assert FileWord(file, 104, 8) == 0x2000 by { LowByte(file, 104, 8); }
  }

  lemma LowByte(file: File, off: nat, n: nat)
    requires 0 < n && off + n <= |file|
    ensures FileWord(file, off, n) == file[off] + 256 * FileWord(file, off + 1, n - 1)
  {}

  lemma SampleAreas()
    ensures ElfShaped(SampleFile())
    ensures ProgramAreas(SampleFile()) ==
            [Vma(0x3f_ffff_f000, 0x40_0000_0000, 7, 0, 0), Vma(0x1_0020, 0x1_2020, 14, 32, 2)]
  {
    hide ElfShaped, HeadersOf, PermElf2Vm;
    SampleHeader();
    var h := ProgramHeader(1, 5, 32, 0x1_0020, 2, 0x2000);
    assert [h][..0] == [];
    assert PermElf2Vm(5) == 14 by { GrantsAll(5); }
  }

  lemma GrantsAll(elfPerm: Word)
    ensures PermElf2Vm(elfPerm) == 14
  {
    OrNotZero(elfPerm, PF_W);
    OrNotZero(elfPerm, PF_R);
    OrNotZero(elfPerm, PF_X);
    PermBits();
  }

  /** The promise fails for it, whatever lies behind the file: 32 bytes into its
      segment the program sees the 1 of the header's own p_type. */
  lemma SegmentPromiseFails(image: File)
    requires SampleFile() <= image
    ensures ElfShaped(SampleFile())
    ensures var areas := ProgramAreas(SampleFile());
            && areas == [Vma(0x3f_ffff_f000, 0x40_0000_0000, 7, 0, 0), Vma(0x1_0020, 0x1_2020, 14, 32, 2)]
            && SegmentByte(image, areas[1], 0x1_0040) == 0 && InitialAt(image, areas, 0x1_0040) == 1
  {
    hide ElfShaped, HeadersOf, ProgramAreas, InitialAt;
    SampleAreas();
    var areas := ProgramAreas(SampleFile());
    assert !Anonymous(areas[1]) by { assert And(14, VM_ANONYM) == 0; }
    InitialInside(image, areas, 1, 0x1_0040);
    assert image[64] == SampleFile()[64];
  }

  // ---- creating tasks ----------------------------------------------------------

  ghost predicate AreasOK(vmas: seq<Vma>, b: Boot, used: set<int>) {
    PagesDisjoint(vmas) && forall v <- vmas :: VmaOK(v, b, used)
  }

  ghost function WithAreas(w: World, i: nat, vmas: seq<Vma>): World
    requires i < |w.spaces|
  { World(w.spaces[i := w.spaces[i].(vmas := vmas)], w.store) }

  lemma WithAreasTwice(w: World, i: nat, one: seq<Vma>, two: seq<Vma>)
    requires i < |w.spaces|
    ensures WithAreas(WithAreas(w, i, one), i, two) == WithAreas(w, i, two)
  {}

  lemma WithSameAreas(s: Snap, procs: seq<Proc>, i: nat)
    requires i < |procs|
    ensures WithAreas(View(s, procs), i, procs[i].vmas) == View(s, procs)
  {
    ViewSpaces(s, procs, i);
  }

  lemma AreasPrefix(vmas: seq<Vma>, n: nat, b: Boot, used: set<int>, used': set<int>)
    requires AreasOK(vmas, b, used) && n <= |vmas| && used <= used'
    ensures AreasOK(vmas[..n], b, used') && AreasOK(vmas, b, used')
  {
    forall v <- vmas ensures VmaOK(v, b, used') { assert VmaOK(v, b, used); }
    var some := vmas[..n];
    forall v <- some ensures VmaOK(v, b, used') { assert v in vmas; }
    forall i: nat, j: nat, p: nat | i < n && j < n && HasPage(some[i], p) && HasPage(some[j], p) ensures i == j {
      assert HasPage(vmas[i], p) && HasPage(vmas[j], p);
    }
  }

  /** Which bytes of the file make which fields of which area. */
  lemma AreasOfFile(file: File, vmas: seq<Vma>)
    requires ElfShaped(file)
    ensures OneAreaPerSegment(file, vmas + SegmentAreas(HeadersOf(file)), |vmas|)
    ensures OneAreaPerSegment(file, ProgramAreas(file), 1)
    ensures |ProgramAreas(file)| > 0 && ProgramAreas(file)[0] == Vma(0x3f_ffff_f000, 0x40_0000_0000, 7, 0, 0)
  {
    hide FileWord, SegmentAreas, AreaOfHeader;
    var headers := HeadersOf(file);
    SegmentsCounted(file, |headers|);
    assert headers[..|headers|] == headers;
  }

  lemma {:induction false} SegmentsCounted(file: File, n: nat)
    requires ElfShaped(file) && n <= |HeadersOf(file)|
    ensures var areas := SegmentAreas(HeadersOf(file)[..n]);
            && |areas| == LoadsBefore(file, n)
            && forall k: nat :: k < n && FileWord(file, FileWord(file, 32, 8) + 56 * k, 4) == 1 ==>
                 LoadsBefore(file, k) < |areas|
                 && AreaOfHeader(file, FileWord(file, 32, 8) + 56 * k, areas[LoadsBefore(file, k)])
  {
    hide FileWord, AreaOfHeader, SegmentArea, HeadersOf, HeaderAt;
    var headers := HeadersOf(file);
    if n == 0 {
      assert headers[..0] == [];
    } else {
      SegmentsCounted(file, n - 1);
      SegmentStep(headers, n - 1);
      HeaderInFile(file, n - 1);
      var h := FileWord(file, 32, 8) + 56 * (n - 1);
      HeaderArea(file, h);
    }
  }

  /** Multi-byte fields are little endian. */
  lemma {:induction false} LittleEndian(file: File, off: nat)
    ensures off + 2 <= |file| ==> FileWord(file, off, 2) == file[off] as int + 0x100 * file[off + 1] as int
    ensures off + 4 <= |file| ==>
              FileWord(file, off, 4) == FileWord(file, off, 2) + 0x1_0000 * FileWord(file, off + 2, 2)
    ensures off + 8 <= |file| ==>
              FileWord(file, off, 8) == FileWord(file, off, 4) + 0x1_0000_0000 * FileWord(file, off + 4, 4)
  {
    if off + 4 <= |file| {
      assert FileWord(file, off + 2, 2) == file[off + 2] as int + 256 * file[off + 3] as int;
    }
    if off + 8 <= |file| {
      var low := FileWord(file, off + 4, 4);
      assert FileWord(file, off + 2, 6) == file[off + 2] as int + 256 * (file[off + 3] as int + 256 * low);
    }
  }

  lemma HeaderArea(file: File, h: nat)
    requires h + 56 <= |file|
    ensures HeaderAt(file, h).kind == PT_LOAD <==> FileWord(file, h, 4) == 1
    ensures AreaOfHeader(file, h, SegmentArea(HeaderAt(file, h)))
  {
    hide FileWord, PermElf2Vm;
    GrantsAll(HeaderAt(file, h).flags);
  }

  lemma SegmentNext(headers: seq<ProgramHeader>, k: nat, vmas: seq<Vma>, b: Boot, used: set<int>)
    requires k < |headers| && AreasOK(vmas + SegmentAreas(headers), b, used)
    ensures headers[k].kind == PT_LOAD ==>
              vmas + SegmentAreas(headers[..k]) + [SegmentArea(headers[k])] == vmas + SegmentAreas(headers[..k + 1])
    ensures headers[k].kind != PT_LOAD ==> SegmentAreas(headers[..k]) == SegmentAreas(headers[..k + 1])
    ensures AreasOK(vmas + SegmentAreas(headers[..k + 1]), b, used)
  {
    hide AreasOK, SegmentAreas, SegmentArea;
    SegmentStep(headers, k);
    SegmentsPrefix(headers, k + 1);
    var some, whole := SegmentAreas(headers[..k + 1]), SegmentAreas(headers);
    assert (vmas + whole)[..|vmas + some|] == vmas + some;
    AreasPrefix(vmas + whole, |vmas + some|, b, used, used);
    if headers[k].kind == PT_LOAD {
      var before := SegmentAreas(headers[..k]);
      assert vmas + before + [SegmentArea(headers[k])] == vmas + (before + [SegmentArea(headers[k])]);
    }
  }

  lemma SegmentStep(headers: seq<ProgramHeader>, k: nat)
    requires k < |headers|
    ensures SegmentAreas(headers[..k + 1]) ==
            SegmentAreas(headers[..k]) + if headers[k].kind == PT_LOAD then [SegmentArea(headers[k])] else []
  {
    hide SegmentArea;
    assert headers[..k + 1][..k] == headers[..k];
  }

  lemma ImageOf(s: Snap, b: Boot, procs: seq<Proc>)
    requires Sane(s, b, procs)
    ensures ImageOK(s, b)
  {}

  /** Bytes of the file can be loaded from the kernel's image. */
  lemma {:induction false} FieldAt(s: Snap, b: Boot, off: nat, n: nat)
    requires ImageOK(s, b) && b.uapp < FRAMES && off + n <= |b.file| < 0x1000 * FRAMES
    ensures |s.mem| == FRAMES && Kva(b.uapp) + off + n < TWO_64 && 0x1000 * b.uapp + off + n <= 0x1000 * FRAMES
    ensures LeAt(s.mem, 0x1000 * b.uapp + off, n) == FileWord(b.file, off, n)
    decreases n
  {
    FileEnds(s, b);
    if n > 0 {
      FieldAt(s, b, off + 1, n - 1);
      assert FileByteAt(s, b, off);
      ByteInFrame(s.mem, b.uapp + off / 0x1000, off % 0x1000);
    }
  }

  lemma FileEnds(s: Snap, b: Boot)
    requires ImageOK(s, b) && b.uapp < FRAMES
    ensures |b.file| > 0 ==> 0x1000 * b.uapp + |b.file| <= 0x1000 * FRAMES
  {
    if |b.file| > 0 { assert FileByteAt(s, b, |b.file| - 1); }
  }

  lemma HeaderInFile(file: File, k: nat)
    requires ElfShaped(file) && k < |HeadersOf(file)|
    ensures FileWord(file, 32, 8) + 56 * k + 56 <= |file| < 0x1000 * FRAMES
    ensures HeadersOf(file)[k] == HeaderAt(file, FileWord(file, 32, 8) + 56 * k)
  {}

  lemma HeaderFields(file: File)
    requires ElfShaped(file)
    ensures 64 <= |file| < 0x1000 * FRAMES && FileWord(file, 56, 2) == |HeadersOf(file)|
    ensures FileWord(file, 32, 8) + 56 * |HeadersOf(file)| <= |file|
  {}

  lemma {:induction false} SegmentsPrefix(headers: seq<ProgramHeader>, k: nat)
    requires k <= |headers|
    ensures SegmentAreas(headers[..k]) <= SegmentAreas(headers)
  {
    if k < |headers| {
      SegmentsPrefix(headers[..|headers| - 1], k);
      assert headers[..|headers| - 1][..k] == headers[..k];
    } else {
      assert headers[..k] == headers;
    }
  }

  lemma AreaAdded(s: Snap, b: Boot, procs: seq<Proc>, i: nat, vmas: seq<Vma>)
    requires Sane(s, b, procs) && i < |procs| && AreasOK(vmas, b, s.used) && procs[i].vmas <= vmas
    ensures Sane(s, b, procs[i := procs[i].(vmas := vmas)])
    ensures View(s, procs[i := procs[i].(vmas := vmas)]) == WithAreas(View(s, procs), i, vmas)
  {
    hide Lookup;
    var p, procs' := procs[i].(vmas := vmas), procs[i := procs[i].(vmas := vmas)];
    assert ProcOK(s, b, procs[i]);
    forall n: nat, perm: nat | Granted(procs[i].vmas, n, perm) ensures Granted(vmas, n, perm) {
      var k: nat :| k < |procs[i].vmas| && HasPage(procs[i].vmas[k], n) && perm == UserPerm(procs[i].vmas[k].flags);
      assert vmas[k] == procs[i].vmas[k];
    }
    assert ProcOK(s, b, p);
    forall j: nat | j < |procs'| ensures ProcOK(s, b, procs'[j]) { assert j != i ==> ProcOK(s, b, procs[j]); }
    assert View(s, procs').spaces == WithAreas(View(s, procs), i, vmas).spaces;
  }

  lemma KernelRootFacts(s: Snap, b: Boot, procs: seq<Proc>)
    requires Sane(s, b, procs)
    ensures b.kroot in s.used && b.kroot < FRAMES == |s.mem| && IsPage(Kva(b.kroot)) && PfnOf(Kva(b.kroot)) == b.kroot
  {
    PageAddressRoundTrip(b.kroot, 0);
  }

  lemma TaskCreated(s: Snap, s3: Snap, s4: Snap, t: Snap, b: Boot, page: nat, root: nat)
    requires Sane(s, b, []) && page < FRAMES && root < FRAMES && b.kroot < |s.mem| == FRAMES
    requires s3 == s.(used := s.used + {page} + {root}) && page !in s.used && root !in s.used + {page}
    requires s4 == s3.(mem := s3.mem[root := s3.mem[b.kroot]])
    requires t == s4.(owner := s4.owner + map[root := Root, page := TaskPage(root)])
    ensures Sane(t, b, [Proc(page, root, [])]) && View(t, [Proc(page, root, [])]) == Spawned(View(s, []), [])
  {
    hide View, Lookup, Tables, DirectMapped, ImageOK;
    FreshInvisible(s, s3, b, []);
    assert t.owner == s3.owner[root := Root][page := TaskPage(root)];
    NewProc(s3, t, b, [], page, root, []);
    assert [] + [Proc(page, root, [])] == [Proc(page, root, [])];
  }

  lemma TaskReady(s: Snap, b: Boot, procs: seq<Proc>, w: World, vmas: seq<Vma>)
    requires |procs| == 1 && w.spaces == [] && PagesDisjoint(vmas)
    requires View(s, procs) == WithAreas(Spawned(w, []), 0, vmas)
    ensures View(s, procs) == Spawned(w, vmas) && Next(b.file, w, Spawn(vmas), View(s, procs))
  {}

  // ---- loads and stores ------------------------------------------------------

  /** The page of address a is present, or memory suffices to bring it in. */
  ghost predicate Servable(vm: Vm, w: World, i: nat, a: Word)
    requires i < |w.spaces|
    reads vm.Repr()
  { !Present(w, i, a) ==> FaultRoom(vm, w.spaces[i].vmas, a) }

  /** Bytes with a meaning: on a present page, or given by the area. */
  ghost predicate Known(file: File, w: World, j: nat, x: nat)
    requires j < |w.spaces|
  { Present(w, j, x) || CoveredAt(file, w.spaces[j].vmas, x) }

  /** The same areas, and at least the same pages. */
  ghost predicate SameTasks(w: World, w': World) {
    && |w'.spaces| == |w.spaces|
    && (forall j: nat :: j < |w.spaces| ==> w'.spaces[j].vmas == w.spaces[j].vmas)
    && forall j: nat, x: nat :: Present(w, j, x) ==> Present(w', j, x)
  }

  /** No program can tell w from w'. */
  ghost predicate SameMemory(file: File, w: World, w': World) {
    && Sound(w) && Sound(w') && SameTasks(w, w')
    && forall j: nat, x: nat :: j < |w.spaces| && Known(file, w, j, x) ==> Peek(file, w', j, x) == Peek(file, w, j, x)
  }

  /** What a load at a gets: nothing if a is not reachable, and otherwise the byte of the program's memory. */
  ghost predicate Reads(file: File, w: World, w': World, i: nat, a: nat, b: Option<Byte>) {
    && Sound(w) && Sound(w') && i < |w.spaces| == |w'.spaces|
    && (b.Some? <==> Reachable(w, i, a))
    && (b.Some? ==> b.value == Peek(file, w', i, a))
    && (b.Some? && Known(file, w, i, a) ==> b.value == Peek(file, w, i, a))
  }

  /** Only byte a of program i is different: it is v. */
  ghost predicate SameMemoryBut(file: File, w: World, w': World, i: nat, a: nat, v: Byte) {
    && Sound(w) && Sound(w') && SameTasks(w, w') && i < |w.spaces| && Present(w', i, a) && Peek(file, w', i, a) == v
    && forall j: nat, x: nat :: j < |w.spaces| && Known(file, w, j, x) && (j != i || x != a) ==>
         Peek(file, w', j, x) == Peek(file, w, j, x)
  }

  /** The fault that an access to a causes, if any. */
  ghost function FaultsFor(w: World, i: nat, a: nat): seq<MemoryEvent> {
    if !Present(w, i, a) && Reachable(w, i, a) then [MemoryEvent.Fault(i)] else []
  }

  lemma FaultEvent(file: File, w: World, w': World, i: nat, added: map<nat, nat>)
    requires Sound(w) && FaultStep(file, w, w', i, added)
    ensures Next(file, w, MemoryEvent.Fault(i), w') && Sound(w')
  {
    FaultInvisible(file, w, w', i, added);
  }

  lemma HistoryEnds(file: File, es: seq<MemoryEvent>, e: MemoryEvent)
    requires forall k: nat :: k < |es| + 1 ==> ReadsReference(file, (es + [e])[k], EagerRun([], (es + [e])[..k]))
    ensures EagerRun([], es + [e]) == EagerNext(EagerRun([], es), e) && ReadsReference(file, e, EagerRun([], es))
  {
    var all := es + [e];
    assert all[..|es|] == es && all[|es|] == e;
  }

  lemma FaultKeepsMemory(file: File, w: World, w': World, i: nat, added: map<nat, nat>)
    requires Sound(w) && FaultStep(file, w, w', i, added)
    ensures SameMemory(file, w, w') && i < |w'.spaces| && added.Keys <= w'.spaces[i].pages.Keys
  {
    FaultInvisible(file, w, w', i, added);
  }

  ghost predicate StoredAt(s: Snap, w: World, f: nat) { f < |s.mem| && f in w.store && w.store[f] == s.mem[f] }

  /** Loads and stores of the running programs follow the eager reference: a load
      returns its byte, faults leave it alone, a store changes one byte of it. */
  lemma AccessRefines(file: File, w: World, w': World, ps: seq<Eager>, i: nat, a: nat, v: Byte)
    requires Sound(w) && Refines(file, w, ps) && i < |ps|
    ensures SameMemory(file, w, w') ==> Refines(file, w', ps)
    ensures SameMemory(file, w, w') && Determined(file, ps[i], a) ==> Peek(file, w', i, a) == EagerByte(file, ps[i], a)
    ensures SameMemoryBut(file, w, w', i, a, v) ==> Refines(file, w', EagerNext(ps, MemoryEvent.Write(i, a, v)))
  {
    hide Sound, Peek, CoveredAt, Present;
    assert forall j: nat, x: nat :: j < |ps| && Determined(file, ps[j], x) ==> Known(file, w, j, x);
    if SameMemoryBut(file, w, w', i, a, v) {
      var ps' := EagerNext(ps, MemoryEvent.Write(i, a, v));
      forall j: nat, x: nat | j < |ps'| && Determined(file, ps'[j], x)
        ensures Peek(file, w', j, x) == EagerByte(file, ps'[j], x)
      {
        assert (j == i && x == a) || Determined(file, ps[j], x);
      }
      forall j: nat, x: nat | j < |ps'| && x in ps'[j].writes ensures Present(w', j, x) {
        assert (j == i && x == a) || Present(w, j, x);
      }
    }
  }

  lemma MappedFrame(s: Snap, b: Boot, procs: seq<Proc>, i: nat, a: Word)
    requires Sane(s, b, procs) && i < |procs| && a < USER_END
    ensures var w := View(s, procs); var leaf := Walk(s.mem, procs[i].root, PageOf(a), 2);
            && (Present(w, i, a) <==> leaf.Some?)
            && (leaf.Some? ==> && leaf.value.ppn - PPN_BASE == w.spaces[i].pages[a / 0x1000] < FRAMES == |s.mem|
                               && w.spaces[i].pages[a / 0x1000] in s.owner
                               && StoredAt(s, w, w.spaces[i].pages[a / 0x1000]))
  {
    var n := a / 0x1000;
    assert ProcOK(s, b, procs[i]);
    assert n % 0x800_0000 == n;
    MappedPages(s, b, procs, i, n);
    WalkIsLookup(s.mem, s.owner, b.kroot, procs[i].root, PageNo(n));
  }

  lemma PresentIsUser(s: Snap, procs: seq<Proc>, i: nat, a: Word)
    requires Present(View(s, procs), i, a)
    ensures i < |procs| && a < USER_END
  {}

  /** Page n lies in an area whose flags grant execution. */
  ghost predicate Executable(vmas: seq<Vma>, n: nat) {
    exists k: nat :: k < |vmas| && HasPage(vmas[k], n) && vmas[k].flags / 8 % 2 == 1
  }

  /** A user-mode access, at any address and through any task's table, is let
      through exactly on the program's present pages, an instruction fetch (need 8)
      exactly on those of executable areas: a mapped page carries what its area
      grants, and nothing of the kernel half carries U. */
  lemma ReachedIffPresent(s: Snap, b: Boot, procs: seq<Proc>, i: nat, a: Word, need: Word)
    requires Sane(s, b, procs) && KernelOnly(b.perms) && i < |procs| && need in {2, 4, 8}
    ensures UserReach(s.mem, procs[i].root, a, need).Some? <==>
            Present(View(s, procs), i, a) && (need == 8 ==> Executable(procs[i].vmas, a / 0x1000))
  {
    hide Walk, Sane, View, PageOf, Executable;
    if a < USER_END {
      MappedFrame(s, b, procs, i, a);
      if Walk(s.mem, procs[i].root, PageOf(a), 2).Some? { MappedBits(s, b, procs, i, a); }
    } else {
      if Present(View(s, procs), i, a) { PresentIsUser(s, procs, i, a); }
      if Canonical39(a) {
        UpperHalf(a);
        KernelHalfShared(s, b, procs, i, PageOf(a));
      }
    }
  }

  /** The permission bits of a mapped page: U, R and W, and X as its area says. */
  lemma MappedBits(s: Snap, b: Boot, procs: seq<Proc>, i: nat, a: Word)
    requires Sane(s, b, procs) && i < |procs| && a < USER_END && Walk(s.mem, procs[i].root, PageOf(a), 2).Some?
    ensures var perm := Walk(s.mem, procs[i].root, PageOf(a), 2).value.perm;
            && perm / 16 % 2 == 1 && perm / 2 % 2 == 1 && perm / 4 % 2 == 1
            && (perm / 8 % 2 == 1 <==> Executable(procs[i].vmas, a / 0x1000))
  {
    hide Lookup, Walk, Tables, DirectMapped, ImageOK, UserPerm, And;
    assert ProcOK(s, b, procs[i]);
    assert a / 0x1000 % 0x800_0000 == a / 0x1000;
    WalkIsLookup(s.mem, s.owner, b.kroot, procs[i].root, PageNo(a / 0x1000));
    var vmas, n, perm := procs[i].vmas, a / 0x1000, Walk(s.mem, procs[i].root, PageOf(a), 2).value.perm;
    assert Granted(vmas, n, perm);
    var k: nat :| k < |vmas| && HasPage(vmas[k], n) && perm == UserPerm(vmas[k].flags);
    assert VmaOK(vmas[k], b, s.used);
    UserPermBits(vmas[k].flags);
    MaskBits(vmas[k].flags);
  }

  lemma ByteOfFrame(s: Snap, b: Boot, procs: seq<Proc>, i: nat, a: Word, frame: nat)
    requires Sane(s, b, procs) && i < |procs| && frame < FRAMES
    ensures |s.mem| == FRAMES && Kva(frame) + a % 0x1000 < TWO_64
    ensures Kva(frame) + a % 0x1000 - VM_START == 0x1000 * frame + a % 0x1000 < 0x1000 * FRAMES
    ensures ByteAt(s.mem, 0x1000 * frame + a % 0x1000) == FrameByte(s.mem[frame], a % 0x1000)
  {
    ByteInFrame(s.mem, frame, a % 0x1000);
  }

  lemma LoadIsRead(s: Snap, b: Boot, procs: seq<Proc>, i: nat, a: Word, frame: nat)
    requires Sane(s, b, procs) && i < |procs| && Present(View(s, procs), i, a)
    requires frame == View(s, procs).spaces[i].pages[a / 0x1000]
    ensures frame < |s.mem|
    ensures Next(b.file, View(s, procs), Read(i, a, FrameByte(s.mem[frame], a % 0x1000)), View(s, procs))
  {
    PresentIsUser(s, procs, i, a);
    MappedFrame(s, b, procs, i, a);
  }

  /** What a read gets is what the program's memory holds. */
  lemma ReadIsPeek(file: File, w0: World, w: World, i: nat, a: nat)
    requires SameMemory(file, w0, w) && Present(w, i, a)
    ensures forall b: Byte, f: File :: Next(f, w, Read(i, a, b), w) ==>
              b == Peek(file, w, i, a) && (Known(file, w0, i, a) ==> b == Peek(file, w0, i, a))
  {}

  lemma UserStored(s: Snap, t: Snap, b: Boot, procs: seq<Proc>, i: nat, a: Word, v: Byte, frame: nat)
    requires Sane(s, b, procs) && i < |procs| && Sound(View(s, procs))
    requires Present(View(s, procs), i, a) && frame == View(s, procs).spaces[i].pages[a / 0x1000] < |s.mem|
    requires t == s.(mem := PutByte(s.mem, 0x1000 * frame + a % 0x1000, v))
    ensures Sane(t, b, procs) && Sound(View(t, procs)) && WriteStep(View(s, procs), View(t, procs), i, a, v)
    ensures FrameOfPage(View(t, procs), i, a / 0x1000) == frame
  {
    hide Sane, Sound, View, Lookup, Walk;
    PresentIsUser(s, procs, i, a);
    MappedFrame(s, b, procs, i, a);
    MappedPages(s, b, procs, i, a / 0x1000);
    assert t.mem == s.mem[frame := PutFrameByte(s.mem[frame], a % 0x1000, v)] by {
      DivUnique(0x1000 * frame + a % 0x1000, 0x1000, frame, a % 0x1000);
    }
    StoreStep(s, t, b, procs, i, a, v);
    WriteVisible(b.file, View(s, procs), View(t, procs), i, a, v);
  }

  lemma WriteAfterFaults(file: File, w0: World, w: World, w': World, i: nat, a: nat, v: Byte)
    requires SameMemory(file, w0, w) && WriteStep(w, w', i, a, v)
    ensures Sound(w') && SameMemoryBut(file, w0, w', i, a, v)
  {
    hide Sound, Peek, CoveredAt;
    WriteVisible(file, w, w', i, a, v);
  }

  // ---- fork --------------------------------------------------------------------

  /** The contents of page n of space i. */
  ghost predicate PageHolds(w: World, i: nat, n: nat, frame: Frame) {
    && i < |w.spaces| && n in w.spaces[i].pages
    && w.spaces[i].pages[n] in w.store && w.store[w.spaces[i].pages[n]] == frame
  }

  /** Task `child` has the same areas as task i, and nothing mapped yet. */
  ghost predicate Twins(w0: World, procs: seq<Proc>, i: nat, child: nat) {
    && i < |procs| && child < |procs| && child != i && procs[child].vmas == procs[i].vmas
    && |w0.spaces| == |procs| && w0.spaces[i].vmas == procs[i].vmas && w0.spaces[child].pages == map[] && Backed(w0, i)
  }

  ghost predicate Backed(w: World, i: nat) {
    i < |w.spaces| && forall n <- w.spaces[i].pages :: w.spaces[i].pages[n] in w.store
  }

  lemma SpawnedFacts(w: World, i: nat, vmas: seq<Vma>)
    requires Sound(w) && i < |w.spaces|
    ensures var w0 := Spawned(w, vmas);
            && |w0.spaces| == |w.spaces| + 1 && w0.spaces[i] == w.spaces[i] && w0.spaces[|w.spaces|].pages == map[]
            && Backed(w0, i)
  {
    forall n <- w.spaces[i].pages ensures w.spaces[i].pages[n] in w.store {
      assert HasFrame(w, i, n, w.spaces[i].pages[n]);
    }
  }

  lemma TaskPageFacts(s: Snap, b: Boot, procs: seq<Proc>, i: nat)
    requires Sane(s, b, procs) && i < |procs|
    ensures procs[i].page in s.used && procs[i].page < FRAMES && b.kroot in s.used && b.kroot < FRAMES
    ensures IsPage(Kva(procs[i].page)) && PfnOf(Kva(procs[i].page)) == procs[i].page
    ensures IsPage(Kva(b.kroot)) && PfnOf(Kva(b.kroot)) == b.kroot
  {
    assert ProcOK(s, b, procs[i]);
    PageAddressRoundTrip(procs[i].page, 0);
    PageAddressRoundTrip(b.kroot, 0);
  }

  lemma ChildCreated(s: Snap, s2: Snap, s4: Snap, t: Snap, b: Boot, procs: seq<Proc>, i: nat, page: nat, root: nat)
    requires Sane(s, b, procs) && i < |procs| && page < FRAMES && root < FRAMES
    requires procs[i].page < |s.mem| && b.kroot < |s.mem| == FRAMES && page !in s.used && root !in s2.used
    requires s2 == Snap(s.mem[page := s.mem[procs[i].page]], s.owner, s.used + {page})
    requires s4 == Snap(s2.mem[root := s2.mem[b.kroot]], s2.owner, s2.used + {root})
    requires t == s4.(owner := s4.owner + map[root := Root, page := TaskPage(root)])
    ensures Sane(t, b, procs + [Proc(page, root, procs[i].vmas)])
    ensures View(t, procs + [Proc(page, root, procs[i].vmas)]) == Spawned(View(s, procs), procs[i].vmas)
  {
    hide View, Lookup, Tables, DirectMapped, ImageOK;
    assert ProcOK(s, b, procs[i]);
    var s3 := s2.(used := s4.used);
    assert Fresh(s, s3);
    FreshInvisible(s, s3, b, procs);
    assert t.owner == s3.owner[root := Root][page := TaskPage(root)];
    forall v <- procs[i].vmas ensures VmaOK(v, b, s3.used) { assert VmaOK(v, b, s.used); }
    NewProc(s3, t, b, procs, page, root, procs[i].vmas);
  }

  lemma ForkDone(s: Snap, b: Boot, procs: seq<Proc>, w: World, i: nat, copies: map<nat, nat>)
    requires i < |w.spaces| && Sound(w)
    requires Copied(Spawned(w, w.spaces[i].vmas), View(s, procs), i, |w.spaces|, copies, |w.spaces[i].vmas|, 0)
    ensures ForkStep(w, View(s, procs), i, copies) && Next(b.file, w, MemoryEvent.Fork(i), View(s, procs))
  {
    assert SpaceOK(w.spaces[i]);
    AllCopied(w, View(s, procs), i, copies);
  }

  lemma CopyFacts(s: Snap, b: Boot, procs: seq<Proc>, i: nat, child: nat, k: nat, n: nat, w0: World,
                  copies: map<nat, nat>)
    requires Sane(s, b, procs) && Twins(w0, procs, i, child) && k < |procs[i].vmas|
    requires Copied(w0, View(s, procs), i, child, copies, k, n) && HasPage(procs[i].vmas[k], n)
    ensures Tables(s.mem, s.owner, b.kroot) && IsRoot(s.owner, procs[i].root) && procs[i].root < FRAMES
    ensures IsPage(Kva(procs[i].root)) && PfnOf(Kva(procs[i].root)) == procs[i].root
    ensures n < USER_PAGES && PagesDisjoint(procs[i].vmas) && And(procs[i].vmas[k].flags, VM_R_MASK) != 0
    ensures Granted(procs[child].vmas, n, UserPerm(procs[i].vmas[k].flags))
    ensures n in View(s, procs).spaces[i].pages <==> n in w0.spaces[i].pages
    ensures Walk(s.mem, procs[i].root, PageOf(0x1000 * n), 2).Some? <==> n in w0.spaces[i].pages
    ensures n !in View(s, procs).spaces[child].pages && n !in w0.spaces[child].pages
    ensures n in w0.spaces[i].pages ==>
              && n !in copies && w0.spaces[i].pages[n] in w0.store
              && 1 + MissingTables(s.mem, procs[child].root, PageNo(n))
                 <= Owed(w0, i, copies) - Owed(w0, i, copies[n := 0])
              && Owed(w0, i, copies[n := 0]) >= 0
  {
    hide Sane, View, Walk, Copied, Tables, HasPage, PagesDisjoint, And, Kva, IsPage, PfnOf, PageOf;
    TaskFacts(s, b, procs, i, k);
    AreasApart(s, b, procs, i, k);
    AreaPage(procs[i].vmas, k, n);
    MappedFrame(s, b, procs, i, 0x1000 * n);
    NotYetCopied(w0, View(s, procs), i, child, copies, k, n);
    MissingAtMost(s, b, procs, child, n);
  }

  lemma AreaPage(vmas: seq<Vma>, k: nat, n: nat)
    requires k < |vmas| && HasPage(vmas[k], n) && vmas[k].start <= vmas[k].end <= USER_END
    ensures n < USER_PAGES && 0x1000 * n / 0x1000 == n && Granted(vmas, n, UserPerm(vmas[k].flags))
  {
    PageSpanOf(vmas[k]);
  }

  lemma NotYetCopied(w0: World, w: World, i: nat, c: nat, copies: map<nat, nat>, k: nat, n: nat)
    requires Copied(w0, w, i, c, copies, k, n) && w0.spaces[c].pages == map[]
    requires k < |w0.spaces[i].vmas| && HasPage(w0.spaces[i].vmas[k], n) && PagesDisjoint(w0.spaces[i].vmas)
    ensures n !in copies && c < |w.spaces| && w.spaces[c].pages == copies && w.spaces[i] == w0.spaces[i]
    ensures n in w0.spaces[i].pages ==>
              && Owed(w0, i, copies) - Owed(w0, i, copies[n := 0]) == 1 + NewTables(copies.Keys, n)
              && Owed(w0, i, copies[n := 0]) >= 0
  {
    hide ForkFrames, NewTables;
    VisitNext(w0.spaces[i].vmas, k, n);
    assert map[] + copies == copies;
    var pages := w0.spaces[i].pages;
    if n in pages {
      assert copies[n := 0].Keys == copies.Keys + {n} <= pages.Keys;
      ForkFramesAdd(copies.Keys, n);
      ForkFramesMono(copies.Keys + {n}, pages.Keys);
    }
  }

  /** Second- and third-level tables that the given user pages need. */
  ghost function MidsOf(keys: set<nat>): set<nat> { set n | n in keys :: n / 0x4_0000 }

  ghost function LowsOf(keys: set<nat>): set<nat> { set n | n in keys :: n / 512 }

  /** Frames for copies of the given pages and for the tables these need. */
  ghost function ForkFrames(keys: set<nat>): nat { |keys| + |MidsOf(keys)| + |LowsOf(keys)| }

  /** Forking with nothing mapped copies nothing; one page takes its own frame and two
      tables. */
  lemma ForkFramesFew(n: nat)
    ensures ForkFrames({}) == 0 && ForkFrames({n}) == 3
  {
    assert MidsOf({}) == {} && LowsOf({}) == {};
    assert MidsOf({n}) == {n / 0x4_0000} && LowsOf({n}) == {n / 512};
  }

  ghost function NewTables(keys: set<nat>, n: nat): nat {
    (if n / 0x4_0000 in MidsOf(keys) then 0 else 1) + if n / 512 in LowsOf(keys) then 0 else 1
  }

  /** What the pages still to be copied will take. */
  ghost function Owed(w0: World, i: nat, copies: map<nat, nat>): int
    requires i < |w0.spaces|
  { ForkFrames(w0.spaces[i].pages.Keys) - ForkFrames(copies.Keys) }

  lemma SameOwed(w0: World, i: nat, copies: map<nat, nat>, n: nat, f: nat)
    requires i < |w0.spaces|
    ensures Owed(w0, i, copies[n := 0]) == Owed(w0, i, copies[n := f])
  {
    assert copies[n := 0].Keys == copies[n := f].Keys;
  }

  lemma ForkFramesAdd(keys: set<nat>, n: nat)
    requires n !in keys
    ensures ForkFrames(keys + {n}) == ForkFrames(keys) + 1 + NewTables(keys, n)
  {
    assert MidsOf(keys + {n}) == MidsOf(keys) + {n / 0x4_0000};
    assert LowsOf(keys + {n}) == LowsOf(keys) + {n / 512};
    AddOne(keys, n);
    AddOne(MidsOf(keys), n / 0x4_0000);
    AddOne(LowsOf(keys), n / 512);
  }

  lemma AddOne(a: set<nat>, x: nat)
    ensures |a + {x}| == |a| + if x in a then 0 else 1
  {
    if x in a {
      assert a + {x} == a;
    }
  }

  lemma ForkFramesMono(a: set<nat>, c: set<nat>)
    requires a <= c
    ensures ForkFrames(a) <= ForkFrames(c)
  {
    Subset(a, c);
    Subset(MidsOf(a), MidsOf(c));
    Subset(LowsOf(a), LowsOf(c));
  }

  /** A table that some mapped page of the task needs is there. */
  lemma MissingAtMost(s: Snap, b: Boot, procs: seq<Proc>, i: nat, n: nat)
    requires Sane(s, b, procs) && i < |procs| && n < USER_PAGES
    ensures MissingTables(s.mem, procs[i].root, PageNo(n)) <= NewTables(View(s, procs).spaces[i].pages.Keys, n)
  {
    hide Sane, View, Lookup;
    var r, keys := procs[i].root, View(s, procs).spaces[i].pages.Keys;
    RootFacts(s, b, procs, i);
    IndexFields(PageNo(n));
    if n / 0x4_0000 in MidsOf(keys) {
      var c :| c in keys && c / 0x4_0000 == n / 0x4_0000;
      MappedPages(s, b, procs, i, c);
      MappedTables(s, b.kroot, r, c);
    }
    if n / 512 in LowsOf(keys) {
      var c :| c in keys && c / 512 == n / 512;
      MappedPages(s, b, procs, i, c);
      MappedTables(s, b.kroot, r, c);
      DivDiv(c, 512, 512, 0x4_0000);
      DivDiv(n, 512, 512, 0x4_0000);
    }
  }

  lemma MappedTables(s: Snap, kroot: nat, r: nat, c: nat)
    requires Inv(s, kroot) && IsRoot(s.owner, r) && c < USER_PAGES && Lookup(s.mem, r, PageNo(c)).Some?
    ensures HasMid(s.mem, r, PageNo(c)) && HasLow(s.mem, r, PageNo(c))
    ensures PageNo(c).v2 == c / 0x4_0000 && PageNo(c).v1 == c / 512 % 512
  {
    LookupPath(s.mem, s.owner, kroot, r, PageNo(c));
    IndexFields(PageNo(c));
  }

  lemma JustAllocated(s: Snap, s1: Snap, b: Boot, procs: seq<Proc>, f: nat)
    requires Sane(s, b, procs) && f < FRAMES && f !in s.used && s1 == s.(used := s.used + {f})
    ensures Sane(s1, b, procs) && View(s1, procs) == View(s, procs)
    ensures forall i: nat, n: nat :: i < |procs| && n in View(s, procs).spaces[i].pages ==>
              View(s, procs).spaces[i].pages[n] != f && View(s, procs).spaces[i].pages[n] < |s.mem|
  {
    FreshInvisible(s, s1, b, procs);
    forall i: nat, n: nat | i < |procs| && n in View(s, procs).spaces[i].pages
      ensures View(s, procs).spaces[i].pages[n] != f && View(s, procs).spaces[i].pages[n] < |s.mem|
    {
      assert ProcOK(s, b, procs[i]);
    }
  }

  lemma JustWritten(s: Snap, s1: Snap, t: Snap, b: Boot, procs: seq<Proc>, f: nat, frame: Frame)
    requires Sane(s, b, procs) && f < FRAMES && f !in s.used && s1 == s.(used := s.used + {f})
    requires |s.mem| == FRAMES && t == s1.(mem := s1.mem[f := frame])
    ensures Fresh(s, t) && NewFrames(s, t, f, 1) && Inv(t, b.kroot)
  {
    FreshKeeps(b.kroot, s, t);
  }

  lemma OnePageMap(n: nat, f: nat)
    ensures RunPagesMap(n, 1, f) == map[n := f]
  {
    RunPagesMapIs(n, 1, f);
  }

  lemma PageAdopted(s: Snap, t0: Snap, t: Snap, b: Boot, procs: seq<Proc>, i: nat, child: nat, n: nat, f: nat,
                    perm: nat)
    requires Sane(s, b, procs) && i < |procs| && child < |procs| && n < USER_PAGES && f < FRAMES && Inv(t0, b.kroot)
    requires Installed(b.kroot, s, t0, procs[child].root, n, 1, f, perm)
    requires t == Snap(t0.mem, t0.owner + Labels(procs[child].root, n, 1, f), t0.used)
    requires n in View(s, procs).spaces[i].pages && n !in View(s, procs).spaces[child].pages
    requires Granted(procs[child].vmas, n, perm)
    requires |t0.mem| == FRAMES && PageHolds(View(s, procs), i, n, t0.mem[f])
    ensures Sane(t, b, procs) && CopyStep(View(s, procs), View(t, procs), i, child, n, f)
  {
    hide Sane, Installed, PagedIn, Lookup, Inv, View, Labels, RunPagesMap, Walk;
    MappedPages(s, b, procs, child, n);
    Adopt(s, t0, t, b, procs, child, n, 1, f, perm);
    OnePageMap(n, f);
  }

  lemma ValidFacts(k: Kernel)
    requires k.Valid() && k.Running()
    ensures k.Steady() && k.current < |k.procs| && |k.Seen().spaces| == |k.procs|
  {}

  lemma SteadyFacts(k: Kernel)
    requires k.Steady()
    ensures Sane(k.vm.Now(), k.boot, k.procs)
  {}
}
