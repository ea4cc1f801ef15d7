/** vm.c: building and consulting three-level page tables in place, with frames
    from the buddy allocator. */
module Paging {
  import opened Bits
  import opened Defs
  import opened BuddyTree
  import opened BuddyAllocator
  import opened Sv39
  import opened Memory

  /** The allocated pages are those of the live blocks. */
  ghost predicate UsedPages(used: set<int>, size: nat, live: set<nat>) {
    forall p {:trigger PageLive(size, live, p)} :: p in used <==> PageLive(size, live, p)
  }

  /** Memory, the use of owned frames, and the allocated pages. */
  datatype Snap = Snap(mem: Mem, owner: Owner, used: set<int>)

  /** Frames below the kernel, which belong to OpenSBI and are not mapped. */
  const FIRMWARE: nat := 512

  /** Tables are well formed and sit in allocated frames; free frames read zero;
      OpenSBI's frames are never handed out and hold nothing of the kernel. */
  ghost predicate Inv(s: Snap, kroot: nat) {
    && Tables(s.mem, s.owner, kroot)
    && (forall f <- s.owner :: f in s.used && FIRMWARE <= f)
    && (forall f: nat :: f < FIRMWARE ==> f in s.used)
    && (forall f <- s.used :: 0 <= f < FRAMES)
    && (forall f: nat :: f < FRAMES && f !in s.used ==> s.mem[f] == ZeroFrame())
  }

  ghost predicate TableRole(role: Role, r: nat) { (role.Mid? || role.Low?) && role.root == r }

  /** f holds part of the tree of root r. */
  ghost predicate TableOf(owner: Owner, r: nat, f: int) {
    f == r || (f in owner && TableRole(owner[f], r))
  }

  /** From s to t only tables of root r changed; new frames were unused. */
  ghost predicate Grows(s: Snap, t: Snap, r: nat) {
    && s.used <= t.used && |t.mem| == |s.mem| == FRAMES
    && (forall f <- s.owner :: f in t.owner && t.owner[f] == s.owner[f])
    && (forall f <- t.owner :: f !in s.owner ==> f !in s.used && TableRole(t.owner[f], r))
    && (forall f: nat :: f < FRAMES && f in s.used && !TableOf(s.owner, r, f) ==> t.mem[f] == s.mem[f])
  }

  /** One page of root r is mapped to the given leaf and no other page of any
      root is affected. */
  ghost predicate Maps(kroot: nat, s: Snap, t: Snap, r: nat, p: VPage, leaf: Leaf) {
    && Grows(s, t, r)
    && Lookup(t.mem, r, p) == Some(leaf)
    && forall q: nat, n: VPage :: IsRoot(s.owner, q) && !SamePage(kroot, r, p, q, n) ==>
         Lookup(t.mem, q, n) == Lookup(s.mem, q, n)
  }

  /** Root r may be given a new entry at index v2 without touching a shared half. */
  ghost predicate MayMap(owner: Owner, kroot: nat, r: nat, v2: nat) {
    && IsRoot(owner, r) && (v2 < 256 <==> r != kroot)
    && (v2 < 256 || BootRoots(owner, kroot))
  }

  class Vm {
    const ram: Ram
    const buddy: Buddy
    const kroot: nat
    ghost var owner: Owner
    ghost var used: set<int>

    ghost function Repr(): set<object> { {this, ram, ram.words, buddy, buddy.bitmap} }

    ghost function FreePages(): int
      reads this
    { FRAMES - |used| }

    ghost predicate Ready()
      reads Repr()
    {
      && ram.Valid() && buddy.Valid() && buddy.size == FRAMES
      && 0 in used && UsedPages(used, buddy.size, buddy.live)
    }

    ghost function Now(): Snap
      reads this, ram
    { Snap(ram.frames, owner, used) }

    ghost predicate Valid()
      reads Repr()
    { Ready() && Inv(Now(), kroot) }

    /** The state after `buddy_init`: the kernel image and the still empty kernel
        root table sit in reserved pages, everything else reads zero. */
    constructor (ram: Ram, buddy: Buddy, kroot: nat)
      requires ram.Valid() && buddy.Valid() && buddy.size == FRAMES && PageLive(buddy.size, buddy.live, 0)
      requires FIRMWARE <= kroot < FRAMES && PageLive(buddy.size, buddy.live, kroot)
      requires forall f: nat :: f < FIRMWARE ==> PageLive(buddy.size, buddy.live, f)
      requires ram.frames[kroot] == ZeroFrame()
      requires forall f: nat :: f < FRAMES && !PageLive(buddy.size, buddy.live, f) ==> ram.frames[f] == ZeroFrame()
      ensures Valid() && this.ram == ram && this.buddy == buddy && this.kroot == kroot
      ensures owner == map[kroot := Root]
    {
      this.ram := ram;
      this.buddy := buddy;
      this.kroot := kroot;
      this.owner := map[kroot := Root];
      this.used := LivePages(buddy.size, buddy.live);
      LivePagesAreUsed(buddy.size, buddy.live);
    }

    /** Records what frames are used for. */
    ghost method Label(extra: Owner)
      requires Ready()
      modifies this`owner
      ensures Ready() && owner == old(owner) + extra
    {
      owner := owner + extra;
    }

    /** `kalloc`: one page, or 0 when none is free. */
    method Kalloc() returns (va: Word)
      requires Ready()
      modifies this`used, buddy, buddy.bitmap
      ensures Ready() && (va != 0 <==> old(FreePages()) >= 1)
      ensures va == 0 ==> used == old(used)
      ensures va != 0 ==>
                && IsPage(va) && 0 <= PfnOf(va) < FRAMES && PfnOf(va) !in old(used) && used == old(used) + {PfnOf(va)}
                && FreePages() == old(FreePages()) - 1
    {
      UsedIsLivePages(used, buddy.size, buddy.live);
      FreePageFits(buddy.size, buddy.live);
      RoundUpOne();
      va := AllocRun(1);
      if va != 0 { SinglePage(PfnOf(va)); }
    }

    /** `pgcpy` of an allocated page to a new one. */
    method KallocCopy(src: Word) returns (va: Word)
      requires Ready() && FreePages() >= 1 && IsPage(src) && 0 <= PfnOf(src) < FRAMES && PfnOf(src) in used
      modifies this`used, buddy, buddy.bitmap, ram, ram.words
      ensures Ready() && IsPage(va) && 0 <= PfnOf(va) < FRAMES && PfnOf(va) !in old(used) && |old(Now()).mem| == FRAMES
      ensures var s := old(Now());
              Now() == Snap(s.mem[PfnOf(va) := s.mem[PfnOf(src)]], s.owner, s.used + {PfnOf(va)})
      ensures FreePages() == old(FreePages()) - 1
    {
      hide UsedPages;
      va := Kalloc();
      ram.PgCpy(va, src);
    }

    /** `alloc_pages`: a run of pages, of which the buddy allocator rounds up the
        number, or 0 when no such run is free. */
    method AllocRun(n: Word) returns (va: Word)
      requires Ready() && n <= Pow2(63)
      modifies this`used, buddy, buddy.bitmap
      ensures Ready() && (va != 0 <==> Fits(buddy.size, old(buddy.live), RoundUp(n)))
      ensures va == 0 ==> used == old(used) && buddy.live == old(buddy.live)
      ensures va != 0 ==>
                && IsPage(va) && PfnOf(va) + RoundUp(n) <= FRAMES
                && used == old(used) + Run(PfnOf(va), RoundUp(n)) && old(used) !! Run(PfnOf(va), RoundUp(n))
                && FreePages() == old(FreePages()) - RoundUp(n)
    {
      hide UsedPages, LivePages, PageLive, Fits, WellFormed;
      UsedZero(used, buddy.size, buddy.live);
      UsedIsLivePages(used, buddy.size, buddy.live);
      va := buddy.AllocPages(n);
      if va == 0 { return; }
      used := used + Run(PfnOf(va), RoundUp(n));
      LivePagesAreUsed(buddy.size, buddy.live);
      assert used == LivePages(buddy.size, buddy.live);
    }

    /** The mapping loop that `alloc_annoymous_vm` and `alloc_elf_mem` end with:
        consecutive pages onto consecutive frames. */
    method MapRun(pgtbl: Word, va: Word, pa: Word, n: nat, perm: Word, ghost first: nat, ghost base: nat)
      requires Valid() && IsPage(pgtbl) && IsRoot(owner, PfnOf(pgtbl)) && PfnOf(pgtbl) != kroot
      requires va == 0x1000 * first && first + n <= USER_PAGES && pa == FrameAddress(base) && base + n <= FRAMES
      requires LeafPerm(perm) && FreePages() >= Ahead(first, 0, n)
      modifies Repr()
      ensures Valid() && FreePages() >= old(FreePages()) - Ahead(first, 0, n)
      ensures MapsRun(kroot, old(Now()), Now(), PfnOf(pgtbl), first, n, base, perm)
    {
      hide Inv, Tables, MapsRun, UsedPages, LeafPerm, IsRoot;
      ghost var s0, r, free := Now(), PfnOf(pgtbl), FreePages();
      var i := 0;
      MapsRunStarts(kroot, s0, r, first, base, perm);
      while i < n
        invariant i <= n && Valid() && MapsRun(kroot, s0, Now(), r, first, i, base, perm)
        invariant FreePages() >= Ahead(first, i, n) + free - Ahead(first, 0, n)
      {
        MapOneOfRun(pgtbl, va, pa, i, perm, n, first, base, s0);
        i := i + 1;
      }
    }

    /** The loop body. */
    method MapOneOfRun(pgtbl: Word, va: Word, pa: Word, i: nat, perm: Word, ghost n: nat,
                       ghost first: nat, ghost base: nat, ghost s0: Snap)
      requires Valid() && i < n
      requires IsPage(pgtbl) && IsRoot(s0.owner, PfnOf(pgtbl)) && PfnOf(pgtbl) != kroot
      requires va == 0x1000 * first && first + n <= USER_PAGES && pa == FrameAddress(base) && base + n <= FRAMES
      requires LeafPerm(perm) && MapsRun(kroot, s0, Now(), PfnOf(pgtbl), first, i, base, perm)
      requires FreePages() >= TablesAt(PageNo(first + i), i == 0)
      modifies Repr()
      ensures Valid() && MapsRun(kroot, s0, Now(), PfnOf(pgtbl), first, i + 1, base, perm)
      ensures FreePages() >= old(FreePages()) - TablesAt(PageNo(first + i), i == 0)
    {
      hide Inv, Tables, MapsRun, Maps, UsedPages, PageOf, PageNo, Or, Walk, Lookup;
      ghost var s, r := Now(), PfnOf(pgtbl);
      TablesForNext(kroot, s0, s, r, first, i, base, perm);
      RunAddress(first + i, base + i);
      var v, f := va + i * 0x1000, pa + i * 0x1000;
      assert v == 0x1000 * (first + i) && f == FrameAddress(base + i);
      ghost var p, leaf := PageOf(v), Leaf(f / 0x1000, Or(perm, PTE_V));
      assert p == PageNo(first + i) && leaf == Leaf(PPN_BASE + base + i, perm);
      MapFinal(pgtbl, v, f, perm);
      MapsRunExtended(kroot, s0, s, Now(), r, first, i, base, perm, p, leaf);
    }

    /** `setup_pte`: a new, zero frame is linked at table[idx]. */
    method SetupPte(table: Word, idx: nat) returns (pte: Word)
      requires Valid() && FreePages() >= 1
      requires IsPage(table) && PfnOf(table) < FRAMES && PfnOf(table) in used && idx < 512
      modifies this`used, buddy, buddy.bitmap, ram, ram.words
      ensures Ready() && 0 <= Target(pte) < FRAMES && pte == Pte(Target(pte), 1)
      ensures Target(pte) !in old(used) && used == old(used) + {Target(pte)}
      ensures FreePages() == old(FreePages()) - 1
      ensures ram.frames == Put(old(ram.frames), PfnOf(table), idx, pte) && ram.frames[Target(pte)] == ZeroFrame()
    {
      var pagePa := Pkalloc();
      ghost var f := FrameOf(pagePa);
      PteEncode(f, PTE_V);
      PteDecode(f, PTE_V);
      pte := Or(Addr2Pte(pagePa), PTE_V);
      ram.Store(table, idx, pte);
    }

    /** `pkalloc`: one page, by physical address. */
    method Pkalloc() returns (pa: Word)
      requires Ready() && FreePages() >= 1
      modifies this`used, buddy, buddy.bitmap
      ensures Ready() && IsFrameAddress(pa)
      ensures FrameOf(pa) !in old(used) && used == old(used) + {FrameOf(pa)}
      ensures FreePages() == old(FreePages()) - 1
    {
      var page := Kalloc();
      DirectAddress(page);
      pa := Va2Pa(page);
    }

    /** `map_final_pgtbl`: the walk of va in this root now yields pa with the
        given permissions; missing tables are allocated on the way. */
    method MapFinal(pgtbl: Word, va: Word, pa: Word, perm: Word)
      requires Valid() && IsPage(pgtbl) && MayMap(owner, kroot, PfnOf(pgtbl), PageOf(va).v2)
      requires FreePages() >= MissingTables(ram.frames, PfnOf(pgtbl), PageOf(va))
      requires IsFrameAddress(pa) && perm < 0x400 && LegalPerm(Or(perm, PTE_V))
      modifies Repr()
      ensures Valid()
      ensures FreePages() == old(FreePages()) - old(MissingTables(ram.frames, PfnOf(pgtbl), PageOf(va)))
      ensures Maps(kroot, old(Now()), Now(), PfnOf(pgtbl), PageOf(va), Leaf(pa / 0x1000, Or(perm, PTE_V)))
      ensures Canonical39(va) ==>
                Translate(ram.frames, PfnOf(pgtbl), va) == Some(Leaf(pa / 0x1000, perm + 1 - perm % 2))
    {
      hide Tables, Translate, Walk, Lookup, Or, PageOf, Maps, Tabled, MissingTables, UsedPages;
      ghost var r, s0 := PfnOf(pgtbl), Now();
      var table := WalkDown(pgtbl, va);
      ghost var s1 := Now();
      FinalEntry(table, va, pa, perm, r);
      TabledThenMaps(kroot, s0, s1, Now(), r, PageOf(va), Leaf(pa / 0x1000, Or(perm, PTE_V)));
      MappedTranslates(kroot, s0, Now(), r, va, Leaf(pa / 0x1000, Or(perm, PTE_V)));
      OrOne(perm);
    }

    /** Lines 22 to 35 of vm.c: both upper levels. */
    method WalkDown(pgtbl: Word, va: Word) returns (table: Word)
      requires Valid() && IsPage(pgtbl) && MayMap(owner, kroot, PfnOf(pgtbl), PageOf(va).v2)
      requires FreePages() >= MissingTables(ram.frames, PfnOf(pgtbl), PageOf(va))
      modifies Repr()
      ensures Valid() && MayMap(owner, kroot, PfnOf(pgtbl), PageOf(va).v2)
      ensures FreePages() == old(FreePages()) - old(MissingTables(ram.frames, PfnOf(pgtbl), PageOf(va)))
      ensures Tabled(kroot, old(Now()), Now(), PfnOf(pgtbl))
      ensures HasLow(ram.frames, PfnOf(pgtbl), PageOf(va)) && table == Kva(LowOf(ram.frames, PfnOf(pgtbl), PageOf(va)))
    {
      ghost var r, n, s0 := PfnOf(pgtbl), PageOf(va), Now();
      table := MidTable(pgtbl, va);
      ghost var s1 := Now();
      StillMayMap(kroot, s0, s1, r, n.v2);
      table := LowTable(table, va, r);
      StillMayMap(kroot, s1, Now(), r, n.v2);
      TabledTwice(kroot, s0, s1, Now(), r);
    }

    /** Lines 37 and 38 of vm.c: the leaf entry. */
    method FinalEntry(table: Word, va: Word, pa: Word, perm: Word, ghost r: nat)
      requires Valid() && MayMap(owner, kroot, r, PageOf(va).v2)
      requires HasLow(ram.frames, r, PageOf(va)) && table == Kva(LowOf(ram.frames, r, PageOf(va)))
      requires IsFrameAddress(pa) && perm < 0x400 && LegalPerm(Or(perm, PTE_V))
      modifies ram, ram.words
      ensures Valid() && Maps(kroot, old(Now()), Now(), r, PageOf(va), Leaf(pa / 0x1000, Or(perm, PTE_V)))
    {
      ghost var s := Now();
      VpnIndices(va);
      PermAdds(perm);
      PteEncode(FrameOf(pa), Or(perm, PTE_V));
      PageAddressRoundTrip(LowOf(s.mem, r, PageOf(va)), 0);
      assert pa == FrameAddress(FrameOf(pa));
      ram.Store(table, VpnIndex(va, 0), Or(Addr2Pte(pa), Or(perm, PTE_V)));
      LeafWritten(kroot, s, Now(), r, PageOf(va), pa, Or(perm, PTE_V));
    }

    /** Lines 25 to 29 of vm.c: the second-level table on the way to va. */
    method MidTable(pgtbl: Word, va: Word) returns (table: Word)
      requires Valid() && IsPage(pgtbl) && MayMap(owner, kroot, PfnOf(pgtbl), PageOf(va).v2)
      requires FreePages() >= MissingTables(ram.frames, PfnOf(pgtbl), PageOf(va))
      modifies Repr()
      ensures Valid()
      ensures FreePages() - MissingTables(ram.frames, PfnOf(pgtbl), PageOf(va)) ==
              old(FreePages()) - old(MissingTables(ram.frames, PfnOf(pgtbl), PageOf(va)))
      ensures Tabled(kroot, old(Now()), Now(), PfnOf(pgtbl))
      ensures HasMid(ram.frames, PfnOf(pgtbl), PageOf(va)) && table == Kva(MidOf(ram.frames, PfnOf(pgtbl), PageOf(va)))
    {
      ghost var r, n, s0 := PfnOf(pgtbl), PageOf(va), Now();
      VpnIndices(va);
      var pte := ram.Load(pgtbl, VpnIndex(va, 2));
      PointerValid(owner, pte, Mid(r, n.v2));
      if !PteValid(pte) {
        pte := SetupPte(pgtbl, VpnIndex(va, 2));
        owner := owner[Target(pte) := Mid(r, n.v2)];
        AddedMid(s0, Now(), kroot, r, n.v2, pte);
      }
      PteDecode(Target(pte), 1);
      table := Pte2Va(pte);
    }

    /** Lines 31 to 35 of vm.c: the third-level table on the way to va. */
    method LowTable(mid: Word, va: Word, ghost r: nat) returns (table: Word)
      requires Valid() && FreePages() >= MissingTables(ram.frames, r, PageOf(va))
      requires MayMap(owner, kroot, r, PageOf(va).v2)
      requires HasMid(ram.frames, r, PageOf(va)) && mid == Kva(MidOf(ram.frames, r, PageOf(va)))
      modifies Repr()
      ensures Valid()
      ensures FreePages() == old(FreePages()) - old(MissingTables(ram.frames, r, PageOf(va)))
      ensures Tabled(kroot, old(Now()), Now(), r)
      ensures HasLow(ram.frames, r, PageOf(va)) && table == Kva(LowOf(ram.frames, r, PageOf(va)))
    {
      ghost var n, s0, m := PageOf(va), Now(), MidOf(ram.frames, r, PageOf(va));
      VpnIndices(va);
      PageAddressRoundTrip(m, 0);
      LookupPath(s0.mem, owner, kroot, r, n);
      var pte := ram.Load(mid, VpnIndex(va, 1));
      PointerValid(owner, pte, Low(r, n.v2, n.v1));
      if !PteValid(pte) {
        pte := SetupPte(mid, VpnIndex(va, 1));
        owner := owner[Target(pte) := Low(r, n.v2, n.v1)];
        AddedLow(s0, Now(), kroot, m, n.v1, pte);
      }
      PteDecode(Target(pte), 1);
      table := Pte2Va(pte);
    }

    /** `setup_vm_final`: afterwards the kernel root maps RAM from the end of
        OpenSBI on, each page at its fixed offset, and nothing else. */
    method SetupVmFinal(etext: Word, erodata: Word)
      requires Valid() && owner == map[kroot := Root] && ram.frames[kroot] == ZeroFrame()
      requires FreePages() >= 64
      requires Kva(512) <= etext <= erodata <= Kva(FRAMES)
      modifies Repr()
      ensures Valid() && BootRoots(owner, kroot)
      ensures DirectMapped(ram.frames, kroot, 512, FRAMES, KernelPerms(etext, erodata))
      ensures Grows(old(Now()), Now(), kroot)
      ensures FreePages() >= old(FreePages()) - 64
    {
      var textEnd := PgRoundUp(etext);
      var rodataEnd := PgRoundUp(erodata);
      BootRegions(etext, erodata);
      ghost var perms, s0 := KernelPerms(etext, erodata), Now();
      MapKernelRange(Kva(512), textEnd, Or(Or(PTE_V, PTE_R), PTE_X), perms);
      ghost var s1 := Now();
      MapKernelRange(textEnd, rodataEnd, Or(PTE_V, PTE_R), perms);
      GrowsTwice(s0, s1, Now(), kroot);
      ghost var s2 := Now();
      MapKernelRange(rodataEnd, Kva(FRAMES), Or(Or(PTE_W, PTE_R), PTE_V), perms);
      GrowsTwice(s0, s2, Now(), kroot);
    }

    /** One of its three loops. */
    method MapKernelRange(from: Word, to: Word, perm: Word, ghost perms: nat -> nat)
      requires Valid() && BootRoots(owner, kroot)
      requires IsPage(from) && IsPage(to) && Kva(512) <= from <= to <= Kva(FRAMES)
      requires perm < 0x400 && LegalPerm(perm) && Or(perm, PTE_V) == perm
      requires RegionPerm(perms, PfnOf(from), PfnOf(to), perm)
      requires DirectMapped(ram.frames, kroot, 512, PfnOf(from), perms)
      requires FreePages() >= TablesAhead(PfnOf(from))
      modifies Repr()
      ensures Valid() && BootRoots(owner, kroot)
      ensures DirectMapped(ram.frames, kroot, 512, PfnOf(to), perms)
      ensures FreePages() - TablesAhead(PfnOf(to)) >= old(FreePages()) - TablesAhead(PfnOf(from))
      ensures Grows(old(Now()), Now(), kroot)
    {
      ghost var s0, f, last := Now(), PfnOf(from), PfnOf(to);
      var va := from;
      while va < to
        invariant Valid() && PfnOf(from) <= f <= last && va == Kva(f) && BootRoots(owner, kroot)
        invariant DirectMapped(ram.frames, kroot, 512, f, perms)
        invariant FreePages() - TablesAhead(f) >= old(FreePages()) - TablesAhead(PfnOf(from))
        invariant Grows(s0, Now(), kroot)
        decreases last - f
      {
        ghost var s := Now();
        MapKernelPage(va, perm, f, perms);
        GrowsTwice(s0, s, Now(), kroot);
        va := va + PGSIZE;
        f := f + 1;
      }
    }

    /** The loop body. */
    method MapKernelPage(va: Word, perm: Word, ghost f: nat, ghost perms: nat -> nat)
      requires Valid() && BootRoots(owner, kroot)
      requires 512 <= f < FRAMES && va == Kva(f) && perms(f) == perm
      requires perm < 0x400 && LegalPerm(perm) && Or(perm, PTE_V) == perm
      requires DirectMapped(ram.frames, kroot, 512, f, perms)
      requires FreePages() >= TablesAhead(f)
      modifies Repr()
      ensures Valid() && BootRoots(owner, kroot)
      ensures DirectMapped(ram.frames, kroot, 512, f + 1, perms)
      ensures FreePages() - TablesAhead(f + 1) >= old(FreePages()) - TablesAhead(f)
      ensures Grows(old(Now()), Now(), kroot)
    {
      ghost var s := Now();
      KernelPage(f);
      PageAddressRoundTrip(kroot, 0);
      KernelTables(s.mem, kroot, f, perms);
      assert Leaf(Va2Pa(va) / 0x1000, Or(perm, PTE_V)) == Leaf(PPN_BASE + f, perms(f));
      MapFinal(Kva(kroot), va, Va2Pa(va), perm);
      BootRootsKept(s, Now(), kroot);
      DirectMappedNext(s, Now(), kroot, f, perms);
    }

    /** The memory-management unit: the walk of section 4.3.2, level by level. */
    method HardwareWalk(table: nat, va: Word, level: nat) returns (r: Option<Leaf>)
      requires ram.Valid() && level < 3
      ensures r == Walk(ram.frames, table, PageOf(va), level)
      decreases level
    {
      hide Decode, PageOf;
      if table >= FRAMES { return None; }
      var hop := FetchEntry(table, va, level);
      match hop {
        case Fault => return None;
        case Found(ppn, perm) =>
          IndexOfLevel(va, level);
          return Some(Leaf(ppn + Below(va, level), perm));
        case Descend(ppn) =>
          if ppn < PPN_BASE { return None; }
          r := HardwareWalk(ppn - PPN_BASE, va, level - 1);
      }
    }

    /** One memory access of the walk. */
    method FetchEntry(table: nat, va: Word, level: nat) returns (hop: Hop)
      requires ram.Valid() && level < 3 && table < FRAMES
      ensures hop == Decode(ram.frames[table][PageOf(va).Field(level)], level) && (hop.Descend? ==> level > 0)
    {
      IndexOfLevel(va, level);
      PageAddressRoundTrip(table, 0);
      var pte := ram.Load(Kva(table), VpnIndex(va, level));
      hop := Decode(pte, level);
    }

    /** `is_va_mapped`: agrees with the hardware walk. */
    method IsVaMapped(va: Word, pgtbl: Word) returns (mapped: bool)
      requires ram.Valid() && Tables(ram.frames, owner, kroot)
      requires IsPage(pgtbl) && IsRoot(owner, PfnOf(pgtbl))
      ensures mapped <==> Walk(ram.frames, PfnOf(pgtbl), PageOf(va), 2).Some?
    {
      ghost var r, n, mem := PfnOf(pgtbl), PageOf(va), ram.frames;
      VpnIndices(va);
      WalkIsLookup(mem, owner, kroot, r, n);
      EntryOnPath(mem, owner, kroot, r, n);
      var pte := ram.Load(pgtbl, VpnIndex(va, 2));
      if !PteValid(pte) { return false; }
      var table := Pte2Va(pte);
      PageAddressRoundTrip(MidOf(mem, r, n), 0);
      pte := ram.Load(table, VpnIndex(va, 1));
      if !PteValid(pte) { return false; }
      table := Pte2Va(pte);
      PageAddressRoundTrip(LowOf(mem, r, n), 0);
      pte := ram.Load(table, VpnIndex(va, 0));
      return PteValid(pte);
    }
  }

  predicate IsFrameAddress(pa: Word) { PHY_START <= pa && FrameOf(pa) < FRAMES && pa == FrameAddress(FrameOf(pa)) }

  function FrameAddress(f: nat): nat { PHY_START + 0x1000 * f }

  function FrameOf(pa: Word): nat
    requires PHY_START <= pa
  { (pa - PHY_START) / 0x1000 }

  /** Like Maps, but no page changes: only empty tables were added. */
  ghost predicate Tabled(kroot: nat, s: Snap, t: Snap, r: nat) {
    && Grows(s, t, r)
    && forall q: nat, n: VPage :: IsRoot(s.owner, q) ==> Lookup(t.mem, q, n) == Lookup(s.mem, q, n)
  }

  /** The part of the page number that a superpage leaf takes over. */
  function Below(va: Word, level: nat): nat
    requires level < 3
  {
    if level == 0 then 0 else if level == 1 then VpnIndex(va, 0) else 512 * VpnIndex(va, 1) + VpnIndex(va, 0)
  }

  lemma IndexOfLevel(va: Word, level: nat)
    requires level < 3
    ensures VpnIndex(va, level) == PageOf(va).Field(level) && Below(va, level) == PageOf(va).Below(level)
  {
    VpnIndices(va);
  }

  lemma MappedTranslates(kroot: nat, s: Snap, t: Snap, r: nat, va: Word, leaf: Leaf)
    requires Inv(t, kroot) && IsRoot(s.owner, r) && Maps(kroot, s, t, r, PageOf(va), leaf)
    ensures Canonical39(va) ==> Translate(t.mem, r, va) == Some(leaf)
  {
    hide Walk, Lookup;
    assert IsRoot(t.owner, r);
    WalkIsLookup(t.mem, t.owner, kroot, r, PageOf(va));
  }

  lemma OrOne(x: nat)
    ensures Or(x, 1) == x + 1 - x % 2
  {
    OrZero(x / 2);
  }

  // ---- proof steps -------------------------------------------------------

  /** A one-page request fits exactly when a page is free. */
  lemma FreePageFits(size: nat, live: set<nat>)
    requires WellFormed(size, live)
    ensures Fits(size, live, 1) <==> |LivePages(size, live)| < size
  {
    assert LivePages(size, live) <= Run(0, size) by {
      forall p <- LivePages(size, live) ensures InRun(0, size, p) {}
    }
    if |LivePages(size, live)| < size {
      assert Run(0, size) != LivePages(size, live);
      var p :| p in Run(0, size) && p !in LivePages(size, live);
      assert FreeRun(size, live, p, 1);
    }
    forall p | FreeRun(size, live, p, 1) ensures |LivePages(size, live)| < size {
      assert !PageLive(size, live, p) && InRun(0, size, p);
      Fewer(LivePages(size, live), Run(0, size), p);
    }
  }

  lemma Fewer<T>(a: set<T>, c: set<T>, n: T)
    requires a <= c - {n} && n in c
    ensures |a| < |c|
  {
    assert c == (c - {n}) + {n};
    Subset(a, c - {n});
  }

  lemma {:induction false} Subset<T>(a: set<T>, c: set<T>)
    requires a <= c
    ensures |a| <= |c|
  {
    if a != {} {
      var x :| x in a;
      Subset(a - {x}, c - {x});
    }
  }

  lemma RoundUpOne()
    ensures RoundUp(1) == 1 && 1 <= Pow2(63)
  {}

  lemma SinglePage(p: int)
    ensures Run(p, 1) == {p}
  {
    forall q ensures q in Run(p, 1) <==> q == p {
      assert InRun(p, 1, q) <==> q == p;
    }
  }

  lemma LivePagesAreUsed(size: nat, live: set<nat>)
    requires WellFormed(size, live)
    ensures UsedPages(LivePages(size, live), size, live)
  {
    forall p ensures p in LivePages(size, live) <==> PageLive(size, live, p) {
      if PageLive(size, live, p) { LivePageInRange(size, live, p); }
    }
  }

  lemma UsedIsLivePages(used: set<int>, size: nat, live: set<nat>)
    requires WellFormed(size, live) && UsedPages(used, size, live)
    ensures used == LivePages(size, live)
  {
    forall p ensures p in used <==> p in LivePages(size, live) {
      assert p in used <==> PageLive(size, live, p);
      if PageLive(size, live, p) { LivePageInRange(size, live, p); }
    }
  }

  lemma UsedZero(used: set<int>, size: nat, live: set<nat>)
    requires UsedPages(used, size, live) && 0 in used
    ensures PageLive(size, live, 0)
  {}

  lemma DirectAddress(va: Word)
    requires IsPage(va) && PfnOf(va) < FRAMES
    ensures IsFrameAddress(Va2Pa(va)) && FrameOf(Va2Pa(va)) == PfnOf(va)
  {
    PageAddressRoundTrip(PfnOf(va), 0);
    assert Va2Pa(va) == FrameAddress(PfnOf(va));
  }

  lemma PteEncode(f: nat, perm: nat)
    requires f < FRAMES && perm < 0x400
    ensures FrameAddress(f) < TWO_64 && 0 <= Pte(f, perm) < TWO_64
    ensures Or(Addr2Pte(FrameAddress(f)), perm) == Pte(f, perm)
  {
    assert Pow2(10) == 0x400 by { Pow2Values(); }
    assert Addr2Pte(FrameAddress(f)) == (PPN_BASE + f) * 0x400;
    OrDisjoint(PPN_BASE + f, perm, 10);
  }

  lemma PteDecode(f: nat, perm: nat)
    requires f < FRAMES && perm < 0x400
    ensures 0 <= Pte(f, perm) < TWO_64
    ensures Target(Pte(f, perm)) == f && Pte(f, perm) / 0x400 == PPN_BASE + f && Pte(f, perm) % 0x400 == perm
    ensures Pte2Va(Pte(f, perm)) == Kva(f)
  {
    assert Pte2Addr(Pte(f, perm)) == (PPN_BASE + f) * 0x1000;
  }

  lemma PointerValid(owner: Owner, pte: Word, role: Role)
    requires PointerOK(owner, pte, role)
    ensures PteValid(pte) <==> pte != 0
  {
    PteValidIsOdd(pte);
    LowBits(PPN_BASE + Target(pte), 1);
  }

  lemma LeafValid(pte: Word)
    requires LeafOK(pte)
    ensures PteValid(pte) <==> pte != 0
  {
    PteValidIsOdd(pte);
    assert pte == pte / 0x400 * 0x400 + pte % 0x400;
    LowBits(pte / 0x400, pte % 0x400);
  }

  /** What the valid bits and the addresses mean along a lookup. */
  lemma EntryOnPath(mem: Mem, owner: Owner, kroot: nat, r: nat, n: VPage)
    requires Tables(mem, owner, kroot) && IsRoot(owner, r)
    ensures PteValid(mem[r][n.v2]) <==> mem[r][n.v2] != 0
    ensures mem[r][n.v2] != 0 ==> HasMid(mem, r, n) && Pte2Va(mem[r][n.v2]) == Kva(MidOf(mem, r, n))
    ensures HasMid(mem, r, n) ==>
              var e := mem[MidOf(mem, r, n)][n.v1];
              && (PteValid(e) <==> e != 0)
              && (e != 0 ==> HasLow(mem, r, n) && Pte2Va(e) == Kva(LowOf(mem, r, n)))
    ensures HasLow(mem, r, n) ==> var e := mem[LowOf(mem, r, n)][n.v0]; PteValid(e) <==> e != 0
  {
    LookupPath(mem, owner, kroot, r, n);
    PointerValid(owner, mem[r][n.v2], Mid(Home(kroot, r, n.v2), n.v2));
    if mem[r][n.v2] != 0 {
      var m := MidOf(mem, r, n);
      PteDecode(m, 1);
      PointerValid(owner, mem[m][n.v1], Low(owner[m].root, owner[m].v2, n.v1));
      if mem[m][n.v1] != 0 {
        PteDecode(LowOf(mem, r, n), 1);
        LeafValid(mem[LowOf(mem, r, n)][n.v0]);
      }
    }
  }

  lemma PermAdds(perm: Word)
    requires perm < 0x400
    ensures Or(perm, PTE_V) < 0x400
  {
    assert Pow2(10) == 0x400 by { Pow2Values(); }
    OrBound(perm, PTE_V, 10);
  }

  ghost predicate HasMid(mem: Mem, r: nat, n: VPage) {
    |mem| == FRAMES && r < FRAMES && mem[r][n.v2] != 0 && 0 <= MidOf(mem, r, n) < FRAMES
  }

  ghost function MidOf(mem: Mem, r: nat, n: VPage): int
    requires r < |mem|
  { Target(mem[r][n.v2]) }

  ghost predicate HasLow(mem: Mem, r: nat, n: VPage) {
    HasMid(mem, r, n) && mem[MidOf(mem, r, n)][n.v1] != 0 && 0 <= LowOf(mem, r, n) < FRAMES
  }

  ghost function LowOf(mem: Mem, r: nat, n: VPage): int
    requires HasMid(mem, r, n)
  { Target(mem[MidOf(mem, r, n)][n.v1]) }

  /** Tables that mapping page n of root r has to allocate. */
  ghost function MissingTables(mem: Mem, r: nat, n: VPage): nat {
    if !HasMid(mem, r, n) then 2 else if !HasLow(mem, r, n) then 1 else 0
  }

  lemma LeafWritten(kroot: nat, s: Snap, t: Snap, r: nat, n: VPage, pa: Word, perm: Word)
    requires Inv(s, kroot) && MayMap(s.owner, kroot, r, n.v2)
    requires HasLow(s.mem, r, n) && IsFrameAddress(pa) && perm < 0x400 && LegalPerm(perm)
    requires 0 <= Pte(FrameOf(pa), perm) < TWO_64
    requires t == Snap(Put(s.mem, LowOf(s.mem, r, n), n.v0, Pte(FrameOf(pa), perm)), s.owner, s.used)
    ensures Inv(t, kroot) && Maps(kroot, s, t, r, n, Leaf(pa / 0x1000, perm))
  {
    PteDecode(FrameOf(pa), perm);
    assert pa / 0x1000 == PPN_BASE + FrameOf(pa);
    LookupPath(s.mem, s.owner, kroot, r, n);
    SetLeaf(s.mem, s.owner, kroot, r, n, Pte(FrameOf(pa), perm));
  }

  // ---- runs of user pages --------------------------------------------------

  /** Pages first..first+n-1 of root r are mapped to consecutive frames and no
      other page of any root is affected. */
  ghost predicate MapsRun(kroot: nat, s: Snap, t: Snap, r: nat, first: nat, n: nat, base: nat, perm: nat) {
    && Grows(s, t, r)
    && (forall p: VPage :: first <= PageIndex(p) < first + n ==>
          Lookup(t.mem, r, p) == Some(Leaf(PPN_BASE + base + PageIndex(p) - first, perm)))
    && (forall q: nat, p: VPage :: IsRoot(s.owner, q) && (q != r || !(first <= PageIndex(p) < first + n)) ==>
          Lookup(t.mem, q, p) == Lookup(s.mem, q, p))
  }

  /** Tables that mapping pages first+i..first+n-1 may need, when the i pages
      before are mapped: two for the first, later one at every boundary. */
  ghost function Ahead(first: nat, i: nat, n: nat): nat
    requires first + n <= USER_PAGES
    decreases n - i
  { if i >= n then 0 else TablesAt(PageNo(first + i), i == 0) + Ahead(first, i + 1, n) }

  function TablesAt(p: VPage, isFirst: bool): nat {
    if isFirst then 2 else if p.v0 != 0 then 0 else if p.v1 != 0 then 1 else 2
  }

  /** Permission bits of a leaf entry. */
  predicate LeafPerm(perm: Word) { perm < 0x400 && LegalPerm(perm) && Or(perm, PTE_V) == perm }

  lemma RunAddress(n: nat, f: nat)
    requires n < USER_PAGES && f < FRAMES
    ensures PageOf(0x1000 * n) == PageNo(n) && PageNo(n).v2 < 256
    ensures IsFrameAddress(FrameAddress(f)) && FrameOf(FrameAddress(f)) == f && FrameAddress(f) / 0x1000 == PPN_BASE + f
  {
    assert 0x1000 * n / 0x1000 % 0x800_0000 == n;
  }

  lemma RootKept(s: Snap, t: Snap, q: nat, r: nat)
    requires IsRoot(s.owner, q) && Grows(s, t, r)
    ensures IsRoot(t.owner, q)
  {}

  lemma TablesForNext(kroot: nat, s: Snap, t: Snap, r: nat, first: nat, i: nat, base: nat, perm: nat)
    requires IsRoot(s.owner, r) && first + i < USER_PAGES && MapsRun(kroot, s, t, r, first, i, base, perm)
    ensures IsRoot(t.owner, r)
    ensures MissingTables(t.mem, r, PageNo(first + i)) <= TablesAt(PageNo(first + i), i == 0)
  {
    if i > 0 {
      assert Lookup(t.mem, r, PageNo(first + i - 1)).Some?;
      SameTables(PageNo(first + i - 1), PageNo(first + i));
    }
  }

  /** Neighbouring pages share their tables unless a boundary lies between. */
  lemma SameTables(p: VPage, q: VPage)
    requires PageIndex(q) == PageIndex(p) + 1
    ensures q.v0 != 0 ==> q.v1 == p.v1 && q.v2 == p.v2
    ensures q.v1 != 0 || q.v0 != 0 ==> q.v2 == p.v2
  {
    if p.v0 < 511 { PageIndexInjective(q, VPage(p.v2, p.v1, p.v0 + 1)); }
    else if p.v1 < 511 { PageIndexInjective(q, VPage(p.v2, p.v1 + 1, 0)); }
    else if p.v2 < 511 { PageIndexInjective(q, VPage(p.v2 + 1, 0, 0)); }
  }

  lemma MapsRunStarts(kroot: nat, s: Snap, r: nat, first: nat, base: nat, perm: nat)
    requires |s.mem| == FRAMES
    ensures MapsRun(kroot, s, s, r, first, 0, base, perm)
  {}

  lemma MapsRunExtended(kroot: nat, s: Snap, t: Snap, u: Snap, r: nat, first: nat, i: nat, base: nat, perm: nat,
                        last: VPage, leaf: Leaf)
    requires IsRoot(s.owner, r) && r != kroot && PageIndex(last) == first + i < USER_PAGES
    requires MapsRun(kroot, s, t, r, first, i, base, perm)
    requires Maps(kroot, t, u, r, last, leaf) && leaf == Leaf(PPN_BASE + base + i, perm)
    ensures MapsRun(kroot, s, u, r, first, i + 1, base, perm)
  {
    GrowsTwice(s, t, u, r);
    RootKept(s, t, r, r);
    forall p: VPage | first <= PageIndex(p) < first + i + 1
      ensures Lookup(u.mem, r, p) == Some(Leaf(PPN_BASE + base + PageIndex(p) - first, perm))
    {
      if PageIndex(p) == first + i { PageIndexInjective(p, last); }
    }
    forall q: nat, p: VPage | IsRoot(s.owner, q) && (q != r || !(first <= PageIndex(p) < first + i + 1))
      ensures Lookup(u.mem, q, p) == Lookup(s.mem, q, p)
    {
      RootKept(s, t, q, r);
    }
  }

  // ---- the direct map ------------------------------------------------------

  /** The page of the direct map that shows frame f. */
  ghost function KernelPageOf(f: nat): VPage
    requires f < FRAMES
  { VPage(384, f / 512, f % 512) }

  ghost function FrameShown(p: VPage): nat { 512 * p.v1 + p.v0 }

  /** Exactly frames lo..hi-1 are mapped, each at its place in the direct map. */
  ghost predicate DirectMapped(mem: Mem, kroot: nat, lo: nat, hi: nat, perms: nat -> nat) {
    forall p: VPage :: Lookup(mem, kroot, p) ==
      if p.v2 == 384 && lo <= FrameShown(p) < hi then Some(Leaf(PPN_BASE + FrameShown(p), perms(FrameShown(p))))
      else None
  }

  /** Text is R|X, read-only data R, everything behind it R|W. */
  ghost function KernelPerms(etext: Word, erodata: Word): nat -> nat {
    f => if VM_START + 0x1000 * f < PgRoundUp(etext) then PTE_V + PTE_R + PTE_X
         else if VM_START + 0x1000 * f < PgRoundUp(erodata) then PTE_V + PTE_R
         else PTE_V + PTE_R + PTE_W
  }

  /** No page of the direct map is open to user mode. */
  ghost predicate KernelOnly(perms: nat -> nat) { forall f: nat :: perms(f) / PTE_U % 2 == 0 }

  lemma KernelPermsOnly(etext: Word, erodata: Word)
    ensures KernelOnly(KernelPerms(etext, erodata))
  {}

  lemma GrowsTwice(s0: Snap, s1: Snap, s2: Snap, r: nat)
    requires Grows(s0, s1, r) && Grows(s1, s2, r)
    ensures Grows(s0, s2, r)
  {}

  ghost predicate RegionPerm(perms: nat -> nat, lo: nat, hi: nat, perm: nat) {
    forall f: nat :: lo <= f < hi ==> perms(f) == perm
  }

  /** Only the kernel root exists. */
  ghost predicate BootRoots(owner: Owner, kroot: nat) { forall q :: IsRoot(owner, q) ==> q == kroot }

  lemma BootRootsKept(s: Snap, t: Snap, kroot: nat)
    requires BootRoots(s.owner, kroot) && Grows(s, t, kroot)
    ensures BootRoots(t.owner, kroot)
  {
    forall q | IsRoot(t.owner, q) ensures q == kroot {
      if q in s.owner { assert IsRoot(s.owner, q); }
    }
  }

  lemma BootRegions(etext: Word, erodata: Word)
    requires Kva(512) <= etext <= erodata <= Kva(FRAMES)
    ensures var te, re := PgRoundUp(etext), PgRoundUp(erodata);
            && IsPage(te) && IsPage(re) && Kva(512) <= te <= re <= Kva(FRAMES)
            && IsPage(Kva(512)) && PfnOf(Kva(512)) == 512 && IsPage(Kva(FRAMES)) && PfnOf(Kva(FRAMES)) == FRAMES
            && RegionPerm(KernelPerms(etext, erodata), 512, PfnOf(te), 11)
            && RegionPerm(KernelPerms(etext, erodata), PfnOf(te), PfnOf(re), 3)
            && RegionPerm(KernelPerms(etext, erodata), PfnOf(re), FRAMES, 7)
    ensures Or(Or(PTE_V, PTE_R), PTE_X) == 11 == Or(11, PTE_V)
    ensures Or(PTE_V, PTE_R) == 3 == Or(3, PTE_V)
    ensures Or(Or(PTE_W, PTE_R), PTE_V) == 7 == Or(7, PTE_V)
    ensures TablesAhead(512) == 64 && TablesAhead(FRAMES) == 0
  {
    RoundedPages(etext);
    RoundedPages(erodata);
    KernelPermBits();
  }

  lemma KernelPermBits()
    ensures Or(Or(PTE_V, PTE_R), PTE_X) == 11 == Or(11, PTE_V)
    ensures Or(PTE_V, PTE_R) == 3 == Or(3, PTE_V)
    ensures Or(Or(PTE_W, PTE_R), PTE_V) == 7 == Or(7, PTE_V)
  {
    assert Or(1, 2) == 3 && Or(4, 2) == 6 && Or(6, 1) == 7;
    assert Or(3, 8) == 11 && Or(11, 1) == 11 && Or(3, 1) == 3 && Or(7, 1) == 7;
  }

  /** Tables still to be allocated when the mapping loop stands at frame f. */
  ghost function TablesAhead(f: nat): int { 64 - (f + 511) / 512 + if f == 512 then 1 else 0 }

  lemma KernelPage(f: nat)
    requires f < FRAMES
    ensures PageOf(Kva(f)) == KernelPageOf(f) && FrameShown(KernelPageOf(f)) == f
    ensures IsFrameAddress(Va2Pa(Kva(f))) && FrameOf(Va2Pa(Kva(f))) == f && Va2Pa(Kva(f)) / 0x1000 == PPN_BASE + f
  {
    PageAddressRoundTrip(f, 0);
    assert Kva(f) / 0x1000 % 0x800_0000 == 384 * 0x4_0000 + f == PageIndex(KernelPageOf(f));
    PageIndexInjective(PageOf(Kva(f)), KernelPageOf(f));
    assert Va2Pa(Kva(f)) == FrameAddress(f);
  }

  lemma RoundedPages(va: Word)
    requires Kva(512) <= va <= Kva(FRAMES)
    ensures IsPage(PgRoundUp(va)) && va <= PgRoundUp(va) <= Kva(FRAMES)
  {}

  /** How many tables are missing when frames 512..f-1 are mapped. */
  lemma KernelTables(mem: Mem, kroot: nat, f: nat, perms: nat -> nat)
    requires |mem| == FRAMES && kroot < FRAMES && 512 <= f < FRAMES
    requires DirectMapped(mem, kroot, 512, f, perms)
    ensures MissingTables(mem, kroot, KernelPageOf(f)) <= TablesAhead(f) - TablesAhead(f + 1)
    ensures TablesAhead(f) >= TablesAhead(f + 1) >= 0
  {
    if f > 512 {
      assert Lookup(mem, kroot, KernelPageOf(f - 1)).Some?;
    }
  }

  lemma KernelPageUnique(p: VPage, f: nat)
    requires f < FRAMES
    ensures p == KernelPageOf(f) <==> p.v2 == 384 && FrameShown(p) == f
  {}

  lemma DirectMappedNext(s: Snap, t: Snap, kroot: nat, f: nat, perms: nat -> nat)
    requires IsRoot(s.owner, kroot) && 512 <= f < FRAMES && DirectMapped(s.mem, kroot, 512, f, perms)
    requires Maps(kroot, s, t, kroot, KernelPageOf(f), Leaf(PPN_BASE + f, perms(f)))
    ensures DirectMapped(t.mem, kroot, 512, f + 1, perms)
  {
    forall p: VPage ensures Lookup(t.mem, kroot, p) ==
      if p.v2 == 384 && 512 <= FrameShown(p) < f + 1 then Some(Leaf(PPN_BASE + FrameShown(p), perms(FrameShown(p))))
      else None
    {
      KernelPageUnique(p, f);
      assert IsRoot(s.owner, kroot);
    }
  }

  // ---- update steps --------------------------------------------------------

  lemma AddedMid(s: Snap, t: Snap, kroot: nat, r: nat, v2: nat, pte: Word)
    requires Inv(s, kroot) && MayMap(s.owner, kroot, r, v2) && v2 < 512 && s.mem[r][v2] == 0
    requires 0 <= Target(pte) < FRAMES && pte == Pte(Target(pte), 1) && Target(pte) !in s.used
    requires t == Snap(Put(s.mem, r, v2, pte), s.owner[Target(pte) := Mid(r, v2)], s.used + {Target(pte)})
    ensures Inv(t, kroot) && Tabled(kroot, s, t, r)
    ensures forall n: VPage :: n.v2 == v2 ==> MissingTables(s.mem, r, n) == 2 && MissingTables(t.mem, r, n) == 1
  {
    PteDecode(Target(pte), 1);
    LinkMid(s.mem, s.owner, kroot, r, v2, Target(pte));
  }

  lemma AddedLow(s: Snap, t: Snap, kroot: nat, m: nat, v1: nat, pte: Word)
    requires Inv(s, kroot) && m in s.owner && s.owner[m].Mid? && v1 < 512 && s.mem[m][v1] == 0
    requires 0 <= Target(pte) < FRAMES && pte == Pte(Target(pte), 1) && Target(pte) !in s.used
    requires t == Snap(Put(s.mem, m, v1, pte), s.owner[Target(pte) := Low(s.owner[m].root, s.owner[m].v2, v1)],
                       s.used + {Target(pte)})
    ensures Inv(t, kroot) && Tabled(kroot, s, t, s.owner[m].root)
    ensures forall r: nat, n: VPage :: HasMid(s.mem, r, n) && MidOf(s.mem, r, n) == m && n.v1 == v1 && r != m ==>
              HasLow(t.mem, r, n) && LowOf(t.mem, r, n) == Target(pte)
  {
    PteDecode(Target(pte), 1);
    LinkLow(s.mem, s.owner, kroot, m, v1, Target(pte));
  }

  lemma TabledThenMaps(kroot: nat, s0: Snap, s1: Snap, s2: Snap, r: nat, n: VPage, leaf: Leaf)
    requires Inv(s0, kroot) && IsRoot(s0.owner, r)
    requires Tabled(kroot, s0, s1, r) && Maps(kroot, s1, s2, r, n, leaf)
    ensures Maps(kroot, s0, s2, r, n, leaf)
  {}

  lemma StillMayMap(kroot: nat, s: Snap, t: Snap, r: nat, v2: nat)
    requires Tabled(kroot, s, t, r) && MayMap(s.owner, kroot, r, v2)
    ensures MayMap(t.owner, kroot, r, v2)
  {
    forall q | IsRoot(t.owner, q) ensures IsRoot(s.owner, q) {}
  }

  lemma TabledTwice(kroot: nat, s0: Snap, s1: Snap, s2: Snap, r: nat)
    requires Inv(s0, kroot) && Tabled(kroot, s0, s1, r) && Tabled(kroot, s1, s2, r) && IsRoot(s0.owner, r)
    ensures Tabled(kroot, s0, s2, r)
  {}

  lemma PteValidIsOdd(pte: Word)
    ensures PteValid(pte) <==> pte % 2 == 1
  {
    AndOdd(pte, 0);
  }

  lemma VpnIndices(va: Word)
    ensures VpnIndex(va, 2) == PageOf(va).v2
    ensures VpnIndex(va, 1) == PageOf(va).v1
    ensures VpnIndex(va, 0) == PageOf(va).v0
  {
    IndexBits(va, 12, 0x1000);
    IndexBits(va, 21, 0x20_0000);
    IndexBits(va, 30, 0x4000_0000);
    VpnFields(va);
  }

  lemma IndexBits(va: Word, s: nat, d: nat)
    requires (s == 12 && d == 0x1000) || (s == 21 && d == 0x20_0000) || (s == 30 && d == 0x4000_0000)
    ensures And(Shr(va, s), 0x1ff) == va / d % 512
  {
    assert Pow2(s) == d && Pow2(9) == 512 by {
      Pow2Values();
      Pow2Add(12, 9);
      Pow2Add(10, 10);
      Pow2Add(10, 20);
    }
    AndMask(va / d, 9);
  }

  lemma UpperHalf(va: Word)
    requires Canonical39(va) && va >= 0x40_0000_0000
    ensures PageOf(va).v2 >= 256
  {
    hide PageOf;
    VpnFields(va);
    var q := va / 0x4000_0000;
    assert 0x3_ffff_ff00 <= q < 0x4_0000_0000;
    DivUnique(q, 512, 0x1ff_ffff, q - 0x3_ffff_fe00);
  }

  lemma VpnFields(va: Word)
    ensures PageOf(va).v2 == va / 0x4000_0000 % 512
    ensures PageOf(va).v1 == va / 0x20_0000 % 512
    ensures PageOf(va).v0 == va / 0x1000 % 512
  {
    var n := va / 0x1000;
    var lo := n % 0x800_0000;
    IndexFields(PageNo(lo));
    DivDiv(va, 0x1000, 512, 0x20_0000);
    DivDiv(va, 0x1000, 0x4_0000, 0x4000_0000);
    DivOfMod(n, 0x4_0000, 512, 0x800_0000);
    DivOfMod(n, 512, 0x4_0000, 0x800_0000);
    DivOfMod(n, 512, 512, 0x4_0000);
    DivOfMod(lo, 512, 512, 0x4_0000);
  }
}
