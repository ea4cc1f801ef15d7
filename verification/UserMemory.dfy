/** elfutils.c and vma.c: filling freshly allocated frames and mapping them
    into a user page table. */
module UserMemory {
  import opened Bits
  import opened Defs
  import opened BuddyAllocator
  import opened Sv39
  import opened Bytes
  import opened Memory
  import opened Paging
  import opened World

  /** Between s and t pages were allocated and only these were written. */
  ghost predicate Fresh(s: Snap, t: Snap) {
    && t.owner == s.owner && s.used <= t.used && |t.mem| == |s.mem| == FRAMES
    && (forall f <- t.used :: 0 <= f < FRAMES)
    && forall f: nat :: f < FRAMES && (f in s.used || f !in t.used) ==> t.mem[f] == s.mem[f]
  }

  /** Writing to newly allocated frames disturbs no table. */
  lemma FreshKeeps(kroot: nat, s: Snap, t: Snap)
    requires Inv(s, kroot) && Fresh(s, t)
    ensures Inv(t, kroot)
    ensures forall q: nat, p: VPage :: IsRoot(s.owner, q) ==> Lookup(t.mem, q, p) == Lookup(s.mem, q, p)
  {
    forall q: nat, p: VPage | IsRoot(s.owner, q) ensures Lookup(t.mem, q, p) == Lookup(s.mem, q, p) {
      LookupPath(s.mem, s.owner, kroot, q, p);
    }
  }

  /** Pages first.. of root r now show frames base.., which were unused before. */
  ghost predicate Installed(kroot: nat, s: Snap, t: Snap, r: nat, first: nat, n: nat, base: nat, perm: nat) {
    && MapsRun(kroot, s, t, r, first, n, base, perm)
    && forall f: nat :: base <= f < base + n ==> f !in s.used && f in t.used && f !in t.owner
  }

  lemma FreshMissing(kroot: nat, s: Snap, t: Snap, r: nat, p: VPage)
    requires Inv(s, kroot) && Fresh(s, t) && IsRoot(s.owner, r)
    ensures MissingTables(t.mem, r, p) == MissingTables(s.mem, r, p)
  {
    LookupPath(s.mem, s.owner, kroot, r, p);
  }

  lemma FreshThenMaps(kroot: nat, s: Snap, s': Snap, t: Snap, r: nat, first: nat, n: nat, base: nat, perm: nat)
    requires Inv(s, kroot) && Fresh(s, s') && MapsRun(kroot, s', t, r, first, n, base, perm)
    requires NewFrames(s, s', base, n) && Inv(s', kroot)
    ensures Installed(kroot, s, t, r, first, n, base, perm)
  {
    FreshKeeps(kroot, s, s');
    forall q: nat, p: VPage | IsRoot(s.owner, q) && (q != r || !(first <= PageIndex(p) < first + n))
      ensures Lookup(t.mem, q, p) == Lookup(s.mem, q, p)
    {
      assert IsRoot(s'.owner, q);
    }
  }

  /** Mapping leaves the mapped frames themselves alone. */
  lemma NewFramesKept(kroot: nat, s: Snap, s': Snap, t: Snap, r: nat, first: nat, n: nat, base: nat, perm: nat)
    requires Inv(s, kroot) && IsRoot(s.owner, r) && Fresh(s, s') && NewFrames(s, s', base, n) && |t.mem| == FRAMES
    requires MapsRun(kroot, s', t, r, first, n, base, perm) && base + n <= FRAMES
    ensures forall f: nat :: base <= f < base + n ==> t.mem[f] == s'.mem[f]
  {
    forall f: nat | base <= f < base + n ensures t.mem[f] == s'.mem[f] {
      assert f !in s.owner;
      assert !TableOf(s'.owner, r, f);
    }
  }

  /** What a user access to va reads, through the table of root r. */
  ghost function UserByte(mem: Mem, r: nat, va: Word): Option<Byte> {
    match Lookup(mem, r, PageOf(va))
    case None => None
    case Some(leaf) =>
      if PPN_BASE <= leaf.ppn < PPN_BASE + |mem| then Some(FrameByte(mem[leaf.ppn - PPN_BASE], va % 0x1000)) else None
  }

  /** `vm flags to rv64 pte perms`, with the bits every user leaf gets. */
  function UserPerm(flags: Word): nat {
    Or(Or(Or(Or(if And(flags, VM_R_MASK) != 0 then PTE_R else 0,
                if And(flags, VM_W_MASK) != 0 then PTE_W else 0),
             if And(flags, VM_X_MASK) != 0 then PTE_X else 0), PTE_U), PTE_V)
  }

  lemma UserPermLegal(flags: Word)
    requires And(flags, VM_R_MASK) != 0
    ensures UserPerm(flags) < TWO_64 && LeafPerm(UserPerm(flags))
    ensures And(flags, VM_W_MASK) != 0 ==> Usable(UserPerm(flags))
    ensures UserPerm(flags) / PTE_X % 2 == 1 <==> And(flags, VM_X_MASK) != 0
  {
    assert Or(2, 0) == 2 && Or(2, 4) == 6 && Or(2, 8) == 10 && Or(6, 8) == 14 && Or(6, 0) == 6;
    assert Or(2, 16) == 18 && Or(6, 16) == 22 && Or(10, 16) == 26 && Or(14, 16) == 30;
    assert Or(18, 1) == 19 && Or(22, 1) == 23 && Or(26, 1) == 27 && Or(30, 1) == 31;
    assert Or(19, 1) == 19 && Or(23, 1) == 23 && Or(27, 1) == 27 && Or(31, 1) == 31;
    UserPermBits(flags);
    MaskBits(flags);
  }

  lemma MaskBits(flags: Word)
    ensures (And(flags, 1) != 0 <==> flags % 2 == 1) && (And(flags, 2) != 0 <==> flags / 2 % 2 == 1)
    ensures (And(flags, 4) != 0 <==> flags / 4 % 2 == 1) && (And(flags, 8) != 0 <==> flags / 8 % 2 == 1)
  {
    AndHalf(flags, 1);
    AndHalf(flags, 2);
    AndHalf(flags, 4);
    AndHalf(flags / 2, 1);
    AndHalf(flags / 2, 2);
    AndHalf(flags / 4, 1);
  }

  lemma AndHalf(a: nat, m: nat)
    requires m > 0
    ensures And(a, 2 * m) == 2 * And(a / 2, m) && (And(a, 1) == a % 2)
  {}

  /** The leaf's bits by number: V and U always, R, W and X exactly as bits 1, 2 and
      3 of the area's flags say, and nothing else. */
  lemma UserPermBits(flags: Word)
    ensures var p := UserPerm(flags);
            && p < 32 && p % 2 == 1 && p / 16 == 1
            && p / 2 % 2 == flags / 2 % 2 && p / 4 % 2 == flags / 4 % 2 && p / 8 % 2 == flags / 8 % 2
  {
    MaskBits(flags);
    assert Or(0, 4) == 4 && Or(0, 8) == 8 && Or(0, 0) == 0 && Or(0, 16) == 16;
    assert Or(2, 0) == 2 && Or(2, 4) == 6 && Or(2, 8) == 10 && Or(6, 8) == 14 && Or(6, 0) == 6;
    assert Or(4, 0) == 4 && Or(4, 8) == 12 && Or(8, 0) == 8 && Or(4, 16) == 20 && Or(8, 16) == 24 && Or(12, 16) == 28;
    assert Or(2, 16) == 18 && Or(6, 16) == 22 && Or(10, 16) == 26 && Or(14, 16) == 30;
    assert Or(16, 1) == 17 && Or(20, 1) == 21 && Or(24, 1) == 25 && Or(28, 1) == 29;
    assert Or(18, 1) == 19 && Or(22, 1) == 23 && Or(26, 1) == 27 && Or(30, 1) == 31;
  }

  /** `alloc_pages` followed by `memset`, as both loaders start: n zero frames. */
  method AllocZeroed(vm: Vm, n: Word) returns (va: Word)
    requires vm.Valid() && n <= FRAMES && Fits(vm.buddy.size, vm.buddy.live, RoundUp(n))
    modifies vm.Repr()
    ensures vm.Valid() && IsPage(va) && PfnOf(va) < FRAMES && PfnOf(va) + n <= FRAMES && Fresh(old(vm.Now()), vm.Now())
    ensures vm.FreePages() == old(vm.FreePages()) - RoundUp(n)
    ensures NewFrames(old(vm.Now()), vm.Now(), PfnOf(va), n)
    ensures forall f: nat :: PfnOf(va) <= f < PfnOf(va) + n ==> vm.ram.frames[f] == ZeroFrame()
  {
    hide Tables, UsedPages, Fresh, NewFrames, Run, RoundUp, Pow2, Overwritten, Fits;
    ghost var s0 := vm.Now();
    Pow2Values();
    va := vm.AllocRun(n);
    ghost var s1 := vm.Now();
    RunIsFresh(s0, s1, PfnOf(va), n);
    FreshKeeps(vm.kroot, s0, s1);
    assert va - VM_START == 0x1000 * PfnOf(va);
    vm.ram.Memset(va, 0, n * 0x1000);
    Zeroed(s0, s1, vm.Now(), PfnOf(va), n);
    FreshKeeps(vm.kroot, s0, vm.Now());
  }

  /** n frames from base on are allocated in t but were not in s. */
  ghost predicate NewFrames(s: Snap, t: Snap, base: nat, n: nat) {
    forall f: nat :: base <= f < base + n ==> f < FRAMES && f !in s.used && f in t.used
  }

  lemma RunIsFresh(s: Snap, t: Snap, base: nat, n: nat)
    requires |s.mem| == FRAMES && (forall f <- s.used :: 0 <= f < FRAMES)
    requires t.mem == s.mem && t.owner == s.owner && base + RoundUp(n) <= FRAMES
    requires t.used == s.used + Run(base, RoundUp(n)) && s.used !! Run(base, RoundUp(n))
    ensures Fresh(s, t) && NewFrames(s, t, base, n)
  {
    forall f: nat | base <= f < base + n ensures f !in s.used && f in t.used {
      assert InRun(base, RoundUp(n), f);
    }
  }

  lemma Zeroed(s0: Snap, s1: Snap, t: Snap, base: nat, n: nat)
    requires Fresh(s0, s1) && NewFrames(s0, s1, base, n) && base + n <= FRAMES
    requires t.owner == s1.owner && t.used == s1.used
    requires Overwritten(s1.mem, t.mem, 0x1000 * base, n * 0x1000, Fill(0))
    ensures Fresh(s0, t) && NewFrames(s0, t, base, n)
    ensures forall f: nat :: base <= f < base + n ==> t.mem[f] == ZeroFrame()
  {
    forall f: nat | f < FRAMES && !(base <= f < base + n) ensures t.mem[f] == s1.mem[f] {
      OverwriteOutside(s1.mem, 0x1000 * base, n * 0x1000, Fill(0), f);
    }
    forall f: nat | base <= f < base + n ensures t.mem[f] == ZeroFrame() {
      forall o: nat | o < 0x1000 ensures FrameByte(ZeroFrame(), o) == 0 { ZeroFrameBytes(o); }
      OverwriteInside(s1.mem, 0x1000 * base, n * 0x1000, Fill(0), f, ZeroFrame());
    }
  }

  /** `alloc_annoymous_vm`: the whole area, zero-filled. */
  method AllocAnonymousVm(vm: Vm, vma: Vma, pgtbl: Word) returns (ghost base: nat)
    requires vm.Valid() && IsPage(pgtbl) && IsRoot(vm.owner, PfnOf(pgtbl)) && PfnOf(pgtbl) != vm.kroot
    requires vma.start <= vma.end <= USER_END && And(vma.flags, VM_R_MASK) != 0
    requires Room(vm, FirstPage(vma), EndPage(vma) - FirstPage(vma))
    modifies vm.Repr()
    ensures vm.Valid()
    ensures Installed(vm.kroot, old(vm.Now()), vm.Now(), PfnOf(pgtbl), FirstPage(vma), EndPage(vma) - FirstPage(vma),
                      base, UserPerm(vma.flags))
    ensures base + (EndPage(vma) - FirstPage(vma)) <= FRAMES
    ensures forall f: nat :: base <= f < base + (EndPage(vma) - FirstPage(vma)) ==> vm.ram.frames[f] == ZeroFrame()
  {
    hide Inv, Tables, UsedPages, Fresh, NewFrames, Installed, LeafPerm, Fits, Ahead, UserPerm, And;
    PageSpanOf(vma);
    UserPermLegal(vma.flags);
    var va := PgRoundDown(vma.start);
    var memSize := PgRoundUp(vma.end) - va;
    var memPages := PgNum(memSize);
    ghost var s0 := vm.Now();
    var realVa := AllocZeroed(vm, memPages);
    base := PfnOf(realVa);
    MapFresh(vm, pgtbl, va, realVa, memPages, UserPerm(vma.flags), FirstPage(vma), s0);
  }

  /** The last part of both loaders: frames allocated since s0 are mapped. */
  method MapFresh(vm: Vm, pgtbl: Word, va: Word, realVa: Word, n: nat, perm: Word, ghost first: nat, ghost s0: Snap)
    requires vm.Valid() && IsPage(pgtbl) && IsRoot(s0.owner, PfnOf(pgtbl)) && PfnOf(pgtbl) != vm.kroot
    requires va == 0x1000 * first && first + n <= USER_PAGES && LeafPerm(perm) && vm.FreePages() >= Ahead(first, 0, n)
    requires IsPage(realVa) && PfnOf(realVa) < FRAMES && PfnOf(realVa) + n <= FRAMES
    requires Inv(s0, vm.kroot) && Fresh(s0, vm.Now()) && NewFrames(s0, vm.Now(), PfnOf(realVa), n)
    modifies vm.Repr()
    ensures vm.Valid() && Installed(vm.kroot, s0, vm.Now(), PfnOf(pgtbl), first, n, PfnOf(realVa), perm)
    ensures forall f: nat :: PfnOf(realVa) <= f < PfnOf(realVa) + n ==> vm.ram.frames[f] == old(vm.ram.frames)[f]
  {
    ghost var s1, r, base := vm.Now(), PfnOf(pgtbl), PfnOf(realVa);
    DirectAddress(realVa);
    vm.MapRun(pgtbl, va, Va2Pa(realVa), n, perm, first, base);
    FreshThenMaps(vm.kroot, s0, s1, vm.Now(), r, first, n, base, perm);
    NewFramesKept(vm.kroot, s0, s1, vm.Now(), r, first, n, base, perm);
  }

  /** One frame, filled since s0, is mapped. */
  method MapFreshPage(vm: Vm, pgtbl: Word, va: Word, realVa: Word, perm: Word, ghost n: nat, ghost s0: Snap)
    requires vm.Valid() && IsPage(pgtbl) && IsRoot(s0.owner, PfnOf(pgtbl)) && PfnOf(pgtbl) != vm.kroot
    requires va == 0x1000 * n && n < USER_PAGES && LeafPerm(perm)
    requires vm.FreePages() >= MissingTables(vm.ram.frames, PfnOf(pgtbl), PageNo(n))
    requires IsPage(realVa) && PfnOf(realVa) < FRAMES
    requires Inv(s0, vm.kroot) && Fresh(s0, vm.Now()) && NewFrames(s0, vm.Now(), PfnOf(realVa), 1)
    modifies vm.Repr()
    ensures vm.Valid() && Installed(vm.kroot, s0, vm.Now(), PfnOf(pgtbl), n, 1, PfnOf(realVa), perm)
    ensures vm.ram.frames[PfnOf(realVa)] == old(vm.ram.frames)[PfnOf(realVa)]
    ensures vm.FreePages() == old(vm.FreePages()) - old(MissingTables(vm.ram.frames, PfnOf(pgtbl), PageNo(n)))
  {
    hide Inv, Tables, Installed, MapsRun, UsedPages, NewFrames, MissingTables;
    ghost var s1, r, base := vm.Now(), PfnOf(pgtbl), PfnOf(realVa);
    RunAddress(n, base);
    DirectAddress(realVa);
    vm.MapFinal(pgtbl, va, Va2Pa(realVa), perm);
    MapsRunStarts(vm.kroot, s1, r, n, base, perm);
    MapsRunExtended(vm.kroot, s1, s1, vm.Now(), r, n, 0, base, perm, PageOf(va), Leaf(PPN_BASE + base, perm));
    FreshThenMaps(vm.kroot, s0, s1, vm.Now(), r, n, 1, base, perm);
    NewFramesKept(vm.kroot, s0, s1, vm.Now(), r, n, 1, base, perm);
  }

  /** Enough memory for n pages from page `first` on and for their tables. */
  ghost predicate Room(vm: Vm, first: nat, n: nat)
    reads vm.Repr()
  {
    && first + n <= USER_PAGES && n <= FRAMES && Fits(vm.buddy.size, vm.buddy.live, RoundUp(n))
    && vm.FreePages() >= RoundUp(n) + Ahead(first, 0, n)
  }

  lemma PageSpanOf(vma: Vma)
    requires vma.start <= vma.end <= USER_END
    ensures PgRoundDown(vma.start) == 0x1000 * FirstPage(vma) && PgRoundUp(vma.end) == 0x1000 * EndPage(vma)
    ensures FirstPage(vma) <= EndPage(vma) <= USER_PAGES
    ensures (PgRoundUp(vma.end) - PgRoundDown(vma.start)) / 0x1000 == EndPage(vma) - FirstPage(vma)
  {
    RoundUpPage(vma.end);
    assert PgRoundUp(vma.end) - PgRoundDown(vma.start) == 0x1000 * (EndPage(vma) - FirstPage(vma));
  }

  /** `alloc_elf_mem`: places file_size bytes at any user address, pads the
      covering pages with zeros and maps them. */
  method AllocElfMem(vm: Vm, fileSegStart: Word, fileSize: nat, memSize: nat, where_: Word, pgtbl: Word, perm: Word)
    returns (ghost base: nat)
    requires vm.Valid() && IsPage(pgtbl) && IsRoot(vm.owner, PfnOf(pgtbl)) && PfnOf(pgtbl) != vm.kroot
    requires fileSize <= memSize && where_ + memSize <= USER_END && LeafPerm(perm)
    requires Room(vm, where_ / 0x1000, CoveringPages(where_, memSize))
    requires SourceAllocated(vm.Now(), fileSegStart, fileSize)
    modifies vm.Repr()
    ensures vm.Valid()
    ensures Installed(vm.kroot, old(vm.Now()), vm.Now(), PfnOf(pgtbl), where_ / 0x1000,
            CoveringPages(where_, memSize), base, perm)
    ensures Loaded(old(vm.ram.frames), vm.ram.frames, base, CoveringPages(where_, memSize), where_ % 0x1000,
                   fileSegStart, fileSize)
  {
    hide Inv, Tables, UsedPages, Fresh, NewFrames, Loaded, Installed, LeafPerm, SourceAllocated, Fits, Ahead,
         CoveringPages;
    ghost var s0 := vm.Now();
    CoveringPagesOf(where_, memSize);
    var sectionBase := PgRoundDown(where_);
    var sectionTop := PgRoundUp(where_ + memSize);
    var memPages := (sectionTop - sectionBase) / 0x1000;
    assert memPages == CoveringPages(where_, memSize);
    var prevBlanks := where_ - sectionBase;
    var start := StageSegment(vm, fileSegStart, fileSize, memPages, prevBlanks);
    base := PfnOf(start);
    ghost var m := vm.ram.frames;
    MapFresh(vm, pgtbl, sectionBase, start, memPages, perm, where_ / 0x1000, s0);
    LoadedKept(s0.mem, m, vm.ram.frames, base, memPages, prevBlanks, fileSegStart, fileSize);
  }

  /** Its first part: zero frames with the file's bytes copied in. */
  method StageSegment(vm: Vm, fileSegStart: Word, fileSize: nat, memPages: nat, prevBlanks: nat) returns (start: Word)
    requires vm.Valid() && memPages <= FRAMES && Fits(vm.buddy.size, vm.buddy.live, RoundUp(memPages))
    requires prevBlanks + fileSize <= 0x1000 * memPages && SourceAllocated(vm.Now(), fileSegStart, fileSize)
    modifies vm.Repr()
    ensures vm.Valid() && IsPage(start) && PfnOf(start) < FRAMES && PfnOf(start) + memPages <= FRAMES
    ensures vm.FreePages() == old(vm.FreePages()) - RoundUp(memPages)
    ensures Fresh(old(vm.Now()), vm.Now()) && NewFrames(old(vm.Now()), vm.Now(), PfnOf(start), memPages)
    ensures Loaded(old(vm.ram.frames), vm.ram.frames, PfnOf(start), memPages, prevBlanks, fileSegStart, fileSize)
  {
    hide Inv, Tables, UsedPages, Fresh, NewFrames, Loaded, Overwritten, Fits;
    ghost var s0 := vm.Now();
    start := AllocZeroed(vm, memPages);
    ghost var s1 := vm.Now();
    SourceApart(s0, s1, fileSegStart, fileSize, start, prevBlanks, memPages);
    assert start + prevBlanks - VM_START == 0x1000 * PfnOf(start) + prevBlanks;
    vm.ram.CopyBytes(start + prevBlanks, fileSegStart, fileSize);
    CopiedIn(s0, s1, vm.Now(), PfnOf(start), memPages, prevBlanks, fileSegStart, fileSize);
    FreshKeeps(vm.kroot, s0, vm.Now());
  }

  function CoveringPages(where_: nat, memSize: nat): int { (where_ + memSize + 0xfff) / 0x1000 - where_ / 0x1000 }

  lemma CoveringPagesOf(where_: nat, memSize: nat)
    requires where_ + memSize <= USER_END
    ensures CoveringPages(where_, memSize) >= 0
    ensures PgRoundDown(where_) == 0x1000 * (where_ / 0x1000) && where_ - PgRoundDown(where_) == where_ % 0x1000
    ensures PgRoundUp(where_ + memSize) - PgRoundDown(where_) == 0x1000 * CoveringPages(where_, memSize)
    ensures where_ % 0x1000 + memSize <= 0x1000 * CoveringPages(where_, memSize)
  {
    RoundUpPage(where_ + memSize);
    var n, first := (where_ + memSize + 0xfff) / 0x1000, where_ / 0x1000;
    assert 0x1000 * n >= where_ + memSize >= 0x1000 * first;
  }

  lemma RoundUpPage(x: nat)
    requires x <= USER_END
    ensures PgRoundUp(x) == 0x1000 * ((x + 0xfff) / 0x1000)
  {}

  /** The bytes to load lie in RAM, in pages allocated before. */
  ghost predicate SourceAllocated(s: Snap, start: Word, size: nat) {
    && VM_START <= start && start - VM_START + size <= 0x1000 * FRAMES
    && forall f: nat :: f < FRAMES && 0x1000 * f < start - VM_START + size && start - VM_START < 0x1000 * f + 0x1000
         ==> f in s.used
  }

  /** Byte p of the loaded frames: the source bytes lie at lo. */
  ghost function LoadedByte(m: Mem, p: nat, lo: nat, from: nat, size: nat): Byte
    requires from + size <= 0x1000 * |m|
  { if lo <= p < lo + size then ByteAt(m, from + p - lo) else 0 }

  /** n frames from base on hold the source bytes behind `blanks` zeros, and
      zeros behind them. */
  ghost predicate Loaded(m: Mem, m': Mem, base: nat, n: nat, blanks: nat, start: Word, size: nat) {
    && |m| == |m'| && base + n <= |m| && VM_START <= start && start - VM_START + size <= 0x1000 * |m|
    && forall p: nat :: 0x1000 * base <= p < 0x1000 * base + 0x1000 * n ==>
         ByteAt(m', p) == LoadedByte(m, p, 0x1000 * base + blanks, start - VM_START, size)
  }

  ghost predicate Within(p: int, lo: int, n: int) { lo <= p < lo + n }

  lemma Apart(a: int, n: int, b: int, m: int)
    requires forall p :: Within(p, a, n) ==> !Within(p, b, m)
    ensures a + n <= b || b + m <= a || n <= 0 || m <= 0
  {
    assert Within(if a <= b then b else a, a, n) ==> !Within(if a <= b then b else a, b, m);
  }

  lemma SourceApart(s0: Snap, s1: Snap, start: Word, size: nat, dst: Word, blanks: nat, n: nat)
    requires SourceAllocated(s0, start, size) && IsPage(dst) && PfnOf(dst) + n <= FRAMES
    requires NewFrames(s0, s1, PfnOf(dst), n) && blanks + size <= 0x1000 * n
    ensures dst + blanks + size <= start || start + size <= dst + blanks
  {
    var base := PfnOf(dst);
    var from, lo := start - VM_START, 0x1000 * base + blanks;
    forall p | Within(p, from, size) ensures !Within(p, lo, size) {
      var f := p / 0x1000;
      assert f in s0.used;
      assert !(base <= f < base + n);
    }
    Apart(from, size, lo, size);
  }

  lemma CopiedIn(s0: Snap, s1: Snap, s2: Snap, base: nat, n: nat, blanks: nat, start: Word, size: nat)
    requires Fresh(s0, s1) && NewFrames(s0, s1, base, n) && base + n <= FRAMES && blanks + size <= 0x1000 * n
    requires forall f: nat :: base <= f < base + n ==> s1.mem[f] == ZeroFrame()
    requires SourceAllocated(s0, start, size) && s2.owner == s1.owner && s2.used == s1.used
    requires Overwritten(s1.mem, s2.mem, 0x1000 * base + blanks, size, From(s1.mem, start - VM_START))
    ensures Fresh(s0, s2) && NewFrames(s0, s2, base, n)
    ensures Loaded(s0.mem, s2.mem, base, n, blanks, start, size)
  {
    hide Overwrite, ByteAt;
    var data := From(s1.mem, start - VM_START);
    forall f: nat | f < FRAMES && !(base <= f < base + n) ensures s2.mem[f] == s1.mem[f] {
      OverwriteOutside(s1.mem, 0x1000 * base + blanks, size, data, f);
    }
    forall p: nat | 0x1000 * base <= p < 0x1000 * base + 0x1000 * n
      ensures ByteAt(s2.mem, p) == LoadedByte(s0.mem, p, 0x1000 * base + blanks, start - VM_START, size)
    {
      OverwriteBytes(s1.mem, 0x1000 * base + blanks, size, data, p);
      ZeroByteAt(s1.mem, base, n, p);
      if 0x1000 * base + blanks <= p < 0x1000 * base + blanks + size {
        SourceByteKept(s0, s1, start, size, p - 0x1000 * base - blanks);
      }
    }
  }

  lemma ZeroByteAt(m: Mem, base: nat, n: nat, p: nat)
    requires base + n <= |m| && 0x1000 * base <= p < 0x1000 * base + 0x1000 * n
    requires forall f: nat :: base <= f < base + n ==> m[f] == ZeroFrame()
    ensures ByteAt(m, p) == 0
  {
    ZeroFrameBytes(p % 0x1000);
  }

  lemma SourceByteKept(s0: Snap, s1: Snap, start: Word, size: nat, o: nat)
    requires Fresh(s0, s1) && SourceAllocated(s0, start, size) && o < size
    ensures ByteAt(s1.mem, start - VM_START + o) == ByteAt(s0.mem, start - VM_START + o)
  {
    var f := (start - VM_START + o) / 0x1000;
    assert f in s0.used;
  }

  lemma LoadedKept(m: Mem, m1: Mem, m2: Mem, base: nat, n: nat, blanks: nat, start: Word, size: nat)
    requires Loaded(m, m1, base, n, blanks, start, size) && |m2| == |m1|
    requires forall f: nat :: base <= f < base + n ==> m2[f] == m1[f]
    ensures Loaded(m, m2, base, n, blanks, start, size)
  {
    forall p: nat | 0x1000 * base <= p < 0x1000 * base + 0x1000 * n ensures ByteAt(m2, p) == ByteAt(m1, p) {}
  }

  /** Read through the page table, the loaded segment is the file's bytes at
      their addresses and zero elsewhere on its pages. */
  lemma LoadedReadsBack(kroot: nat, s: Snap, t: Snap, r: nat, where_: nat, n: nat, base: nat, perm: nat,
                        start: Word, size: nat, va: nat)
    requires MapsRun(kroot, s, t, r, where_ / 0x1000, n, base, perm) && where_ / 0x1000 + n <= USER_PAGES
    requires Loaded(s.mem, t.mem, base, n, where_ % 0x1000, start, size)
    requires where_ / 0x1000 <= va / 0x1000 < where_ / 0x1000 + n
    ensures UserByte(t.mem, r, va) ==
            Some(if where_ <= va < where_ + size then ByteAt(s.mem, start - VM_START + va - where_) else 0)
  {
    hide ByteAt, FrameByte, LoadedByte, Lookup, Grows, Loaded, MapsRun, PageOf;
    var first, v, o, blanks := where_ / 0x1000, va / 0x1000, va % 0x1000, where_ % 0x1000;
    MappedAt(kroot, s, t, r, first, n, base, perm, va);
    LoadedAt(s.mem, t.mem, base, n, blanks, start, size, base + v - first, o);
    FilePlace(s.mem, base, first, blanks, where_, v, o, va, start - VM_START, size);
  }

  lemma FilePlace(m: Mem, base: nat, first: nat, blanks: nat, where_: nat, v: nat, o: nat, va: nat, from: nat,
                  size: nat)
    requires where_ == 0x1000 * first + blanks && va == 0x1000 * v + o && first <= v && from + size <= 0x1000 * |m|
    ensures LoadedByte(m, 0x1000 * (base + v - first) + o, 0x1000 * base + blanks, from, size) ==
            if where_ <= va < where_ + size then ByteAt(m, from + va - where_) else 0
  {
    hide ByteAt;
  }

  lemma MappedAt(kroot: nat, s: Snap, t: Snap, r: nat, first: nat, n: nat, base: nat, perm: nat, va: nat)
    requires MapsRun(kroot, s, t, r, first, n, base, perm)
    requires first <= va / 0x1000 < first + n <= USER_PAGES && va < TWO_64
    ensures Lookup(t.mem, r, PageOf(va)) == Some(Leaf(PPN_BASE + base + va / 0x1000 - first, perm))
  {
    hide Lookup, Grows;
    assert PageIndex(PageOf(va)) == va / 0x1000;
  }

  lemma LoadedAt(m: Mem, m': Mem, base: nat, n: nat, blanks: nat, start: Word, size: nat, f: nat, o: nat)
    requires Loaded(m, m', base, n, blanks, start, size) && base <= f < base + n && o < 0x1000
    ensures f < |m| == |m'| && VM_START <= start && start - VM_START + size <= 0x1000 * |m|
    ensures FrameByte(m'[f], o) == LoadedByte(m, 0x1000 * f + o, 0x1000 * base + blanks, start - VM_START, size)
  {
    hide FrameByte;
    ByteInFrame(m', f, o);
  }
}
