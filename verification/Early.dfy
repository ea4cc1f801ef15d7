/** vm.c before and after relocation: the early table of gigabyte pages, and what
    addresses the final kernel table translates. */
module EarlyPaging {
  import opened Bits
  import opened Defs
  import opened BuddyTree
  import opened BuddyAllocator
  import opened Sv39
  import opened Bytes
  import opened Memory
  import opened Paging

  const VM_END: Word := 0xffff_ffff_0000_0000
  const VM_SIZE: Word := 0x1f_0000_0000

  /** The leaf entry for gigabyte q of physical memory, with V, R, W and X. */
  function GigaPte(q: nat): nat { q * 0x4_0000 * 0x400 + 15 }

  /** The table after i rounds: i identity entries from 2 on, and i entries from
      384 on that show the same gigabytes. */
  function EarlyEntry(j: nat, i: nat): nat {
    if 2 <= j < 2 + i then GigaPte(j) else if 384 <= j < 384 + i then GigaPte(j - 382) else 0
  }

  ghost predicate EarlyTable(frame: Frame, i: nat) {
    forall j: nat :: j < 512 ==> frame[j] == EarlyEntry(j, i)
  }

  /** `map_early_pgtbl`. */
  method MapEarly(ram: Ram, table: Word, va: Word, pa: Word, perm: Word, ghost q: nat, ghost j: nat)
    requires ram.Valid() && IsPage(table) && PfnOf(table) < FRAMES && perm == 15
    requires pa == 0x4000_0000 * q && q < 126 && va / 0x4000_0000 % 512 == j
    modifies ram, ram.words
    ensures ram.Valid() && ram.frames == Put(old(ram.frames), PfnOf(table), j, GigaPte(q))
  {
    IndexBits(va, 30, 0x4000_0000);
    GigaEncode(q);
    var idx := And(Shr(va, 30), 0x1ff);
    var ppn := PgNum(pa);
    ram.Store(table, idx, Or(Wrap(ppn * 0x400), perm));
  }

  /** `setup_vm`. */
  method SetupVm(ram: Ram, table: Word)
    requires ram.Valid() && IsPage(table) && PfnOf(table) < FRAMES
    modifies ram, ram.words
    ensures ram.Valid() && EarlyTable(ram.frames[PfnOf(table)], 124)
    ensures forall f: nat :: f < FRAMES && f != PfnOf(table) ==> ram.frames[f] == old(ram.frames)[f]
  {
    ghost var m, f := ram.frames, PfnOf(table);
    assert table - VM_START == 0x1000 * f;
    ram.Memset(table, 0, PGSIZE);
    Cleared(m, ram.frames, f);
    ghost var m1 := ram.frames;
    var perm := Or(Or(Or(PTE_V, PTE_R), PTE_W), PTE_X);
    EarlyPerm();
    var i := 0;
    ghost var k := 0;
    while i < VM_SIZE
      invariant ram.Valid() && k <= 124 && i == 0x4000_0000 * k && EarlyTable(ram.frames[f], k)
      invariant forall g: nat :: g < FRAMES && g != f ==> ram.frames[g] == m1[g]
      decreases 124 - k
    {
      EarlyIndices(k);
      MapEarly(ram, table, PHY_START + i, PHY_START + i, perm, 2 + k, 2 + k);
      MapEarly(ram, table, VM_START + i, PHY_START + i, perm, 2 + k, 384 + k);
      i := i + 0x4000_0000;
      k := k + 1;
    }
  }

  /** Under the early table physical memory appears twice: at its own addresses
      and PA2VA_OFFSET higher. Nothing else is mapped. */
  lemma EarlyTranslates(mem: Mem, root: nat, va: Word)
    requires root < |mem| && EarlyTable(mem[root], 124)
    ensures Translate(mem, root, va) ==
            if PHY_START <= va < PHY_START + VM_SIZE then Some(Leaf(va / 0x1000, 15))
            else if VM_START <= va < VM_END then Some(Leaf((va - PA2VA_OFFSET) / 0x1000, 15))
            else None
  {
    if Canonical39(va) {
      var p := PageOf(va);
      VpnFields(va);
      assert mem[root][p.v2] == EarlyEntry(p.v2, 124);
      if 2 <= p.v2 < 126 {
        GigaDecode(p.v2);
      } else if 384 <= p.v2 < 508 {
        GigaDecode(p.v2 - 382);
      }
      GigaOf(va);
    }
  }

  /** After `setup_vm_final` the kernel root translates exactly the direct map:
      RAM behind OpenSBI, at its fixed offset. */
  lemma DirectMapTranslates(mem: Mem, owner: Owner, kroot: nat, perms: nat -> nat, va: Word)
    requires Tables(mem, owner, kroot) && DirectMapped(mem, kroot, 512, FRAMES, perms)
    ensures Translate(mem, kroot, va) ==
            if VM_START + OPENSBI_SIZE <= va < PHY_END + PA2VA_OFFSET then
              Some(Leaf((va - PA2VA_OFFSET) / 0x1000, perms(PfnOf(va))))
            else None
  {
    hide Walk, Lookup, PointerOK, LeafOK;
    if Canonical39(va) {
      var p := PageOf(va);
      WalkIsLookup(mem, owner, kroot, kroot, p);
      VpnFields(va);
      GigaOf(va);
    }
  }

  /** As long as the pages that `buddy_init` reserved stay allocated, every page
      the allocator can still hand out is a mapped address: the kernel reaches all
      its tables, task pages and data frames. */
  lemma HandedOutIsMapped(mem: Mem, owner: Owner, kroot: nat, perms: nat -> nat, live: set<nat>, reserved: nat, f: nat)
    requires Tables(mem, owner, kroot) && DirectMapped(mem, kroot, 512, FRAMES, perms)
    requires WellFormed(FRAMES, live) && 512 <= reserved <= FRAMES && FirstLeaves(FRAMES, reserved) <= live
    requires f < FRAMES && !PageLive(FRAMES, live, f)
    ensures Translate(mem, kroot, Kva(f)) == Some(Leaf(PPN_BASE + f, perms(f)))
  {
    hide WellFormed, Tables, DirectMapped, Translate, FirstLeaves, IsPow2, VpnIndex;
    StillReserved(live, reserved);
    assert f >= reserved;
    DirectMapTranslates(mem, owner, kroot, perms, Kva(f));
    PageAddressRoundTrip(f, 0);
    DivUnique(Kva(f) - PA2VA_OFFSET, 0x1000, PPN_BASE + f, 0);
  }

  lemma StillReserved(live: set<nat>, reserved: nat)
    requires reserved <= FRAMES && WellFormed(FRAMES, live) && FirstLeaves(FRAMES, reserved) <= live
    ensures forall p :: 0 <= p < reserved ==> PageLive(FRAMES, live, p)
  {
    LeavesPages(FRAMES, reserved);
    forall p | 0 <= p < reserved ensures PageLive(FRAMES, live, p) {
      assert PageLive(FRAMES, FirstLeaves(FRAMES, reserved), p);
    }
  }

  /** A canonical address by its gigabyte and the page number inside it. */
  lemma GigaOf(va: Word)
    requires Canonical39(va)
    ensures var p := PageOf(va); var inside := 512 * p.v1 + p.v0;
            && p.v2 == va / 0x4000_0000 % 512
            && va / 0x1000 == va / 0x4000_0000 * 0x4_0000 + inside
            && (p.v2 < 256 <==> va < 0x40_0000_0000)
            && (p.v2 < 256 ==> va / 0x4000_0000 == p.v2)
            && (p.v2 >= 256 ==> va / 0x4000_0000 == p.v2 + 0x3_ffff_fe00)
  {
    VpnFields(va);
    var n := va / 0x1000;
    DivDiv(va, 0x1000, 512, 0x20_0000);
    DivDiv(n, 512, 512, 0x4_0000);
    DivDiv(va, 0x1000, 0x4_0000, 0x4000_0000);
  }

  lemma GigaEncode(q: nat)
    requires q < 126
    ensures PgNum(0x4000_0000 * q) == q * 0x4_0000 && GigaPte(q) < TWO_64
    ensures Or(Wrap(q * 0x4_0000 * 0x400), 15) == GigaPte(q)
  {
    hide Or;
    assert Pow2(10) == 0x400 by { Pow2Values(); }
    DivUnique(0x4000_0000 * q, 0x1000, q * 0x4_0000, 0);
    OrDisjoint(q * 0x4_0000, 15, 10);
  }

  lemma GigaDecode(q: nat)
    requires q < 126
    ensures GigaPte(q) < TWO_64 && Decode(GigaPte(q), 2) == Found(q * 0x4_0000, 15)
  {
    LowBits(q * 0x4_0000, 15);
  }

  lemma EarlyIndices(k: nat)
    requires k < 124
    ensures (PHY_START + 0x4000_0000 * k) / 0x4000_0000 % 512 == 2 + k
    ensures PHY_START + 0x4000_0000 * k == 0x4000_0000 * (2 + k)
    ensures (VM_START + 0x4000_0000 * k) / 0x4000_0000 % 512 == 384 + k
  {}

  lemma EarlyPerm()
    ensures Or(Or(Or(PTE_V, PTE_R), PTE_W), PTE_X) == 15
  {
    assert Or(1, 2) == 3 && Or(3, 4) == 7 && Or(7, 8) == 15;
  }

  lemma Cleared(m: Mem, m': Mem, f: nat)
    requires f < |m| && Overwritten(m, m', 0x1000 * f, 0x1000, Fill(0))
    ensures |m'| == |m| && EarlyTable(m'[f], 0)
    ensures forall g: nat :: g < |m| && g != f ==> m'[g] == m[g]
  {
    forall o: nat | o < 0x1000 ensures FrameByte(ZeroFrame(), o) == 0 { ZeroFrameBytes(o); }
    OverwriteInside(m, 0x1000 * f, 0x1000, Fill(0), f, ZeroFrame());
    forall g: nat | g < |m| && g != f ensures m'[g] == m[g] { OverwriteOutside(m, 0x1000 * f, 0x1000, Fill(0), g); }
  }
}
