/** The encodings by number: what the named constants, macros and page-table
    formats of the other modules come to, bit by bit. */
module Formats {
  import opened Bits
  import opened Defs
  import opened Sv39
  import opened Bytes
  import opened Paging
  import UserMemory
  import opened World
  import opened Processes

  // ---- addresses ---------------------------------------------------------------

  /** RAM is the 128 megabytes from 0x8000_0000 on, and page pfn of it appears at
      0xffff_ffe0_0000_0000 + 0x1000 * pfn. */
  lemma DirectMapNumbers(pfn: nat, off: nat)
    requires pfn < 0x8000 && off < 0x1000
    ensures Kva(pfn) == 0xffff_ffe0_0000_0000 + 0x1000 * pfn && FRAMES == 0x8000
    ensures Va2Pa(0xffff_ffe0_0000_0000 + 0x1000 * pfn + off) == 0x8000_0000 + 0x1000 * pfn + off
    ensures Pa2Va(0x8000_0000 + 0x1000 * pfn + off) == 0xffff_ffe0_0000_0000 + 0x1000 * pfn + off
    ensures Phys2Pfn(0x8000_0000 + 0x1000 * pfn + off) == pfn && Pfn2Phys(pfn) == 0x8000_0000 + 0x1000 * pfn
  {
    PageAddressRoundTrip(pfn, off);
    DivUnique(0x1000 * pfn + off, 0x1000, pfn, off);
  }

  /** Rounding down gives the greatest multiple of 4096 up to a, rounding up the least
      from a on, and 0 if that does not fit into 64 bits. */
  lemma RoundingIsTight(a: Word, m: int)
    requires m % 0x1000 == 0
    ensures PgRoundDown(a) % 0x1000 == 0 && (m <= a <==> m <= PgRoundDown(a))
    ensures PgRoundUp(a) % 0x1000 == 0
    ensures a <= 0xffff_ffff_ffff_f000 ==> (a <= m <==> PgRoundUp(a) <= m)
    ensures a > 0xffff_ffff_ffff_f000 ==> PgRoundUp(a) == 0
  {
    var q := m / 0x1000;
    assert m == 0x1000 * q;
  }

  // ---- page-table entries ------------------------------------------------------

  /** The fields of an entry: flags in bits 0 to 7, the page number in bits 10 to 53. */
  lemma EntryBits(pte: Word, k: nat)
    ensures FlagSet(pte, PTE_V) <==> Bit(pte, 0) == 1
    ensures FlagSet(pte, PTE_R) <==> Bit(pte, 1) == 1
    ensures FlagSet(pte, PTE_W) <==> Bit(pte, 2) == 1
    ensures FlagSet(pte, PTE_X) <==> Bit(pte, 3) == 1
    ensures FlagSet(pte, PTE_U) <==> Bit(pte, 4) == 1
    ensures FlagSet(pte, PTE_A) <==> Bit(pte, 6) == 1
    ensures FlagSet(pte, PTE_D) <==> Bit(pte, 7) == 1
    ensures k < 44 ==> Bit(Ppn(pte), k) == Bit(pte, k + 10)
    ensures k >= 44 ==> Bit(Ppn(pte), k) == 0
  {
    FlagPowers();
    assert Pow2(44) == 0x1000_0000_0000 by { Pow2Values(); Pow2Add(32, 12); }
    ShiftBit(pte, 10, k);
    LowPart(Shr(pte, 10), 44, k);
  }

  lemma FlagPowers()
    ensures Pow2(0) == 1 && Pow2(1) == 2 && Pow2(2) == 4 && Pow2(3) == 8 && Pow2(4) == 16
    ensures Pow2(6) == 64 && Pow2(7) == 128 && Pow2(10) == 0x400 && Pow2(12) == 0x1000
  {
    hide Pow2;
    Pow2Values();
    assert Pow2(0) == 1 by { Pow2Add(0, 1); }
    Pow2Add(4, 2);
    Pow2Add(4, 3);
  }

  /** The low m bits of x as a number. */
  lemma LowPart(x: nat, m: nat, k: nat)
    ensures Bit(x % Pow2(m), k) == if k < m then Bit(x, k) else 0
  {
    hide Pow2;
    DivBounds(x, Pow2(m));
    if k < m {
      Pow2Add(k, m - k);
      DivOfMod(x, Pow2(k), Pow2(m - k), Pow2(m));
      assert Pow2(m - k) == 2 * Pow2(m - k - 1) by { Pow2Add(1, m - k - 1); Pow2Values(); }
      EvenModulus(Shr(x, k), Pow2(m - k - 1));
    } else {
      Pow2Mono(m, k);
      DivUnique(x % Pow2(m), Pow2(k), 0, x % Pow2(m));
    }
  }

  lemma EvenModulus(x: nat, d: nat)
    requires d > 0
    ensures x % (2 * d) % 2 == x % 2
  {
    var q, r := x / (2 * d), x % (2 * d);
    assert x == 2 * (q * d) + r;
  }

  /** When the walk stops at an entry, and what it takes from it otherwise. */
  lemma EntryMeaning(pte: Word, level: nat)
    requires level < 3
    ensures var leaf := Bit(pte, 1) == 1 || Bit(pte, 3) == 1;
            var low := if level == 0 then 1 else if level == 1 then 0x200 else 0x4_0000;
            Decode(pte, level) ==
            if Bit(pte, 0) == 0 || (Bit(pte, 1) == 0 && Bit(pte, 2) == 1) || pte >= 0x40_0000_0000_0000 then Hop.Fault
            else if leaf then if Ppn(pte) % low == 0 then Found(Ppn(pte), pte % 0x400) else Hop.Fault
            else if level == 0 || Bit(pte, 4) == 1 || Bit(pte, 6) == 1 || Bit(pte, 7) == 1 then Hop.Fault
            else Descend(Ppn(pte))
  {
    EntryBits(pte, 0);
  }

  /** A translation through three levels: bits 38 to 30, 29 to 21 and 20 to 12 of the
      address index the tables, and the leaf's page number and flags are the result. */
  lemma ThreeLevels(mem: Mem, root: nat, mid: nat, low: nat, va: Word, ppn: nat, perm: nat)
    requires |mem| == 0x8000 && root < 0x8000 && mid < 0x8000 && low < 0x8000 && ppn < 0x1000_0000_0000
    requires va < 0x40_0000_0000 || va >= 0xffff_ffc0_0000_0000
    requires mem[root][va / 0x4000_0000 % 512] == 0x2000_0001 + 0x400 * mid
    requires mem[mid][va / 0x20_0000 % 512] == 0x2000_0001 + 0x400 * low
    requires mem[low][va / 0x1000 % 512] == 0x400 * ppn + perm
    requires perm < 0x400 && perm % 2 == 1 && (perm / 2 % 2 == 1 || (perm / 8 % 2 == 1 && perm / 4 % 2 == 0))
    ensures Translate(mem, root, va) == Some(Leaf(ppn, perm))
  {
    hide Walk, Decode, VPage.Below, PageOf, Bit;
    var p := PageOf(va);
    VpnFields(va);
    PointerHop(mid, 2);
    PointerHop(low, 1);
    LeafHop(ppn, perm);
    ThreeHops(mem, root, mid, low, p, Leaf(ppn, perm));
  }

  lemma ThreeHops(mem: Mem, root: nat, mid: nat, low: nat, p: VPage, leaf: Leaf)
    requires root < |mem| && mid < |mem| && low < |mem|
    requires Decode(mem[root][p.v2], 2) == Descend(0x8_0000 + mid)
    requires Decode(mem[mid][p.v1], 1) == Descend(0x8_0000 + low)
    requires Decode(mem[low][p.v0], 0) == Found(leaf.ppn, leaf.perm)
    ensures Walk(mem, root, p, 2) == Some(leaf)
  {
    hide Walk, Decode, VPage.Below;
    WalkStep(mem, low, p, 0);
    WalkStep(mem, mid, p, 1);
    WalkStep(mem, root, p, 2);
    BelowLast(p);
  }

  lemma BelowLast(p: VPage)
    ensures p.Below(0) == 0
  {}

  lemma LeafHop(ppn: nat, perm: nat)
    requires ppn < 0x1000_0000_0000
    requires perm < 0x400 && perm % 2 == 1 && (perm / 2 % 2 == 1 || (perm / 8 % 2 == 1 && perm / 4 % 2 == 0))
    ensures Decode(0x400 * ppn + perm, 0) == Found(ppn, perm)
  {
    LowBits(ppn, perm);
    DivUnique(0x400 * ppn + perm, 0x400, ppn, perm);
  }

  lemma PointerHop(f: nat, level: nat)
    requires f < 0x8000 && 0 < level < 3
    ensures Decode(0x2000_0001 + 0x400 * f, level) == Descend(0x8_0000 + f)
  {
    DecodePointer(f, level);
  }

  lemma WalkStep(mem: Mem, table: nat, p: VPage, level: nat)
    requires table < |mem|
    ensures Walk(mem, table, p, level) ==
            match Decode(mem[table][p.Field(level)], level)
            case Fault => None
            case Found(ppn, perm) => Some(Leaf(ppn + p.Below(level), perm))
            case Descend(ppn) => if ppn < 0x8_0000 then None else Walk(mem, ppn - 0x8_0000, p, level - 1)
  {}

  /** The macros between addresses and entries: bits 12 up of an address are bits 10
      up of an entry. */
  lemma MacroBits(addr: Word, pte: Word, k: nat)
    ensures k < 64 ==> Bit(Addr2Pte(addr), k) == if k < 10 then 0 else Bit(addr, k + 2)
    ensures k < 64 ==> Bit(Pte2Addr(pte), k) == if k < 12 then 0 else Bit(pte, k - 2)
  {
    hide Pow2, Bit;
    FlagPowers();
    Pow2Values();
    LowPart(Shr(addr, 12) * Pow2(10), 64, k);
    LowPart(Shr(pte, 10) * Pow2(12), 64, k);
    LeftShiftBit(Shr(addr, 12), 10, k);
    LeftShiftBit(Shr(pte, 10), 12, k);
    if 10 <= k { ShiftBit(addr, 12, k - 10); }
    if 12 <= k { ShiftBit(pte, 10, k - 12); }
  }

  lemma LeftShiftBit(x: nat, j: nat, k: nat)
    ensures Bit(x * Pow2(j), k) == if k < j then 0 else Bit(x, k - j)
  {
    hide Pow2, Shr;
    if k < j {
      Pow2Add(k, j - k);
      Pow2Add(1, j - k - 1);
      Pow2Values();
      Regroup(x, Pow2(k), Pow2(j - k - 1));
      ShiftOfMultiple(2 * (x * Pow2(j - k - 1)), k);
      assert Shr(x * Pow2(j), k) == 2 * (x * Pow2(j - k - 1));
    } else {
      ShiftOfMultiple(x, j);
      ShiftBit(x * Pow2(j), j, k - j);
    }
  }

  lemma ShiftOfMultiple(q: nat, k: nat)
    ensures Shr(q * Pow2(k), k) == q
  {
    DivExact(q, Pow2(k));
  }

  lemma Regroup(x: int, p: int, h: int)
    ensures x * (p * (2 * h)) == 2 * (x * h) * p
  {}

  /** The hardware takes the root's page number from bits 0 to 43 of `satp`. */
  lemma SatpBits(satp: Word, k: nat)
    requires satp % 0x1000_0000_0000 >= 0x8_0000
    ensures Bit(ActiveRoot(satp) + 0x8_0000, k) == if k < 44 then Bit(satp, k) else 0
  {
    hide Pow2, Bit;
    assert Pow2(44) == 0x1000_0000_0000 by { Pow2Values(); Pow2Add(32, 12); }
    LowPart(satp, 44, k);
  }

  /** The direct map's permissions by address: pages that begin below the end of the
      text are V, R and X, those below the end of read-only data V and R, and all
      others V, R and W. */
  lemma KernelPagePerms(etext: Word, erodata: Word, f: nat)
    requires Kva(512) <= etext <= erodata <= Kva(FRAMES) && 512 <= f < FRAMES
    ensures KernelPerms(etext, erodata)(f) ==
            if 0xffff_ffe0_0000_0000 + 0x1000 * f < etext then 11
            else if 0xffff_ffe0_0000_0000 + 0x1000 * f < erodata then 3
            else 7
  {
    RoundedPages(etext);
    RoundedPages(erodata);
    RoundingIsTight(etext, Kva(f));
    RoundingIsTight(erodata, Kva(f));
  }

  // ---- bytes -------------------------------------------------------------------

  /** Byte p of RAM lies in frame p / 4096, there in word p % 4096 / 8, and there in
      the 8 bits from 8 * (p % 8) on. */
  lemma ByteOfRam(mem: Mem, p: nat)
    requires p < 0x1000 * |mem|
    ensures ByteAt(mem, p) == Shr(mem[p / 0x1000][p % 0x1000 / 8], 8 * (p % 8)) % 0x100
  {
    hide Shr, ByteOf;
    assert p % 0x1000 % 8 == p % 8;
    ByteInWord(mem[p / 0x1000][p % 0x1000 / 8], p % 8);
  }

  lemma {:induction false} ByteInWord(w: nat, k: nat)
    ensures ByteOf(w, k) == Shr(w, 8 * k) % 0x100
  {
    if k > 0 {
      ByteInWord(w / 0x100, k - 1);
      Pow2Values();
      Pow2Add(8, 8 * (k - 1));
      DivDiv(w, Pow2(8), Pow2(8 * (k - 1)), Pow2(8 * k));
    }
  }

  // ---- areas -------------------------------------------------------------------

  /** The pages of an area are those that hold an address of it, and it is anonymous
      exactly if bit 0 of its flags is set. */
  lemma AreaPages(v: Vma, n: nat)
    requires v.start < v.end
    ensures HasPage(v, n) <==> exists a: nat :: v.start <= a < v.end && a / 0x1000 == n
    ensures Anonymous(v) <==> Bit(v.flags, 0) == 1
  {
    if HasPage(v, n) {
      var a: nat := if v.start < 0x1000 * n then 0x1000 * n else v.start;
      assert v.start <= a < v.end && a / 0x1000 == n;
    }
    UserMemory.MaskBits(v.flags);
    FlagPowers();
  }

  /** What a program header's flags ask for (R is bit 2, W bit 1 and X bit 0 there;
      bits 1, 2 and 3 here), and what the kernel's conversion gives for all of them. */
  lemma SegmentPermBits(elfPerm: Word)
    ensures var p := SegmentPerm(elfPerm);
            && p < 16 && Bit(p, 0) == 0 && Bit(p, 1) == Bit(elfPerm, 2)
            && Bit(p, 2) == Bit(elfPerm, 1) && Bit(p, 3) == Bit(elfPerm, 0)
    ensures PermElf2Vm(elfPerm) == 14
  {
    UserMemory.MaskBits(elfPerm);
    FlagPowers();
    PermBits();
    GrantsAll(elfPerm);
  }
}
