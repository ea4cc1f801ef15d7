/** Page tables in physical memory: the hardware's Sv39 walk, the kernel's way
    of building tables, and the ownership discipline that keeps the three-level
    trees of all roots apart. */
module Sv39 {
  import opened Bits
  import opened Defs

  datatype Option<+T> = None | Some(value: T)

  /** One page of memory: 512 words. */
  type Frame = f: seq<Word> | |f| == 512 witness seq(512, _ => 0)

  function ZeroFrame(): Frame { seq(512, _ => 0) }

  /** RAM, frame by frame; frame f is at PHY_START + 4096 * f. */
  type Mem = seq<Frame>

  /** PHY_SIZE and PHY_START in pages. */
  const FRAMES: nat := 0x8000
  const PPN_BASE: nat := 0x8_0000

  const PTE_V: Word := 1
  const PTE_R: Word := 2
  const PTE_W: Word := 4
  const PTE_X: Word := 8
  const PTE_U: Word := 16
  const PTE_A: Word := 64
  const PTE_D: Word := 128

  // ---- page-table entries as the kernel builds them ------------------------

  function Addr2Pte(addr: Word): Word { Wrap(addr / 0x1000 * 0x400) }

  function Pte2Addr(pte: Word): Word { Wrap(pte / 0x400 * 0x1000) }

  function Pte2Va(pte: Word): Word { Wrap(PA2VA_OFFSET + Pte2Addr(pte)) }

  predicate PteValid(pte: Word) { And(pte, PTE_V) != 0 }

  function VpnIndex(va: Word, level: nat): nat
    requires level < 3
  { And(Shr(va, 12 + 9 * level), 0x1ff) }

  // ---- the hardware's view -------------------------------------------------

  datatype Leaf = Leaf(ppn: nat, perm: nat)

  function Ppn(pte: Word): nat { pte / 0x400 % 0x1000_0000_0000 }

  predicate FlagSet(pte: Word, flag: Word)
    requires flag > 0
  { pte / flag % 2 == 1 }

  type Idx = i: int | 0 <= i < 512

  /** The three 9-bit fields of a virtual page number. */
  datatype VPage = VPage(v2: Idx, v1: Idx, v0: Idx) {
    function Field(level: nat): Idx { if level == 0 then v0 else if level == 1 then v1 else v2 }

    /** The part below the given level, which a superpage takes over. */
    function Below(level: nat): nat { if level == 0 then 0 else if level == 1 then v0 else 512 * v1 + v0 }
  }

  function PageSpan(level: nat): nat { if level == 0 then 1 else if level == 1 then 512 else 0x4_0000 }

  /** What one entry tells the walk. */
  datatype Hop = Fault | Found(ppn: nat, perm: nat) | Descend(ppn: nat)

  /** Bits 63..54 are reserved in every entry, and D, A and U in a pointer. */
  predicate ReservedClear(pte: Word) {
    && pte < 0x40_0000_0000_0000
    && (!FlagSet(pte, PTE_R) && !FlagSet(pte, PTE_X) ==>
       !FlagSet(pte, PTE_U) && !FlagSet(pte, PTE_A) && !FlagSet(pte, PTE_D))
  }

  function Decode(pte: Word, level: nat): Hop {
    if !FlagSet(pte, PTE_V) || (!FlagSet(pte, PTE_R) && FlagSet(pte, PTE_W)) || !ReservedClear(pte) then Fault
    else if FlagSet(pte, PTE_R) || FlagSet(pte, PTE_X) then
      if Ppn(pte) % PageSpan(level) != 0 then Fault else Found(Ppn(pte), pte % 0x400)
    else if level == 0 then Fault
    else Descend(Ppn(pte))
  }

  /** The address-translation algorithm of section 4.3.2 of the RISC-V
      Privileged Architecture, version 1.12, with the Sv39 parameters of
      section 4.4, on a virtual page number. Tables outside RAM raise an access
      fault. Setting the access and dirty bits and checking the permissions
      against the access are not part of it. */
  function Walk(mem: Mem, table: nat, p: VPage, level: nat): (r: Option<Leaf>)
    decreases level
  {
    if table >= |mem| then None
    else match Decode(mem[table][p.Field(level)], level) {
      case Fault => None
      case Found(ppn, perm) => Some(Leaf(ppn + p.Below(level), perm))
      case Descend(ppn) => if ppn < PPN_BASE then None else Walk(mem, ppn - PPN_BASE, p, level - 1)
    }
  }

  /** Bits 63..39 must repeat bit 38. */
  predicate Canonical39(va: Word) { va < 0x40_0000_0000 || va >= TWO_64 - 0x40_0000_0000 }

  /** The page number with the given fields. */
  function PageIndex(p: VPage): nat { 0x4_0000 * p.v2 + 512 * p.v1 + p.v0 }

  /** The fields of page number n. */
  ghost function PageNo(n: nat): (p: VPage)
    requires n < 0x800_0000
    ensures PageIndex(p) == n
  {
    PageFields(n);
    var p: VPage :| PageIndex(p) == n;
    p
  }

  ghost function PageOf(va: Word): VPage { PageNo(va / 0x1000 % 0x800_0000) }

  /** User pages fill the lower half of the root table. */
  const USER_PAGES: nat := 0x400_0000

  lemma PageFields(n: nat)
    requires n < 0x800_0000
    ensures PageIndex(VPage(n / 0x4_0000, n / 512 % 512, n % 512)) == n
  {
    assert n / 0x4_0000 == n / 512 / 512;
  }

  lemma PageIndexInjective(p: VPage, q: VPage)
    requires PageIndex(p) == PageIndex(q)
    ensures p == q
  {
    IndexFields(p);
    IndexFields(q);
  }

  lemma IndexFields(p: VPage)
    ensures p == VPage(PageIndex(p) / 0x4_0000, PageIndex(p) / 512 % 512, PageIndex(p) % 512)
  {
    assert PageIndex(p) / 512 == 512 * p.v2 + p.v1;
    assert PageIndex(p) / 0x4_0000 == p.v2;
  }

  /** Translation of a virtual address to its leaf entry, if any. */
  ghost function Translate(mem: Mem, root: nat, va: Word): Option<Leaf> {
    if Canonical39(va) then Walk(mem, root, PageOf(va), 2) else None
  }

  /** A user-mode access of the kind that `need` grants passes these permissions. */
  predicate Allows(perm: nat, need: Word)
    requires need > 0
  { perm / PTE_U % 2 == 1 && perm / need % 2 == 1 }

  /** Loads and stores in user mode pass. */
  predicate Usable(perm: nat) { Allows(perm, PTE_R) && Allows(perm, PTE_W) }

  /** What a user-mode access reaches; None is a page fault. */
  ghost function UserReach(mem: Mem, root: nat, va: Word, need: Word): Option<Leaf>
    requires need > 0
  {
    match Translate(mem, root, va)
    case None => None
    case Some(leaf) => if Allows(leaf.perm, need) then Some(leaf) else None
  }

  // ---- what the kernel's tables look like ----------------------------------

  /** The entry for RAM frame f with flag bits perm. */
  function Pte(f: int, perm: int): int { (PPN_BASE + f) * 0x400 + perm }

  function Target(pte: Word): int { pte / 0x400 - PPN_BASE }

  predicate LegalPerm(perm: int) {
    0 < perm < 0x400 && perm % 2 == 1 && (perm / 2 % 2 == 1 || (perm / 8 % 2 == 1 && perm / 4 % 2 == 0))
  }

  /** What an owned frame is used for. `Mid` and `Low` are the second- and
      third-level tables of a root, labelled by their position in its tree. */
  datatype Role =
    | Root
    | Mid(root: nat, v2: nat)
    | Low(root: nat, v2: nat, v1: nat)
    | Data(root: nat, vpn: nat)
    | TaskPage(root: nat)
    | Image

  type Owner = map<nat, Role>

  /** Entries 256..511 belong to the kernel and are shared by every root. */
  ghost function Home(kroot: nat, r: nat, v2: nat): nat { if v2 < 256 then r else kroot }

  /** An upper-level entry is empty or a bare pointer to the table it should be. */
  ghost predicate PointerOK(owner: Owner, pte: Word, role: Role) {
    pte == 0 || (&& 0 <= Target(pte) < FRAMES && pte == Pte(Target(pte), 1)
                 && Target(pte) in owner && owner[Target(pte)] == role)
  }

  ghost predicate LeafOK(pte: Word) {
    pte == 0 || (0 <= Target(pte) < FRAMES && LegalPerm(pte % 0x400))
  }

  ghost predicate IsRoot(owner: Owner, r: nat) { r in owner && owner[r] == Root }

  /** The tables of all roots are well-formed three-level trees, disjoint except
      for the kernel half that all roots copy from the kernel root. */
  ghost predicate Tables(mem: Mem, owner: Owner, kroot: nat) {
    && |mem| == FRAMES && IsRoot(owner, kroot)
    && (forall f <- owner :: f < FRAMES)
    && (forall r: nat, v2 :: IsRoot(owner, r) && 0 <= v2 < 512 ==>
          PointerOK(owner, mem[r][v2], Mid(Home(kroot, r, v2), v2)))
    && (forall r: nat, v2 :: IsRoot(owner, r) && 256 <= v2 < 512 ==> mem[r][v2] == mem[kroot][v2])
    && (forall f, v1 :: f in owner && owner[f].Mid? && 0 <= v1 < 512 ==>
          PointerOK(owner, mem[f][v1], Low(owner[f].root, owner[f].v2, v1)))
    && (forall f <- owner :: owner[f].Mid? || owner[f].Low? ==> (owner[f].v2 < 256 <==> owner[f].root != kroot))
    && (forall f, v0 :: f in owner && owner[f].Low? && 0 <= v0 < 512 ==> LeafOK(mem[f][v0]))
  }

  /** The walk as the kernel does it in `is_va_mapped`. */
  ghost function Lookup(mem: Mem, r: nat, p: VPage): Option<Leaf> {
    if r >= |mem| || mem[r][p.v2] == 0 then None
    else
      var m := Target(mem[r][p.v2]);
      if !(0 <= m < |mem|) || mem[m][p.v1] == 0 then None
      else
        var l := Target(mem[m][p.v1]);
        if !(0 <= l < |mem|) || mem[l][p.v0] == 0 then None
        else Some(Leaf(mem[l][p.v0] / 0x400, mem[l][p.v0] % 0x400))
  }

  lemma PointerFields(f: nat)
    requires f < FRAMES
    ensures var e := Pte(f, 1);
            && 0 < e < TWO_64 && Target(e) == f && Ppn(e) == PPN_BASE + f && FlagSet(e, PTE_V)
            && !FlagSet(e, PTE_R) && !FlagSet(e, PTE_W) && !FlagSet(e, PTE_X) && ReservedClear(e)
  {
    var q := PPN_BASE + f;
    LowBits(q, 1);
    assert Pte(f, 1) / 16 == q * 0x40 && Pte(f, 1) / 64 == q * 0x10 && Pte(f, 1) / 128 == q * 8;
  }

  lemma LowBits(q: nat, perm: nat)
    requires perm < 0x400
    ensures (q * 0x400 + perm) % 2 == perm % 2
    ensures (q * 0x400 + perm) / 2 % 2 == perm / 2 % 2
    ensures (q * 0x400 + perm) / 4 % 2 == perm / 4 % 2
    ensures (q * 0x400 + perm) / 8 % 2 == perm / 8 % 2
  {
    LowBit(q * 0x200, perm, 1, perm % 1);
    LowBit(q * 0x100, perm, 2, perm % 2);
    LowBit(q * 0x80, perm, 4, perm % 4);
    LowBit(q * 0x40, perm, 8, perm % 8);
  }

  lemma LowBit(h: nat, perm: nat, d: nat, r: nat)
    requires d > 0 && r == perm % d
    ensures (2 * d * h + perm) / d % 2 == perm / d % 2
  {
    var b := perm / d;
    assert 2 * d * h + perm == (2 * h + b) * d + r;
    DivUnique(2 * d * h + perm, d, 2 * h + b, r);
    DivUnique(2 * h + b, 2, h + b / 2, b % 2);
  }

  lemma LeafFields(e: Word)
    requires LeafOK(e) && e != 0
    ensures Ppn(e) == e / 0x400 && FlagSet(e, PTE_V)
    ensures (FlagSet(e, PTE_R) || (FlagSet(e, PTE_X) && !FlagSet(e, PTE_W))) && ReservedClear(e)
  {
    assert e == e / 0x400 * 0x400 + e % 0x400;
    LowBits(e / 0x400, e % 0x400);
  }

  lemma DecodePointer(f: nat, level: nat)
    requires f < FRAMES && level > 0
    ensures 0 < Pte(f, 1) < TWO_64 && Target(Pte(f, 1)) == f && Decode(Pte(f, 1), level) == Descend(PPN_BASE + f)
  {
    PointerFields(f);
  }

  lemma DecodeLeaf(e: Word)
    requires LeafOK(e)
    ensures Decode(e, 0) == if e == 0 then Fault else Found(e / 0x400, e % 0x400)
  {
    if e != 0 { LeafFields(e); }
  }

  /** On the kernel's tables the hardware walk finds what the kernel stored. */
  lemma WalkIsLookup(mem: Mem, owner: Owner, kroot: nat, r: nat, p: VPage)
    requires Tables(mem, owner, kroot) && IsRoot(owner, r)
    ensures Walk(mem, r, p, 2) == Lookup(mem, r, p)
  {
    LookupPath(mem, owner, kroot, r, p);
    var e2 := mem[r][p.v2];
    assert PointerOK(owner, e2, Mid(Home(kroot, r, p.v2), p.v2));
    if e2 != 0 {
      var m := Target(e2);
      DecodePointer(m, 2);
      MidWalkIsLookup(mem, owner, kroot, r, p, m);
    }
  }

  lemma MidWalkIsLookup(mem: Mem, owner: Owner, kroot: nat, r: nat, p: VPage, m: nat)
    requires Tables(mem, owner, kroot) && IsRoot(owner, r) && mem[r][p.v2] != 0
    requires m == Target(mem[r][p.v2]) && m in owner && owner[m].Mid?
    ensures Walk(mem, m, p, 1) == Lookup(mem, r, p)
  {
    var e1 := mem[m][p.v1];
    assert PointerOK(owner, e1, Low(owner[m].root, owner[m].v2, p.v1));
    if e1 != 0 {
      var l := Target(e1);
      DecodePointer(l, 1);
      DecodeLeaf(mem[l][p.v0]);
    }
  }

  // ---- the three kinds of table update -------------------------------------

  /** Storing one word. */
  ghost function Put(mem: Mem, f: nat, i: nat, w: Word): Mem
    requires f < |mem| && i < 512
  { mem[f := mem[f][i := w]] }

  /** A zero frame becomes the empty second-level table at (r, v2). */
  lemma LinkMid(mem: Mem, owner: Owner, kroot: nat, r: nat, v2: nat, f: nat)
    requires Tables(mem, owner, kroot) && IsRoot(owner, r) && v2 < 512 && mem[r][v2] == 0
    requires (v2 < 256 <==> r != kroot) && (v2 < 256 || forall q :: IsRoot(owner, q) ==> q == kroot)
    requires f < FRAMES && f !in owner && mem[f] == ZeroFrame()
    ensures var mem' := Put(mem, r, v2, Pte(f, 1));
            && Tables(mem', owner[f := Mid(r, v2)], kroot)
            && forall q: nat, n: VPage :: IsRoot(owner, q) ==> Lookup(mem', q, n) == Lookup(mem, q, n)
  {
    PointerFields(f);
    var mem', owner' := Put(mem, r, v2, Pte(f, 1)), owner[f := Mid(r, v2)];
    assert f != r;
    forall q: nat, i | IsRoot(owner', q) && 0 <= i < 512
      ensures PointerOK(owner', mem'[q][i], Mid(Home(kroot, q, i), i))
      ensures i >= 256 ==> mem'[q][i] == mem'[kroot][i]
    {
      assert IsRoot(owner, q);
      assert PointerOK(owner, mem[q][i], Mid(Home(kroot, q, i), i));
    }
    forall g, i | g in owner' && owner'[g].Mid? && 0 <= i < 512
      ensures PointerOK(owner', mem'[g][i], Low(owner'[g].root, owner'[g].v2, i))
    {
    }
    forall q: nat, n: VPage | IsRoot(owner, q) ensures Lookup(mem', q, n) == Lookup(mem, q, n) {
      LookupPath(mem, owner, kroot, q, n);
    }
  }

  /** Where a lookup goes: each table on the way carries the label of its place. */
  lemma LookupPath(mem: Mem, owner: Owner, kroot: nat, r: nat, p: VPage)
    requires Tables(mem, owner, kroot) && IsRoot(owner, r)
    ensures mem[r][p.v2] != 0 ==>
              var m := Target(mem[r][p.v2]);
              && m in owner && owner[m] == Mid(Home(kroot, r, p.v2), p.v2)
              && (mem[m][p.v1] != 0 ==>
                    var l := Target(mem[m][p.v1]);
                    && l in owner && owner[l] == Low(Home(kroot, r, p.v2), p.v2, p.v1)
                    && LeafOK(mem[l][p.v0]))
  {
    assert PointerOK(owner, mem[r][p.v2], Mid(Home(kroot, r, p.v2), p.v2));
  }

  /** The kernel root has nothing in its user half. */
  lemma KernelRootUserHalf(mem: Mem, owner: Owner, kroot: nat, v2: Idx)
    requires Tables(mem, owner, kroot) && v2 < 256
    ensures mem[kroot][v2] == 0
  {
    assert PointerOK(owner, mem[kroot][v2], Mid(Home(kroot, kroot, v2), v2));
  }

  /** A copy of the kernel root in a fresh frame is a root with an empty user
      half and the kernel's own kernel half. */
  lemma AddRoot(mem: Mem, owner: Owner, kroot: nat, r: nat, mem': Mem)
    requires Tables(mem, owner, kroot) && r < FRAMES && r !in owner
    requires mem' == mem[r := mem[kroot]]
    ensures Tables(mem', owner[r := Root], kroot)
    ensures forall q: nat, n: VPage :: IsRoot(owner, q) ==> Lookup(mem', q, n) == Lookup(mem, q, n)
    ensures forall n: VPage :: Lookup(mem', r, n) == if n.v2 < 256 then None else Lookup(mem, kroot, n)
  {
    var owner' := owner[r := Root];
    forall q: nat, i | IsRoot(owner', q) && 0 <= i < 512
      ensures PointerOK(owner', mem'[q][i], Mid(Home(kroot, q, i), i))
      ensures i >= 256 ==> mem'[q][i] == mem'[kroot][i]
      ensures q == r && i < 256 ==> mem'[q][i] == 0
    {
      if i < 256 { KernelRootUserHalf(mem, owner, kroot, i); }
      assert IsRoot(owner, kroot);
      if q != r { assert IsRoot(owner, q); }
      assert PointerOK(owner, mem[kroot][i], Mid(Home(kroot, kroot, i), i));
    }
    forall g, i | g in owner' && owner'[g].Mid? && 0 <= i < 512
      ensures PointerOK(owner', mem'[g][i], Low(owner'[g].root, owner'[g].v2, i))
    {}
    forall q: nat, n: VPage | IsRoot(owner, q) ensures Lookup(mem', q, n) == Lookup(mem, q, n) {
      LookupPath(mem, owner, kroot, q, n);
    }
    forall n: VPage ensures Lookup(mem', r, n) == if n.v2 < 256 then None else Lookup(mem, kroot, n) {
      LookupPath(mem, owner, kroot, kroot, n);
      if n.v2 < 256 { KernelRootUserHalf(mem, owner, kroot, n.v2); }
    }
  }

  /** Labelling unowned frames with roles other than a table's changes nothing. */
  lemma AddOwners(mem: Mem, owner: Owner, kroot: nat, extra: Owner)
    requires Tables(mem, owner, kroot) && extra.Keys !! owner.Keys
    requires forall f <- extra :: f < FRAMES && !extra[f].Root? && !extra[f].Mid? && !extra[f].Low?
    ensures Tables(mem, owner + extra, kroot)
  {
    var owner' := owner + extra;
    forall q: nat, i | IsRoot(owner', q) && 0 <= i < 512
      ensures PointerOK(owner', mem[q][i], Mid(Home(kroot, q, i), i))
      ensures i >= 256 ==> mem[q][i] == mem[kroot][i]
    {
      assert IsRoot(owner, q);
      assert PointerOK(owner, mem[q][i], Mid(Home(kroot, q, i), i));
    }
    forall g, i | g in owner' && owner'[g].Mid? && 0 <= i < 512
      ensures PointerOK(owner', mem[g][i], Low(owner'[g].root, owner'[g].v2, i))
    {}
  }

  /** A frame that holds no table may change freely. */
  lemma ChangeOther(mem: Mem, owner: Owner, kroot: nat, f: nat, frame: Frame)
    requires Tables(mem, owner, kroot) && f < FRAMES
    requires f !in owner || !(owner[f].Root? || owner[f].Mid? || owner[f].Low?)
    ensures Tables(mem[f := frame], owner, kroot)
    ensures forall q: nat, n: VPage :: IsRoot(owner, q) ==> Lookup(mem[f := frame], q, n) == Lookup(mem, q, n)
  {
    var mem' := mem[f := frame];
    forall q: nat, n: VPage | IsRoot(owner, q) ensures Lookup(mem', q, n) == Lookup(mem, q, n) {
      LookupPath(mem, owner, kroot, q, n);
    }
  }

  /** A zero frame becomes the empty third-level table below m. */
  lemma LinkLow(mem: Mem, owner: Owner, kroot: nat, m: nat, v1: nat, f: nat)
    requires Tables(mem, owner, kroot) && m in owner && owner[m].Mid? && v1 < 512 && mem[m][v1] == 0
    requires f < FRAMES && f !in owner && mem[f] == ZeroFrame()
    ensures var mem' := Put(mem, m, v1, Pte(f, 1));
            && Tables(mem', owner[f := Low(owner[m].root, owner[m].v2, v1)], kroot)
            && forall q: nat, n: VPage :: IsRoot(owner, q) ==> Lookup(mem', q, n) == Lookup(mem, q, n)
  {
    PointerFields(f);
    var mem', owner' := Put(mem, m, v1, Pte(f, 1)), owner[f := Low(owner[m].root, owner[m].v2, v1)];
    assert f != m;
    forall q: nat, n: VPage | IsRoot(owner, q) ensures Lookup(mem', q, n) == Lookup(mem, q, n) {
      LookupPath(mem, owner, kroot, q, n);
    }
  }

  /** Page n of root q is reached through the same entry as page p of root r. */
  ghost predicate SamePage(kroot: nat, r: nat, p: VPage, q: nat, n: VPage) {
    n == p && Home(kroot, q, p.v2) == Home(kroot, r, p.v2)
  }

  /** Writing a leaf changes the lookup of one page: for a user page, in one
      root only. */
  lemma SetLeaf(mem: Mem, owner: Owner, kroot: nat, r: nat, p: VPage, e: Word)
    requires Tables(mem, owner, kroot) && IsRoot(owner, r) && LeafOK(e) && e != 0
    requires mem[r][p.v2] != 0 && mem[Target(mem[r][p.v2])][p.v1] != 0
    ensures var l := Target(mem[Target(mem[r][p.v2])][p.v1]);
            var mem' := Put(mem, l, p.v0, e);
            && Tables(mem', owner, kroot)
            && Lookup(mem', r, p) == Some(Leaf(e / 0x400, e % 0x400))
            && forall q: nat, n: VPage :: IsRoot(owner, q) && !SamePage(kroot, r, p, q, n) ==>
                 Lookup(mem', q, n) == Lookup(mem, q, n)
  {
    LookupPath(mem, owner, kroot, r, p);
    var l := Target(mem[Target(mem[r][p.v2])][p.v1]);
    var mem' := Put(mem, l, p.v0, e);
    forall q: nat, n: VPage | IsRoot(owner, q) && !SamePage(kroot, r, p, q, n)
      ensures Lookup(mem', q, n) == Lookup(mem, q, n)
    {
      LookupPath(mem, owner, kroot, q, n);
    }
  }
}
