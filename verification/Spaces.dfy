/** How the kernel's memory represents the address spaces of its tasks, and
    what that separation guarantees. */
module Spaces {
  import opened Bits
  import opened Defs
  import opened BuddyAllocator
  import opened Sv39
  import opened Bytes
  import opened Paging
  import opened UserMemory
  import opened World

  /** What is fixed at boot: the kernel root, the first frame of the embedded
      program file, its bytes, and the permissions of the direct map. */
  datatype Boot = Boot(kroot: nat, uapp: nat, file: File, perms: nat -> nat)

  /** The memory-related part of `struct task_struct`. */
  datatype Proc = Proc(page: nat, root: nat, vmas: seq<Vma>)

  /** Areas as `do_mmap` is called with: inside user space, readable and writable,
      and, when file-backed, page-congruent with the file and backed by allocated
      pages. */
  ghost predicate VmaOK(v: Vma, b: Boot, used: set<int>) {
    && v.start <= v.end <= USER_END && And(v.flags, VM_R_MASK) != 0 && And(v.flags, VM_W_MASK) != 0
    && (!Anonymous(v) ==>
          && v.offset % 0x1000 == v.start % 0x1000
          && forall n: nat :: HasPage(v, n) ==> 0 <= SourceFrame(v, b, n) < FRAMES && SourceFrame(v, b, n) in used)
  }

  /** The frame that holds the file's contents for page n of the area. */
  function SourceFrame(v: Vma, b: Boot, n: nat): int { b.uapp + (v.offset + 0x1000 * n - v.start) / 0x1000 }

  /** All bytes of RAM from the embedded file on. Areas that outgrow the file show
      what lies there. */
  ghost function ImageAt(mem: Mem, b: Boot): File {
    if b.uapp <= |mem| then
      var n := 0x1000 * (|mem| - b.uapp);
      seq<Byte>(n, o requires 0 <= o < n => ByteAt(mem, 0x1000 * b.uapp + o))
    else []
  }

  /** The frame behind page n of root r. */
  ghost function FrameAt(mem: Mem, r: nat, n: nat): int
    requires n < USER_PAGES && Lookup(mem, r, PageNo(n)).Some?
  { Lookup(mem, r, PageNo(n)).value.ppn - PPN_BASE }

  ghost predicate InSomeArea(vmas: seq<Vma>, n: nat) { exists k: nat :: k < |vmas| && HasPage(vmas[k], n) }

  /** An area that has page n gives its leaf this permission. */
  ghost predicate Granted(vmas: seq<Vma>, n: nat, perm: nat) {
    exists k: nat :: k < |vmas| && HasPage(vmas[k], n) && perm == UserPerm(vmas[k].flags)
  }

  /** Every user page of the root is backed by a data frame labelled with it, with
      the permission of its area. */
  ghost predicate LeavesOwned(s: Snap, p: Proc) {
    forall n: nat :: n < USER_PAGES && Lookup(s.mem, p.root, PageNo(n)).Some? ==>
      && FrameAt(s.mem, p.root, n) in s.owner && s.owner[FrameAt(s.mem, p.root, n)] == Data(p.root, n)
      && Granted(p.vmas, n, Lookup(s.mem, p.root, PageNo(n)).value.perm)
  }

  ghost predicate ProcOK(s: Snap, b: Boot, p: Proc) {
    && IsRoot(s.owner, p.root) && p.root != b.kroot
    && p.page in s.owner && s.owner[p.page] == TaskPage(p.root)
    && PagesDisjoint(p.vmas) && (forall v <- p.vmas :: VmaOK(v, b, s.used))
    && LeavesOwned(s, p)
  }

  /** The file lies in frames that belong to the kernel image. */
  ghost predicate ImageOK(s: Snap, b: Boot) {
    |s.mem| == FRAMES && forall o: nat :: o < |b.file| ==> FileByteAt(s, b, o)
  }

  ghost predicate FileByteAt(s: Snap, b: Boot, o: nat)
    requires |s.mem| == FRAMES && o < |b.file|
  {
    var f := b.uapp + o / 0x1000;
    f < FRAMES && f in s.owner && s.owner[f] == Image && FrameByte(s.mem[f], o % 0x1000) == b.file[o]
  }

  ghost predicate Sane(s: Snap, b: Boot, procs: seq<Proc>) {
    && Inv(s, b.kroot) && DirectMapped(s.mem, b.kroot, 512, FRAMES, b.perms) && ImageOK(s, b)
    && (forall i: nat :: i < |procs| ==> ProcOK(s, b, procs[i]))
    && (forall i: nat, j: nat :: i < |procs| && j < |procs| && procs[i].root == procs[j].root ==> i == j)
  }

  // ---- the represented world -------------------------------------------------

  ghost function PagesOf(mem: Mem, r: nat): map<nat, nat> {
    map n: nat | n < USER_PAGES && Lookup(mem, r, PageNo(n)).Some? && FrameAt(mem, r, n) >= 0 :: FrameAt(mem, r, n)
  }

  ghost function SpaceOf(mem: Mem, p: Proc): Space { Space(p.vmas, PagesOf(mem, p.root)) }

  ghost function StoreOf(s: Snap): map<nat, Frame> {
    map f | f in s.owner && s.owner[f].Data? && f < |s.mem| :: s.mem[f]
  }

  ghost function View(s: Snap, procs: seq<Proc>): (w: World)
    ensures |w.spaces| == |procs|
  {
    World(seq(|procs|, i requires 0 <= i < |procs| => SpaceOf(s.mem, procs[i])), StoreOf(s))
  }

  /** Frames are apart by their labels: the represented world is sound as soon
      as anonymous areas are mapped wholly or not at all. */
  lemma ViewSound(s: Snap, b: Boot, procs: seq<Proc>)
    requires Sane(s, b, procs)
    requires forall i: nat :: i < |procs| ==> WholeOrNot(procs[i].vmas, PagesOf(s.mem, procs[i].root).Keys)
    ensures Sound(View(s, procs))
  {
    var w := View(s, procs);
    forall i: nat, n: nat, f: nat | HasFrame(w, i, n, f)
      ensures f in w.store && f in s.owner && s.owner[f] == Data(procs[i].root, n)
    {
      assert ProcOK(s, b, procs[i]);
    }
    forall i: nat | i < |w.spaces| ensures SpaceOK(w.spaces[i]) {
      assert ProcOK(s, b, procs[i]);
      forall n <- w.spaces[i].pages ensures exists k: nat :: k < |procs[i].vmas| && HasPage(procs[i].vmas[k], n) {
        assert Granted(procs[i].vmas, n, Lookup(s.mem, procs[i].root, PageNo(n)).value.perm);
      }
    }
  }

  // ---- isolation -------------------------------------------------------------

  lemma WalkedFrame(s: Snap, b: Boot, procs: seq<Proc>, i: nat, n: nat, x: Leaf)
    requires Sane(s, b, procs) && i < |procs| && n < USER_PAGES && Walk(s.mem, procs[i].root, PageNo(n), 2) == Some(x)
    ensures x.ppn - PPN_BASE in s.owner && s.owner[x.ppn - PPN_BASE] == Data(procs[i].root, n)
  {
    hide Lookup, Granted, VmaOK, ImageOK, DirectMapped;
    assert ProcOK(s, b, procs[i]);
    WalkIsLookup(s.mem, s.owner, b.kroot, procs[i].root, PageNo(n));
  }

  /** No user page of one task shares its frame x with any page of another task,
      a task page, a root, a table or the kernel image. */
  lemma FramesApart(s: Snap, b: Boot, procs: seq<Proc>, i: nat, j: nat, n: nat, m: nat, x: Leaf, y: Leaf)
    requires Sane(s, b, procs) && i < |procs| && j < |procs| && n < USER_PAGES && m < USER_PAGES
    requires Walk(s.mem, procs[i].root, PageNo(n), 2) == Some(x)
    requires Walk(s.mem, procs[j].root, PageNo(m), 2) == Some(y)
    ensures x.ppn == y.ppn ==> i == j && n == m
    ensures forall k: nat :: k < |procs| ==> x.ppn - PPN_BASE != procs[k].page && x.ppn - PPN_BASE != procs[k].root
    ensures x.ppn - PPN_BASE in s.owner && s.owner[x.ppn - PPN_BASE].Data?
  {
    hide Lookup, Walk, Tables, DirectMapped, ImageOK, LeavesOwned, VmaOK;
    WalkedFrame(s, b, procs, i, n, x);
    WalkedFrame(s, b, procs, j, m, y);
    forall k: nat | k < |procs| ensures x.ppn - PPN_BASE != procs[k].page && x.ppn - PPN_BASE != procs[k].root {
      assert ProcOK(s, b, procs[k]);
    }
  }

  /** Task pages of different tasks are different frames. */
  lemma TaskPagesApart(s: Snap, b: Boot, procs: seq<Proc>)
    requires Sane(s, b, procs)
    ensures forall i: nat :: i < |procs| ==> procs[i].page < FRAMES
    ensures forall i: nat, j: nat :: i < |procs| && j < |procs| && procs[i].page == procs[j].page ==> i == j
  {
    hide Lookup, DirectMapped, ImageOK, LeavesOwned, VmaOK;
    forall i: nat | i < |procs| ensures procs[i].page < FRAMES && s.owner[procs[i].page] == TaskPage(procs[i].root) {
      assert ProcOK(s, b, procs[i]);
    }
  }

  /** f is the second- or third-level table that root r uses for page p. */
  ghost predicate TableFor(mem: Mem, r: nat, p: VPage, f: int) {
    && r < |mem| && mem[r][p.v2] != 0
    && (f == Target(mem[r][p.v2]) || (HasMid(mem, r, p) && mem[MidOf(mem, r, p)][p.v1] != 0 && f == LowOf(mem, r, p)))
  }

  lemma TableLabel(s: Snap, b: Boot, procs: seq<Proc>, i: nat, p: VPage, f: int)
    requires Sane(s, b, procs) && i < |procs| && TableFor(s.mem, procs[i].root, p, f)
    ensures f in s.owner && (s.owner[f].Mid? || s.owner[f].Low?)
    ensures s.owner[f].root == Home(b.kroot, procs[i].root, p.v2)
  {
    hide Lookup;
    assert ProcOK(s, b, procs[i]);
    LookupPath(s.mem, s.owner, b.kroot, procs[i].root, p);
  }

  /** No table in the user half of one task is a table of another task, nor a task
      page, a root, or a frame x that user page n of any task shows. */
  lemma TablesApart(s: Snap, b: Boot, procs: seq<Proc>, i: nat, j: nat, p: VPage, q: VPage, f: int, g: int, n: nat,
                    x: Leaf)
    requires Sane(s, b, procs) && i < |procs| && j < |procs| && p.v2 < 256 && q.v2 < 256 && n < USER_PAGES
    requires TableFor(s.mem, procs[i].root, p, f) && TableFor(s.mem, procs[j].root, q, g)
    ensures f == g ==> i == j
    ensures forall k: nat :: k < |procs| ==> f != procs[k].page && f != procs[k].root
    ensures Walk(s.mem, procs[j].root, PageNo(n), 2) == Some(x) ==> x.ppn - PPN_BASE != f
  {
    hide Lookup, Walk, Tables, DirectMapped, ImageOK, LeavesOwned, VmaOK;
    TableLabel(s, b, procs, i, p, f);
    TableLabel(s, b, procs, j, q, g);
    if Walk(s.mem, procs[j].root, PageNo(n), 2) == Some(x) { WalkedFrame(s, b, procs, j, n, x); }
    forall k: nat | k < |procs| ensures f != procs[k].page && f != procs[k].root {
      assert ProcOK(s, b, procs[k]);
    }
  }

  /** Every task sees the kernel through the same direct map, and nothing else
      of the upper half. */
  lemma KernelHalfShared(s: Snap, b: Boot, procs: seq<Proc>, i: nat, p: VPage)
    requires Sane(s, b, procs) && i < |procs| && p.v2 >= 256
    ensures Walk(s.mem, procs[i].root, p, 2) ==
            if p.v2 == 384 && 512 <= FrameShown(p) < FRAMES
            then Some(Leaf(PPN_BASE + FrameShown(p), b.perms(FrameShown(p)))) else None
  {
    assert ProcOK(s, b, procs[i]);
    WalkIsLookup(s.mem, s.owner, b.kroot, procs[i].root, p);
    assert Lookup(s.mem, procs[i].root, p) == Lookup(s.mem, b.kroot, p);
  }

  /** Whatever address a user program uses and however it accesses it, what it
      reaches is a page of its own: never the kernel half, a task page, a root, a
      table, the kernel image, or another task's page. */
  lemma UserConfined(s: Snap, b: Boot, procs: seq<Proc>, i: nat, a: Word, need: Word, x: Leaf)
    requires Sane(s, b, procs) && KernelOnly(b.perms) && i < |procs| && need > 0
    requires UserReach(s.mem, procs[i].root, a, need) == Some(x)
    ensures a < USER_END && x.ppn - PPN_BASE in s.owner
    ensures s.owner[x.ppn - PPN_BASE] == Data(procs[i].root, a / 0x1000)
    ensures forall k: nat :: k < |procs| ==> x.ppn - PPN_BASE != procs[k].page && x.ppn - PPN_BASE != procs[k].root
    ensures forall j: nat, m: nat :: j < |procs| && j != i && m < USER_PAGES ==>
              var y := Walk(s.mem, procs[j].root, PageNo(m), 2); y.None? || y.value.ppn != x.ppn
  {
    hide Sane, Walk, PageOf;
    if a >= USER_END {
      UpperHalf(a);
      KernelHalfShared(s, b, procs, i, PageOf(a));
      assert false;
    }
    var n := a / 0x1000;
    LowerHalf(a);
    WalkedFrame(s, b, procs, i, n, x);
    FramesApart(s, b, procs, i, i, n, n, x, x);
    forall j: nat, m: nat | j < |procs| && j != i && m < USER_PAGES && Walk(s.mem, procs[j].root, PageNo(m), 2).Some?
      ensures Walk(s.mem, procs[j].root, PageNo(m), 2).value.ppn != x.ppn
    {
      FramesApart(s, b, procs, i, j, n, m, x, Walk(s.mem, procs[j].root, PageNo(m), 2).value);
    }
  }

  lemma LowerHalf(a: Word)
    requires a < USER_END
    ensures a / 0x1000 < USER_PAGES && PageOf(a) == PageNo(a / 0x1000)
  {
    assert a / 0x1000 % 0x800_0000 == a / 0x1000;
  }

  /** The direct-map address of frame f is translated to f under root r. */
  ghost predicate KernelReaches(mem: Mem, r: nat, f: int, perms: nat -> nat) {
    0 <= f < FRAMES && Walk(mem, r, PageOf(Kva(f)), 2) == Some(Leaf(PPN_BASE + f, perms(f)))
  }

  /** Whatever task's root is active, the kernel reaches every frame it uses. */
  lemma OwnedIsMapped(s: Snap, b: Boot, procs: seq<Proc>, i: nat, f: nat)
    requires Sane(s, b, procs) && i < |procs| && f in s.owner
    ensures KernelReaches(s.mem, procs[i].root, f, b.perms)
  {
    hide Lookup, Walk;
    KernelPage(f);
    KernelHalfShared(s, b, procs, i, PageOf(Kva(f)));
  }

  /** `PTE2VA` of any table entry met on the way to any page is a mapped address
      of the table it points to, and so is the root's own address. */
  lemma EntriesCanBeFollowed(s: Snap, b: Boot, procs: seq<Proc>, i: nat, p: VPage)
    requires Sane(s, b, procs) && i < |procs|
    ensures var r := procs[i].root;
            && r < |s.mem| && KernelReaches(s.mem, r, r, b.perms)
            && (s.mem[r][p.v2] != 0 ==>
                  var m := Target(s.mem[r][p.v2]);
                  && KernelReaches(s.mem, r, m, b.perms) && Pte2Va(s.mem[r][p.v2]) == Kva(m)
                  && (s.mem[m][p.v1] != 0 ==>
                        var l := Target(s.mem[m][p.v1]);
                        KernelReaches(s.mem, r, l, b.perms) && Pte2Va(s.mem[m][p.v1]) == Kva(l)))
  {
    hide Lookup, Walk, KernelReaches;
    assert ProcOK(s, b, procs[i]);
    var r := procs[i].root;
    OwnedIsMapped(s, b, procs, i, r);
    LookupPath(s.mem, s.owner, b.kroot, r, p);
    assert PointerOK(s.owner, s.mem[r][p.v2], Mid(Home(b.kroot, r, p.v2), p.v2));
    if s.mem[r][p.v2] != 0 {
      var m := Target(s.mem[r][p.v2]);
      OwnedIsMapped(s, b, procs, i, m);
      PteDecode(m, 1);
      assert PointerOK(s.owner, s.mem[m][p.v1], Low(s.owner[m].root, s.owner[m].v2, p.v1));
      if s.mem[m][p.v1] != 0 {
        OwnedIsMapped(s, b, procs, i, Target(s.mem[m][p.v1]));
        PteDecode(Target(s.mem[m][p.v1]), 1);
      }
    }
  }

  // ---- steps on the representation ---------------------------------------------

  /** Labels for frames base.. as pages first.. of root r. */
  ghost function Labels(r: nat, first: nat, n: nat, base: nat): Owner {
    map f: nat | base <= f < base + n && InRun(base, n, f) :: Data(r, first + f - base)
  }

  ghost function RunPagesMap(first: nat, n: nat, base: nat): map<nat, nat> {
    map m: nat | first <= m < first + n && InRun(first, n, m) :: base + m - first
  }

  lemma InRunIs(first: nat, n: nat, m: nat)
    ensures InRun(first, n, m) <==> first <= m < first + n
  {}

  lemma RunPagesMapIs(first: nat, n: nat, base: nat)
    ensures forall m: nat :: m in RunPagesMap(first, n, base) <==> first <= m < first + n
    ensures forall m: nat :: first <= m < first + n ==> RunPagesMap(first, n, base)[m] == base + m - first
  {
    forall m: nat ensures m in RunPagesMap(first, n, base) <==> first <= m < first + n { InRunIs(first, n, m); }
  }

  /** Facts that only grow: what s guarantees about a task other than the one
      whose tables changed still holds in t. */
  ghost predicate Later(s: Snap, t: Snap, b: Boot, r: nat) {
    && |t.mem| == |s.mem| == FRAMES && s.used <= t.used
    && (forall f <- s.owner :: f in t.owner && t.owner[f] == s.owner[f])
    && (forall f: nat :: f in s.owner && f < FRAMES && !s.owner[f].Root? && !s.owner[f].Mid? && !s.owner[f].Low? ==>
       t.mem[f] == s.mem[f])
    && (forall q: nat, p: VPage :: IsRoot(s.owner, q) && q != r ==> Lookup(t.mem, q, p) == Lookup(s.mem, q, p))
  }

  lemma LaterProc(s: Snap, t: Snap, b: Boot, r: nat, p: Proc)
    requires Later(s, t, b, r) && ProcOK(s, b, p) && p.root != r
    ensures ProcOK(t, b, p) && SpaceOf(t.mem, p) == SpaceOf(s.mem, p)
  {
    forall n: nat | n < USER_PAGES ensures Lookup(t.mem, p.root, PageNo(n)) == Lookup(s.mem, p.root, PageNo(n)) {}
    forall v <- p.vmas ensures VmaOK(v, b, t.used) { assert VmaOK(v, b, s.used); }
  }

  lemma LaterImage(s: Snap, t: Snap, b: Boot, r: nat)
    requires Later(s, t, b, r) && ImageOK(s, b)
    ensures ImageOK(t, b)
  {
    forall o: nat | o < |b.file| ensures FileByteAt(t, b, o) { assert FileByteAt(s, b, o); }
  }

  /** The table of the task itself: a run of pages is new, the rest as before. */
  ghost predicate RunAdded(m: Mem, m': Mem, r: nat, first: nat, n: nat, base: nat, perm: nat) {
    forall k: nat :: k < USER_PAGES ==>
      if first <= k < first + n then Lookup(m', r, PageNo(k)) == Some(Leaf(PPN_BASE + base + k - first, perm))
      else Lookup(m', r, PageNo(k)) == Lookup(m, r, PageNo(k))
  }

  lemma InstalledAdds(kroot: nat, s: Snap, t: Snap, r: nat, first: nat, n: nat, base: nat, perm: nat)
    requires MapsRun(kroot, s, t, r, first, n, base, perm) && IsRoot(s.owner, r)
    ensures RunAdded(s.mem, t.mem, r, first, n, base, perm)
  {}

  lemma PagesAdded(m: Mem, m': Mem, r: nat, first: nat, n: nat, base: nat, perm: nat)
    requires RunAdded(m, m', r, first, n, base, perm) && first + n <= USER_PAGES
    ensures PagesOf(m', r) == PagesOf(m, r) + RunPagesMap(first, n, base)
  {
    hide RunAdded, PagesOf, RunPagesMap;
    var p, p' := PagesOf(m, r) + RunPagesMap(first, n, base), PagesOf(m', r);
    forall k: nat ensures k in p <==> k in p' { PageAdded(m, m', r, first, n, base, perm, k); }
    forall k: nat | k in p' ensures p'[k] == p[k] { PageAdded(m, m', r, first, n, base, perm, k); }
  }

  lemma PageAdded(m: Mem, m': Mem, r: nat, first: nat, n: nat, base: nat, perm: nat, k: nat)
    requires RunAdded(m, m', r, first, n, base, perm) && first + n <= USER_PAGES
    ensures var p, p' := PagesOf(m, r) + RunPagesMap(first, n, base), PagesOf(m', r);
            (k in p <==> k in p') && (k in p' ==> p'[k] == p[k])
  {
    assert first <= k < first + n ==> InRun(first, n, k);
  }

  lemma LeavesAdded(s: Snap, t: Snap, p: Proc, first: nat, n: nat, base: nat, perm: nat)
    requires LeavesOwned(s, p) && RunAdded(s.mem, t.mem, p.root, first, n, base, perm)
    requires forall f <- s.owner :: f in t.owner && t.owner[f] == s.owner[f]
    requires forall f: nat :: base <= f < base + n ==> f in t.owner && t.owner[f] == Data(p.root, first + f - base)
    requires forall m: nat :: first <= m < first + n ==> Granted(p.vmas, m, perm)
    ensures LeavesOwned(t, p)
  {
    forall k: nat | k < USER_PAGES && Lookup(t.mem, p.root, PageNo(k)).Some?
      ensures FrameAt(t.mem, p.root, k) in t.owner && t.owner[FrameAt(t.mem, p.root, k)] == Data(p.root, k)
      ensures Granted(p.vmas, k, Lookup(t.mem, p.root, PageNo(k)).value.perm)
    {
      if !(first <= k < first + n) { assert Lookup(s.mem, p.root, PageNo(k)).Some?; }
    }
  }

  /** Labelling freshly installed pages makes them pages of the task, and no one
      else's memory is involved. */
  lemma Adopt(s: Snap, t0: Snap, t: Snap, b: Boot, procs: seq<Proc>, i: nat, first: nat, n: nat, base: nat, perm: nat)
    requires Sane(s, b, procs) && i < |procs| && first + n <= USER_PAGES && base + n <= FRAMES
    requires Inv(t0, b.kroot) && Installed(b.kroot, s, t0, procs[i].root, first, n, base, perm)
    requires t == Snap(t0.mem, t0.owner + Labels(procs[i].root, first, n, base), t0.used)
    requires forall m: nat :: first <= m < first + n ==>
               Granted(procs[i].vmas, m, perm) && Lookup(s.mem, procs[i].root, PageNo(m)).None?
    ensures Sane(t, b, procs)
    ensures PagedIn(View(s, procs), View(t, procs), i, RunPagesMap(first, n, base))
    ensures forall f: nat :: base <= f < base + n ==> f in View(t, procs).store && View(t, procs).store[f] == t0.mem[f]
  {
    var p := procs[i];
    assert ProcOK(s, b, p);
    LabelsOf(p.root, first, n, base);
    AddOwners(t0.mem, t0.owner, b.kroot, Labels(p.root, first, n, base));
    InstalledLater(s, t0, t, b, p, first, n, base, perm);
    InstalledAdds(b.kroot, s, t0, p.root, first, n, base, perm);
    LeavesAdded(s, t, p, first, n, base, perm);
    LaterSane(s, t, b, procs, i);
    PagesAdded(s.mem, t.mem, p.root, first, n, base, perm);
    AdoptedView(s, t0, t, b, procs, i, first, n, base);
  }

  lemma LabelsOf(r: nat, first: nat, n: nat, base: nat)
    ensures forall f: nat :: f in Labels(r, first, n, base) <==> base <= f < base + n
    ensures forall f: nat :: base <= f < base + n ==> Labels(r, first, n, base)[f] == Data(r, first + f - base)
  {
    forall f: nat | base <= f < base + n ensures f in Labels(r, first, n, base) {
      assert InRun(base, n, f);
    }
  }

  lemma InstalledLater(s: Snap, t0: Snap, t: Snap, b: Boot, p: Proc, first: nat, n: nat, base: nat, perm: nat)
    requires Inv(s, b.kroot) && ProcOK(s, b, p) && Installed(b.kroot, s, t0, p.root, first, n, base, perm)
    requires t == Snap(t0.mem, t0.owner + Labels(p.root, first, n, base), t0.used)
    ensures Later(s, t, b, p.root)
  {
    LabelsOf(p.root, first, n, base);
  }

  lemma LaterSane(s: Snap, t: Snap, b: Boot, procs: seq<Proc>, i: nat)
    requires Sane(s, b, procs) && i < |procs| && Later(s, t, b, procs[i].root) && Inv(t, b.kroot)
    requires LeavesOwned(t, procs[i])
    ensures Sane(t, b, procs)
    ensures forall j: nat :: j < |procs| && j != i ==> SpaceOf(t.mem, procs[j]) == SpaceOf(s.mem, procs[j])
  {
    var r := procs[i].root;
    assert ProcOK(s, b, procs[i]);
    LaterImage(s, t, b, r);
    forall v <- procs[i].vmas ensures VmaOK(v, b, t.used) { assert VmaOK(v, b, s.used); }
    assert ProcOK(t, b, procs[i]);
    forall j: nat | j < |procs| && j != i
      ensures ProcOK(t, b, procs[j]) && SpaceOf(t.mem, procs[j]) == SpaceOf(s.mem, procs[j])
    {
      assert ProcOK(s, b, procs[j]);
      LaterProc(s, t, b, r, procs[j]);
    }
    KernelMapKept(s, t, b, r);
  }

  lemma KernelMapKept(s: Snap, t: Snap, b: Boot, r: nat)
    requires Later(s, t, b, r) && IsRoot(s.owner, b.kroot) && r != b.kroot
    requires DirectMapped(s.mem, b.kroot, 512, FRAMES, b.perms)
    ensures DirectMapped(t.mem, b.kroot, 512, FRAMES, b.perms)
  {
    forall p: VPage ensures Lookup(t.mem, b.kroot, p) == Lookup(s.mem, b.kroot, p) {}
  }

  lemma NotMapped(m: Mem, r: nat, n: nat)
    requires n < USER_PAGES && Lookup(m, r, PageNo(n)).None?
    ensures n !in PagesOf(m, r)
  {}

  lemma StoreGrows(s: Snap, t0: Snap, t: Snap, b: Boot, r: nat, first: nat, n: nat, base: nat)
    requires Inv(s, b.kroot) && base + n <= FRAMES && Later(s, t, b, r)
    requires t == Snap(t0.mem, t0.owner + Labels(r, first, n, base), t0.used)
    requires forall f: nat :: base <= f < base + n ==> f !in s.used
    ensures forall f <- StoreOf(s) :: f in StoreOf(t) && StoreOf(t)[f] == StoreOf(s)[f]
    ensures forall f: nat :: base <= f < base + n ==> f !in StoreOf(s) && f in StoreOf(t) && StoreOf(t)[f] == t0.mem[f]
  {
    hide Lookup, Tables, Labels;
    LabelsOf(r, first, n, base);
  }

  lemma AdoptedView(s: Snap, t0: Snap, t: Snap, b: Boot, procs: seq<Proc>, i: nat, first: nat, n: nat, base: nat)
    requires Inv(s, b.kroot) && i < |procs| && first + n <= USER_PAGES && base + n <= FRAMES
    requires t == Snap(t0.mem, t0.owner + Labels(procs[i].root, first, n, base), t0.used)
    requires forall f: nat :: base <= f < base + n ==> f !in s.used
    requires forall m: nat :: first <= m < first + n ==> Lookup(s.mem, procs[i].root, PageNo(m)).None?
    requires PagesOf(t.mem, procs[i].root) == PagesOf(s.mem, procs[i].root) + RunPagesMap(first, n, base)
    requires forall j: nat :: j < |procs| && j != i ==> SpaceOf(t.mem, procs[j]) == SpaceOf(s.mem, procs[j])
    requires Later(s, t, b, procs[i].root)
    ensures PagedIn(View(s, procs), View(t, procs), i, RunPagesMap(first, n, base))
    ensures forall f: nat :: base <= f < base + n ==> f in View(t, procs).store && View(t, procs).store[f] == t0.mem[f]
  {
    hide Lookup, PagesOf, FrameAt, Tables, RunPagesMap, Labels, StoreOf, Inv, Later;
    StoreGrows(s, t0, t, b, procs[i].root, first, n, base);
    RunPagesMapIs(first, n, base);
    forall m: nat | first <= m < first + n ensures m !in PagesOf(s.mem, procs[i].root) {
      NotMapped(s.mem, procs[i].root, m);
    }
    var w, w', added := View(s, procs), View(t, procs), RunPagesMap(first, n, base);
    assert w'.spaces == w.spaces[i := w.spaces[i].(pages := w.spaces[i].pages + added)];
    forall m <- added ensures added[m] !in w.store && added[m] in w'.store {
      assert base <= added[m] < base + n;
    }
  }

  /** Allocating frames and preparing their contents is invisible. */
  lemma FreshInvisible(s: Snap, t: Snap, b: Boot, procs: seq<Proc>)
    requires Sane(s, b, procs) && Fresh(s, t)
    ensures Sane(t, b, procs) && View(t, procs) == View(s, procs)
  {
    FreshKeeps(b.kroot, s, t);
    AllLater(s, t, b, procs, FRAMES);
    assert StoreOf(t) == StoreOf(s);
  }

  /** Tasks none of whose tables changed keep everything. */
  lemma AllLater(s: Snap, t: Snap, b: Boot, procs: seq<Proc>, r: nat)
    requires Sane(s, b, procs) && Later(s, t, b, r) && Inv(t, b.kroot)
    requires r != b.kroot && forall i: nat :: i < |procs| ==> procs[i].root != r
    ensures Sane(t, b, procs)
    ensures forall j: nat :: j < |procs| ==> SpaceOf(t.mem, procs[j]) == SpaceOf(s.mem, procs[j])
  {
    LaterImage(s, t, b, r);
    KernelMapKept(s, t, b, r);
    forall j: nat | j < |procs| ensures ProcOK(t, b, procs[j]) && SpaceOf(t.mem, procs[j]) == SpaceOf(s.mem, procs[j]) {
      assert ProcOK(s, b, procs[j]);
      LaterProc(s, t, b, r, procs[j]);
    }
  }

  /** A task page and a root, both fresh, make a new and wholly unmapped space. */
  lemma NewProc(s: Snap, t: Snap, b: Boot, procs: seq<Proc>, page: nat, root: nat, vmas: seq<Vma>)
    requires Sane(s, b, procs) && page < FRAMES && root < FRAMES && page != root
    requires FIRMWARE <= page && FIRMWARE <= root
    requires page in s.used && page !in s.owner && root in s.used && root !in s.owner
    requires t == Snap(s.mem[root := s.mem[b.kroot]], s.owner[root := Root][page := TaskPage(root)], s.used)
    requires PagesDisjoint(vmas) && forall v <- vmas :: VmaOK(v, b, s.used)
    ensures Sane(t, b, procs + [Proc(page, root, vmas)])
    ensures View(t, procs + [Proc(page, root, vmas)]) == Spawned(View(s, procs), vmas)
  {
    NewRoot(s, t, b, page, root);
    forall i: nat | i < |procs| ensures procs[i].root != root { assert ProcOK(s, b, procs[i]); }
    AllLater(s, t, b, procs, root);
    var p := Proc(page, root, vmas);
    assert ProcOK(t, b, p);
    assert PagesOf(t.mem, root) == map[];
    assert StoreOf(t) == StoreOf(s);
    NewSane(t, b, procs, p);
  }

  lemma NewRoot(s: Snap, t: Snap, b: Boot, page: nat, root: nat)
    requires Inv(s, b.kroot) && page < FRAMES && root < FRAMES && page != root
    requires FIRMWARE <= page && FIRMWARE <= root
    requires page in s.used && page !in s.owner && root in s.used && root !in s.owner
    requires t == Snap(s.mem[root := s.mem[b.kroot]], s.owner[root := Root][page := TaskPage(root)], s.used)
    ensures Inv(t, b.kroot) && Later(s, t, b, root) && root != b.kroot
    ensures forall n: nat :: n < USER_PAGES ==> Lookup(t.mem, root, PageNo(n)).None?
  {
    var o1, extra := s.owner[root := Root], map[page := TaskPage(root)];
    AddRoot(s.mem, s.owner, b.kroot, root, t.mem);
    AddOwners(t.mem, o1, b.kroot, extra);
    assert t.owner == o1 + extra;
    forall n: nat | n < USER_PAGES ensures Lookup(t.mem, root, PageNo(n)).None? {
      assert PageNo(n).v2 < 256;
    }
  }

  lemma NewSane(t: Snap, b: Boot, procs: seq<Proc>, p: Proc)
    requires Sane(t, b, procs) && ProcOK(t, b, p) && forall i: nat :: i < |procs| ==> procs[i].root != p.root
    ensures Sane(t, b, procs + [p])
  {}

  /** A store to a mapped user page changes that byte of that task's memory. */
  lemma StoreStep(s: Snap, t: Snap, b: Boot, procs: seq<Proc>, i: nat, a: nat, v: Byte)
    requires Sane(s, b, procs) && i < |procs| && a / 0x1000 < USER_PAGES
    requires Lookup(s.mem, procs[i].root, PageNo(a / 0x1000)).Some?
    requires 0 <= FrameAt(s.mem, procs[i].root, a / 0x1000) < FRAMES
    requires var f := FrameAt(s.mem, procs[i].root, a / 0x1000);
             t == s.(mem := s.mem[f := PutFrameByte(s.mem[f], a % 0x1000, v)])
    ensures Sane(t, b, procs) && WriteStep(View(s, procs), View(t, procs), i, a, v)
  {
    var f := FrameAt(s.mem, procs[i].root, a / 0x1000);
    assert ProcOK(s, b, procs[i]);
    DataChanged(s, t, b, procs, f, PutFrameByte(s.mem[f], a % 0x1000, v));
    assert f == View(s, procs).spaces[i].pages[a / 0x1000];
  }

  lemma DataChanged(s: Snap, t: Snap, b: Boot, procs: seq<Proc>, f: nat, frame: Frame)
    requires Sane(s, b, procs) && f in s.owner && s.owner[f].Data? && f < FRAMES
    requires t == s.(mem := s.mem[f := frame])
    ensures Sane(t, b, procs) && View(t, procs) == World(View(s, procs).spaces, View(s, procs).store[f := frame])
  {
    ChangeOther(s.mem, s.owner, b.kroot, f, frame);
    forall o: nat | o < |b.file| ensures FileByteAt(t, b, o) { assert FileByteAt(s, b, o); }
    forall j: nat | j < |procs| ensures ProcOK(t, b, procs[j]) && SpaceOf(t.mem, procs[j]) == SpaceOf(s.mem, procs[j]) {
      assert ProcOK(s, b, procs[j]);
      SameLookups(s, t, b, procs[j]);
    }
    forall p: VPage ensures Lookup(t.mem, b.kroot, p) == Lookup(s.mem, b.kroot, p) {}
    assert View(t, procs).spaces == View(s, procs).spaces;
    assert StoreOf(t) == StoreOf(s)[f := frame];
  }

  lemma SameLookups(s: Snap, t: Snap, b: Boot, p: Proc)
    requires ProcOK(s, b, p) && t.owner == s.owner && t.used == s.used
    requires forall n: VPage :: Lookup(t.mem, p.root, n) == Lookup(s.mem, p.root, n)
    ensures ProcOK(t, b, p) && SpaceOf(t.mem, p) == SpaceOf(s.mem, p)
  {
    hide Lookup, VmaOK, Granted;
    forall n: nat | n < USER_PAGES ensures Lookup(t.mem, p.root, PageNo(n)) == Lookup(s.mem, p.root, PageNo(n)) {}
  }
}
