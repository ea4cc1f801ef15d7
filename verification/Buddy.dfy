/** The buddy page allocator of mm.c. */
module BuddyAllocator {
  import opened Bits
  import opened Defs
  import opened BuddyTree

  const MAX_SIZE: nat := 0x4000_0000_0000_0000

  /** The tree array is a function of the set of live blocks. */
  ghost predicate Canonical(size: nat, bitmap: seq<Word>, live: set<nat>) {
    |bitmap| == 2 * size && forall i: nat :: IsNode(size, i) ==> bitmap[i] == Longest(size, live, i)
  }

  /** i lies strictly above j. */
  ghost predicate Above(i: nat, j: nat) { i != j && Under(j, i) }

  /** Pages [0, k), one leaf each. */
  ghost function FirstLeaves(size: nat, k: nat): set<nat>
    requires size > 0
  { if k == 0 then {} else FirstLeaves(size, k - 1) + {size + k - 2} }

  /** Pages that begin below the given kernel address. */
  function ReservedPages(end: Word): nat
    requires end >= VM_START
  { (end - VM_START + 0xfff) / 0x1000 }

  /** Some aligned run of n pages is free. */
  ghost predicate Fits(size: nat, live: set<nat>, n: nat)
    requires n > 0
  { exists lo :: FreeRun(size, live, lo, n) }

  ghost predicate LowestRun(size: nat, live: set<nat>, lo: int, n: nat)
    requires n > 0
  { FreeRun(size, live, lo, n) && forall k :: FreeRun(size, live, k, n) ==> lo <= k }

  class Buddy {
    const size: nat
    const bitmap: array<Word>
    ghost var live: set<nat>

    ghost predicate Valid()
      reads this, bitmap
    {
      && WellFormed(size, live) && 0 < size <= MAX_SIZE
      && Canonical(size, bitmap[..], live)
    }

    /** `buddy_init`: reserves the pages up to the end of the kernel image and
        of the tree array that is placed behind it. */
    constructor (physPages: Word, ekernel: Word)
      requires 0 < physPages <= MAX_PAGES
      requires Kva(0) <= ekernel
      requires ekernel + 16 * RoundUp(physPages) <= VM_START + 0x1000 * RoundUp(physPages)
      requires ekernel + 16 * RoundUp(physPages) < TWO_64
      ensures Valid() && fresh(bitmap) && size == RoundUp(physPages)
      ensures live == FirstLeaves(size, ReservedPages(ekernel + 16 * size))
    {
      hide WellFormed, Canonical, FirstLeaves;
      Pow2Values();
      RoundUpLeMax(physPages);
      var buddySize := RoundPages(physPages);
      size := buddySize;
      bitmap := new Word[2 * buddySize](_ => 0);
      live := {};
      new;
      Fill();
      var end := ekernel + 2 * buddySize * 8;
      assert end == ekernel + 16 * size;
      Reserve(end);
    }

    /** The reserving loop: the k-th single-page allocation returns page k. */
    method Reserve(freePageStart: Word)
      requires Valid() && live == {} && size <= MAX_PAGES
      requires VM_START <= freePageStart <= VM_START + 0x1000 * size
      modifies this, bitmap
      ensures Valid() && live == FirstLeaves(size, ReservedPages(freePageStart))
    {
      hide NodeAt, FreeRun, FirstLeaves, ReservedPages;
      ReservedInRange(size, freePageStart);
      var pfn: Word := 0;
      while Pfn2Phys(pfn) < Va2Pa(freePageStart)
        invariant pfn <= ReservedPages(freePageStart) <= size && Valid() && live == FirstLeaves(size, pfn)
        decreases ReservedPages(freePageStart) - pfn
      {
        ReserveGuard(pfn, freePageStart);
        NextLeaf(size, pfn);
        var got := BuddyAlloc(1);
        assert got == pfn;
        pfn := pfn + 1;
      }
      ReserveGuard(pfn, freePageStart);
    }

    /** The filling loop: node_size halves whenever i + 1 is a power of two. */
    method Fill()
      requires IsPow2(size) && size <= MAX_SIZE && bitmap.Length == 2 * size && live == {}
      modifies bitmap
      ensures Valid()
    {
      var nodeSize := 2 * size;
      for i := 0 to 2 * size - 1
        invariant nodeSize == SizeBefore(size, i) <= 2 * size
        invariant SizesFilled(size, bitmap[..], i)
      {
        PowerTestCorrect(i + 1);
        NextNodeSize(size, i);
        if PowerTest(i + 1) { nodeSize := nodeSize / 2; }
        ghost var before := bitmap[..];
        bitmap[i] := nodeSize;
        FilledStep(size, before, i, nodeSize);
      }
      FilledIsCanonical(size, bitmap[..]);
    }

    /** `buddy_alloc`. It fails (0) exactly when no aligned run of the rounded
        size is free, and otherwise hands out the lowest such run. */
    method BuddyAlloc(nrpages: Word) returns (pfn: Word)
      requires Valid() && nrpages <= Pow2(63)
      modifies this, bitmap
      ensures Valid()
      ensures Fits(size, old(live), RoundUp(nrpages)) ==>
                && LowestRun(size, old(live), pfn, RoundUp(nrpages))
                && live == old(live) + {NodeAt(size, pfn, RoundUp(nrpages))}
      ensures !Fits(size, old(live), RoundUp(nrpages)) ==>
                pfn == 0 && live == old(live) && bitmap[..] == old(bitmap[..])
    {
      var nr := RoundPages(nrpages);
      RootShows(size, live, nr);
      if bitmap[0] < nr { return 0; }
      var index, nodeSize := FindFit(nr);
      pfn := HandOut(index, nodeSize);
    }

    /** Lines 134 to 141 of mm.c: the node becomes a live block. */
    method HandOut(index: nat, nodeSize: nat) returns (pfn: Word)
      requires Valid() && OnDescent(size, live, index, nodeSize) && nodeSize == NodeSize(size, index)
      modifies this, bitmap
      ensures Valid() && LowestRun(size, old(live), pfn, nodeSize) && live == old(live) + {NodeAt(size, pfn, nodeSize)}
    {
      Landed(size, live, index, nodeSize);
      AfterHandingOut(size, live, index, bitmap[..]);
      bitmap[index] := 0;
      pfn := (index + 1) * nodeSize - size;
      assert pfn == NodeLo(size, index) && index == NodeAt(size, pfn, nodeSize) && LowestRun(size, live, pfn, nodeSize);
      live := live + {index};
      RepairAncestors(index);
    }

    /** The descending loop of `buddy_alloc`. */
    method FindFit(nr: nat) returns (index: nat, nodeSize: nat)
      requires Valid() && IsPow2(nr) && nr <= Longest(size, live, 0)
      ensures OnDescent(size, live, index, nr) && nodeSize == NodeSize(size, index) == nr
    {
      RootShows(size, live, nr);
      index := 0;
      nodeSize := size;
      while nodeSize != nr
        invariant nodeSize == NodeSize(size, index) && OnDescent(size, live, index, nr)
        decreases nodeSize
      {
        Descend(size, live, index, nr);
        if bitmap[Left(index)] >= nr {
          index := Left(index);
        } else {
          index := Right(index);
        }
        nodeSize := nodeSize / 2;
      }
    }

    /** The climbing loop of `buddy_alloc`. */
    method RepairAncestors(start: nat)
      requires WellFormed(size, live) && 0 < size <= MAX_SIZE && bitmap.Length == 2 * size
      requires start in live && RightExceptAbove(size, bitmap[..], live, start)
      modifies bitmap
      ensures Valid()
    {
      var index := start;
      while index != 0
        invariant IsNode(size, index) && Under(start, index)
        invariant RightExceptAbove(size, bitmap[..], live, index)
      {
        UnderParent(start, index);
        ClimbValues(size, bitmap[..], live, index);
        Repair(size, live, start, Parent(index));
        ghost var before, child := bitmap[..], index;
        index := Parent(index);
        bitmap[index] := Max(bitmap[Left(index)], bitmap[Right(index)]);
        ClimbStep(size, before, live, child, bitmap[index]);
      }
      ClimbDone(size, bitmap[..], live);
    }

    /** `buddy_free`: from any page of a live block it releases exactly that
        block. */
    method BuddyFree(pfn: Word)
      requires Valid() && PageLive(size, live, pfn)
      modifies this, bitmap
      ensures Valid()
      ensures exists b <- old(live) :: InNode(size, b, pfn) && live == old(live) - {b}
    {
      ghost var block: nat :| block in live && InNode(size, block, pfn);
      var index, nodeSize := FindBlock(pfn, block);
      AfterRelease(size, live, block, bitmap[..]);
      bitmap[index] := nodeSize;
      live := live - {block};
      Coalesce(index, nodeSize);
    }

    /** The first loop of `buddy_free`: up from the leaf to the first zero. */
    method FindBlock(pfn: Word, ghost block: nat) returns (index: nat, nodeSize: nat)
      requires Valid() && block in live && InNode(size, block, pfn)
      ensures index == block && nodeSize == NodeSize(size, block)
    {
      PageLeaf(size, block, pfn);
      nodeSize := 1;
      index := pfn + size - 1;
      while bitmap[index] != 0
        invariant IsNode(size, index) && Under(index, block) && nodeSize == NodeSize(size, index)
        decreases index
      {
        InsideLive(size, live, block, index);
        nodeSize := nodeSize * 2;
        if index == 0 { break; }
        index := Parent(index);
      }
      InsideLive(size, live, block, index);
    }

    /** The second loop of `buddy_free`. */
    method Coalesce(start: nat, startSize: nat)
      requires WellFormed(size, live) && 0 < size <= MAX_SIZE && bitmap.Length == 2 * size
      requires IsNode(size, start) && startSize == NodeSize(size, start) && NothingUnder(live, start)
      requires forall a <- live :: !Under(start, a)
      requires RightExceptAbove(size, bitmap[..], live, start)
      modifies bitmap
      ensures Valid()
    {
      var index, nodeSize := start, startSize;
      while index != 0
        invariant IsNode(size, index) && Under(start, index) && nodeSize == NodeSize(size, index)
        invariant RightExceptAbove(size, bitmap[..], live, index)
      {
        UnderParent(start, index);
        ClimbValues(size, bitmap[..], live, index);
        Recombine(size, live, start, index);
        ghost var before, child := bitmap[..], index;
        index := Parent(index);
        nodeSize := nodeSize * 2;
        var left: nat, right: nat := bitmap[Left(index)], bitmap[Right(index)];
        if left + right == nodeSize {
          bitmap[index] := nodeSize;
        } else {
          bitmap[index] := Max(left, right);
        }
        ClimbStep(size, before, live, child, bitmap[index]);
      }
      ClimbDone(size, bitmap[..], live);
    }

    /** `alloc_pages`. Page 0 being taken, address 0 reports failure and
        nothing else. */
    method AllocPages(nrpages: Word) returns (va: Word)
      requires Valid() && size <= MAX_PAGES && nrpages <= Pow2(63) && PageLive(size, live, 0)
      modifies this, bitmap
      ensures Valid() && old(LivePages(size, live)) <= LivePages(size, live)
      ensures va == 0 <==> !Fits(size, old(live), RoundUp(nrpages))
      ensures va == 0 ==> live == old(live)
      ensures va != 0 ==>
                && IsPage(va)
                && LowestRun(size, old(live), PfnOf(va), RoundUp(nrpages))
                && LivePages(size, live) == old(LivePages(size, live)) + Run(PfnOf(va), RoundUp(nrpages))
                && old(LivePages(size, live)) !! Run(PfnOf(va), RoundUp(nrpages))
    {
      var pfn := BuddyAlloc(nrpages);
      if Fits(size, old(live), RoundUp(nrpages)) { RunPages(size, old(live), pfn, RoundUp(nrpages)); }
      if pfn == 0 { return 0; }
      PageAddressRoundTrip(pfn, 0);
      va := Pa2Va(Pfn2Phys(pfn));
      assert va == Kva(pfn) && PfnOf(va) == pfn && IsPage(va);
    }

    /** `free_pages`: any address inside a live block releases that block. */
    method FreePages(va: Word)
      requires Valid() && size <= MAX_PAGES && VM_START <= va
      requires PageLive(size, live, PfnOf(va))
      modifies this, bitmap
      ensures Valid()
      ensures exists b <- old(live) :: InNode(size, b, PfnOf(va)) && live == old(live) - {b}
    {
      LivePageInRange(size, live, PfnOf(va));
      PageAddressRoundTrip(PfnOf(va), va - Kva(PfnOf(va)));
      BuddyFree(Phys2Pfn(Va2Pa(va)));
    }
  }

  // ---- pages and blocks --------------------------------------------------

  ghost function LivePages(size: nat, live: set<nat>): set<int> {
    set p | 0 <= p < size && PageLive(size, live, p)
  }

  ghost predicate InRun(lo: int, n: nat, p: int) { lo <= p < lo + n }

  ghost function Run(lo: int, n: nat): (r: set<int>)
    ensures |r| == n
  {
    var r := set p | lo <= p < lo + n && InRun(lo, n, p);
    if n == 0 then
      assert r == {};
      r
    else
      assert r == Run(lo, n - 1) + {lo + n - 1};
      r
  }

  lemma LivePageInRange(size: nat, live: set<nat>, p: int)
    requires WellFormed(size, live) && PageLive(size, live, p)
    ensures 0 <= p < size
  {
    var a :| a in live && InNode(size, a, p);
    Shape(size, a);
  }

  /** Handing out a free run adds exactly its pages, all of them unused. */
  lemma RunPages(size: nat, live: set<nat>, lo: nat, n: nat)
    requires WellFormed(size, live) && IsPow2(n) && FreeRun(size, live, lo, n)
    ensures NodeAt(size, lo, n) >= 0 && Clear(live, NodeAt(size, lo, n))
    ensures LivePages(size, live + {NodeAt(size, lo, n)}) == LivePages(size, live) + Run(lo, n)
    ensures LivePages(size, live) !! Run(lo, n)
    ensures PageLive(size, live, 0) ==> lo != 0
  {
    RunIsNode(size, lo, n);
    FreeRunIffClear(size, live, NodeAt(size, lo, n));
    hide FreeRun, NodeAt, Clear, WellFormed;
    var live' := live + {NodeAt(size, lo, n)};
    forall p | 0 <= p < size ensures PageLive(size, live', p) <==> PageLive(size, live, p) || p in Run(lo, n) {
      assert p in Run(lo, n) <==> InNode(size, NodeAt(size, lo, n), p);
    }
  }

  /** Live blocks are aligned to their power-of-two length, lie inside the
      managed range and share no page. */
  lemma BlocksApart(size: nat, live: set<nat>, a: nat, b: nat)
    requires WellFormed(size, live) && a in live && b in live
    ensures IsPow2(NodeSize(size, a)) && NodeLo(size, a) % NodeSize(size, a) == 0
    ensures NodeLo(size, a) + NodeSize(size, a) <= size
    ensures a != b ==> forall p :: !(InNode(size, a, p) && InNode(size, b, p))
  {
    Shape(size, a);
    NodeIsRun(size, a);
    forall p | InNode(size, a, p) && InNode(size, b, p) ensures a == b {
      SharedPage(size, a, b, p);
    }
  }

  ghost function Pick(s: set<nat>): (a: nat)
    requires s != {}
    ensures a in s
  { var a :| a in s; a }

  ghost function TotalSize(size: nat, live: set<nat>): nat {
    if live == {} then 0 else NodeSize(size, Pick(live)) + TotalSize(size, live - {Pick(live)})
  }

  lemma {:induction false} LivePagesCounted(size: nat, live: set<nat>)
    requires WellFormed(size, live)
    ensures |LivePages(size, live)| == TotalSize(size, live)
  {
    hide Under, NodeLo, NodeSize;
    if live != {} {
      var a := Pick(live);
      var rest := live - {a};
      LivePagesCounted(size, rest);
      Shape(size, a);
      NodeIsRun(size, a);
      FreeRunIffClear(size, rest, a);
      RunPages(size, rest, NodeLo(size, a), NodeSize(size, a));
      assert rest + {a} == live;
    } else {
      assert LivePages(size, live) == {};
    }
  }

  /** Live and free pages always total `size`, and the live ones are counted
      by the sizes of the live blocks. */
  lemma PagesConserved(size: nat, live: set<nat>)
    requires WellFormed(size, live)
    ensures |LivePages(size, live)| == TotalSize(size, live)
    ensures TotalSize(size, live) + |Run(0, size) - LivePages(size, live)| == size
  {
    LivePagesCounted(size, live);
    assert Run(0, size) == LivePages(size, live) + (Run(0, size) - LivePages(size, live));
  }

  /** The tree array does not depend on the history that led to the live set. */
  lemma HistoryIndependent(size: nat, live: set<nat>, one: seq<Word>, other: seq<Word>)
    requires size > 0 && Canonical(size, one, live) && Canonical(size, other, live)
    ensures one[..2 * size - 1] == other[..2 * size - 1]
  {
    forall i: nat | i < 2 * size - 1 ensures one[i] == other[i] {
      assert IsNode(size, i);
    }
  }

  /** Freeing any page of a block just allocated restores the array exactly. */
  lemma AllocThenFreeRestores(size: nat, live: set<nat>, lo: nat, n: nat, p: int, freed: nat,
                              before: seq<Word>, after: seq<Word>)
    requires WellFormed(size, live) && IsPow2(n) && FreeRun(size, live, lo, n) && Canonical(size, before, live)
    requires lo <= p < lo + n && NodeAt(size, lo, n) >= 0
    requires freed in live + {NodeAt(size, lo, n)} && InNode(size, freed, p)
    requires Canonical(size, after, live + {NodeAt(size, lo, n)} - {freed})
    ensures freed == NodeAt(size, lo, n) && after[..2 * size - 1] == before[..2 * size - 1]
  {
    RunIsNode(size, lo, n);
    assert freed == NodeAt(size, lo, n) by {
      assert !PageLive(size, live, p);
    }
    RunPages(size, live, lo, n);
    assert live + {freed} - {freed} == live by { assert Under(freed, freed); }
    HistoryIndependent(size, live, before, after);
  }

  /** Once every block is freed the root shows the whole range again. */
  lemma AllFreed(size: nat, bitmap: seq<Word>)
    requires IsPow2(size) && Canonical(size, bitmap, {})
    ensures bitmap[0] == size
  {
    FullIffNothingUnder(size, {}, 0);
  }

  // ---- proof steps -------------------------------------------------------

  lemma RoundUpLeMax(n: nat)
    requires n <= MAX_PAGES
    ensures RoundUp(n) <= MAX_PAGES
  {
    Pow2Values();
    Pow2Add(16, 9);
    assert IsPow2(MAX_PAGES) by { assert MAX_PAGES == Pow2(25); }
    RoundUpLeast(n, MAX_PAGES);
  }

  ghost function SizeBefore(size: nat, i: nat): nat { if i == 0 then 2 * size else NodeSize(size, i - 1) }

  ghost predicate SizesFilled(size: nat, bitmap: seq<Word>, n: nat) {
    n <= |bitmap| && forall j: nat :: j < n ==> bitmap[j] == NodeSize(size, j)
  }

  lemma FilledStep(size: nat, bitmap: seq<Word>, i: nat, v: Word)
    requires SizesFilled(size, bitmap, i) && i < |bitmap| && v == NodeSize(size, i)
    ensures SizesFilled(size, bitmap[i := v], i + 1)
  {
    var after := bitmap[i := v];
    forall j: nat | j < i + 1 ensures after[j] == NodeSize(size, j) {}
  }

  /** With nothing allocated every node shows its full size. */
  lemma FilledIsCanonical(size: nat, bitmap: seq<Word>)
    requires IsPow2(size) && |bitmap| == 2 * size && SizesFilled(size, bitmap, 2 * size - 1)
    ensures Canonical(size, bitmap, {})
  {
    forall i: nat | IsNode(size, i) ensures bitmap[i] == Longest(size, {}, i) {
      FullIffNothingUnder(size, {}, i);
    }
  }

  lemma NextNodeSize(size: nat, i: nat)
    requires IsPow2(size) && IsNode(size, i)
    ensures NodeSize(size, i) == SizeBefore(size, i + 1)
    ensures SizeBefore(size, i + 1) == if IsPow2(i + 1) then SizeBefore(size, i) / 2 else SizeBefore(size, i)
  {
    if i == 0 {
      assert IsPow2(i + 1) by { assert 1 == Pow2(0); }
    } else {
      var h: nat :| size == Pow2(h);
      DepthBounds(i);
      DepthBounds(i - 1);
      if Depth(i) > h { Pow2Mono(h + 1, Depth(i)); }
      if IsPow2(i + 1) {
        var k: nat :| i + 1 == Pow2(k);
        DepthUnique(i, k);
        DepthUnique(i - 1, k - 1);
      } else {
        assert i + 1 != Pow2(Depth(i));
        DepthUnique(i - 1, Depth(i));
      }
      NodeSizeIsPow2(h, i);
      NodeSizeIsPow2(h, i - 1);
    }
  }

  lemma ReservedInRange(size: nat, end: Word)
    requires size > 0 && VM_START <= end <= VM_START + 0x1000 * size
    ensures ReservedPages(end) <= size && FirstLeaves(size, 0) == {}
  {}

  lemma ReserveGuard(pfn: Word, end: Word)
    requires VM_START <= end <= VM_START + 0x1000 * MAX_PAGES && pfn <= MAX_PAGES
    ensures Pfn2Phys(pfn) < Va2Pa(end) <==> pfn < ReservedPages(end)
  {
    assert Pfn2Phys(pfn) == 0x1000 * pfn + PHY_START;
    assert Va2Pa(end) == end - PA2VA_OFFSET;
  }

  /** With pages 0..k-1 taken singly, page k is the lowest free one. */
  lemma NextLeaf(size: nat, k: nat)
    requires IsPow2(size) && k < size
    ensures LowestRun(size, FirstLeaves(size, k), k, 1)
    ensures FirstLeaves(size, k) + {NodeAt(size, k, 1)} == FirstLeaves(size, k + 1)
    ensures RoundUp(1) == 1
  {
    assert IsPow2(1) by { assert 1 == Pow2(0); }
    LeavesPages(size, k);
    LeafNode(size, k);
    forall lo | FreeRun(size, FirstLeaves(size, k), lo, 1) ensures k <= lo {
      assert !PageLive(size, FirstLeaves(size, k), lo);
    }
  }

  lemma LeafNode(size: nat, p: nat)
    requires IsPow2(size) && p < size
    ensures IsNode(size, p + size - 1) && NodeAt(size, p, 1) == p + size - 1
    ensures NodeLo(size, p + size - 1) == p && NodeSize(size, p + size - 1) == 1
  {
    assert IsPow2(1) by { assert 1 == Pow2(0); }
    RunIsNode(size, p, 1);
  }

  lemma {:induction false} LeavesPages(size: nat, k: nat)
    requires IsPow2(size) && k <= size
    ensures forall p :: PageLive(size, FirstLeaves(size, k), p) <==> 0 <= p < k
  {
    if k > 0 {
      LeavesPages(size, k - 1);
      LeafNode(size, k - 1);
      forall p ensures PageLive(size, FirstLeaves(size, k), p) <==> 0 <= p < k {
        assert PageLive(size, FirstLeaves(size, k), p) <==>
          PageLive(size, FirstLeaves(size, k - 1), p) || InNode(size, size + k - 2, p);
      }
    }
  }

  /** The root shows every free run. */
  lemma RootShows(size: nat, live: set<nat>, n: nat)
    requires WellFormed(size, live) && IsPow2(n)
    ensures Longest(size, live, 0) < n ==> forall lo :: !FreeRun(size, live, lo, n)
    ensures n <= Longest(size, live, 0) ==> n <= size && forall a <- live :: !Under(0, a)
  {
    LongestBound(size, live, 0);
    forall lo | FreeRun(size, live, lo, n) ensures Longest(size, live, 0) >= n {
      ShownBy(size, live, lo, n, 0);
    }
  }

  /** A free run inside node i is reflected in the value of i. */
  lemma ShownBy(size: nat, live: set<nat>, lo: nat, n: nat, i: nat)
    requires WellFormed(size, live) && IsPow2(n) && FreeRun(size, live, lo, n)
    requires IsNode(size, i) && InNode(size, i, lo) && n <= NodeSize(size, i)
    ensures Longest(size, live, i) >= n
  {
    RunIsNode(size, lo, n);
    var j := NodeAt(size, lo, n);
    FreeRunIffClear(size, live, j);
    Laminar(size, j, i);
    LongestCovers(size, live, j, i);
  }

  /** Where the descent may stand: on a node that shows a fit, not inside a
      live block, with no free run to its left. */
  ghost predicate OnDescent(size: nat, live: set<nat>, i: nat, n: nat) {
    && IsNode(size, i) && n <= NodeSize(size, i) && Longest(size, live, i) >= n
    && (forall a <- live :: !Under(i, a))
    && n > 0 && forall lo :: FreeRun(size, live, lo, n) ==> NodeLo(size, i) <= lo
  }

  function Chosen(left: nat, n: nat, i: nat): nat { if left >= n then Left(i) else Right(i) }

  lemma DescendFits(size: nat, live: set<nat>, i: nat, n: nat)
    requires WellFormed(size, live) && IsPow2(n) && IsNode(size, i) && i !in live
    requires n <= NodeSize(size, i) && n != NodeSize(size, i) && Longest(size, live, i) >= n
    ensures i + 1 < size && NodeSize(size, i) / 2 >= n
    ensures Longest(size, live, Chosen(Longest(size, live, Left(i)), n, i)) >= n
  {
    SizeShape(size, i);
    HalfOfPow2(n, NodeSize(size, i));
    Children(size, i);
    LongestBound(size, live, Left(i));
    LongestBound(size, live, Right(i));
  }

  /** One step of the descent keeps a fitting child and loses no lower run. */
  lemma Descend(size: nat, live: set<nat>, i: nat, n: nat)
    requires WellFormed(size, live) && IsPow2(n) && OnDescent(size, live, i, n) && n != NodeSize(size, i)
    ensures IsNode(size, Left(i)) && IsNode(size, Right(i))
    ensures NodeSize(size, Left(i)) == NodeSize(size, Right(i)) == NodeSize(size, i) / 2
    ensures OnDescent(size, live, Chosen(Longest(size, live, Left(i)), n, i), n)
  {
    assert i !in live by { assert Under(i, i); }
    DescendFits(size, live, i, n);
    Children(size, i);
    var c := Chosen(Longest(size, live, Left(i)), n, i);
    assert Parent(c) == i;
    forall a <- live ensures !Under(c, a) {
      assert Longest(size, live, c) > 0;
    }
    forall lo | FreeRun(size, live, lo, n) ensures NodeLo(size, c) <= lo {
      if lo < NodeLo(size, c) { ShownBy(size, live, lo, n, Left(i)); }
    }
  }

  /** Where the descent stops, it stands on the lowest free run. */
  lemma Landed(size: nat, live: set<nat>, i: nat, n: nat)
    requires WellFormed(size, live) && OnDescent(size, live, i, n) && n == NodeSize(size, i)
    ensures Clear(live, i) && FreeRun(size, live, NodeLo(size, i), n)
    ensures (i + 1) * n - size == NodeLo(size, i) && NodeAt(size, NodeLo(size, i), n) == i
  {
    LongestBound(size, live, i);
    FullIffNothingUnder(size, live, i);
    Shape(size, i);
    NodeIsRun(size, i);
    FreeRunIffClear(size, live, i);
  }

  /** All values are right except possibly above `index`. */
  ghost predicate RightExceptAbove(size: nat, bitmap: seq<Word>, live: set<nat>, index: nat) {
    |bitmap| == 2 * size && forall i: nat :: IsNode(size, i) && !Above(i, index) ==> bitmap[i] == Longest(size, live, i)
  }

  lemma ClimbStep(size: nat, bitmap: seq<Word>, live: set<nat>, index: nat, v: Word)
    requires IsNode(size, index) && index > 0 && RightExceptAbove(size, bitmap, live, index)
    requires v == Longest(size, live, Parent(index))
    ensures RightExceptAbove(size, bitmap[Parent(index) := v], live, Parent(index))
  {
    forall i: nat | IsNode(size, i) && !Above(i, Parent(index)) && i != Parent(index)
      ensures !Above(i, index)
    {}
  }

  lemma ClimbDone(size: nat, bitmap: seq<Word>, live: set<nat>)
    requires RightExceptAbove(size, bitmap, live, 0)
    ensures Canonical(size, bitmap, live)
  {}

  lemma UnderParent(t: nat, i: nat)
    requires Under(t, i) && i > 0
    ensures Under(t, Parent(i))
  {
    UnderTrans(t, i, Parent(i));
  }

  lemma AfterHandingOut(size: nat, live: set<nat>, t: nat, bitmap: seq<Word>)
    requires WellFormed(size, live) && IsNode(size, t) && Clear(live, t) && Canonical(size, bitmap, live)
    ensures WellFormed(size, live + {t})
    ensures RightExceptAbove(size, bitmap[t := 0], live + {t}, t)
  {
    forall i: nat | IsNode(size, i) && !Above(i, t)
      ensures bitmap[t := 0][i] == Longest(size, live + {t}, i)
    {
      if i != t { LongestFrame(size, live, live + {t}, i); }
    }
  }

  /** The children of the parent are outside the part still to be repaired. */
  lemma ClimbValues(size: nat, bitmap: seq<Word>, live: set<nat>, index: nat)
    requires IsNode(size, index) && index > 0 && RightExceptAbove(size, bitmap, live, index)
    ensures IsNode(size, Left(Parent(index))) && IsNode(size, Right(Parent(index)))
    ensures bitmap[Left(Parent(index))] == Longest(size, live, Left(Parent(index)))
    ensures bitmap[Right(Parent(index))] == Longest(size, live, Right(Parent(index)))
  {
    var p := Parent(index);
    forall c: nat | c == Left(p) || c == Right(p) ensures !Above(c, index) {
      if Under(p, c) { UnderSmaller(p, c); }
    }
  }

  /** Above a live block a node is the better of its halves: they are not both
      full. */
  lemma Repair(size: nat, live: set<nat>, t: nat, i: nat)
    requires WellFormed(size, live) && t in live && Above(i, t) && IsNode(size, i)
    ensures IsNode(size, Left(i)) && IsNode(size, Right(i))
    ensures Longest(size, live, i) == Max(Longest(size, live, Left(i)), Longest(size, live, Right(i)))
  {
    UnderNested(size, t, i);
    SizeShape(size, t);
    SizeShape(size, i);
    FullIffNothingUnder(size, live, i);
    LongestBound(size, live, i);
    Children(size, i);
  }

  lemma PageLeaf(size: nat, b: nat, p: nat)
    requires IsPow2(size) && IsNode(size, b) && InNode(size, b, p)
    ensures p < size && IsNode(size, p + size - 1)
    ensures Under(p + size - 1, b) && NodeSize(size, p + size - 1) == 1
  {
    Shape(size, b);
    LeafNode(size, p);
    Laminar(size, p + size - 1, b);
  }

  /** Inside a live block everything still shows its full size. */
  lemma InsideLive(size: nat, live: set<nat>, b: nat, i: nat)
    requires WellFormed(size, live) && b in live && IsNode(size, i) && Under(i, b)
    ensures Longest(size, live, i) == if i == b then 0 else NodeSize(size, i)
    ensures NodeSize(size, i) > 0
    ensures i != b ==> i > 0 && Under(Parent(i), b) && NodeSize(size, Parent(i)) == 2 * NodeSize(size, i)
  {
    SizeShape(size, i);
    if i != b {
      Children(size, Parent(i));
      forall a <- live ensures !Under(a, i) {
        if Under(a, i) {
          UnderTrans(a, i, b);
          UnderSmaller(a, i);
        }
      }
      FullIffNothingUnder(size, live, i);
    }
  }

  lemma AfterRelease(size: nat, live: set<nat>, b: nat, bitmap: seq<Word>)
    requires WellFormed(size, live) && b in live && size <= MAX_SIZE && Canonical(size, bitmap, live)
    ensures WellFormed(size, live - {b}) && NodeSize(size, b) <= size
    ensures RightExceptAbove(size, bitmap[b := NodeSize(size, b)], live - {b}, b)
  {
    Shape(size, b);
    FullIffNothingUnder(size, live - {b}, b);
    forall i: nat | IsNode(size, i) && !Above(i, b)
      ensures bitmap[b := NodeSize(size, b)][i] == Longest(size, live - {b}, i)
    {
      if i != b { LongestFrame(size, live, live - {b}, i); }
    }
  }

  /** Above a released block a node is recomputed from its halves. */
  lemma Recombine(size: nat, live: set<nat>, b: nat, index: nat)
    requires WellFormed(size, live) && IsNode(size, b) && Under(b, index) && index > 0 && IsNode(size, index)
    requires forall a <- live :: !Under(b, a)
    ensures NodeSize(size, Parent(index)) == 2 * NodeSize(size, index) <= size
    ensures Longest(size, live, Parent(index)) ==
            Combine(NodeSize(size, Parent(index)), Longest(size, live, Left(Parent(index))),
              Longest(size, live, Right(Parent(index))))
  {
    UnderParent(b, index);
    Shape(size, Parent(index));
    Children(size, Parent(index));
  }
}
