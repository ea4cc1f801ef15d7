/** What user programs can see: address spaces with lazily mapped pages, the
    steps the kernel takes on them, and the eager memory they are equivalent to. */
module World {
  import opened Bits
  import opened Defs
  import opened Sv39
  import opened Bytes

  const VM_ANONYM: Word := 1
  const VM_R_MASK: Word := 2
  const VM_W_MASK: Word := 4
  const VM_X_MASK: Word := 8

  /** `struct vm_area_struct`. */
  datatype Vma = Vma(start: Word, end: Word, flags: Word, offset: Word, fileSize: Word)

  predicate Anonymous(v: Vma) { And(v.flags, VM_ANONYM) != 0 }

  function FirstPage(v: Vma): nat { v.start / 0x1000 }

  function EndPage(v: Vma): nat { (v.end + 0xfff) / 0x1000 }

  predicate HasPage(v: Vma, n: nat) { FirstPage(v) <= n < EndPage(v) }

  predicate HasAddr(v: Vma, a: int) { v.start <= a < v.end }

  /** The file, byte by byte. */
  type File = seq<Byte>

  /** Where address a of a file-backed area lies in the file. */
  function FileOffset(v: Vma, a: nat): int { v.offset + (a - v.start) }

  /** Addresses on the area's pages whose first contents the area determines: all
      of an anonymous area, and what lies in the file of a file-backed one. The
      kernel copies whole file pages and never looks at fileSize. */
  predicate Covered(file: File, v: Vma, a: nat) { Anonymous(v) || 0 <= FileOffset(v, a) < |file| }

  function InitialByte(file: File, v: Vma, a: nat): Byte {
    if Anonymous(v) || !(0 <= FileOffset(v, a) < |file|) then 0 else file[FileOffset(v, a)]
  }

  /** `find_vma`: the first area containing the address. */
  function FindVma(vmas: seq<Vma>, a: nat): (r: Option<nat>)
    ensures r.Some? ==> r.value < |vmas| && HasAddr(vmas[r.value], a)
    ensures r.None? ==> forall k: nat :: k < |vmas| ==> !HasAddr(vmas[k], a)
  {
    if vmas == [] then None
    else if HasAddr(vmas[0], a) then Some(0)
    else match FindVma(vmas[1..], a) { case None => None case Some(k) => Some(k + 1) }
  }

  /** The area that owns page n. */
  function AreaOf(vmas: seq<Vma>, n: nat): (r: Option<nat>)
    ensures r.Some? ==> r.value < |vmas| && HasPage(vmas[r.value], n)
    ensures r.None? ==> forall k: nat :: k < |vmas| ==> !HasPage(vmas[k], n)
  {
    if vmas == [] then None
    else if HasPage(vmas[0], n) then Some(0)
    else match AreaOf(vmas[1..], n) { case None => None case Some(k) => Some(k + 1) }
  }

  ghost predicate PagesDisjoint(vmas: seq<Vma>) {
    forall i: nat, j: nat, n: nat ::
      i < |vmas| && j < |vmas| && HasPage(vmas[i], n) && HasPage(vmas[j], n) ==> i == j
  }

  /** An address space: its areas, and the frame behind each mapped page. */
  datatype Space = Space(vmas: seq<Vma>, pages: map<nat, nat>)

  datatype World = World(spaces: seq<Space>, store: map<nat, Frame>)

  ghost predicate HasFrame(w: World, i: nat, n: nat, f: nat) {
    i < |w.spaces| && n in w.spaces[i].pages && w.spaces[i].pages[n] == f
  }

  /** The page of address a is mapped in space i. */
  ghost predicate Present(w: World, i: nat, a: nat) { i < |w.spaces| && a / 0x1000 in w.spaces[i].pages }

  /** The page is mapped, or a fault would bring it in. */
  ghost predicate Reachable(w: World, i: nat, a: nat) {
    i < |w.spaces| && (Present(w, i, a) || FindVma(w.spaces[i].vmas, a).Some?)
  }

  /** No frame serves two pages, pages lie inside areas, and an anonymous area
      is mapped wholly or not at all. */
  ghost predicate Sound(w: World) {
    && (forall i: nat, n: nat, f: nat :: HasFrame(w, i, n, f) ==> f in w.store)
    && (forall i: nat, j: nat, n: nat, m: nat, f: nat :: HasFrame(w, i, n, f) && HasFrame(w, j, m, f) ==>
       i == j && n == m)
    && (forall i: nat :: i < |w.spaces| ==> SpaceOK(w.spaces[i]))
  }

  ghost predicate SpaceOK(s: Space) {
    && PagesDisjoint(s.vmas)
    && (forall n <- s.pages :: exists k: nat :: k < |s.vmas| && HasPage(s.vmas[k], n))
    && WholeOrNot(s.vmas, s.pages.Keys)
  }

  ghost predicate WholeOrNot(vmas: seq<Vma>, keys: set<nat>) {
    forall k: nat, n: nat, m: nat ::
      k < |vmas| && Anonymous(vmas[k]) && HasPage(vmas[k], n) && HasPage(vmas[k], m) && n in keys ==> m in keys
  }

  /** The memory a program sees: the mapped byte, or what a fault would bring. */
  ghost function Peek(file: File, w: World, i: nat, a: nat): Byte
    requires Sound(w) && i < |w.spaces|
  {
    var s := w.spaces[i];
    if a / 0x1000 in s.pages then
      assert HasFrame(w, i, a / 0x1000, s.pages[a / 0x1000]);
      FrameByte(w.store[s.pages[a / 0x1000]], a % 0x1000)
    else InitialAt(file, s.vmas, a)
  }

  ghost function InitialAt(file: File, vmas: seq<Vma>, a: nat): Byte {
    match AreaOf(vmas, a / 0x1000) { case None => 0 case Some(k) => InitialByte(file, vmas[k], a) }
  }

  ghost predicate CoveredAt(file: File, vmas: seq<Vma>, a: nat) {
    AreaOf(vmas, a / 0x1000).Some? && Covered(file, vmas[AreaOf(vmas, a / 0x1000).value], a)
  }

  // ---- segments --------------------------------------------------------------

  /** What the program header promises at an address of its segment: the file's
      bytes up to p_filesz, zeros behind. */
  function SegmentByte(file: File, v: Vma, a: nat): Byte
    requires HasAddr(v, a)
  { if a - v.start < v.fileSize && FileOffset(v, a) < |file| then file[FileOffset(v, a)] else 0 }

  /** Offset o belongs to the segment's memory on the given pages, behind its file
      bytes. */
  ghost predicate BehindFileSize(v: Vma, pages: set<nat>, o: int) {
    v.offset + v.fileSize <= o < v.offset + v.end - v.start && (v.start + o - v.offset) / 0x1000 in pages
  }

  /** The fault handler copies whole pages without looking at p_filesz. When the
      segment's memory, laid over the given bytes, ends inside them, the program
      finds what the header promises on a set of pages exactly if the bytes behind
      p_filesz are zeros there. */
  lemma ZeroFillIff(file: File, vmas: seq<Vma>, k: nat, pages: set<nat>)
    requires PagesDisjoint(vmas) && k < |vmas| && !Anonymous(vmas[k])
    requires vmas[k].start < vmas[k].end ==> vmas[k].offset + vmas[k].end - vmas[k].start <= |file|
    ensures var v := vmas[k];
            (forall a: nat :: HasAddr(v, a) && a / 0x1000 in pages ==>
               InitialAt(file, vmas, a) == SegmentByte(file, v, a))
            <==> forall o: nat :: BehindFileSize(v, pages, o) ==> file[o] == 0
  {
    hide InitialAt, Anonymous, CoveredAt, PagesDisjoint, HasPage, SegmentByte, FileOffset;
    var v := vmas[k];
    if forall a: nat :: HasAddr(v, a) && a / 0x1000 in pages ==> InitialAt(file, vmas, a) == SegmentByte(file, v, a) {
      forall o: nat | BehindFileSize(v, pages, o) ensures file[o] == 0 {
        var a := AtOffset(v, pages, o);
        ZeroHere(file, vmas, k, pages, a);
      }
    }
    if forall o: nat :: BehindFileSize(v, pages, o) ==> file[o] == 0 {
      forall a: nat | HasAddr(v, a) && a / 0x1000 in pages ensures InitialAt(file, vmas, a) == SegmentByte(file, v, a) {
        ZeroHere(file, vmas, k, pages, a);
      }
    }
  }

  lemma AtOffset(v: Vma, pages: set<nat>, o: nat) returns (a: nat)
    requires BehindFileSize(v, pages, o)
    ensures HasAddr(v, a) && a / 0x1000 in pages && FileOffset(v, a) == o
  {
    a := v.start + o - v.offset;
  }

  lemma ZeroHere(file: File, vmas: seq<Vma>, k: nat, pages: set<nat>, a: nat)
    requires PagesDisjoint(vmas) && k < |vmas| && !Anonymous(vmas[k]) && HasAddr(vmas[k], a) && a / 0x1000 in pages
    requires vmas[k].offset + vmas[k].end - vmas[k].start <= |file|
    ensures var v := vmas[k]; var o := FileOffset(v, a);
            && 0 <= o < |file|
            && (InitialAt(file, vmas, a) == SegmentByte(file, v, a) <==> BehindFileSize(v, pages, o) ==> file[o] == 0)
  {
    hide InitialAt;
    InitialInside(file, vmas, k, a);
    assert vmas[k].start + FileOffset(vmas[k], a) - vmas[k].offset == a;
  }

  lemma InitialInside(file: File, vmas: seq<Vma>, k: nat, a: nat)
    requires PagesDisjoint(vmas) && k < |vmas| && !Anonymous(vmas[k]) && HasAddr(vmas[k], a)
    requires 0 <= FileOffset(vmas[k], a) < |file|
    ensures CoveredAt(file, vmas, a) && InitialAt(file, vmas, a) == file[FileOffset(vmas[k], a)]
  {
    assert HasPage(vmas[k], a / 0x1000);
    assert AreaOf(vmas, a / 0x1000) == Some(k);
  }

  /** Knowing more of the bytes behind the areas says more. */
  lemma FaultStepPrefix(file: File, more: File, w: World, w': World, i: nat, added: map<nat, nat>)
    requires file <= more && FaultStep(more, w, w', i, added)
    ensures FaultStep(file, w, w', i, added)
  {
    hide WholeOrNot, Anonymous, HasPage;
    forall n <- added ensures InitialPage(file, w.spaces[i].vmas, n, w'.store[added[n]]) {
      var vmas, frame := w.spaces[i].vmas, w'.store[added[n]];
      var k: nat :| k < |vmas| && HasPage(vmas[k], n) && ShowsInitial(more, vmas[k], n, frame);
      assert ShowsInitial(file, vmas[k], n, frame);
    }
  }

  // ---- steps ---------------------------------------------------------------

  /** Pages are added to space i, on frames not used by anyone before. */
  ghost predicate PagedIn(w: World, w': World, i: nat, added: map<nat, nat>) {
    && i < |w.spaces| && added.Keys !! w.spaces[i].pages.Keys
    && w'.spaces == w.spaces[i := w.spaces[i].(pages := w.spaces[i].pages + added)]
    && (forall n <- added :: added[n] !in w.store && added[n] in w'.store)
    && (forall n <- added, m <- added :: added[n] == added[m] ==> n == m)
    && (forall f <- w.store :: f in w'.store && w'.store[f] == w.store[f])
  }

  /** A frame holds what the area initially has on page n. */
  ghost predicate ShowsInitial(file: File, v: Vma, n: nat, frame: Frame) {
    forall o: nat :: o < 0x1000 && Covered(file, v, 0x1000 * n + o) ==>
      FrameByte(frame, o) == InitialByte(file, v, 0x1000 * n + o)
  }

  /** A frame holds the initial contents of the area that owns page n. */
  ghost predicate InitialPage(file: File, vmas: seq<Vma>, n: nat, frame: Frame) {
    exists k: nat :: k < |vmas| && HasPage(vmas[k], n) && ShowsInitial(file, vmas[k], n, frame)
  }

  /** A page fault: unmapped pages of one area appear with their initial
      contents, all of them if the area is anonymous. */
  ghost predicate FaultStep(file: File, w: World, w': World, i: nat, added: map<nat, nat>) {
    && PagedIn(w, w', i, added) && WholeOrNot(w.spaces[i].vmas, added.Keys)
    && forall n <- added :: InitialPage(file, w.spaces[i].vmas, n, w'.store[added[n]])
  }

  /** A store instruction to a mapped page. */
  ghost predicate WriteStep(w: World, w': World, i: nat, a: nat, b: Byte) {
    && i < |w.spaces| && a / 0x1000 in w.spaces[i].pages && w.spaces[i].pages[a / 0x1000] in w.store
    && var f := w.spaces[i].pages[a / 0x1000];
       w' == World(w.spaces, w.store[f := PutFrameByte(w.store[f], a % 0x1000, b)])
  }

  /** A new, wholly unmapped address space. */
  ghost function Spawned(w: World, vmas: seq<Vma>): World {
    World(w.spaces + [Space(vmas, map[])], w.store)
  }

  /** Fork: the child has the parent's areas and a copy of every mapped page. */
  ghost predicate ForkStep(w: World, w': World, i: nat, copies: map<nat, nat>) {
    && i < |w.spaces| && copies.Keys == w.spaces[i].pages.Keys
    && PagedIn(Spawned(w, w.spaces[i].vmas), w', |w.spaces|, copies)
    && forall n <- copies :: w.spaces[i].pages[n] in w.store && w'.store[copies[n]] == w.store[w.spaces[i].pages[n]]
  }

  // ---- what the steps preserve ----------------------------------------------

  /** Adding pages keeps frames apart and all other bytes as they were. */
  lemma PagedInKeeps(file: File, w: World, w': World, i: nat, added: map<nat, nat>)
    requires Sound(w) && PagedIn(w, w', i, added) && WholeOrNot(w.spaces[i].vmas, w'.spaces[i].pages.Keys)
    requires forall n <- added :: exists k: nat :: k < |w.spaces[i].vmas| && HasPage(w.spaces[i].vmas[k], n)
    ensures Sound(w') && |w'.spaces| == |w.spaces|
    ensures forall j: nat, a: nat :: j < |w.spaces| && (j != i || a / 0x1000 !in added) ==>
              Peek(file, w', j, a) == Peek(file, w, j, a)
  {
    forall j: nat, n: nat, f: nat | HasFrame(w', j, n, f) ensures f in w'.store {
      assert HasFrame(w, j, n, f) || (j == i && n in added);
    }
    forall j: nat, k: nat, n: nat, m: nat, f: nat | HasFrame(w', j, n, f) && HasFrame(w', k, m, f)
      ensures j == k && n == m
    {
      assert HasFrame(w, j, n, f) || (j == i && n in added && added[n] == f);
      assert HasFrame(w, k, m, f) || (k == i && m in added && added[m] == f);
    }
    assert SpaceOK(w'.spaces[i]) by { assert SpaceOK(w.spaces[i]); }
    forall j: nat | j < |w'.spaces| ensures SpaceOK(w'.spaces[j]) {}
    forall j: nat, a: nat | j < |w.spaces| && (j != i || a / 0x1000 !in added)
      ensures Peek(file, w', j, a) == Peek(file, w, j, a)
    {
      if a / 0x1000 in w.spaces[j].pages { assert HasFrame(w, j, a / 0x1000, w.spaces[j].pages[a / 0x1000]); }
    }
  }

  /** Servicing a fault changes nothing any program can see. */
  lemma FaultInvisible(file: File, w: World, w': World, i: nat, added: map<nat, nat>)
    requires Sound(w) && FaultStep(file, w, w', i, added)
    ensures Sound(w') && |w'.spaces| == |w.spaces|
    ensures forall j: nat, a: nat :: j < |w.spaces| && (j != i || a / 0x1000 in w.spaces[i].pages) ==>
              Peek(file, w', j, a) == Peek(file, w, j, a)
    ensures forall a: nat :: CoveredAt(file, w.spaces[i].vmas, a) ==> Peek(file, w', i, a) == Peek(file, w, i, a)
  {
    var vmas := w.spaces[i].vmas;
    assert SpaceOK(w.spaces[i]);
    PagedInKeeps(file, w, w', i, added);
    forall a: nat | CoveredAt(file, vmas, a) ensures Peek(file, w', i, a) == Peek(file, w, i, a) {
      if a / 0x1000 in added { InitialPageByte(file, vmas, a, w'.store[added[a / 0x1000]]); }
    }
  }

  lemma InitialPageByte(file: File, vmas: seq<Vma>, a: nat, frame: Frame)
    requires PagesDisjoint(vmas) && CoveredAt(file, vmas, a) && InitialPage(file, vmas, a / 0x1000, frame)
    ensures FrameByte(frame, a % 0x1000) == InitialAt(file, vmas, a)
  {
    var n := a / 0x1000;
    var k: nat :| k < |vmas| && HasPage(vmas[k], n) && ShowsInitial(file, vmas[k], n, frame);
    assert AreaOf(vmas, n) == Some(k);
    assert 0x1000 * n + a % 0x1000 == a;
  }

  /** A store is seen by its own program at its own address only. */
  lemma WriteVisible(file: File, w: World, w': World, i: nat, a: nat, b: Byte)
    requires Sound(w) && WriteStep(w, w', i, a, b)
    ensures Sound(w') && |w'.spaces| == |w.spaces|
    ensures forall j: nat, x: nat :: j < |w.spaces| ==>
              Peek(file, w', j, x) == if j == i && x == a then b else Peek(file, w, j, x)
  {
    var f := w.spaces[i].pages[a / 0x1000];
    forall j: nat, n: nat, g: nat ensures HasFrame(w', j, n, g) <==> HasFrame(w, j, n, g) {}
    assert Sound(w');
    forall j: nat, x: nat | j < |w.spaces|
      ensures Peek(file, w', j, x) == if j == i && x == a then b else Peek(file, w, j, x)
    {
      FrameByteAfterPut(w.store[f], a % 0x1000, b, x % 0x1000);
      if x / 0x1000 in w.spaces[j].pages {
        assert HasFrame(w, j, x / 0x1000, w.spaces[j].pages[x / 0x1000]);
        assert HasFrame(w, i, a / 0x1000, f);
        assert x == x / 0x1000 * 0x1000 + x % 0x1000 && a == a / 0x1000 * 0x1000 + a % 0x1000;
      }
    }
  }

  lemma SpawnKeeps(file: File, w: World, vmas: seq<Vma>)
    requires Sound(w) && PagesDisjoint(vmas)
    ensures Sound(Spawned(w, vmas))
    ensures forall j: nat, a: nat :: j < |w.spaces| ==> Peek(file, Spawned(w, vmas), j, a) == Peek(file, w, j, a)
    ensures forall a: nat :: Peek(file, Spawned(w, vmas), |w.spaces|, a) == InitialAt(file, vmas, a)
  {
    var w' := Spawned(w, vmas);
    forall j: nat, n: nat, g: nat ensures HasFrame(w', j, n, g) <==> HasFrame(w, j, n, g) {}
    forall j: nat | j < |w'.spaces| ensures SpaceOK(w'.spaces[j]) {}
  }

  /** The child sees the parent's memory, and nobody else notices. */
  lemma ForkPreservesMeaning(file: File, w: World, w': World, i: nat, copies: map<nat, nat>)
    requires Sound(w) && ForkStep(w, w', i, copies)
    ensures Sound(w') && |w'.spaces| == |w.spaces| + 1 && w'.spaces[|w.spaces|].vmas == w.spaces[i].vmas
    ensures forall j: nat, a: nat :: j < |w.spaces| ==> Peek(file, w', j, a) == Peek(file, w, j, a)
    ensures forall a: nat :: Peek(file, w', |w.spaces|, a) == Peek(file, w, i, a)
  {
    var s := w.spaces[i];
    assert SpaceOK(s);
    var mid, c := Spawned(w, s.vmas), |w.spaces|;
    SpawnKeeps(file, w, s.vmas);
    assert w'.spaces[c].pages.Keys == s.pages.Keys;
    PagedInKeeps(file, mid, w', c, copies);
    forall a: nat ensures Peek(file, w', c, a) == Peek(file, w, i, a) {
      if a / 0x1000 !in copies { assert Peek(file, w', c, a) == Peek(file, mid, c, a); }
    }
  }

  // ---- fork, page by page ------------------------------------------------------

  /** Page n lies in an area before the k-th, or in the k-th below page m. */
  ghost predicate Visited(vmas: seq<Vma>, k: nat, m: nat, n: nat) {
    exists j: nat :: j < |vmas| && HasPage(vmas[j], n) && (j < k || (j == k && n < m))
  }

  /** Space c has received copies of the visited pages of space i. */
  ghost predicate Copied(w0: World, w: World, i: nat, c: nat, copies: map<nat, nat>, k: nat, m: nat) {
    && i < |w0.spaces| && i != c && PagedIn(w0, w, c, copies)
    && (forall n: nat :: n in copies <==> n in w0.spaces[i].pages && Visited(w0.spaces[i].vmas, k, m, n))
    && forall n <- copies :: w0.spaces[i].pages[n] in w0.store && w.store[copies[n]] == w0.store[w0.spaces[i].pages[n]]
  }

  lemma CopyStarts(w0: World, i: nat, c: nat)
    requires i < |w0.spaces| && c < |w0.spaces| && i != c
    ensures Copied(w0, w0, i, c, map[], 0, 0)
  {
    assert w0.spaces[c].pages + map[] == w0.spaces[c].pages;
  }

  /** Nothing of area k lies below its first page. */
  lemma EnterArea(w0: World, w: World, i: nat, c: nat, copies: map<nat, nat>, k: nat)
    requires Copied(w0, w, i, c, copies, k, 0) && k < |w0.spaces[i].vmas|
    ensures Copied(w0, w, i, c, copies, k, FirstPage(w0.spaces[i].vmas[k]))
  {
    var vmas := w0.spaces[i].vmas;
    forall n: nat ensures Visited(vmas, k, FirstPage(vmas[k]), n) <==> Visited(vmas, k, 0, n) {}
  }

  lemma LeaveArea(w0: World, w: World, i: nat, c: nat, copies: map<nat, nat>, k: nat, m: nat)
    requires Copied(w0, w, i, c, copies, k, m) && k < |w0.spaces[i].vmas| && m >= EndPage(w0.spaces[i].vmas[k])
    ensures Copied(w0, w, i, c, copies, k + 1, 0)
  {
    var vmas := w0.spaces[i].vmas;
    forall n: nat ensures Visited(vmas, k + 1, 0, n) <==> Visited(vmas, k, m, n) {}
  }

  /** The next page of the area is visited. */
  lemma VisitNext(vmas: seq<Vma>, k: nat, m: nat)
    requires k < |vmas| && HasPage(vmas[k], m) && PagesDisjoint(vmas)
    ensures !Visited(vmas, k, m, m)
    ensures forall n: nat :: Visited(vmas, k, m + 1, n) <==> Visited(vmas, k, m, n) || n == m
  {}

  lemma CopySkips(w0: World, w: World, i: nat, c: nat, copies: map<nat, nat>, k: nat, m: nat)
    requires Copied(w0, w, i, c, copies, k, m) && m !in w0.spaces[i].pages
    requires k < |w0.spaces[i].vmas| && HasPage(w0.spaces[i].vmas[k], m) && PagesDisjoint(w0.spaces[i].vmas)
    ensures Copied(w0, w, i, c, copies, k, m + 1)
  {
    VisitNext(w0.spaces[i].vmas, k, m);
  }

  /** Space c gets a copy of page n of space i, on frame f. */
  ghost predicate CopyStep(w: World, w': World, i: nat, c: nat, n: nat, f: nat) {
    && i < |w.spaces| && n in w.spaces[i].pages && w.spaces[i].pages[n] in w.store && PagedIn(w, w', c, map[n := f])
    && f in w'.store && w'.store[f] == w.store[w.spaces[i].pages[n]]
  }

  lemma CopyOne(w0: World, w: World, w': World, i: nat, c: nat, copies: map<nat, nat>, k: nat, m: nat, f: nat)
    requires Copied(w0, w, i, c, copies, k, m) && m in w0.spaces[i].pages && w0.spaces[i].pages[m] in w0.store
    requires k < |w0.spaces[i].vmas| && HasPage(w0.spaces[i].vmas[k], m) && PagesDisjoint(w0.spaces[i].vmas)
    requires CopyStep(w, w', i, c, m, f) && m !in w0.spaces[c].pages
    ensures m !in copies && Copied(w0, w', i, c, copies[m := f], k, m + 1)
  {
    VisitNext(w0.spaces[i].vmas, k, m);
    PagedInTwice(w0, w, w', c, copies, m, f);
  }

  lemma PagedInTwice(w0: World, w: World, w': World, c: nat, added: map<nat, nat>, m: nat, f: nat)
    requires PagedIn(w0, w, c, added) && PagedIn(w, w', c, map[m := f])
    ensures PagedIn(w0, w', c, added[m := f])
  {
    var once, after := map[m := f], added[m := f];
    assert m in once;
    assert w0.spaces[c].pages + added + once == w0.spaces[c].pages + after;
    forall n <- after, k <- after | after[n] == after[k] ensures n == k {
      assert n != m ==> added[n] in w.store;
      assert k != m ==> added[k] in w.store;
    }
  }

  /** When every area was gone through, every mapped page was copied. */
  lemma AllCopied(w: World, w': World, i: nat, copies: map<nat, nat>)
    requires i < |w.spaces| && SpaceOK(w.spaces[i])
    requires Copied(Spawned(w, w.spaces[i].vmas), w', i, |w.spaces|, copies, |w.spaces[i].vmas|, 0)
    ensures ForkStep(w, w', i, copies)
  {
    var s := w.spaces[i];
    assert Spawned(w, s.vmas).spaces[i] == s;
    forall n: nat | n in s.pages ensures Visited(s.vmas, |s.vmas|, 0, n) {
      var k: nat :| k < |s.vmas| && HasPage(s.vmas[k], n);
    }
  }

  // ---- runs ------------------------------------------------------------------

  datatype MemoryEvent =
    | Fault(i: nat)
    | Read(i: nat, a: nat, b: Byte)
    | Write(i: nat, a: nat, b: Byte)
    | Fork(i: nat)
    | Spawn(vmas: seq<Vma>)

  /** What each event may do. Reads and writes reach mapped pages only. */
  ghost predicate Next(file: File, w: World, e: MemoryEvent, w': World) {
    match e
    case Fault(i) => exists added :: FaultStep(file, w, w', i, added)
    case Read(i, a, b) =>
      && w' == w && i < |w.spaces| && a / 0x1000 in w.spaces[i].pages
      && w.spaces[i].pages[a / 0x1000] in w.store
      && b == FrameByte(w.store[w.spaces[i].pages[a / 0x1000]], a % 0x1000)
    case Write(i, a, b) => WriteStep(w, w', i, a, b)
    case Fork(i) => exists copies :: ForkStep(w, w', i, copies)
    case Spawn(vmas) => PagesDisjoint(vmas) && w' == Spawned(w, vmas)
  }

  /** The reference: every program owns its whole memory from the start. */
  datatype Eager = Eager(vmas: seq<Vma>, writes: map<nat, Byte>)

  ghost function EagerByte(file: File, p: Eager, a: nat): Byte {
    if a in p.writes then p.writes[a] else InitialAt(file, p.vmas, a)
  }

  ghost function EagerNext(ps: seq<Eager>, e: MemoryEvent): seq<Eager> {
    match e
    case Fault(_) => ps
    case Read(_, _, _) => ps
    case Write(i, a, b) => if i < |ps| then ps[i := ps[i].(writes := ps[i].writes[a := b])] else ps
    case Fork(i) => if i < |ps| then ps + [ps[i]] else ps
    case Spawn(vmas) => ps + [Eager(vmas, map[])]
  }

  /** What the reference says about byte a: the program wrote it, or its area
      determines it. */
  ghost predicate Determined(file: File, p: Eager, a: nat) { a in p.writes || CoveredAt(file, p.vmas, a) }

  ghost predicate Refines(file: File, w: World, ps: seq<Eager>)
    requires Sound(w)
  {
    && |w.spaces| == |ps|
    && (forall i: nat :: i < |ps| ==> w.spaces[i].vmas == ps[i].vmas)
    && (forall i: nat, a: nat :: i < |ps| && a in ps[i].writes ==> Present(w, i, a))
    && (forall i: nat, a: nat :: i < |ps| && Determined(file, ps[i], a) ==>
       Peek(file, w, i, a) == EagerByte(file, ps[i], a))
  }

  lemma FaultRefines(file: File, w: World, w': World, ps: seq<Eager>, i: nat, added: map<nat, nat>)
    requires Sound(w) && Refines(file, w, ps) && FaultStep(file, w, w', i, added)
    ensures Sound(w') && Refines(file, w', ps)
  {
    hide Sound, Peek, CoveredAt, InitialPage, WholeOrNot;
    FaultInvisible(file, w, w', i, added);
    forall j: nat, a: nat | j < |ps| && a in ps[j].writes ensures Present(w', j, a) { assert Present(w, j, a); }
  }

  lemma WriteRefines(file: File, w: World, w': World, ps: seq<Eager>, i: nat, a: nat, b: Byte)
    requires Sound(w) && Refines(file, w, ps) && WriteStep(w, w', i, a, b)
    ensures Sound(w') && Refines(file, w', EagerNext(ps, Write(i, a, b)))
  {
    hide Sound, Peek, CoveredAt;
    WriteVisible(file, w, w', i, a, b);
    var ps' := EagerNext(ps, Write(i, a, b));
    forall j: nat, x: nat | j < |ps'| && x in ps'[j].writes ensures Present(w', j, x) {
      assert (j == i && x == a) || Present(w, j, x);
    }
    forall j: nat, x: nat | j < |ps'| && Determined(file, ps'[j], x)
      ensures Peek(file, w', j, x) == EagerByte(file, ps'[j], x)
    {
      assert (j == i && x == a) || Determined(file, ps[j], x);
    }
  }

  lemma ForkRefines(file: File, w: World, w': World, ps: seq<Eager>, i: nat, copies: map<nat, nat>)
    requires Sound(w) && Refines(file, w, ps) && ForkStep(w, w', i, copies)
    ensures Sound(w') && Refines(file, w', EagerNext(ps, Fork(i)))
  {
    hide Sound, Peek, CoveredAt;
    ForkPreservesMeaning(file, w, w', i, copies);
    var ps' := EagerNext(ps, Fork(i));
    forall j: nat, x: nat | j < |ps'| && x in ps'[j].writes ensures Present(w', j, x) {
      assert if j < |ps| then Present(w, j, x) else Present(w, i, x);
    }
    forall j: nat, x: nat | j < |ps'| && Determined(file, ps'[j], x)
      ensures Peek(file, w', j, x) == EagerByte(file, ps'[j], x)
    {
      assert Determined(file, if j < |ps| then ps[j] else ps[i], x);
    }
  }

  lemma SpawnRefines(file: File, w: World, ps: seq<Eager>, vmas: seq<Vma>)
    requires Sound(w) && Refines(file, w, ps) && PagesDisjoint(vmas)
    ensures Sound(Spawned(w, vmas)) && Refines(file, Spawned(w, vmas), EagerNext(ps, Spawn(vmas)))
  {
    hide Sound, Peek, CoveredAt;
    SpawnKeeps(file, w, vmas);
    var w', ps' := Spawned(w, vmas), EagerNext(ps, Spawn(vmas));
    forall j: nat, x: nat | j < |ps'| && x in ps'[j].writes ensures Present(w', j, x) { assert Present(w, j, x); }
    forall j: nat, x: nat | j < |ps'| && Determined(file, ps'[j], x)
      ensures Peek(file, w', j, x) == EagerByte(file, ps'[j], x)
    {
      assert j < |ps| ==> Determined(file, ps[j], x);
    }
  }

  lemma ReadRefines(file: File, w: World, ps: seq<Eager>, i: nat, a: nat, b: Byte)
    requires Sound(w) && Refines(file, w, ps) && Next(file, w, Read(i, a, b), w)
    ensures i < |ps| && (Determined(file, ps[i], a) ==> b == EagerByte(file, ps[i], a))
  {
    assert b == Peek(file, w, i, a);
  }

  /** One step of the kernel is one step of the reference, and a read returns
      the reference's byte wherever there is one. */
  lemma StepRefines(file: File, w: World, e: MemoryEvent, w': World, ps: seq<Eager>)
    requires Sound(w) && Refines(file, w, ps) && Next(file, w, e, w')
    ensures Sound(w') && Refines(file, w', EagerNext(ps, e))
    ensures e.Read? ==> e.i < |ps| && (Determined(file, ps[e.i], e.a) ==> e.b == EagerByte(file, ps[e.i], e.a))
  {
    hide Sound, Peek, Refines, FaultStep, ForkStep, WriteStep, Determined, PagesDisjoint;
    match e
    case Fault(i) =>
      var added :| FaultStep(file, w, w', i, added);
      FaultRefines(file, w, w', ps, i, added);
    case Read(i, a, b) =>
      ReadRefines(file, w, ps, i, a, b);
    case Write(i, a, b) =>
      WriteRefines(file, w, w', ps, i, a, b);
    case Fork(i) =>
      var copies :| ForkStep(w, w', i, copies);
      ForkRefines(file, w, w', ps, i, copies);
    case Spawn(vmas) =>
      SpawnRefines(file, w, ps, vmas);
  }

  /** A run: worlds joined by events. */
  ghost predicate IsMemoryRun(file: File, ws: seq<World>, es: seq<MemoryEvent>) {
    |ws| == |es| + 1 && forall k: nat :: k < |es| ==> Next(file, ws[k], es[k], ws[k + 1])
  }

  ghost function EagerRun(ps: seq<Eager>, es: seq<MemoryEvent>): seq<Eager> {
    if es == [] then ps else EagerNext(EagerRun(ps, es[..|es| - 1]), es[|es| - 1])
  }

  ghost predicate ReadsReference(file: File, e: MemoryEvent, ps: seq<Eager>) {
    e.Read? ==> e.i < |ps| && (Determined(file, ps[e.i], e.a) ==> e.b == EagerByte(file, ps[e.i], e.a))
  }

  /** Demand paging refines eager loading over every run: all worlds are sound,
      and every read of a byte that the program wrote or its area determines
      returns the reference's byte. */
  lemma {:induction false} RunRefines(file: File, ws: seq<World>, es: seq<MemoryEvent>, ps: seq<Eager>)
    requires IsMemoryRun(file, ws, es) && Sound(ws[0]) && Refines(file, ws[0], ps)
    ensures Sound(ws[|es|]) && Refines(file, ws[|es|], EagerRun(ps, es))
    ensures forall k: nat :: k < |es| ==> ReadsReference(file, es[k], EagerRun(ps, es[..k]))
  {
    hide Sound, Refines, Next, ReadsReference;
    if |es| > 0 {
      var n := |es| - 1;
      var before, wsBefore := es[..n], ws[..|es|];
      RunPrefix(file, ws, es);
      RunRefines(file, wsBefore, before, ps);
      assert wsBefore[|before|] == ws[n];
      LastStep(file, ws[n], es[n], ws[n + 1], EagerRun(ps, before));
      forall k: nat | k < |es| ensures ReadsReference(file, es[k], EagerRun(ps, es[..k])) {
        if k < n { assert before[k] == es[k] && before[..k] == es[..k]; }
      }
    }
  }

  lemma LastStep(file: File, w: World, e: MemoryEvent, w': World, ps: seq<Eager>)
    requires Sound(w) && Refines(file, w, ps) && Next(file, w, e, w')
    ensures Sound(w') && Refines(file, w', EagerNext(ps, e)) && ReadsReference(file, e, ps)
  {
    StepRefines(file, w, e, w', ps);
  }

  lemma RunPrefix(file: File, ws: seq<World>, es: seq<MemoryEvent>)
    requires IsMemoryRun(file, ws, es) && |es| > 0
    ensures IsMemoryRun(file, ws[..|es|], es[..|es| - 1])
    ensures Next(file, ws[|es| - 1], es[|es| - 1], ws[|es|])
  {}

  // ---- histories ---------------------------------------------------------------

  ghost function NoWorld(): World { World([], map[]) }

  /** w is reached from the empty world by the events es. */
  ghost predicate Reached(file: File, es: seq<MemoryEvent>, w: World) {
    exists ws :: IsMemoryRun(file, ws, es) && ws[0] == NoWorld() && ws[|es|] == w
  }

  lemma ReachedNothing(file: File)
    ensures Reached(file, [], NoWorld())
  {
    assert IsMemoryRun(file, [NoWorld()], []);
  }

  lemma ReachedStep(file: File, es: seq<MemoryEvent>, w: World, e: MemoryEvent, w': World)
    requires Reached(file, es, w) && Next(file, w, e, w')
    ensures Reached(file, es + [e], w')
  {
    hide Next;
    var ws :| IsMemoryRun(file, ws, es) && ws[0] == NoWorld() && ws[|es|] == w;
    var ws' := ws + [w'];
    assert IsMemoryRun(file, ws', es + [e]);
  }

  /** Whatever happened so far: the reached world is sound, is what the reference
      says, and every read along the way got the reference's byte. */
  lemma HistoryRefines(file: File, es: seq<MemoryEvent>, w: World)
    requires Reached(file, es, w)
    ensures Sound(w) && Refines(file, w, EagerRun([], es))
    ensures forall k: nat :: k < |es| ==> ReadsReference(file, es[k], EagerRun([], es[..k]))
  {
    hide Next, ReadsReference, EagerRun;
    var ws :| IsMemoryRun(file, ws, es) && ws[0] == NoWorld() && ws[|es|] == w;
    RunRefines(file, ws, es, []);
  }
}
