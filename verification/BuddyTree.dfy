/** The complete binary tree behind the buddy allocator, as mathematics.
    Nodes carry the array numbering (root 0, children 2i+1 and 2i+2); a live
    block is the node that was handed out. */
module BuddyTree {
  import opened Bits

  function Left(i: nat): nat { 2 * i + 1 }

  function Right(i: nat): nat { 2 * i + 2 }

  function Parent(i: nat): nat
    requires i > 0
  { (i + 1) / 2 - 1 }

  /** j is i or lies below i. */
  ghost predicate Under(j: nat, i: nat) {
    j == i || (j > i && Under(Parent(j), i))
  }

  /** Pages covered by node i, in a tree over `size` pages. */
  ghost function NodeSize(size: nat, i: nat): nat {
    if i == 0 then size else NodeSize(size, Parent(i)) / 2
  }

  /** First page covered by node i. */
  ghost function NodeLo(size: nat, i: nat): nat {
    if i == 0 then 0
    else NodeLo(size, Parent(i)) + (if i % 2 == 0 then NodeSize(size, i) else 0)
  }

  ghost function Depth(i: nat): nat {
    if i == 0 then 0 else 1 + Depth(Parent(i))
  }

  /** The value a node has, given only the set of live nodes: 0 if it is live,
      its size if both halves are wholly free, else the better half. */
  ghost function Longest(size: nat, live: set<nat>, i: nat): nat
    decreases 2 * size - i
  {
    if i in live then 0
    else if i + 1 >= size then 1
    else Combine(NodeSize(size, i), Longest(size, live, Left(i)), Longest(size, live, Right(i)))
  }

  function Max(a: nat, b: nat): nat { if a > b then a else b }

  function Combine(nodeSize: nat, left: nat, right: nat): nat {
    if left + right == nodeSize then nodeSize else Max(left, right)
  }

  /** A tree position in range. */
  predicate IsNode(size: nat, i: nat) { i + 1 < 2 * size }

  /** Live nodes are tree positions, none inside another. */
  ghost predicate WellFormed(size: nat, live: set<nat>) {
    && IsPow2(size)
    && (forall a <- live :: IsNode(size, a))
    && (forall a <- live, b <- live :: Under(a, b) ==> a == b)
  }

  /** Page p belongs to node i. */
  ghost predicate InNode(size: nat, i: nat, p: int) {
    NodeLo(size, i) <= p < NodeLo(size, i) + NodeSize(size, i)
  }

  ghost predicate PageLive(size: nat, live: set<nat>, p: int) {
    exists a <- live :: InNode(size, a, p)
  }

  /** An aligned run of n pages none of which is allocated. */
  ghost predicate FreeRun(size: nat, live: set<nat>, lo: int, n: nat)
    requires n > 0
  {
    0 <= lo && lo + n <= size && lo % n == 0 && forall p :: lo <= p < lo + n ==> !PageLive(size, live, p)
  }

  /** The node covering exactly [lo, lo + n). */
  ghost function NodeAt(size: nat, lo: nat, n: nat): int
    requires n > 0
  { (lo + size) / n - 1 }

  // ---- shape -------------------------------------------------------------

  lemma {:induction false} DepthBounds(i: nat)
    ensures Pow2(Depth(i)) <= i + 1 < 2 * Pow2(Depth(i))
  {
    if i > 0 { DepthBounds(Parent(i)); }
  }

  lemma DepthUnique(i: nat, d: nat)
    requires Pow2(d) <= i + 1 < 2 * Pow2(d)
    ensures Depth(i) == d
  {
    DepthBounds(i);
    Pow2Order(Depth(i) + 1, d);
    Pow2Order(d + 1, Depth(i));
  }

  lemma {:induction false} NodeSizeIsPow2(h: nat, i: nat)
    requires Depth(i) <= h
    ensures NodeSize(Pow2(h), i) == Pow2(h - Depth(i))
  {
    if i > 0 { NodeSizeIsPow2(h, Parent(i)); }
  }

  lemma SizeShape(size: nat, i: nat)
    requires IsPow2(size) && IsNode(size, i)
    ensures IsPow2(NodeSize(size, i)) && NodeSize(size, i) >= 1
    ensures NodeSize(size, i) == 1 <==> i + 1 >= size
    ensures i + 1 < size ==> NodeSize(size, i) % 2 == 0
  {
    var h: nat :| size == Pow2(h);
    DepthInTree(h, i);
    NodeSizeIsPow2(h, i);
    assert Depth(i) < h ==> Pow2(h - Depth(i)) == 2 * Pow2(h - Depth(i) - 1);
  }

  lemma DepthInTree(h: nat, i: nat)
    requires i + 1 < 2 * Pow2(h)
    ensures Depth(i) <= h && (Depth(i) == h <==> i + 1 >= Pow2(h))
  {
    DepthBounds(i);
    Pow2Order(h + 1, Depth(i));
    Pow2Order(Depth(i) + 1, h);
  }

  /** Sizes, positions and the index formula (index + 1) * node_size - size. */
  lemma {:induction false} Shape(size: nat, i: nat)
    requires IsPow2(size) && IsNode(size, i)
    ensures IsPow2(NodeSize(size, i)) && NodeSize(size, i) >= 1
    ensures NodeSize(size, i) == 1 <==> i + 1 >= size
    ensures i + 1 < size ==> NodeSize(size, i) % 2 == 0
    ensures (i + 1) * NodeSize(size, i) == NodeLo(size, i) + size
    ensures NodeLo(size, i) + NodeSize(size, i) <= size
  {
    hide IsPow2, NodeSize;
    SizeShape(size, i);
    if i > 0 {
      var q := Parent(i);
      Shape(size, q);
      HalfSize(size, i);
      HalfIndex(NodeSize(size, q), NodeSize(size, i), q, i);
    } else {
      RootSize(size);
    }
  }

  lemma RootSize(size: nat)
    ensures NodeSize(size, 0) == size
  {}

  lemma HalfSize(size: nat, i: nat)
    requires i > 0 && NodeSize(size, Parent(i)) % 2 == 0
    ensures NodeSize(size, Parent(i)) == 2 * NodeSize(size, i)
  {}

  lemma HalfIndex(n: nat, m: nat, q: nat, i: nat)
    requires n == 2 * m && (i == 2 * q + 1 || i == 2 * q + 2)
    ensures (i + 1) * m == (q + 1) * n + (if i == 2 * q + 1 then 0 else m)
  {}

  lemma ChildSizes(size: nat, i: nat)
    ensures NodeSize(size, Left(i)) == NodeSize(size, Right(i)) == NodeSize(size, i) / 2
    ensures NodeLo(size, Left(i)) == NodeLo(size, i)
    ensures NodeLo(size, Right(i)) == NodeLo(size, i) + NodeSize(size, Right(i))
  {
    assert Left(i) % 2 == 1 && Right(i) % 2 == 0;
    assert Parent(Left(i)) == i && Parent(Right(i)) == i;
  }

  /** The two halves of an inner node. */
  lemma Children(size: nat, i: nat)
    requires IsPow2(size) && i + 1 < size
    ensures IsNode(size, Left(i)) && IsNode(size, Right(i))
    ensures NodeSize(size, i) == 2 * NodeSize(size, Left(i)) == 2 * NodeSize(size, Right(i))
    ensures NodeLo(size, Left(i)) == NodeLo(size, i)
    ensures NodeLo(size, Right(i)) == NodeLo(size, i) + NodeSize(size, Left(i))
  {
    SizeShape(size, i);
    ChildSizes(size, i);
    assert NodeSize(size, i) == 2 * (NodeSize(size, i) / 2);
  }

  lemma {:induction false} UnderTrans(k: nat, j: nat, i: nat)
    requires Under(k, j) && Under(j, i)
    ensures Under(k, i)
  {
    if k != j { UnderTrans(Parent(k), j, i); }
  }

  lemma {:induction false} UnderNested(size: nat, j: nat, i: nat)
    requires IsPow2(size) && IsNode(size, j) && Under(j, i)
    ensures NodeLo(size, i) <= NodeLo(size, j)
    ensures NodeLo(size, j) + NodeSize(size, j) <= NodeLo(size, i) + NodeSize(size, i)
    ensures j != i ==> NodeSize(size, j) < NodeSize(size, i)
  {
    if j != i {
      Shape(size, j);
      Shape(size, Parent(j));
      UnderNested(size, Parent(j), i);
      Children(size, Parent(j));
    }
  }

  /** Anything strictly below i is below one of its children. */
  lemma {:induction false} UnderChild(j: nat, i: nat)
    requires Under(j, i) && j != i
    ensures Under(j, Left(i)) || Under(j, Right(i))
  {
    if Parent(j) != i { UnderChild(Parent(j), i); }
  }

  /** Tree blocks are nested or disjoint: a smaller block starting inside a
      larger one lies below it. */
  lemma {:induction false} Laminar(size: nat, j: nat, i: nat)
    requires IsPow2(size) && IsNode(size, j) && IsNode(size, i)
    requires InNode(size, i, NodeLo(size, j)) && NodeSize(size, j) <= NodeSize(size, i)
    ensures Under(j, i)
    decreases NodeSize(size, i)
  {
    Shape(size, i);
    Shape(size, j);
    var n := NodeSize(size, i);
    if NodeSize(size, j) == n {
      SameIndex(i + 1, j + 1, n);
    } else {
      Children(size, i);
      HalfOfPow2(NodeSize(size, j), n);
      var c := if InNode(size, Left(i), NodeLo(size, j)) then Left(i) else Right(i);
      Laminar(size, j, c);
      assert Under(c, i);
      UnderTrans(j, c, i);
    }
  }

  lemma SameIndex(a: int, b: int, n: int)
    requires n > 0 && a * n <= b * n < a * n + n
    ensures a == b
  {
    if b < a { MulMono(b + 1, a, n); }
    if a < b { MulMono(a + 1, b, n); }
  }

  lemma HalfOfPow2(a: nat, b: nat)
    requires IsPow2(a) && IsPow2(b) && a < b
    ensures 2 * a <= b
  {
    var j: nat :| a == Pow2(j);
    var k: nat :| b == Pow2(k);
    if k <= j { Pow2Mono(k, j); } else { Pow2Mono(j, k); }
  }

  /** Two nodes sharing a page are nested. */
  lemma SharedPage(size: nat, i: nat, j: nat, p: int)
    requires IsPow2(size) && IsNode(size, i) && IsNode(size, j)
    requires InNode(size, i, p) && InNode(size, j, p)
    ensures Under(i, j) || Under(j, i)
  {
    if NodeSize(size, j) <= NodeSize(size, i) {
      if NodeLo(size, j) >= NodeLo(size, i) { Laminar(size, j, i); }
      else { StartsInside(size, i, j); }
    } else {
      if NodeLo(size, i) >= NodeLo(size, j) { Laminar(size, i, j); }
      else { StartsInside(size, j, i); }
    }
  }

  /** No smaller block straddles the start of a larger one. */
  lemma {:induction false} StartsInside(size: nat, i: nat, j: nat)
    requires IsPow2(size) && IsNode(size, i) && IsNode(size, j)
    requires NodeSize(size, j) <= NodeSize(size, i)
    requires NodeLo(size, j) < NodeLo(size, i)
    ensures NodeLo(size, j) + NodeSize(size, j) <= NodeLo(size, i)
  {
    Shape(size, i);
    Shape(size, j);
    var h: nat :| NodeSize(size, j) == Pow2(h);
    var k: nat :| NodeSize(size, i) == Pow2(k);
    if k < h { Pow2Mono(k, h); }
    Pow2Divides(h, k);
    var t: nat :| size == Pow2(t);
    if t < h { Pow2Mono(t, h); }
    Pow2Divides(h, t);
    Multiple(i + 1, Pow2(k - h), Pow2(h), Pow2(k));
    SameIndexLt(j + 1, (i + 1) * Pow2(k - h), Pow2(h));
  }

  lemma Multiple(a: int, b: int, n: int, m: int)
    requires m == b * n
    ensures a * m == (a * b) * n
  {}

  lemma SameIndexLt(a: int, b: int, n: int)
    requires n > 0 && a * n < b * n
    ensures a * n + n <= b * n
  {
    if b <= a { MulMono(b, a, n); }
    if a < b { MulMono(a + 1, b, n); }
  }

  // ---- values ------------------------------------------------------------

  lemma {:induction false} LongestBound(size: nat, live: set<nat>, i: nat)
    requires IsPow2(size) && IsNode(size, i)
    ensures Longest(size, live, i) <= NodeSize(size, i)
    decreases 2 * size - i
  {
    Shape(size, i);
    if i !in live && i + 1 < size {
      Children(size, i);
      LongestBound(size, live, Left(i));
      LongestBound(size, live, Right(i));
    }
  }

  /** Values depend only on the live nodes at or below. */
  lemma {:induction false} LongestFrame(size: nat, live: set<nat>, live': set<nat>, i: nat)
    requires forall a :: Under(a, i) ==> (a in live <==> a in live')
    ensures Longest(size, live, i) == Longest(size, live', i)
    decreases 2 * size - i
  {
    assert Under(i, i);
    if i !in live && i + 1 < size {
      forall a | Under(a, Left(i)) ensures a in live <==> a in live' { UnderTrans(a, Left(i), i); }
      forall a | Under(a, Right(i)) ensures a in live <==> a in live' { UnderTrans(a, Right(i), i); }
      LongestFrame(size, live, live', Left(i));
      LongestFrame(size, live, live', Right(i));
    }
  }

  ghost predicate NothingUnder(live: set<nat>, i: nat) { forall a <- live :: !Under(a, i) }

  /** A node shows its full size exactly when nothing at or below it is live. */
  lemma {:induction false} FullIffNothingUnder(size: nat, live: set<nat>, i: nat)
    requires IsPow2(size) && IsNode(size, i) && forall a <- live :: IsNode(size, a)
    ensures Longest(size, live, i) == NodeSize(size, i) <==> NothingUnder(live, i)
    decreases 2 * size - i
  {
    Shape(size, i);
    assert Under(i, i);
    if i in live {
    } else if i + 1 >= size {
      forall a <- live ensures !Under(a, i) {
        if Under(a, i) { UnderNested(size, a, i); Shape(size, a); }
      }
    } else {
      Children(size, i);
      LongestBound(size, live, Left(i));
      LongestBound(size, live, Right(i));
      FullIffNothingUnder(size, live, Left(i));
      FullIffNothingUnder(size, live, Right(i));
      forall a <- live ensures Under(a, i) <==> Under(a, Left(i)) || Under(a, Right(i)) {
        if Under(a, i) { UnderChild(a, i); }
        if Under(a, Left(i)) { UnderTrans(a, Left(i), i); }
        if Under(a, Right(i)) { UnderTrans(a, Right(i), i); }
      }
    }
  }

  /** A node shows at least the size of any wholly free node below it. */
  lemma {:induction false} LongestCovers(size: nat, live: set<nat>, j: nat, i: nat)
    requires WellFormed(size, live) && IsNode(size, j) && Under(j, i)
    requires NothingUnder(live, j) && forall a <- live :: !Under(j, a)
    ensures Longest(size, live, i) >= NodeSize(size, j)
    decreases j - i
  {
    hide Longest;
    FullIffNothingUnder(size, live, j);
    if j != i {
      UnderChild(j, i);
      UnderSmaller(j, i);
      Shape(size, i);
      var c := if Under(j, Left(i)) then Left(i) else Right(i);
      UnderSmaller(j, c);
      LongestCovers(size, live, j, c);
      UnderNested(size, j, i);
      Shape(size, j);
      LongestOfChildren(size, live, i);
    }
  }

  lemma LongestOfChildren(size: nat, live: set<nat>, i: nat)
    requires IsPow2(size) && i + 1 < size && i !in live
    ensures Longest(size, live, i) >= Longest(size, live, Left(i))
    ensures Longest(size, live, i) >= Longest(size, live, Right(i))
  {
    hide IsPow2;
    LongestBound(size, live, Left(i));
    LongestBound(size, live, Right(i));
    Children(size, i);
  }

  lemma {:induction false} UnderSmaller(j: nat, i: nat)
    requires Under(j, i)
    ensures i <= j
  {
    if j != i { UnderSmaller(Parent(j), i); }
  }

  // ---- pages -------------------------------------------------------------

  /** No live node overlaps j. */
  ghost predicate Clear(live: set<nat>, j: nat) {
    NothingUnder(live, j) && forall a <- live :: !Under(j, a)
  }

  lemma ClearIffPagesFree(size: nat, live: set<nat>, j: nat)
    requires WellFormed(size, live) && IsNode(size, j)
    ensures Clear(live, j) <==> forall p :: InNode(size, j, p) ==> !PageLive(size, live, p)
  {
    Shape(size, j);
    if Clear(live, j) {
      forall p | InNode(size, j, p) ensures !PageLive(size, live, p) {
        forall a <- live ensures !InNode(size, a, p) {
          if InNode(size, a, p) { SharedPage(size, a, j, p); }
        }
      }
    } else {
      var a :| a in live && (Under(a, j) || Under(j, a));
      Shape(size, a);
      var p := if Under(a, j) then NodeLo(size, a) else NodeLo(size, j);
      if Under(a, j) { UnderNested(size, a, j); } else { UnderNested(size, j, a); }
      assert InNode(size, a, p) && InNode(size, j, p);
    }
  }

  /** Every aligned power-of-two run is a node, and the other way round. */
  lemma RunIsNode(size: nat, lo: nat, n: nat)
    requires IsPow2(size) && IsPow2(n) && lo + n <= size && lo % n == 0
    ensures NodeAt(size, lo, n) >= 0 && IsNode(size, NodeAt(size, lo, n))
    ensures NodeLo(size, NodeAt(size, lo, n)) == lo && NodeSize(size, NodeAt(size, lo, n)) == n
  {
    var h: nat :| size == Pow2(h);
    var k: nat :| n == Pow2(k);
    if h < k { Pow2Mono(h, k); }
    Pow2Divides(k, h);
    NodeAtIndex(lo, n, Pow2(h - k));
    var j := NodeAt(size, lo, n);
    DepthUnique(j, h - k);
    NodeSizeIsPow2(h, j);
    Pow2Mono(h - k, h);
    Shape(size, j);
  }

  lemma NodeAtIndex(lo: nat, n: nat, d: nat)
    requires n > 0 && lo % n == 0 && lo + n <= d * n
    ensures d <= (lo + d * n) / n < 2 * d
    ensures (lo + d * n) / n * n == lo + d * n
  {
    var q := lo / n;
    assert lo == q * n;
    DivUnique(lo + d * n, n, q + d, 0);
    if q >= d { MulMono(d, q, n); }
  }

  lemma NodeIsRun(size: nat, j: nat)
    requires IsPow2(size) && IsNode(size, j)
    ensures NodeSize(size, j) > 0 && NodeLo(size, j) % NodeSize(size, j) == 0
    ensures NodeAt(size, NodeLo(size, j), NodeSize(size, j)) == j
  {
    Shape(size, j);
    var n := NodeSize(size, j);
    DivExact(j + 1, n);
    var h: nat :| size == Pow2(h);
    var k: nat :| n == Pow2(k);
    if h < k { Pow2Mono(h, k); }
    Pow2Divides(k, h);
    MulMinus(j + 1, Pow2(h - k), n);
    DivExact(j + 1 - Pow2(h - k), n);
  }

  /** Free runs of a size are the clear nodes of that size. */
  lemma FreeRunIffClear(size: nat, live: set<nat>, j: nat)
    requires WellFormed(size, live) && IsNode(size, j)
    ensures NodeSize(size, j) > 0
    ensures FreeRun(size, live, NodeLo(size, j), NodeSize(size, j)) <==> Clear(live, j)
  {
    Shape(size, j);
    NodeIsRun(size, j);
    ClearIffPagesFree(size, live, j);
    assert forall p :: InNode(size, j, p) <==> NodeLo(size, j) <= p < NodeLo(size, j) + NodeSize(size, j);
  }
}
