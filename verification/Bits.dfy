/** Unsigned 64-bit words as natural numbers, with the C bitwise operators
    written out on the binary expansion. Shifts are `/` and `*` by Pow2. */
module Bits {

  const TWO_64: nat := 0x1_0000_0000_0000_0000

  type Word = x: int | 0 <= x < TWO_64

  function Pow2(k: nat): (p: nat)
    ensures p >= 1
  {
    if k == 0 then 1 else 2 * Pow2(k - 1)
  }

  /** The C operator `|`. */
  function Or(a: nat, b: nat): (r: nat)
    ensures a <= r && b <= r
    decreases a + b
  {
    if a == 0 then b
    else if b == 0 then a
    else 2 * Or(a / 2, b / 2) + (if a % 2 == 1 || b % 2 == 1 then 1 else 0)
  }

  /** The C operator `&`. */
  function And(a: nat, b: nat): (r: nat)
    ensures r <= a && r <= b
    decreases a + b
  {
    if a == 0 || b == 0 then 0
    else 2 * And(a / 2, b / 2) + (if a % 2 == 1 && b % 2 == 1 then 1 else 0)
  }

  lemma {:induction false} Pow2Mono(j: nat, k: nat)
    requires j <= k
    ensures Pow2(j) <= Pow2(k)
    ensures j < k ==> 2 * Pow2(j) <= Pow2(k)
  {
    if j < k { Pow2Mono(j, k - 1); }
  }

  lemma Pow2Order(j: nat, k: nat)
    ensures j <= k <==> Pow2(j) <= Pow2(k)
  {
    if j <= k { Pow2Mono(j, k); } else { Pow2Mono(k, j); }
  }

  lemma {:induction false} Pow2Add(j: nat, k: nat)
    ensures Pow2(j + k) == Pow2(j) * Pow2(k)
  {
    if j > 0 { Pow2Add(j - 1, k); }
  }

  /** Powers of two divide the larger ones. */
  lemma Pow2Divides(j: nat, k: nat)
    requires j <= k
    ensures Pow2(k) == Pow2(k - j) * Pow2(j)
    ensures Pow2(k) / Pow2(j) == Pow2(k - j)
    ensures Pow2(k) % Pow2(j) == 0
  {
    Pow2Add(k - j, j);
    DivExact(Pow2(k - j), Pow2(j));
  }

  lemma DivExact(q: int, d: int)
    requires d > 0
    ensures (q * d) / d == q && (q * d) % d == 0
  {
    DivUnique(q * d, d, q, 0);
  }

  lemma MulMono(a: int, b: int, d: int)
    requires a <= b && 0 <= d
    ensures a * d <= b * d
  {}

  lemma MulMinus(a: int, b: int, d: int)
    ensures (a - b) * d == a * d - b * d
  {}

  lemma DivUnique(x: int, d: int, q: int, r: int)
    requires d > 0 && x == q * d + r && 0 <= r < d
    ensures x / d == q && x % d == r
  {
    QuotientUnique(x / d, x % d, q, r, d);
  }

  lemma QuotientUnique(q: int, r: int, q': int, r': int, d: int)
    requires 0 <= r < d && 0 <= r' < d && q * d + r == q' * d + r'
    ensures q == q' && r == r'
  {
    if q < q' { MulMono(q + 1, q', d); }
    if q' < q { MulMono(q' + 1, q, d); }
  }

  /** Dividing twice. */
  lemma DivDiv(a: nat, c: nat, d: nat, cd: nat)
    requires c > 0 && d > 0 && cd == c * d
    ensures a / c / d == a / cd
  {
    var b := a / c;
    var q, r := b / d, b % d;
    assert a == b * c + a % c && b == q * d + r;
    assert b * c == q * cd + r * c;
    MulMono(r, d - 1, c);
    assert (d - 1) * c == cd - c;
    DivUnique(a, cd, q, r * c + a % c);
  }

  /** Quotient and remainder by d of a remainder by d * m. */
  lemma DivOfMod(n: nat, d: nat, m: nat, dm: nat)
    requires d > 0 && m > 0 && dm == d * m
    ensures n / d % m == n % dm / d && n % dm % d == n % d
  {
    var q, r := n / dm, n % dm;
    var a, b := r / d, r % d;
    assert n == q * dm + r && r == a * d + b;
    assert q * dm == (q * m) * d;
    if a >= m { MulMono(m, a, d); }
    DivUnique(n, d, q * m + a, b);
    DivUnique(q * m + a, m, q, a);
  }

  /** Floor division by its defining bounds. */
  lemma DivBounds(x: nat, d: nat)
    requires d > 0
    ensures (x / d) * d <= x < (x / d + 1) * d && 0 <= x / d <= x
  {
    var q, r := x / d, x % d;
    assert x == q * d + r;
    if q < 0 { MulMono(q, -1, d); }
    MulMono(1, d, q);
  }

  lemma {:induction false} OrBound(a: nat, b: nat, m: nat)
    requires a < Pow2(m) && b < Pow2(m)
    ensures Or(a, b) < Pow2(m)
    decreases m
  {
    if a > 0 && b > 0 { OrBound(a / 2, b / 2, m - 1); }
  }

  /** `|` of a multiple of 2^p with a number below 2^p is their sum. */
  lemma {:induction false} OrSplit(hi: nat, lo: nat, y: nat, p: nat)
    requires lo < Pow2(p) && y < Pow2(p)
    ensures Or(hi * Pow2(p) + lo, y) == hi * Pow2(p) + Or(lo, y)
    decreases p
  {
    hide Or;
    if p > 0 && y > 0 {
      Doubled(hi, Pow2(p - 1));
      OrSplit(hi, lo / 2, y / 2, p - 1);
      OrTwice(hi * Pow2(p - 1), lo, y);
    } else {
      assert y == 0;
      OrZero(hi * Pow2(p) + lo);
      OrZero(lo);
    }
  }

  lemma OrZero(a: nat)
    ensures Or(a, 0) == a
  {}

  lemma Doubled(a: nat, b: nat)
    ensures a * (2 * b) == 2 * (a * b)
  {}

  lemma OrTwice(h: nat, lo: nat, y: nat)
    requires Or(h + lo / 2, y / 2) == h + Or(lo / 2, y / 2)
    ensures Or(2 * h + lo, y) == 2 * h + Or(lo, y)
  {
    assert (2 * h + lo) / 2 == h + lo / 2 && (2 * h + lo) % 2 == lo % 2;
  }

  lemma OrDisjoint(hi: nat, y: nat, p: nat)
    requires y < Pow2(p)
    ensures Or(hi * Pow2(p), y) == hi * Pow2(p) + y
  {
    OrSplit(hi, 0, y, p);
  }

  /** Masking with 2^p - 1 keeps the low p bits. */
  lemma {:induction false} AndMask(x: nat, p: nat)
    ensures And(x, Pow2(p) - 1) == x % Pow2(p)
    decreases p
  {
    if p > 0 {
      hide And;
      AndMask(x / 2, p - 1);
      MaskBit(x, Pow2(p - 1));
    }
  }

  lemma MaskBit(x: nat, d: nat)
    requires d > 0 && And(x / 2, d - 1) == x / 2 % d
    ensures And(x, 2 * d - 1) == x % (2 * d)
  {
    hide And;
    AndOdd(x, d - 1);
    ModDouble(x, x / 2, d, 2 * d, x % 2);
  }

  lemma AndOdd(x: nat, m: nat)
    ensures And(x, 2 * m + 1) == 2 * And(x / 2, m) + x % 2
  {
    assert (2 * m + 1) / 2 == m && (2 * m + 1) % 2 == 1;
  }

  lemma ModDouble(x: nat, h: nat, d: nat, e: nat, b: nat)
    requires d > 0 && b < 2 && x == 2 * h + b && e == 2 * d
    ensures x % e == 2 * (h % d) + b
  {
    var q, r := h / d, h % d;
    assert h == q * d + r;
    assert q * e == 2 * (q * d);
    DivUnique(x, e, q, 2 * r + b);
  }

  ghost predicate IsPow2(x: int) { exists k: nat :: x == Pow2(k) }

  /** The macro IS_POWER_OF_2: x & (x - 1) is zero. */
  predicate PowerTest(x: nat) { And(x, if x == 0 then TWO_64 - 1 else x - 1) == 0 }

  /** The bit trick accepts the powers of two, and 0. */
  lemma {:induction false} PowerTestCorrect(x: nat)
    ensures PowerTest(x) <==> x == 0 || IsPow2(x)
    decreases x
  {
    if x == 0 {
    } else if x == 1 {
      assert x == Pow2(0);
    } else {
      var h := x / 2;
      PowerTestCorrect(h);
      if x % 2 == 0 {
        assert (x - 1) / 2 == h - 1 && (x - 1) % 2 == 1;
        assert And(x, x - 1) == 2 * And(h, h - 1);
        if PowerTest(x) {
          var k: nat :| h == Pow2(k);
          assert x == Pow2(k + 1);
        }
        if IsPow2(x) {
          var k: nat :| x == Pow2(k);
          assert h == Pow2(k - 1);
        }
      } else {
        assert (x - 1) / 2 == h;
        AndSelf(h);
        assert And(x, x - 1) >= 2 * h;
        assert forall k: nat :: Pow2(k) != x by { OddNotPow2(x); }
      }
    }
  }

  lemma OddNotPow2(x: nat)
    requires x > 1 && x % 2 == 1
    ensures forall k: nat :: Pow2(k) != x
  {
    forall k: nat ensures Pow2(k) != x {
      if k > 0 { assert Pow2(k) == 2 * Pow2(k - 1); }
    }
  }

  lemma {:induction false} AndSelf(x: nat)
    ensures And(x, x) == x
  {
    if x > 0 { AndSelf(x / 2); }
  }

  /** The number of binary digits. */
  ghost function Len(x: nat): (m: nat)
    ensures x < Pow2(m)
    ensures x > 0 ==> m > 0 && Pow2(m - 1) <= x
  {
    if x == 0 then 0 else 1 + Len(x / 2)
  }

  /** The least power of two that is at least n. */
  ghost function RoundUp(n: nat): (r: nat)
    ensures IsPow2(r) && n <= r && r > 0
  {
    assert 1 == Pow2(0);
    if n <= 1 then 1 else Pow2(Len(n - 1))
  }

  lemma RoundUpLeast(n: nat, p: nat)
    requires IsPow2(p) && n <= p
    ensures RoundUp(n) <= p
  {
    var k: nat :| p == Pow2(k);
    if n > 1 {
      var m := Len(n - 1);
      if k < m { Pow2Mono(k, m - 1); } else { Pow2Mono(m, k); }
    }
  }

  /** The C operator `>>`. */
  function Shr(x: nat, k: nat): nat {
    DivBounds(x, Pow2(k));
    x / Pow2(k)
  }

  /** Bit k of x. */
  function Bit(x: nat, k: nat): nat { Shr(x, k) % 2 }

  lemma BitNext(x: nat, k: nat)
    ensures Bit(x, 0) == x % 2 && Bit(x, k + 1) == Bit(x / 2, k)
  {
    DivDiv(x, 2, Pow2(k), Pow2(k + 1));
  }

  /** `|`, `&` and `>>` bit by bit. */
  lemma {:induction false} OperatorBits(a: nat, b: nat, k: nat)
    ensures Bit(Or(a, b), k) == 1 <==> Bit(a, k) == 1 || Bit(b, k) == 1
    ensures Bit(And(a, b), k) == 1 <==> Bit(a, k) == 1 && Bit(b, k) == 1
    ensures forall j: nat :: Bit(Shr(a, j), k) == Bit(a, j + k)
    decreases k
  {
    hide Shr, Bit;
    forall j: nat ensures Bit(Shr(a, j), k) == Bit(a, j + k) { ShiftBit(a, j, k); }
    BitNext(a, 0);
    BitNext(b, 0);
    BitNext(Or(a, b), 0);
    BitNext(And(a, b), 0);
    HalfOperators(a, b);
    if k > 0 {
      BitNext(a, k - 1);
      BitNext(b, k - 1);
      BitNext(Or(a, b), k - 1);
      BitNext(And(a, b), k - 1);
      OperatorBits(a / 2, b / 2, k - 1);
    }
  }

  lemma HalfOperators(a: nat, b: nat)
    ensures Or(a, b) / 2 == Or(a / 2, b / 2) && And(a, b) / 2 == And(a / 2, b / 2)
    ensures (Or(a, b) % 2 == 1 <==> a % 2 == 1 || b % 2 == 1) && (And(a, b) % 2 == 1 <==> a % 2 == 1 && b % 2 == 1)
  {}

  lemma ShiftBit(a: nat, j: nat, k: nat)
    ensures Bit(Shr(a, j), k) == Bit(a, j + k)
  {
    Pow2Add(j, k);
    DivDiv(a, Pow2(j), Pow2(k), Pow2(j + k));
  }

  function AtLeastZero(x: int): nat { if x >= 0 then x else 0 }

  /** The top k of the m digits of s are ones (all of them when k >= m). */
  ghost predicate TopOnes(s: nat, m: nat, k: nat) {
    Pow2(m) - Pow2(AtLeastZero(m - k)) <= s < Pow2(m)
  }

  /** One smearing step, `size |= size >> k`, doubles the run of leading ones. */
  lemma Smear(s: nat, m: nat, k: nat)
    requires TopOnes(s, m, k)
    ensures TopOnes(Or(s, Shr(s, k)), m, 2 * k)
  {
    DivBounds(s, Pow2(k));
    OrBound(s, Shr(s, k), m);
    if k < m {
      ShiftedTop(s, m, k);
      Pow2Add(k, m - k);
      MulMinus(Pow2(k), 1, Pow2(m - k));
      OrAbove(s, Pow2(k) - 1, Shr(s, k), m - k);
    }
  }

  lemma OrAbove(s: nat, hi: nat, y: nat, p: nat)
    requires y < Pow2(p) && hi * Pow2(p) <= s < hi * Pow2(p) + Pow2(p)
    ensures Or(s, y) >= hi * Pow2(p) + y
  {
    OrSplit(hi, s - hi * Pow2(p), y, p);
  }

  lemma ShiftedTop(s: nat, m: nat, k: nat)
    requires TopOnes(s, m, k) && k < m
    ensures Pow2(m - k) - Pow2(AtLeastZero(m - 2 * k)) <= Shr(s, k) < Pow2(m - k)
  {
    Pow2Add(m - k, k);
    Pow2Add(AtLeastZero(m - 2 * k), k);
    if 2 * k > m { Pow2Mono(m - k, k); }
    DivBounds(s, Pow2(k));
    Between(s, Pow2(k), Shr(s, k), Pow2(m - k), Pow2(AtLeastZero(m - 2 * k)));
  }

  lemma Between(s: nat, d: nat, y: nat, p: nat, rest: nat)
    requires y * d <= s < (y + 1) * d
    requires p * d - rest * d <= s < p * d
    ensures p - rest <= y < p
  {
    if y >= p { MulMono(p, y, d); }
    MulMinus(p, rest, d);
    if y < p - rest { MulMono(y + 1, p - rest, d); }
  }

  /** mm.c `fixsize`: the least power of two that is at least n, in 64 bits.
      Outside 1..2^63 the sum wraps to 0, which is no power of two. */
  method Fixsize(n: Word) returns (r: Word)
    ensures r == RoundUp(n) <==> 1 <= n <= Pow2(63)
    ensures !(1 <= n <= Pow2(63)) ==> r == 0
  {
    var size := if n == 0 then TWO_64 - 1 else n - 1;
    ghost var m := Len(size);
    Smear(size, m, 1);
    size := Or(size, Shr(size, 1));
    Smear(size, m, 2);
    size := Or(size, Shr(size, 2));
    Smear(size, m, 4);
    size := Or(size, Shr(size, 4));
    Smear(size, m, 8);
    size := Or(size, Shr(size, 8));
    Smear(size, m, 16);
    size := Or(size, Shr(size, 16));
    Smear(size, m, 32);
    size := Or(size, Shr(size, 32));
    SmearedIsRoundUp(n, size);
    r := (size + 1) % TWO_64;
  }

  /** How mm.c rounds a page count: powers of two are kept, 0 becomes 1. */
  method RoundPages(n: Word) returns (r: Word)
    requires n <= Pow2(63)
    ensures r == RoundUp(n)
  {
    if n > 0 { PowerTestCorrect(n); }
    if IsPow2(n) { RoundUpLeast(n, n); }
    if n == 0 {
      r := 1;
    } else if PowerTest(n) {
      r := n;
    } else {
      r := Fixsize(n);
    }
  }

  lemma SmearedIsRoundUp(n: Word, size: nat)
    requires TopOnes(size, Len(if n == 0 then TWO_64 - 1 else n - 1), 64)
    ensures 1 <= n <= Pow2(63) ==> (size + 1) % TWO_64 == RoundUp(n)
    ensures !(1 <= n <= Pow2(63)) ==> (size + 1) % TWO_64 == 0
  {
    var s := if n == 0 then TWO_64 - 1 else n - 1;
    var m := Len(s);
    Pow2Values();
    hide Pow2;
    if m > 64 { Pow2Mono(64, m - 1); }
    if m < 64 { Pow2Mono(m, 63); }
    assert size + 1 == Pow2(m);
    if 1 <= n <= Pow2(63) { RoundUpLeast(n, Pow2(63)); }
  }

  lemma Pow2Values()
    ensures Pow2(1) == 0x2 && Pow2(2) == 0x4 && Pow2(3) == 0x8 && Pow2(4) == 0x10
    ensures Pow2(8) == 0x100 && Pow2(9) == 0x200 && Pow2(10) == 0x400 && Pow2(12) == 0x1000
    ensures Pow2(16) == 0x1_0000 && Pow2(32) == 0x1_0000_0000
    ensures Pow2(63) == 0x8000_0000_0000_0000 && Pow2(64) == TWO_64
  {
    hide Pow2;
    Pow2Small();
    Pow2Add(8, 1);
    Pow2Add(8, 2);
    Pow2Add(8, 4);
    Pow2Add(8, 8);
    Pow2Add(16, 16);
    Pow2Add(32, 32);
    Pow2Add(63, 1);
  }

  lemma Pow2Small()
    ensures Pow2(1) == 0x2 && Pow2(2) == 0x4 && Pow2(3) == 0x8 && Pow2(4) == 0x10 && Pow2(8) == 0x100
  {
    assert Pow2(4) == 0x10;
  }
}
