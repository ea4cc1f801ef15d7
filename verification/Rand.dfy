/** lib/rand.c: an additive lagged generator over a fixed array. */
module Random {
  import opened Bits

  const SEED: int := 5

  /** C's `int` and its wrapping sum. */
  type Int32 = x: int | -0x8000_0000 <= x < 0x8000_0000

  function Wrap32(x: int): Int32 { (x + 0x8000_0000) % 0x1_0000_0000 - 0x8000_0000 }

  /** C's remainder, which takes the sign of the dividend. */
  function Rem(a: int, b: int): int
    requires b > 0
  { if a >= 0 then a % b else -((-a) % b) }

  /** The sequence the generator is defined by, without any array. */
  ghost function Lagged(i: nat): (w: Int32)
    ensures i < 34 ==> 0 <= w < 0x7fff_ffff
  {
    if i == 0 then SEED
    else if i < 31 then 16807 * Lagged(i - 1) % 0x7fff_ffff
    else if i < 34 then Lagged(i - 31)
    else Wrap32(Lagged(i - 31) + Lagged(i - 3))
  }

  /** `(uint64)w % 10 + 1`: a negative word is extended to 64 bits first. */
  function Digit(w: Int32): (d: nat)
    ensures 1 <= d <= 10
  { (if w < 0 then 0x1_0000_0000_0000_0000 + w else w) % 10 + 1 }

  /** The array after n calls: each call overwrites one word. */
  ghost function Contents(n: nat): (c: seq<Int32>)
    ensures |c| == 1000
    decreases n, 0
  {
    if n == 0 then seq(1000, i requires 0 <= i < 1000 => if i < 344 then Lagged(i) else 0)
    else Contents(n - 1)[344 + (n - 1) % 656 := Written(n - 1)]
  }

  /** The word that call number n (from 0) writes: the sum of the words 31 and 3
      places before it. */
  ghost function Written(n: nat): Int32
    decreases n, 1
  {
    var early: int, late: int := Contents(n)[344 + n % 656 - 31], Contents(n)[344 + n % 656 - 3];
    Wrap32(early + late)
  }

  /** How many words are in place after n calls: the first pass fills the array. */
  ghost function Filled(n: nat): nat { if n < 656 then 344 + n else 1000 }

  class Generator {
    const r: array<Int32>
    var initialize: int
    var t: int
    ghost var calls: nat

    ghost predicate Valid()
      reads this, r
    {
      && r.Length == 1000 && (initialize == 0 ==> calls == 0 && t == 0 && ZeroTail())
      && (initialize != 0 ==> calls > 0 && t == (calls - 1) % 656 + 1 && r[..] == Contents(calls))
    }

    ghost predicate ZeroTail()
      reads r
    { forall i :: 344 <= i < r.Length ==> r[i] == 0 }

    ghost predicate HoldsUpTo(n: nat)
      reads r
    { n <= r.Length && forall i :: 0 <= i < n ==> r[i] == Lagged(i) }

    constructor ()
      ensures Valid() && calls == 0 && fresh(r)
    {
      r := new Int32[1000](_ => 0);
      initialize, t, calls := 0, 0, 0;
    }

    /** `rand`: call number n overwrites one word with the wrapped sum of the words
        31 and 3 places before it, and returns one more than the last decimal digit
        of that word, a negative one taken as the 64-bit number it is extended to. */
    method Rand() returns (x: nat)
      requires Valid()
      modifies this, r
      ensures Valid() && calls == old(calls) + 1 && 1 <= x <= 10
      ensures var k, c := 344 + old(calls) % 656, Contents(old(calls));
              && r[..] == c[k := r[k]] && r[k] == Written(old(calls))
              && var w: int, early: int, late: int := r[k], c[k - 31], c[k - 3];
                 && (w - early - late) % 0x1_0000_0000 == 0
                 && (w >= 0 ==> (x - 1) % 10 == w % 10)
                 && (w < 0 ==> (x - 1) % 10 == (0x1_0000_0000_0000_0000 + w) % 10)
    {
      hide Wrap32, Digit, Lagged, Contents, Written;
      if initialize == 0 {
        Initialize();
        initialize := 1;
      }
      Position(calls, t);
      t := t % 656;
      Refill(calls);
      t := t + 1;
      calls := calls + 1;
      x := Digit(r[t - 1 + 344]);
      WrittenLaw(old(calls));
      DigitLaw(r[t - 1 + 344]);
    }

    /** Line 30 of rand.c. */
    method Refill(ghost n: nat)
      requires r.Length == 1000 && t == n % 656 && r[..] == Contents(n)
      modifies r
      ensures r[..] == Contents(n + 1) == Contents(n)[344 + t := Written(n)] && r[344 + t] == Written(n)
    {
      hide Wrap32, Contents, Written;
      NextContents(n);
      ghost var c := r[..];
      var early: int, late: int := r[t + 344 - 31], r[t + 344 - 3];
      assert early == c[t + 344 - 31] && late == c[t + 344 - 3];
      r[t + 344] := Wrap32(early + late);
      assert r[..] == c[344 + t := Written(n)];
    }

    /** Lines 13 to 16 of rand.c: the remainder is made non-negative. */
    method Seeded(last: Int32) returns (next: Int32)
      ensures next == 16807 * last % 0x7fff_ffff
    {
      hide Rem;
      var product: int := 16807 * (last as int);
      RemainderFix(product, 0x7fff_ffff);
      next := Rem(product, 0x7fff_ffff);
      if next < 0 {
        next := next + 0x7fff_ffff;
      }
    }

    /** Lines 11 to 23 of rand.c. */
    method Initialize()
      requires r.Length == 1000 && ZeroTail()
      modifies r
      ensures r[..] == Contents(0)
    {
      r[0] := SEED;
      var i := 1;
      while i < 31
        invariant 1 <= i <= 31 && HoldsUpTo(i) && ZeroTail()
      {
        r[i] := Seeded(r[i - 1]);
        i := i + 1;
      }
      while i < 34
        invariant 31 <= i <= 34 && HoldsUpTo(i) && ZeroTail()
      {
        r[i] := r[i - 31];
        i := i + 1;
      }
      while i < 344
        invariant 34 <= i <= 344 && HoldsUpTo(i) && ZeroTail()
      {
        var early: int, late: int := r[i - 31], r[i - 3];
        r[i] := Wrap32(early + late);
        i := i + 1;
      }
      assert r[..] == Contents(0);
    }
  }

  /** The remainder is the number of least magnitude that is congruent to a and does
      not have the opposite sign. */
  lemma RemLaw(a: int, b: int)
    requires b > 0
    ensures (a - Rem(a, b)) % b == 0
    ensures (a >= 0 ==> 0 <= Rem(a, b) < b) && (a <= 0 ==> -b < Rem(a, b) <= 0)
  {
    if a >= 0 {
      DivUnique(a - a % b, b, a / b, 0);
    } else {
      var q := (-a) / b;
      assert a - Rem(a, b) == -q * b;
      DivUnique(a - Rem(a, b), b, -q, 0);
    }
  }

  /** `(uint64)w % 10 + 1` by the sign of w. */
  lemma DigitLaw(w: Int32)
    ensures w >= 0 ==> (Digit(w) - 1) % 10 == w % 10
    ensures w < 0 ==> (Digit(w) - 1) % 10 == (0x1_0000_0000_0000_0000 + w as int) % 10
    ensures Digit(-1) == 6 && Digit(-31116076) == 1 && Digit(0) == 1 && Digit(19) == 10
  {}

  /** The 32-bit sum is the only Int32 congruent to the exact one. */
  lemma Wrap32Law(x: int, w: Int32)
    ensures w == Wrap32(x) <==> (w - x) % 0x1_0000_0000 == 0
  {
    var m, s := 0x1_0000_0000, x + 0x8000_0000;
    var q := s / m;
    assert Wrap32(x) - x == -q * m;
    DivUnique(Wrap32(x) - x, m, -q, 0);
    if (w - x) % m == 0 {
      var k := (w - x) / m;
      assert s == -k * m + (w + 0x8000_0000);
      DivUnique(s, m, -k, w + 0x8000_0000);
    }
  }

  lemma WrittenLaw(n: nat)
    ensures var k, c := 344 + n % 656, Contents(n); var w: int, early: int, late: int := Written(n), c[k - 31],
            c[k - 3];
            (w - early - late) % 0x1_0000_0000 == 0
  {
    hide Wrap32, Contents;
    var k, c := 344 + n % 656, Contents(n);
    var early: int, late: int := c[k - 31], c[k - 3];
    Wrap32Law(early + late, Written(n));
  }

  /** The defining sequence by its numbers: seed 5, multiplier 16807 modulo
      2^31 - 1, a copy, and then sums modulo 2^32. */
  lemma LaggedLaw(i: nat)
    ensures i == 0 ==> Lagged(i) == 5
    ensures 0 < i < 31 ==> 0 <= Lagged(i) < 2147483647 && (Lagged(i) - 16807 * Lagged(i - 1)) % 2147483647 == 0
    ensures 31 <= i < 34 ==> Lagged(i) == Lagged(i - 31)
    ensures i >= 34 ==> (Lagged(i) - Lagged(i - 31) - Lagged(i - 3)) % 0x1_0000_0000 == 0
  {
    hide Wrap32;
    if 0 < i < 31 {
      var p, m: int := 16807 * Lagged(i - 1), 2147483647;
      assert p == p / m * m + p % m;
      DivUnique(p % m - p, m, -(p / m), 0);
    } else if i >= 34 {
      var early: int, late: int := Lagged(i - 31), Lagged(i - 3);
      Wrap32Law(early + late, Lagged(i));
    }
  }

  lemma RemainderFix(a: int, b: int)
    requires b > 0
    ensures -b < Rem(a, b) < b && (if Rem(a, b) < 0 then Rem(a, b) + b else Rem(a, b)) == a % b
  {
    if a < 0 {
      var q, r := (-a) / b, (-a) % b;
      assert -a == q * b + r;
      if r == 0 { DivUnique(a, b, -q, 0); } else { DivUnique(a, b, -q - 1, b - r); }
    }
  }

  lemma Position(n: nat, t: nat)
    requires if n == 0 then t == 0 else t == (n - 1) % 656 + 1
    ensures t % 656 == n % 656
  {}

  lemma NextContents(n: nat)
    ensures Contents(n + 1) == Contents(n)[344 + n % 656 := Written(n)]
    ensures Written(n) == Sum32(Contents(n)[344 + n % 656 - 31], Contents(n)[344 + n % 656 - 3])
  {}

  function Sum32(a: Int32, b: Int32): Int32 { Wrap32((a as int) + b as int) }

  lemma LaggedAt(i: nat)
    requires i >= 34
    ensures Lagged(i) == Sum32(Lagged(i - 31), Lagged(i - 3))
  {}

  /** Although the array is overwritten over and over, it only ever holds the
      defining sequence: a rewritten word is the word that was there. */
  lemma {:induction false} ContentsLagged(n: nat)
    ensures forall i :: 0 <= i < Filled(n) ==> Contents(n)[i] == Lagged(i)
    ensures Written(n) == Lagged(344 + n % 656)
  {
    hide Contents, Lagged, Wrap32, Written, Sum32, Filled;
    if n > 0 {
      ContentsLagged(n - 1);
      NextContents(n - 1);
      FilledNext(n - 1);
    } else {
      FirstContents();
    }
    FilledNext(n);
    NextContents(n);
    LaggedAt(344 + n % 656);
  }

  lemma FirstContents()
    ensures forall i :: 0 <= i < Filled(0) ==> Contents(0)[i] == Lagged(i)
  {}

  lemma FilledNext(n: nat)
    ensures 344 + n % 656 <= Filled(n) <= 1000 && Filled(n + 1) <= 1000
    ensures Filled(n + 1) <= Filled(n) || Filled(n + 1) == Filled(n) + 1 == 344 + n % 656 + 1
  {}

  /** The words, and so the results, repeat with period 656 from the first call on. */
  lemma {:induction false} Periodic(n: nat, k: nat)
    ensures Written(n + 656 * k) == Written(n)
    decreases k
  {
    hide Written;
    if k > 0 {
      OnePeriod(n);
      Periodic(n + 656, k - 1);
      assert n + 656 + 656 * (k - 1) == n + 656 * k;
    }
  }

  lemma OnePeriod(n: nat)
    ensures Written(n + 656) == Written(n)
  {
    hide Written, Lagged;
    ContentsLagged(n);
    ContentsLagged(n + 656);
    DivUnique(n + 656, 656, n / 656 + 1, n % 656);
  }
}
