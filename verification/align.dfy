/** Alignment arithmetic. The allocator rounds sizes with `(sz + m) & ~m` and
    tests addresses with `addr & m`; both are modelled here bit by bit on
    natural numbers, and their arithmetic meaning is proved for masks of the
    form 2^k - 1. */
module Align {

  /** `m` is 2^k - 1 for some k >= 0: a run of low one-bits and nothing above. */
  predicate IsLowMask(m: nat)
    decreases m
  {
    m == 0 || (m % 2 == 1 && IsLowMask(m / 2))
  }

  /** Bitwise `x & y`. */
  function BitAnd(x: nat, y: nat): nat
    decreases x
  {
    if x == 0 || y == 0 then 0
    else (if x % 2 == 1 && y % 2 == 1 then 1 else 0) + 2 * BitAnd(x / 2, y / 2)
  }

  /** Bitwise `x & ~y`. */
  function BitAndNot(x: nat, y: nat): nat
    decreases x
  {
    if x == 0 then 0
    else (if x % 2 == 1 && y % 2 == 0 then 1 else 0) + 2 * BitAndNot(x / 2, y / 2)
  }

  /** Quotient and remainder are determined by any decomposition `x == q * d + r`
      with `r < d`. */
  lemma DivModUnique(x: nat, d: nat, q: nat, r: nat)
    requires 0 < d && r < d && x == q * d + r
    ensures x / d == q && x % d == r
  {
    var q', r' := x / d, x % d;
    assert x == q' * d + r';
    if q' < q {
      MulGap(q, q', d);
    } else if q < q' {
      MulGap(q', q, d);
    }
  }

  /** Multiples of `d` for different factors lie at least `d` apart. */
  lemma {:induction false} MulGap(a: nat, b: nat, d: nat)
    requires b < a
    ensures a * d - b * d >= d
    decreases a - b
  {
    MulSucc(b, d);
    if b + 1 < a {
      MulGap(a, b + 1, d);
    }
  }

  lemma MulSucc(k: nat, d: nat)
    ensures (k + 1) * d == k * d + d
  {
  }

  /** For a low mask `m`, `x & m` keeps the remainder modulo `m + 1` and
      `x & ~m` clears it. */
  lemma {:induction false} BitMaskArith(x: nat, m: nat)
    requires IsLowMask(m)
    ensures BitAnd(x, m) == x % (m + 1)
    ensures BitAndNot(x, m) == x - x % (m + 1)
    decreases x, 1
  {
    if x == 0 {
    } else if m == 0 {
      BitMaskArith(x / 2, 0);
      ModOne(x);
      ModOne(x / 2);
    } else {
      BitMaskArithOdd(x, m);
    }
  }

  lemma {:induction false} BitMaskArithOdd(x: nat, m: nat)
    requires 0 < x && 0 < m && IsLowMask(m)
    ensures BitAnd(x, m) == x % (m + 1)
    ensures BitAndNot(x, m) == x - x % (m + 1)
    decreases x, 0
  {
    var h := m / 2;
    BitMaskArith(x / 2, h);
    var r := (x / 2) % (h + 1);
    BitStep(x, m, r, BitAnd(x / 2, h), BitAndNot(x / 2, h));
    OddMaskRemainder(x, h);
  }

  /** The remainder modulo `2 * h + 2` is built from the low bit and the
      remainder of `x / 2` modulo `h + 1`. */
  lemma OddMaskRemainder(x: nat, h: nat)
    ensures x % (2 * h + 2) == 2 * ((x / 2) % (h + 1)) + x % 2
    ensures x == 2 * (x / 2) + x % 2
  {
    var q, r := (x / 2) / (h + 1), (x / 2) % (h + 1);
    HalveDecomposition(x, h, q, r);
    DivModUnique(x, 2 * h + 2, q, 2 * r + x % 2);
  }

  lemma ModOne(x: nat)
    ensures x % 1 == 0
  {
  }

  /** One step of both bitwise recursions for an odd mask. */
  lemma {:induction false} BitStep(x: nat, m: nat, r: nat, lo: nat, hi: nat)
    requires 0 < x && m % 2 == 1
    requires lo == BitAnd(x / 2, m / 2) && hi == BitAndNot(x / 2, m / 2)
    requires lo == r && hi == x / 2 - r
    ensures BitAnd(x, m) == x % 2 + 2 * r && BitAndNot(x, m) == 2 * (x / 2 - r)
    ensures m + 1 == 2 * (m / 2) + 2
  {
  }

  /** Doubling a decomposition of `x / 2` modulo `h + 1` gives one of `x`
      modulo `2 * h + 2`. */
  lemma HalveDecomposition(x: nat, h: nat, q: nat, r: nat)
    requires x / 2 == q * (h + 1) + r && r < h + 1
    ensures x == q * (2 * h + 2) + (2 * r + x % 2) && 2 * r + x % 2 < 2 * h + 2
  {
    assert 2 * (q * (h + 1)) == q * (2 * h + 2);
  }

  /** A multiple of `d` is what `x - x % d` yields, and sums of multiples are multiples. */
  lemma MultipleOf(x: nat, d: nat)
    requires 0 < d
    ensures (x - x % d) % d == 0
    ensures x - x % d == (x / d) * d
  {
    DivModUnique(x - x % d, d, x / d, 0);
  }

  lemma SumOfMultiples(a: nat, b: nat, d: nat)
    requires 0 < d && a % d == 0 && b % d == 0
    ensures (a + b) % d == 0
  {
    DivModUnique(a + b, d, a / d + b / d, 0);
  }

  /** The source's size rounding `(sz + m) & ~m`: for a low mask it is the
      least multiple of `m + 1` that is at least `sz`. */
  function AlignedSize(sz: nat, m: nat): (r: nat)
    ensures IsLowMask(m) ==> r % (m + 1) == 0 && sz <= r < sz + m + 1
  {
    if IsLowMask(m) then
      BitMaskArith(sz + m, m);
      MultipleOf(sz + m, m + 1);
      BitAndNot(sz + m, m)
    else
      BitAndNot(sz + m, m)
  }

  /** Rounding up is `sz + m` with its remainder modulo `m + 1` dropped. */
  lemma AlignedSizeRoundsUp(sz: nat, m: nat)
    requires IsLowMask(m)
    ensures AlignedSize(sz, m) == ((sz + m) / (m + 1)) * (m + 1)
  {
    BitMaskArith(sz + m, m);
    MultipleOf(sz + m, m + 1);
  }
}
