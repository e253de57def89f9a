/** Natural alignment of addresses, as the `Get_align`, `Align_down` and `Test_align` macros
    compute it. The macros mask with `n - 1`; for the powers of two they are used with, that
    is the remainder. It is written as repeated subtraction, and `GetAlignIsRemainder` says
    what it is: this keeps division by a symbolic page size out of every other proof. */
module Alignment {
  function GetAlign(a: nat, n: nat): (r: nat)
    requires 0 < n
    ensures r < n && r <= a
  {
    if a < n then a else GetAlign(a - n, n)
  }

  function AlignDown(a: nat, n: nat): (r: nat)
    requires 0 < n
    ensures r <= a < r + n
  {
    a - GetAlign(a, n)
  }

  predicate Aligned(a: nat, n: nat)
    requires 0 < n
  {
    GetAlign(a, n) == 0
  }

  lemma {:induction false} GetAlignIsRemainder(a: nat, n: nat)
    requires 0 < n
    ensures GetAlign(a, n) == a % n
  {
    if a < n {
      assert a % n == a;
    } else {
      GetAlignIsRemainder(a - n, n);
      RemainderShift(a - n, n);
    }
  }

  lemma RemainderShift(a: nat, n: nat)
    requires 0 < n
    ensures (a + n) % n == a % n
  {
    var q, r := a / n, a % n;
    var q', r' := (a + n) / n, (a + n) % n;
    assert n * (q + 1 - q') == r' - r;
    MulOrder(n, q', q + 1);
    MulOrder(n, q + 1, q');
    assert n * (q + 1 - q') == n * (q + 1) - n * q';
  }

  /** Products with a positive factor are ordered like the other factors. */
  lemma MulOrder(n: int, i: int, j: int)
    requires 0 < n
    ensures i < j ==> n * i + n <= n * j
    ensures j <= i ==> n * j <= n * i
  {
    if i < j {
      MulPositive(n, j - i - 1);
    } else {
      MulPositive(n, i - j);
    }
  }

  lemma MulPositive(n: int, d: int)
    requires 0 <= n && 0 <= d
    ensures 0 <= n * d
  {
  }

  lemma {:induction false} AlignedStep(a: nat, n: nat)
    requires 0 < n
    ensures GetAlign(a + n, n) == GetAlign(a, n)
  {
  }

  /** Within one block the distance to an aligned base is the alignment. */
  lemma {:induction false} BlockBase(base: nat, a: nat, n: nat)
    requires 0 < n && Aligned(base, n) && base <= a < base + n
    ensures AlignDown(a, n) == base && GetAlign(a, n) == a - base
  {
    if n <= base {
      BlockBase(base - n, a - n, n);
    }
  }

  /** Aligning down gives an aligned address. */
  lemma {:induction false} AlignDownAligned(a: nat, n: nat)
    requires 0 < n
    ensures Aligned(AlignDown(a, n), n)
  {
    if n <= a {
      AlignDownAligned(a - n, n);
      AlignedStep(AlignDown(a - n, n), n);
    }
  }

  /** Two aligned addresses are equal or at least one block apart. */
  lemma {:induction false} AlignedGap(a: nat, b: nat, n: nat)
    requires 0 < n && Aligned(a, n) && Aligned(b, n) && a < b
    ensures a + n <= b
  {
    if b < a + n {
      BlockBase(a, b, n);
    }
  }

  /** Aligned addresses below `a` are at or below `a` aligned down. */
  lemma AlignedBelow(base: nat, a: nat, n: nat)
    requires 0 < n && Aligned(base, n) && base <= a
    ensures base <= AlignDown(a, n)
  {
    AlignDownAligned(a, n);
    if AlignDown(a, n) < base {
      AlignedGap(AlignDown(a, n), base, n);
    }
  }

  lemma {:induction false} AlignedSum(a: nat, b: nat, n: nat)
    requires 0 < n && Aligned(a, n) && Aligned(b, n)
    ensures Aligned(a + b, n)
  {
    if n <= b {
      AlignedSum(a, b - n, n);
      AlignedStep(a + b - n, n);
    }
  }

  /** A multiple of a multiple: page-aligned addresses are double-word aligned. */
  lemma {:induction false} AlignedDivisor(a: nat, n: nat, d: nat)
    requires 0 < n && 0 < d && Aligned(n, d) && Aligned(a, n)
    ensures Aligned(a, d)
  {
    if n <= a {
      AlignedDivisor(a - n, n, d);
      AlignedSum(a - n, n, d);
    }
  }

  lemma QuotientOf(k: nat, w: nat, q: nat, r: nat)
    requires 0 < w && r < w && k == w * q + r
    ensures k / w == q
  {
    var q' := k / w;
    assert k == w * q' + k % w;
    MulOrder(w, q, q');
    MulOrder(w, q', q);
  }

  lemma DivideTwice(v: nat, d: nat, p: nat)
    requires 0 < d && 0 < p
    ensures 0 < d * p && v / d / p == v / (d * p)
  {
    MulOrder(d, 0, p);
    var h, s := v / d, v % d;
    var q, r := h / p, h % p;
    assert v == d * h + s;
    assert h == p * q + r;
    Remainders(v, d, h, s, p, q, r);
    QuotientOf(v, d * p, q, d * r + s);
  }

  lemma Remainders(v: nat, d: nat, h: nat, s: nat, p: nat, q: nat, r: nat)
    requires s < d && r < p && v == d * h + s && h == p * q + r
    ensures 0 <= d * r + s < d * p && v == d * p * q + (d * r + s)
  {
    MulOrder(d, r + 1, p);
    MulPositive(d, r);
    assert d * h == d * (p * q) + d * r;
    assert d * (p * q) == d * p * q;
  }
}
