/** The search for PLL and divider settings that give a requested CPU frequency exactly. */
module ClockSolver {
  import opened Alignment
  import opened FuseWord
  import RegisterRounding

  const PM_MAX_MUL := 15
  const VCO_MAX := 240_000_000
  const VCO_MIN := 160_000_000
  const PBA_MAX := 66_000_000

  /** The oscillator is used as it is; no setting exists; or the PLL factor `mul`, the PLL divider `div`, the
      PLL's halving, the two clock dividers as exponents of two, and the frequencies that result. */
  datatype Clocks =
    | Oscillator(freq: nat)
    | Fail
    | Pll(mul: nat, div: nat, div2En: nat, div2Cpu: nat, div2Pba: nat, pll: nat, lowRange: bool, cpuFreq: nat, pbaFreq: nat)

  /** With this divider the factor is a whole number. */
  predicate Whole(cpu: nat, osc: nat, div: nat)
    requires 0 < osc
  {
    cpu * div % osc == 0
  }

  function Factor(cpu: nat, osc: nat, div: nat): nat
    requires 0 < osc
  {
    MulPositive(cpu, div);
    cpu * div / osc
  }

  /** The PLL can give the frequency with this divider and factor. */
  predicate Solves(cpu: nat, osc: nat, div: nat, mul: nat) {
    1 <= div < 32 && mul <= 15 && osc * mul == cpu * div
  }

  // ---- Arithmetic --------------------------------------------------------------------

  lemma ExactQuotient(n: nat, d: nat, q: nat)
    requires 0 < d && n == d * q
    ensures n / d == q && n % d == 0
  {
    var r := n / d;
    assert n == d * r + n % d;
    MulOrder(d, q, r);
    MulOrder(d, r, q);
  }

  /** Multiples of the divisor do not matter: a divider works for the frequency if it works for its
      remainder. */
  lemma RestDecides(cpu: nat, osc: nat, div: nat)
    requires 0 < osc
    ensures div * (cpu % osc) % osc == 0 <==> Whole(cpu, osc, div)
  {
    var q, r := cpu / osc, cpu % osc;
    assert cpu == osc * q + r;
    var x := div * r;
    MulAssoc(osc, q, div);
    assert cpu * div == osc * (q * div) + x;
    AddMultiple(x, osc, q * div);
  }

  lemma MulAssoc(a: nat, b: nat, c: nat)
    ensures (a * b) * c == a * (b * c) && 0 <= b * c
  {
  }

  lemma AddMultiple(x: nat, n: nat, k: nat)
    requires 0 < n
    ensures 0 <= n * k && (n * k + x) % n == x % n
  {
    var q, r := x / n, x % n;
    assert n * k + x == n * (k + q) + r;
    RemainderOf(n * k + x, n, k + q, r);
  }

  lemma {:induction false} ShiftIsQuotient(v: nat, n: nat)
    ensures ShiftRight(v, n) == v / Pow2(n)
  {
    var q := v;
    if n > 0 {
      ShiftIsQuotient(v / 2, n - 1);
      DivideTwice(v, 2, Pow2(n - 1));
    }
  }

  // ---- The search for the PLL divider ------------------------------------------------

  /** The least divider that makes the factor whole, or 32. */
  method FindDivider(cpu: nat, osc: nat) returns (div: nat)
    requires 0 < osc
    ensures 1 <= div <= 32 && (div < 32 ==> Whole(cpu, osc, div))
    ensures forall d | 1 <= d < div :: !Whole(cpu, osc, d)
  {
    hide Whole;
    var rest := cpu % osc;
    div := 1;
    while div < 32
      invariant 1 <= div <= 32
      invariant forall d | 1 <= d < div :: !Whole(cpu, osc, d)
    {
      RestDecides(cpu, osc, div);
      if div * rest % osc == 0 {
        break;
      }
      div := div + 1;
    }
  }

  /** The factor of the least divider is the least factor: if that is too large, nothing solves it. */
  lemma NoSolution(cpu: nat, osc: nat, div: nat)
    requires 0 < cpu && 0 < osc && 1 <= div <= 32
    requires forall e | 1 <= e < div :: !Whole(cpu, osc, e)
    ensures div == 32 || Factor(cpu, osc, div) > PM_MAX_MUL ==> !exists d: nat, m: nat :: Solves(cpu, osc, d, m)
  {
    hide Whole;
    if exists d: nat, m: nat :: Solves(cpu, osc, d, m) {
      var d: nat, m: nat :| Solves(cpu, osc, d, m);
      FactorGrows(cpu, osc, div, d, m);
      assert !(1 <= d < div);
    }
  }

  lemma FactorGrows(cpu: nat, osc: nat, div: nat, d: nat, m: nat)
    requires 0 < cpu && 0 < osc && osc * m == cpu * d
    ensures Whole(cpu, osc, d) && (div <= d ==> Factor(cpu, osc, div) <= m)
  {
    MulPositive(cpu, d);
    ExactQuotient(cpu * d, osc, m);
    if div <= d {
      MulPositive(cpu, div);
      MulOrder(cpu, d, div);
      QuotientOrder(cpu * div, cpu * d, osc);
    }
  }

  lemma QuotientOrder(a: nat, b: nat, d: nat)
    requires 0 < d && a <= b
    ensures a / d <= b / d
  {
    MulOrder(d, b / d + 1, a / d);
  }

  /** The least divider divides every divider that makes the factor whole. */
  lemma LeastDivides(cpu: nat, osc: nat, div: nat, e: nat)
    requires 0 < osc && 0 < div && Whole(cpu, osc, div) && Whole(cpu, osc, e)
    requires forall d | 1 <= d < div :: !Whole(cpu, osc, d)
    ensures e % div == 0
  {
    hide Whole;
    var q, r := e / div, e % div;
    WholeRemainder(cpu, osc, div, q, r);
    assert e == div * q + r;
  }

  lemma WholeRemainder(cpu: nat, osc: nat, div: nat, q: nat, r: nat)
    requires 0 < osc && Whole(cpu, osc, div)
    ensures 0 <= div * q && (Whole(cpu, osc, div * q + r) <==> Whole(cpu, osc, r))
  {
    MulPositive(div, q);
    MulPositive(cpu, div);
    MulPositive(cpu, r);
    var k := cpu * div / osc;
    assert cpu * div == osc * k;
    MulAssoc(cpu, div, q);
    MulAssoc(osc, k, q);
    AddMultiple(cpu * r, osc, k * q);
    assert cpu * (div * q + r) == cpu * (div * q) + cpu * r;
  }

  // ---- Moving powers of two ----------------------------------------------------------

  /** `osc * mul == cpu * div * 2^t`. */
  predicate Balanced(cpu: nat, osc: nat, mul: nat, div: nat, t: nat) {
    osc * mul == cpu * div * Pow2(t)
  }

  lemma HalveDiv(cpu: nat, osc: nat, mul: nat, div: nat, t: nat)
    requires Balanced(cpu, osc, mul, div, t) && div % 2 == 0
    ensures Balanced(cpu, osc, mul, div / 2, t + 1)
  {
    var h := div / 2;
    assert div == 2 * h;
    Regroup2(cpu, h, Pow2(t));
  }

  lemma Regroup2(cpu: nat, h: nat, p: nat)
    ensures cpu * (2 * h) * p == cpu * h * (2 * p)
  {
    assert cpu * (2 * h) == 2 * (cpu * h);
  }

  lemma DoubleMul(cpu: nat, osc: nat, mul: nat, div: nat, t: nat)
    requires Balanced(cpu, osc, mul, div, t)
    ensures Balanced(cpu, osc, 2 * mul, div, t + 1)
  {
    assert osc * (2 * mul) == 2 * (osc * mul);
    var x := cpu * div;
    assert x * (2 * Pow2(t)) == 2 * (x * Pow2(t));
  }

  /** Puts the powers of two of the divider behind the PLL. */
  method OddDivider(cpu: nat, osc: nat, mul: nat, div: nat) returns (odd: nat, div2Cpu: nat)
    requires Solves(cpu, osc, div, mul)
    ensures Balanced(cpu, osc, mul, odd, div2Cpu) && odd % 2 == 1 && odd <= div
    ensures odd * Pow2(div2Cpu) == div
  {
    odd, div2Cpu := div, 0;
    while odd % 2 == 0
      invariant 0 < odd <= div && Balanced(cpu, osc, mul, odd, div2Cpu) && odd * Pow2(div2Cpu) == div
      decreases odd
    {
      HalveDiv(cpu, osc, mul, odd, div2Cpu);
      DoubleProduct(Pow2(div2Cpu), odd / 2);
      odd := odd / 2;
      div2Cpu := div2Cpu + 1;
    }
  }

  /** An odd divisor of `d * 2^t` is not above `d`. */
  lemma {:induction false} OddBelow(odd: nat, y: nat, d: nat, t: nat)
    requires odd % 2 == 1 && 0 < d && odd * y == d * Pow2(t)
    ensures odd <= d
    decreases t
  {
    if t == 0 {
      MulOrder(odd, 0, y);
      MulOrder(odd, y, 1);
    } else {
      var p := Pow2(t - 1);
      DoubleProduct(p, d);
      OddHalf(odd, y, p * d);
      OddBelow(odd, y / 2, d, t - 1);
    }
  }

  lemma OddHalf(odd: nat, y: nat, x: int)
    requires odd % 2 == 1 && odd * y == 2 * x
    ensures odd * (y / 2) == x
  {
    var h, k := odd / 2, y / 2;
    assert odd * y == 2 * (odd * k) + odd * (y % 2);
    assert odd * (y % 2) == if y % 2 == 1 then 2 * h + 1 else 0;
  }

  // ---- When the divider fits its field -----------------------------------------------

  /** Some divider that fits the four bits of the register field makes the factor whole, up to the
      powers of two the search can move behind the PLL. */
  ghost predicate FitsField(cpu: nat, osc: nat)
    requires 0 < osc
  {
    exists d: nat | 1 <= d <= 15 :: Whole(16 * cpu, osc, d)
  }

  /** Some setting whose divider fits the field gives the frequency. */
  ghost predicate HasFittingSetting(cpu: nat, osc: nat) {
    exists m: nat, d: nat, t: nat :: 0 < m && 0 < d <= 15 && Balanced(cpu, osc, m, d, t)
  }

  lemma FieldFitsExactly(cpu: nat, osc: nat, div: nat, odd: nat, t: nat)
    requires 0 < cpu && 0 < osc && 1 <= div < 32 && Whole(cpu, osc, div)
    requires forall e | 1 <= e < div :: !Whole(cpu, osc, e)
    requires odd % 2 == 1 && odd * Pow2(t) == div
    ensures odd <= 15 <==> FitsField(cpu, osc)
    ensures odd <= 15 <==> HasFittingSetting(cpu, osc)
  {
    hide Whole, Balanced, Pow2;
    if odd <= 15 {
      SmallOddFits(cpu, osc, div, odd, t);
    }
    if FitsField(cpu, osc) {
      var d: nat :| 1 <= d <= 15 && Whole(16 * cpu, osc, d);
      FitsIsSetting(cpu, osc, d);
    }
    if HasFittingSetting(cpu, osc) {
      var m: nat, d: nat, u: nat :| 0 < m && 0 < d <= 15 && Balanced(cpu, osc, m, d, u);
      SettingBoundsOdd(cpu, osc, div, odd, t, m, d, u);
    }
  }

  lemma SmallOddFits(cpu: nat, osc: nat, div: nat, odd: nat, t: nat)
    requires 0 < cpu && 0 < osc && 1 <= div < 32 && Whole(cpu, osc, div) && odd * Pow2(t) == div
    ensures 0 < odd && Whole(16 * cpu, osc, odd)
  {
    hide Whole, Pow2;
    ExponentBelow(odd, t);
    SixteenTimes(odd, t);
    WholeRemainder(cpu, osc, div, Pow2(4 - t), 0);
    WholeSixteen(cpu, osc, odd);
  }

  lemma SixteenTimes(odd: nat, t: nat)
    requires t < 5
    ensures odd * Pow2(t) * Pow2(4 - t) == 16 * odd
  {
    MulAssoc(odd, Pow2(t), Pow2(4 - t));
    assert Pow2(4) == 16 && Pow2(3) == 8 && Pow2(2) == 4 && Pow2(1) == 2 && Pow2(0) == 1;
  }

  lemma WholeSixteen(cpu: nat, osc: nat, odd: nat)
    requires 0 < osc
    ensures Whole(cpu, osc, 0) && (Whole(cpu, osc, 16 * odd) ==> Whole(16 * cpu, osc, odd))
  {
    MulAssoc(16, cpu, odd);
    assert cpu * (16 * odd) == 16 * (cpu * odd);
  }

  lemma ExponentBelow(odd: nat, t: nat)
    requires 0 < odd * Pow2(t) < 32
    ensures 0 < odd && t < 5
  {
    MulOrder(Pow2(t), odd, 1);
    MulOrder(Pow2(t), 1, odd);
    if 5 <= t {
      assert Pow2(5) == 32;
      RegisterRounding.Pow2Monotone(5, t);
    }
  }

  lemma FitsIsSetting(cpu: nat, osc: nat, d: nat)
    requires 0 < cpu && 0 < osc && 1 <= d <= 15 && Whole(16 * cpu, osc, d)
    ensures HasFittingSetting(cpu, osc)
  {
    var n := 16 * cpu * d;
    var m := n / osc;
    assert n == osc * m;
    MulOrder(cpu, 0, d);
    assert n == cpu * d * 16;
    assert Pow2(4) == 16;
    assert Balanced(cpu, osc, m, d, 4);
  }

  lemma SettingBoundsOdd(cpu: nat, osc: nat, div: nat, odd: nat, t: nat, m: nat, d: nat, u: nat)
    requires 0 < osc && 0 < div && Whole(cpu, osc, div)
    requires forall e | 1 <= e < div :: !Whole(cpu, osc, e)
    requires odd % 2 == 1 && odd * Pow2(t) == div && 0 < d && Balanced(cpu, osc, m, d, u)
    ensures odd <= d
  {
    var e := d * Pow2(u);
    assert osc * m == cpu * e by {
      MulAssoc(cpu, d, Pow2(u));
    }
    ExactQuotient(cpu * e, osc, m);
    LeastDivides(cpu, osc, div, e);
    var k := e / div;
    MulAssoc(odd, Pow2(t), k);
    OddBelow(odd, Pow2(t) * k, d, u);
  }

  // ---- Raising the PLL frequency -----------------------------------------------------

  /** Raises the PLL frequency as far as its range and its factor allow. */
  method RaisePll(cpu: nat, osc: nat, mul: nat, div: nat, t: nat) returns (high: nat, div2Cpu: nat)
    requires 0 < mul <= PM_MAX_MUL && 0 < div && Balanced(cpu, osc, mul, div, t)
    ensures 0 < high <= PM_MAX_MUL && t <= div2Cpu && Balanced(cpu, osc, high, div, div2Cpu)
    ensures AsFastAsPossible(osc, high, div) && Raised(osc, mul, high, div, div2Cpu - t)
  {
    hide Balanced, Raised;
    NotRaised(osc, mul, div);
    high, div2Cpu := mul, t;
    while osc * 2 * high / div < VCO_MAX
      invariant 0 < high <= PM_MAX_MUL && t <= div2Cpu && Balanced(cpu, osc, high, div, div2Cpu)
      invariant Raised(osc, mul, high, div, div2Cpu - t)
      decreases PM_MAX_MUL - high
    {
      if 2 * high > PM_MAX_MUL {
        break;
      }
      DoubleMul(cpu, osc, high, div, div2Cpu);
      RaiseOnce(osc, mul, high, div, div2Cpu - t);
      high := high * 2;
      div2Cpu := div2Cpu + 1;
    }
  }

  /** A clock divided by a power of two. */
  function Rate(freq: nat, k: nat): nat {
    Quotient(freq, Pow2(k))
  }

  function Quotient(n: nat, d: nat): nat
    requires 0 < d
  {
    n / d
  }

  /** Doubling the factor once more would leave the range of the PLL or of the factor. */
  predicate AsFastAsPossible(osc: nat, mul: nat, div: nat)
    requires 0 < div
  {
    osc * 2 * mul / div >= 240_000_000 || 2 * mul > 15
  }

  /** The factor was doubled `n` times, and a raised one keeps the PLL below the end of its range. */
  predicate Raised(osc: nat, mul: nat, high: nat, div: nat, n: nat)
    requires 0 < div
  {
    high == Pow2(n) * mul && (n == 0 || osc * high / div < 240_000_000)
  }

  lemma NotRaised(osc: nat, mul: nat, div: nat)
    requires 0 < div
    ensures Raised(osc, mul, mul, div, 0)
  {
  }

  lemma RaiseOnce(osc: nat, mul: nat, high: nat, div: nat, n: nat)
    requires 0 < div && Raised(osc, mul, high, div, n) && osc * 2 * high / div < VCO_MAX
    ensures Raised(osc, mul, high * 2, div, n + 1)
  {
    DoubleProduct(Pow2(n), mul);
    assert osc * 2 * high == osc * (high * 2);
  }

  /** Factor and divider of the PLL come from the least divider that makes the factor whole: its powers of two are
      behind the PLL, and the factor is doubled as often as its range allows. */
  ghost predicate Chosen(cpu: nat, osc: nat, mul: nat, div: nat)
    requires 0 < osc && 0 < div
  {
    exists e: nat, m: nat, t: nat, n: nat ::
      && Solves(cpu, osc, e, m) && (forall d | 1 <= d < e :: !Whole(cpu, osc, d))
      && div * Pow2(t) == e && Raised(osc, m, mul, div, n)
  }

  // ---- The peripheral bus divider ----------------------------------------------------

  /** `k` is the least exponent for which the divided clock is not above the request. */
  ghost predicate LeastNotAbove(pll: nat, pba: nat, k: nat) {
    Rate(pll, k) <= pba && forall j: nat | j < k :: Rate(pll, j) > pba
  }

  /** The exponent is the least not above the request exactly if the request is at most the PLL frequency,
      and is not hit exactly while above the bus maximum. */
  ghost predicate BusClockAsAsked(pll: nat, pba: nat, k: nat) {
    LeastNotAbove(pll, pba, k) <==> pba <= pll && !(pba > PBA_MAX && exists j: nat :: Rate(pll, j) == pba)
  }

  /** The search ends with exponent `k`: the request is hit within the bus maximum, or there was a division and the
      result is below the request. */
  ghost predicate Stops(pll: nat, pba: nat, k: nat) {
    Rate(pll, k) == pba <= 66_000_000 || (0 < k && Rate(pll, k) < pba)
  }

  /** The divider the peripheral bus gets. For a request within the bus maximum the result is too. */
  method DividePba(pll: nat, pba: nat) returns (k: nat)
    requires 0 < pll
    ensures BusClockAsAsked(pll, pba, k)
    ensures Stops(pll, pba, k) && forall j: nat | j < k :: !Stops(pll, pba, j)
    ensures pba <= PBA_MAX && pba <= pll ==> Rate(pll, k) <= PBA_MAX
  {
    hide Rate;
    var rest := pll;
    k := 0;
    QuotientShrinks(pll, 0);
    while rest > PBA_MAX || rest != pba
      invariant rest == Rate(pll, k)
      invariant (k == 0 || pba <= rest) && forall j: nat | j < k :: !Stops(pll, pba, j)
      invariant forall j: nat | j < k :: Rate(pll, j) > pba || (k == 1 && pll < pba) || (pba > PBA_MAX && Rate(pll, j) == pba)
      decreases rest + if k == 0 then 1 else 0
    {
      QuotientShrinks(pll, k);
      k := k + 1;
      rest := Rate(pll, k);
      if rest < pba {
        break;
      }
    }
    PbaOutcome(pll, pba, k);
  }

  lemma QuotientShrinks(pll: nat, k: nat)
    ensures Rate(pll, 0) == pll && Rate(pll, k + 1) == Rate(pll, k) / 2
  {
    ShiftIsQuotient(pll, 0);
    ShiftIsQuotient(pll, k);
    ShiftIsQuotient(pll, k + 1);
    ShiftStep(pll, k);
  }

  lemma {:induction false} QuotientFalls(pll: nat, j: nat, k: nat)
    requires j <= k
    ensures Rate(pll, k) <= Rate(pll, j)
    decreases k
  {
    if j < k {
      QuotientFalls(pll, j, k - 1);
      QuotientShrinks(pll, k - 1);
    }
  }

  lemma PbaOutcome(pll: nat, pba: nat, k: nat)
    requires Rate(pll, k) == pba <= PBA_MAX || (Rate(pll, k) < pba && 0 < k)
    requires forall j: nat | j < k :: Rate(pll, j) > pba || (k == 1 && pll < pba) || (pba > PBA_MAX && Rate(pll, j) == pba)
    ensures BusClockAsAsked(pll, pba, k)
  {
    hide Rate;
    QuotientShrinks(pll, 0);
    QuotientFalls(pll, 0, k);
    if LeastNotAbove(pll, pba, k) {
      assert 0 < k ==> Rate(pll, 0) > pba;
      if pba > PBA_MAX && exists j: nat :: Rate(pll, j) == pba {
        var j: nat :| Rate(pll, j) == pba;
        if k <= j {
          QuotientFalls(pll, k, j);
        }
        assert false;
      }
    }
  }

  // ---- The whole ---------------------------------------------------------------------

  /** The PLL output, halved if `div2En` says so. */
  function PllFrequency(osc: nat, mul: nat, div: nat, div2En: nat): nat
    requires 0 < div
  {
    MulAssoc(osc, mul, 1);
    osc * mul / (div * if div2En == 1 then 2 else 1)
  }

  lemma PllExact(cpu: nat, osc: nat, mul: nat, div: nat, t: nat)
    requires 0 < div && Balanced(cpu, osc, mul, div, t)
    ensures t == 0 ==> PllFrequency(osc, mul, div, 0) == cpu
    ensures 0 < t ==> PllFrequency(osc, mul, div, 1) == cpu * Pow2(t - 1)
  {
    if t == 0 {
      assert cpu * div * 1 == div * cpu;
      ExactQuotient(osc * mul, div, cpu);
    } else {
      var p := Pow2(t - 1);
      assert Pow2(t) == 2 * p;
      Regroup4(cpu, div, p);
      ExactQuotient(osc * mul, div * 2, cpu * p);
    }
  }

  lemma Regroup4(c: nat, d: nat, p: nat)
    ensures c * d * (2 * p) == (d * 2) * (c * p) && 0 <= c * p
  {
    MulAssoc(c, d, 2 * p);
    MulAssoc(2 * d, c, p);
    assert d * (2 * p) == 2 * (d * p);
    assert c * (d * p) == d * (c * p) by { MulAssoc(c, d, p); MulAssoc(d, c, p); }
  }

  /** `pm_configure_clocks`. It fails exactly if no divider below 32 and factor up to 15 give the frequency;
      otherwise what is programmed gives exactly the frequency asked for, with the PLL as fast as its
      range and its factor allow. */
  method ConfigureClocks(cpu: nat, osc: nat, pba: nat) returns (r: Clocks)
    requires 0 < cpu && 0 < osc && 31 * cpu < 0x1_0000_0000 && 31 * osc < 0x1_0000_0000
    ensures cpu == osc ==> r == Oscillator(osc)
    ensures cpu != osc ==> !r.Oscillator? && (r.Fail? <==> !exists div: nat, mul: nat :: Solves(cpu, osc, div, mul))
    ensures r.Pll? ==>
              && 0 < r.mul <= 15 && 0 < r.div < 32 && r.div % 2 == 1 && r.div2En <= 1
              && Balanced(cpu, osc, r.mul, r.div, r.div2En + r.div2Cpu)
              && r.cpuFreq == cpu && r.pll == cpu * Pow2(r.div2Cpu)
              && AsFastAsPossible(osc, r.mul, r.div) && Chosen(cpu, osc, r.mul, r.div) && (r.div2En == 0 ==> r.div2Cpu == 0)
              && (r.lowRange <==> r.pll < 160_000_000)
              && (cpu > osc ==> r.div < PM_MAX_MUL)
              && r.pbaFreq == Rate(r.pll, r.div2Pba)
              && BusClockAsAsked(r.pll, pba, r.div2Pba)
              && Stops(r.pll, pba, r.div2Pba) && (forall j: nat | j < r.div2Pba :: !Stops(r.pll, pba, j))
    ensures r.Pll? ==> (r.div <= 15 <==> FitsField(cpu, osc)) && (r.div <= 15 <==> HasFittingSetting(cpu, osc))
  {
    hide Whole, Factor, Pow2, Balanced, Rate, BusClockAsAsked, AsFastAsPossible, Solves, PllFrequency, FitsField, HasFittingSetting,
         Raised, Stops, Chosen;
    if cpu == osc {
      return Oscillator(osc);
    }
    var div := FindDivider(cpu, osc);
    NoSolution(cpu, osc, div);
    if div == 32 {
      return Fail;
    }
    var mul := Factor(cpu, osc, div);
    if mul > PM_MAX_MUL {
      return Fail;
    }
    FactorFound(cpu, osc, div, mul);
    var div2Cpu, div2En, div0 := 0, 0, div;
    div, div2Cpu := OddDivider(cpu, osc, mul, div);
    FieldFitsExactly(cpu, osc, div0, div, div2Cpu);
    ghost var m, t := mul, div2Cpu;
    mul, div2Cpu := RaisePll(cpu, osc, mul, div, div2Cpu);
    ChosenBy(cpu, osc, mul, div, div0, m, t, div2Cpu - t);
    PllExact(cpu, osc, mul, div, div2Cpu);
    if div2Cpu != 0 {
      div2Cpu := div2Cpu - 1;
      div2En := 1;
    }
    var pll := PllFrequency(osc, mul, div, div2En);
    CpuExact(cpu, div2Cpu);
    var cpuFreq := Rate(pll, div2Cpu);
    var div2Pba := DividePba(pll, pba);
    r := Pll(mul, div, div2En, div2Cpu, div2Pba, pll, pll < VCO_MIN, cpuFreq, Rate(pll, div2Pba));
  }

  lemma ChosenBy(cpu: nat, osc: nat, mul: nat, div: nat, e: nat, m: nat, t: nat, n: nat)
    requires 0 < osc && 0 < div && Solves(cpu, osc, e, m) && forall d | 1 <= d < e :: !Whole(cpu, osc, d)
    requires div * Pow2(t) == e && Raised(osc, m, mul, div, n)
    ensures Chosen(cpu, osc, mul, div)
  {
    hide Solves, Whole, Pow2, Raised;
  }

  lemma CpuExact(cpu: nat, t: nat)
    requires 0 < cpu
    ensures 0 < cpu * Pow2(t) && Rate(cpu * Pow2(t), t) == cpu && cpu * Pow2(0) == cpu
  {
    MulOrder(Pow2(t), 0, cpu);
    ExactQuotient(cpu * Pow2(t), Pow2(t), cpu);
  }

  /** A frequency above the oscillator's needs a divider below the factor. */
  lemma FactorFound(cpu: nat, osc: nat, div: nat, mul: nat)
    requires 0 < cpu && 0 < osc && 1 <= div < 32 && Whole(cpu, osc, div) && mul == Factor(cpu, osc, div) && mul <= PM_MAX_MUL
    ensures Solves(cpu, osc, div, mul) && 0 < mul
    ensures cpu > osc ==> div < mul
  {
    assert cpu * div == osc * mul;
    MulOrder(cpu, 0, div);
    if cpu > osc && mul <= div {
      MulOrder(osc, div, mul);
      MulOrder(div, osc, cpu);
    }
  }

  /** Below the oscillator's frequency the divider may not fit the four bits of its register field: for
      400 kHz from 12.4 MHz every setting has divider 31. */
  lemma DividerExceedsField(mul: nat, div: nat, t: nat)
    requires 0 < mul && 0 < div < 32 && Balanced(400_000, 12_400_000, mul, div, t)
    ensures div == 31
  {
    var p := Pow2(t);
    assert 400_000 * div * p == 400_000 * (div * p);
    Multiple(mul, div, t);
  }

  lemma {:induction false} Multiple(mul: nat, div: nat, t: nat)
    requires 0 < mul && 0 < div < 32 && 31 * mul == div * Pow2(t)
    ensures div == 31
    decreases t
  {
    if t > 0 {
      var p := Pow2(t - 1);
      assert div * (2 * p) == 2 * (div * p);
      Multiple(mul / 2, div, t - 1);
    }
  }
}
