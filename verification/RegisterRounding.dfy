/** Sizes rounded to a register format with the count-leading-zeros instruction. */
module RegisterRounding {
  import opened Alignment
  import opened Basics
  import opened FlashModel
  import opened FuseWord

  function BitLength(x: nat): nat {
    if x == 0 then 0 else 1 + BitLength(x / 2)
  }

  /** Leading zeros of a 32-bit word. */
  function Clz(x: nat): int {
    32 - BitLength(x)
  }

  lemma {:induction false} BitLengthBounds(x: nat)
    requires 0 < x
    ensures 0 < BitLength(x) && Pow2(BitLength(x) - 1) <= x < Pow2(BitLength(x))
  {
    if x > 1 {
      BitLengthBounds(x / 2);
    } else {
      assert BitLength(1) == 1 && Pow2(1) == 2;
    }
  }

  lemma {:induction false} Pow2Monotone(i: nat, j: nat)
    requires i <= j
    ensures Pow2(i) <= Pow2(j)
  {
    if i < j {
      Pow2Monotone(i, j - 1);
    }
  }

  /** `31 - clz(2 * n - 1)`: the exponent of the least power of two that is not below `n`. */
  function RoundUpLog(n: nat): int {
    32 - Clz(2 * n - if n == 0 then 0 else 1) - 1
  }

  lemma RoundUpLogIsLeast(n: nat, j: nat)
    requires 0 < n
    ensures 0 <= RoundUpLog(n)
    ensures RoundUpLog(n) <= j <==> n <= Pow2(j)
  {
    var k := BitLength(2 * n - 1) - 1;
    BitLengthBounds(2 * n - 1);
    assert Pow2(k + 1) == 2 * Pow2(k);
    if k <= j {
      Pow2Monotone(k, j);
    } else {
      Pow2Monotone(j + 1, k);
      assert Pow2(j + 1) == 2 * Pow2(j);
    }
  }

  // ---- Endpoint size -----------------------------------------------------------------

  /** `udd_format_endpoint_size`: the size field of an endpoint's configuration register. `min` and `max` of the
      framework compare as signed integers. */
  function FormatEndpointSize(size: nat): int {
    32 - Clz(2 * MinSigned(MaxSigned(size, 8), 1024) - 1) - 1 - 3
  }

  function MaxSigned(a: nat, b: nat): nat {
    if AsSigned(a) > AsSigned(b) then a else b
  }

  /** `udd_get_endpoint_size`. */
  function EndpointSize(field: nat): nat {
    8 * Pow2(field)
  }

  /** Formatting a size and reading it back gives the least power of two in 8..1024 that is not
      below the clamped size, and the field fits its three bits. */
  lemma EndpointSizeIsLeastFit(size: nat, j: nat)
    requires size < 0x8000_0000
    ensures 0 <= FormatEndpointSize(size) < 8
    ensures 8 <= EndpointSize(FormatEndpointSize(size)) <= 1024
    ensures j < 8 ==> (EndpointSize(FormatEndpointSize(size)) <= EndpointSize(j) <==> Min(Max(size, 8), 1024) <= EndpointSize(j))
  {
    var n := Min(Max(size, 8), 1024);
    var f := RoundUpLog(n) - 3;
    assert Pow2(10) == 1024;
    RoundUpLogIsLeast(n, 10);
    assert Pow2(2) == 4;
    RoundUpLogIsLeast(n, 2);
    RoundUpLogIsLeast(n, j + 3);
    EightTimes(j);
    EightTimes(f);
    Pow2Monotone(0, f);
    Pow2Monotone(f, 7);
    assert Pow2(7) == 128;
    if f <= j {
      Pow2Monotone(f, j);
    } else {
      Pow2Monotone(j + 1, f);
      assert Pow2(j + 1) == 2 * Pow2(j);
    }
  }

  /** From 2^31 on, which no 16-bit packet size reaches, the smallest size is chosen instead of the largest. */
  lemma EndpointSizeHoldsExactlyBelow(size: nat)
    requires size < 0x1_0000_0000
    ensures 0 <= FormatEndpointSize(size)
    ensures (forall j: nat | j < 8 :: EndpointSize(FormatEndpointSize(size)) <= EndpointSize(j)
                                      <==> Min(Max(size, 8), 1024) <= EndpointSize(j))
       <==> size < 0x8000_0000
  {
    if size < 0x8000_0000 {
      EndpointSizeIsLeastFit(size, 0);
      forall j: nat | j < 8
        ensures EndpointSize(FormatEndpointSize(size)) <= EndpointSize(j) <==> Min(Max(size, 8), 1024) <= EndpointSize(j)
      {
        EndpointSizeIsLeastFit(size, j);
      }
    } else {
      assert BitLength(15) == 4 by { assert BitLength(3) == 2; }
      assert FormatEndpointSize(size) == 0 && EndpointSize(0) == 8;
    }
  }

  lemma EightTimes(j: nat)
    ensures Pow2(j + 3) == 8 * Pow2(j)
  {
    assert Pow2(j + 3) == 2 * Pow2(j + 2);
    assert Pow2(j + 2) == 2 * Pow2(j + 1);
  }

  // ---- Bootloader size ---------------------------------------------------------------

  /** The exponent that `flashc_set_bootloader_protected_size` chooses; 0 means no protection. */
  function ProtectedExponent(size: nat, page: nat): int
    requires 0 < page
  {
    if size == 0 then 0 else RoundUpLog((MinSigned(MaxSigned(size, 2 * page), 128 * page) + page - 1) / page)
  }

  /** The size that exponent stands for. */
  function ProtectedSize(exponent: nat, page: nat): nat {
    if exponent == 0 then 0 else page * Pow2(exponent)
  }

  lemma CeilingDivision(m: nat, page: nat, k: nat)
    requires 0 < page
    ensures (m + page - 1) / page <= k <==> m <= page * k
  {
    var n := (m + page - 1) / page;
    assert page * n <= m + page - 1 < page * n + page;
    MulOrder(page, n, k + 1);
    MulOrder(page, k, n);
  }

  /** For requests below 2^31 the choice is the least supported size that is not below the request,
      or the largest. */
  lemma ProtectedSizeIsLeastFit(size: nat, page: nat, j: nat)
    requires 0 < page && 128 * page < 0x8000_0000 && size < 0x8000_0000
    ensures 0 <= ProtectedExponent(size, page) <= 7
    ensures j <= 7 ==> (ProtectedSize(ProtectedExponent(size, page), page) <= ProtectedSize(j, page)
                        <==> Min(size, 128 * page) <= ProtectedSize(j, page))
  {
    if size == 0 {
      assert ProtectedSize(0, page) == 0;
    } else {
      var m := Min(Max(size, 2 * page), 128 * page);
      var n := (m + page - 1) / page;
      CeilingDivision(m, page, 1);
      CeilingDivision(m, page, 128);
      assert Pow2(7) == 128 && Pow2(0) == 1;
      RoundUpLogIsLeast(n, 7);
      RoundUpLogIsLeast(n, 0);
      var e := ProtectedExponent(size, page);
      assert e == RoundUpLog(n);
      if j <= 7 {
        RoundUpLogIsLeast(n, j);
        CeilingDivision(m, page, Pow2(j));
        SizesOrdered(e, j, page);
      }
    }
  }

  lemma SizesOrdered(e: nat, j: nat, page: nat)
    requires 0 < page && 0 < e
    ensures j == 0 ==> ProtectedSize(j, page) < 2 * page <= ProtectedSize(e, page)
    ensures 0 < j ==> 2 * page <= ProtectedSize(j, page) == page * Pow2(j)
    ensures ProtectedSize(e, page) <= ProtectedSize(j, page) <==> e <= j
  {
    assert Pow2(1) == 2;
    Pow2Monotone(1, e);
    MulOrder(page, Pow2(e), 2);
    if 0 < j {
      Pow2Monotone(1, j);
      MulOrder(page, Pow2(j), 2);
      if e <= j {
        Pow2Monotone(e, j);
        MulOrder(page, Pow2(j), Pow2(e));
      } else {
        Pow2Monotone(j + 1, e);
        assert Pow2(j + 1) == 2 * Pow2(j);
        MulOrder(page, Pow2(j), Pow2(e));
      }
    }
  }

  lemma SmallestChosen(size: nat, page: nat)
    requires 0 < page && 128 * page < 0x8000_0000 <= size < 0x1_0000_0000
    ensures ProtectedExponent(size, page) == 1
    ensures ProtectedSize(1, page) == 2 * page
  {
    CeilingDivision(2 * page, page, 2);
    CeilingDivision(2 * page, page, 1);
    assert (2 * page + page - 1) / page == 2;
    assert BitLength(3) == 2;
    assert Pow2(1) == 2;
  }

  /** From 2^31 on the signed comparison takes the request for a negative number: the smallest
      protection is chosen instead of the largest, so the least fit holds exactly below 2^31. */
  lemma ProtectedSizeHoldsExactlyBelow(size: nat, page: nat)
    requires 0 < page && 128 * page < 0x8000_0000 && size < 0x1_0000_0000
    ensures 0 <= ProtectedExponent(size, page)
    ensures (forall j: nat | j <= 7 :: ProtectedSize(ProtectedExponent(size, page), page) <= ProtectedSize(j, page)
                                       <==> Min(size, 128 * page) <= ProtectedSize(j, page))
       <==> size < 0x8000_0000
  {
    if size < 0x8000_0000 {
      forall j: nat | j <= 7
        ensures ProtectedSize(ProtectedExponent(size, page), page) <= ProtectedSize(j, page)
           <==> Min(size, 128 * page) <= ProtectedSize(j, page)
      {
        ProtectedSizeIsLeastFit(size, page, j);
      }
      ProtectedSizeIsLeastFit(size, page, 0);
    } else {
      hide ProtectedExponent;
      SmallestChosen(size, page);
      assert !(Min(size, 128 * page) <= ProtectedSize(1, page));
    }
  }

  /** The exponent always fits the three bits of the fuse field. */
  lemma ProtectedExponentFits(size: nat, page: nat)
    requires 0 < page && 128 * page < 0x8000_0000 && size < 0x1_0000_0000
    ensures 0 <= ProtectedExponent(size, page) <= 7
  {
    if size < 0x8000_0000 {
      ProtectedSizeIsLeastFit(size, page, 0);
    } else {
      SmallestChosen(size, page);
    }
  }
}
