/** The general-purpose fuses as a number: reading, setting and restoring parts of a 64-bit word
    that can only be erased bit by bit or as a whole. */
module FuseWord {
  import opened Alignment
  import opened Basics
  import opened FlashModel

  // ---- Numbers as bits, least significant first --------------------------------------

  function NatOf(bits: seq<bool>): nat {
    if bits == [] then 0 else (if bits[0] then 1 else 0) + 2 * NatOf(bits[1..])
  }

  /** `value >> n`. */
  function ShiftRight(value: nat, n: nat): nat {
    if n == 0 then value else ShiftRight(value / 2, n - 1)
  }

  /** `value & ((1 << n) - 1)`. */
  function Low(value: nat, n: nat): nat {
    if n == 0 then 0 else value % 2 + 2 * Low(value / 2, n - 1)
  }

  function Pow2(n: nat): (p: nat)
    ensures 0 < p
  {
    if n == 0 then 1 else 2 * Pow2(n - 1)
  }

  function Bits(value: nat, n: nat): (s: seq<bool>)
    ensures |s| == n
  {
    seq(n, i requires 0 <= i < n => BitAt(value, i))
  }

  /** Masking with `2^n - 1` is the remainder modulo `2^n`. */
  lemma LowIsRemainder(value: nat, n: nat)
    ensures Low(value, n) == value % Pow2(n) < Pow2(n)
  {
    var q := HighPart(value, n);
    RemainderOf(value, Pow2(n), q, Low(value, n));
  }

  lemma {:induction false} HighPart(value: nat, n: nat) returns (q: nat)
    ensures value == Pow2(n) * q + Low(value, n) && Low(value, n) < Pow2(n)
  {
    q := value;
    if n > 0 {
      q := HighPart(value / 2, n - 1);
      DoubleProduct(Pow2(n - 1), q);
    }
  }

  lemma DoubleProduct(p: nat, q: nat)
    ensures (2 * p) * q == 2 * (p * q)
  {
  }

  lemma RemainderOf(k: nat, w: nat, q: nat, r: nat)
    requires 0 < w && r < w && k == w * q + r
    ensures k % w == r
  {
    var q', r' := k / w, k % w;
    assert w * q' + r' == w * q + r;
    MulOrder(w, q, q');
    MulOrder(w, q', q);
  }

  lemma {:induction false} NatOfBits(value: nat, n: nat)
    ensures NatOf(Bits(value, n)) == Low(value, n)
  {
    if n > 0 {
      assert Bits(value, n)[1..] == Bits(value / 2, n - 1);
      NatOfBits(value / 2, n - 1);
    }
  }

  lemma {:induction false} BitAtNatOf(bits: seq<bool>, i: nat)
    ensures BitAt(NatOf(bits), i) == (i < |bits| && bits[i])
  {
    if bits == [] {
      BitAtZero(i);
    } else if i > 0 {
      BitAtNatOf(bits[1..], i - 1);
    }
  }

  lemma {:induction false} BitAtZero(i: nat)
    ensures !BitAt(0, i)
  {
    if i > 0 {
      BitAtZero(i - 1);
    }
  }

  lemma {:induction false} ShiftDropsBits(bits: seq<bool>, n: nat)
    requires n <= |bits|
    ensures ShiftRight(NatOf(bits), n) == NatOf(bits[n..])
  {
    if n == 0 {
      assert bits[0..] == bits;
    } else {
      ShiftDropsBits(bits[1..], n - 1);
      assert bits[1..][n - 1..] == bits[n..];
    }
  }

  lemma {:induction false} LowKeepsBits(bits: seq<bool>, n: nat)
    ensures Low(NatOf(bits), n) == NatOf(bits[..Min(n, |bits|)])
  {
    if n > 0 && bits != [] {
      LowKeepsBits(bits[1..], n - 1);
      assert bits[..Min(n, |bits|)][1..] == bits[1..][..Min(n - 1, |bits| - 1)];
    } else if bits == [] {
      LowZero(n);
    }
  }

  lemma {:induction false} LowZero(n: nat)
    ensures Low(0, n) == 0
  {
    if n > 0 {
      LowZero(n - 1);
    }
  }

  lemma {:induction false} BitAtShift(value: nat, n: nat, i: nat)
    ensures BitAt(ShiftRight(value, n), i) == BitAt(value, n + i)
  {
    if n > 0 {
      BitAtShift(value / 2, n - 1, i);
    }
  }

  lemma {:induction false} BitAtLow(value: nat, n: nat, i: nat)
    ensures BitAt(Low(value, n), i) == (i < n && BitAt(value, i))
  {
    if n == 0 {
      BitAtZero(i);
    } else if i > 0 {
      BitAtLow(value / 2, n - 1, i - 1);
    }
  }

  lemma {:induction false} OnesAt(n: nat, i: nat)
    ensures BitAt(Pow2(n) - 1, i) == (i < n)
  {
    if n == 0 {
      BitAtZero(i);
    } else if i > 0 {
      OnesAt(n - 1, i - 1);
    }
  }

  /** A number has only ones exactly if it is the largest of its length. */
  lemma {:induction false} AllOnesIsLargest(bits: seq<bool>)
    ensures NatOf(bits) <= Pow2(|bits|) - 1
    ensures NatOf(bits) == Pow2(|bits|) - 1 <==> forall i | 0 <= i < |bits| :: bits[i]
  {
    if bits != [] {
      AllOnesIsLargest(bits[1..]);
      assert forall i | 0 <= i < |bits| :: bits[i] == if i == 0 then bits[0] else bits[1..][i - 1];
    }
  }

  lemma {:induction false} Pow2Grows(m: nat, n: nat)
    requires m < n
    ensures Pow2(m) < Pow2(n)
  {
    if m < n - 1 {
      Pow2Grows(m, n - 1);
    }
  }

  lemma PowersOfTwo()
    ensures Pow2(3) == 8 && Pow2(8) == 256
  {
    assert Pow2(4) == 16;
  }

  /** The alignment modulo a power of two is what the macro's mask `n - 1` keeps, bit by bit. */
  lemma GetAlignIsMask(a: nat, n: nat, i: nat)
    ensures BitAt(GetAlign(a, Pow2(n)), i) == (BitAt(a, i) && BitAt(Pow2(n) - 1, i))
  {
    GetAlignIsRemainder(a, Pow2(n));
    LowIsRemainder(a, n);
    BitAtLow(a, n, i);
    OnesAt(n, i);
  }

  lemma {:induction false} ShiftStep(value: nat, n: nat)
    ensures ShiftRight(value, n + 1) == ShiftRight(value, n) / 2
  {
    if n > 0 {
      ShiftStep(value / 2, n - 1);
    }
  }

  // ---- Parts of the fuse word --------------------------------------------------------

  /** The value of `flashc_read_gp_fuse_bitfield`. */
  function ReadField(fuses: seq<bool>, pos: nat, width: nat): nat {
    Low(ShiftRight(NatOf(fuses), pos % 64), width)
  }

  /** The index of fuse `f` in a field that starts at `pos` and wraps around the word. */
  function FieldIndex(pos: nat, f: nat): (i: nat)
    requires f < 64
    ensures i < 64
  {
    (f + 64 - pos % 64) % 64
  }

  /** The fuse word after setting the `width` fuses from `pos` on to the bits of `value`. */
  function SetField(fuses: seq<bool>, pos: nat, width: nat, value: nat): (r: seq<bool>)
    requires |fuses| == 64
    ensures |r| == 64
    ensures forall f | 0 <= f < 64 :: r[f] == if FieldIndex(pos, f) < width then BitAt(value, FieldIndex(pos, f)) else fuses[f]
  {
    seq(64, f requires 0 <= f < 64 => if FieldIndex(pos, f) < width then BitAt(value, FieldIndex(pos, f)) else fuses[f])
  }

  lemma ReadsBits(fuses: seq<bool>, pos: nat, width: nat)
    requires |fuses| == 64 && pos < 64
    ensures ReadField(fuses, pos, width) == NatOf(fuses[pos..pos + Min(width, 64 - pos)])
  {
    ShiftDropsBits(fuses, pos);
    LowKeepsBits(fuses[pos..], width);
    assert fuses[pos..][..Min(width, 64 - pos)] == fuses[pos..pos + Min(width, 64 - pos)];
  }

  lemma FieldIndexAt(pos: nat, i: nat)
    requires pos + i < 64
    ensures FieldIndex(pos, pos + i) == i
  {
  }

  /** A field that was set reads back as the bits of the value that fit below the end of the word. */
  lemma SetThenRead(fuses: seq<bool>, pos: nat, width: nat, value: nat)
    requires |fuses| == 64 && pos < 64 && width < 64
    ensures ReadField(SetField(fuses, pos, width, value), pos, width) == Low(value, Min(width, 64 - pos))
  {
    hide FieldIndex, ShiftRight, Low, NatOf, BitAt, ReadField;
    var n := Min(width, 64 - pos);
    var r := SetField(fuses, pos, width, value);
    ReadsBits(r, pos, width);
    forall i | 0 <= i < n
      ensures r[pos..pos + n][i] == BitAt(value, i)
    {
      FieldIndexAt(pos, i);
    }
    assert r[pos..pos + n] == Bits(value, n);
    NatOfBits(value, n);
  }

  /** The round trip of a field: it reads back modulo `2^width` exactly if it ends within the word or
      the part of the value beyond the word is zero. */
  lemma FuseFieldRoundTrip(fuses: seq<bool>, pos: nat, width: nat, value: nat)
    requires |fuses| == 64 && pos < 64 && width < 64
    ensures ReadField(SetField(fuses, pos, width, value), pos, width) == value % Pow2(width)
       <==> pos + width <= 64 || value % Pow2(width) < Pow2(64 - pos)
  {
    hide FieldIndex, ShiftRight, Low, NatOf, BitAt, ReadField, SetField, Pow2;
    SetThenRead(fuses, pos, width, value);
    LowIsRemainder(value, width);
    if width > 64 - pos {
      LowIsRemainder(value, 64 - pos);
      LowOfWider(value, 64 - pos, width);
    }
  }

  /** Fewer bits give the same number exactly if the number needs no more. */
  lemma LowOfWider(value: nat, m: nat, n: nat)
    requires m <= n
    ensures Low(value, m) == Low(value, n) <==> Low(value, n) < Pow2(m)
  {
    LowSplit(value, m, n);
    LowIsRemainder(value, m);
    var high := Low(ShiftRight(value, m), n - m);
    MulOrder(Pow2(m), 0, high);
  }

  lemma {:induction false} LowSplit(value: nat, m: nat, n: nat)
    requires m <= n
    ensures Low(value, n) == Low(value, m) + Pow2(m) * Low(ShiftRight(value, m), n - m)
  {
    if m > 0 {
      LowSplit(value / 2, m - 1, n - 1);
      DoubleProduct(Pow2(m - 1), Low(ShiftRight(value, m), n - m));
    }
  }

  /** A field reads as all ones exactly if it ends within the word and its fuses are erased. */
  lemma ReadsErasedExactly(fuses: seq<bool>, pos: nat, width: nat)
    requires |fuses| == 64 && pos < 64 && width <= 64
    ensures ReadField(fuses, pos, width) == Pow2(width) - 1
       <==> pos + width <= 64 && forall k | pos <= k < pos + width :: fuses[k]
  {
    hide ReadField, Pow2, NatOf;
    var m := Min(width, 64 - pos);
    var bits := fuses[pos..pos + m];
    ReadsBits(fuses, pos, width);
    AllOnesIsLargest(bits);
    if m < width {
      Pow2Grows(m, width);
    } else {
      assert forall k | pos <= k < pos + width :: fuses[k] == bits[k - pos];
      assert forall i | 0 <= i < |bits| :: bits[i] == fuses[pos + i];
    }
  }

  /** Fuses outside a field that ends within the word keep their values, and only those of a field
      that does not end within the word can be overwritten at the start of the word. */
  lemma FuseFieldFrame(fuses: seq<bool>, pos: nat, width: nat, value: nat, f: nat)
    requires |fuses| == 64 && pos < 64 && width < 64 && f < 64
    ensures pos + width <= 64 && !(pos <= f < pos + width) ==> SetField(fuses, pos, width, value)[f] == fuses[f]
    ensures pos + width > 64 && f < pos + width - 64 ==> SetField(fuses, pos, width, value)[f] == BitAt(value, f + 64 - pos)
  {
  }
}
