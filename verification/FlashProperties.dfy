/** What a copy amounts to: laws of the programmed memory, and how often each double-word and
    each page of the flash is accessed. */
module FlashProperties {
  import opened Alignment
  import opened Basics
  import opened FlashModel

  // ---- The programmed memory ---------------------------------------------------------

  /** The bits that `data` sets are set in the memory already, as they are in erased bytes. */
  ghost predicate CanProgram(m: map<int, byte>, dst: int, data: seq<byte>) {
    forall a | a in m && dst <= a < dst + |data| :: m[a] & data[a - dst] == data[a - dst]
  }

  /** Erasing before writing assigns the data for every previous contents. Without erase the same
      result is reached exactly if no bit has to be set. */
  lemma WithoutErase(m: map<int, byte>, dst: int, data: seq<byte>)
    ensures forall a | a in m && dst <= a < dst + |data| :: Programmed(m, dst, data, true)[a] == data[a - dst]
    ensures Programmed(m, dst, data, false) == Programmed(m, dst, data, true) <==> CanProgram(m, dst, data)
  {
    var plain, erased := Programmed(m, dst, data, false), Programmed(m, dst, data, true);
    if plain == erased {
      forall a | a in m && dst <= a < dst + |data|
        ensures m[a] & data[a - dst] == data[a - dst]
      {
        assert plain[a] == erased[a];
      }
    }
  }

  /** Erased bytes can take any data. */
  lemma ErasedCanProgram(m: map<int, byte>, dst: int, data: seq<byte>)
    requires forall a | a in m && dst <= a < dst + |data| :: m[a] == 0xFF
    ensures Programmed(m, dst, data, false) == Programmed(m, dst, data, true)
  {
    forall a | a in m && dst <= a < dst + |data|
      ensures m[a] & data[a - dst] == data[a - dst]
    {
      AndOnes(data[a - dst]);
    }
    WithoutErase(m, dst, data);
  }

  /** A copy can be split anywhere, also inside a page or a double-word. */
  lemma CopySplits(m: map<int, byte>, dst: int, head: seq<byte>, tail: seq<byte>, erase: bool)
    ensures Programmed(Programmed(m, dst, head, erase), dst + |head|, tail, erase) == Programmed(m, dst, head + tail, erase)
  {
    var first := Programmed(m, dst, head, erase);
    var both, once := Programmed(first, dst + |head|, tail, erase), Programmed(m, dst, head + tail, erase);
    forall a | a in m
      ensures both[a] == once[a]
    {
      if dst <= a < dst + |head + tail| {
        assert (head + tail)[a - dst] == if a < dst + |head| then head[a - dst] else tail[a - dst - |head|];
      }
    }
    assert both.Keys == once.Keys;
  }

  // ---- Fills -------------------------------------------------------------------------

  /** A fill with the `n` bytes of `value` puts the most significant one at `dst`, the next one behind it, and so on
      again and again. */
  lemma FilledByte(m: map<int, byte>, dst: int, value: nat, n: nat, nbytes: nat, a: int)
    requires 0 < n && a in m && dst <= a < dst + nbytes
    ensures Programmed(m, dst, Repeat(BigEndian(value, n), nbytes), true)[a]
         == ByteOf(value / Pow256(n - 1 - (a - dst) % n))
  {
    hide BigEndian, Pow256;
    BigEndianAt(value, n, (a - dst) % n);
  }

  lemma {:induction false} BigEndianAt(value: nat, n: nat, k: nat)
    requires k < n
    ensures BigEndian(value, n)[k] == ByteOf(value / Pow256(n - 1 - k))
  {
    hide ByteOf;
    if k < n - 1 {
      BigEndianAt(value / 256, n - 1, k);
      DivideTwice(value, 256, Pow256(n - 2 - k));
    }
  }

  // ---- The access sequence -----------------------------------------------------------

  lemma {:induction false} LoadsOnce(first: nat, upTo: nat, a: nat)
    requires Aligned(first, 8) && Aligned(upTo, 8)
    ensures multiset(Loads(first, upTo))[Loaded(a)] == if Aligned(a, 8) && first <= a < upTo then 1 else 0
    decreases upTo
  {
    if first < upTo {
      AlignedGap(first, upTo, 8);
      LoadsOnce(first, upTo - 8, a);
      if Aligned(a, 8) && upTo - 8 < a < upTo {
        AlignedGap(upTo - 8, a, 8);
      }
    }
  }

  lemma {:induction false} LoadsOnly(first: int, upTo: int, x: Access)
    requires !x.Loaded?
    ensures multiset(Loads(first, upTo))[x] == 0
    decreases upTo - first
  {
    if first <= upTo - 8 {
      LoadsOnly(first, upTo - 8, x);
    }
  }

  /** How often one access occurs when a page is programmed. */
  lemma PageOnce(l: Layout, base: nat, erase: bool, a: nat)
    requires l.Valid() && Aligned(base, 8) && Aligned(base + l.page, 8)
    ensures var s := multiset(PageAccesses(base, l.page, erase));
            && s[Loaded(a)] == (if Aligned(a, 8) && base <= a < base + l.page then 1 else 0)
            && s[Written(a)] == (if a == base then 1 else 0)
            && s[Erased(a)] == (if a == base && erase then 1 else 0)
            && s[Cleared] == 1
  {
    hide Loads, GetAlign, PageAccesses;
    LoadsOnce(base, base + l.page, a);
    LoadsOnly(base, base + l.page, Written(a));
    LoadsOnly(base, base + l.page, Erased(a));
    LoadsOnly(base, base + l.page, Cleared);
    PageParts(base, l.page, erase);
  }

  lemma PageParts(base: nat, page: nat, erase: bool)
    ensures multiset(PageAccesses(base, page, erase))
         == multiset{Cleared} + multiset(Loads(base, base + page))
            + (if erase then multiset{Erased(base)} else multiset{}) + multiset{Written(base)}
  {
    hide Loads;
  }

  /** `start..end` lies within the memory that exists, as far as its page starts are concerned. */
  predicate Clipped(l: Layout, start: nat, end: nat) {
    l.Valid() && (start < end ==> l.Owned(start) && end <= l.user + l.page)
  }

  /** Every double-word of every page that holds a byte of `start..end` is loaded exactly once, and
      exactly those pages are erased (if asked to) and written, each once. */
  lemma {:induction false} CopyOnce(l: Layout, start: nat, end: nat, erase: bool, a: nat)
    requires Clipped(l, start, end)
    ensures var s := multiset(CopyAccesses(l, start, end, erase));
            var touched := l.Owned(a) && start < end && Touched(l, a, start, end - start);
            && s[Loaded(a)] == (if Aligned(a, 8) && touched then 1 else 0)
            && s[Written(a)] == (if Aligned(a, l.page) && touched then 1 else 0)
            && s[Erased(a)] == (if Aligned(a, l.page) && touched && erase then 1 else 0)
    decreases end - start
  {
    hide GetAlign, Loads, PageAccesses, CopyAccesses;
    CopyStep(l, start, end, erase);
    if start < end {
      var base := AlignDown(start, l.page);
      var next := NextPage(l, base);
      PageBounds(l, start);
      PageInOneArea(l, start);
      PageOnce(l, base, erase, a);
      NextIsClipped(l, start, end);
      CopyOnce(l, next, end, erase, a);
      TouchedStep(l, start, end, a);
    }
  }

  lemma CopyStep(l: Layout, start: nat, end: nat, erase: bool)
    requires l.Valid()
    ensures end <= start ==> CopyAccesses(l, start, end, erase) == []
    ensures var base := AlignDown(start, l.page);
            var page, rest := PageAccesses(base, l.page, erase), CopyAccesses(l, NextPage(l, base), end, erase);
            start < end ==> multiset(CopyAccesses(l, start, end, erase)) == multiset(page) + multiset(rest)
  {
  }

  lemma NextIsClipped(l: Layout, start: nat, end: nat)
    requires Clipped(l, start, end) && start < end
    ensures Clipped(l, NextPage(l, AlignDown(start, l.page)), end)
  {
    PageInOneArea(l, start);
  }

  /** The pages of `start..end` are the page of `start` and the pages of the rest. */
  lemma TouchedStep(l: Layout, start: nat, end: nat, a: nat)
    requires Clipped(l, start, end) && start < end
    ensures var base := AlignDown(start, l.page);
            var next := NextPage(l, base);
            && (l.Owned(a) && Touched(l, a, start, end - start)
                <==> base <= a < base + l.page || (l.Owned(a) && next < end && Touched(l, a, next, end - next)))
            && !(base <= a < base + l.page && next < end && Touched(l, a, next, end - next))
            && (base <= a < base + l.page ==> l.Owned(a) && (Aligned(a, l.page) <==> a == base))
  {
    hide GetAlign;
    var base := AlignDown(start, l.page);
    PageBounds(l, start);
    PageInOneArea(l, start);
    AlignedStep(base, l.page);
    var own := AlignDown(a, l.page);
    AlignDownAligned(a, l.page);
    if base <= a < base + l.page {
      BlockBase(base, a, l.page);
    } else if own < base {
      AlignedGap(own, base, l.page);
    } else {
      AlignedGap(base, own, l.page);
      if l.Owned(a) {
        PageInOneArea(l, a);
      }
    }
  }

  /** Clipping a copy to the memory that exists keeps the set of its pages. */
  lemma ClipTouched(l: Layout, dst: nat, n: nat, a: nat)
    requires l.Valid() && l.Owned(a)
    ensures var start, end := ClipStart(l, dst), ClipEnd(l, dst + n);
            Clipped(l, start, end) && (Touched(l, a, dst, n) <==> start < end && Touched(l, a, start, end - start))
  {
    hide GetAlign;
    var start, end := ClipStart(l, dst), ClipEnd(l, dst + n);
    ClipKeepsOwned(l, dst, dst + n);
    PageInOneArea(l, a);
    var own := AlignDown(a, l.page);
    assert forall b | own <= b < own + l.page :: l.Owned(b);
    if Touched(l, a, dst, n) {
      assert l.Owned(Max(dst, own));
    }
    if start < end && Touched(l, a, start, end - start) {
      assert l.Owned(Max(start, own));
    }
  }

  /** The accesses of a copy of `n` bytes to `dst`: each double-word of each page that holds a byte
      of the copy is loaded once, each such page is written once, and no other page is accessed. */
  lemma CopyAccessesOnce(l: Layout, dst: nat, n: nat, erase: bool, a: nat)
    requires l.Valid()
    ensures var s := multiset(CopyAccesses(l, ClipStart(l, dst), ClipEnd(l, dst + n), erase));
            var touched := l.Owned(a) && Touched(l, a, dst, n);
            && s[Loaded(a)] == (if Aligned(a, 8) && touched then 1 else 0)
            && s[Written(a)] == (if Aligned(a, l.page) && touched then 1 else 0)
            && s[Erased(a)] == (if Aligned(a, l.page) && touched && erase then 1 else 0)
  {
    hide GetAlign, CopyAccesses, Touched;
    ClipKeepsOwned(l, dst, dst + n);
    CopyOnce(l, ClipStart(l, dst), ClipEnd(l, dst + n), erase, a);
    if l.Owned(a) {
      ClipTouched(l, dst, n, a);
    }
  }
}
