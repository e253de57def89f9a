/** The driver's operations on whole areas and on the fuse word: each issues a series of commands
    and leaves the accumulated status of exactly those. */
module FuseDriver {
  import opened Alignment
  import opened Basics
  import opened FlashModel
  import opened FlashDriver
  import opened FuseWord
  import RegisterRounding

  // ---- Locking and erasing the whole array -------------------------------------------

  /** The first page of a region. */
  function RegionStart(l: Layout, pagesPerRegion: nat, region: nat): (page: nat) {
    MulPositive(region, pagesPerRegion);
    MulPositive(region * pagesPerRegion, l.page);
    l.flash + region * pagesPerRegion * l.page
  }

  /** The lock or unlock commands for regions `upTo - 1` down to 0; a region is named by its first page. */
  function RegionAccesses(l: Layout, pagesPerRegion: nat, upTo: nat, lock: bool): seq<Access> {
    if upTo == 0 then [] else
    [Other(if lock then LockPage else UnlockPage, RegionStart(l, pagesPerRegion, upTo - 1))]
    + RegionAccesses(l, pagesPerRegion, upTo - 1, lock)
  }

  /** Command `j` of the series locks, or unlocks, the `j`-th region from the end. */
  lemma {:induction false} RegionAt(l: Layout, pagesPerRegion: nat, upTo: nat, lock: bool, j: nat)
    requires j < upTo
    ensures var s := RegionAccesses(l, pagesPerRegion, upTo, lock);
            && |s| == upTo && s[j].Other? && s[j].argument == l.flash + (upTo - 1 - j) * pagesPerRegion * l.page
            && s[j].cmd == (if lock then LockPage else UnlockPage)
  {
    if j > 0 {
      RegionAt(l, pagesPerRegion, upTo - 1, lock, j - 1);
    } else if upTo > 1 {
      RegionAt(l, pagesPerRegion, upTo - 1, lock, 0);
    }
  }

  /** `flashc_lock_all_regions`. */
  method LockAllRegions(f: Flashc, regions: nat, pagesPerRegion: nat, lock: bool)
    requires f.Valid()
    modifies f
    ensures f.Valid() && f.issued == old(f.issued) + regions
    ensures f.errorStatus == Sticky(f.statusOf, old(f.issued), f.issued)
    ensures f.log == old(f.log) + RegionAccesses(f.layout, pagesPerRegion, regions, lock)
    ensures f.hw.mem == old(f.hw.mem) && f.hw.fuses == old(f.hw.fuses)
  {
    hide Sticky, RegionStart;
    StickyNone(f.statusOf, f.issued);
    var status, region := NO_ERROR, regions;
    while region != 0
      invariant f.Valid() && 0 <= region <= regions && f.issued == old(f.issued) + (regions - region)
      invariant status == Sticky(f.statusOf, old(f.issued), f.issued)
      invariant f.log + RegionAccesses(f.layout, pagesPerRegion, region, lock)
             == old(f.log) + RegionAccesses(f.layout, pagesPerRegion, regions, lock)
      invariant f.hw.mem == old(f.hw.mem) && f.hw.fuses == old(f.hw.fuses)
    {
      ghost var log0, rest := f.log, RegionAccesses(f.layout, pagesPerRegion, region - 1, lock);
      region := region - 1;
      f.IssueCommand(if lock then LockPage else UnlockPage, RegionStart(f.layout, pagesPerRegion, region));
      StickyOne(f.statusOf, f.issued - 1);
      StickySplit(f.statusOf, old(f.issued), f.issued - 1, f.issued);
      status := status.Or(f.errorStatus);
      assert f.log + rest == log0 + RegionAccesses(f.layout, pagesPerRegion, region + 1, lock);
    }
    f.errorStatus := status;
  }

  /** One erase (and, with `check`, one quick read) for each page of `first..upTo`, from the last to the first. */
  function EraseAccesses(first: int, upTo: int, page: nat, check: bool): seq<Access>
    requires 0 < page
    decreases upTo - first
  {
    if upTo - page < first then [] else
    [Erased(upTo - page)] + (if check then [Other(QuickPageRead, upTo - page)] else []) + EraseAccesses(first, upTo - page, page, check)
  }

  /** `flashc_erase_all_pages`. */
  method EraseAllPages(f: Flashc, check: bool) returns (allErased: bool)
    requires f.Valid()
    modifies f
    ensures f.Valid() && old(f.issued) <= f.issued
    ensures f.errorStatus == Sticky(f.statusOf, old(f.issued), f.issued)
    ensures f.log == old(f.log) + EraseAccesses(f.layout.flash, f.layout.arrayEnd, f.layout.page, check)
    ensures f.errorStatus.Clean() ==> allErased
    ensures f.errorStatus.Clean() ==>
              f.hw.mem == EraseRange(old(f.hw.mem), f.layout.flash, f.layout.arrayEnd - f.layout.flash)
    ensures SameOutside(old(f.hw.mem), f.hw.mem, f.layout.flash, f.layout.arrayEnd - f.layout.flash)
    ensures f.hw.fuses == old(f.hw.fuses)
  {
    hide Sticky, GetAlign, EraseAccesses, EraseRange, AllOnes, SameOutside;
    var l := f.layout;
    StickyNone(f.statusOf, f.issued);
    var status, page := NO_ERROR, l.arrayEnd;
    allErased := true;
    NothingErased(f.hw.mem, l);
    while page != l.flash
      invariant f.Valid() && l.flash <= page <= l.arrayEnd && Aligned(page, l.page) && old(f.issued) <= f.issued
      invariant status == Sticky(f.statusOf, old(f.issued), f.issued)
      invariant f.log + EraseAccesses(l.flash, page, l.page, check)
             == old(f.log) + EraseAccesses(l.flash, l.arrayEnd, l.page, check)
      invariant status.Clean() ==> allErased && f.hw.mem == EraseRange(old(f.hw.mem), page, l.arrayEnd - page)
      invariant SameOutside(old(f.hw.mem), f.hw.mem, l.flash, l.arrayEnd - l.flash) && f.hw.fuses == old(f.hw.fuses)
      decreases page - l.flash
    {
      ghost var log0, n, m := f.log, f.issued, f.hw.mem;
      PageBelow(l, page);
      page := page - l.page;
      var erased := f.ErasePage(page, check);
      allErased := allErased && erased;
      StickyCleanIff(f.statusOf, n, f.issued);
      StickySplit(f.statusOf, old(f.issued), n, f.issued);
      status := status.Or(f.errorStatus);
      EraseRound(l, old(f.hw.mem), m, f.hw.mem, page);
      EraseAccessesStep(l, log0, f.log, page, check);
    }
    EraseAccessesDone(l, check);
    f.errorStatus := status;
  }

  lemma NothingErased(m: map<int, byte>, l: Layout)
    requires l.Valid()
    ensures EraseRange(m, l.arrayEnd, 0) == m && SameOutside(m, m, l.flash, l.arrayEnd - l.flash)
  {
  }

  lemma EraseAccessesStep(l: Layout, log: seq<Access>, log': seq<Access>, page: nat, check: bool)
    requires 0 < l.page && l.flash <= page
    requires log' == log + [Erased(page)] + if check then [Other(QuickPageRead, page)] else []
    ensures log' + EraseAccesses(l.flash, page, l.page, check) == log + EraseAccesses(l.flash, page + l.page, l.page, check)
  {
  }

  lemma EraseAccessesDone(l: Layout, check: bool)
    requires 0 < l.page
    ensures EraseAccesses(l.flash, l.flash, l.page, check) == []
  {
  }

  lemma PageBelow(l: Layout, page: nat)
    requires l.Valid() && l.flash < page <= l.arrayEnd && Aligned(page, l.page)
    ensures l.flash <= page - l.page && Aligned(page - l.page, l.page)
  {
    AlignedGap(l.flash, page, l.page);
    AlignedStep(page - l.page, l.page);
  }

  lemma EraseRound(l: Layout, m0: map<int, byte>, m: map<int, byte>, m': map<int, byte>, page: nat)
    requires 0 < l.page && l.flash <= page && page + l.page <= l.arrayEnd
    requires m' == EraseRange(m, page, l.page) || m' == m
    ensures m == EraseRange(m0, page + l.page, l.arrayEnd - page - l.page) && m' == EraseRange(m, page, l.page) ==>
              m' == EraseRange(m0, page, l.arrayEnd - page)
    ensures SameOutside(m0, m, l.flash, l.arrayEnd - l.flash) ==> SameOutside(m0, m', l.flash, l.arrayEnd - l.flash)
    ensures m' == EraseRange(m, page, l.page) && (forall a | page <= a < page + l.page :: a in m) ==> AllOnes(m', page, l.page)
  {
  }

  // ---- Single fuses ------------------------------------------------------------------

  /** A command on the fuses leaves the memory alone. */
  ghost predicate KeepsMemory(before: Hardware, after: Hardware) {
    after.mem == before.mem && after.buffer == before.buffer
  }

  /** `flashc_erase_gp_fuse_bit`. */
  method EraseFuseBit(f: Flashc, bit: nat, check: bool) returns (erased: bool)
    requires f.Valid()
    modifies f
    ensures f.Valid() && f.issued == old(f.issued) + 1 && f.errorStatus == f.statusOf(old(f.issued))
    ensures f.hw.fuses == if f.errorStatus.Clean() then old(f.hw.fuses)[bit % 64 := true] else old(f.hw.fuses)
    ensures erased == (!check || f.hw.fuses[bit % 64]) && KeepsMemory(old(f.hw), f.hw)
  {
    f.IssueCommand(Command.EraseFuseBit, bit % 64);
    erased := !check || f.hw.fuses[bit % 64];
  }

  /** `flashc_write_gp_fuse_bit`: a fuse can only be cleared, so a true value issues no command. */
  method WriteFuseBit(f: Flashc, bit: nat, value: bool)
    requires f.Valid()
    modifies f
    ensures f.Valid() && f.issued == old(f.issued) + if value then 0 else 1
    ensures f.errorStatus == if value then old(f.errorStatus) else f.statusOf(old(f.issued))
    ensures f.hw.fuses == if !value && f.errorStatus.Clean() then old(f.hw.fuses)[bit % 64 := false] else old(f.hw.fuses)
    ensures KeepsMemory(old(f.hw), f.hw)
  {
    if !value {
      f.IssueCommand(Command.WriteFuseBit, bit % 64);
    }
  }

  /** `flashc_set_gp_fuse_bit`. */
  method SetFuseBit(f: Flashc, bit: nat, value: bool)
    requires f.Valid()
    modifies f
    ensures f.Valid() && f.issued == old(f.issued) + 1 && f.errorStatus == f.statusOf(old(f.issued))
    ensures f.hw.fuses == if f.errorStatus.Clean() then old(f.hw.fuses)[bit % 64 := value] else old(f.hw.fuses)
    ensures KeepsMemory(old(f.hw), f.hw)
  {
    if value {
      var _ := EraseFuseBit(f, bit, false);
    } else {
      WriteFuseBit(f, bit, false);
    }
  }

  // ---- Fields ------------------------------------------------------------------------

  /** Fuses outside the field keep their values. */
  ghost predicate KeepsOthers(before: seq<bool>, after: seq<bool>, pos: nat, width: nat) {
    && |before| == 64 && |after| == 64
    && forall k | 0 <= k < 64 && width <= FieldIndex(pos, k) :: after[k] == before[k]
  }

  /** `flashc_set_gp_fuse_bitfield`. The field wraps around the end of the word, and no more than 64
      fuses are set. */
  method SetFuseField(f: Flashc, pos: nat, width: nat, value: nat)
    requires f.Valid() && width < 0x8000_0000
    modifies f
    ensures f.Valid() && f.issued == old(f.issued) + Min(width, 64)
    ensures f.errorStatus == Sticky(f.statusOf, old(f.issued), f.issued)
    ensures f.errorStatus.Clean() ==> f.hw.fuses == SetField(old(f.hw.fuses), pos, Min(width, 64), value)
    ensures KeepsOthers(old(f.hw.fuses), f.hw.fuses, pos, Min(width, 64)) && KeepsMemory(old(f.hw), f.hw)
  {
    hide Sticky, FieldIndex, BitAt, ShiftRight;
    StickyNone(f.statusOf, f.issued);
    ghost var fuses := f.hw.fuses;
    var pos0, width, value := pos % 64, MinSigned(width, 64), value;
    ghost var v0 := value;
    FieldStarts(fuses, pos, v0);
    var status, bit := NO_ERROR, pos0;
    while bit < pos0 + width
      invariant f.Valid() && pos0 <= bit <= pos0 + width && f.issued == old(f.issued) + (bit - pos0)
      invariant status == Sticky(f.statusOf, old(f.issued), f.issued)
      invariant status.Clean() ==> f.hw.fuses == SetField(fuses, pos, bit - pos0, v0)
      invariant KeepsOthers(fuses, f.hw.fuses, pos, bit - pos0) && KeepsMemory(old(f.hw), f.hw)
      invariant value == ShiftRight(v0, bit - pos0)
    {
      FieldStep(fuses, f.hw.fuses, pos, bit - pos0, v0);
      SetFuseBit(f, bit, value % 2 == 1);
      StickyOne(f.statusOf, f.issued - 1);
      StickySplit(f.statusOf, old(f.issued), f.issued - 1, f.issued);
      status := status.Or(f.errorStatus);
      ShiftStep(v0, bit - pos0);
      bit, value := bit + 1, value / 2;
    }
    f.errorStatus := status;
  }

  /** All fuses of a field, as a value. */
  const ERASED := Pow2(64) - 1

  /** `flashc_erase_gp_fuse_bitfield`. The check reads the field without wrapping around, so it fails for
      every field that does not end within the word. */
  method EraseFuseField(f: Flashc, pos: nat, width: nat, check: bool) returns (erased: bool)
    requires f.Valid() && width < 0x8000_0000 && (check ==> width < 64)
    modifies f
    ensures f.Valid() && f.issued == old(f.issued) + Min(width, 64)
    ensures f.errorStatus == Sticky(f.statusOf, old(f.issued), f.issued)
    ensures f.errorStatus.Clean() ==> f.hw.fuses == SetField(old(f.hw.fuses), pos, Min(width, 64), ERASED)
    ensures erased <==> !check || (pos % 64 + width <= 64 && forall k | pos % 64 <= k < pos % 64 + width :: f.hw.fuses[k])
    ensures check && f.errorStatus.Clean() ==> (erased <==> pos % 64 + width <= 64)
    ensures KeepsOthers(old(f.hw.fuses), f.hw.fuses, pos, Min(width, 64)) && KeepsMemory(old(f.hw), f.hw)
  {
    hide Sticky, FieldIndex, BitAt, ShiftRight, Pow2, ReadField;
    StickyNone(f.statusOf, f.issued);
    ghost var fuses := f.hw.fuses;
    var pos0, width0 := pos % 64, MinSigned(width, 64);
    FieldStarts(fuses, pos, ERASED);
    var status, bit := NO_ERROR, pos0;
    while bit < pos0 + width0
      invariant f.Valid() && pos0 <= bit <= pos0 + width0 && f.issued == old(f.issued) + (bit - pos0)
      invariant status == Sticky(f.statusOf, old(f.issued), f.issued)
      invariant status.Clean() ==> f.hw.fuses == SetField(fuses, pos, bit - pos0, ERASED)
      invariant KeepsOthers(fuses, f.hw.fuses, pos, bit - pos0) && KeepsMemory(old(f.hw), f.hw)
    {
      FieldStep(fuses, f.hw.fuses, pos, bit - pos0, ERASED);
      ErasedBits(bit - pos0);
      var _ := EraseFuseBit(f, bit, false);
      StickyOne(f.statusOf, f.issued - 1);
      StickySplit(f.statusOf, old(f.issued), f.issued - 1, f.issued);
      status := status.Or(f.errorStatus);
      bit := bit + 1;
    }
    f.errorStatus := status;
    erased := true;
    if check {
      ReadsErasedExactly(f.hw.fuses, pos0, width);
      FieldErased(fuses, pos, width);
      erased := ReadField(f.hw.fuses, pos0, width) == Pow2(width) - 1;
    }
  }

  lemma ErasedBits(i: nat)
    requires i < 64
    ensures BitAt(ERASED, i) && ShiftRight(ERASED, i) % 2 == 1
  {
    OnesAt(64, i);
    BitAtShift(ERASED, i, 0);
  }

  lemma FieldErased(fuses: seq<bool>, pos: nat, width: nat)
    requires |fuses| == 64 && width < 64
    ensures pos % 64 + width <= 64 ==> forall k | pos % 64 <= k < pos % 64 + width :: SetField(fuses, pos, width, ERASED)[k]
  {
    hide BitAt, Pow2;
    forall k | pos % 64 <= k < pos % 64 + width && k < 64
      ensures FieldIndex(pos, k) < width && BitAt(ERASED, FieldIndex(pos, k))
    {
      ErasedBits(FieldIndex(pos, k));
    }
  }

  /** The fuse word after AND-ing the bits of `value` into the first `width` fuses of a field. */
  function ProgrammedField(fuses: seq<bool>, pos: nat, width: nat, value: nat): (r: seq<bool>)
    requires |fuses| == 64
    ensures |r| == 64
  {
    seq(64, k requires 0 <= k < 64 => fuses[k] && (FieldIndex(pos, k) < width ==> BitAt(value, FieldIndex(pos, k))))
  }

  /** The number of zeros among the low bits of a value. */
  function Zeros(value: nat, n: nat): nat {
    if n == 0 then 0 else Zeros(value, n - 1) + if BitAt(value, n - 1) then 0 else 1
  }

  /** `flashc_write_gp_fuse_bitfield`. For a bit that is to stay set no command is issued, but the status is
      collected all the same: that of an earlier operation is kept exactly if the lowest bit is set. */
  method WriteFuseField(f: Flashc, pos: nat, width: nat, value: nat)
    requires f.Valid() && width < 0x8000_0000
    modifies f
    ensures f.Valid() && f.issued == old(f.issued) + Zeros(value, Min(width, 64))
    ensures f.errorStatus == (if 0 < width && value % 2 == 1 then old(f.errorStatus) else NO_ERROR)
                             .Or(Sticky(f.statusOf, old(f.issued), f.issued))
    ensures Sticky(f.statusOf, old(f.issued), f.issued).Clean() ==>
              f.hw.fuses == ProgrammedField(old(f.hw.fuses), pos, Min(width, 64), value)
    ensures KeepsOthers(old(f.hw.fuses), f.hw.fuses, pos, Min(width, 64)) && KeepsMemory(old(f.hw), f.hw)
  {
    hide Sticky, FieldIndex, BitAt, ShiftRight, ProgrammedField, KeepsOthers;
    StickyNone(f.statusOf, f.issued);
    ghost var fuses, n0 := f.hw.fuses, f.issued;
    var pos0, width, value := pos % 64, MinSigned(width, 64), value;
    ghost var v0 := value;
    WriteStarts(fuses, pos, v0);
    var status, bit := NO_ERROR, pos0;
    while bit < pos0 + width
      invariant f.Valid() && pos0 <= bit <= pos0 + width && f.issued == n0 + Zeros(v0, bit - pos0)
      invariant status == (if pos0 < bit && v0 % 2 == 1 then old(f.errorStatus) else NO_ERROR).Or(Sticky(f.statusOf, n0, f.issued))
      invariant if f.issued == n0 then f.errorStatus == old(f.errorStatus) && (pos0 < bit ==> v0 % 2 == 1)
                else Sticky(f.statusOf, n0, f.issued).Or(f.errorStatus) == Sticky(f.statusOf, n0, f.issued)
      invariant Sticky(f.statusOf, n0, f.issued).Clean() ==> f.hw.fuses == ProgrammedField(fuses, pos, bit - pos0, v0)
      invariant KeepsOthers(fuses, f.hw.fuses, pos, bit - pos0) && KeepsMemory(old(f.hw), f.hw)
      invariant value == ShiftRight(v0, bit - pos0)
    {
      WriteStep(fuses, f.hw.fuses, pos, bit - pos0, v0);
      ghost var n := f.issued;
      WriteFuseBit(f, bit, value % 2 == 1);
      if n < f.issued {
        StickyOne(f.statusOf, n);
        StickySplit(f.statusOf, n0, n, f.issued);
      }
      status := status.Or(f.errorStatus);
      ShiftStep(v0, bit - pos0);
      bit, value := bit + 1, value / 2;
    }
    f.errorStatus := status;
  }

  lemma WriteStarts(fuses: seq<bool>, pos: nat, value: nat)
    requires |fuses| == 64
    ensures ProgrammedField(fuses, pos, 0, value) == fuses && KeepsOthers(fuses, fuses, pos, 0) && ShiftRight(value, 0) == value
  {
  }

  /** Clearing one more fuse of a field, or leaving it. */
  lemma WriteStep(fuses: seq<bool>, now: seq<bool>, pos: nat, i: nat, value: nat)
    requires |fuses| == 64 && |now| == 64 && i < 64
    ensures var one := ShiftRight(value, i) % 2 == 1;
            var next := if one then now else now[(pos % 64 + i) % 64 := false];
            && Zeros(value, i + 1) == Zeros(value, i) + (if one then 0 else 1) && (i == 0 ==> one == (value % 2 == 1))
            && (now == ProgrammedField(fuses, pos, i, value) ==> next == ProgrammedField(fuses, pos, i + 1, value))
            && (KeepsOthers(fuses, now, pos, i) ==> KeepsOthers(fuses, next, pos, i + 1) && KeepsOthers(fuses, now, pos, i + 1))
  {
    hide BitAt, ShiftRight;
    BitAtShift(value, i, 0);
    assert BitAt(ShiftRight(value, i), 0) == (ShiftRight(value, i) % 2 == 1) by { LowestBit(ShiftRight(value, i)); }
    LowestBit(value);
    forall k | 0 <= k < 64
      ensures k == (pos % 64 + i) % 64 <==> FieldIndex(pos, k) == i
    {
    }
  }

  lemma LowestBit(value: nat)
    ensures BitAt(value, 0) == (value % 2 == 1)
  {
  }

  lemma FieldStarts(fuses: seq<bool>, pos: nat, value: nat)
    requires |fuses| == 64
    ensures SetField(fuses, pos, 0, value) == fuses && ShiftRight(value, 0) == value
    ensures KeepsOthers(fuses, fuses, pos, 0)
  {
  }

  /** Setting one more fuse of a field. */
  lemma FieldStep(fuses: seq<bool>, now: seq<bool>, pos: nat, i: nat, value: nat)
    requires |fuses| == 64 && |now| == 64 && i < 64
    ensures var next := now[(pos % 64 + i) % 64 := ShiftRight(value, i) % 2 == 1];
            && (now == SetField(fuses, pos, i, value) ==> next == SetField(fuses, pos, i + 1, value))
            && (KeepsOthers(fuses, now, pos, i) ==> KeepsOthers(fuses, next, pos, i + 1) && KeepsOthers(fuses, now, pos, i + 1))
  {
    BitAtShift(value, i, 0);
    assert BitAt(ShiftRight(value, i), 0) == (ShiftRight(value, i) % 2 == 1);
    forall k | 0 <= k < 64
      ensures k == (pos % 64 + i) % 64 <==> FieldIndex(pos, k) == i
    {
    }
  }

  // ---- Whole bytes -------------------------------------------------------------------

  /** `flashc_read_gp_fuse_byte`. */
  function ReadFuseByte(fuses: seq<bool>, which: nat): nat {
    Low(ShiftRight(NatOf(fuses), which % 8 * 8), 8)
  }

  /** The fuse word with byte `which` set to the bits of `value`. */
  function WithByte(fuses: seq<bool>, which: nat, value: nat): (r: seq<bool>)
    ensures |r| == |fuses|
  {
    seq(|fuses|, i requires 0 <= i < |fuses| => if i / 8 == which then BitAt(value, i % 8) else fuses[i])
  }

  /** A byte reads back as it was set. */
  lemma WithByteReads(fuses: seq<bool>, which: nat, value: nat)
    requires |fuses| == 64 && which < 8 && value < 256
    ensures ReadFuseByte(WithByte(fuses, which, value), which) == value
  {
    hide ShiftRight, Low, BitAt, NatOf;
    var r := WithByte(fuses, which, value);
    ReadsBits(r, 8 * which, 8);
    assert r[8 * which..8 * which + 8] == Bits(value, 8);
    NatOfBits(value, 8);
    LowOfByte(value);
  }

  lemma LowOfByte(value: nat)
    ensures Low(value, 8) == value % 256
  {
    LowIsRemainder(value, 8);
    PowersOfTwo();
  }

  lemma {:induction false} ShiftByte(value: nat, n: nat)
    ensures ShiftRight(value, n + 8) == ShiftRight(value, n) / 256
  {
    ShiftStep(value, n);
    ShiftStep(value, n + 1);
    ShiftStep(value, n + 2);
    ShiftStep(value, n + 3);
    ShiftStep(value, n + 4);
    ShiftStep(value, n + 5);
    ShiftStep(value, n + 6);
    ShiftStep(value, n + 7);
  }

  /** The low byte of `value >> 8 * which` holds bits `8 * which` to `8 * which + 7` of `value`. */
  lemma ByteBits(value: nat, which: nat, j: nat)
    requires j < 8
    ensures BitAt(ShiftRight(value, 8 * which) % 256, j) == BitAt(value, 8 * which + j)
  {
    hide ShiftRight, Low, BitAt;
    var v := ShiftRight(value, 8 * which);
    LowOfByte(v);
    BitAtLow(v, 8, j);
    BitAtShift(value, 8 * which, j);
  }

  /** `flashc_erase_all_gp_fuses`. */
  method EraseAllFuses(f: Flashc, check: bool) returns (erased: bool)
    requires f.Valid()
    modifies f
    ensures f.Valid() && f.issued == old(f.issued) + 1 && f.errorStatus == f.statusOf(old(f.issued))
    ensures f.hw.fuses == if f.errorStatus.Clean() then AllErased() else old(f.hw.fuses)
    ensures erased == (!check || f.hw.fuses == AllErased()) && KeepsMemory(old(f.hw), f.hw)
  {
    f.IssueCommand(Command.EraseAllFuses, -1);
    erased := !check || f.hw.fuses == AllErased();
  }

  function AllErased(): (r: seq<bool>)
    ensures |r| == 64 && forall i | 0 <= i < 64 :: r[i]
  {
    seq(64, _ => true)
  }

  /** `flashc_write_gp_fuse_byte`: the byte number and the value share the argument of the command. */
  method WriteFuseByte(f: Flashc, which: nat, value: nat)
    requires f.Valid() && value < 256
    modifies f
    ensures f.Valid() && f.issued == old(f.issued) + 1 && f.errorStatus == f.statusOf(old(f.issued))
    ensures f.hw.fuses == if f.errorStatus.Clean() then ProgramByte(old(f.hw.fuses), which % 8, value) else old(f.hw.fuses)
    ensures KeepsMemory(old(f.hw), f.hw)
  {
    f.IssueCommand(Command.ProgramFuseByte, which % 8 + 8 * value);
  }

  /** The fuse word when the bytes below `done` except `which` are restored after an erase. */
  function RestoredBelow(fuses: seq<bool>, which: nat, done: nat): (r: seq<bool>)
    ensures |r| == |fuses|
  {
    seq(|fuses|, i requires 0 <= i < |fuses| => if i / 8 < done && i / 8 != which then fuses[i] else true)
  }

  lemma RestoreStep(fuses: seq<bool>, which: nat, done: nat, value: nat)
    requires |fuses| == 64 && done < 8 && value == ShiftRight(NatOf(fuses), 8 * done)
    ensures which != done ==>
              ProgramByte(RestoredBelow(fuses, which, done), done, value % 256) == RestoredBelow(fuses, which, done + 1)
    ensures which == done ==> RestoredBelow(fuses, which, done) == RestoredBelow(fuses, which, done + 1)
  {
    hide BitAt, NatOf, ShiftRight;
    forall i | 0 <= i < 64 && i / 8 == done
      ensures BitAt(value % 256, i % 8) == fuses[i]
    {
      ByteBits(NatOf(fuses), done, i % 8);
      BitAtNatOf(fuses, i);
    }
  }

  /** `flashc_erase_gp_fuse_byte`: erases the whole word and restores the other bytes. */
  method EraseFuseByte(f: Flashc, which: nat, check: bool) returns (erased: bool)
    requires f.Valid()
    modifies f
    ensures f.Valid() && old(f.issued) <= f.issued
    ensures f.errorStatus == Sticky(f.statusOf, old(f.issued), f.issued)
    ensures f.errorStatus.Clean() ==> f.hw.fuses == WithByte(old(f.hw.fuses), which, 0xFF)
    ensures erased == (!check || ReadFuseByte(f.hw.fuses, which) == 0xFF)
    ensures f.errorStatus.Clean() && which < 8 ==> erased
    ensures KeepsMemory(old(f.hw), f.hw)
  {
    hide Sticky, ReadFuseByte, NatOf, ShiftRight, ProgramByte, RestoredBelow, WithByte;
    ghost var fuses := f.hw.fuses;
    var value := NatOf(f.hw.fuses);
    RestoreStarts(fuses, which);
    var _ := EraseAllFuses(f, false);
    StickyOne(f.statusOf, old(f.issued));
    var status, current := f.errorStatus, 0;
    while current < 8
      invariant f.Valid() && 0 <= current <= 8 && old(f.issued) < f.issued
      invariant status == Sticky(f.statusOf, old(f.issued), f.issued)
      invariant status.Clean() ==> f.hw.fuses == RestoredBelow(fuses, which, current)
      invariant value == ShiftRight(NatOf(fuses), 8 * current) && KeepsMemory(old(f.hw), f.hw)
    {
      RestoreStep(fuses, which, current, value);
      ShiftByte(NatOf(fuses), 8 * current);
      if current != which {
        WriteFuseByte(f, current, value % 256);
        StickyOne(f.statusOf, f.issued - 1);
        StickySplit(f.statusOf, old(f.issued), f.issued - 1, f.issued);
        status := status.Or(f.errorStatus);
      }
      current, value := current + 1, value / 256;
    }
    RestoreEnds(fuses, which);
    f.errorStatus := status;
    erased := !check || ReadFuseByte(f.hw.fuses, which) == 0xFF;
  }

  lemma RestoreStarts(fuses: seq<bool>, which: nat)
    requires |fuses| == 64
    ensures RestoredBelow(fuses, which, 0) == AllErased() && ShiftRight(NatOf(fuses), 0) == NatOf(fuses)
  {
  }

  lemma RestoreEnds(fuses: seq<bool>, which: nat)
    requires |fuses| == 64
    ensures RestoredBelow(fuses, which, 8) == WithByte(fuses, which, 0xFF)
    ensures which < 8 ==> ReadFuseByte(RestoredBelow(fuses, which, 8), which) == 0xFF
  {
    PowersOfTwo();
    forall i | 0 <= i < 64
      ensures RestoredBelow(fuses, which, 8)[i] == WithByte(fuses, which, 0xFF)[i]
    {
      OnesAt(8, i % 8);
    }
    assert RestoredBelow(fuses, which, 8) == WithByte(fuses, which, 0xFF);
    if which < 8 {
      WithByteReads(fuses, which, 0xFF);
    }
  }

  /** `flashc_set_gp_fuse_byte`: the other seven bytes survive even though the word is erased. The
      erase takes a byte number above 7 for no byte, while the write masks it, so for such a number
      fuses are only cleared. */
  method SetFuseByte(f: Flashc, which: nat, value: nat)
    requires f.Valid() && value < 256
    modifies f
    ensures f.Valid() && old(f.issued) <= f.issued
    ensures f.errorStatus == Sticky(f.statusOf, old(f.issued), f.issued)
    ensures f.errorStatus.Clean() ==>
              f.hw.fuses == if which < 8 then WithByte(old(f.hw.fuses), which, value) else ProgramByte(old(f.hw.fuses), which % 8, value)
    ensures KeepsMemory(old(f.hw), f.hw)
  {
    hide Sticky, ProgramByte, WithByte;
    ghost var n := f.issued;
    ProgramsByte(f.hw.fuses, which, value);
    if value == 0xFF {
      var _ := EraseFuseByte(f, which, false);
    } else if value == 0x00 {
      WriteFuseByte(f, which, 0x00);
      StickyOne(f.statusOf, n);
    } else {
      var _ := EraseFuseByte(f, which, false);
      var status := f.errorStatus;
      WriteFuseByte(f, which, value);
      StickyOne(f.statusOf, f.issued - 1);
      StickySplit(f.statusOf, n, f.issued - 1, f.issued);
      f.errorStatus := f.errorStatus.Or(status);
    }
  }

  lemma ProgramsByte(fuses: seq<bool>, which: nat, value: nat)
    requires |fuses| == 64 && value < 256
    ensures which < 8 ==> ProgramByte(WithByte(fuses, which, 0xFF), which, value) == WithByte(fuses, which, value)
    ensures which < 8 ==> ProgramByte(fuses, which, 0) == WithByte(fuses, which, 0)
    ensures 8 <= which ==> WithByte(fuses, which, 0xFF) == ProgramByte(fuses, which % 8, 0xFF) == fuses
  {
    hide BitAt;
    PowersOfTwo();
    forall j: nat | j < 8
      ensures BitAt(0xFF, j) && !BitAt(0, j)
    {
      OnesAt(8, j);
      BitAtZero(j);
    }
  }

  // ---- All fuses ---------------------------------------------------------------------

  /** The fuse word after AND-ing the low bytes of `value` into it, up to byte `done`. */
  function ProgrammedFuses(fuses: seq<bool>, value: nat, done: nat): (r: seq<bool>)
    ensures |r| == |fuses|
  {
    seq(|fuses|, i requires 0 <= i < |fuses| => fuses[i] && (i / 8 < done ==> BitAt(value, i)))
  }

  /** `flashc_write_all_gp_fuses`. */
  method WriteAllFuses(f: Flashc, value: nat)
    requires f.Valid()
    modifies f
    ensures f.Valid() && f.issued == old(f.issued) + 8
    ensures f.errorStatus == Sticky(f.statusOf, old(f.issued), f.issued)
    ensures f.errorStatus.Clean() ==> f.hw.fuses == ProgrammedFuses(old(f.hw.fuses), value, 8)
    ensures KeepsMemory(old(f.hw), f.hw)
  {
    hide Sticky, ShiftRight, ProgramByte, ProgrammedFuses;
    StickyNone(f.statusOf, f.issued);
    ghost var fuses, v0 := f.hw.fuses, value;
    ProgramStarts(fuses, v0);
    var status, which, value := NO_ERROR, 0, value;
    while which < 8
      invariant f.Valid() && 0 <= which <= 8 && f.issued == old(f.issued) + which
      invariant status == Sticky(f.statusOf, old(f.issued), f.issued)
      invariant status.Clean() ==> f.hw.fuses == ProgrammedFuses(fuses, v0, which)
      invariant value == ShiftRight(v0, 8 * which) && KeepsMemory(old(f.hw), f.hw)
    {
      ProgramStep(fuses, v0, which);
      ShiftByte(v0, 8 * which);
      WriteFuseByte(f, which, value % 256);
      StickyOne(f.statusOf, f.issued - 1);
      StickySplit(f.statusOf, old(f.issued), f.issued - 1, f.issued);
      status := status.Or(f.errorStatus);
      which, value := which + 1, value / 256;
    }
    f.errorStatus := status;
  }

  lemma ProgramStarts(fuses: seq<bool>, value: nat)
    ensures ProgrammedFuses(fuses, value, 0) == fuses && ShiftRight(value, 0) == value
  {
  }

  lemma ProgramStep(fuses: seq<bool>, value: nat, which: nat)
    requires |fuses| == 64 && which < 8
    ensures ProgramByte(ProgrammedFuses(fuses, value, which), which, ShiftRight(value, 8 * which) % 256)
         == ProgrammedFuses(fuses, value, which + 1)
  {
    hide BitAt, ShiftRight;
    forall i | 0 <= i < 64 && i / 8 == which
      ensures BitAt(ShiftRight(value, 8 * which) % 256, i % 8) == BitAt(value, i)
    {
      ByteBits(value, which, i % 8);
    }
  }

  /** `flashc_set_all_gp_fuses`: the fuse word reads back as it was set. */
  method SetAllFuses(f: Flashc, value: nat)
    requires f.Valid() && value < Pow2(64)
    modifies f
    ensures f.Valid() && old(f.issued) <= f.issued
    ensures f.errorStatus == Sticky(f.statusOf, old(f.issued), f.issued)
    ensures f.errorStatus.Clean() ==> NatOf(f.hw.fuses) == value
    ensures KeepsMemory(old(f.hw), f.hw)
  {
    hide Sticky, Pow2, NatOf, ProgrammedFuses;
    ghost var n := f.issued;
    FuseWordIsValue(f.hw.fuses, value);
    if value == 0xFFFF_FFFF_FFFF_FFFF {
      var _ := EraseAllFuses(f, false);
      StickyOne(f.statusOf, n);
    } else if value == 0 {
      WriteAllFuses(f, 0);
    } else {
      var _ := EraseAllFuses(f, false);
      var status := f.errorStatus;
      StickyOne(f.statusOf, n);
      WriteAllFuses(f, value);
      StickySplit(f.statusOf, n, n + 1, f.issued);
      f.errorStatus := f.errorStatus.Or(status);
    }
  }

  lemma FuseWordIsValue(fuses: seq<bool>, value: nat)
    requires |fuses| == 64 && value < Pow2(64)
    ensures NatOf(ProgrammedFuses(AllErased(), value, 8)) == value
    ensures value == 0xFFFF_FFFF_FFFF_FFFF ==> NatOf(AllErased()) == value
    ensures value == 0 ==> NatOf(ProgrammedFuses(fuses, 0, 8)) == 0
  {
    hide BitAt, NatOf, Low, Pow2;
    assert ProgrammedFuses(AllErased(), value, 8) == Bits(value, 64);
    NatOfBits(value, 64);
    LowIsRemainder(value, 64);
    Pow2Word();
    if value == 0xFFFF_FFFF_FFFF_FFFF {
      forall j: nat | j < 64
        ensures BitAt(value, j)
      {
        OnesAt(64, j);
      }
      assert AllErased() == Bits(value, 64);
    } else if value == 0 {
      forall j: nat | j < 64
        ensures !BitAt(0, j)
      {
        BitAtZero(j);
      }
      assert ProgrammedFuses(fuses, 0, 8) == Bits(0, 64);
    }
  }

  lemma Pow2Word()
    ensures Pow2(64) == 0x1_0000_0000_0000_0000
  {
    EightMore(0);
    EightMore(8);
    EightMore(16);
    EightMore(24);
    EightMore(32);
    EightMore(40);
    EightMore(48);
    EightMore(56);
  }

  lemma EightMore(n: nat)
    ensures Pow2(n + 8) == 256 * Pow2(n) && Pow2(0) == 1
  {
    assert Pow2(n + 8) == 2 * Pow2(n + 7);
    assert Pow2(n + 7) == 2 * Pow2(n + 6);
    assert Pow2(n + 6) == 2 * Pow2(n + 5);
    assert Pow2(n + 5) == 2 * Pow2(n + 4);
    assert Pow2(n + 4) == 2 * Pow2(n + 3);
    assert Pow2(n + 3) == 2 * Pow2(n + 2);
    assert Pow2(n + 2) == 2 * Pow2(n + 1);
  }

  // ---- Bootloader protection ---------------------------------------------------------

  /** The place of the BOOTPROT field in the fuse word of the UC3 parts. */
  const BOOTPROT_OFFSET := 17
  const BOOTPROT_SIZE := 3

  /** The protection exponent is stored complemented: erased fuses mean no protection. */
  function StoredExponent(fuses: seq<bool>): (e: nat)
    ensures e <= 7 && ReadField(fuses, BOOTPROT_OFFSET, BOOTPROT_SIZE) == 7 - e
  {
    ReadFieldFits(fuses, BOOTPROT_OFFSET, BOOTPROT_SIZE);
    7 - ReadField(fuses, BOOTPROT_OFFSET, BOOTPROT_SIZE)
  }

  lemma ReadFieldFits(fuses: seq<bool>, pos: nat, width: nat)
    ensures ReadField(fuses, pos, width) < Pow2(width) && Pow2(3) == 8
  {
    hide ShiftRight, Low, NatOf;
    LowIsRemainder(ShiftRight(NatOf(fuses), pos % 64), width);
    PowersOfTwo();
  }

  /** What a fuse adds to the exponent: its weight once it is cleared. */
  function Programmed(fuse: bool, weight: nat): nat {
    if fuse then 0 else weight
  }

  lemma StoredExponentOfFuses(fuses: seq<bool>)
    requires |fuses| == 64
    ensures StoredExponent(fuses) == Programmed(fuses[17], 1) + Programmed(fuses[18], 2) + Programmed(fuses[19], 4)
  {
    hide ShiftRight, Low, ReadField;
    ReadsBits(fuses, BOOTPROT_OFFSET, BOOTPROT_SIZE);
    var bits := fuses[17..20];
    assert NatOf(bits[3..]) == 0;
    assert bits[1..][1..] == bits[2..] && bits[2..][1..] == bits[3..];
    assert NatOf(bits) == (if bits[0] then 1 else 0) + 2 * NatOf(bits[1..]);
    assert NatOf(bits[1..]) == (if bits[1] then 1 else 0) + 2 * NatOf(bits[2..]);
    assert NatOf(bits[2..]) == (if bits[2] then 1 else 0) + 2 * NatOf(bits[3..]);
  }

  lemma ProtectionRange(exponent: nat, page: nat)
    requires 1 <= exponent <= 7
    ensures 2 * page <= page * Pow2(exponent) <= 128 * page
  {
    RegisterRounding.Pow2Monotone(1, exponent);
    RegisterRounding.Pow2Monotone(exponent, 7);
    assert Pow2(1) == 2 && Pow2(7) == 128;
    if 0 < page {
      MulOrder(page, Pow2(exponent), 2);
      MulOrder(page, 128, Pow2(exponent));
    }
  }

  /** `flashc_get_bootloader_protected_size`: no protection exactly if its three fuses are erased,
      else 2 to 128 pages. */
  method GetProtectedSize(f: Flashc) returns (size: nat)
    requires f.Valid()
    ensures size == 0 <==> f.hw.fuses[17] && f.hw.fuses[18] && f.hw.fuses[19]
    ensures size != 0 ==>
              size == f.layout.page * Pow2(Programmed(f.hw.fuses[17], 1) + Programmed(f.hw.fuses[18], 2) + Programmed(f.hw.fuses[19], 4))
    ensures size == 0 || 2 * f.layout.page <= size <= 128 * f.layout.page
  {
    StoredExponentOfFuses(f.hw.fuses);
    var bootprot := StoredExponent(f.hw.fuses);
    if bootprot != 0 {
      ProtectionRange(bootprot, f.layout.page);
    }
    size := if bootprot != 0 then f.layout.page * Pow2(bootprot) else 0;
  }

  /** `flashc_set_bootloader_protected_size`: if no command fails, the size returned is the one the
      rounding chose, and only the protection field of the fuse word changed. */
  method SetProtectedSize(f: Flashc, size: nat) returns (actual: nat)
    requires f.Valid() && size < 0x1_0000_0000 && 128 * f.layout.page < 0x8000_0000
    modifies f
    ensures f.Valid() && old(f.issued) <= f.issued
    ensures f.errorStatus == Sticky(f.statusOf, old(f.issued), f.issued)
    ensures 0 <= RegisterRounding.ProtectedExponent(size, f.layout.page)
    ensures f.errorStatus.Clean() ==>
              actual == RegisterRounding.ProtectedSize(RegisterRounding.ProtectedExponent(size, f.layout.page), f.layout.page)
    ensures KeepsOthers(old(f.hw.fuses), f.hw.fuses, BOOTPROT_OFFSET, BOOTPROT_SIZE) && KeepsMemory(old(f.hw), f.hw)
  {
    hide Sticky, KeepsOthers, ReadField, SetField, StoredExponent, RegisterRounding.ProtectedExponent;
    ghost var fuses := f.hw.fuses;
    RegisterRounding.ProtectedExponentFits(size, f.layout.page);
    var exponent := RegisterRounding.ProtectedExponent(size, f.layout.page);
    SetFuseField(f, BOOTPROT_OFFSET, BOOTPROT_SIZE, 7 - exponent);
    FuseFieldRoundTrip(fuses, BOOTPROT_OFFSET, BOOTPROT_SIZE, 7 - exponent);
    PowersOfTwo();
    actual := GetProtectedSize(f);
    StoredExponentOfFuses(f.hw.fuses);
  }
}
