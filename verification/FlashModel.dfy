/** The flash controller as its driver sees it: a memory that is erased and programmed one
    page at a time through a page buffer, a 64-bit fuse word, and one status per command. */
module FlashModel {
  import opened Alignment
  import opened Basics

  type byte = bv8

  // ---- Command status ----------------------------------------------------------------

  datatype Status = Status(lockError: bool, progError: bool) {
    predicate Clean() {
      !lockError && !progError
    }

    function Or(other: Status): Status {
      Status(lockError || other.lockError, progError || other.progError)
    }
  }

  const NO_ERROR := Status(false, false)

  /** The errors of commands `from`, ..., `upTo - 1`, accumulated. */
  function Sticky(statusOf: nat -> Status, from: nat, upTo: nat): Status
    requires from <= upTo
    decreases upTo
  {
    if from == upTo then NO_ERROR else Sticky(statusOf, from, upTo - 1).Or(statusOf(upTo - 1))
  }

  lemma {:induction false} StickySplit(statusOf: nat -> Status, from: nat, mid: nat, upTo: nat)
    requires from <= mid <= upTo
    ensures Sticky(statusOf, from, upTo) == Sticky(statusOf, from, mid).Or(Sticky(statusOf, mid, upTo))
    decreases upTo
  {
    if mid < upTo {
      StickySplit(statusOf, from, mid, upTo - 1);
    }
  }

  lemma StickyNone(statusOf: nat -> Status, n: nat)
    ensures Sticky(statusOf, n, n) == NO_ERROR
  {
  }

  lemma StickyOne(statusOf: nat -> Status, n: nat)
    ensures Sticky(statusOf, n, n + 1) == statusOf(n)
  {
    assert Sticky(statusOf, n, n) == NO_ERROR;
  }

  /** The accumulated status is clean exactly if no command of the range failed. */
  lemma {:induction false} StickyCleanIff(statusOf: nat -> Status, from: nat, upTo: nat)
    requires from <= upTo
    ensures Sticky(statusOf, from, upTo).Clean() <==> (forall n | from <= n < upTo :: statusOf(n).Clean())
    decreases upTo
  {
    if from < upTo {
      StickyCleanIff(statusOf, from, upTo - 1);
    }
  }

  /** Each of the two errors is reported exactly if some command of the range reported that one. */
  lemma {:induction false} StickyErrors(statusOf: nat -> Status, from: nat, upTo: nat)
    requires from <= upTo
    ensures Sticky(statusOf, from, upTo).lockError <==> (exists n | from <= n < upTo :: statusOf(n).lockError)
    ensures Sticky(statusOf, from, upTo).progError <==> (exists n | from <= n < upTo :: statusOf(n).progError)
    decreases upTo
  {
    if from < upTo {
      StickyErrors(statusOf, from, upTo - 1);
    }
  }

  // ---- Address layout ----------------------------------------------------------------

  /** `flash..arrayEnd` is the flash array, `user..user + page` the User page. */
  datatype Layout = Layout(flash: nat, arrayEnd: nat, user: nat, page: nat) {
    predicate Valid() {
      && 0 < page && Aligned(page, 8)
      && Aligned(flash, page) && Aligned(arrayEnd, page) && Aligned(user, page)
      && flash < arrayEnd <= user
      && user + page < 0x1_0000_0000
      // The signed comparison of `min` does not separate the areas.
      && (0x8000_0000 <= flash || user + page < 0x8000_0000)
    }

    predicate InArray(a: int) {
      flash <= a < arrayEnd
    }

    predicate InUserPage(a: int) {
      user <= a < user + page
    }

    predicate Owned(a: int) {
      InArray(a) || InUserPage(a)
    }
  }

  /** The driver's `min` compares its operands as signed 32-bit integers. */
  function AsSigned(x: nat): int {
    if x < 0x8000_0000 then x else x - 0x1_0000_0000
  }

  function MinSigned(a: nat, b: nat): nat {
    if AsSigned(a) < AsSigned(b) then a else b
  }

  /** That is the minimum exactly if the operands are equal or lie on the same side of 2^31. */
  lemma MinSignedExactly(a: nat, b: nat)
    requires a < 0x1_0000_0000 && b < 0x1_0000_0000
    ensures MinSigned(a, b) == Min(a, b) <==> a == b || (a < 0x8000_0000 <==> b < 0x8000_0000)
  {
  }

  lemma MinSignedAgrees(l: Layout, a: nat, b: nat)
    requires l.Valid() && l.flash <= a <= l.user + l.page && l.flash <= b <= l.user + l.page
    ensures MinSigned(a, b) == Min(a, b)
  {
  }

  lemma PageBounds(l: Layout, a: nat)
    requires l.Valid()
    ensures var base := AlignDown(a, l.page);
            && Aligned(base, l.page) && Aligned(base, 8) && Aligned(base + l.page, 8)
            && base <= AlignDown(a, 8)
  {
    var base := AlignDown(a, l.page);
    AlignDownAligned(a, l.page);
    AlignedDivisor(base, l.page, 8);
    AlignedSum(base, l.page, 8);
    AlignedBelow(base, a, 8);
  }

  /** A page lies in one of the two areas entirely. */
  lemma PageInOneArea(l: Layout, a: nat)
    requires l.Valid() && l.Owned(a)
    ensures var base := AlignDown(a, l.page);
            && (l.InArray(a) ==> l.flash <= base && base + l.page <= l.arrayEnd)
            && (l.InUserPage(a) ==> base == l.user)
  {
    var base := AlignDown(a, l.page);
    if l.InArray(a) {
      AlignDownAligned(a, l.page);
      AlignedGap(base, l.arrayEnd, l.page);
      AlignedBelow(l.flash, a, l.page);
    } else {
      BlockBase(l.user, a, l.page);
    }
  }

  // ---- Hardware state and commands ---------------------------------------------------

  datatype Command =
    | ClearPageBuffer
    | ErasePage | WritePage | QuickPageRead
    | EraseUserPage | WriteUserPage | QuickUserPageRead
    | LockPage | UnlockPage
    | EraseFuseBit | WriteFuseBit | ProgramFuseByte | EraseAllFuses

  /** One access of the driver to the array: a 64-bit store into the page buffer, or a command
      on the buffer or on the page that starts at `base`. */
  datatype Access = Cleared | Loaded(address: int) | Erased(base: int) | Written(base: int)
                  | Other(cmd: Command, argument: int)

  function AccessOf(l: Layout, cmd: Command, argument: int): Access {
    match cmd
    case ClearPageBuffer => Cleared
    case ErasePage => Erased(argument)
    case EraseUserPage => Erased(l.user)
    case WritePage => Written(argument)
    case WriteUserPage => Written(l.user)
    case _ => Other(cmd, argument)
  }

  /** `argument` is the page-number field of the command register. For page commands a page
      is named by the address of its first byte. `fuses` is the fuse word, least significant
      bit first; an erased fuse is true. `allOnes` is the result of the last quick page read. */
  datatype Hardware = Hardware(mem: map<int, byte>, buffer: seq<byte>, argument: int, fuses: seq<bool>, allOnes: bool) {
    ghost predicate Valid(l: Layout) {
      && |buffer| == l.page
      && |fuses| == 64
      && forall a :: a in mem <==> l.Owned(a)
    }
  }

  function Filled(n: nat): (s: seq<byte>)
    ensures |s| == n && forall i | 0 <= i < n :: s[i] == 0xFF
  {
    seq(n, _ => 0xFF)
  }

  /** An erase sets every bit of the bytes `base..base + n`. */
  function EraseRange(m: map<int, byte>, base: int, n: nat): map<int, byte> {
    map a | a in m :: if base <= a < base + n then 0xFF else m[a]
  }

  predicate AllOnes(m: map<int, byte>, base: int, n: nat) {
    forall a | base <= a < base + n :: a in m && m[a] == 0xFF
  }

  /** A page write only clears bits: it ANDs the page buffer into the array. */
  function WriteRange(m: map<int, byte>, base: int, buffer: seq<byte>): map<int, byte> {
    map a | a in m :: if base <= a < base + |buffer| then m[a] & buffer[a - base] else m[a]
  }

  /** A store of `data` at page offset `at` of the page buffer clears bits too. */
  function StoreInto(buffer: seq<byte>, at: nat, data: seq<byte>): (r: seq<byte>)
    requires at + |data| <= |buffer|
    ensures |r| == |buffer|
    ensures forall i | 0 <= i < |buffer| :: r[i] == if at <= i < at + |data| then buffer[i] & data[i - at] else buffer[i]
  {
    seq(|buffer|, i requires 0 <= i < |buffer| =>
      if at <= i < at + |data| then buffer[i] & data[i - at] else buffer[i])
  }

  function FuseBit(n: int): nat {
    n % 64
  }

  /** The fuse word after AND-ing the bits of `value` into byte `which`. */
  function ProgramByte(fuses: seq<bool>, which: nat, value: nat): (r: seq<bool>)
    ensures |r| == |fuses|
  {
    seq(|fuses|, i requires 0 <= i < |fuses| =>
      fuses[i] && (i / 8 == which ==> BitAt(value, i % 8)))
  }

  function BitAt(value: nat, i: nat): bool {
    if i == 0 then value % 2 == 1 else BitAt(value / 2, i - 1)
  }

  /** The effect of a command. A command that reports an error changes nothing else. */
  function Execute(l: Layout, hw: Hardware, cmd: Command, status: Status): Hardware
    requires |hw.fuses| == 64
  {
    if !status.Clean() then hw else
    match cmd
    case ClearPageBuffer => hw.(buffer := Filled(l.page))
    case ErasePage =>
      if l.InArray(hw.argument) then hw.(mem := EraseRange(hw.mem, hw.argument, l.page)) else hw
    case WritePage =>
      if l.InArray(hw.argument) then hw.(mem := WriteRange(hw.mem, hw.argument, hw.buffer)) else hw
    case QuickPageRead => hw.(allOnes := AllOnes(hw.mem, hw.argument, l.page))
    case QuickUserPageRead => hw.(allOnes := AllOnes(hw.mem, l.user, l.page))
    case EraseUserPage => hw.(mem := EraseRange(hw.mem, l.user, l.page))
    case WriteUserPage => hw.(mem := WriteRange(hw.mem, l.user, hw.buffer))
    case EraseFuseBit => hw.(fuses := hw.fuses[FuseBit(hw.argument) := true])
    case WriteFuseBit => hw.(fuses := hw.fuses[FuseBit(hw.argument) := false])
    case ProgramFuseByte =>
      hw.(fuses := ProgramByte(hw.fuses, hw.argument % 8, if hw.argument < 0 then 0 else hw.argument / 8))
    case EraseAllFuses => hw.(fuses := seq(64, _ => true))
    case _ => hw
  }

  // ---- What a copy means -------------------------------------------------------------

  function Merge(before: byte, data: byte, erase: bool): byte {
    if erase then data else before & data
  }

  /** `m` with `data` programmed at `dst`, as far as the addresses exist and lie below `limit`.
      With erase the byte is replaced; without, bits can only be cleared. */
  function ProgrammedBelow(m: map<int, byte>, dst: int, data: seq<byte>, erase: bool, limit: int): map<int, byte> {
    map a | a in m :: if dst <= a < dst + |data| && a < limit then Merge(m[a], data[a - dst], erase) else m[a]
  }

  /** The whole effect of a copy: assign the bytes of `data`, leave all others alone. */
  function Programmed(m: map<int, byte>, dst: int, data: seq<byte>, erase: bool): map<int, byte> {
    map a | a in m :: if dst <= a < dst + |data| then Merge(m[a], data[a - dst], erase) else m[a]
  }

  /** What the byte at `a` is to be: new data within the range, the present contents around it. */
  function Wanted(m: map<int, byte>, dst: int, data: seq<byte>): map<int, byte> {
    map a | a in m :: if dst <= a < dst + |data| then data[a - dst] else m[a]
  }

  /** Only the bytes of the page at `base` may differ. */
  ghost predicate SameOutside(m: map<int, byte>, m': map<int, byte>, base: int, page: nat) {
    m'.Keys == m.Keys && forall a | a in m && !(base <= a < base + page) :: m'[a] == m[a]
  }

  /** The effect of erasing (if asked to) and writing a page. */
  function PageWrite(m: map<int, byte>, base: int, buffer: seq<byte>, erase: bool): map<int, byte> {
    WriteRange(if erase then EraseRange(m, base, |buffer|) else m, base, buffer)
  }

  /** The effect of a copy on the page at `base` alone. */
  function ProgrammedPage(m: map<int, byte>, base: int, page: nat, dst: int, data: seq<byte>, erase: bool): map<int, byte> {
    map a | a in m ::
      if base <= a < base + page && dst <= a < dst + |data| then Merge(m[a], data[a - dst], erase) else m[a]
  }

  /** Writing a page buffer that holds what is wanted of the whole page changes that page's part
      of the copy and nothing else: the bytes around the copy are written back unchanged. */
  lemma PageWritten(m: map<int, byte>, base: int, buffer: seq<byte>, dst: int, data: seq<byte>, erase: bool)
    requires forall a | base <= a < base + |buffer| :: a in m && buffer[a - base] == Wanted(m, dst, data)[a]
    ensures PageWrite(m, base, buffer, erase) == ProgrammedPage(m, base, |buffer|, dst, data, erase)
  {
    var r := PageWrite(m, base, buffer, erase);
    var s := ProgrammedPage(m, base, |buffer|, dst, data, erase);
    assert r.Keys == m.Keys == s.Keys;
    forall a | a in m
      ensures r[a] == s[a]
    {
      if base <= a < base + |buffer| {
        assert buffer[a - base] == Wanted(m, dst, data)[a];
      }
    }
  }

  /** Programming the page that holds `dest` advances a copy from `dest` to the end of that page. */
  lemma CopyAdvances(m0: map<int, byte>, dst: int, data: seq<byte>, erase: bool, dest: int, base: int, page: nat)
    requires base <= dest <= base + page && (dest == base || dest == dst)
    ensures ProgrammedPage(ProgrammedBelow(m0, dst, data, erase, dest), base, page, dst, data, erase)
         == ProgrammedBelow(m0, dst, data, erase, base + page)
  {
  }

  /** Moving the limit over addresses that do not exist, or past the data, changes nothing. */
  lemma CopyDone(m0: map<int, byte>, dst: int, data: seq<byte>, erase: bool, limit: int, limit': int)
    requires limit <= limit'
    requires forall a | a in m0 && limit <= a < limit' :: a < dst || dst + |data| <= a
    ensures ProgrammedBelow(m0, dst, data, erase, limit) == ProgrammedBelow(m0, dst, data, erase, limit')
  {
  }

  lemma AndOnes(b: byte)
    ensures 0xFF & b == b
  {
  }

  // ---- Access sequences --------------------------------------------------------------

  /** One 64-bit store for each double-word of `first..upTo`, in ascending order. */
  function Loads(first: int, upTo: int): seq<Access>
    decreases upTo - first
  {
    if upTo - 8 < first then [] else Loads(first, upTo - 8) + [Loaded(upTo - 8)]
  }

  /** How one page is programmed: clear the buffer, load every double-word of the page,
      then erase (if asked to) and write that page. */
  function PageAccesses(base: int, page: nat, erase: bool): seq<Access> {
    [Cleared] + Loads(base, base + page) + (if erase then [Erased(base)] else []) + [Written(base)]
  }

  /** How the pages from the one holding `dest` up to `end` are programmed. */
  function CopyAccesses(l: Layout, dest: nat, end: nat, erase: bool): seq<Access>
    requires l.Valid()
    decreases end - dest
  {
    if end <= dest then [] else
    var base := AlignDown(dest, l.page);
    PageAccesses(base, l.page, erase) + CopyAccesses(l, NextPage(l, base), end, erase)
  }

  /** The page after the one at `base`: the User page follows the end of the array. */
  function NextPage(l: Layout, base: nat): (r: nat)
    requires l.Valid()
    ensures base + l.page <= r
  {
    if base + l.page == l.arrayEnd then l.user else base + l.page
  }

  // ---- Clipping a copy to the memory that exists -------------------------------------

  /** The first address of a copy that can exist. */
  function ClipStart(l: Layout, dst: nat): nat {
    if dst < l.flash then l.flash else if l.arrayEnd <= dst < l.user then l.user else dst
  }

  /** The end of a copy, moved back to the end of an area if it lies outside. */
  function ClipEnd(l: Layout, end: nat): nat {
    if end > l.user + l.page then l.user + l.page else if l.user >= end > l.arrayEnd then l.arrayEnd else end
  }

  /** Clipping drops no address that exists. */
  lemma ClipKeepsOwned(l: Layout, dst: nat, end: nat)
    requires l.Valid()
    ensures dst <= ClipStart(l, dst) && ClipEnd(l, end) <= end
    ensures forall a | l.Owned(a) :: dst <= a < end <==> ClipStart(l, dst) <= a < ClipEnd(l, end)
    ensures ClipStart(l, dst) < ClipEnd(l, end) ==> l.Owned(ClipStart(l, dst))
    ensures ClipStart(l, dst) != dst ==> Aligned(ClipStart(l, dst), l.page)
  {
  }

  /** Some byte of the page that holds `a` belongs to `dst..dst + n`. */
  predicate Touched(l: Layout, a: int, dst: nat, n: nat)
    requires 0 < l.page
  {
    0 <= a && Max(dst, AlignDown(a, l.page)) < Min(dst + n, AlignDown(a, l.page) + l.page)
  }

  /** What a copy guarantees. If no command failed, exactly the bytes of `data` are programmed; in
      any case pages without a byte of the copy, and the fuses, keep their contents. */
  ghost predicate CopyEffect(l: Layout, before: Hardware, after: Hardware, status: Status, dst: nat, data: seq<byte>, erase: bool)
    requires 0 < l.page
  {
    && (status.Clean() ==> after.mem == Programmed(before.mem, dst, data, erase))
    && after.mem.Keys == before.mem.Keys
    && (forall a | a in before.mem && !Touched(l, a, dst, |data|) :: after.mem[a] == before.mem[a])
    && after.fuses == before.fuses
  }

  /** How many commands program one page: clear the buffer, erase (if asked to), write. */
  function Commands(erase: bool): nat {
    if erase then 3 else 2
  }

  /** The number of the first command for the page at `base` in a copy whose first command, for the page
      that holds `dest`, has number `n`. */
  function FirstCommand(l: Layout, dest: nat, base: int, erase: bool, n: nat): nat
    requires l.Valid()
    decreases base - AlignDown(dest, l.page)
  {
    var here := AlignDown(dest, l.page);
    if base <= here then n else FirstCommand(l, NextPage(l, here), base, erase, n + Commands(erase))
  }

  /** No command for the page that holds `a` failed. */
  ghost predicate PageClean(l: Layout, statusOf: nat -> Status, first: nat, n0: nat, erase: bool, a: nat)
    requires l.Valid()
  {
    var n := FirstCommand(l, first, AlignDown(a, l.page), erase, n0);
    Sticky(statusOf, n, n + Commands(erase)).Clean()
  }

  /** What a copy guarantees page by page, whatever happens to other pages: a page with a byte of the
      copy for which no command failed holds its part of the data and its previous contents around it. */
  ghost predicate PagesEffect(l: Layout, statusOf: nat -> Status, n0: nat, before: map<int, byte>, after: map<int, byte>,
                              dst: nat, data: seq<byte>, erase: bool)
    requires l.Valid()
  {
    forall a: nat | a in before && a in after && Touched(l, a, dst, |data|) ::
      PageClean(l, statusOf, ClipStart(l, dst), n0, erase, a) ==> after[a] == Programmed(before, dst, data, erase)[a]
  }

  // ---- Repeated patterns -------------------------------------------------------------

  function ByteOf(value: nat): byte {
    (value % 256) as byte
  }

  /** The `n` low bytes of `value`, most significant first. */
  function BigEndian(value: nat, n: nat): (s: seq<byte>)
    ensures |s| == n
  {
    if n == 0 then [] else BigEndian(value / 256, n - 1) + [ByteOf(value)]
  }

  /** `n` bytes of the endlessly repeated `pattern`. */
  function Repeat(pattern: seq<byte>, n: nat): (s: seq<byte>)
    requires 0 < |pattern|
    ensures |s| == n
  {
    seq(n, k requires 0 <= k < n => pattern[k % |pattern|])
  }

  function Pow256(n: nat): (p: nat)
    ensures 0 < p
  {
    if n == 0 then 1 else 256 * Pow256(n - 1)
  }

  lemma {:induction false} BigEndianZero(n: nat)
    ensures forall k | 0 <= k < n :: BigEndian(0, n)[k] == 0
  {
    if n > 0 {
      BigEndianZero(n - 1);
    }
  }

  /** Placing `high` above an `n`-byte value puts its bytes in front. */
  lemma {:induction false} BigEndianJoin(high: nat, m: nat, low: nat, n: nat)
    requires low < Pow256(n)
    ensures BigEndian(low + high * Pow256(n), m + n) == BigEndian(high, m) + BigEndian(low, n)
  {
    if n > 0 {
      var rest := high * Pow256(n - 1);
      RegroupProduct(high, Pow256(n - 1));
      LowByte(low, rest);
      BigEndianJoin(high, m, low / 256, n - 1);
      assert BigEndian(low + 256 * rest, m + n) == BigEndian(low / 256 + rest, m + n - 1) + [ByteOf(low)];
    } else {
      assert BigEndian(low, 0) == [];
    }
  }

  lemma LowByte(low: nat, rest: nat)
    ensures (low + 256 * rest) / 256 == low / 256 + rest && ByteOf(low + 256 * rest) == ByteOf(low)
  {
  }

  lemma RegroupProduct(x: nat, y: nat)
    ensures x * (256 * y) == 256 * (x * y)
  {
  }

  /** A pattern that is itself a half repeated repeats like the half. */
  lemma RepeatDouble(half: seq<byte>, n: nat)
    requires 0 < |half|
    ensures Repeat(half + half, n) == Repeat(half, n)
  {
    forall k | 0 <= k < n
      ensures Repeat(half + half, n)[k] == Repeat(half, n)[k]
    {
      GetAlignIsRemainder(k, |half|);
      GetAlignIsRemainder(k, 2 * |half|);
      DoubleAlign(k, |half|);
    }
  }

  lemma {:induction false} DoubleAlign(k: nat, w: nat)
    requires 0 < w
    ensures GetAlign(k, w) == if GetAlign(k, 2 * w) < w then GetAlign(k, 2 * w) else GetAlign(k, 2 * w) - w
  {
    if 2 * w <= k {
      DoubleAlign(k - 2 * w, w);
      AlignedStep(k - w, w);
      AlignedStep(k - 2 * w, w);
    }
  }
}
