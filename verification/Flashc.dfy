/** The flash driver: commands with a sticky error status, and copies of arbitrary byte
    ranges into memory that is programmed a page at a time. */
module FlashDriver {
  import opened Alignment
  import opened Basics
  import opened FlashModel

  /** One page being loaded into the page buffer: the page starts at `base`, `buffer` is the
      page buffer before the first store, `want` what the page is to hold, `log` the accesses
      before the buffer was cleared. */
  datatype PageLoad = PageLoad(base: nat, buffer: seq<byte>, want: map<int, byte>, log: seq<Access>) {
    /** The page buffer holds the wanted bytes below `cursor`, and nothing was stored above. */
    ghost predicate Loaded(stored: seq<byte>, cursor: nat) {
      && |stored| == |buffer|
      && forall j | 0 <= j < |buffer| ::
           && (base + j < cursor ==> base + j in want && stored[j] == buffer[j] & want[base + j])
           && (cursor <= base + j ==> stored[j] == buffer[j])
    }

    lemma StoreAdvances(stored: seq<byte>, address: nat, data: seq<byte>)
      requires Loaded(stored, address) && base <= address <= base + |buffer| - 8 && |data| == 8 && Prepared(want, address, data, 8)
      ensures Loaded(StoreInto(stored, address - base, data), address + 8)
    {
      var r := StoreInto(stored, address - base, data);
      forall j | 0 <= j < |buffer|
        ensures base + j < address + 8 ==> base + j in want && r[j] == buffer[j] & want[base + j]
        ensures address + 8 <= base + j ==> r[j] == buffer[j]
      {
        if address <= base + j < address + 8 {
          var i := base + j - address;
          assert address + i in want && data[i] == want[address + i];
        }
      }
    }
  }

  /** The bytes `first..upTo` are to keep their contents. */
  ghost predicate Keeps(mem: map<int, byte>, want: map<int, byte>, first: nat, upTo: nat) {
    forall a | first <= a < upTo :: a in mem && a in want && want[a] == mem[a]
  }

  class Flashc {
    const layout: Layout
    /** The status the controller reports for its n-th command. */
    const statusOf: nat -> Status

    var hw: Hardware
    /** Number of commands issued so far. */
    var issued: nat
    /** The sticky error status. */
    var errorStatus: Status
    /** All accesses so far. */
    ghost var log: seq<Access>

    ghost predicate Valid()
      reads this
    {
      layout.Valid() && hw.Valid(layout)
    }

    constructor (layout: Layout, statusOf: nat -> Status, hw: Hardware)
      requires layout.Valid() && hw.Valid(layout)
      ensures Valid() && this.layout == layout && this.statusOf == statusOf && this.hw == hw
      ensures issued == 0 && errorStatus == NO_ERROR && log == []
    {
      this.layout := layout;
      this.statusOf := statusOf;
      this.hw := hw;
      issued := 0;
      errorStatus := NO_ERROR;
      log := [];
    }

    // ---- Commands --------------------------------------------------------------------

    method IssueCommand(cmd: Command, pageNumber: int)
      requires Valid()
      modifies this
      ensures Valid() && issued == old(issued) + 1 && errorStatus == statusOf(old(issued))
      ensures hw == Execute(layout, old(hw).(argument := if 0 <= pageNumber then pageNumber else old(hw).argument),
                            cmd, errorStatus)
      ensures log == old(log) + [AccessOf(layout, cmd, hw.argument)]
    {
      if 0 <= pageNumber {
        hw := hw.(argument := pageNumber);
      }
      errorStatus := statusOf(issued);
      hw := Execute(layout, hw, cmd, errorStatus);
      issued := issued + 1;
      log := log + [AccessOf(layout, cmd, hw.argument)];
    }

    method ClearPageBuffer()
      requires Valid()
      modifies this
      ensures Valid() && issued == old(issued) + 1 && errorStatus == statusOf(old(issued))
      ensures hw == if errorStatus.Clean() then old(hw).(buffer := Filled(layout.page)) else old(hw)
      ensures log == old(log) + [Cleared]
    {
      IssueCommand(Command.ClearPageBuffer, -1);
    }

    // ---- Stores into the page buffer -------------------------------------------------

    /** A 64-bit store to a flash address. */
    method StoreDoubleWord(address: nat, data: seq<byte>)
      requires layout.Valid() && address in hw.mem && Aligned(address, 8) && |data| == 8
      requires GetAlign(address, layout.page) + 8 <= |hw.buffer|
      modifies `hw, `log
      ensures log == old(log) + [Loaded(address)]
      ensures hw == old(hw).(buffer := StoreInto(old(hw).buffer, GetAlign(address, layout.page), data),
                             argument := AlignDown(address, layout.page))
    {
      hw := hw.(buffer := StoreInto(hw.buffer, GetAlign(address, layout.page), data),
                argument := AlignDown(address, layout.page));
      log := log + [Loaded(address)];
    }

    /** The double-words of page `p` below `cursor` have been stored, each once, and nothing else. */
    ghost predicate Loading(p: PageLoad, cursor: nat)
      reads this
    {
      && layout.Valid() && |p.buffer| == layout.page
      && Aligned(p.base, layout.page) && Aligned(p.base, 8)
      && p.base <= cursor <= p.base + layout.page && Aligned(cursor, 8) && Aligned(p.base + layout.page, 8)
      && (forall a | p.base <= a < p.base + layout.page :: a in p.want && a in hw.mem)
      && p.Loaded(hw.buffer, cursor)
      && log == p.log + [Cleared] + Loads(p.base, cursor)
      && (p.base < cursor ==> hw.argument == p.base)
    }

    method StoreWanted(address: nat, data: seq<byte>, ghost p: PageLoad)
      requires Loading(p, address) && address < p.base + layout.page
      requires |data| == 8 && Prepared(p.want, address, data, 8)
      modifies `hw, `log
      ensures Loading(p, address + 8) && hw.mem == old(hw.mem) && hw.fuses == old(hw.fuses)
    {
      AlignedGap(address, p.base + layout.page, 8);
      BlockBase(p.base, address, layout.page);
      assert address in hw.mem;
      p.StoreAdvances(hw.buffer, address, data);
      StoreDoubleWord(address, data);
      AlignedSum(address, 8, 8);
      LoadsExtend(p.base, address);
    }

    /** Stores the present contents of a double-word back into the page buffer. */
    method Restore(address: nat, ghost p: PageLoad)
      requires Loading(p, address) && address < p.base + layout.page
      requires Keeps(hw.mem, p.want, address, address + 8)
      modifies `hw, `log
      ensures Loading(p, address + 8) && hw.mem == old(hw.mem) && hw.fuses == old(hw.fuses)
    {
      AlignedGap(address, p.base + layout.page, 8);
      StoreWanted(address, DoubleWordAt(hw.mem, address), p);
    }

    /** Fills the page buffer up to the double-word of `dest` with the present page contents. */
    method FillBefore(dest: nat, ghost p: PageLoad) returns (tmp: nat)
      requires Loading(p, p.base) && p.base == AlignDown(dest, layout.page)
      requires Keeps(hw.mem, p.want, p.base, AlignDown(dest, 8))
      modifies `hw, `log
      ensures tmp == AlignDown(dest, 8) && Loading(p, tmp) && hw.mem == old(hw.mem) && hw.fuses == old(hw.fuses)
    {
      tmp := AlignDown(dest, layout.page);
      PageBounds(layout, dest);
      AlignDownAligned(dest, 8);
      while tmp < AlignDown(dest, 8)
        invariant p.base <= tmp <= AlignDown(dest, 8)
        invariant Loading(p, tmp) && hw.mem == old(hw.mem) && hw.fuses == old(hw.fuses)
      {
        AlignedGap(tmp, AlignDown(dest, 8), 8);
        Restore(tmp, p);
        tmp := tmp + 8;
      }
    }

    /** Fills the rest of the page buffer with the present page contents. */
    method FillAfter(first: nat, ghost p: PageLoad)
      requires Loading(p, first) && p.base < first
      requires Keeps(hw.mem, p.want, first, p.base + layout.page)
      modifies `hw, `log
      ensures Loading(p, p.base + layout.page) && hw.mem == old(hw.mem) && hw.fuses == old(hw.fuses)
    {
      var tmp := first;
      while !Aligned(tmp, layout.page)
        invariant first <= tmp <= p.base + layout.page
        invariant Loading(p, tmp) && hw.mem == old(hw.mem) && hw.fuses == old(hw.fuses)
        decreases p.base + layout.page - tmp
      {
        PageEnd(layout.page, p.base, tmp);
        AlignedGap(tmp, p.base + layout.page, 8);
        Restore(tmp, p);
        tmp := tmp + 8;
      }
      PageEnd(layout.page, p.base, tmp);
    }

    // ---- Bytes of the double-word buffer ---------------------------------------------

    /** Sets bytes `first..upTo` of the double-word from the memory at `tmp`. */
    method FillFromFlash(dword: seq<byte>, first: nat, upTo: nat, tmp: nat) returns (r: seq<byte>)
      requires |dword| == 8 && first <= upTo <= 8
      requires forall a | tmp <= a < tmp + upTo - first :: a in hw.mem
      ensures |r| == 8
      ensures forall k {:trigger r[k]} | 0 <= k < 8 :: r[k] == if first <= k < upTo then hw.mem[tmp + k - first] else dword[k]
    {
      r := dword;
      var i := first;
      while i < upTo
        invariant first <= i <= upTo && |r| == 8
        invariant forall k | 0 <= k < 8 :: r[k] == if first <= k < i then hw.mem[tmp + k - first] else dword[k]
      {
        r := r[i := hw.mem[tmp + i - first]];
        i := i + 1;
      }
    }

    // ---- Loading one page of a copy --------------------------------------------------

    /** Writes one double-word of source to the page buffer, reading it with the widest accesses
        its alignment allows. */
    method CopyDoubleWord(dest: nat, src: seq<byte>, srcAddress: nat, source: nat, dword: seq<byte>, ghost p: PageLoad)
      returns (dword': seq<byte>)
      requires Loading(p, dest) && dest < p.base + layout.page && |dword| == 8
      requires FromSource(p.want, src, dest - source, dest, dest + 8)
      modifies `hw, `log
      ensures Loading(p, dest + 8) && hw.mem == old(hw.mem) && hw.fuses == old(hw.fuses) && |dword'| == 8
    {
      hide GetAlign, Loading, FromSource, Prepared;
      SourcePrepared(p.want, src, dest, source);
      dword' := dword;
      match GetAlign(srcAddress + source, 4) {
        case 0 =>
          StoreWanted(dest, src[source..source + 8], p);
        case 2 =>
          dword' := FillFromSource(dword', 0, 8, src, source, 2);
          assert dword' == src[source..source + 8];
          StoreWanted(dest, dword', p);
        case _ =>
          dword' := FillFromSource(dword', 0, 8, src, source, 1);
          assert dword' == src[source..source + 8];
          StoreWanted(dest, dword', p);
      }
    }

    /** Writes the source to the page buffer from `start` up to `pageSourceEnd`. */
    method CopyDoubleWords(start: nat, pageSourceEnd: nat, src: seq<byte>, srcAddress: nat, first: nat,
                           dword: seq<byte>, ghost p: PageLoad)
      returns (dest: nat, source: nat, dword': seq<byte>)
      requires Loading(p, start) && start <= pageSourceEnd <= p.base + layout.page && Aligned(pageSourceEnd, 8)
      requires |dword| == 8 && FromSource(p.want, src, start - first, start, pageSourceEnd)
      modifies `hw, `log
      ensures Loading(p, pageSourceEnd) && hw.mem == old(hw.mem) && hw.fuses == old(hw.fuses)
      ensures dest == pageSourceEnd && source == first + (dest - start) && |dword'| == 8
      ensures dest == start ==> dword' == dword
    {
      dest, source, dword' := start, first, dword;
      while dest < pageSourceEnd
        invariant start <= dest <= pageSourceEnd && source == first + (dest - start) && |dword'| == 8
        invariant Loading(p, dest) && hw.mem == old(hw.mem) && hw.fuses == old(hw.fuses)
        invariant dest == start ==> dword' == dword
        decreases pageSourceEnd - dest
      {
        AlignedGap(dest, pageSourceEnd, 8);
        dword' := CopyDoubleWord(dest, src, srcAddress, source, dword', p);
        dest, source := dest + 8, source + 8;
      }
    }

    /** The part of the page before the first whole source double-word. A double-word that holds
        both ends of the copy is not stored: it stays pending. */
    method LoadHead(start: nat, destEnd: nat, src: seq<byte>, first: nat, ghost p: PageLoad)
      returns (dest: nat, source: nat, dword: seq<byte>, pending: bool)
      requires Loading(p, p.base) && p.base == AlignDown(start, layout.page)
      requires Copies(hw.mem, p, layout.page, start, destEnd, src, first)
      modifies `hw, `log
      ensures Loading(p, dest) && hw.mem == old(hw.mem) && hw.fuses == old(hw.fuses) && |dword| == 8
      ensures dest <= AlignDown(destEnd, 8)
      ensures !pending ==> start <= dest && source == first + (dest - start)
      ensures pending ==> dest == AlignDown(destEnd, 8) && destEnd < p.base + layout.page && !Aligned(destEnd, 8)
      ensures pending ==> Prepared(p.want, dest, dword, GetAlign(destEnd, 8))
    {
      dest, source, dword, pending := start, first, Filled(8), false;
      HeadBounds(layout, start, destEnd);
      if !Aligned(dest, layout.page) {
        var tmp := FillBefore(dest, p);
        if !Aligned(dest, 8) {
          dest, source, dword, pending := LoadFirstDoubleWord(start, destEnd, src, first, tmp, p);
        }
      }
    }

    /** The double-word that holds `start`: present contents below it, source from it on. */
    method FirstDoubleWord(start: nat, ghost upTo: nat, src: seq<byte>, first: nat, ghost want: map<int, byte>)
      returns (dword: seq<byte>)
      requires Keeps(hw.mem, want, AlignDown(start, 8), start)
      requires start <= upTo && FromSource(want, src, start - first, start, upTo) && first + 8 - GetAlign(start, 8) <= |src|
      ensures |dword| == 8
      ensures Prepared(want, AlignDown(start, 8), dword, Min(8, upTo - AlignDown(start, 8)))
    {
      var i := GetAlign(start, 8);
      dword := FillFromFlash(Filled(8), 0, i, AlignDown(start, 8));
      dword := FillFromSource(dword, i, 8, src, first, 1);
    }

    method LoadFirstDoubleWord(start: nat, destEnd: nat, src: seq<byte>, first: nat, tmp: nat, ghost p: PageLoad)
      returns (dest: nat, source: nat, dword: seq<byte>, pending: bool)
      requires Loading(p, tmp) && tmp == AlignDown(start, 8) && tmp + 8 <= p.base + layout.page && tmp < start
      requires tmp <= AlignDown(destEnd, 8) && Aligned(AlignDown(destEnd, 8), 8)
      requires Copies(hw.mem, p, layout.page, start, destEnd, src, first)
      modifies `hw, `log
      ensures Loading(p, dest) && hw.mem == old(hw.mem) && hw.fuses == old(hw.fuses) && |dword| == 8
      ensures dest <= AlignDown(destEnd, 8)
      ensures !pending ==> start <= dest && source == first + (dest - start)
      ensures pending ==> dest == tmp == AlignDown(destEnd, 8)
      ensures pending ==> Prepared(p.want, dest, dword, GetAlign(destEnd, 8))
    {
      hide GetAlign, Loads;
      dword := FirstDoubleWord(start, Min(destEnd, p.base + layout.page), src, first, p.want);
      source := first + 8 - GetAlign(start, 8);
      dest := AlignDown(start, 8);
      if dest < AlignDown(destEnd, 8) {
        AlignedGap(dest, AlignDown(destEnd, 8), 8);
        StoreWanted(dest, dword, p);
        dest := dest + 8;
        pending := false;
      } else {
        pending := true;
      }
    }

    /** The part of the page from the last, incomplete source double-word on. */
    method LoadTail(start: nat, destEnd: nat, src: seq<byte>, first: nat, dword: seq<byte>, pending: bool, ghost p: PageLoad)
      returns (dest: nat)
      requires Loading(p, start) && |dword| == 8 && start == AlignDown(destEnd, 8)
      requires p.base < destEnd < p.base + layout.page
      requires if pending then Prepared(p.want, start, dword, GetAlign(destEnd, 8)) && !Aligned(destEnd, 8)
               else FromSource(p.want, src, start - first, start, destEnd)
      requires Keeps(hw.mem, p.want, destEnd, p.base + layout.page)
      modifies `hw, `log
      ensures Loading(p, p.base + layout.page) && hw.mem == old(hw.mem) && hw.fuses == old(hw.fuses)
      ensures p.base < dest <= p.base + layout.page && destEnd <= dest
    {
      hide GetAlign, Loads;
      dest := start;
      var i, dword := GetAlign(destEnd, 8), dword;
      if !pending {
        dword := FillFromSource(dword, 0, i, src, first, 1);
      }
      var tmp := destEnd;
      if !Aligned(destEnd, 8) {
        AlignedGap(start, p.base + layout.page, 8);
        dword := FillFromFlash(dword, i, 8, tmp);
        tmp := tmp + 8 - i;
        StoreWanted(dest, dword, p);
        dest := dest + 8;
      }
      FillAfter(tmp, p);
    }

    /** Loads the page of `start` with the source from offset `first` up to `destEnd`, and with the
        present page contents around it. */
    method LoadCopiedPage(start: nat, destEnd: nat, src: seq<byte>, srcAddress: nat, first: nat, ghost p: PageLoad)
      returns (dest: nat, source: nat)
      requires layout.flash <= p.base && p.base <= layout.user && destEnd <= layout.user + layout.page
      requires Valid() && Loading(p, p.base) && p.base == AlignDown(start, layout.page)
      requires Copies(hw.mem, p, layout.page, start, destEnd, src, first)
      modifies `hw, `log
      ensures Valid() && log == p.log + [Cleared] + Loads(p.base, p.base + layout.page)
      ensures Loading(p, p.base + layout.page) && hw.mem == old(hw.mem) && hw.fuses == old(hw.fuses)
      ensures p.base < dest <= p.base + layout.page
      ensures if destEnd < p.base + layout.page then destEnd <= dest
              else dest == p.base + layout.page && source == first + (dest - start)
    {
      hide GetAlign, Loads, Loading, Keeps, Prepared, FromSource, MinSigned, AlignDown;
      TailBounds(layout, start, destEnd);
      var pageSourceEnd := MinSigned(AlignDown(destEnd, 8), AlignDown(start, layout.page) + layout.page);
      MinSignedAgrees(layout, AlignDown(destEnd, 8), p.base + layout.page);
      var incompletePageEnd := AlignDown(start, layout.page) >= AlignDown(destEnd, layout.page);
      var dword, pending;
      dest, source, dword, pending := LoadHead(start, destEnd, src, first, p);
      SourcePart(p.want, src, start - first, start, Min(destEnd, p.base + layout.page), dest - source, dest, pageSourceEnd);
      SourcePart(p.want, src, start - first, start, Min(destEnd, p.base + layout.page),
                 dest - source, pageSourceEnd, if pending then pageSourceEnd else Min(destEnd, p.base + layout.page));
      dest, source, dword := CopyDoubleWords(dest, pageSourceEnd, src, srcAddress, source, dword, p);
      if incompletePageEnd {
        dest := LoadTail(dest, destEnd, src, source, dword, pending, p);
      }
      LoadingDone(p);
    }

    lemma LoadingDone(p: PageLoad)
      requires Loading(p, p.base + layout.page)
      ensures |hw.buffer| == layout.page && log == p.log + [Cleared] + Loads(p.base, p.base + layout.page)
    {
    }

    // ---- Programming the loaded page -------------------------------------------------

    /** Erases the page at `pageNumber`, or the current page if that is negative. With `check`, a
        quick page read tells whether the page is erased now. */
    method ErasePage(pageNumber: int, check: bool) returns (pageErased: bool)
      requires Valid() && layout.InArray(if 0 <= pageNumber then pageNumber else hw.argument)
      modifies this
      ensures Valid() && issued == old(issued) + if check then 2 else 1
      ensures errorStatus == Sticky(statusOf, old(issued), issued)
      ensures hw.buffer == old(hw).buffer && hw.fuses == old(hw).fuses
      ensures hw.argument == if 0 <= pageNumber then pageNumber else old(hw).argument
      ensures hw.mem == if statusOf(old(issued)).Clean() then EraseRange(old(hw).mem, hw.argument, layout.page) else old(hw).mem
      ensures log == old(log) + [Erased(hw.argument)] + if check then [Other(QuickPageRead, hw.argument)] else []
      ensures !check ==> pageErased
      ensures check && statusOf(old(issued) + 1).Clean() ==> pageErased == AllOnes(hw.mem, hw.argument, layout.page)
    {
      ghost var n := issued;
      pageErased := true;
      IssueCommand(Command.ErasePage, pageNumber);
      StickyOne(statusOf, n);
      if check {
        var status := errorStatus;
        IssueCommand(QuickPageRead, -1);
        pageErased := hw.allOnes;
        errorStatus := errorStatus.Or(status);
        StickyOne(statusOf, n + 1);
        StickySplit(statusOf, n, n + 1, n + 2);
      }
    }

    method WritePage(pageNumber: int)
      requires Valid() && pageNumber < 0 && layout.InArray(hw.argument)
      modifies this
      ensures Valid() && issued == old(issued) + 1 && errorStatus == statusOf(old(issued))
      ensures hw == if errorStatus.Clean() then old(hw).(mem := WriteRange(old(hw).mem, old(hw).argument, old(hw).buffer)) else old(hw)
      ensures log == old(log) + [Written(old(hw).argument)]
    {
      IssueCommand(Command.WritePage, pageNumber);
    }

    /** Erases the User page. With `check`, the status kept is that of the quick page read alone. */
    method EraseUserPage(check: bool) returns (pageErased: bool)
      requires Valid()
      modifies this
      ensures Valid() && issued == old(issued) + (if check then 2 else 1) && errorStatus == statusOf(issued - 1)
      ensures errorStatus == Sticky(statusOf, old(issued), issued)
         <==> !check || statusOf(old(issued)).Or(statusOf(old(issued) + 1)) == statusOf(old(issued) + 1)
      ensures hw == old(hw).(mem := if statusOf(old(issued)).Clean() then EraseRange(old(hw).mem, layout.user, layout.page)
                                    else old(hw).mem, allOnes := hw.allOnes)
      ensures log == old(log) + [Erased(layout.user)] + if check then [Other(QuickUserPageRead, hw.argument)] else []
      ensures !check ==> pageErased
      ensures check && statusOf(old(issued) + 1).Clean() ==> pageErased == AllOnes(hw.mem, layout.user, layout.page)
    {
      ghost var n := issued;
      pageErased := true;
      IssueCommand(Command.EraseUserPage, -1);
      StickyOne(statusOf, n);
      if check {
        IssueCommand(QuickUserPageRead, -1);
        pageErased := hw.allOnes;
        StickyOne(statusOf, n + 1);
        StickySplit(statusOf, n, n + 1, n + 2);
      }
    }

    method WriteUserPage()
      requires Valid()
      modifies this
      ensures Valid() && issued == old(issued) + 1 && errorStatus == statusOf(old(issued))
      ensures hw == if errorStatus.Clean() then old(hw).(mem := WriteRange(old(hw).mem, layout.user, old(hw).buffer)) else old(hw)
      ensures log == old(log) + [Written(layout.user)]
    {
      IssueCommand(Command.WriteUserPage, -1);
    }

    /** Erases (if asked to) and writes the current page from the page buffer, and goes on to the
        User page if the end of the array is reached. `jump` is how far that moves the destination. */
    method ProgramPage(loaded: nat, erase: bool, status: Status, ghost base: nat)
      returns (dest: nat, jump: nat, status': Status)
      requires Valid() && layout.Owned(base) && hw.argument == base == AlignDown(base, layout.page)
      requires base < loaded <= base + layout.page
      modifies this
      ensures Valid() && issued == old(issued) + Commands(erase) - 1 && status' == status.Or(Sticky(statusOf, old(issued), issued))
      ensures log == old(log) + (if erase then [Erased(base)] else []) + [Written(base)]
      ensures Sticky(statusOf, old(issued), issued).Clean() ==> hw.mem == PageWrite(old(hw).mem, base, old(hw).buffer, erase)
      ensures SameOutside(old(hw).mem, hw.mem, base, layout.page) && hw.fuses == old(hw).fuses
      ensures jump == dest - loaded && loaded <= dest
      ensures loaded == base + layout.page ==> dest == NextPage(layout, base)
    {
      hide GetAlign, AlignDown, Sticky, EraseRange, WriteRange, PageWrite, SameOutside;
      PageInOneArea(layout, base);
      ghost var n0, m0, erased := issued, hw.mem, NO_ERROR;
      StickyNone(statusOf, n0);
      dest, jump, status' := loaded, 0, status;
      if loaded <= layout.user {
        if erase {
          var _ := ErasePage(-1, false);
          StickyOne(statusOf, n0);
          status' := status'.Or(errorStatus);
          erased := errorStatus;
        }
        ghost var n1, m1 := issued, hw.mem;
        WritePage(-1);
        StickyOne(statusOf, n1);
        PageProgrammed(m0, m1, hw.mem, base, hw.buffer, erase, erased, errorStatus);
        status' := status'.Or(errorStatus);
        if layout.arrayEnd <= dest {
          jump := layout.user - dest;
          dest := layout.user;
        }
      } else {
        if erase {
          var _ := EraseUserPage(false);
          StickyOne(statusOf, n0);
          status' := status'.Or(errorStatus);
          erased := errorStatus;
        }
        ghost var n1, m1 := issued, hw.mem;
        WriteUserPage();
        StickyOne(statusOf, n1);
        PageProgrammed(m0, m1, hw.mem, base, hw.buffer, erase, erased, errorStatus);
        status' := status'.Or(errorStatus);
      }
      StickySplit(statusOf, n0, issued - 1, issued);
    }

    /** `ProgramPage` after a complete load: if the buffer had been cleared and no command fails,
        the page's part of the copy is done. */
    method ProgramLoadedPage(loaded: nat, erase: bool, status: Status, ghost p: PageLoad, ghost dst: nat,
                             ghost data: seq<byte>, ghost cleared: bool)
      returns (dest: nat, jump: nat, status': Status)
      requires Valid() && Loading(p, p.base + layout.page)
      requires layout.Owned(p.base) && AlignDown(p.base, layout.page) == p.base
      requires p.base < loaded <= p.base + layout.page
      requires p.want == Wanted(hw.mem, dst, data) && (cleared ==> p.buffer == Filled(layout.page))
      modifies this
      ensures Valid() && issued == old(issued) + Commands(erase) - 1 && status' == status.Or(Sticky(statusOf, old(issued), issued))
      ensures log == old(log) + (if erase then [Erased(p.base)] else []) + [Written(p.base)]
      ensures cleared && Sticky(statusOf, old(issued), issued).Clean() ==>
                hw.mem == ProgrammedPage(old(hw).mem, p.base, layout.page, dst, data, erase)
      ensures SameOutside(old(hw).mem, hw.mem, p.base, layout.page) && hw.fuses == old(hw).fuses
      ensures jump == dest - loaded && loaded <= dest
      ensures loaded == p.base + layout.page ==> dest == NextPage(layout, p.base)
    {
      BufferComplete(hw.mem, hw.buffer, p, dst, data, erase, cleared);
      dest, jump, status' := ProgramPage(loaded, erase, status, p.base);
    }

    // ---- Copy from memory ------------------------------------------------------------

    /** Starts a round of a copy: clears the page buffer for the page that holds `start`. */
    method BeginPage(start: nat, status: Status, ghost destEnd: nat, ghost dst: nat, ghost data: seq<byte>)
      returns (status': Status, ghost p: PageLoad)
      requires Valid() && InCopy(layout, dst, |data|, start, destEnd)
      modifies this
      ensures Valid() && issued == old(issued) + 1
      ensures status' == status.Or(statusOf(old(issued)))
      ensures hw.mem == old(hw).mem && hw.fuses == old(hw).fuses
      ensures Loading(p, p.base) && p.base == AlignDown(start, layout.page) && p.log == old(log)
      ensures layout.Owned(p.base) && AlignDown(p.base, layout.page) == p.base && p.base <= layout.user
      ensures p.want == Wanted(hw.mem, dst, data)
      ensures statusOf(old(issued)).Clean() ==> p.buffer == Filled(layout.page)
      ensures CopiesData(hw.mem, p, layout.page, start, destEnd, dst, data)
    {
      hide GetAlign, InCopy, CopiesData, Wanted;
      ClearPageBuffer();
      status' := status.Or(errorStatus);
      p := PageLoad(AlignDown(start, layout.page), hw.buffer, Wanted(hw.mem, dst, data), old(log));
      PageStarts(layout, hw.mem, dst, data, start, destEnd, p);
    }

    /** One round of the copy loop: the page that holds `start`. */
    method CopyPage(start: nat, destEnd: nat, src: seq<byte>, srcAddress: nat, first: nat, erase: bool, status: Status,
                    ghost dst: nat, ghost nbytes: nat)
      returns (dest: nat, source: nat, status': Status)
      requires Valid() && nbytes + 7 <= |src|
      requires InCopy(layout, dst, nbytes, start, destEnd) && first == start - dst
      modifies this
      ensures Valid() && issued == old(issued) + Commands(erase) && status' == status.Or(Sticky(statusOf, old(issued), issued))
      ensures log == old(log) + PageAccesses(AlignDown(start, layout.page), layout.page, erase)
      ensures PageEffect(layout, old(hw), hw, Sticky(statusOf, old(issued), issued), AlignDown(start, layout.page),
                         dst, src[..nbytes], erase)
      ensures dest < destEnd ==> dest == NextPage(layout, AlignDown(start, layout.page)) && source == dest - dst
      ensures destEnd <= dest ==> destEnd <= NextPage(layout, AlignDown(start, layout.page))
    {
      hide GetAlign, Loading, Wanted, ProgrammedPage, Copies, CopiesData, Sticky, Loads, SameOutside, Keeps, FromSource;
      ghost var n0 := issued;
      ghost var p;
      status', p := BeginPage(start, status, destEnd, dst, src[..nbytes]);
      ghost var n1 := issued;
      DataFromSource(hw.mem, p, layout.page, start, destEnd, dst, nbytes, src);
      dest, source := LoadCopiedPage(start, destEnd, src, srcAddress, first, p);
      var jump;
      dest, jump, status' := ProgramLoadedPage(dest, erase, status', p, dst, src[..nbytes], statusOf(n0).Clean());
      source := source + jump;
      StickyOne(statusOf, n0);
      StickySplit(statusOf, n0, n1, issued);
    }

    /** `flashc_memcpy`: copies the first `nbytes` bytes of `src`, which lies at `srcAddress`, to `dst`.
        Destination areas outside the flash array and the User page are ignored. */
    method MemCpy(dst: nat, src: seq<byte>, srcAddress: nat, nbytes: nat, erase: bool)
      requires Valid() && dst + nbytes < 0x1_0000_0000 && nbytes + 7 <= |src|
      modifies this
      ensures Valid() && old(issued) <= issued
      ensures CopyEffect(layout, old(hw), hw, errorStatus, dst, src[..nbytes], erase)
      ensures PagesEffect(layout, statusOf, old(issued), old(hw.mem), hw.mem, dst, src[..nbytes], erase)
      ensures errorStatus == Sticky(statusOf, old(issued), issued)
      ensures log == old(log) + CopyAccesses(layout, ClipStart(layout, dst), ClipEnd(layout, dst + nbytes), erase)
    {
      hide GetAlign, CopyProgress, CopyEffect, PagesProgress, PagesEffect, PageEffect, Commands, InCopy,
           PageAccesses, CopyAccesses, NextPage, Sticky, AlignDown;
      var dest, source, destEnd := dst, 0, dst + nbytes;
      var status := NO_ERROR;
      if dest < layout.flash {
        source := source + layout.flash - dest;
        dest := layout.flash;
      } else if layout.arrayEnd <= dest < layout.user {
        source := source + layout.user - dest;
        dest := layout.user;
      }
      if destEnd > layout.user + layout.page {
        destEnd := layout.user + layout.page;
      } else if layout.user >= destEnd > layout.arrayEnd {
        destEnd := layout.arrayEnd;
      }
      ghost var first, data, before := dest, src[..nbytes], hw;
      CopyStarts(layout, before, dst, data, erase);
      PagesStart(layout, statusOf, issued, before, dst, data, erase);
      StickyNone(statusOf, issued);
      while dest < destEnd
        invariant Valid() && old(issued) <= issued && status == Sticky(statusOf, old(issued), issued)
        invariant dest < destEnd ==> source == dest - dst
        invariant CopyProgress(layout, before, hw, status, dst, data, erase, dest, destEnd)
        invariant PagesProgress(layout, statusOf, old(issued), before.mem, hw.mem, issued, dst, data, erase, dest, destEnd)
        invariant dest < destEnd ==> InCopy(layout, dst, nbytes, dest, destEnd)
        invariant log + CopyAccesses(layout, dest, destEnd, erase) == old(log) + CopyAccesses(layout, first, destEnd, erase)
        decreases destEnd - dest
      {
        ghost var start, n, now, status0 := dest, issued, hw, status;
        dest, source, status := CopyPage(dest, destEnd, src, srcAddress, source, erase, status, dst, nbytes);
        PagesRound(layout, statusOf, old(issued), before, now, hw, n, dst, data, erase, start, dest, destEnd);
        CopyRound(layout, before, now, hw, status0, Sticky(statusOf, n, issued), dst, data, erase, start, dest, destEnd);
        StickySplit(statusOf, old(issued), n, issued);
        AccessesRound(layout, start, dest, destEnd, erase);
      }
      CopyFinished(layout, before, hw, status, dst, data, erase, dest, destEnd);
      PagesFinished(layout, statusOf, old(issued), before.mem, hw.mem, issued, dst, data, erase, dest, destEnd);
      AccessesDone(layout, dest, destEnd, erase);
      errorStatus := status;
    }

    // ---- Set to a repeated pattern ---------------------------------------------------

    method FirstSetDoubleWord(start: nat, ghost upTo: nat, fill: seq<byte>, tmp: nat, ghost want: map<int, byte>)
      returns (dword: seq<byte>)
      requires |fill| == 8 && start <= upTo && tmp == AlignDown(start, 8)
      requires Keeps(hw.mem, want, tmp, start) && FromFill(want, fill, start, upTo)
      ensures |dword| == 8 && Prepared(want, tmp, dword, Min(8, upTo - tmp))
    {
      hide FromFill;
      dword := FillFromFlash(fill, 0, GetAlign(start, 8), tmp);
      FirstFillPrepared(hw.mem, want, start, upTo, fill, dword, Min(8, upTo - tmp));
    }

    method SetHead(start: nat, destEnd: nat, fill: seq<byte>, ghost p: PageLoad)
      returns (dest: nat, dword: seq<byte>)
      requires Loading(p, p.base) && p.base == AlignDown(start, layout.page) && |fill| == 8
      requires Sets(hw.mem, p, layout.page, start, destEnd, fill)
      modifies `hw, `log
      ensures Loading(p, dest) && hw.mem == old(hw.mem) && hw.fuses == old(hw.fuses) && |dword| == 8
      ensures dest <= AlignDown(destEnd, 8) && dest <= p.base + layout.page
      ensures if start <= dest then dword == fill
              else && dest == AlignDown(destEnd, 8) && destEnd < p.base + layout.page && !Aligned(destEnd, 8)
                   && Prepared(p.want, dest, dword, GetAlign(destEnd, 8))
    {
      hide GetAlign, Loads, FromFill;
      dest, dword := start, fill;
      HeadBounds(layout, start, destEnd);
      if !Aligned(dest, layout.page) {
        var tmp := FillBefore(dest, p);
        if !Aligned(dest, 8) {
          dword := FirstSetDoubleWord(start, Min(destEnd, p.base + layout.page), fill, tmp, p.want);
          dest := AlignDown(dest, 8);
          if dest < AlignDown(destEnd, 8) {
            AlignedGap(dest, AlignDown(destEnd, 8), 8);
            StoreWanted(dest, dword, p);
            dest := dest + 8;
            dword := fill;
          }
        }
      }
    }

    method SetDoubleWords(start: nat, pageSourceEnd: nat, fill: seq<byte>, ghost p: PageLoad)
      returns (dest: nat)
      requires Loading(p, start) && start <= pageSourceEnd <= p.base + layout.page && Aligned(pageSourceEnd, 8)
      requires |fill| == 8 && FromFill(p.want, fill, start, pageSourceEnd)
      modifies `hw, `log
      ensures Loading(p, pageSourceEnd) && hw.mem == old(hw.mem) && hw.fuses == old(hw.fuses)
      ensures dest == pageSourceEnd
    {
      hide GetAlign, Loads, FromFill, Prepared;
      dest := start;
      while dest < pageSourceEnd
        invariant start <= dest <= pageSourceEnd
        invariant Loading(p, dest) && hw.mem == old(hw.mem) && hw.fuses == old(hw.fuses)
      {
        AlignedGap(dest, pageSourceEnd, 8);
        FillHere(p.want, dest, fill, pageSourceEnd, start);
        StoreWanted(dest, fill, p);
        dest := dest + 8;
      }
    }

    method SetTail(start: nat, destEnd: nat, dword: seq<byte>, ghost p: PageLoad)
      returns (dest: nat)
      requires Loading(p, start) && |dword| == 8 && start == AlignDown(destEnd, 8)
      requires p.base < destEnd < p.base + layout.page
      requires Prepared(p.want, start, dword, GetAlign(destEnd, 8))
      requires Keeps(hw.mem, p.want, destEnd, p.base + layout.page)
      modifies `hw, `log
      ensures Loading(p, p.base + layout.page) && hw.mem == old(hw.mem) && hw.fuses == old(hw.fuses)
      ensures p.base < dest <= p.base + layout.page && destEnd <= dest
    {
      hide GetAlign, Loads;
      dest := start;
      var tmp := destEnd;
      if !Aligned(destEnd, 8) {
        AlignedGap(start, p.base + layout.page, 8);
        var i := GetAlign(destEnd, 8);
        var dword := FillFromFlash(dword, i, 8, tmp);
        tmp := tmp + 8 - i;
        StoreWanted(dest, dword, p);
        dest := dest + 8;
      }
      FillAfter(tmp, p);
    }

    method LoadSetPage(start: nat, destEnd: nat, fill: seq<byte>, ghost p: PageLoad)
      returns (dest: nat)
      requires layout.flash <= p.base && p.base <= layout.user && destEnd <= layout.user + layout.page
      requires Valid() && Loading(p, p.base) && p.base == AlignDown(start, layout.page) && |fill| == 8
      requires Sets(hw.mem, p, layout.page, start, destEnd, fill)
      modifies `hw, `log
      ensures Valid() && log == p.log + [Cleared] + Loads(p.base, p.base + layout.page)
      ensures Loading(p, p.base + layout.page) && hw.mem == old(hw.mem) && hw.fuses == old(hw.fuses)
      ensures p.base < dest <= p.base + layout.page
      ensures if destEnd < p.base + layout.page then destEnd <= dest else dest == p.base + layout.page
    {
      hide GetAlign, Loads, Loading, FromFill, Prepared;
      TailBounds(layout, start, destEnd);
      var pageSourceEnd := MinSigned(AlignDown(destEnd, 8), AlignDown(start, layout.page) + layout.page);
      MinSignedAgrees(layout, AlignDown(destEnd, 8), p.base + layout.page);
      var incompletePageEnd := AlignDown(start, layout.page) >= AlignDown(destEnd, layout.page);
      var dword;
      dest, dword := SetHead(start, destEnd, fill, p);
      ghost var head := dest;
      FillRange(p.want, fill, start, Min(destEnd, p.base + layout.page), dest, pageSourceEnd);
      dest := SetDoubleWords(dest, pageSourceEnd, fill, p);
      if incompletePageEnd {
        if start <= head {
          FillHere(p.want, dest, fill, destEnd, start);
        }
        dest := SetTail(dest, destEnd, dword, p);
      }
      LoadingDone(p);
    }

    /** One round of the set loop: the page that holds `start`. */
    method SetPage(start: nat, destEnd: nat, fill: seq<byte>, erase: bool, status: Status, ghost dst: nat, ghost data: seq<byte>)
      returns (dest: nat, status': Status)
      requires Valid() && |fill| == 8 && IsFill(fill, dst, data)
      requires InCopy(layout, dst, |data|, start, destEnd)
      modifies this
      ensures Valid() && issued == old(issued) + Commands(erase) && status' == status.Or(Sticky(statusOf, old(issued), issued))
      ensures log == old(log) + PageAccesses(AlignDown(start, layout.page), layout.page, erase)
      ensures PageEffect(layout, old(hw), hw, Sticky(statusOf, old(issued), issued), AlignDown(start, layout.page),
                         dst, data, erase)
      ensures dest < destEnd ==> dest == NextPage(layout, AlignDown(start, layout.page))
      ensures destEnd <= dest ==> destEnd <= NextPage(layout, AlignDown(start, layout.page))
    {
      hide GetAlign, Loading, Wanted, ProgrammedPage, Sets, IsFill, CopiesData, Sticky, Loads, SameOutside, Keeps, FromSource;
      ghost var n0 := issued;
      ghost var p;
      status', p := BeginPage(start, status, destEnd, dst, data);
      ghost var n1 := issued;
      DataFromFill(hw.mem, p, layout.page, start, destEnd, dst, data, fill);
      dest := LoadSetPage(start, destEnd, fill, p);
      var jump;
      dest, jump, status' := ProgramLoadedPage(dest, erase, status', p, dst, data, statusOf(n0).Clean());
      StickyOne(statusOf, n0);
      StickySplit(statusOf, n0, n1, issued);
    }

    /** `flashc_memset64`: repeats the big-endian double-word `value` over `dst..dst + nbytes`. */
    method MemSet64(dst: nat, value: nat, nbytes: nat, erase: bool)
      requires Valid() && dst + nbytes < 0x1_0000_0000 && value < Pow256(8)
      modifies this
      ensures Valid() && old(issued) <= issued
      ensures CopyEffect(layout, old(hw), hw, errorStatus, dst, Repeat(BigEndian(value, 8), nbytes), erase)
      ensures PagesEffect(layout, statusOf, old(issued), old(hw.mem), hw.mem, dst, Repeat(BigEndian(value, 8), nbytes), erase)
      ensures errorStatus == Sticky(statusOf, old(issued), issued)
      ensures log == old(log) + CopyAccesses(layout, ClipStart(layout, dst), ClipEnd(layout, dst + nbytes), erase)
    {
      hide GetAlign, CopyProgress, CopyEffect, PagesProgress, PagesEffect, PageEffect, Commands, InCopy,
           PageAccesses, CopyAccesses, NextPage, Sticky,
           IsFill, Repeat, BigEndian, Pow256, AlignDown;
      var dest, destEnd := dst, dst + nbytes;
      var fill := RotatePattern(dst, value);
      var status := NO_ERROR;
      if dest < layout.flash {
        dest := layout.flash;
      } else if layout.arrayEnd <= dest < layout.user {
        dest := layout.user;
      }
      if destEnd > layout.user + layout.page {
        destEnd := layout.user + layout.page;
      } else if layout.user >= destEnd > layout.arrayEnd {
        destEnd := layout.arrayEnd;
      }
      ghost var first, data, before := dest, Repeat(BigEndian(value, 8), nbytes), hw;
      FillIsPattern(dst, BigEndian(value, 8), nbytes, fill);
      CopyStarts(layout, before, dst, data, erase);
      PagesStart(layout, statusOf, issued, before, dst, data, erase);
      StickyNone(statusOf, issued);
      while dest < destEnd
        invariant Valid() && old(issued) <= issued && status == Sticky(statusOf, old(issued), issued)
        invariant CopyProgress(layout, before, hw, status, dst, data, erase, dest, destEnd)
        invariant PagesProgress(layout, statusOf, old(issued), before.mem, hw.mem, issued, dst, data, erase, dest, destEnd)
        invariant dest < destEnd ==> InCopy(layout, dst, nbytes, dest, destEnd)
        invariant log + CopyAccesses(layout, dest, destEnd, erase) == old(log) + CopyAccesses(layout, first, destEnd, erase)
        decreases destEnd - dest
      {
        ghost var start, n, now, status0 := dest, issued, hw, status;
        dest, status := SetPage(dest, destEnd, fill, erase, status, dst, data);
        PagesRound(layout, statusOf, old(issued), before, now, hw, n, dst, data, erase, start, dest, destEnd);
        CopyRound(layout, before, now, hw, status0, Sticky(statusOf, n, issued), dst, data, erase, start, dest, destEnd);
        StickySplit(statusOf, old(issued), n, issued);
        AccessesRound(layout, start, dest, destEnd, erase);
      }
      CopyFinished(layout, before, hw, status, dst, data, erase, dest, destEnd);
      PagesFinished(layout, statusOf, old(issued), before.mem, hw.mem, issued, dst, data, erase, dest, destEnd);
      AccessesDone(layout, dest, destEnd, erase);
      errorStatus := status;
    }

    /** `flashc_memset32`. The two halves of the double-word do not overlap, so `|` is a sum. */
    method MemSet32(dst: nat, value: nat, nbytes: nat, erase: bool)
      requires Valid() && dst + nbytes < 0x1_0000_0000 && value < Pow256(4)
      modifies this
      ensures Valid() && old(issued) <= issued
      ensures CopyEffect(layout, old(hw), hw, errorStatus, dst, Repeat(BigEndian(value, 4), nbytes), erase)
      ensures PagesEffect(layout, statusOf, old(issued), old(hw.mem), hw.mem, dst, Repeat(BigEndian(value, 4), nbytes), erase)
      ensures errorStatus == Sticky(statusOf, old(issued), issued)
      ensures log == old(log) + CopyAccesses(layout, ClipStart(layout, dst), ClipEnd(layout, dst + nbytes), erase)
    {
      hide CopyEffect, PagesEffect, CopyAccesses, Sticky, Repeat, BigEndian, Pow256, ClipStart, ClipEnd;
      Doubled(value, 4, nbytes);
      MemSet64(dst, value + value * Pow256(4), nbytes, erase);
    }

    /** `flashc_memset16`. */
    method MemSet16(dst: nat, value: nat, nbytes: nat, erase: bool)
      requires Valid() && dst + nbytes < 0x1_0000_0000 && value < Pow256(2)
      modifies this
      ensures Valid() && old(issued) <= issued
      ensures CopyEffect(layout, old(hw), hw, errorStatus, dst, Repeat(BigEndian(value, 2), nbytes), erase)
      ensures PagesEffect(layout, statusOf, old(issued), old(hw.mem), hw.mem, dst, Repeat(BigEndian(value, 2), nbytes), erase)
      ensures errorStatus == Sticky(statusOf, old(issued), issued)
      ensures log == old(log) + CopyAccesses(layout, ClipStart(layout, dst), ClipEnd(layout, dst + nbytes), erase)
    {
      hide CopyEffect, PagesEffect, CopyAccesses, Sticky, Repeat, BigEndian, Pow256, ClipStart, ClipEnd;
      Doubled(value, 2, nbytes);
      MemSet32(dst, value + value * Pow256(2), nbytes, erase);
    }

    /** `flashc_memset8`. */
    method MemSet8(dst: nat, value: nat, nbytes: nat, erase: bool)
      requires Valid() && dst + nbytes < 0x1_0000_0000 && value < Pow256(1)
      modifies this
      ensures Valid() && old(issued) <= issued
      ensures CopyEffect(layout, old(hw), hw, errorStatus, dst, Repeat(BigEndian(value, 1), nbytes), erase)
      ensures PagesEffect(layout, statusOf, old(issued), old(hw.mem), hw.mem, dst, Repeat(BigEndian(value, 1), nbytes), erase)
      ensures errorStatus == Sticky(statusOf, old(issued), issued)
      ensures log == old(log) + CopyAccesses(layout, ClipStart(layout, dst), ClipEnd(layout, dst + nbytes), erase)
    {
      hide CopyEffect, PagesEffect, CopyAccesses, Sticky, Repeat, BigEndian, Pow256, ClipStart, ClipEnd;
      Doubled(value, 1, nbytes);
      MemSet16(dst, value + value * Pow256(1), nbytes, erase);
    }
  }

  /** A value written twice is the pattern of the value. */
  lemma Doubled(value: nat, n: nat, nbytes: nat)
    requires 0 < n && value < Pow256(n)
    ensures value + value * Pow256(n) < Pow256(2 * n)
    ensures Repeat(BigEndian(value + value * Pow256(n), 2 * n), nbytes) == Repeat(BigEndian(value, n), nbytes)
  {
    Pow256Sum(n, n);
    BigEndianJoin(value, n, value, n);
    RepeatDouble(BigEndian(value, n), nbytes);
    BelowSquare(value, Pow256(n));
  }

  lemma BelowSquare(v: nat, p: nat)
    requires v < p
    ensures v + v * p < p * p
  {
    MulOrder(p, v, p);
  }

  lemma {:induction false} Pow256Sum(m: nat, n: nat)
    ensures Pow256(m + n) == Pow256(m) * Pow256(n)
  {
    if m > 0 {
      Pow256Sum(m - 1, n);
    }
  }

  /** The pattern as it falls on a double-word boundary when it starts at `dst`. */
  method RotatePattern(dst: nat, value: nat) returns (fill: seq<byte>)
    requires value < Pow256(8)
    ensures |fill| == 8
    ensures forall j | 0 <= j < 8 :: fill[j] == BigEndian(value, 8)[Slot(GetAlign(dst, 8), j)]
  {
    hide GetAlign, BackSlot, Rotated;
    BackSlots(GetAlign(dst, 8), 0);
    RotateStarts(value, GetAlign(dst, 8));
    fill := [0, 0, 0, 0, 0, 0, 0, 0];
    var src, i := value, (GetAlign(dst, 8) + 7) % 8;
    ghost var k: nat := 0;
    ghost var pattern := BigEndian(value, 8);
    while src != 0
      invariant k <= 8 && |fill| == 8 && i == BackSlot(GetAlign(dst, 8), k)
      invariant Rotated(pattern, GetAlign(dst, 8), src, k, fill)
    {
      RotateStep(pattern, GetAlign(dst, 8), src, k, fill);
      BackSlots(GetAlign(dst, 8), k);
      fill := fill[i := ByteOf(src)];
      src := src / 256;
      i := (i + 7) % 8;
      k := k + 1;
    }
    RotateEnds(pattern, GetAlign(dst, 8), k, fill);
  }

  /** Where the byte `k` places before the end of the pattern goes. */
  function BackSlot(align: nat, k: nat): (m: nat)
    requires k <= 8
    ensures m < 8
  {
    (align + 15 - k) % 8
  }

  lemma BackSlots(align: nat, k: nat)
    requires k <= 8
    ensures BackSlot(align, 0) == (align + 7) % 8
    ensures k < 8 ==> BackSlot(align, k + 1) == (BackSlot(align, k) + 7) % 8
  {
  }

  /** The `k` last bytes of the pattern are in place and `src` holds the others. */
  ghost predicate Rotated(pattern: seq<byte>, align: nat, src: nat, k: nat, fill: seq<byte>) {
    && align < 8 && k <= 8 && |fill| == |pattern| == 8
    && src < Pow256(8 - k) && pattern[..8 - k] == BigEndian(src, 8 - k)
    && forall j {:trigger fill[j]} | 0 <= j < 8 :: fill[j] == if Slot(align, j) < 8 - k then 0 else pattern[Slot(align, j)]
  }

  lemma RotateStarts(value: nat, align: nat)
    requires value < Pow256(8) && align < 8
    ensures Rotated(BigEndian(value, 8), align, value, 0, [0, 0, 0, 0, 0, 0, 0, 0])
  {
    hide Pow256, BigEndian;
    assert BigEndian(value, 8)[..8] == BigEndian(value, 8);
  }

  /** The rest of the pattern is zero when no value is left. */
  lemma RotateEnds(pattern: seq<byte>, align: nat, k: nat, fill: seq<byte>)
    requires Rotated(pattern, align, 0, k, fill)
    ensures |fill| == 8 && forall j | 0 <= j < 8 :: fill[j] == pattern[Slot(align, j)]
  {
    hide Pow256, BigEndian;
    BigEndianZero(8 - k);
    assert forall m | 0 <= m < 8 - k :: pattern[m] == pattern[..8 - k][m];
  }

  lemma RotateStep(pattern: seq<byte>, align: nat, src: nat, k: nat, fill: seq<byte>)
    requires Rotated(pattern, align, src, k, fill) && src != 0
    ensures k < 8
    ensures Rotated(pattern, align, src / 256, k + 1, fill[BackSlot(align, k) := ByteOf(src)])
  {
    assert Pow256(0) == 1;
    NextByte(pattern, src, k);
    var r := fill[BackSlot(align, k) := ByteOf(src)];
    forall j | 0 <= j < 8
      ensures r[j] == if Slot(align, j) < 7 - k then 0 else pattern[Slot(align, j)]
    {
      SameSlot(align, j, k);
    }
  }

  lemma NextByte(pattern: seq<byte>, src: nat, k: nat)
    requires k < 8 == |pattern| && src < Pow256(8 - k) && pattern[..8 - k] == BigEndian(src, 8 - k)
    ensures src / 256 < Pow256(7 - k) && pattern[..7 - k] == BigEndian(src / 256, 7 - k) && pattern[7 - k] == ByteOf(src)
  {
    assert Pow256(8 - k) == 256 * Pow256(7 - k);
    var next := BigEndian(src / 256, 7 - k);
    assert BigEndian(src, 8 - k) == next + [ByteOf(src)];
    assert pattern[7 - k] == pattern[..8 - k][7 - k];
    assert pattern[..7 - k] == pattern[..8 - k][..7 - k] == next;
  }

  /** Which byte of a pattern that starts at alignment `align` falls on byte `j` of a double-word. */
  function Slot(align: nat, j: nat): (m: nat)
    requires align < 8
    ensures m < 8
  {
    (j + 8 - align) % 8
  }

  lemma SameSlot(align: nat, j: nat, k: nat)
    requires align < 8 && j < 8 && k < 8
    ensures j == (align + 15 - k) % 8 <==> Slot(align, j) == 7 - k
  {
  }

  lemma FillIsPattern(dst: nat, pattern: seq<byte>, nbytes: nat, fill: seq<byte>)
    requires |pattern| == |fill| == 8
    requires forall j | 0 <= j < 8 :: fill[j] == pattern[Slot(GetAlign(dst, 8), j)]
    ensures IsFill(fill, dst, Repeat(pattern, nbytes))
  {
    hide GetAlign;
    var data := Repeat(pattern, nbytes);
    forall a | dst <= a < dst + nbytes
      ensures data[a - dst] == fill[GetAlign(a, 8)]
    {
      PatternSlot(dst, a);
    }
  }

  lemma PatternSlot(dst: nat, a: nat)
    requires dst <= a
    ensures Slot(GetAlign(dst, 8), GetAlign(a, 8)) == (a - dst) % 8
  {
    hide GetAlign;
    GetAlignIsRemainder(dst, 8);
    GetAlignIsRemainder(a, 8);
  }

  /** The first `n` bytes of the double-word are those wanted at `address`. */
  ghost predicate Prepared(want: map<int, byte>, address: nat, dword: seq<byte>, n: nat) {
    n <= |dword| && forall k | 0 <= k < n :: address + k in want && dword[k] == want[address + k]
  }

  /** Sets bytes `first..upTo` of the double-word from the source at `source`, `width` at a time. */
  method FillFromSource(dword: seq<byte>, first: nat, upTo: nat, src: seq<byte>, source: nat, width: nat)
    returns (r: seq<byte>)
    requires |dword| == 8 && first <= upTo <= 8 && (first < upTo ==> source + upTo - first <= |src|)
    requires width == 1 || (width == 2 && first == 0 && upTo == 8)
    ensures |r| == 8
    ensures forall k | 0 <= k < 8 :: r[k] == if first <= k < upTo then src[source + k - first] else dword[k]
  {
    r := dword;
    var i := first;
    while i < upTo
      invariant first <= i <= upTo && |r| == 8 && (width == 2 ==> i % 2 == 0)
      invariant forall k | 0 <= k < 8 :: r[k] == if first <= k < i then src[source + k - first] else dword[k]
    {
      var at := source + i - first;
      r := r[..i] + src[at..at + width] + r[i + width..];
      i := i + width;
    }
  }

  /** The bytes `first..upTo` are to come from the source, byte `a` from `src[a - offset]`. */
  ghost predicate FromSource(want: map<int, byte>, src: seq<byte>, offset: int, first: nat, upTo: int) {
    first < upTo ==>
      && 0 <= first - offset && upTo - offset <= |src|
      && forall a | first <= a < upTo :: a in want && want[a] == src[a - offset]
  }

  lemma SourcePart(want: map<int, byte>, src: seq<byte>, offset: int, first: nat, upTo: int, offset': int, first': nat, upTo': int)
    requires FromSource(want, src, offset, first, upTo)
    requires first' < upTo' ==> offset' == offset && first <= first' && upTo' <= upTo
    ensures FromSource(want, src, offset', first', upTo')
  {
  }

  lemma SourcePrepared(want: map<int, byte>, src: seq<byte>, dest: nat, source: nat)
    requires FromSource(want, src, dest - source, dest, dest + 8)
    ensures source + 8 <= |src| && Prepared(want, dest, src[source..source + 8], 8)
  {
  }

  /** The page of `start` is to hold the source between `start` and `destEnd`, and its present
      contents elsewhere. A double-word that starts within the copy is read from the source whole,
      so up to 7 bytes past the source end are read. */
  ghost predicate Copies(mem: map<int, byte>, p: PageLoad, page: nat, start: nat, destEnd: nat, src: seq<byte>, first: nat) {
    && start < destEnd && first + (destEnd - start) + 7 <= |src|
    && Keeps(mem, p.want, p.base, start)
    && FromSource(p.want, src, start - first, start, Min(destEnd, p.base + page))
    && (destEnd < p.base + page ==> Keeps(mem, p.want, destEnd, p.base + page))
  }

  /** Where the first double-word of a copy lies. */
  lemma HeadBounds(l: Layout, start: nat, destEnd: nat)
    requires l.Valid() && start < destEnd
    ensures var base := AlignDown(start, l.page);
            && base <= AlignDown(start, 8) <= AlignDown(destEnd, 8) && AlignDown(start, 8) + 8 <= base + l.page
            && Aligned(AlignDown(destEnd, 8), 8)
            && (Aligned(start, 8) ==> AlignDown(start, 8) == start)
            && (AlignDown(start, 8) == AlignDown(destEnd, 8) && !Aligned(start, 8)
                ==> destEnd < base + l.page && !Aligned(destEnd, 8))
  {
    var base := AlignDown(start, l.page);
    PageBounds(l, start);
    AlignDownAligned(start, 8);
    AlignDownAligned(destEnd, 8);
    AlignedGap(AlignDown(start, 8), base + l.page, 8);
    AlignedBelow(AlignDown(start, 8), destEnd, 8);
  }

  /** Where the end of a copy lies relative to the page of its start. */
  lemma TailBounds(l: Layout, start: nat, destEnd: nat)
    requires l.Valid() && start < destEnd
    ensures var base := AlignDown(start, l.page);
            && Aligned(AlignDown(destEnd, 8), 8) && Aligned(base + l.page, 8)
            && base <= AlignDown(destEnd, 8)
            && (AlignDown(destEnd, l.page) <= base <==> destEnd < base + l.page)
            && (base + l.page <= destEnd ==> base + l.page <= AlignDown(destEnd, 8))
  {
    var base := AlignDown(start, l.page);
    PageBounds(l, start);
    AlignDownAligned(destEnd, 8);
    AlignedBelow(base, destEnd, 8);
    if base + l.page <= destEnd {
      AlignedStep(base, l.page);
      AlignedBelow(base + l.page, destEnd, l.page);
      AlignedBelow(base + l.page, destEnd, 8);
    } else {
      BlockBase(base, destEnd, l.page);
    }
  }

  /** An erase with status `erased` and a write with status `written` change no other page, and
      program the page if neither fails. */
  lemma PageProgrammed(m0: map<int, byte>, m1: map<int, byte>, m2: map<int, byte>, base: int, buffer: seq<byte>, erase: bool,
                       erased: Status, written: Status)
    requires m1 == if erase && erased.Clean() then EraseRange(m0, base, |buffer|) else m0
    requires m2 == if written.Clean() then WriteRange(m1, base, buffer) else m1
    ensures SameOutside(m0, m2, base, |buffer|)
    ensures (erase ==> erased.Clean()) && written.Clean() ==> m2 == PageWrite(m0, base, buffer, erase)
  {
  }

  /** A round of the copy loop starts at `start`: the first address of the copy, or of a page.
      Beyond `destEnd` the copy reaches no address that exists. */
  ghost predicate InCopy(l: Layout, dst: nat, nbytes: nat, start: nat, destEnd: nat) {
    && l.Valid() && l.Owned(start) && start < destEnd <= dst + nbytes && destEnd <= l.user + l.page
    && dst <= start && (start == dst || Aligned(start, l.page))
    && forall a | destEnd <= a && l.Owned(a) :: dst + nbytes <= a
  }

  /** The effect of programming the page at `base`: its part of the copy, if no command failed,
      and in any case no other page. */
  ghost predicate PageEffect(l: Layout, before: Hardware, after: Hardware, status: Status, base: nat,
                             dst: nat, data: seq<byte>, erase: bool) {
    && (status.Clean() ==> after.mem == ProgrammedPage(before.mem, base, l.page, dst, data, erase))
    && SameOutside(before.mem, after.mem, base, l.page)
    && after.fuses == before.fuses
  }

  /** The page of `start` is to hold the data between `start` and `destEnd`, and its present
      contents elsewhere. */
  ghost predicate CopiesData(mem: map<int, byte>, p: PageLoad, page: nat, start: nat, destEnd: nat, dst: nat, data: seq<byte>) {
    && Keeps(mem, p.want, p.base, start)
    && dst <= start < destEnd <= dst + |data|
    && FromSource(p.want, data, dst, start, Min(destEnd, p.base + page))
    && (destEnd < p.base + page ==> Keeps(mem, p.want, destEnd, p.base + page))
  }

  /** What loading a page needs holds at the start of a round. */
  lemma PageStarts(l: Layout, mem: map<int, byte>, dst: nat, data: seq<byte>, start: nat, destEnd: nat, p: PageLoad)
    requires InCopy(l, dst, |data|, start, destEnd)
    requires forall a :: a in mem <==> l.Owned(a)
    requires p.base == AlignDown(start, l.page) && p.want == Wanted(mem, dst, data)
    ensures Aligned(p.base, l.page) && Aligned(p.base, 8) && Aligned(p.base + l.page, 8)
    ensures l.Owned(p.base) && AlignDown(p.base, l.page) == p.base && p.base <= l.user
    ensures forall a | p.base <= a < p.base + l.page :: a in p.want && a in mem
    ensures CopiesData(mem, p, l.page, start, destEnd, dst, data)
  {
    PageBounds(l, start);
    PageInOneArea(l, start);
    BlockBase(p.base, p.base, l.page);
    assert start == dst || start == p.base;
    forall a | p.base <= a < p.base + l.page
      ensures l.Owned(a) && a in mem
    {
    }
    assert destEnd < p.base + l.page ==> l.Owned(destEnd);
    CopiesHold(mem, p, l.page, dst, data, start, destEnd);
  }

  lemma CopiesHold(mem: map<int, byte>, p: PageLoad, page: nat, dst: nat, data: seq<byte>, start: nat, destEnd: nat)
    requires dst <= start < destEnd <= dst + |data|
    requires p.base <= start < p.base + page && (start == dst || start == p.base)
    requires p.want == Wanted(mem, dst, data)
    requires forall a | p.base <= a < p.base + page :: a in mem
    requires destEnd < p.base + page ==> destEnd == dst + |data|
    ensures CopiesData(mem, p, page, start, destEnd, dst, data)
  {
  }

  lemma DataFromSource(mem: map<int, byte>, p: PageLoad, page: nat, start: nat, destEnd: nat, dst: nat, nbytes: nat, src: seq<byte>)
    requires nbytes + 7 <= |src| && CopiesData(mem, p, page, start, destEnd, dst, src[..nbytes])
    ensures Copies(mem, p, page, start, destEnd, src, start - dst)
  {
    assert start - (start - dst) == dst;
  }

  /** A page buffer that was cleared and loaded holds what is wanted of the page. */
  lemma BufferComplete(mem: map<int, byte>, buffer: seq<byte>, p: PageLoad, dst: nat, data: seq<byte>, erase: bool, cleared: bool)
    requires p.want == Wanted(mem, dst, data) && p.Loaded(buffer, p.base + |buffer|)
    requires forall a | p.base <= a < p.base + |buffer| :: a in mem
    requires cleared ==> p.buffer == Filled(|buffer|)
    ensures cleared ==>
              PageWrite(mem, p.base, buffer, erase) == ProgrammedPage(mem, p.base, |buffer|, dst, data, erase)
  {
    hide Wanted, PageWrite, ProgrammedPage;
    if cleared {
      forall a | p.base <= a < p.base + |buffer|
        ensures a in mem && a in p.want && buffer[a - p.base] == p.want[a]
      {
        var j := a - p.base;
        assert p.buffer[j] == 0xFF && p.base + j in p.want;
        AndOnes(p.want[p.base + j]);
      }
      PageWritten(mem, p.base, buffer, dst, data, erase);
    }
  }

  /** The state of a copy between two rounds: everything below `dest` is done. */
  ghost predicate CopyProgress(l: Layout, before: Hardware, now: Hardware, status: Status, dst: nat, data: seq<byte>,
                               erase: bool, dest: nat, destEnd: nat) {
    && l.Valid() && before.Valid(l)
    && (dest < destEnd ==> InCopy(l, dst, |data|, dest, destEnd))
    && (forall a | a in before.mem && destEnd <= a :: a < dst || dst + |data| <= a)
    && (status.Clean() ==> now.mem == ProgrammedBelow(before.mem, dst, data, erase, Min(dest, destEnd)))
    && now.mem.Keys == before.mem.Keys
    && (forall a | a in before.mem && !Touched(l, a, dst, |data|) :: now.mem[a] == before.mem[a])
    && now.fuses == before.fuses
  }

  lemma CopyStarts(l: Layout, before: Hardware, dst: nat, data: seq<byte>, erase: bool)
    requires l.Valid() && before.Valid(l)
    ensures CopyProgress(l, before, before, NO_ERROR, dst, data, erase, ClipStart(l, dst), ClipEnd(l, dst + |data|))
    ensures ClipStart(l, dst) < ClipEnd(l, dst + |data|) ==>
              InCopy(l, dst, |data|, ClipStart(l, dst), ClipEnd(l, dst + |data|))
  {
    ClipKeepsOwned(l, dst, dst + |data|);
    var limit := Min(ClipStart(l, dst), ClipEnd(l, dst + |data|));
    assert ProgrammedBelow(before.mem, dst, data, erase, limit) == before.mem;
  }

  lemma CopyRound(l: Layout, before: Hardware, now: Hardware, after: Hardware, status: Status, pageStatus: Status,
                  dst: nat, data: seq<byte>, erase: bool, start: nat, dest: nat, destEnd: nat)
    requires start < destEnd && CopyProgress(l, before, now, status, dst, data, erase, start, destEnd)
    requires PageEffect(l, now, after, pageStatus, AlignDown(start, l.page), dst, data, erase)
    requires dest < destEnd ==> dest == NextPage(l, AlignDown(start, l.page))
    requires destEnd <= dest ==> destEnd <= NextPage(l, AlignDown(start, l.page))
    ensures CopyProgress(l, before, after, status.Or(pageStatus), dst, data, erase, dest, destEnd)
    ensures dest < destEnd ==> InCopy(l, dst, |data|, dest, destEnd)
  {
    hide GetAlign, ProgrammedBelow, ProgrammedPage, Touched;
    var base := AlignDown(start, l.page);
    PageBounds(l, start);
    PageInOneArea(l, start);
    AlignedStep(base, l.page);
    if status.Or(pageStatus).Clean() {
      RoundMemory(l, before.mem, dst, data, erase, start, base, dest, destEnd);
    }
    forall a | a in before.mem && !Touched(l, a, dst, |data|)
      ensures after.mem[a] == before.mem[a]
    {
      if base <= a < base + l.page {
        PageIsTouched(l, dst, |data|, start, destEnd, a);
      }
    }
  }

  lemma RoundMemory(l: Layout, m0: map<int, byte>, dst: nat, data: seq<byte>, erase: bool, start: nat, base: nat,
                    dest: nat, destEnd: nat)
    requires l.Valid() && InCopy(l, dst, |data|, start, destEnd) && base == AlignDown(start, l.page)
    requires dest < destEnd ==> dest == NextPage(l, base)
    requires destEnd <= dest ==> destEnd <= NextPage(l, base)
    requires forall a | a in m0 :: l.Owned(a)
    requires forall a | a in m0 && destEnd <= a :: a < dst || dst + |data| <= a
    ensures ProgrammedPage(ProgrammedBelow(m0, dst, data, erase, start), base, l.page, dst, data, erase)
         == ProgrammedBelow(m0, dst, data, erase, Min(dest, destEnd))
  {
    hide GetAlign, ProgrammedBelow, ProgrammedPage;
    assert start == dst || start == base;
    CopyAdvances(m0, dst, data, erase, start, base, l.page);
    if Min(dest, destEnd) <= base + l.page {
      CopyDone(m0, dst, data, erase, Min(dest, destEnd), base + l.page);
    } else {
      CopyDone(m0, dst, data, erase, base + l.page, Min(dest, destEnd));
    }
  }

  lemma PageIsTouched(l: Layout, dst: nat, n: nat, start: nat, destEnd: nat, a: nat)
    requires InCopy(l, dst, n, start, destEnd)
    requires AlignDown(start, l.page) <= a < AlignDown(start, l.page) + l.page
    ensures Touched(l, a, dst, n)
  {
    AlignDownAligned(start, l.page);
    BlockBase(AlignDown(start, l.page), a, l.page);
  }

  lemma CopyFinished(l: Layout, before: Hardware, after: Hardware, status: Status, dst: nat, data: seq<byte>, erase: bool,
                     dest: nat, destEnd: nat)
    requires destEnd <= dest && CopyProgress(l, before, after, status, dst, data, erase, dest, destEnd)
    ensures CopyEffect(l, before, after, status, dst, data, erase)
  {
    assert ProgrammedBelow(before.mem, dst, data, erase, destEnd) == Programmed(before.mem, dst, data, erase);
  }

  /** The pages below that of `dest` are done as far as their commands succeeded, the others are as
      they were, and their commands are still to come. */
  ghost predicate PagesProgress(l: Layout, statusOf: nat -> Status, n0: nat, before: map<int, byte>, now: map<int, byte>, n: nat,
                                dst: nat, data: seq<byte>, erase: bool, dest: nat, destEnd: nat)
    requires l.Valid()
  {
    && now.Keys == before.Keys
    && (dest < destEnd ==> NumbersFrom(l, ClipStart(l, dst), n0, dest, n, erase) && Unreached(before, now, AlignDown(dest, l.page)))
    && forall a: nat | a in before && (dest < destEnd ==> a < AlignDown(dest, l.page)) && Touched(l, a, dst, |data|) ::
         PageClean(l, statusOf, ClipStart(l, dst), n0, erase, a) ==> now[a] == Programmed(before, dst, data, erase)[a]
  }

  /** From the page of `dest` on the commands are numbered from `n`. */
  ghost predicate NumbersFrom(l: Layout, first: nat, n0: nat, dest: nat, n: nat, erase: bool)
    requires l.Valid()
  {
    forall base | AlignDown(dest, l.page) <= base :: FirstCommand(l, first, base, erase, n0) == FirstCommand(l, dest, base, erase, n)
  }

  ghost predicate Unreached(before: map<int, byte>, now: map<int, byte>, base: nat) {
    forall a | a in before && base <= a :: a in now && now[a] == before[a]
  }

  lemma PagesStart(l: Layout, statusOf: nat -> Status, n0: nat, before: Hardware, dst: nat, data: seq<byte>, erase: bool)
    requires l.Valid() && before.Valid(l)
    ensures PagesProgress(l, statusOf, n0, before.mem, before.mem, n0, dst, data, erase, ClipStart(l, dst), ClipEnd(l, dst + |data|))
  {
    hide FirstCommand, PageClean, GetAlign, Programmed;
    ClipKeepsOwned(l, dst, dst + |data|);
    var first, destEnd := ClipStart(l, dst), ClipEnd(l, dst + |data|);
    AlignDownAligned(first, l.page);
    forall a: nat | a in before.mem && Touched(l, a, dst, |data|)
      ensures first < destEnd && AlignDown(first, l.page) <= a
    {
      var x := TouchingByte(l, a, dst, |data|);
      AlignedBelow(AlignDown(first, l.page), x, l.page);
    }
  }

  lemma PagesRound(l: Layout, statusOf: nat -> Status, n0: nat, before: Hardware, now: Hardware, after: Hardware, n: nat,
                   dst: nat, data: seq<byte>, erase: bool, start: nat, dest: nat, destEnd: nat)
    requires before.Valid(l) && InCopy(l, dst, |data|, start, destEnd)
    requires PagesProgress(l, statusOf, n0, before.mem, now.mem, n, dst, data, erase, start, destEnd)
    requires PageEffect(l, now, after, Sticky(statusOf, n, n + Commands(erase)), AlignDown(start, l.page), dst, data, erase)
    requires dest < destEnd ==> dest == NextPage(l, AlignDown(start, l.page))
    requires destEnd <= dest ==> destEnd <= NextPage(l, AlignDown(start, l.page))
    ensures PagesProgress(l, statusOf, n0, before.mem, after.mem, n + Commands(erase), dst, data, erase, dest, destEnd)
  {
    hide GetAlign, AlignDown, FirstCommand, PageClean, Touched, ProgrammedPage, Sticky, Commands, NextPage;
    var base := AlignDown(start, l.page);
    if dest < destEnd {
      NumbersGoOn(l, ClipStart(l, dst), n0, start, n, erase);
      NextPageBeyond(l, base, start);
    }
    forall a: nat | a in before.mem && (dest < destEnd ==> a < AlignDown(dest, l.page)) && Touched(l, a, dst, |data|)
                    && PageClean(l, statusOf, ClipStart(l, dst), n0, erase, a)
      ensures after.mem[a] == Programmed(before.mem, dst, data, erase)[a]
    {
      ReachedPages(l, dst, |data|, start, dest, destEnd, a);
      if base <= a {
        PageDone(l, statusOf, n0, before.mem, now, after, n, dst, data, erase, start, a);
      }
    }
  }

  /** The page of `start` holds its part of the data if its own commands succeeded. */
  lemma PageDone(l: Layout, statusOf: nat -> Status, n0: nat, before: map<int, byte>, now: Hardware, after: Hardware, n: nat,
                 dst: nat, data: seq<byte>, erase: bool, start: nat, a: nat)
    requires l.Valid() && AlignDown(start, l.page) <= a < AlignDown(start, l.page) + l.page && a in before
    requires NumbersFrom(l, ClipStart(l, dst), n0, start, n, erase) && Unreached(before, now.mem, AlignDown(start, l.page))
    requires PageEffect(l, now, after, Sticky(statusOf, n, n + Commands(erase)), AlignDown(start, l.page), dst, data, erase)
    requires PageClean(l, statusOf, ClipStart(l, dst), n0, erase, a)
    ensures a in after.mem && after.mem[a] == Programmed(before, dst, data, erase)[a]
  {
    hide GetAlign, AlignDown, Sticky;
    var base := AlignDown(start, l.page);
    AlignDownAligned(start, l.page);
    BlockBase(base, a, l.page);
    assert FirstCommand(l, start, base, erase, n) == n;
  }

  lemma NumbersGoOn(l: Layout, first: nat, n0: nat, start: nat, n: nat, erase: bool)
    requires l.Valid() && NumbersFrom(l, first, n0, start, n, erase)
    ensures NumbersFrom(l, first, n0, NextPage(l, AlignDown(start, l.page)), n + Commands(erase), erase)
  {
    hide GetAlign, Commands;
    var base := AlignDown(start, l.page);
    var next := NextPage(l, base);
    assert base < AlignDown(next, l.page);
  }

  lemma NextPageBeyond(l: Layout, base: nat, start: nat)
    requires l.Valid() && base == AlignDown(start, l.page)
    ensures base + l.page <= AlignDown(NextPage(l, base), l.page)
  {
    hide GetAlign;
    AlignDownAligned(start, l.page);
    AlignedStep(base, l.page);
    AlignedBelow(base + l.page, NextPage(l, base), l.page);
  }

  /** After the round that starts at `start` no page beyond its page is reached. */
  lemma ReachedPages(l: Layout, dst: nat, n: nat, start: nat, dest: nat, destEnd: nat, a: nat)
    requires InCopy(l, dst, n, start, destEnd) && l.Owned(a) && Touched(l, a, dst, n)
    requires dest < destEnd ==> dest == NextPage(l, AlignDown(start, l.page)) && a < AlignDown(dest, l.page)
    requires destEnd <= dest ==> destEnd <= NextPage(l, AlignDown(start, l.page))
    ensures a < AlignDown(start, l.page) + l.page
  {
    hide GetAlign, Touched;
    var base := AlignDown(start, l.page);
    var x := TouchingByte(l, a, dst, n);
    PageInOneArea(l, a);
    AlignDownAligned(start, l.page);
    AlignedStep(base, l.page);
    if base + l.page <= a {
      AlignedBelow(base + l.page, a, l.page);
    }
  }

  /** A byte of the copy in the page that holds `a`. */
  lemma TouchingByte(l: Layout, a: nat, dst: nat, n: nat) returns (x: nat)
    requires l.Valid() && l.Owned(a) && Touched(l, a, dst, n)
    ensures l.Owned(x) && dst <= x < dst + n && AlignDown(a, l.page) <= x < AlignDown(a, l.page) + l.page
    ensures AlignDown(x, l.page) == AlignDown(a, l.page)
  {
    x := Max(dst, AlignDown(a, l.page));
    AlignDownAligned(a, l.page);
    PageBounds(l, a);
    PageInOneArea(l, a);
    BlockBase(AlignDown(a, l.page), x, l.page);
  }

  lemma PagesFinished(l: Layout, statusOf: nat -> Status, n0: nat, before: map<int, byte>, after: map<int, byte>, n: nat,
                      dst: nat, data: seq<byte>, erase: bool, dest: nat, destEnd: nat)
    requires l.Valid() && destEnd <= dest
    requires PagesProgress(l, statusOf, n0, before, after, n, dst, data, erase, dest, destEnd)
    ensures PagesEffect(l, statusOf, n0, before, after, dst, data, erase)
  {
    hide PageClean, Touched, Programmed;
  }

  lemma AccessesRound(l: Layout, start: nat, dest: nat, destEnd: nat, erase: bool)
    requires l.Valid() && start < destEnd
    requires dest < destEnd ==> dest == NextPage(l, AlignDown(start, l.page))
    requires destEnd <= dest ==> destEnd <= NextPage(l, AlignDown(start, l.page))
    ensures CopyAccesses(l, start, destEnd, erase)
         == PageAccesses(AlignDown(start, l.page), l.page, erase) + CopyAccesses(l, dest, destEnd, erase)
  {
  }

  lemma AccessesDone(l: Layout, dest: nat, destEnd: nat, erase: bool)
    requires l.Valid() && destEnd <= dest
    ensures CopyAccesses(l, dest, destEnd, erase) == []
  {
  }

  /** The bytes `first..upTo` are to come from the repeated double-word `fill`. */
  ghost predicate FromFill(want: map<int, byte>, fill: seq<byte>, first: nat, upTo: nat)
    requires |fill| == 8
  {
    forall a | first <= a < upTo :: a in want && want[a] == fill[GetAlign(a, 8)]
  }

  /** Within an aligned double-word the repeated double-word starts at its first byte. */
  lemma FillPrepared(want: map<int, byte>, address: nat, fill: seq<byte>, n: nat)
    requires Aligned(address, 8) && |fill| == 8 && n <= 8 && FromFill(want, fill, address, address + n)
    ensures Prepared(want, address, fill, n)
  {
    forall k | 0 <= k < n
      ensures address + k in want && fill[k] == want[address + k]
    {
      BlockBase(address, address + k, 8);
    }
  }

  lemma FillRange(want: map<int, byte>, fill: seq<byte>, first: nat, upTo: nat, first': nat, upTo': nat)
    requires |fill| == 8 && FromFill(want, fill, first, upTo)
    requires first' < upTo' ==> first <= first' && upTo' <= upTo
    ensures FromFill(want, fill, first', upTo')
  {
  }

  lemma FillHere(want: map<int, byte>, address: nat, fill: seq<byte>, upTo: nat, first: nat)
    requires Aligned(address, 8) && |fill| == 8 && first <= address <= upTo && FromFill(want, fill, first, upTo)
    ensures Prepared(want, address, fill, Min(8, upTo - address))
  {
    FillPrepared(want, address, fill, Min(8, upTo - address));
  }

  /** The first double-word of a set: present contents below `start`, the pattern from it on. */
  lemma {:induction false} FirstFillPrepared(mem: map<int, byte>, want: map<int, byte>, start: nat, upTo: nat, fill: seq<byte>,
                                             dword: seq<byte>, n: nat)
    requires |fill| == |dword| == 8 && start <= upTo && n <= 8 && AlignDown(start, 8) + n <= upTo
    requires Keeps(mem, want, AlignDown(start, 8), start) && FromFill(want, fill, start, upTo)
    requires forall k {:trigger dword[k]} | 0 <= k < 8 ::
               if k < GetAlign(start, 8) then AlignDown(start, 8) + k in mem && dword[k] == mem[AlignDown(start, 8) + k]
               else dword[k] == fill[k]
    ensures Prepared(want, AlignDown(start, 8), dword, n)
  {
    hide GetAlign;
    if n > 0 {
      FirstFillPrepared(mem, want, start, upTo, fill, dword, n - 1);
      FirstFillByte(mem, want, start, upTo, fill, dword[n - 1], n - 1);
    }
  }

  lemma FirstFillByte(mem: map<int, byte>, want: map<int, byte>, start: nat, upTo: nat, fill: seq<byte>, b: byte, k: nat)
    requires |fill| == 8 && start <= upTo && k < 8 && AlignDown(start, 8) + k < upTo
    requires Keeps(mem, want, AlignDown(start, 8), start) && FromFill(want, fill, start, upTo)
    requires if k < GetAlign(start, 8) then AlignDown(start, 8) + k in mem && b == mem[AlignDown(start, 8) + k] else b == fill[k]
    ensures AlignDown(start, 8) + k in want && b == want[AlignDown(start, 8) + k]
  {
    hide GetAlign;
    AlignDownAligned(start, 8);
    BlockBase(AlignDown(start, 8), AlignDown(start, 8) + k, 8);
  }

  /** What loading a page of a set needs: as for a copy, with the repeated double-word as data. */
  ghost predicate Sets(mem: map<int, byte>, p: PageLoad, page: nat, start: nat, destEnd: nat, fill: seq<byte>)
    requires |fill| == 8
  {
    && start < destEnd
    && Keeps(mem, p.want, p.base, start)
    && FromFill(p.want, fill, start, Min(destEnd, p.base + page))
    && (destEnd < p.base + page ==> Keeps(mem, p.want, destEnd, p.base + page))
  }

  /** The data of a set is the double-word `fill` repeated at every double-word boundary. */
  ghost predicate IsFill(fill: seq<byte>, dst: nat, data: seq<byte>) {
    |fill| == 8 && forall a | dst <= a < dst + |data| :: data[a - dst] == fill[GetAlign(a, 8)]
  }

  lemma DataFromFill(mem: map<int, byte>, p: PageLoad, page: nat, start: nat, destEnd: nat, dst: nat, data: seq<byte>, fill: seq<byte>)
    requires IsFill(fill, dst, data) && CopiesData(mem, p, page, start, destEnd, dst, data)
    ensures Sets(mem, p, page, start, destEnd, fill)
  {
    forall a | start <= a < Min(destEnd, p.base + page)
      ensures a in p.want && p.want[a] == fill[GetAlign(a, 8)]
    {
      assert p.want[a] == data[a - dst];
    }
  }

  lemma LoadsExtend(first: nat, upTo: nat)
    requires first <= upTo && Aligned(first, 8) && Aligned(upTo, 8)
    ensures Loads(first, upTo + 8) == Loads(first, upTo) + [Loaded(upTo)]
  {
  }

  /** Reads return the memory contents, not the page buffer. */
  function DoubleWordAt(mem: map<int, byte>, address: nat): (data: seq<byte>)
    requires forall a | address <= a < address + 8 :: a in mem
    ensures |data| == 8 && forall i | 0 <= i < 8 :: data[i] == mem[address + i]
  {
    seq(8, i requires 0 <= i < 8 && address + i in mem => mem[address + i])
  }

  /** Past the start of a page the next page-aligned address is its end. */
  lemma PageEnd(page: nat, base: nat, tmp: nat)
    requires 0 < page && Aligned(base, page) && base < tmp <= base + page
    ensures Aligned(tmp, page) <==> tmp == base + page
  {
    AlignedStep(base, page);
    if Aligned(tmp, page) {
      AlignedGap(base, tmp, page);
    }
  }
}
