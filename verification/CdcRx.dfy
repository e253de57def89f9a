/** The receive side of the CDC class: the USB controller fills one of two buffers while the
    application reads the other. `Driver` is the driver's state as a value, `CdcRx` the driver
    itself, and `State` the whole system of driver, application thread, controller and host. */
module CdcReceive {
  import opened Basics

  const RX_BUFFERS: nat := 320

  datatype Driver = Driver(bufs: seq<seq<bv8>>, nb: seq<nat>, sel: nat, pos: nat, ongoing: bool) {
    predicate Shape() {
      && |bufs| == 2 && |nb| == 2 && sel < 2
      && |bufs[0]| == RX_BUFFERS && |bufs[1]| == RX_BUFFERS
      && nb[0] <= RX_BUFFERS && nb[1] <= RX_BUFFERS
    }

    predicate IsReady()
      requires Shape()
    {
      pos < nb[sel]
    }

    /** The bytes of the selected buffer that were not read yet. */
    function Unread(): seq<bv8>
      requires Shape()
    {
      if pos < nb[sel] then bufs[sel][pos..nb[sel]] else []
    }

    /** The critical section of `udi_cdc_rx_start` hands a buffer over. */
    predicate Starts()
      requires Shape()
    {
      !ongoing && !IsReady()
    }

    function AfterStart(): (d: Driver)
      requires Shape()
      ensures d.Shape()
    {
      if Starts() then this.(pos := 0, sel := 1 - sel, ongoing := true) else this
    }

    /** The other buffer holds `n` received bytes now. */
    function Received(n: nat): (d: Driver)
      requires Shape() && n <= RX_BUFFERS
      ensures d.Shape()
    {
      this.(nb := nb[1 - sel := n], ongoing := false)
    }

    /** The controller has stored a byte. */
    function Filled(target: nat, at: nat, b: bv8): (d: Driver)
      requires Shape() && target < 2 && at < RX_BUFFERS
      ensures d.Shape()
    {
      this.(bufs := bufs[target := bufs[target][at := b]])
    }
  }

  /** The buffer that a transfer was asked for. */
  datatype Handover = NoHandover | Handover(buffer: nat)

  function HandoverOf(d: Driver): Handover
    requires d.Shape()
  {
    if d.Starts() then Handover(d.sel) else NoHandover
  }

  class CdcRx {
    const buf: array2<bv8>
    const nb: array<nat>
    var sel: nat
    var pos: nat
    var ongoing: bool

    ghost predicate Valid()
      reads this, nb
    {
      && buf.Length0 == 2 && buf.Length1 == RX_BUFFERS && nb.Length == 2 && sel < 2
      && nb[0] <= RX_BUFFERS && nb[1] <= RX_BUFFERS
    }

    ghost function View(): (d: Driver)
      requires Valid()
      reads this, buf, nb
      ensures d.Shape()
    {
      Driver([Row(buf, 0), Row(buf, 1)], nb[..], sel, pos, ongoing)
    }

    constructor ()
      ensures Valid() && fresh(buf) && fresh(nb) && nb[..] == [0, 0] && buf.Length1 == 320
    {
      buf := new bv8[2, RX_BUFFERS];
      nb := new nat[2](_ => 0);
      sel, pos, ongoing := 0, 0, false;
    }

    /** The receive half of `udi_cdc_data_enable`; the second count is not cleared. */
    method Enable() returns (handover: Handover)
      requires Valid()
      modifies this, nb
      ensures Valid() && View() == Enabled(old(View()).bufs, old(nb[1])).AfterStart() && handover == Handover(0)
    {
      ongoing := false;
      sel := 0;
      nb[0] := 0;
      pos := 0;
      assert View() == Enabled(old(View()).bufs, old(nb[1]));
      handover := RxStart();
    }

    /** `udi_cdc_rx_start`. */
    method RxStart() returns (handover: Handover)
      requires Valid()
      modifies this
      ensures Valid() && View() == old(View()).AfterStart() && handover == HandoverOf(old(View()))
    {
      var selTrans := sel;
      if ongoing || pos < nb[selTrans] {
        return NoHandover;
      }
      pos := 0;
      sel := if selTrans == 0 then 1 else 0;
      ongoing := true;
      handover := Handover(selTrans);
    }

    /** `udi_cdc_data_recevied`. */
    method DataReceived(ok: bool, n: nat) returns (handover: Handover)
      requires Valid() && n <= RX_BUFFERS
      modifies this, nb
      ensures Valid()
      ensures if ok then View() == old(View()).Received(n).AfterStart() && handover == HandoverOf(old(View()).Received(n))
              else View() == old(View()) && handover == NoHandover
    {
      if !ok {
        return NoHandover;
      }
      nb[if sel == 0 then 1 else 0] := n;
      ongoing := false;
      assert View() == old(View()).Received(n);
      handover := RxStart();
    }

    /** What `udi_cdc_getc` does with an available byte. */
    method TakeByte() returns (data: bv8)
      requires Valid() && pos < nb[sel]
      modifies `pos
      ensures Valid() && View() == old(View()).(pos := old(pos) + 1) && [data] + View().Unread() == old(View()).Unread()
    {
      data := buf[sel, pos];
      pos := pos + 1;
    }
  }

  function Enabled(bufs: seq<seq<bv8>>, second: nat): Driver {
    Driver(bufs, [0, second], 0, 0, false)
  }

  // ---- The whole system --------------------------------------------------------------

  /** Where the application thread stands in `udi_cdc_getc`. The increment of the read position is a
      load and a store; `udd_ep_run` is called outside the critical section. */
  datatype Phase =
    | Idle | Check | RunningTest | ReadByte | LoadPos | StorePos(loaded: nat) | StartTransfer | RunTransfer(buffer: nat) | Next

  /** A finished call of `udi_cdc_getc` and the bytes it took. */
  datatype Call = Returned(nineBits: bool, value: nat, bytes: seq<bv8>) | NotRunning(bytes: seq<bv8>)

  /** `active`, `target` and `got` are the transfer the USB controller works on: it has stored `got` bytes
      in buffer `target`. `received` is what the host has sent, `taken` what the application has read,
      `current` the bytes the running call has read; `nine` says that another byte follows. */
  datatype State = State(d: Driver, running: bool, active: bool, target: nat, got: nat, received: seq<bv8>,
                         phase: Phase, nineBits: bool, nine: bool, rxData: nat, current: seq<bv8>, taken: seq<bv8>, calls: seq<Call>)

  datatype Event =
    | Getc(nineBits: bool)
    | AppStep(granted: bool)
    | HostByte(b: bv8)
    | TransferDone(granted: bool)
    | TransferAborted
    | Disabled

  /** The controller's answer to a handover. */
  function RunOn(s: State, handover: Handover, granted: bool): (r: State)
    ensures r.d == s.d
  {
    match handover
    case NoHandover => s
    case Handover(b) => s.(active := granted, target := b, got := 0)
  }

  /** `x | b`. */
  function OrByte(x: nat, b: bv8): nat {
    x - x % 256 + ((x % 256) as bv8 | b) as nat
  }

  lemma OrByteAdds(x: nat, b: bv8)
    requires x % 256 == 0
    ensures OrByte(x, b) == x + b as nat
  {
    assert 0 | b == b;
  }

  function Advance(s: State, granted: bool): (r: State)
    requires s.d.Shape()
    ensures r.d.Shape()
  {
    match s.phase
    case Idle => s
    case Check => s.(phase := if s.d.IsReady() then ReadByte else RunningTest)
    case RunningTest =>
      if s.running then s.(phase := Check)
      else s.(phase := Idle, calls := s.calls + [NotRunning(s.current)], current := [])
    case ReadByte =>
      if s.d.pos < RX_BUFFERS then
        var b := s.d.bufs[s.d.sel][s.d.pos];
        s.(phase := LoadPos, rxData := OrByte(s.rxData, b), current := s.current + [b], taken := s.taken + [b])
      else s
    case LoadPos => s.(phase := StorePos(s.d.pos))
    case StorePos(loaded) => s.(phase := StartTransfer, d := s.d.(pos := loaded + 1))
    case StartTransfer =>
      s.(d := s.d.AfterStart(),
         phase := match HandoverOf(s.d) case NoHandover => Next case Handover(b) => RunTransfer(b))
    case RunTransfer(b) => RunOn(s, Handover(b), granted).(phase := Next)
    case Next =>
      if s.nine then s.(nine := false, rxData := s.rxData * 256 % 0x1_0000_0000, phase := Check)
      else s.(phase := Idle, calls := s.calls + [Returned(s.nineBits, s.rxData, s.current)], current := [])
  }

  function Step(s: State, e: Event): (r: State)
    requires s.d.Shape()
    ensures r.d.Shape()
  {
    match e
    case Getc(nineBits) =>
      if s.phase == Idle then s.(phase := Check, nineBits := nineBits, nine := nineBits, rxData := 0, current := []) else s
    case AppStep(granted) => Advance(s, granted)
    case HostByte(b) =>
      if s.active && s.got < RX_BUFFERS && s.target < 2 then
        s.(d := s.d.Filled(s.target, s.got, b), got := s.got + 1, received := s.received + [b])
      else s
    case TransferDone(granted) =>
      if s.active && s.got <= RX_BUFFERS then
        var d := s.d.Received(s.got);
        RunOn(s.(d := d.AfterStart(), active := false, got := 0), HandoverOf(d), granted)
      else s
    case TransferAborted => s.(active := false)
    case Disabled => s.(running := false)
  }

  /** A session starts with `udi_cdc_data_enable`; `second` is what the count of the second buffer was. */
  function Start(bufs: seq<seq<bv8>>, second: nat, granted: bool): (s: State)
    requires |bufs| == 2 && |bufs[0]| == |bufs[1]| == RX_BUFFERS && second <= RX_BUFFERS
    ensures s.d.Shape()
  {
    var d := Enabled(bufs, second).AfterStart();
    RunOn(State(d, granted, false, 0, 0, [], Idle, false, false, 0, [], [], []), Handover(0), granted)
  }

  // ---- The invariant -----------------------------------------------------------------

  /** The bytes that lie in the buffer that is not selected. */
  function OtherBytes(s: State): seq<bv8>
    requires s.d.Shape() && s.got <= RX_BUFFERS
  {
    s.d.bufs[1 - s.d.sel][..if s.d.ongoing then s.got else s.d.nb[1 - s.d.sel]]
  }

  /** The controller only ever works on the buffer that is not selected, and the application only ever
      reads unread bytes of the selected one. While it does, nothing moves the read position. */
  ghost predicate BuffersApart(s: State) {
    && s.d.Shape() && s.got <= RX_BUFFERS
    && (!s.d.ongoing ==> s.got == 0)
    && (s.active ==> s.d.ongoing && s.target == 1 - s.d.sel)
    && (s.phase.ReadByte? || s.phase.LoadPos? || s.phase.StorePos? ==> s.d.IsReady())
    && (s.phase.StorePos? ==> s.phase.loaded == s.d.pos)
    && (s.phase.RunTransfer? ==> s.d.ongoing && !s.active && s.phase.buffer == 1 - s.d.sel && s.got == 0)
  }

  /** A byte that was taken but not passed by the read position yet. */
  function InHand(s: State): nat {
    if s.phase.LoadPos? || s.phase.StorePos? then 1 else 0
  }

  ghost predicate Fifo(s: State)
    requires BuffersApart(s)
  {
    s.taken + s.d.Unread()[InHand(s)..] + OtherBytes(s) == s.received
  }

  /** The value of a character from its bytes, the first one high. */
  function ValueOf(bytes: seq<bv8>): nat {
    if |bytes| == 1 then bytes[0] as nat else if |bytes| == 2 then 256 * bytes[0] as nat + bytes[1] as nat else 0
  }

  function Bytes(calls: seq<Call>): seq<bv8> {
    if calls == [] then [] else Bytes(calls[..|calls| - 1]) + calls[|calls| - 1].bytes
  }

  /** The running call has read what its place in the loop says, and the finished calls returned
      consecutive bytes of the stream. */
  ghost predicate CallsMatch(s: State) {
    && Bytes(s.calls) + s.current == s.taken
    && (s.phase == Idle ==> s.current == [])
    && (s.nine ==> s.nineBits)
    && (s.phase == Idle || |s.current| == (if s.nineBits && !s.nine then 1 else 0) + (if HasRead(s.phase) then 1 else 0))
    && (s.phase == Idle || s.rxData == if |s.current| == 1 && !HasRead(s.phase) then 256 * s.current[0] as nat else ValueOf(s.current))
    && forall c | c in s.calls && c.Returned? :: c.value == ValueOf(c.bytes) && |c.bytes| == if c.nineBits then 2 else 1
  }

  predicate HasRead(phase: Phase) {
    !(phase.Check? || phase.RunningTest? || phase.ReadByte?)
  }

  ghost predicate Inv(s: State) {
    BuffersApart(s) && Fifo(s) && CallsMatch(s)
  }

  // ---- Steps of the application thread -----------------------------------------------

  /** Taking a byte and then moving the read position past it removes the first unread byte. */
  lemma TakeHolds(s: State, granted: bool)
    requires BuffersApart(s) && Fifo(s) && (s.phase.ReadByte? || s.phase.StorePos?)
    ensures BuffersApart(Advance(s, granted)) && Fifo(Advance(s, granted))
  {
    var s' := Advance(s, granted);
    var unread := s.d.Unread();
    if s.phase.ReadByte? {
      assert unread[0..] == [s.d.bufs[s.d.sel][s.d.pos]] + unread[1..];
      Regroup(s.taken, [s.d.bufs[s.d.sel][s.d.pos]], unread[1..]);
    } else {
      assert s'.d.Unread()[0..] == unread[1..];
    }
  }

  /** Handing the read buffer over turns the other buffer into the selected one. */
  lemma StartKeepsFifo(s: State, s': State)
    requires BuffersApart(s) && Fifo(s) && InHand(s) == InHand(s')
    requires s' == s.(d := s.d.AfterStart(), phase := s'.phase)
    requires BuffersApart(s')
    ensures Fifo(s')
  {
    if s.d.Starts() {
      assert s.d.Unread()[0..] == [];
      assert OtherBytes(s') == [];
      assert s'.d.Unread()[0..] == OtherBytes(s);
      assert s.taken + [] + OtherBytes(s) == s.taken + OtherBytes(s) + [];
    }
  }

  lemma StartHolds(s: State, granted: bool)
    requires BuffersApart(s) && Fifo(s) && s.phase.StartTransfer?
    ensures BuffersApart(Advance(s, granted)) && Fifo(Advance(s, granted))
  {
    hide Fifo;
    StartKeepsFifo(s, Advance(s, granted));
  }

  /** A step that moves no byte keeps the FIFO. */
  lemma KeepsFifo(s: State, s': State)
    requires BuffersApart(s) && Fifo(s) && BuffersApart(s') && InHand(s) == InHand(s')
    requires s'.d == s.d && s'.got == s.got && s'.received == s.received && s'.taken == s.taken
    ensures Fifo(s')
  {
  }

  lemma ThreadKeepsFifo(s: State, granted: bool)
    requires BuffersApart(s) && Fifo(s)
    ensures BuffersApart(Advance(s, granted)) && Fifo(Advance(s, granted))
  {
    hide Fifo, BuffersApart, Driver.Unread, OtherBytes, Advance;
    match s.phase {
      case ReadByte => TakeHolds(s, granted);
      case StorePos(_) => TakeHolds(s, granted);
      case StartTransfer => StartHolds(s, granted);
      case RunTransfer(b) => RunTransferHolds(s, granted);
      case _ => TestHolds(s, granted);
    }
  }

  lemma RunTransferHolds(s: State, granted: bool)
    requires BuffersApart(s) && Fifo(s) && s.phase.RunTransfer?
    ensures BuffersApart(Advance(s, granted)) && Fifo(Advance(s, granted))
  {
    hide Fifo, Driver.Unread, OtherBytes;
    KeepsFifo(s, Advance(s, granted));
  }

  lemma TestHolds(s: State, granted: bool)
    requires BuffersApart(s) && Fifo(s)
    requires !s.phase.ReadByte? && !s.phase.StorePos? && !s.phase.StartTransfer? && !s.phase.RunTransfer?
    ensures BuffersApart(Advance(s, granted)) && Fifo(Advance(s, granted))
  {
    hide Fifo, Driver.Unread, OtherBytes, Driver.AfterStart, RunOn, OrByte;
    KeepsFifo(s, Advance(s, granted));
  }

  lemma ThreadKeepsCalls(s: State, granted: bool)
    requires BuffersApart(s) && CallsMatch(s)
    ensures CallsMatch(Advance(s, granted))
  {
    match s.phase {
      case ReadByte => ReadKeepsCalls(s);
      case RunningTest =>
        hide ValueOf;
        if !s.running {
          CallEnds(s, NotRunning(s.current));
        }
      case Next => NextKeepsCalls(s);
      case _ => TestKeepsCalls(s, granted);
    }
  }

  /** The other steps read nothing and end no call. */
  lemma TestKeepsCalls(s: State, granted: bool)
    requires CallsMatch(s) && s.d.Shape() && !s.phase.ReadByte? && !s.phase.Next? && (s.phase.RunningTest? ==> s.running)
    ensures CallsMatch(Advance(s, granted))
  {
    hide Bytes, ValueOf, OrByte, Driver.AfterStart;
  }

  lemma ReadKeepsCalls(s: State)
    requires BuffersApart(s) && CallsMatch(s) && s.phase.ReadByte?
    ensures CallsMatch(Advance(s, false))
  {
    hide Bytes, OrByte;
    var b := s.d.bufs[s.d.sel][s.d.pos];
    OrByteAdds(s.rxData, b);
    Regroup(Bytes(s.calls), s.current, [b]);
  }

  lemma NextKeepsCalls(s: State)
    requires CallsMatch(s) && s.phase.Next? && s.d.Shape()
    ensures CallsMatch(Advance(s, false))
  {
    if !s.nine {
      CallEnds(s, Returned(s.nineBits, s.rxData, s.current));
    }
  }

  lemma CallEnds(s: State, c: Call)
    requires CallsMatch(s) && c.bytes == s.current
    requires c.Returned? ==> c.value == ValueOf(c.bytes) && |c.bytes| == if c.nineBits then 2 else 1
    ensures CallsMatch(s.(phase := Idle, calls := s.calls + [c], current := []))
  {
    var calls := s.calls + [c];
    assert calls[..|calls| - 1] == s.calls;
  }

  lemma ThreadHolds(s: State, granted: bool)
    requires Inv(s)
    ensures Inv(Advance(s, granted))
  {
    hide Fifo, CallsMatch;
    ThreadKeepsFifo(s, granted);
    ThreadKeepsCalls(s, granted);
  }

  // ---- Steps of the host and the controller ------------------------------------------

  /** A byte from the host lands behind those already in the buffer that is not selected. */
  lemma HostByteHolds(s: State, b: bv8)
    requires Inv(s)
    ensures Inv(Step(s, HostByte(b)))
  {
    if s.active && s.got < RX_BUFFERS {
      var s' := Step(s, HostByte(b));
      hide CallsMatch;
      KeepsCalls(s, s');
      assert OtherBytes(s') == OtherBytes(s) + [b];
      assert s'.d.Unread() == s.d.Unread();
      Regroup(s.taken + s.d.Unread()[InHand(s)..], OtherBytes(s), [b]);
    }
  }

  lemma DoneHolds(s: State, granted: bool)
    requires Inv(s)
    ensures Inv(Step(s, TransferDone(granted)))
  {
    if s.active {
      hide Fifo, CallsMatch, BuffersApart, Driver.AfterStart, Driver.Received, Driver.Unread;
      var t := s.(d := s.d.Received(s.got), active := false, got := 0);
      DoneApart(s, granted);
      ReceivedKeepsFifo(s, t);
      var u := t.(d := t.d.AfterStart());
      StartKeepsFifo(t, u);
      KeepsFifo(u, Step(s, TransferDone(granted)));
      KeepsCalls(s, Step(s, TransferDone(granted)));
    }
  }

  lemma DoneApart(s: State, granted: bool)
    requires BuffersApart(s) && s.active
    ensures var u := s.(d := s.d.Received(s.got).AfterStart(), active := false, got := 0);
            && BuffersApart(u) && BuffersApart(Step(s, TransferDone(granted)))
            && Step(s, TransferDone(granted)) == RunOn(u, HandoverOf(s.d.Received(s.got)), granted)
  {
  }

  lemma KeepsCalls(s: State, s': State)
    requires CallsMatch(s)
    requires s'.phase == s.phase && s'.nineBits == s.nineBits && s'.nine == s.nine && s'.rxData == s.rxData
    requires s'.current == s.current && s'.taken == s.taken && s'.calls == s.calls
    ensures CallsMatch(s')
  {
    hide Bytes, ValueOf, HasRead;
  }

  lemma ReceivedKeepsFifo(s: State, t: State)
    requires BuffersApart(s) && Fifo(s) && s.active
    requires t == s.(d := s.d.Received(s.got), active := false, got := 0)
    ensures BuffersApart(t) && Fifo(t)
  {
    assert t.d.Unread() == s.d.Unread();
    assert OtherBytes(t) == OtherBytes(s);
  }

  // ---- Over every run ----------------------------------------------------------------

  lemma StepHolds(s: State, e: Event)
    requires Inv(s)
    ensures Inv(Step(s, e))
  {
    match e {
      case AppStep(granted) => ThreadHolds(s, granted);
      case HostByte(b) => HostByteHolds(s, b);
      case TransferDone(granted) => DoneHolds(s, granted);
      case Getc(nineBits) => GetcHolds(s, nineBits);
      case _ =>
        hide Fifo, CallsMatch, Advance;
        KeepsFifo(s, Step(s, e));
        KeepsCalls(s, Step(s, e));
    }
  }

  lemma GetcHolds(s: State, nineBits: bool)
    requires Inv(s)
    ensures Inv(Step(s, Getc(nineBits)))
  {
    hide Fifo, Bytes;
    KeepsFifo(s, Step(s, Getc(nineBits)));
  }

  function Run(s: State, events: seq<Event>): (r: State)
    requires s.d.Shape()
    ensures r.d.Shape()
    decreases |events|
  {
    if events == [] then s else Run(Step(s, events[0]), events[1..])
  }

  lemma {:induction false} RunHolds(s: State, events: seq<Event>)
    requires Inv(s)
    ensures Inv(Run(s, events))
    decreases |events|
  {
    hide Step, Fifo, CallsMatch;
    if events != [] {
      StepHolds(s, events[0]);
      RunHolds(Step(s, events[0]), events[1..]);
    }
  }

  /** A session starts in order exactly if the second buffer had been read out: enabling the interface
      does not clear its count, so bytes of an earlier session would be delivered. */
  lemma StartHoldsExactlyIfSecondEmpty(bufs: seq<seq<bv8>>, second: nat, granted: bool)
    requires |bufs| == 2 && |bufs[0]| == |bufs[1]| == RX_BUFFERS && second <= RX_BUFFERS
    ensures Inv(Start(bufs, second, granted)) <==> second == 0
  {
    var s := Start(bufs, second, granted);
    assert |s.taken + s.d.Unread()[0..] + OtherBytes(s)| == second;
  }

  /** Whatever the interleaving: the bytes the application took, the unread rest of the selected buffer
      and the bytes in the other buffer are together what the host sent, in order. The controller
      never stores into the selected buffer. Finished calls returned consecutive bytes of that stream,
      a 9-bit character as its first byte times 256 plus its second. */
  lemma FifoInEveryRun(bufs: seq<seq<bv8>>, granted: bool, events: seq<Event>)
    requires |bufs| == 2 && |bufs[0]| == |bufs[1]| == RX_BUFFERS
    ensures var s := Run(Start(bufs, 0, granted), events);
            && s.got <= RX_BUFFERS && InHand(s) <= |s.d.Unread()|
            && s.taken + s.d.Unread()[InHand(s)..] + OtherBytes(s) == s.received
            && (s.active ==> s.target == 1 - s.d.sel && s.d.ongoing)
            && (s.phase == ReadByte ==> s.d.pos < s.d.nb[s.d.sel])
            && Bytes(s.calls) + s.current == s.taken
            && forall c | c in s.calls && c.Returned? :: c.value == ValueOf(c.bytes) && |c.bytes| == if c.nineBits then 2 else 1
  {
    hide Run, Start, Bytes, ValueOf, Step;
    StartHoldsExactlyIfSecondEmpty(bufs, 0, granted);
    RunHolds(Start(bufs, 0, granted), events);
  }

  /** The interface is running exactly if its first transfer was granted and it was not disabled since. */
  lemma RunningExactly(bufs: seq<seq<bv8>>, second: nat, granted: bool, events: seq<Event>)
    requires |bufs| == 2 && |bufs[0]| == |bufs[1]| == RX_BUFFERS && second <= RX_BUFFERS
    ensures Run(Start(bufs, second, granted), events).running <==> granted && Disabled !in events
  {
    hide Run;
    RunsUntilDisabled(Start(bufs, second, granted), events);
  }

  lemma {:induction false} RunsUntilDisabled(s: State, events: seq<Event>)
    requires s.d.Shape()
    ensures Run(s, events).running <==> s.running && Disabled !in events
    decreases |events|
  {
    hide Step;
    if events != [] {
      RunsUntilDisabled(Step(s, events[0]), events[1..]);
      RunsStep(s, events[0]);
    }
  }

  lemma RunsStep(s: State, e: Event)
    requires s.d.Shape()
    ensures Step(s, e).running <==> s.running && e != Disabled
  {
    hide Advance, Driver.AfterStart, Driver.Received, Driver.Filled, Driver.IsReady, HandoverOf;
    if e.AppStep? {
      RunsAdvance(s, e.granted);
    }
  }

  lemma RunsAdvance(s: State, granted: bool)
    requires s.d.Shape()
    ensures Advance(s, granted).running == s.running
  {
    hide Driver.AfterStart, Driver.IsReady, Driver.Shape, HandoverOf, OrByte;
  }

  predicate AllReturned(calls: seq<Call>) {
    forall c | c in calls :: c.Returned?
  }

  /** While the interface is running a call waits for its bytes: every call that ends has returned a value. */
  lemma {:induction false} RunningCallsReturn(s: State, events: seq<Event>)
    requires s.d.Shape() && s.running && Disabled !in events && AllReturned(s.calls)
    ensures Run(s, events).running && AllReturned(Run(s, events).calls)
    decreases |events|
  {
    hide Step, AllReturned;
    if events != [] {
      RunningStep(s, events[0]);
      RunningCallsReturn(Step(s, events[0]), events[1..]);
    }
  }

  lemma RunningStep(s: State, e: Event)
    requires s.d.Shape() && s.running && e != Disabled && AllReturned(s.calls)
    ensures Step(s, e).running && AllReturned(Step(s, e).calls)
  {
    OneMoreReturned(s.calls, s.nineBits, s.rxData, s.current);
    hide OrByte, Driver.AfterStart, Driver.Received, Driver.Filled, AllReturned;
  }

  lemma OneMoreReturned(calls: seq<Call>, nineBits: bool, value: nat, bytes: seq<bv8>)
    requires AllReturned(calls)
    ensures AllReturned(calls + [Returned(nineBits, value, bytes)])
  {
  }

  /** How many steps a call makes at most once the interface is disabled. */
  function UntilReturn(s: State): nat {
    (match s.phase
     case Idle => 0
     case Check => 7
     case RunningTest => 1
     case ReadByte => 6
     case LoadPos => 5
     case StorePos(_) => 4
     case StartTransfer => 3
     case RunTransfer(_) => 2
     case Next => 1)
    + if s.nine && s.phase != Idle then 7 else 0
  }

  function ThreadSteps(events: seq<Event>): nat {
    if events == [] then 0 else (if events[0].AppStep? then 1 else 0) + ThreadSteps(events[1..])
  }

  /** Once the interface is disabled no call waits any longer, whatever else happens: it ends within 14 of its own
      steps. */
  lemma {:induction false} DisabledCallEnds(s: State, events: seq<Event>)
    requires Inv(s) && !s.running && s.phase != Idle && UntilReturn(s) <= ThreadSteps(events)
    ensures UntilReturn(s) <= 14 && |s.calls| < |Run(s, events).calls|
    decreases |events|
  {
    hide Fifo, CallsMatch, Step, UntilReturn;
    NotReturned(s);
    var r := Step(s, events[0]);
    StepHolds(s, events[0]);
    NearerReturn(s, events[0]);
    if |s.calls| < |r.calls| {
      CallsGrow(r, events[1..]);
    } else {
      DisabledCallEnds(r, events[1..]);
    }
  }

  lemma NotReturned(s: State)
    requires s.phase != Idle
    ensures 1 <= UntilReturn(s) <= 14
  {
  }

  lemma NearerReturn(s: State, e: Event)
    requires Inv(s) && !s.running && s.phase != Idle
    ensures var r := Step(s, e);
            && !r.running && |s.calls| <= |r.calls|
            && (|s.calls| < |r.calls| || (r.phase != Idle && UntilReturn(r) + (if e.AppStep? then 1 else 0) <= UntilReturn(s)))
  {
    hide Fifo, CallsMatch, Driver.AfterStart, Driver.Received, Driver.Filled, OrByte;
  }

  lemma {:induction false} CallsGrow(s: State, events: seq<Event>)
    requires s.d.Shape()
    ensures |s.calls| <= |Run(s, events).calls|
    decreases |events|
  {
    if events != [] {
      CallsGrow(Step(s, events[0]), events[1..]);
      OneMoreCall(s, events[0]);
    }
  }

  lemma OneMoreCall(s: State, e: Event)
    requires s.d.Shape()
    ensures |s.calls| <= |Step(s, e).calls|
  {
    hide Advance, Driver.AfterStart, Driver.Received, Driver.Filled, HandoverOf;
    if e.AppStep? {
      AdvanceCalls(s, e.granted);
    }
  }

  lemma AdvanceCalls(s: State, granted: bool)
    requires s.d.Shape()
    ensures |s.calls| <= |Advance(s, granted).calls|
  {
    hide Driver.AfterStart, Driver.IsReady, Driver.Shape, HandoverOf, OrByte;
    assert forall c :: |s.calls + [c]| == |s.calls| + 1;
    match s.phase {
      case ReadByte =>
      case RunTransfer(_) =>
      case _ => hide RunOn;
    }
  }

  /** What a session can leave behind: two transfers of which the second is not read. The next session then
      finds a byte to read before it has received any. */
  lemma SecondLeftUnread(bufs: seq<seq<bv8>>, b: bv8, c: bv8, granted: bool)
    requires |bufs| == 2 && |bufs[0]| == |bufs[1]| == RX_BUFFERS
    ensures var d := Run(Start(bufs, 0, true), [HostByte(b), TransferDone(true), HostByte(c), TransferDone(true)]).d;
            && d.nb[1] == 1
            && var next := Start(d.bufs, d.nb[1], granted); next.received == [] && next.d.Unread() == [c]
  {
    var s := Start(bufs, 0, true);
    var s1 := Step(s, HostByte(b));
    var s2 := Step(s1, TransferDone(true));
    var s3 := Step(s2, HostByte(c));
    var s4 := Step(s3, TransferDone(true));
    assert s2.d.sel == 0 && s2.active && s2.target == 1 && s2.got == 0;
    assert s4.d.nb[1] == 1 && s4.d.bufs[1][0] == c;
    RunFour(s, HostByte(b), TransferDone(true), HostByte(c), TransferDone(true));
  }

  lemma RunFour(s: State, a: Event, b: Event, c: Event, d: Event)
    requires s.d.Shape()
    ensures Run(s, [a, b, c, d]) == Step(Step(Step(Step(s, a), b), c), d)
  {
    hide Step;
    FirstStep(s, a, [b, c, d]);
    FirstStep(Step(s, a), b, [c, d]);
    FirstStep(Step(Step(s, a), b), c, [d]);
    FirstStep(Step(Step(Step(s, a), b), c), d, []);
  }

  lemma FirstStep(s: State, e: Event, rest: seq<Event>)
    requires s.d.Shape()
    ensures Run(s, [e] + rest) == Run(Step(s, e), rest)
  {
    hide Step;
    assert ([e] + rest)[1..] == rest;
  }

  // ---- A transfer that never ends ----------------------------------------------------

  /** A transfer marked as ongoing that the controller does not work on, nor will be asked to. */
  predicate Stuck(s: State) {
    s.d.ongoing && !s.active && !s.phase.RunTransfer?
  }

  /** The controller's transfer is aborted, or the next one is refused. */
  predicate Loses(s: State, e: Event)
    requires s.d.Shape()
  {
    match e
    case TransferAborted => s.active
    case AppStep(granted) => s.phase.RunTransfer? && !granted
    case TransferDone(granted) => s.active && s.got <= RX_BUFFERS && s.d.Received(s.got).Starts() && !granted
    case _ => false
  }

  /** Some transfer is lost on the way. */
  predicate LosesOne(s: State, events: seq<Event>)
    requires s.d.Shape()
    decreases |events|
  {
    events != [] && (Loses(s, events[0]) || LosesOne(Step(s, events[0]), events[1..]))
  }

  lemma StuckStep(s: State, e: Event)
    requires BuffersApart(s)
    ensures Stuck(Step(s, e)) <==> Stuck(s) || Loses(s, e)
  {
    match e {
      case AppStep(granted) => StuckAdvance(s, granted);
      case _ => hide Advance;
    }
  }

  lemma StuckAdvance(s: State, granted: bool)
    requires BuffersApart(s)
    ensures Stuck(Advance(s, granted)) <==> Stuck(s) || (s.phase.RunTransfer? && !granted)
  {
    hide OrByte, Driver.Unread;
    match s.phase {
      case StartTransfer =>
      case _ => hide Driver.AfterStart;
    }
  }

  /** A session gets stuck exactly by losing a transfer. */
  lemma {:induction false} StuckExactly(s: State, events: seq<Event>)
    requires Inv(s)
    ensures Stuck(Run(s, events)) <==> Stuck(s) || LosesOne(s, events)
    decreases |events|
  {
    hide Step, Fifo, CallsMatch, Stuck, Loses;
    if events != [] {
      StuckStep(s, events[0]);
      StepHolds(s, events[0]);
      StuckExactly(Step(s, events[0]), events[1..]);
    }
  }

  /** Once stuck, a session receives nothing more, whatever happens. */
  lemma {:induction false} StuckForever(s: State, events: seq<Event>)
    requires s.d.Shape() && Stuck(s)
    ensures Stuck(Run(s, events)) && Run(s, events).received == s.received
    decreases |events|
  {
    hide Step;
    if events != [] {
      StuckReceives(s, events[0]);
      StuckForever(Step(s, events[0]), events[1..]);
    }
  }

  lemma StuckReceives(s: State, e: Event)
    requires s.d.Shape() && Stuck(s)
    ensures Stuck(Step(s, e)) && Step(s, e).received == s.received
  {
    hide OrByte;
  }

  /** After a lost transfer a session receives nothing more, whatever follows. */
  lemma LossEndsReception(bufs: seq<seq<bv8>>, granted: bool, events: seq<Event>, more: seq<Event>)
    requires |bufs| == 2 && |bufs[0]| == |bufs[1]| == RX_BUFFERS
    requires !granted || LosesOne(Start(bufs, 0, granted), events)
    ensures Run(Run(Start(bufs, 0, granted), events), more).received == Run(Start(bufs, 0, granted), events).received
  {
    StartHoldsExactlyIfSecondEmpty(bufs, 0, granted);
    hide Inv, Run, Step;
    StuckExactly(Start(bufs, 0, granted), events);
    StuckForever(Run(Start(bufs, 0, granted), events), more);
  }

  /** A session whose first transfer is aborted never receives a byte. */
  lemma AbortReceivesNothing(bufs: seq<seq<bv8>>, events: seq<Event>)
    requires |bufs| == 2 && |bufs[0]| == |bufs[1]| == RX_BUFFERS
    ensures Run(Step(Start(bufs, 0, true), TransferAborted), events).received == []
  {
    StuckForever(Step(Start(bufs, 0, true), TransferAborted), events);
  }

  // ---- Reception goes on -------------------------------------------------------------

  /** The thread is about to ask for a transfer. */
  predicate Asking(phase: Phase) {
    phase.StartTransfer? || phase.RunTransfer?
  }

  /** There are bytes to read, or the controller can receive, or the thread is about to let it. */
  predicate GoesOn(s: State)
    requires s.d.Shape()
  {
    s.d.IsReady() || s.active || Asking(s.phase)
  }

  lemma GoesOnStep(s: State, e: Event)
    requires BuffersApart(s) && GoesOn(s) && !Stuck(s) && !Loses(s, e)
    ensures GoesOn(Step(s, e)) && !Stuck(Step(s, e))
  {
    StuckStep(s, e);
    match e {
      case AppStep(granted) => GoesOnAdvance(s, granted);
      case _ => hide Advance;
    }
  }

  lemma GoesOnAdvance(s: State, granted: bool)
    requires BuffersApart(s) && GoesOn(s) && !Stuck(s) && !(s.phase.RunTransfer? && !granted)
    ensures GoesOn(Advance(s, granted))
  {
    hide OrByte;
  }

  lemma {:induction false} GoesOnRun(s: State, events: seq<Event>)
    requires Inv(s) && GoesOn(s) && !Stuck(s) && !LosesOne(s, events)
    ensures GoesOn(Run(s, events)) && !Stuck(Run(s, events))
    decreases |events|
  {
    hide Step, Fifo, CallsMatch, GoesOn, Stuck, Loses;
    if events != [] {
      GoesOnStep(s, events[0]);
      StepHolds(s, events[0]);
      GoesOnRun(Step(s, events[0]), events[1..]);
    }
  }

  /** In every run a session is stuck exactly if a transfer was lost, and otherwise the application and the
      controller never wait for each other: there are bytes to read, or the controller can receive, or the
      thread is about to let it. */
  lemma NeverBothWait(bufs: seq<seq<bv8>>, granted: bool, events: seq<Event>)
    requires |bufs| == 2 && |bufs[0]| == |bufs[1]| == RX_BUFFERS
    ensures var s := Run(Start(bufs, 0, granted), events);
            && (Stuck(s) <==> !granted || LosesOne(Start(bufs, 0, granted), events))
            && (!Stuck(s) ==> s.d.IsReady() || s.active || Asking(s.phase))
  {
    StartHoldsExactlyIfSecondEmpty(bufs, 0, granted);
    hide Run, LosesOne, Inv;
    var s := Start(bufs, 0, granted);
    StuckExactly(s, events);
    if granted && !LosesOne(s, events) {
      GoesOnRun(s, events);
    }
  }

  // ---- Everything received is taken --------------------------------------------------

  /** The application goes on: it is called again, or makes a step of a call. */
  predicate Acts(s: State, e: Event) {
    match e
    case Getc(_) => s.phase == Idle
    case AppStep(_) => s.phase != Idle
    case _ => false
  }

  function Acted(s: State, events: seq<Event>): nat
    requires s.d.Shape()
    decreases |events|
  {
    if events == [] then 0 else (if Acts(s, events[0]) then 1 else 0) + Acted(Step(s, events[0]), events[1..])
  }

  /** The number of bytes whose transfer has ended. */
  function Landed(s: State): int
    requires s.d.Shape()
  {
    |s.taken| + |s.d.Unread()| - InHand(s) + if s.d.ongoing then 0 else s.d.nb[1 - s.d.sel]
  }

  /** How many actions it takes at most to read the next byte, if there is one. */
  function UntilRead(phase: Phase): (n: nat)
    ensures 1 <= n <= 8
  {
    match phase
    case ReadByte => 1
    case Check => 2
    case Idle => 3
    case RunningTest => 4
    case Next => 4
    case RunTransfer(_) => 5
    case StartTransfer => 6
    case StorePos(_) => 7
    case LoadPos => 8
  }

  /** How many actions it takes at most until `n` bytes are taken. */
  function Needed(s: State, n: nat): (k: nat)
    ensures k == 0 <==> n <= |s.taken|
    ensures n >= |s.taken| ==> k <= 8 * (n - |s.taken|)
  {
    if n <= |s.taken| then 0 else 8 * (n - |s.taken| - 1) + UntilRead(s.phase)
  }

  lemma LandedStays(s: State, e: Event)
    requires BuffersApart(s)
    ensures Landed(s) <= Landed(Step(s, e))
  {
    match e {
      case AppStep(granted) => LandedAdvance(s, granted);
      case _ => hide Advance;
    }
  }

  lemma LandedAdvance(s: State, granted: bool)
    requires BuffersApart(s)
    ensures Landed(s) == Landed(Advance(s, granted))
  {
    AdvanceMoves(s, granted);
    AdvanceTakes(s, granted);
    hide Advance, Driver.AfterStart, Driver.Unread;
    if s.phase.StartTransfer? {
      LandedStart(s.d);
    } else if s.phase.StorePos? {
      UnreadShrinks(s.d);
    }
  }

  /** What a step of the thread does to the driver, and whether a byte is in its hand then. */
  lemma AdvanceMoves(s: State, granted: bool)
    requires BuffersApart(s)
    ensures var r := Advance(s, granted);
            && r.d == (match s.phase case StorePos(_) => s.d.(pos := s.d.pos + 1) case StartTransfer => s.d.AfterStart() case _ => s.d)
            && InHand(r) == if s.phase.ReadByte? || s.phase.LoadPos? then 1 else 0
  {
    hide OrByte, Driver.AfterStart;
  }

  lemma AdvanceTakes(s: State, granted: bool)
    requires BuffersApart(s)
    ensures var r := Advance(s, granted);
            r.received == s.received && |r.taken| == |s.taken| + if s.phase.ReadByte? then 1 else 0
  {
    assert s.phase.ReadByte? ==> s.d.pos < RX_BUFFERS;
    hide OrByte, Driver.AfterStart, BuffersApart, Driver.Shape;
  }

  lemma UnreadShrinks(d: Driver)
    requires d.Shape() && d.IsReady()
    ensures |d.(pos := d.pos + 1).Unread()| == |d.Unread()| - 1
  {
  }

  lemma LandedStart(d: Driver)
    requires d.Shape()
    ensures var r := d.AfterStart();
            |d.Unread()| + (if d.ongoing then 0 else d.nb[1 - d.sel]) == |r.Unread()| + if r.ongoing then 0 else r.nb[1 - r.sel]
  {
  }

  /** While bytes whose transfer has ended are not taken, every action brings the next one nearer. */
  lemma ActionHelps(s: State, e: Event, n: nat)
    requires BuffersApart(s) && GoesOn(s) && !Stuck(s) && n <= Landed(s)
    ensures Needed(Step(s, e), n) <= if Acts(s, e) && 0 < Needed(s, n) then Needed(s, n) - 1 else Needed(s, n)
  {
    match e {
      case AppStep(granted) => AdvanceHelps(s, granted, n);
      case TransferDone(granted) => hide Advance, Driver.AfterStart, Driver.Received;
      case _ => hide Advance;
    }
  }

  lemma AdvanceHelps(s: State, granted: bool, n: nat)
    requires BuffersApart(s) && GoesOn(s) && !Stuck(s) && n <= Landed(s)
    ensures Needed(Advance(s, granted), n) <= if s.phase != Idle && 0 < Needed(s, n) then Needed(s, n) - 1 else Needed(s, n)
  {
    hide OrByte, Driver.AfterStart;
    if s.phase == Check && |s.taken| < n {
      assert s.d.IsReady();
    }
  }

  lemma {:induction false} LandedIsTaken(s: State, events: seq<Event>, n: nat)
    requires Inv(s) && GoesOn(s) && !Stuck(s) && !LosesOne(s, events)
    requires n <= Landed(s) && Needed(s, n) <= Acted(s, events)
    ensures n <= |Run(s, events).taken|
    decreases |events|
  {
    hide Step, Fifo, CallsMatch, GoesOn, Stuck, Loses, Landed, Acts;
    if events != [] {
      var e := events[0];
      GoesOnStep(s, e);
      StepHolds(s, e);
      LandedStays(s, e);
      ActionHelps(s, e, n);
      LandedIsTaken(Step(s, e), events[1..], n);
    }
  }

  lemma {:induction false} ReceivedGrows(s: State, events: seq<Event>)
    requires Inv(s)
    ensures s.received <= Run(s, events).received
    decreases |events|
  {
    hide Step, Fifo, CallsMatch;
    if events != [] {
      StepHolds(s, events[0]);
      ReceivedStays(s, events[0]);
      ReceivedGrows(Step(s, events[0]), events[1..]);
    }
  }

  lemma ReceivedStays(s: State, e: Event)
    requires BuffersApart(s)
    ensures s.received <= Step(s, e).received
  {
    hide Advance, Driver.AfterStart, Driver.Received, Driver.Filled;
    match e {
      case AppStep(granted) => AdvanceTakes(s, granted);
      case _ =>
    }
  }

  lemma TakenAfterTransfer(s: State, granted: bool, events: seq<Event>)
    requires Inv(s) && GoesOn(s) && !Stuck(s) && s.active && !LosesOne(s, [TransferDone(granted)] + events)
    requires 8 * (|s.received| - |s.taken|) <= Acted(Step(s, TransferDone(granted)), events)
    ensures s.received <= Run(s, [TransferDone(granted)] + events).taken
  {
    hide Fifo, CallsMatch, GoesOn, Stuck, Loses, Landed, Driver.AfterStart;
    var e := TransferDone(granted);
    var t := Step(s, e);
    assert ([e] + events)[1..] == events;
    GoesOnStep(s, e);
    StepHolds(s, e);
    AllLanded(s, granted);
    hide Step, Run, Acted, LosesOne;
    LandedIsTaken(t, events, |s.received|);
    FirstStep(s, e, events);
    RunHolds(t, events);
    ReceivedGrows(t, events);
    TakenFirst(Run(t, events));
  }

  lemma AllLanded(s: State, granted: bool)
    requires Inv(s) && s.active
    ensures var t := Step(s, TransferDone(granted));
            t.received == s.received && t.taken == s.taken && Landed(t) == |s.received| && |s.taken| <= |s.received|
  {
    hide CallsMatch;
    StepHolds(s, TransferDone(granted));
  }

  lemma TakenFirst(s: State)
    requires BuffersApart(s) && Fifo(s)
    ensures s.taken <= s.received
  {
    hide OtherBytes;
    assert InHand(s) <= |s.d.Unread()|;
    hide Driver.Unread;
    Regroup(s.taken, s.d.Unread()[InHand(s)..], OtherBytes(s));
  }

  /** In every session without a lost transfer: once a transfer has ended, everything received by then is
      taken, in order, when the application has made eight steps for each of these bytes that was left,
      whatever else happens meanwhile. */
  lemma EverythingIsTaken(bufs: seq<seq<bv8>>, before: seq<Event>, granted: bool, events: seq<Event>)
    requires |bufs| == 2 && |bufs[0]| == |bufs[1]| == RX_BUFFERS && !LosesOne(Start(bufs, 0, true), before)
    requires var s := Run(Start(bufs, 0, true), before);
             && s.active && !LosesOne(s, [TransferDone(granted)] + events)
             && 8 * (|s.received| - |s.taken|) <= Acted(Step(s, TransferDone(granted)), events)
    ensures var s := Run(Start(bufs, 0, true), before);
            s.received <= Run(s, [TransferDone(granted)] + events).taken
  {
    var start := Start(bufs, 0, true);
    StartHoldsExactlyIfSecondEmpty(bufs, 0, true);
    assert GoesOn(start) && !Stuck(start);
    hide Inv, GoesOn, Stuck, Run, Step, Start, LosesOne, Acted;
    RunHolds(start, before);
    GoesOnRun(start, before);
    TakenAfterTransfer(Run(start, before), granted, events);
  }
}
