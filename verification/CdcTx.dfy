/** The transmit side of the CDC class: two buffers that the application fills and USB interrupts
    send. `Driver` is the driver's state as a value, `CdcTx` the driver itself, and `State` the
    whole system of driver, application thread, USB controller and wire. */
module CdcTransmit {
  import opened Basics

  const TX_BUFFERS: nat := 320

  /** What `udd_ep_run` is asked to send: `size` bytes of a buffer, as a short packet or not. */
  datatype Request = NoRequest | Request(buffer: nat, short: bool, size: nat)

  datatype Driver = Driver(bufs: seq<seq<bv8>>, nb: seq<nat>, sel: nat, ongoing: bool, both: bool, sofNum: nat) {
    predicate Shape() {
      && |bufs| == 2 && |nb| == 2 && sel < 2
      && |bufs[0]| == TX_BUFFERS && |bufs[1]| == TX_BUFFERS
      && nb[0] <= TX_BUFFERS && nb[1] <= TX_BUFFERS
    }

    /** The bytes stored in a buffer. */
    function Contents(i: nat): seq<bv8>
      requires Shape() && i < 2
    {
      bufs[i][..nb[i]]
    }

    predicate HasRoom()
      requires Shape()
    {
      nb[sel] != TX_BUFFERS
    }

    /** `udi_cdc_tx_send` starts a transfer in this frame. */
    predicate Sends(frame: nat) {
      !ongoing && sofNum != frame
    }

    /** The buffer it sends: the selected one, or the other if both hold data. */
    function SendBuffer(): (b: nat)
      requires Shape()
      ensures b < 2
    {
      if both then 1 - sel else sel
    }

    function SendRequest(frame: nat): (r: Request)
      requires Shape()
      ensures r.Request? ==> r.buffer < 2 && r.size <= TX_BUFFERS
    {
      if Sends(frame) then Request(SendBuffer(), nb[SendBuffer()] != TX_BUFFERS, nb[SendBuffer()]) else NoRequest
    }

    function AfterSend(frame: nat): (d: Driver)
      requires Shape()
      ensures d.Shape()
    {
      if Sends(frame) then
        this.(sel := if both then sel else 1 - sel,
              ongoing := true,
              sofNum := if nb[SendBuffer()] != TX_BUFFERS then frame else 0)
      else this
    }

    /** The buffer that was sent is released. */
    function Released(): (d: Driver)
      requires Shape()
      ensures d.Shape()
    {
      this.(nb := nb[1 - sel := 0], both := false, ongoing := false)
    }

    /** The critical section of `udi_cdc_is_tx_ready`. */
    function Switched(): (d: Driver)
      requires Shape()
      ensures d.Shape()
    {
      if ongoing then this else this.(both := true, sel := 1 - sel)
    }

    /** `data` stored at the end of the selected buffer. */
    function Stored(data: seq<bv8>): (d: Driver)
      requires Shape() && nb[sel] + |data| <= TX_BUFFERS
      ensures d.Shape()
    {
      this.(bufs := bufs[sel := bufs[sel][..nb[sel]] + data + bufs[sel][nb[sel] + |data|..]],
            nb := nb[sel := nb[sel] + |data|])
    }
  }

  class CdcTx {
    const buf: array2<bv8>
    const nb: array<nat>
    var sel: nat
    var ongoing: bool
    var both: bool
    var sofNum: nat

    ghost predicate Valid()
      reads this, nb
    {
      && buf.Length0 == 2 && buf.Length1 == TX_BUFFERS && nb.Length == 2 && sel < 2
      && nb[0] <= TX_BUFFERS && nb[1] <= TX_BUFFERS
    }

    ghost function View(): (d: Driver)
      requires Valid()
      reads this, buf, nb
      ensures d.Shape()
    {
      Driver([Row(buf, 0), Row(buf, 1)], nb[..], sel, ongoing, both, sofNum)
    }

    constructor ()
      ensures Valid() && fresh(buf) && fresh(nb) && buf.Length1 == 320
    {
      buf := new bv8[2, TX_BUFFERS];
      nb := new nat[2](_ => 0);
      sel, ongoing, both, sofNum := 0, false, false, 0;
    }

    /** The transmit half of `udi_cdc_data_enable`. */
    method Enable(frame: nat) returns (request: Request)
      requires Valid()
      modifies this, nb
      ensures Valid() && var d := Enabled(old(View()).bufs);
              View() == d.AfterSend(frame) && request == d.SendRequest(frame)
      ensures nb[0] == nb[1] == 0 && !both && request == if frame == 0 then NoRequest else Request(0, true, 0)
    {
      ongoing := false;
      both := false;
      sel := 0;
      nb[0] := 0;
      nb[1] := 0;
      sofNum := 0;
      assert View() == Enabled(old(View()).bufs);
      request := TxSend(frame);
    }

    /** `udi_cdc_tx_send`. */
    method TxSend(frame: nat) returns (request: Request)
      requires Valid()
      modifies this
      ensures Valid() && View() == old(View()).AfterSend(frame) && request == old(View()).SendRequest(frame)
    {
      if ongoing {
        return NoRequest;
      }
      if sofNum == frame {
        return NoRequest;
      }
      var selTrans := sel;
      if !both {
        sel := if selTrans == 0 then 1 else 0;
      } else {
        selTrans := if selTrans == 0 then 1 else 0;
      }
      ongoing := true;
      var short := nb[selTrans] != TX_BUFFERS;
      if short {
        sofNum := frame;
      } else {
        sofNum := 0;
      }
      request := Request(selTrans, short, nb[selTrans]);
    }

    /** `udi_cdc_data_sent`. */
    method DataSent(ok: bool, frame: nat) returns (request: Request)
      requires Valid()
      modifies this, nb
      ensures Valid()
      ensures if ok then View() == old(View()).Released().AfterSend(frame) && request == old(View()).Released().SendRequest(frame)
              else View() == old(View()) && request == NoRequest
    {
      if !ok {
        return NoRequest;
      }
      nb[if sel == 0 then 1 else 0] := 0;
      both := false;
      ongoing := false;
      assert View() == old(View()).Released();
      request := TxSend(frame);
    }

    /** The critical section of `udi_cdc_is_tx_ready`. */
    method SwitchBuffer()
      requires Valid()
      modifies this
      ensures Valid() && View() == old(View()).Switched()
    {
      if !ongoing {
        both := true;
        sel := if sel == 0 then 1 else 0;
      }
    }

    /** The critical section of `udi_cdc_putc`. */
    method StoreByte(value: bv8)
      requires Valid() && nb[sel] < TX_BUFFERS
      modifies nb, buf
      ensures Valid() && View() == old(View()).Stored([value])
    {
      buf[sel, nb[sel]] := value;
      nb[sel] := nb[sel] + 1;
      StoredRows(old(View()), [value], View());
    }

    /** The critical section of `udi_cdc_write_buf`. */
    method StoreChunk(data: seq<bv8>) returns (copied: nat)
      requires Valid()
      modifies nb, buf
      ensures copied == Fitting(old(View()), |data|) && Valid() && View() == old(View()).Stored(data[..copied])
    {
      copied := TX_BUFFERS - nb[sel];
      if copied > |data| {
        copied := |data|;
      }
      ghost var d := View();
      for k := 0 to copied
        invariant nb[..] == old(nb[..])
        invariant forall i, j | 0 <= i < 2 && 0 <= j < TX_BUFFERS ::
                    buf[i, j] == if i == sel && nb[sel] <= j < nb[sel] + k then data[j - nb[sel]] else old(buf[i, j])
      {
        buf[sel, nb[sel] + k] := data[k];
      }
      nb[sel] := nb[sel] + copied;
      StoredRows(d, data[..copied], View());
    }
  }

  /** The state of the driver when a session starts. */
  function Enabled(bufs: seq<seq<bv8>>): Driver {
    Driver(bufs, [0, 0], 0, false, false, 0)
  }

  /** How many of `n` bytes fit into the selected buffer. */
  function Fitting(d: Driver, n: nat): (k: nat)
    requires d.Shape()
    ensures k <= n && d.nb[d.sel] + k <= TX_BUFFERS
  {
    if TX_BUFFERS - d.nb[d.sel] > n then n else TX_BUFFERS - d.nb[d.sel]
  }

  lemma StoredRows(d: Driver, data: seq<bv8>, d': Driver)
    requires d.Shape() && d'.Shape() && d.nb[d.sel] + |data| <= TX_BUFFERS
    requires d' == d.(bufs := d'.bufs, nb := d.nb[d.sel := d.nb[d.sel] + |data|])
    requires forall i, j | 0 <= i < 2 && 0 <= j < TX_BUFFERS ::
      d'.bufs[i][j] == if i == d.sel && d.nb[d.sel] <= j < d.nb[d.sel] + |data| then data[j - d.nb[d.sel]] else d.bufs[i][j]
    ensures d' == d.Stored(data)
  {
    var r := d.Stored(data);
    assert r.bufs[d.sel] == d'.bufs[d.sel];
    assert r.bufs[1 - d.sel] == d'.bufs[1 - d.sel];
    assert r.bufs == d'.bufs;
  }

  // ---- The whole system --------------------------------------------------------------

  /** Where the application thread stands in `udi_cdc_putc` or `udi_cdc_write_buf`. Every test of a
      shared variable is a step of its own, every critical section is one step. */
  datatype Phase = Idle | FirstTest | BothTest | Switch | FinalTest | RunningTest | Store

  /** One transfer: the frame it was started in, whether as a short packet, and its bytes. */
  datatype Transfer = Transfer(frame: nat, short: bool, payload: seq<bv8>)

  /** `active`, `source`, `size` and `sent` are the transfer the USB controller works on, which fetches
      the buffer byte by byte. `wire` is what it has sent, `accepted` what the application has stored,
      `passed` what the application asked to send, less what it was told was not accepted. `unit` is
      the most that the running call stores at a time. */
  datatype State = State(d: Driver, running: bool, frame: nat,
                         active: bool, source: nat, size: nat, sent: nat, wire: seq<bv8>, transfers: seq<Transfer>,
                         phase: Phase, rest: seq<bv8>, unit: nat, accepted: seq<bv8>, passed: seq<bv8>)

  datatype Event =
    | Putc(value: nat, nineBits: bool)
    | WriteBuf(data: seq<bv8>)
    | AppStep
    | Sof(frame: nat, granted: bool)
    | FetchByte
    | TransferDone(granted: bool)
    | TransferAborted
    | Disabled

  /** The bytes that `udi_cdc_putc` stores, the low byte first. */
  function PutcBytes(value: nat, nineBits: bool): seq<bv8> {
    [(value % 256) as bv8] + if nineBits then [(value / 256 % 256) as bv8] else []
  }

  function Begin(s: State, rest: seq<bv8>, unit: nat): State {
    if s.phase == Idle then s.(phase := FirstTest, rest := rest, unit := unit, passed := s.passed + rest) else s
  }

  /** The next step of the application thread. */
  function Advance(s: State): State
    requires s.d.Shape()
  {
    match s.phase
    case Idle => s
    case FirstTest => s.(phase := if s.d.HasRoom() then Store else BothTest)
    case BothTest => s.(phase := if s.d.both then FinalTest else Switch)
    case Switch => s.(phase := FinalTest, d := s.d.Switched())
    case FinalTest => s.(phase := if s.d.HasRoom() then Store else RunningTest)
    case RunningTest =>
      if s.running then s.(phase := FirstTest) else GiveUp(s)
    case Store =>
      var n := Fitting(s.d, Min(s.unit, |s.rest|));
      s.(d := s.d.Stored(s.rest[..n]), accepted := s.accepted + s.rest[..n], rest := s.rest[n..],
         phase := if n == |s.rest| then Idle else FirstTest)
  }

  /** The call returns and reports the bytes it did not store. */
  function GiveUp(s: State): State {
    s.(phase := Idle, rest := [], passed := if |s.rest| <= |s.passed| then s.passed[..|s.passed| - |s.rest|] else [])
  }

  /** The controller's answer to a request: it works on the buffer and the size it was asked to send. */
  function RunOn(s: State, request: Request, granted: bool): (r: State)
    requires s.d.Shape() && (request.Request? ==> request.buffer < 2 && request.size <= TX_BUFFERS)
    ensures r.d == s.d
  {
    match request
    case NoRequest => s
    case Request(b, short, size) =>
      s.(active := granted, source := b, size := size, sent := 0,
         transfers := s.transfers + [Transfer(s.frame, short, s.d.bufs[b][..size])])
  }

  /** `udi_cdc_tx_send` with the controller's answer to the transfer it asks for. */
  function SendNext(s: State, granted: bool): (r: State)
    requires s.d.Shape()
    ensures r.d.Shape()
  {
    RunOn(s.(d := s.d.AfterSend(s.frame)), s.d.SendRequest(s.frame), granted)
  }

  function Step(s: State, e: Event): (r: State)
    requires s.d.Shape()
    ensures r.d.Shape()
  {
    match e
    case Putc(value, nineBits) => Begin(s, PutcBytes(value, nineBits), 1)
    case WriteBuf(data) => Begin(s, data, |data|)
    case AppStep => Advance(s)
    case Sof(frame, granted) => SendNext(s.(frame := frame), granted)
    case FetchByte =>
      if s.active && s.sent < s.size && s.source < 2 && s.sent < TX_BUFFERS then
        s.(wire := s.wire + [s.d.bufs[s.source][s.sent]], sent := s.sent + 1)
      else s
    case TransferDone(granted) =>
      if s.active && s.sent == s.size then SendNext(s.(d := s.d.Released(), active := false), granted) else s
    case TransferAborted => s.(active := false)
    case Disabled => s.(running := false)
  }

  /** A session starts with `udi_cdc_data_enable`, whatever the buffers hold. */
  function Start(bufs: seq<seq<bv8>>, frame: nat, running: bool, granted: bool): (s: State)
    requires |bufs| == 2 && |bufs[0]| == |bufs[1]| == TX_BUFFERS
  {
    SendNext(State(Enabled(bufs), running, frame, false, 0, 0, 0, [], [], Idle, [], 0, [], []), granted)
  }

  // ---- The invariant -----------------------------------------------------------------

  /** What is still to be sent of the buffer that is not selected. */
  function OtherPending(s: State): seq<bv8>
    requires s.d.Shape() && (s.d.ongoing ==> s.sent <= s.d.nb[1 - s.d.sel])
  {
    var other := s.d.Contents(1 - s.d.sel);
    if s.d.ongoing then other[s.sent..] else other
  }

  /** The controller is given the buffer that is not selected, and its size stands; without a
      transfer that buffer holds data only if `both` says so. */
  ghost predicate BuffersApart(s: State) {
    && s.d.Shape()
    && (s.active ==> s.d.ongoing)
    && (s.d.ongoing ==> s.source == 1 - s.d.sel && s.size == s.d.nb[1 - s.d.sel] && s.sent <= s.size)
    && (!s.d.ongoing && !s.d.both ==> s.d.nb[1 - s.d.sel] == 0)
  }

  /** Bytes sent, bytes of the buffer that is not selected, bytes of the selected buffer: together
      what the application stored, in order. */
  ghost predicate Fifo(s: State)
    requires BuffersApart(s)
  {
    s.wire + OtherPending(s) + s.d.Contents(s.d.sel) == s.accepted
  }

  /** Every byte passed by a call is stored, still to be stored, or was reported back; when the thread
      is about to store there is room, and when it is about to switch only one buffer holds data. */
  ghost predicate ThreadReady(s: State)
    requires s.d.Shape()
  {
    && s.passed == s.accepted + s.rest
    && (s.phase == Idle ==> s.rest == [])
    && (s.phase == Switch ==> !s.d.both)
    && (s.phase == Store ==> s.d.HasRoom())
  }

  /** After a short packet nothing more is started in the same frame; the buffer being sent still
      holds what was handed over. */
  ghost predicate WellPaced(s: State)
    requires s.d.Shape()
  {
    && (s.transfers != [] ==> s.d.sofNum == if Last(s.transfers).short then Last(s.transfers).frame else 0)
    && (s.d.ongoing ==> s.transfers != [] && Last(s.transfers).payload == s.d.Contents(1 - s.d.sel))
    && Paced(s.transfers) && ShortIfNotFull(s.transfers)
  }

  ghost predicate Inv(s: State) {
    BuffersApart(s) && Fifo(s) && ThreadReady(s) && WellPaced(s)
  }

  function Last(t: seq<Transfer>): Transfer
    requires t != []
  {
    t[|t| - 1]
  }

  /** Exactly those transfers end with a short packet that do not carry a full buffer. */
  ghost predicate ShortIfNotFull(t: seq<Transfer>) {
    forall i | 0 <= i < |t| :: t[i].short <==> |t[i].payload| != TX_BUFFERS
  }

  /** After a short packet nothing more is started in the same frame. */
  ghost predicate Paced(t: seq<Transfer>) {
    forall i | 0 <= i < |t| - 1 :: t[i].short ==> t[i + 1].frame != t[i].frame
  }

  lemma StartHolds(bufs: seq<seq<bv8>>, frame: nat, running: bool, granted: bool)
    requires |bufs| == 2 && |bufs[0]| == |bufs[1]| == TX_BUFFERS
    ensures Inv(Start(bufs, frame, running, granted))
  {
  }

  lemma SendHolds(s: State, granted: bool)
    requires Inv(s)
    ensures Inv(SendNext(s, granted))
  {
    if s.d.Sends(s.frame) {
      SendKeepsFifo(s, granted);
      SendKeepsPace(s, granted);
      hide Fifo, WellPaced;
    }
  }

  lemma SendKeepsFifo(s: State, granted: bool)
    requires BuffersApart(s) && Fifo(s) && s.d.Sends(s.frame)
    ensures BuffersApart(SendNext(s, granted)) && Fifo(SendNext(s, granted))
  {
  }

  lemma SendKeepsPace(s: State, granted: bool)
    requires s.d.Shape() && WellPaced(s) && s.d.Sends(s.frame)
    ensures WellPaced(SendNext(s, granted))
  {
  }

  lemma SofHolds(s: State, frame: nat, granted: bool)
    requires Inv(s)
    ensures Inv(Step(s, Sof(frame, granted)))
  {
    hide SendNext;
    SendHolds(s.(frame := frame), granted);
  }

  /** Storing extends the selected buffer and leaves the other alone. */
  lemma StoredContents(d: Driver, data: seq<bv8>)
    requires d.Shape() && d.nb[d.sel] + |data| <= TX_BUFFERS
    ensures var d' := d.Stored(data);
            d'.Contents(d.sel) == d.Contents(d.sel) + data && d'.Contents(1 - d.sel) == d.Contents(1 - d.sel)
  {
  }

  lemma StoreHolds(s: State)
    requires Inv(s) && s.phase == Store
    ensures Inv(Advance(s))
  {
    hide Driver.Stored, Driver.Contents, Fitting;
    var n := Fitting(s.d, Min(s.unit, |s.rest|));
    StoredContents(s.d, s.rest[..n]);
    StoredFields(s.d, s.rest[..n]);
    Regroup(s.wire + OtherPending(s), s.d.Contents(s.d.sel), s.rest[..n]);
    Regroup(s.accepted, s.rest[..n], s.rest[n..]);
    assert s.rest[..n] + s.rest[n..] == s.rest;
  }

  lemma StoredFields(d: Driver, data: seq<bv8>)
    requires d.Shape() && d.nb[d.sel] + |data| <= TX_BUFFERS
    ensures var d' := d.Stored(data);
            && d'.sel == d.sel && d'.ongoing == d.ongoing && d'.both == d.both && d'.sofNum == d.sofNum
            && d'.nb[1 - d.sel] == d.nb[1 - d.sel] && d'.nb[d.sel] == d.nb[d.sel] + |data|
  {
  }

  lemma SwitchHolds(s: State)
    requires Inv(s) && s.phase == Switch
    ensures Inv(Advance(s))
  {
    if !s.d.ongoing {
      var full, empty := s.d.Contents(s.d.sel), s.d.Contents(1 - s.d.sel);
      assert empty == [];
      assert s.wire + empty + full == s.wire + full + empty;
    }
  }

  lemma ThreadHolds(s: State)
    requires Inv(s)
    ensures Inv(Advance(s))
  {
    match s.phase {
      case Store => StoreHolds(s);
      case Switch => SwitchHolds(s);
      case _ => TestHolds(s);
    }
  }

  /** A test changes only where the thread stands. */
  lemma TestHolds(s: State)
    requires Inv(s) && s.phase != Store && s.phase != Switch
    ensures Inv(Advance(s))
  {
    hide Driver.Stored, Driver.Contents, Driver.Switched, Fitting, Fifo;
    assert s.passed[..|s.passed| - |s.rest|] == s.accepted;
    assert s.accepted + [] == s.accepted;
    KeepsFifo(s, Advance(s));
  }

  lemma KeepsFifo(s: State, s': State)
    requires BuffersApart(s) && Fifo(s)
    requires s'.d == s.d && (s'.active ==> s.active) && s'.source == s.source && s'.size == s.size && s'.sent == s.sent
    requires s'.wire == s.wire && s'.accepted == s.accepted
    ensures BuffersApart(s') && Fifo(s')
  {
  }

  lemma FetchHolds(s: State)
    requires Inv(s)
    ensures Inv(Step(s, FetchByte))
  {
    if s.active && s.sent < s.size {
      hide Fifo;
      FetchKeepsFifo(s);
    }
  }

  lemma FetchKeepsFifo(s: State)
    requires BuffersApart(s) && Fifo(s) && s.active && s.sent < s.size
    ensures BuffersApart(Step(s, FetchByte)) && Fifo(Step(s, FetchByte))
  {
    var other := s.d.Contents(1 - s.d.sel);
    assert other[s.sent..] == [other[s.sent]] + other[s.sent + 1..];
    Regroup(s.wire, [other[s.sent]], other[s.sent + 1..]);
  }

  lemma DoneHolds(s: State, granted: bool)
    requires Inv(s)
    ensures Inv(Step(s, TransferDone(granted)))
  {
    if s.active && s.sent == s.size {
      assert OtherPending(s) == [];
      SendHolds(s.(d := s.d.Released(), active := false), granted);
    }
  }

  lemma BeginHolds(s: State, rest: seq<bv8>, unit: nat)
    requires Inv(s)
    ensures Inv(Begin(s, rest, unit))
  {
    hide Fifo;
    KeepsFifo(s, Begin(s, rest, unit));
  }

  lemma StepHolds(s: State, e: Event)
    requires Inv(s)
    ensures Inv(Step(s, e))
  {
    hide Begin, Advance, SendNext;
    match e {
      case Putc(value, nineBits) => BeginHolds(s, PutcBytes(value, nineBits), 1);
      case WriteBuf(data) => BeginHolds(s, data, |data|);
      case AppStep => ThreadHolds(s);
      case Sof(frame, granted) => SofHolds(s, frame, granted);
      case FetchByte => FetchHolds(s);
      case TransferDone(granted) => DoneHolds(s, granted);
      case _ =>
        hide Fifo;
        KeepsFifo(s, Step(s, e));
    }
  }

  // ---- Over every run ----------------------------------------------------------------

  function Run(s: State, events: seq<Event>): (r: State)
    requires s.d.Shape()
    ensures r.d.Shape()
    decreases |events|
  {
    if events == [] then s else Run(Step(s, events[0]), events[1..])
  }

  lemma {:induction false} RunHolds(s: State, events: seq<Event>)
    requires Inv(s)
    ensures Inv(Run(s, events))
    decreases |events|
  {
    hide Step, Fifo, ThreadReady, WellPaced;
    if events != [] {
      StepHolds(s, events[0]);
      RunHolds(Step(s, events[0]), events[1..]);
    }
  }

  /** Whatever the interleaving of the application thread with the interrupts and the controller: the
      bytes on the wire, the buffer that is not selected and the selected buffer are together the
      bytes the application stored, which are the bytes it passed less those still to be stored or
      reported back. The thread stores only where there is room and never in the buffer being sent,
      and that buffer still holds the bytes that were handed over. */
  lemma FifoInEveryRun(bufs: seq<seq<bv8>>, frame: nat, running: bool, granted: bool, events: seq<Event>)
    requires |bufs| == 2 && |bufs[0]| == |bufs[1]| == TX_BUFFERS
    ensures var s := Run(Start(bufs, frame, running, granted), events);
            && (s.d.ongoing ==> s.sent <= s.d.nb[1 - s.d.sel])
            && s.wire + OtherPending(s) + s.d.Contents(s.d.sel) == s.accepted
            && s.passed == s.accepted + s.rest && (s.phase == Idle ==> s.rest == [])
            && (s.phase == Store ==> s.d.nb[s.d.sel] < TX_BUFFERS)
            && (s.active ==> s.source != s.d.sel && s.source < 2 && s.transfers != []
                             && Last(s.transfers).payload == s.d.bufs[s.source][..s.d.nb[s.source]])
            && Paced(s.transfers) && ShortIfNotFull(s.transfers)
  {
    hide SendNext;
    StartHolds(bufs, frame, running, granted);
    RunHolds(Start(bufs, frame, running, granted), events);
  }

  // ---- What a call does --------------------------------------------------------------

  /** The application thread makes `k` steps undisturbed. */
  function Steps(s: State, k: nat): (r: State)
    requires s.d.Shape()
    ensures r.d.Shape()
    decreases k
  {
    if k == 0 then s else Steps(Advance(s), k - 1)
  }

  lemma OneStep(s: State, k: nat)
    requires s.d.Shape()
    ensures Steps(s, k + 1) == Steps(Advance(s), k) && Steps(s, 0) == s
  {
    hide Advance;
  }

  /** With room in the selected buffer a call stores as much of the rest as it may at a time and as fits. */
  lemma CallStores(s: State)
    requires Inv(s) && s.phase == FirstTest && s.rest != [] && 0 < s.unit && s.d.nb[s.d.sel] < TX_BUFFERS
    ensures var n := Min(Min(s.unit, |s.rest|), TX_BUFFERS - s.d.nb[s.d.sel]);
            0 < n && Steps(s, 2).accepted == s.accepted + s.rest[..n] && Steps(s, 2).rest == s.rest[n..]
  {
    hide Fifo, WellPaced, Driver.Stored;
    OneStep(s, 1);
    OneStep(Advance(s), 0);
    OneStep(Advance(Advance(s)), 0);
  }

  /** Without room a call goes on in the other buffer if that is free. */
  lemma CallSwitches(s: State)
    requires Inv(s) && s.phase == FirstTest && s.d.nb[s.d.sel] == TX_BUFFERS && !s.d.both && !s.d.ongoing
    ensures Steps(s, 4) == s.(phase := Store, d := s.d.Switched())
    ensures s.d.Switched().nb[s.d.Switched().sel] == 0
  {
    hide Fifo, WellPaced, ThreadReady, Driver.Stored;
    OneStep(s, 3);
    var a := Advance(s);
    assert a == s.(phase := BothTest);
    OneStep(a, 2);
    var b := Advance(a);
    assert b == s.(phase := Switch);
    OneStep(b, 1);
    var c := Advance(b);
    assert c == s.(phase := FinalTest, d := s.d.Switched());
    OneStep(c, 0);
    OneStep(Advance(c), 0);
  }

  /** With no buffer free it tries again while the interface is running, and reports the rest if it is not. */
  lemma CallWaits(s: State)
    requires Inv(s) && s.phase == FirstTest && s.d.nb[s.d.sel] == TX_BUFFERS && (s.d.both || s.d.ongoing)
    ensures Steps(s, if s.d.both then 4 else 5) == if s.running then s else s.(phase := Idle, rest := [], passed := s.accepted)
  {
    hide Fifo, WellPaced, Driver.Stored;
    var a := s.(phase := BothTest);
    var b := s.(phase := Switch);
    var c := s.(phase := FinalTest);
    var d := s.(phase := RunningTest);
    assert Advance(s) == a && Advance(c) == d;
    assert Advance(a) == if s.d.both then c else b;
    assert !s.d.both ==> Advance(b) == c;
    GaveUp(s, d);
    hide Advance;
    OneStep(d, 0);
    OneStep(c, 1);
    OneStep(Advance(d), 0);
    if s.d.both {
      OneStep(s, 3);
      OneStep(a, 2);
    } else {
      OneStep(s, 4);
      OneStep(a, 3);
      OneStep(b, 2);
    }
  }

  lemma GaveUp(s: State, d: State)
    requires Inv(s) && d == s.(phase := RunningTest)
    ensures Advance(d) == if s.running then s.(phase := FirstTest) else s.(phase := Idle, rest := [], passed := s.accepted)
  {
    assert s.passed[..|s.passed| - |s.rest|] == s.accepted;
  }

  /** The interface is running exactly if it was and has not been disabled since. */
  lemma {:induction false} RunsUntilDisabled(s: State, events: seq<Event>)
    requires s.d.Shape()
    ensures Run(s, events).running <==> s.running && Disabled !in events
    decreases |events|
  {
    hide Step;
    if events != [] {
      RunsUntilDisabled(Step(s, events[0]), events[1..]);
      RunsStep(s, events[0]);
    }
  }

  lemma RunsStep(s: State, e: Event)
    requires s.d.Shape()
    ensures Step(s, e).running <==> s.running && e != Disabled
  {
    hide Driver.AfterSend, Driver.SendRequest, Driver.Released, Driver.Switched, Driver.Stored, Driver.HasRoom;
  }

  /** While the interface is running no call reports a rest: what was passed stays passed. */
  lemma {:induction false} RunningKeepsPassed(s: State, events: seq<Event>)
    requires s.d.Shape() && s.running && Disabled !in events
    ensures Run(s, events).running && s.passed <= Run(s, events).passed
    decreases |events|
  {
    hide Step;
    if events != [] {
      RunningStep(s, events[0]);
      RunningKeepsPassed(Step(s, events[0]), events[1..]);
    }
  }

  lemma RunningStep(s: State, e: Event)
    requires s.d.Shape() && s.running && e != Disabled
    ensures Step(s, e).running && s.passed <= Step(s, e).passed
  {
  }

  // ---- What the controller is asked for ----------------------------------------------

  /** What a request names: the next bytes after those on the wire, in a buffer that the application does not
      store into afterwards, as a short packet exactly if it does not fill the buffer. */
  ghost predicate AsksForNext(d: Driver, frame: nat, wire: seq<bv8>, accepted: seq<bv8>)
    requires d.Shape()
  {
    match d.SendRequest(frame)
    case NoRequest => d.ongoing || frame == d.sofNum
    case Request(b, short, size) =>
      && !d.ongoing && frame != d.sofNum
      && b != d.AfterSend(frame).sel && d.AfterSend(frame).ongoing
      && wire + d.bufs[b][..size] <= accepted && (!d.both ==> wire + d.bufs[b][..size] == accepted)
      && (short <==> size < TX_BUFFERS)
  }

  lemma RequestIsNext(s: State, frame: nat)
    requires Inv(s)
    ensures AsksForNext(s.d, frame, s.wire, s.accepted)
  {
    if s.d.Sends(frame) {
      var other, selected := s.d.Contents(1 - s.d.sel), s.d.Contents(s.d.sel);
      assert s.wire + other + selected == s.accepted;
      if !s.d.both {
        assert other == [];
        assert s.wire + [] + selected == s.wire + selected;
      }
    }
  }

  /** In every run, at every frame and after every transfer that ends, the driver asks for the bytes that come
      next, or asks for nothing because a transfer is ongoing or a short packet was sent in this frame. */
  lemma RequestsInEveryRun(bufs: seq<seq<bv8>>, frame: nat, running: bool, granted: bool, events: seq<Event>, now: nat)
    requires |bufs| == 2 && |bufs[0]| == |bufs[1]| == TX_BUFFERS
    ensures var s := Run(Start(bufs, frame, running, granted), events);
            && AsksForNext(s.d, now, s.wire, s.accepted)
            && (s.active && s.sent == s.size ==> AsksForNext(s.d.Released(), now, s.wire, s.accepted))
  {
    hide Run, SendNext, AsksForNext;
    StartHolds(bufs, frame, running, granted);
    RunHolds(Start(bufs, frame, running, granted), events);
    var s := Run(Start(bufs, frame, running, granted), events);
    RequestIsNext(s, now);
    if s.active && s.sent == s.size {
      ReleaseHolds(s);
      RequestIsNext(s.(d := s.d.Released(), active := false), now);
    }
  }

  lemma ReleaseHolds(s: State)
    requires Inv(s) && s.active && s.sent == s.size
    ensures Inv(s.(d := s.d.Released(), active := false))
  {
    assert OtherPending(s) == [];
  }

  /** After a full buffer the next transfer starts at once, except in frame 0, and after a short packet in any
      other frame. */
  lemma DoneGoesOn(s: State, granted: bool)
    requires Inv(s) && s.active && s.sent == s.size
    ensures var r := Step(s, TransferDone(granted));
            && s.transfers != []
            && (r.d.ongoing <==> s.frame != if Last(s.transfers).short then Last(s.transfers).frame else 0)
            && (r.d.ongoing <==> |r.transfers| == |s.transfers| + 1)
  {
  }

  // ---- Everything gets out -----------------------------------------------------------

  /** A transfer is marked as ongoing that the controller does not work on. */
  predicate Stuck(s: State) {
    s.d.ongoing && !s.active
  }

  /** The controller's transfer is aborted, or the next one is refused. */
  predicate Loses(s: State, e: Event) {
    match e
    case Sof(frame, granted) => s.d.Sends(frame) && !granted
    case TransferDone(granted) => s.active && s.sent == s.size && s.d.sofNum != s.frame && !granted
    case TransferAborted => s.active
    case _ => false
  }

  /** Some transfer is lost on the way. */
  predicate LosesOne(s: State, events: seq<Event>)
    requires s.d.Shape()
    decreases |events|
  {
    events != [] && (Loses(s, events[0]) || LosesOne(Step(s, events[0]), events[1..]))
  }

  /** The controller fetches the rest of the buffer. */
  function FetchRest(s: State): (r: State)
    requires s.d.Shape()
    ensures r.d.Shape()
    decreases s.size - s.sent
  {
    if s.active && s.sent < s.size <= TX_BUFFERS && s.source < 2 then FetchRest(Step(s, FetchByte)) else s
  }

  /** The controller finishes its transfer and two frames go by. */
  function Served(s: State, f: nat, g: nat): (r: State)
    requires s.d.Shape()
    ensures r.d.Shape()
  {
    Step(Step(Step(FetchRest(s), TransferDone(true)), Sof(f, true)), Sof(g, true))
  }

  lemma {:induction false} FetchRestSends(s: State)
    requires Inv(s)
    ensures var r := FetchRest(s);
            && Inv(r) && r == s.(sent := r.sent, wire := r.wire)
            && (s.active ==> r.sent == r.size && r.wire == s.wire + OtherPending(s))
    decreases s.size - s.sent
  {
    if s.active {
      hide Fifo, ThreadReady, WellPaced, Step, OtherPending, Driver.Contents;
      FetchedByte(s);
      if s.sent < s.size {
        FetchHolds(s);
        FetchRestSends(Step(s, FetchByte));
      }
    }
  }

  lemma FetchedByte(s: State)
    requires BuffersApart(s) && s.active
    ensures s.sent < s.size ==>
              var r := Step(s, FetchByte);
              && BuffersApart(r) && r == s.(sent := s.sent + 1, wire := r.wire)
              && r.wire + OtherPending(r) == s.wire + OtherPending(s)
    ensures s.sent == s.size ==> s.wire == s.wire + OtherPending(s)
  {
    hide Driver.Contents;
    if s.sent < s.size {
      ContentsAt(s.d, 1 - s.d.sel, s.sent);
      Regroup(s.wire, [s.d.bufs[s.source][s.sent]], s.d.Contents(1 - s.d.sel)[s.sent + 1..]);
    } else {
      ContentsEnd(s.d, 1 - s.d.sel);
      assert s.wire + [] == s.wire;
    }
  }

  lemma ContentsAt(d: Driver, i: nat, at: nat)
    requires d.Shape() && i < 2 && at < d.nb[i]
    ensures |d.Contents(i)| == d.nb[i]
    ensures d.Contents(i)[at..] == [d.bufs[i][at]] + d.Contents(i)[at + 1..]
  {
  }

  lemma ContentsEnd(d: Driver, i: nat)
    requires d.Shape() && i < 2
    ensures |d.Contents(i)| == d.nb[i] && d.Contents(i)[d.nb[i]..] == []
  {
  }

  /** One service leaves a transfer in progress; the second time round, everything is in it; the third
      time round it is all on the wire. */
  lemma ServedProgress(s: State, f: nat, g: nat)
    requires Inv(s) && s.phase == Idle && !Stuck(s) && f != g
    ensures var r := Served(s, f, g);
            && Inv(r) && r.phase == Idle && r.accepted == s.accepted && r.active
            && (s.active ==> r.d.nb[r.d.sel] == 0)
            && (s.active && s.d.nb[s.d.sel] == 0 ==> r.wire == r.accepted)
  {
    hide Fifo, ThreadReady, WellPaced, Driver.Contents;
    var a := FetchRest(s);
    FetchRestSends(s);
    var b := Step(a, TransferDone(true));
    DoneHolds(a, true);
    DoneFrees(a);
    var c := Step(b, Sof(f, true));
    SofHolds(b, f, true);
    FrameSends(b, f);
    SofHolds(c, g, true);
    FrameSends(c, g);
    if s.active && s.d.nb[s.d.sel] == 0 {
      AllInTransfer(s);
    }
    hide Step, FetchRest, OtherPending;
  }

  /** Once the next transfer is under way there is nothing outside it. */
  predicate LastFits(s: State)
    requires s.d.Shape()
  {
    if s.d.ongoing then s.d.nb[s.d.sel] == 0 else !s.d.both && s.d.nb[1 - s.d.sel] == 0
  }

  lemma DoneFrees(s: State)
    requires BuffersApart(s) && !Stuck(s) && (s.active ==> s.sent == s.size)
    ensures var r := Step(s, TransferDone(true));
            && !Stuck(r) && r.phase == s.phase && r.accepted == s.accepted && r.wire == s.wire
            && (s.active ==> LastFits(r))
  {
    hide Driver.Contents;
  }

  lemma FrameSends(s: State, f: nat)
    requires BuffersApart(s) && !Stuck(s)
    ensures var r := Step(s, Sof(f, true));
            && !Stuck(r) && r.phase == s.phase && r.accepted == s.accepted && r.wire == s.wire
            && (if s.active || f == s.d.sofNum then r.d == s.d && r.active == s.active else r.active)
            && (LastFits(s) ==> LastFits(r))
  {
    hide Driver.Contents;
  }

  lemma AllInTransfer(s: State)
    requires Inv(s) && s.d.nb[s.d.sel] == 0
    ensures s.wire + OtherPending(s) == s.accepted
  {
    assert s.d.Contents(s.d.sel) == [];
    assert s.wire + OtherPending(s) + [] == s.wire + OtherPending(s);
  }

  /** No byte stays behind: once the application pauses, three services bring everything it stored
      onto the wire exactly if no aborted or refused transfer is marked as ongoing, or everything
      was on the wire before. */
  lemma EverythingIsSent(s: State, f: nat, g: nat)
    requires Inv(s) && s.phase == Idle && f != g
    ensures var r := Served(Served(Served(s, f, g), f, g), f, g);
            && (r.wire == s.accepted <==> !Stuck(s) || s.wire == s.accepted)
            && s.accepted == s.passed
  {
    hide Served, Fifo;
    if Stuck(s) {
      StuckUnserved(s, f, g);
      StuckUnserved(Served(s, f, g), f, g);
      StuckUnserved(Served(Served(s, f, g), f, g), f, g);
    } else {
      ServedProgress(s, f, g);
      ServedProgress(Served(s, f, g), f, g);
      ServedProgress(Served(Served(s, f, g), f, g), f, g);
    }
    assert s.accepted + [] == s.accepted;
  }

  lemma StuckUnserved(s: State, f: nat, g: nat)
    requires s.d.Shape() && Stuck(s)
    ensures Served(s, f, g) == s.(frame := g)
  {
  }

  // ---- Any order of service ----------------------------------------------------------

  /** The application passes nothing. */
  predicate Pauses(e: Event) {
    !e.Putc? && !e.WriteBuf?
  }

  /** This event ends the controller's transfer. */
  predicate Completes(s: State, e: Event) {
    e.TransferDone? && s.active && s.sent == s.size
  }

  function Completions(s: State, events: seq<Event>): nat
    requires s.d.Shape()
    decreases |events|
  {
    if events == [] then 0
    else (if Completes(s, events[0]) then 1 else 0) + Completions(Step(s, events[0]), events[1..])
  }

  /** How many transfers have to end before everything is on the wire. */
  function Ahead(s: State): (n: nat)
    requires s.d.Shape()
    ensures n <= 2
  {
    if s.d.nb[s.d.sel] != 0 then (if s.d.ongoing || s.d.both then 2 else 1)
    else if s.d.nb[1 - s.d.sel] != (if s.d.ongoing then s.sent else 0) then 1
    else 0
  }

  lemma ServeStep(s: State, e: Event)
    requires Inv(s) && s.phase == Idle && !Stuck(s) && Pauses(e) && !Loses(s, e)
    ensures var r := Step(s, e);
            && Inv(r) && r.phase == Idle && !Stuck(r) && r.accepted == s.accepted
            && Ahead(r) <= (if Completes(s, e) && 0 < Ahead(s) then Ahead(s) - 1 else Ahead(s))
  {
    hide Fifo, ThreadReady, WellPaced, Driver.Contents, SendNext, RunOn;
    StepHolds(s, e);
    match e {
      case Sof(frame, granted) =>
        SendStep(s.(frame := frame), granted);
      case TransferDone(granted) => DoneStep(s, granted);
      case _ =>
    }
  }

  lemma SendStep(s: State, granted: bool)
    requires BuffersApart(s) && !Stuck(s) && (granted || !s.d.Sends(s.frame))
    ensures var r := SendNext(s, granted);
            !Stuck(r) && r.phase == s.phase && r.accepted == s.accepted && Ahead(r) <= Ahead(s)
  {
    hide Driver.Contents;
  }

  lemma DoneStep(s: State, granted: bool)
    requires BuffersApart(s) && !Stuck(s) && !Loses(s, TransferDone(granted))
    ensures var r := Step(s, TransferDone(granted));
            && !Stuck(r) && r.phase == s.phase && r.accepted == s.accepted
            && Ahead(r) <= (if Completes(s, TransferDone(granted)) && 0 < Ahead(s) then Ahead(s) - 1 else Ahead(s))
  {
    if s.active && s.sent == s.size {
      var t := s.(d := s.d.Released(), active := false);
      assert Ahead(t) <= 1 && (Ahead(s) <= 1 ==> Ahead(t) == 0);
      SendStep(t, granted);
      hide SendNext, Driver.Released;
    }
  }

  lemma {:induction false} ServeRun(s: State, events: seq<Event>)
    requires Inv(s) && s.phase == Idle && !Stuck(s) && !LosesOne(s, events) && (forall e | e in events :: Pauses(e))
    requires Ahead(s) <= Completions(s, events)
    ensures Inv(Run(s, events)) && Run(s, events).accepted == s.accepted && Ahead(Run(s, events)) == 0
    decreases |events|
  {
    hide Fifo, ThreadReady, WellPaced, Step, Ahead, Loses;
    if events != [] {
      ServeStep(s, events[0]);
      ServeRun(Step(s, events[0]), events[1..]);
    }
  }

  /** In whatever order the controller fetches bytes, frames start and transfers end: once the
      application pauses and no transfer is lost, everything it stored is on the wire
      when two transfers have ended. */
  lemma TwoTransfersSendAll(s: State, events: seq<Event>)
    requires Inv(s) && s.phase == Idle && !Stuck(s) && !LosesOne(s, events) && (forall e | e in events :: Pauses(e))
    requires 2 <= Completions(s, events)
    ensures Run(s, events).wire == s.accepted == s.passed
  {
    hide Run, Completions, Step;
    ServeRun(s, events);
    var r := Run(s, events);
    AllInTransfer(r);
    assert OtherPending(r) == [];
    assert r.wire + [] == r.wire && s.accepted + [] == s.accepted;
  }

  // ---- A transfer that never ends ----------------------------------------------------

  lemma StuckStep(s: State, e: Event)
    requires BuffersApart(s)
    ensures Stuck(Step(s, e)) <==> Stuck(s) || Loses(s, e)
  {
    hide Driver.Contents;
  }

  /** A session gets stuck exactly by losing a transfer. */
  lemma {:induction false} StuckExactly(s: State, events: seq<Event>)
    requires Inv(s)
    ensures Stuck(Run(s, events)) <==> Stuck(s) || LosesOne(s, events)
    decreases |events|
  {
    hide Step, Fifo, ThreadReady, WellPaced, Stuck, Loses;
    if events != [] {
      StuckStep(s, events[0]);
      StepHolds(s, events[0]);
      StuckExactly(Step(s, events[0]), events[1..]);
    }
  }

  /** Once stuck, a session sends nothing more, whatever happens. */
  lemma {:induction false} StuckForever(s: State, events: seq<Event>)
    requires s.d.Shape() && Stuck(s)
    ensures Stuck(Run(s, events)) && Run(s, events).wire == s.wire && Run(s, events).transfers == s.transfers
    decreases |events|
  {
    hide Step;
    if events != [] {
      StuckSends(s, events[0]);
      StuckForever(Step(s, events[0]), events[1..]);
    }
  }

  lemma StuckSends(s: State, e: Event)
    requires s.d.Shape() && Stuck(s)
    ensures var r := Step(s, e); Stuck(r) && r.wire == s.wire && r.transfers == s.transfers
  {
  }

  /** A session whose first transfer is aborted: the byte stored afterwards is never sent. */
  lemma AbortLosesBytes(bufs: seq<seq<bv8>>, b: bv8, events: seq<Event>)
    requires |bufs| == 2 && |bufs[0]| == |bufs[1]| == TX_BUFFERS
    ensures var s := Run(Start(bufs, 1, true, true), [TransferAborted, WriteBuf([b]), AppStep, AppStep]);
            s.phase == Idle && s.accepted == [b] && Run(s, events).wire == []
  {
    var s := Start(bufs, 1, true, true);
    var s1 := Step(s, TransferAborted);
    var s2 := Step(s1, WriteBuf([b]));
    var s3 := Step(s2, AppStep);
    var s4 := Step(s3, AppStep);
    assert s4.phase == Idle && s4.accepted == [b] && s4.wire == [] && Stuck(s4);
    RunFour(s, TransferAborted, WriteBuf([b]), AppStep, AppStep);
    StuckForever(s4, events);
  }

  lemma RunFour(s: State, a: Event, b: Event, c: Event, d: Event)
    requires s.d.Shape()
    ensures Run(s, [a, b, c, d]) == Step(Step(Step(Step(s, a), b), c), d)
  {
    hide Step;
    FirstStep(s, a, [b, c, d]);
    FirstStep(Step(s, a), b, [c, d]);
    FirstStep(Step(Step(s, a), b), c, [d]);
    FirstStep(Step(Step(Step(s, a), b), c), d, []);
  }

  lemma FirstStep(s: State, e: Event, rest: seq<Event>)
    requires s.d.Shape()
    ensures Run(s, [e] + rest) == Run(Step(s, e), rest)
  {
    hide Step;
    assert ([e] + rest)[1..] == rest;
  }
}
