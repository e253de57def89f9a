/** The control endpoint of the USB device driver: SETUP, DATA and STATUS stages driven by the events
    of the USB controller. `Control` is its state as a value, together with the controller's flags
    and banks and a history of what happened; `ControlEndpoint` is the driver itself. */
module ControlPipe {
  import opened Basics
  import opened UsbRequest

  const EP_SIZE := 64

  datatype Stage = SetupStage | DataOut | DataIn | WaitInZlp | WaitOutZlp | Stalled

  /** History: a request was accepted, the callback of a request was run or dropped, or the bus was reset. A
      callback run carries the request's value, and whether by then the host had completed the status
      stage or sent the next SETUP. */
  datatype Entry =
    | Accepted(req: Setup, callback: Callback)
    | Ran(callback: Callback, wValue: nat, over: bool)
    | Dropped(callback: Callback)
    | Reset

  /** `udd_g_ctrlreq`. */
  datatype Request = Request(setup: Setup, payload: seq<byte>, size: nat, callback: Callback)

  /** The controller: packets received and not yet acknowledged, the IN packet that waits for the host,
      and the flags of endpoint 0. */
  datatype Usbb = Usbb(setup: Option<seq<byte>>, out: Option<seq<byte>>, bank: Option<seq<byte>>,
                       inSendInt: bool, nakIn: bool, nakOut: bool, nakInInt: bool, nakOutInt: bool, stall: bool)

  /** What happened since the last SETUP was handled: `taken` are the IN packets the host took, `offer` the
      data that the answer offers, `packets` the OUT packets read for it, `room` how many of their bytes
      the answer has room for; `over` says that the host has taken a packet or sent a SETUP since the
      request was accepted. `log` is the whole history. */
  datatype Past = Past(taken: seq<seq<byte>>, offer: seq<byte>, packets: seq<seq<byte>>, room: nat, over: bool, log: seq<Entry>)

  datatype Control = Control(req: Request, stage: Stage, nbTrans: nat, prevNbTrans: nat, needInZlp: bool, address: nat,
                             usb: Usbb, past: Past)
  {
    // ---- Parts of the handlers -------------------------------------------------------

    /** `udd_ctrl_endofrequest`. */
    function EndOfRequest(): Control {
      if req.callback == NoCallback then this else
      this.(past := past.(log := past.log + [Ran(req.callback, req.setup.wValue, past.over)]),
            address := if req.callback == ValidAddress then req.setup.wValue % 128 else address)
    }

    /** `udd_ctrl_init`. */
    function Init(): Control {
      this.(usb := usb.(inSendInt := false, out := None), req := req.(callback := NoCallback, size := 0), stage := SetupStage)
    }

    /** The driver forgets a callback that has not been run. */
    function Abandoned(): Control {
      if req.callback == NoCallback then this else this.(past := past.(log := past.log + [Dropped(req.callback)]))
    }

    /** `udd_ctrl_stall_data`. */
    function StallData(): Control {
      this.(stage := Stalled, usb := usb.(stall := true))
    }

    /** `udd_ctrl_send_zlp_in`. */
    function SendZlpIn(): Control {
      this.(stage := WaitInZlp, usb := usb.(bank := Some([]), inSendInt := true, nakOut := false, nakOutInt := true))
    }

    /** The empty packet of the status stage waits for the host, and OUT data in the place of it would be noticed. */
    predicate OffersStatus() {
      stage == WaitInZlp && usb.bank == Some([]) && usb.inSendInt && !usb.nakOut && usb.nakOutInt
    }

    /** `udd_ctrl_send_zlp_out`. */
    function SendZlpOut(): Control {
      this.(stage := WaitOutZlp, usb := usb.(nakIn := false, nakInInt := true))
    }

    /** To notice a protocol error while OUT data is expected. */
    function WatchIn(): Control {
      this.(usb := usb.(nakIn := false, nakInInt := true))
    }

    // ---- Handlers --------------------------------------------------------------------

    /** `udd_ctrl_setup_received`; `a` is the core's answer. */
    function SetupReceived(a: Answer): Control
      requires usb.setup.Some?
    {
      var c := Cleared();
      if |usb.setup.value| != 8 then c.Refuse()
      else if !a.accepted then c.Asked(ParseSetup(usb.setup.value), a).Refuse()
      else c.Asked(ParseSetup(usb.setup.value), a).Grant().Start()
    }

    /** A request that was not over is ended by the next one. */
    function Cleared(): Control {
      var c := if stage != SetupStage then EndOfRequest().Init() else this;
      c.(past := Past([], [], [], 0, past.over, c.past.log))
    }

    function Asked(setup: Setup, a: Answer): Control {
      this.(req := Request(setup, a.payload, a.size, a.callback))
    }

    function Refuse(): Control {
      var c := StallData();
      c.(usb := c.usb.(setup := None))
    }

    function Grant(): Control {
      this.(usb := usb.(setup := None),
            past := past.(over := false, log := past.log + [Accepted(req.setup, req.callback)]))
    }

    /** The first step of an accepted request. */
    function Start(): Control {
      if req.setup.IsIn() then
        this.(needInZlp := req.size % EP_SIZE == 0, prevNbTrans := 0, nbTrans := 0, stage := DataIn,
              past := past.(offer := if req.size <= |req.payload| then req.payload[..req.size] else [])).InSent()
      else if req.setup.wLength == 0 then SendZlpIn()
      else this.(prevNbTrans := 0, nbTrans := 0, stage := DataOut, past := past.(room := req.size)).WatchIn()
    }

    /** `udd_ctrl_in_sent`. */
    function InSent(): Control {
      var c := this.(usb := usb.(inSendInt := false));
      if stage == WaitInZlp then c.EndOfRequest().Init()
      else if req.size == nbTrans && !needInZlp then c.SendZlpOut()
      else c.(needInZlp := needInZlp && req.size != nbTrans).SendNext()
    }

    /** The next packet of the data stage, unless the host has given it up. */
    function SendNext(): Control {
      if usb.out.Some? then this.(stage := WaitOutZlp) else
      var n := if req.size - nbTrans > EP_SIZE then EP_SIZE else req.size - nbTrans;
      if 0 <= n && nbTrans + n <= |req.payload| then
        this.(usb := usb.(bank := Some(req.payload[nbTrans..nbTrans + n]), inSendInt := true), nbTrans := nbTrans + n)
      else this
    }

    /** `udd_ctrl_out_received`. */
    function OutReceived(): Control
      requires usb.out.Some?
    {
      if stage == DataOut then
        var data := usb.out.value;
        var n := if req.size < nbTrans + |data| then req.size - nbTrans else |data|;
        if n < 0 || |req.payload| < nbTrans + n then this else
        this.(req := req.(payload := Overwrite(req.payload, nbTrans, data[..n])), nbTrans := nbTrans + n,
              past := past.(packets := past.packets + [data])).OutStored(n)
      else if stage == DataIn || stage == WaitOutZlp then EndOfRequest().Init()
      else Abandoned().StallData().Init()
    }

    /** After `n` bytes of an OUT packet were stored. */
    function OutStored(n: nat): Control {
      var c := this.(usb := usb.(out := None));
      if n != EP_SIZE || req.setup.wLength <= prevNbTrans + nbTrans then
        c.(req := req.(size := nbTrans)).SendZlpIn()
      else if req.size == nbTrans then c.StallData()
      else c.WatchIn()
    }

    /** `udd_ctrl_underflow`: the host asks for IN data there is none of. */
    function Underflow(): Control {
      if usb.out.Some? then this
      else if stage == DataOut then SendZlpIn()
      else if stage == WaitOutZlp then this.(usb := usb.(stall := true))
      else this
    }

    /** `udd_ctrl_overflow`: the host sends OUT data there is no room for. */
    function Overflow(): Control {
      if usb.bank.None? then this else if stage == WaitInZlp then this.(usb := usb.(stall := true)) else this
    }

    predicate Pending() {
      || usb.setup.Some? || usb.out.Some? || (usb.bank.None? && usb.inSendInt)
      || (usb.nakIn && usb.nakInInt) || (usb.nakOut && usb.nakOutInt)
    }

    /** `udd_ctrl_interrupt`; `a` answers the SETUP packet if there is one. */
    function Interrupt(a: Answer): Control {
      if !Pending() then this else
      var c := this.(usb := usb.(nakInInt := false, nakOutInt := false));
      if usb.setup.Some? then c.SetupReceived(a) else c.Served()
    }

    /** The other events are served in this order, one at a time. */
    function Served(): Control {
      if usb.bank.None? && usb.inSendInt then InSent()
      else if usb.out.Some? then OutReceived()
      else if usb.nakOut then this.(usb := usb.(nakOut := false)).Overflow()
      else if usb.nakIn then this.(usb := usb.(nakIn := false)).Underflow()
      else this
    }

    /** A bus reset returns the controller and the driver to their initial state. */
    function BusReset(): Control {
      this.(usb := Usbb(None, None, None, false, false, false, false, false, false), address := 0,
            past := Past([], [], [], 0, past.over, past.log + [Reset])).Init()
    }

    // ---- The host --------------------------------------------------------------------

    /** A SETUP packet is always received; the controller gives up the IN packet and the stall. */
    function HostSetup(bytes: seq<byte>): Control {
      this.(usb := usb.(setup := Some(bytes), bank := None, stall := false), past := past.(over := true))
    }

    function HostIn(): Control {
      if usb.stall then this
      else if usb.bank.Some? then
        this.(past := past.(taken := past.taken + [usb.bank.value], over := true), usb := usb.(bank := None))
      else this.(usb := usb.(nakIn := true))
    }

    function HostOut(data: seq<byte>): Control {
      if usb.stall || |data| > EP_SIZE then this
      else if usb.out.Some? then this.(usb := usb.(nakOut := true))
      else this.(usb := usb.(out := Some(data)))
    }
  }

  /** `buffer` with `data` stored from index `at` on. */
  function Overwrite(buffer: seq<byte>, at: nat, data: seq<byte>): (r: seq<byte>)
    requires at + |data| <= |buffer|
    ensures |r| == |buffer|
  {
    buffer[..at] + data + buffer[at + |data|..]
  }

  datatype Event =
    | HostSetup(bytes: seq<byte>) | HostIn | HostOut(data: seq<byte>)
    | Interrupt(answer: Answer)
    | BusReset

  /** An interrupt comes with the core's answer to the SETUP packet, whatever proper answer that is. */
  function Step(c: Control, e: Event): Control {
    match e
    case HostSetup(bytes) => c.HostSetup(bytes)
    case HostIn => c.HostIn()
    case HostOut(data) => c.HostOut(data)
    case Interrupt(a) => c.Interrupt(ProperAnswer(c, a))
    case BusReset => c.BusReset()
  }

  function ProperAnswer(c: Control, a: Answer): (r: Answer)
    ensures c.usb.setup.Some? && |c.usb.setup.value| == 8 ==> Proper(ParseSetup(c.usb.setup.value), r)
  {
    if c.usb.setup.Some? && |c.usb.setup.value| == 8 && Proper(ParseSetup(c.usb.setup.value), a) then a else Refused()
  }

  // ---- Packets -----------------------------------------------------------------------

  /** How a control transfer carries data, section 5.5.3 of the USB 2.0 specification: full packets and
      then a shorter one, possibly empty. */
  function Packets(data: seq<byte>): (ps: seq<seq<byte>>)
    ensures |ps| == |data| / EP_SIZE + 1
  {
    if |data| < EP_SIZE then [data] else [data[..EP_SIZE]] + Packets(data[EP_SIZE..])
  }

  function Joined(ps: seq<seq<byte>>): seq<byte> {
    if ps == [] then [] else ps[0] + Joined(ps[1..])
  }

  lemma {:induction false} JoinedMore(ps: seq<seq<byte>>, p: seq<byte>)
    ensures Joined(ps + [p]) == Joined(ps) + p
  {
    if ps == [] {
      assert [p][1..] == [] && p + [] == p && [] + p == p;
      assert [] + [p] == [p];
    } else {
      JoinedMore(ps[1..], p);
      assert (ps + [p])[1..] == ps[1..] + [p];
      Regroup(ps[0], Joined(ps[1..]), p);
    }
  }

  lemma {:induction false} PacketsJoin(data: seq<byte>)
    ensures Joined(Packets(data)) == data
  {
    if |data| >= EP_SIZE {
      PacketsJoin(data[EP_SIZE..]);
      assert Packets(data)[1..] == Packets(data[EP_SIZE..]);
    } else {
      assert Packets(data)[1..] == [];
      assert Joined([data]) == data + [];
    }
  }

  lemma {:induction false} PacketAt(data: seq<byte>, n: nat)
    requires n < |Packets(data)|
    ensures Packets(data)[n] == data[EP_SIZE * n..if EP_SIZE * n + EP_SIZE <= |data| then EP_SIZE * n + EP_SIZE else |data|]
  {
    if n > 0 {
      PacketAt(data[EP_SIZE..], n - 1);
    }
  }

  /** All packets but the last are full, and the last is not. */
  lemma PacketSizes(data: seq<byte>, n: nat)
    requires n < |Packets(data)|
    ensures if n + 1 < |Packets(data)| then |Packets(data)[n]| == 64 else |Packets(data)[n]| < 64
  {
    PacketAt(data, n);
  }

  /** No prefix of the packets carries more than the data. */
  lemma {:induction false} PrefixFits(data: seq<byte>, n: nat)
    requires n <= |Packets(data)|
    ensures Joined(Packets(data)[..n]) <= data
  {
    if n > 0 {
      var ps := Packets(data)[..n];
      if |data| >= EP_SIZE {
        PrefixFits(data[EP_SIZE..], n - 1);
        assert ps[1..] == Packets(data[EP_SIZE..])[..n - 1];
      } else {
        assert ps[1..] == [];
        assert Joined(ps) == data + [];
      }
    }
  }

  // ---- The history -------------------------------------------------------------------

  /** The last entry is a request whose callback is still to come. */
  predicate Awaits(log: seq<Entry>) {
    log != [] && log[|log| - 1].Accepted? && log[|log| - 1].callback != NoCallback
  }

  /** A callback is run or dropped right after its own request in the history, so at most once, and always
      before the next request; it is only run when the request is over. Only SET_ADDRESS has the address
      callback. */
  predicate Disciplined(log: seq<Entry>) {
    log == [] || (
      && Disciplined(log[..|log| - 1])
      && match log[|log| - 1] {
           case Accepted(req, callback) => (callback == ValidAddress ==> req.IsSetAddress()) && !Awaits(log[..|log| - 1])
           case Ran(callback, wValue, over) =>
             && over && 1 < |log| && log[|log| - 2].Accepted?
             && callback == log[|log| - 2].callback != NoCallback && wValue == log[|log| - 2].req.wValue
           case Dropped(callback) =>
             1 < |log| && log[|log| - 2].Accepted? && callback == log[|log| - 2].callback != NoCallback
           case Reset => true
         })
  }

  /** The device address that a history leads to. */
  function AddressOf(log: seq<Entry>): nat {
    if log == [] then 0 else
    match log[|log| - 1]
    case Reset => 0
    case Ran(ValidAddress, wValue, _) => wValue % 128
    case _ => AddressOf(log[..|log| - 1])
  }

  // ---- The invariant -----------------------------------------------------------------

  ghost predicate HistoryInv(c: Control) {
    && Disciplined(c.past.log) && c.address == AddressOf(c.past.log)
    && (c.req.callback != NoCallback <==> Awaits(c.past.log))
    && (c.req.callback != NoCallback ==>
          !c.req.setup.IsIn() && c.past.log[|c.past.log| - 1] == Accepted(c.req.setup, c.req.callback))
  }

  ghost predicate StageInv(c: Control) {
    && (c.stage == SetupStage ==> c.req.callback == NoCallback)
    && (c.usb.inSendInt ==> c.stage == DataIn || c.stage == WaitInZlp)
    && (c.stage == WaitInZlp ==> !c.req.setup.IsIn() && (c.usb.bank.Some? || c.past.over))
    && (c.stage == DataIn || c.stage == DataOut ==> !c.usb.stall)
    && (c.stage == DataIn || c.stage == WaitOutZlp ==> c.req.setup.IsIn())
    && (c.usb.setup.Some? ==> c.usb.bank.None? && c.past.over && !c.usb.stall)
    && (c.usb.out.Some? ==> |c.usb.out.value| <= EP_SIZE)
  }

  /** The number of packets handed to the controller for the host. */
  function Handed(c: Control): nat {
    |c.past.taken| + if c.usb.bank.Some? then 1 else 0
  }

  /** The packets taken, and the one that waits, are the first packets of what was offered. */
  ghost predicate InInv(c: Control) {
    && |c.past.offer| <= c.req.setup.wLength
    && Handed(c) <= |Packets(c.past.offer)|
    && c.past.taken == Packets(c.past.offer)[..|c.past.taken|]
    && (c.usb.bank.Some? ==> c.usb.bank.value == Packets(c.past.offer)[|c.past.taken|])
    && (c.stage == DataIn && c.usb.setup.None? ==> Progress(c))
  }

  /** Where the IN data stage stands. */
  ghost predicate Progress(c: Control) {
    && c.req.size <= |c.req.payload| && c.past.offer == c.req.payload[..c.req.size] && !c.usb.stall
    && var n := Handed(c);
       if n < |Packets(c.past.offer)| then c.nbTrans == EP_SIZE * n && c.needInZlp == (c.req.size % EP_SIZE == 0)
       else n == |Packets(c.past.offer)| && c.nbTrans == c.req.size && !c.needInZlp
  }

  /** How many bytes of these OUT packets are kept if there is room for `room`. */
  function Kept(packets: seq<seq<byte>>, room: nat): nat {
    Min(|Joined(packets)|, room)
  }

  /** The last of these packets ends the OUT data: fewer than 64 of its bytes were kept, or all the
      bytes the host announced are there. */
  predicate Ended(packets: seq<seq<byte>>, room: nat, wLength: nat) {
    packets != [] && var n := Kept(packets, room);
    n - Kept(packets[..|packets| - 1], room) != EP_SIZE || wLength <= n
  }

  /** What is stored is what the host sent, as far as there is room. */
  ghost predicate StoresFirst(c: Control) {
    && c.nbTrans == Kept(c.past.packets, c.past.room) <= c.past.room <= |c.req.payload|
    && c.req.payload[..c.nbTrans] == Joined(c.past.packets)[..c.nbTrans]
  }

  /** Besides, the size of the answer is cut to it if a packet ended the data; it is not if the host went on
      to the status stage before. */
  ghost predicate Stored(c: Control) {
    && StoresFirst(c)
    && (if Ended(c.past.packets, c.past.room, c.req.setup.wLength) then c.req.size == c.nbTrans
        else c.req.size == c.past.room && c.nbTrans == |Joined(c.past.packets)|)
  }

  ghost predicate OutInv(c: Control) {
    && (c.stage == DataOut ==>
          && !c.req.setup.IsIn() && 0 < c.req.setup.wLength && c.prevNbTrans == 0
          && !Ended(c.past.packets, c.past.room, c.req.setup.wLength)
          && c.past.taken == [] && c.usb.bank.None? && c.past.offer == [])
    && (c.stage == DataOut || (c.stage == WaitInZlp && 0 < c.req.setup.wLength) ==> Stored(c))
  }

  /** Whatever stage follows, what was stored stays until the next request, and while a callback is to come. */
  ghost predicate KeepsStored(c: Control) {
    && (c.stage == DataIn ==> c.past.packets == [])
    && (c.past.packets != [] || (c.req.callback != NoCallback && 0 < c.req.setup.wLength) ==> StoresFirst(c))
  }

  ghost predicate Inv(c: Control) {
    HistoryInv(c) && StageInv(c) && InInv(c) && OutInv(c) && (c.stage == DataIn || c.stage == WaitInZlp ==> c.usb.inSendInt)
  }

  // ---- Every step keeps it -----------------------------------------------------------

  lemma HostSetupHolds(c: Control, bytes: seq<byte>)
    requires Inv(c)
    ensures Inv(c.HostSetup(bytes))
  {
    hide Packets, AddressOf, Disciplined;
  }

  lemma HostInHolds(c: Control)
    requires Inv(c)
    ensures Inv(c.HostIn())
  {
    hide Packets, AddressOf, Disciplined;
    if !c.usb.stall && c.usb.bank.Some? {
      var ps := Packets(c.past.offer);
      assert ps[..|c.past.taken| + 1] == ps[..|c.past.taken|] + [ps[|c.past.taken|]];
    }
  }

  lemma HostOutHolds(c: Control, data: seq<byte>)
    requires Inv(c)
    ensures Inv(c.HostOut(data))
  {
    hide HistoryInv, InInv, OutInv;
    Unmoved(c, c.HostOut(data));
  }

  /** Most flags of the controller do not matter to the data. */
  lemma Unmoved(c: Control, c': Control)
    requires c' == c.(usb := c'.usb) && c'.usb.setup == c.usb.setup && c'.usb.bank == c.usb.bank
    requires c.stage == DataIn ==> c'.usb.stall == c.usb.stall
    ensures HistoryInv(c) ==> HistoryInv(c')
    ensures InInv(c) ==> InInv(c')
    ensures OutInv(c) ==> OutInv(c')
  {
    hide Packets, AddressOf, Disciplined;
  }

  /** A request that is broken off drops its callback. */
  lemma DropHolds(c: Control)
    requires HistoryInv(c) && StageInv(c) && InInv(c) && c.usb.setup.None?
    ensures Inv(c.Abandoned().StallData().Init())
  {
    hide Packets, InInv;
    var log := c.Abandoned().past.log;
    if c.req.callback != NoCallback {
      assert log[..|log| - 1] == c.past.log;
    }
    DropKeepsIn(c);
  }

  lemma DropKeepsIn(c: Control)
    requires InInv(c)
    ensures InInv(c.Abandoned().StallData().Init())
  {
    hide Packets;
  }

  /** The end of a request runs its callback once. */
  lemma EndHolds(c: Control)
    requires HistoryInv(c) && StageInv(c) && InInv(c) && (c.req.callback == NoCallback || c.past.over)
    ensures Inv(c.EndOfRequest().Init())
  {
    hide Packets, InInv;
    var log := c.EndOfRequest().past.log;
    if c.req.callback != NoCallback {
      assert log[..|log| - 1] == c.past.log;
    }
    EndKeepsIn(c);
  }

  lemma EndKeepsIn(c: Control)
    requires InInv(c)
    ensures InInv(c.EndOfRequest().Init())
  {
    hide Packets;
  }

  // ---- IN packet sent ----------------------------------------------------------------

  lemma InSentHolds(c: Control)
    requires HistoryInv(c) && StageInv(c) && InInv(c) && OutInv(c) && c.usb.setup.None? && c.usb.bank.None?
    requires c.stage == DataIn || c.stage == WaitInZlp
    ensures Inv(c.InSent())
  {
    hide HistoryInv, InInv, OutInv;
    var d := c.(usb := c.usb.(inSendInt := false));
    Unmoved(c, d);
    if c.stage == WaitInZlp {
      EndHolds(d);
    } else if c.req.size != c.nbTrans || c.needInZlp {
      SendNextHolds(c);
    } else {
      OutStays(d.SendZlpOut());
      LeaveIn(c, d.SendZlpOut());
    }
  }

  lemma LeaveIn(c: Control, c': Control)
    requires HistoryInv(c) && InInv(c) && c'.stage != DataIn
    requires c'.past == c.past && c'.req == c.req && c'.address == c.address && c'.usb.bank == c.usb.bank
    ensures HistoryInv(c') && InInv(c')
  {
  }

  /** The next packet is the next one of what was offered; an empty one is sent once, after full ones. */
  lemma NextPacket(payload: seq<byte>, size: nat, n: nat)
    requires size <= |payload| && n < |Packets(payload[..size])|
    ensures var nb := EP_SIZE * n; var k := if size - nb > EP_SIZE then EP_SIZE else size - nb;
            && 0 <= k && payload[nb..nb + k] == Packets(payload[..size])[n]
            && (if n + 1 < |Packets(payload[..size])| then nb + k == EP_SIZE * (n + 1) && (size % EP_SIZE == 0 ==> size != nb)
                else nb + k == size && !(size % EP_SIZE == 0 && size != nb))
  {
    PacketAt(payload[..size], n);
  }

  lemma SendNextHolds(c: Control)
    requires HistoryInv(c) && StageInv(c) && InInv(c) && OutInv(c) && c.usb.setup.None? && c.usb.bank.None? && c.stage == DataIn
    requires c.req.size != c.nbTrans || c.needInZlp
    ensures Inv(c.(usb := c.usb.(inSendInt := false), needInZlp := c.needInZlp && c.req.size != c.nbTrans).SendNext())
  {
    hide HistoryInv, InInv, OutInv, Progress;
    var d := c.(usb := c.usb.(inSendInt := false), needInZlp := c.needInZlp && c.req.size != c.nbTrans);
    OutStays(d.SendNext());
    HistoryStays(c, d.SendNext());
    SendNextIn(c, d);
  }

  lemma HistoryStays(c: Control, c': Control)
    requires HistoryInv(c)
    requires c'.past.log == c.past.log && c'.address == c.address
    requires c'.req.callback == c.req.callback && (c.req.callback != NoCallback ==> c'.req.setup == c.req.setup)
    ensures HistoryInv(c')
  {
  }

  lemma SendNextIn(c: Control, d: Control)
    requires InInv(c) && c.usb.setup.None? && c.usb.bank.None? && c.stage == DataIn && (c.req.size != c.nbTrans || c.needInZlp)
    requires d == c.(usb := c.usb.(inSendInt := false), needInZlp := c.needInZlp && c.req.size != c.nbTrans)
    ensures InInv(d.SendNext()) && (d.SendNext().stage == DataIn ==> d.SendNext().usb.inSendInt)
  {
    hide Packets;
    var n := |c.past.taken|;
    assert Handed(c) == n && n < |Packets(c.past.offer)|;
    if d.usb.out.None? {
      NextPacket(c.req.payload, c.req.size, n);
    }
  }

  lemma OutStays(c: Control)
    requires c.stage != DataOut && c.stage != WaitInZlp
    ensures OutInv(c)
  {
  }

  // ---- OUT packet received -----------------------------------------------------------

  lemma OutReceivedHolds(c: Control)
    requires Inv(c) && c.usb.setup.None? && c.usb.out.Some?
    ensures Inv(c.OutReceived())
  {
    hide HistoryInv, InInv, OutInv;
    if c.stage == DataOut {
      OutDataHolds(c);
    } else if c.stage == DataIn || c.stage == WaitOutZlp {
      NoCallbackIn(c);
      EndHolds(c);
    } else {
      DropHolds(c);
    }
  }

  lemma NoCallbackIn(c: Control)
    requires HistoryInv(c) && c.req.setup.IsIn()
    ensures c.req.callback == NoCallback
  {
  }

  lemma EmptyPackets()
    ensures Packets([]) == [[]]
  {
  }

  /** An OUT packet is appended to what is stored, as far as there is room. */
  lemma OutDataHolds(c: Control)
    requires Inv(c) && c.usb.setup.None? && c.usb.out.Some? && c.stage == DataOut
    ensures Inv(c.OutReceived())
  {
    hide HistoryInv, InInv, Stored, Control.OutReceived, Overwrite;
    OutDataFields(c);
    HistoryStays(c, c.OutReceived());
    ZlpIn(c, c.OutReceived());
    OutDataStored(c);
  }

  lemma OutDataFields(c: Control)
    requires c.usb.out.Some? && c.stage == DataOut && Stored(c)
    ensures var r := c.OutReceived();
            && r.past.log == c.past.log && r.past.over == c.past.over && r.past.taken == c.past.taken && r.past.offer == c.past.offer
            && r.address == c.address && r.req.setup == c.req.setup && r.req.callback == c.req.callback
            && r.usb.setup == c.usb.setup && r.usb.out.None?
            && (r.stage == DataOut || r.stage == Stalled || (r.stage == WaitInZlp && r.usb.bank == Some([]) && r.usb.inSendInt))
            && (r.stage == DataOut ==> r.usb.stall == c.usb.stall)
            && (r.stage != WaitInZlp ==> r.usb.bank == c.usb.bank && r.usb.inSendInt == c.usb.inSendInt)
  {
    hide Overwrite, Control.OutStored;
    var data := c.usb.out.value;
    var n := if c.req.size < c.nbTrans + |data| then c.req.size - c.nbTrans else |data|;
    OutStoredFields(c.(req := c.req.(payload := Overwrite(c.req.payload, c.nbTrans, data[..n])), nbTrans := c.nbTrans + n,
                       past := c.past.(packets := c.past.packets + [data])), n);
  }

  /** What OUT data leaves as it is. */
  predicate SameRequest(c: Control, r: Control) {
    && r.past == c.past && r.address == c.address && r.usb.setup == c.usb.setup
    && r.req.setup == c.req.setup && r.req.callback == c.req.callback && r.req.payload == c.req.payload
  }

  lemma OutStoredFields(c: Control, n: nat)
    requires c.stage == DataOut
    ensures var r := c.OutStored(n);
            && SameRequest(c, r) && r.usb.out.None?
            && (r.stage == DataOut || r.stage == Stalled || (r.stage == WaitInZlp && r.usb.bank == Some([]) && r.usb.inSendInt))
            && (r.stage == DataOut ==> r.usb.stall == c.usb.stall)
            && (r.stage != WaitInZlp ==> r.usb.bank == c.usb.bank && r.usb.inSendInt == c.usb.inSendInt)
  {
    var d := c.(usb := c.usb.(out := None));
    SendZlpInFields(d.(req := d.req.(size := d.nbTrans)));
    WaitFields(d);
    hide Control.SendZlpIn, Control.StallData, Control.WatchIn;
  }

  lemma SendZlpInFields(d: Control)
    ensures var r := d.SendZlpIn();
            && SameRequest(d, r) && r.req == d.req && r.nbTrans == d.nbTrans && r.usb.out == d.usb.out && r.usb.stall == d.usb.stall
            && r.OffersStatus()
  {
  }

  lemma WaitFields(d: Control)
    ensures var r := d.StallData();
            && SameRequest(d, r) && r.usb.out == d.usb.out && r.stage == Stalled
            && r.usb.bank == d.usb.bank && r.usb.inSendInt == d.usb.inSendInt
    ensures var r := d.WatchIn();
            && SameRequest(d, r) && r.usb.out == d.usb.out && r.stage == d.stage && r.usb.stall == d.usb.stall
            && r.usb.bank == d.usb.bank && r.usb.inSendInt == d.usb.inSendInt
  {
  }

  /** After OUT data, nothing or one empty packet is handed to the host. */
  lemma ZlpIn(c: Control, c': Control)
    requires InInv(c) && c.past.taken == [] && c.usb.bank.None? && c.past.offer == []
    requires c'.past.offer == [] && c'.past.taken == [] && c'.req.setup == c.req.setup && c'.stage != DataIn
    requires c'.usb.bank.None? || c'.usb.bank == Some([])
    ensures InInv(c')
  {
    EmptyPackets();
  }

  /** The state after an OUT packet is stored. */
  function AfterPacket(c: Control): Control
    requires c.usb.out.Some? && c.stage == DataOut && StoresFirst(c) && c.nbTrans <= c.req.size <= |c.req.payload|
  {
    var data := c.usb.out.value;
    var n := Min(|data|, c.req.size - c.nbTrans);
    c.(req := c.req.(payload := Overwrite(c.req.payload, c.nbTrans, data[..n])), nbTrans := c.nbTrans + n,
       past := c.past.(packets := c.past.packets + [data]))
  }

  lemma AfterPacketStores(c: Control)
    requires OutInv(c) && c.usb.out.Some? && c.stage == DataOut
    ensures c.nbTrans <= c.req.size == c.past.room <= |c.req.payload|
    ensures StoresFirst(AfterPacket(c))
    ensures var r := AfterPacket(c);
            r.nbTrans <= |r.req.payload| == |c.req.payload| && r.req.payload[r.nbTrans..] == c.req.payload[r.nbTrans..]
    ensures c.OutReceived() == AfterPacket(c).OutStored(AfterPacket(c).nbTrans - c.nbTrans)
  {
    hide Joined, Kept, Ended, Overwrite, Control.OutStored;
    var data := c.usb.out.value;
    var n := Min(|data|, c.req.size - c.nbTrans);
    KeptNow(c.past.packets, data, c.past.room);
    PacketStored(c.req.payload, c.past.packets, data, n);
    OverwriteKeeps(c.req.payload, c.nbTrans, data[..n]);
  }

  lemma OverwriteKeeps(buffer: seq<byte>, at: nat, data: seq<byte>)
    requires at + |data| <= |buffer|
    ensures Overwrite(buffer, at, data)[at + |data|..] == buffer[at + |data|..]
  {
  }

  lemma OutDataStored(c: Control)
    requires OutInv(c) && c.usb.out.Some? && |c.usb.out.value| <= EP_SIZE && c.stage == DataOut
    ensures OutInv(c.OutReceived())
  {
    hide Joined, Kept, Ended, Overwrite;
    var data := c.usb.out.value;
    AfterPacketStores(c);
    KeptNow(c.past.packets, data, c.past.room);
    EndedNow(c.past.packets, data, c.past.room, c.req.setup.wLength);
    hide Control.OutReceived, StoresFirst;
    var x := AfterPacket(c);
    var n := x.nbTrans - c.nbTrans;
    StoredSame(x, x.OutStored(n));
  }

  /** Storing depends on nothing else. */
  lemma StoredSame(x: Control, r: Control)
    requires StoresFirst(x) && r.past == x.past && r.req.payload == x.req.payload && r.nbTrans == x.nbTrans
    ensures StoresFirst(r)
  {
  }

  lemma KeptNow(packets: seq<seq<byte>>, data: seq<byte>, room: nat)
    ensures |Joined(packets + [data])| == |Joined(packets)| + |data|
    ensures Kept(packets, room) == Min(|Joined(packets)|, room)
    ensures Kept(packets + [data], room) == Min(|Joined(packets)| + |data|, room)
  {
    JoinedMore(packets, data);
  }

  lemma EndedNow(packets: seq<seq<byte>>, data: seq<byte>, room: nat, wLength: nat)
    ensures Ended(packets + [data], room, wLength)
       <==> Kept(packets + [data], room) - Kept(packets, room) != EP_SIZE || wLength <= Kept(packets + [data], room)
  {
    hide Kept;
    assert (packets + [data])[..|packets|] == packets;
  }

  lemma PacketStored(payload: seq<byte>, packets: seq<seq<byte>>, data: seq<byte>, n: nat)
    requires var at := |Joined(packets)|; n <= |data| && at + n <= |payload| && payload[..at] == Joined(packets)
    ensures var at := |Joined(packets)|;
            && at + n <= |Joined(packets + [data])|
            && Overwrite(payload, at, data[..n])[..at + n] == Joined(packets + [data])[..at + n]
  {
    hide Joined;
    var at := |Joined(packets)|;
    JoinedMore(packets, data);
    assert Overwrite(payload, at, data[..n])[..at + n] == Joined(packets) + data[..n];
    assert (Joined(packets) + data)[..at + n] == Joined(packets) + data[..n];
  }

  // ---- SETUP packet received ---------------------------------------------------------

  lemma SetupHolds(c: Control, a: Answer)
    requires Inv(c) && c.usb.setup.Some?
    requires |c.usb.setup.value| == 8 ==> Proper(ParseSetup(c.usb.setup.value), a)
    ensures Inv(c.SetupReceived(a))
  {
    hide HistoryInv, InInv, OutInv;
    var b := if c.stage != SetupStage then c.EndOfRequest().Init() else c;
    if c.stage != SetupStage {
      EndHolds(c);
    }
    var d := c.Cleared();
    HistoryStays(b, d);
    if |c.usb.setup.value| != 8 {
      RefusedHolds(d);
    } else {
      var e := d.Asked(ParseSetup(c.usb.setup.value), a);
      if !a.accepted {
        HistoryStays(d, e);
        RefusedHolds(e);
      } else {
        AcceptedHistory(d, e.Grant(), a.callback);
        StartHolds(e.Grant());
      }
    }
  }

  lemma RefusedHolds(d: Control)
    requires HistoryInv(d) && StageInv(d) && d.stage == SetupStage && !d.usb.inSendInt
    requires d.past.taken == [] && d.past.offer == [] && d.usb.bank.None?
    ensures Inv(d.Refuse())
  {
    EmptyPackets();
    HistoryStays(d, d.Refuse());
  }

  lemma AcceptedHistory(d: Control, f: Control, callback: Callback)
    requires HistoryInv(d) && d.req.callback == NoCallback
    requires f.req.callback == callback && (callback != NoCallback ==> !f.req.setup.IsIn())
    requires callback == ValidAddress ==> f.req.setup.IsSetAddress()
    requires f.past.log == d.past.log + [Accepted(f.req.setup, callback)] && f.address == d.address
    ensures HistoryInv(f)
  {
    assert f.past.log[..|f.past.log| - 1] == d.past.log;
  }

  /** The first step of an accepted request. */
  lemma StartHolds(f: Control)
    requires HistoryInv(f) && f.stage == SetupStage
    requires f.usb.setup.None? && f.usb.bank.None? && !f.usb.inSendInt && !f.usb.stall
    requires f.usb.out.Some? ==> |f.usb.out.value| <= EP_SIZE
    requires f.past.taken == [] && f.past.offer == [] && f.past.packets == []
    requires f.req.size <= |f.req.payload| && (f.req.setup.IsIn() ==> f.req.size <= f.req.setup.wLength)
    ensures Inv(f.Start())
  {
    hide HistoryInv;
    EmptyPackets();
    if f.req.setup.IsIn() {
      var g := f.(needInZlp := f.req.size % EP_SIZE == 0, prevNbTrans := 0, nbTrans := 0, stage := DataIn,
                  past := f.past.(offer := f.req.payload[..f.req.size]));
      HistoryStays(f, g);
      InSentHolds(g);
    } else {
      HistoryStays(f, f.Start());
    }
  }

  // ---- Over every run ----------------------------------------------------------------

  lemma UnderflowHolds(c: Control)
    requires Inv(c) && c.usb.setup.None?
    ensures Inv(c.Underflow())
  {
    hide HistoryInv, InInv;
    if c.stage == DataOut && c.usb.out.None? {
      HistoryStays(c, c.Underflow());
      ZlpIn(c, c.Underflow());
    } else {
      Unmoved(c, c.Underflow());
    }
  }

  lemma OverflowHolds(c: Control)
    requires Inv(c) && c.usb.setup.None?
    ensures Inv(c.Overflow())
  {
    hide HistoryInv, InInv, OutInv;
    Unmoved(c, c.Overflow());
  }

  lemma InterruptHolds(c: Control, a: Answer)
    requires Inv(c) && (c.usb.setup.Some? && |c.usb.setup.value| == 8 ==> Proper(ParseSetup(c.usb.setup.value), a))
    ensures Inv(c.Interrupt(a))
  {
    hide HistoryInv, InInv, OutInv, Control.SetupReceived, Control.InSent, Control.OutReceived, Control.Underflow, Control.Overflow;
    var d := c.(usb := c.usb.(nakInInt := false, nakOutInt := false));
    Unmoved(c, d);
    if c.usb.setup.Some? {
      SetupHolds(d, a);
    } else if c.usb.bank.None? && c.usb.inSendInt {
      InSentHolds(d);
    } else if c.usb.out.Some? {
      OutReceivedHolds(d);
    } else {
      var e := if c.usb.nakOut then d.(usb := d.usb.(nakOut := false)) else d.(usb := d.usb.(nakIn := false));
      Unmoved(d, e);
      OverflowHolds(e);
      UnderflowHolds(e);
    }
  }

  /** What the handlers rely on when they move bytes. */
  lemma PayloadFits(c: Control)
    requires Inv(c)
    ensures c.stage == DataIn && c.usb.setup.None? ==> c.nbTrans <= c.req.size <= |c.req.payload|
    ensures c.stage == DataOut ==> c.nbTrans <= c.req.size <= |c.req.payload|
    ensures c.usb.inSendInt ==> c.stage == DataIn || c.stage == WaitInZlp
    ensures c.stage == SetupStage ==> c.req.callback == NoCallback
  {
    hide Packets, HistoryInv;
  }

  lemma BusResetHolds(c: Control)
    requires Inv(c)
    ensures Inv(c.BusReset())
  {
    hide Packets;
    EmptyPackets();
    var log := c.past.log + [Reset];
    assert log[..|log| - 1] == c.past.log;
  }

  lemma StepHolds(c: Control, e: Event)
    requires Inv(c)
    ensures Inv(Step(c, e))
  {
    hide HistoryInv, InInv, OutInv, StageInv, Control.Interrupt, Proper;
    match e {
      case HostSetup(bytes) => HostSetupHolds(c, bytes);
      case HostIn => HostInHolds(c);
      case HostOut(data) => HostOutHolds(c, data);
      case Interrupt(a) =>
        InterruptHolds(c, ProperAnswer(c, a));
      case BusReset => BusResetHolds(c);
    }
  }

  /** Nothing stored moves as long as packets, payload and count stand. */
  lemma KeepsFrom(c: Control, c': Control)
    requires KeepsStored(c)
    requires c'.past.packets == c.past.packets && c'.past.room == c.past.room
    requires c'.stage == DataIn ==> c.past.packets == []
    requires c'.req.setup == c.req.setup && (c'.req.callback == NoCallback || c'.req.callback == c.req.callback)
    requires (c'.nbTrans == c.nbTrans && c'.req.payload == c.req.payload) || (c.past.packets == [] && c'.req.callback == NoCallback)
    ensures KeepsStored(c')
  {
    hide Kept, Joined;
  }

  lemma NothingKept(c: Control)
    requires c.past.packets == [] && c.req.callback == NoCallback
    ensures KeepsStored(c)
  {
  }

  lemma OutKeeps(c: Control)
    requires Inv(c) && KeepsStored(c) && c.usb.out.Some?
    ensures KeepsStored(c.OutReceived())
  {
    hide HistoryInv, InInv, Kept, Joined, Ended, Overwrite;
    if c.stage == DataOut {
      AfterPacketStores(c);
      hide Control.OutReceived, StoresFirst, OutInv;
      var x := AfterPacket(c);
      OutStoredKeeps(x, x.nbTrans - c.nbTrans);
    } else {
      hide OutInv;
      KeepsFrom(c, c.OutReceived());
    }
  }

  lemma OutStoredKeeps(x: Control, n: nat)
    requires StoresFirst(x) && x.stage == DataOut
    ensures KeepsStored(x.OutStored(n))
  {
    hide StoresFirst;
    StoredSame(x, x.OutStored(n));
  }

  lemma SetupKeeps(c: Control, a: Answer)
    requires Inv(c) && KeepsStored(c) && c.usb.setup.Some?
    requires |c.usb.setup.value| == 8 ==> Proper(ParseSetup(c.usb.setup.value), a)
    ensures KeepsStored(c.SetupReceived(a))
  {
    hide HistoryInv, InInv, OutInv, KeepsStored, ParseSetup, Control.Start;
    var d := c.Cleared();
    if |c.usb.setup.value| != 8 {
      NothingKept(d.Refuse());
    } else {
      var e := d.Asked(ParseSetup(c.usb.setup.value), a);
      if !a.accepted {
        NothingKept(e.Refuse());
      } else {
        StartKeeps(e.Grant());
      }
    }
  }

  lemma StartKeeps(f: Control)
    requires f.past.packets == [] && f.req.size <= |f.req.payload| && (f.req.callback != NoCallback ==> !f.req.setup.IsIn())
    ensures KeepsStored(f.Start())
  {
    hide Kept, Joined;
    if f.req.setup.IsIn() {
      NothingKept(f.Start());
    } else {
      EmptyKept(f.req.size);
    }
  }

  lemma EmptyKept(room: nat)
    ensures Kept([], room) == 0 && Joined([]) == []
  {
  }

  lemma InKeeps(c: Control)
    requires Inv(c) && KeepsStored(c) && (c.stage == DataIn || c.stage == WaitInZlp)
    ensures KeepsStored(c.InSent())
  {
    hide InInv, OutInv, StoresFirst;
    if c.stage == DataIn {
      NoCallbackIn(c);
      NothingKept(c.InSent());
    } else {
      KeepsFrom(c, c.InSent());
    }
  }

  lemma InterruptKeeps(c: Control, a: Answer)
    requires Inv(c) && KeepsStored(c)
    requires c.usb.setup.Some? && |c.usb.setup.value| == 8 ==> Proper(ParseSetup(c.usb.setup.value), a)
    ensures KeepsStored(c.Interrupt(a))
  {
    hide HistoryInv, InInv, OutInv, Control.SetupReceived, Control.InSent, Control.OutReceived, StoresFirst;
    var d := c.(usb := c.usb.(nakInInt := false, nakOutInt := false));
    Unmoved(c, d);
    KeepsFrom(c, d);
    if c.Pending() {
      if c.usb.setup.Some? {
        SetupKeeps(d, a);
      } else if c.usb.bank.None? && c.usb.inSendInt {
        InKeeps(d);
      } else if c.usb.out.Some? {
        OutKeeps(d);
      } else {
        KeepsFrom(c, c.Interrupt(a));
      }
    }
  }

  lemma StepKeeps(c: Control, e: Event)
    requires Inv(c) && KeepsStored(c)
    ensures KeepsStored(Step(c, e))
  {
    hide Inv, StoresFirst, Control.Interrupt, Proper;
    match e {
      case Interrupt(a) => InterruptKeeps(c, ProperAnswer(c, a));
      case BusReset => NothingKept(c.BusReset());
      case _ => KeepsFrom(c, Step(c, e));
    }
  }

  function Run(c: Control, events: seq<Event>): Control
    decreases |events|
  {
    if events == [] then c else Run(Step(c, events[0]), events[1..])
  }

  /** The control endpoint after `udd_enable`. */
  function Enabled(): Control {
    Control(Request(Setup(0, 0, 0, 0, 0), [], 0, NoCallback), SetupStage, 0, 0, false, 0,
            Usbb(None, None, None, false, false, false, false, false, false), Past([], [], [], 0, false, []))
  }

  lemma {:induction false} RunHolds(c: Control, events: seq<Event>)
    requires Inv(c)
    ensures Inv(Run(c, events))
    decreases |events|
  {
    hide Inv, Step;
    if events != [] {
      StepHolds(c, events[0]);
      RunHolds(Step(c, events[0]), events[1..]);
    }
  }

  lemma {:induction false} RunKeeps(c: Control, events: seq<Event>)
    requires Inv(c) && KeepsStored(c)
    ensures KeepsStored(Run(c, events))
    decreases |events|
  {
    hide Inv, KeepsStored, Step;
    if events != [] {
      StepHolds(c, events[0]);
      StepKeeps(c, events[0]);
      RunKeeps(Step(c, events[0]), events[1..]);
    }
  }

  lemma EnabledHolds()
    ensures Inv(Enabled())
  {
    EmptyPackets();
  }

  /** A nonzero address was given by a SET_ADDRESS request that was accepted, and whose callback ran
      right after it. */
  lemma {:induction false} AddressSource(log: seq<Entry>)
    requires Disciplined(log)
    ensures AddressOf(log) < 128
    ensures AddressOf(log) == 0
         || exists i | 0 <= i < |log| - 1 ::
              && log[i].Accepted? && log[i].req.IsSetAddress() && log[i].req.wValue % 128 == AddressOf(log)
              && log[i + 1].Ran? && log[i + 1].over
  {
    if log != [] {
      var last := log[|log| - 1];
      if last.Ran? && last.callback == ValidAddress {
        assert log[|log| - 2].Accepted?;
      } else if !last.Reset? {
        AddressSource(log[..|log| - 1]);
      }
    }
  }

  /** In every run a callback runs at most once, right after its own request in the history, and only
      when the host has completed the request or sent the next SETUP; so the device address is 0 or
      the one of an accepted SET_ADDRESS (section 9.4.6 of the USB 2.0 specification). */
  lemma CallbacksInEveryRun(events: seq<Event>)
    ensures var c := Run(Enabled(), events);
            && Disciplined(c.past.log) && c.address == AddressOf(c.past.log)
            && (c.address == 0 || exists i | 0 <= i < |c.past.log| - 1 ::
                  && c.past.log[i].Accepted? && c.past.log[i].req.IsSetAddress() && c.past.log[i].req.wValue % 128 == c.address
                  && c.past.log[i + 1].Ran? && c.past.log[i + 1].over)
            && (c.stage == SetupStage ==> c.req.callback == NoCallback)
  {
    hide Step, InInv, OutInv;
    EnabledHolds();
    RunHolds(Enabled(), events);
    AddressSource(Run(Enabled(), events).past.log);
  }

  /** In every run the packets the host has taken for a request are the first of the packets that carry
      the offered data, and never more bytes than the host asked for (section 9.3.5 of the USB 2.0
      specification). */
  lemma InDataInEveryRun(events: seq<Event>)
    ensures var c := Run(Enabled(), events);
            && |c.past.taken| <= |Packets(c.past.offer)| && c.past.taken == Packets(c.past.offer)[..|c.past.taken|]
            && Joined(c.past.taken) <= c.past.offer
            && |Joined(c.past.taken)| <= c.req.setup.wLength
  {
    hide Step, HistoryInv, OutInv;
    EnabledHolds();
    RunHolds(Enabled(), events);
    var c := Run(Enabled(), events);
    PrefixFits(c.past.offer, |c.past.taken|);
  }

  /** In every run the bytes stored of the packets read for a request are the first of the bytes the host
      sent, as many as fit the buffer that was offered; so it stays whatever stage follows, also when the
      buffer is full and the endpoint stalls. Until the end of the status stage the size of the answer is
      the number of bytes stored exactly if the last packet ended the data or the packets fill the buffer;
      it still is the size that was offered if the host went on to the status stage before. */
  lemma OutDataInEveryRun(events: seq<Event>)
    ensures var c := Run(Enabled(), events);
            && (c.past.packets != [] || c.stage == DataOut || (c.stage == WaitInZlp && 0 < c.req.setup.wLength) ==>
                  && c.nbTrans == Min(|Joined(c.past.packets)|, c.past.room) <= |c.req.payload|
                  && c.req.payload[..c.nbTrans] <= Joined(c.past.packets))
            && (c.stage == DataOut || (c.stage == WaitInZlp && 0 < c.req.setup.wLength) ==>
                  (c.req.size == c.nbTrans
                   <==> Ended(c.past.packets, c.past.room, c.req.setup.wLength) || c.past.room <= |Joined(c.past.packets)|))
  {
    hide Step, HistoryInv, InInv;
    EnabledHolds();
    NothingKept(Enabled());
    RunHolds(Enabled(), events);
    RunKeeps(Enabled(), events);
  }

  /** A callback of a request with OUT data is run in two cases: the host took the status packet, or the next
      SETUP arrived. Either way it finds all the data the host announced exactly if the host has sent that
      much and it fits the buffer. */
  lemma CallbackDataExactly(events: seq<Event>, e: Event)
    requires var c := Run(Enabled(), events);
             && |c.past.log| < |Step(c, e).past.log| && Step(c, e).past.log[|c.past.log|].Ran? && 0 < c.req.setup.wLength
    ensures var c := Run(Enabled(), events);
            && e.Interrupt? && (c.usb.setup.Some? || (c.stage == WaitInZlp && c.usb.bank.None?))
            && Step(c, e).past.log[|c.past.log|].callback == c.req.callback != NoCallback && !c.req.setup.IsIn()
            && c.nbTrans <= |c.req.payload| && c.req.payload[..c.nbTrans] <= Joined(c.past.packets)
            && (c.req.setup.wLength <= c.nbTrans
                <==> c.req.setup.wLength <= |Joined(c.past.packets)| && c.req.setup.wLength <= c.past.room)
  {
    var c := Run(Enabled(), events);
    EnabledHolds();
    NothingKept(Enabled());
    RunHolds(Enabled(), events);
    RunKeeps(Enabled(), events);
    hide Run, InInv, OutInv, Joined, Packets;
    RunsCallback(c, e);
  }

  lemma RunsCallback(c: Control, e: Event)
    requires Inv(c) && |c.past.log| < |Step(c, e).past.log| && Step(c, e).past.log[|c.past.log|].Ran?
    ensures e.Interrupt? && (c.usb.setup.Some? || (c.stage == WaitInZlp && c.usb.bank.None?))
    ensures c.req.callback != NoCallback && Step(c, e).past.log[|c.past.log|].callback == c.req.callback
  {
    StepHolds(c, e);
    hide InInv, OutInv, StageInv, AddressOf, Proper, ParseSetup, Control.Interrupt, ProperAnswer, Disciplined;
    match e {
      case Interrupt(a) =>
        hide Control.BusReset;
        RunsAtInterrupt(c, ProperAnswer(c, a));
      case _ =>
    }
  }

  lemma RunsAtInterrupt(c: Control, a: Answer)
    requires StageInv(c) && HistoryInv(c) && Disciplined(c.Interrupt(a).past.log)
    requires |c.past.log| < |c.Interrupt(a).past.log| && c.Interrupt(a).past.log[|c.past.log|].Ran?
    ensures c.usb.setup.Some? || (c.stage == WaitInZlp && c.usb.bank.None?)
    ensures c.req.callback != NoCallback && c.Interrupt(a).past.log[|c.past.log|].callback == c.req.callback
  {
    hide StageInv, Disciplined, AddressOf, Control.Interrupt;
    InterruptRuns(c, a);
    FollowsOwn(c.past.log, c.Interrupt(a).past.log);
  }

  /** A callback that is run follows the last entry before. */
  lemma {:induction false} FollowsOwn(before: seq<Entry>, log: seq<Entry>)
    requires Disciplined(log) && before < log && log[|before|].Ran?
    ensures Awaits(before) && before[|before| - 1].callback == log[|before|].callback
    decreases |log|
  {
    if |before| + 1 < |log| {
      FollowsOwn(before, log[..|log| - 1]);
    }
  }

  lemma InterruptRuns(c: Control, a: Answer)
    requires StageInv(c)
    ensures var r := c.Interrupt(a);
            && c.past.log <= r.past.log
            && (|c.past.log| < |r.past.log| && r.past.log[|c.past.log|].Ran? && c.req.callback != NoCallback && !c.req.setup.IsIn()
                ==> c.usb.setup.Some? || (c.stage == WaitInZlp && c.usb.bank.None?))
  {
    hide Control.SetupReceived, Control.InSent, Control.OutReceived, Setup.IsIn;
    var d := c.(usb := c.usb.(nakInInt := false, nakOutInt := false));
    if c.usb.setup.Some? {
      hide StageInv;
      SetupLog(d, a);
      ClearedLog(d);
    } else {
      InSentLog(d);
      if c.usb.out.Some? {
        OutReceivedLog(d);
      }
    }
  }

  /** What the end of a request adds to the history. */
  function Ending(c: Control): seq<Entry> {
    if c.req.callback == NoCallback then [] else [Ran(c.req.callback, c.req.setup.wValue, c.past.over)]
  }

  lemma ClearedLog(c: Control)
    ensures c.Cleared().past.log == c.past.log + if c.stage == SetupStage then [] else Ending(c)
  {
    assert c.past.log + [] == c.past.log;
  }

  lemma SetupLog(c: Control, a: Answer)
    requires c.usb.setup.Some?
    ensures c.Cleared().past.log <= c.SetupReceived(a).past.log
    ensures var log, n := c.SetupReceived(a).past.log, |c.Cleared().past.log|; n < |log| ==> log[n].Accepted?
  {
    hide Control.Cleared;
  }

  lemma InSentLog(d: Control)
    ensures d.InSent().past.log == d.past.log + if d.stage == WaitInZlp then Ending(d) else []
  {
    assert d.past.log + [] == d.past.log;
  }

  lemma OutReceivedLog(d: Control)
    requires d.usb.out.Some?
    ensures var log := d.OutReceived().past.log;
            && d.past.log <= log
            && (|d.past.log| < |log| && log[|d.past.log|].Ran? ==> d.stage == DataIn || d.stage == WaitOutZlp)
  {
    hide Overwrite;
  }

  /** A 7-byte OUT request after which the next SETUP arrives before any data: its callback is run with
      nothing stored. */
  lemma CallbackWithoutData()
    ensures var setup := [0x21, 0x20, 0, 0, 0, 0, 7, 0];
            var answer := Answer(true, [0, 0, 0, 0, 0, 0, 0], 7, LineCodingReceived);
            var c := Run(Enabled(), [HostSetup(setup), Interrupt(answer), HostSetup(setup)]);
            && c.req.setup.wLength == 7 && c.nbTrans == 0 && c.past.packets == []
            && |c.past.log| == 1 && Step(c, Interrupt(Refused())).past.log == c.past.log + [Ran(LineCodingReceived, 0, true)]
  {
    var setup := [0x21, 0x20, 0, 0, 0, 0, 7, 0];
    var answer := Answer(true, [0, 0, 0, 0, 0, 0, 0], 7, LineCodingReceived);
    var c0 := Step(Enabled(), HostSetup(setup));
    var c1 := Step(c0, Interrupt(answer));
    assert c1.stage == DataOut && c1.req.setup.wLength == 7 && |c1.past.log| == 1;
    var c2 := Step(c1, HostSetup(setup));
    assert Run(c2, []) == c2;
    assert Run(c1, [HostSetup(setup)]) == Run(c2, []);
    assert Run(c0, [Interrupt(answer), HostSetup(setup)]) == Run(c1, [HostSetup(setup)]);
  }

  /** A host that skips the data of a 7-byte OUT request leaves its size at 7 with nothing stored. */
  lemma EarlyStatusKeepsSize()
    ensures var setup := [0x21, 0x20, 0, 0, 0, 0, 7, 0];
            var answer := Answer(true, [0, 0, 0, 0, 0, 0, 0], 7, LineCodingReceived);
            var c := Run(Enabled(), [HostSetup(setup), Interrupt(answer), HostIn, Interrupt(Refused())]);
            c.stage == WaitInZlp && c.req.callback == LineCodingReceived && c.req.size == 7 && c.nbTrans == 0
  {
    var setup := [0x21, 0x20, 0, 0, 0, 0, 7, 0];
    var answer := Answer(true, [0, 0, 0, 0, 0, 0, 0], 7, LineCodingReceived);
    var c0 := Step(Enabled(), HostSetup(setup));
    var c1 := Step(c0, Interrupt(answer));
    assert c1.stage == DataOut && c1.req.size == 7;
    var c2 := Step(c1, HostIn);
    var c3 := Step(c2, Interrupt(Refused()));
    assert Run(c3, []) == c3;
    assert Run(c2, [Interrupt(Refused())]) == Run(c3, []);
    assert Run(c1, [HostIn, Interrupt(Refused())]) == Run(c2, [Interrupt(Refused())]);
    assert Run(c0, [Interrupt(answer), HostIn, Interrupt(Refused())]) == Run(c1, [HostIn, Interrupt(Refused())]);
  }

  // ---- A data stage comes to its end -------------------------------------------------

  /** The host asks for IN data, or an interrupt is served. */
  predicate Asking(e: Event) {
    e.HostIn? || e.Interrupt?
  }

  /** An IN data stage that the host has not given up, or its end. */
  ghost predicate Sending(c: Control) {
    && Inv(c) && c.usb.setup.None? && c.usb.out.None?
    && (c.stage == DataIn || (c.stage == WaitOutZlp && c.usb.bank.None? && c.past.taken == Packets(c.past.offer)))
  }

  /** The event moves the data stage on: the host takes a packet, or the driver hands over the next or
      ends the stage. */
  predicate Moves(c: Control, e: Event) {
    c.stage == DataIn && if c.usb.bank.Some? then e.HostIn? else e.Interrupt?
  }

  function Moved(c: Control, events: seq<Event>): nat
    decreases |events|
  {
    if events == [] then 0 else (if Moves(c, events[0]) then 1 else 0) + Moved(Step(c, events[0]), events[1..])
  }

  /** How often the data stage moves on until its end. */
  function Work(c: Control): int {
    if c.stage != DataIn then 0
    else 2 * (|Packets(c.past.offer)| - |c.past.taken|) + if c.usb.bank.None? then 1 else 0
  }

  lemma TakeStep(c: Control)
    requires Sending(c)
    ensures var d := c.HostIn();
            && Sending(d) && d.past.offer == c.past.offer
            && Work(d) + (if Moves(c, HostIn) then 1 else 0) == Work(c)
  {
    hide HistoryInv, OutInv, Packets;
    HostInHolds(c);
  }

  lemma HandStep(c: Control, a: Answer)
    requires Sending(c)
    ensures var d := c.Interrupt(a);
            && Sending(d) && d.past.offer == c.past.offer
            && Work(d) + (if Moves(c, Interrupt(a)) then 1 else 0) == Work(c)
  {
    hide HistoryInv, OutInv, Packets;
    InterruptHolds(c, a);
    if c.stage == DataIn && c.usb.bank.None? {
      LastPacket(c);
    }
  }

  lemma LastPacket(c: Control)
    requires Inv(c) && c.stage == DataIn && c.usb.setup.None? && c.usb.bank.None?
    ensures c.req.size == c.nbTrans && !c.needInZlp <==> |c.past.taken| == |Packets(c.past.offer)|
    ensures |c.past.taken| == |Packets(c.past.offer)| ==> c.past.taken == Packets(c.past.offer)
  {
    hide HistoryInv, OutInv;
  }

  lemma SendingStep(c: Control, e: Event)
    requires Sending(c) && Asking(e)
    ensures var d := Step(c, e);
            && Sending(d) && d.past.offer == c.past.offer
            && Work(d) + (if Moves(c, e) then 1 else 0) == Work(c)
  {
    hide Sending, Work, Control.HostIn, Control.Interrupt;
    match e {
      case HostIn => TakeStep(c);
      case Interrupt(a) => HandStep(c, ProperAnswer(c, a));
    }
  }

  lemma {:induction false} SendingRun(c: Control, events: seq<Event>)
    requires Sending(c) && forall e | e in events :: Asking(e)
    ensures var d := Run(c, events);
            && Sending(d) && d.past.offer == c.past.offer
            && Work(d) + Moved(c, events) == Work(c)
    decreases |events|
  {
    hide Sending, Work, Moves, Step, Asking;
    if events != [] {
      SendingStep(c, events[0]);
      SendingRun(Step(c, events[0]), events[1..]);
    }
  }

  /** However the host's IN tokens and the interrupts follow each other, in whatever number: the data
      stage goes on, or the endpoint waits for the status stage and the host has taken exactly the
      packets of the offered data. Each packet moves the stage on twice, and once it has moved on as
      often as it has packets to, it is at its end. Some event always moves it on. */
  lemma InStageCompletes(c: Control, events: seq<Event>)
    requires Sending(c) && c.stage == DataIn && forall e | e in events :: Asking(e)
    ensures var d := Run(c, events);
            && (d.stage == DataIn || d.stage == WaitOutZlp)
            && (d.stage == WaitOutZlp <==> Moved(c, events) == Work(c))
            && (d.stage == WaitOutZlp ==> d.past.taken == Packets(c.past.offer) && Joined(d.past.taken) == c.past.offer)
            && (d.stage == DataIn ==> Moved(c, events) < Work(c) && (Moves(d, HostIn) || Moves(d, Interrupt(Refused()))))
  {
    hide Packets, Joined, HistoryInv, OutInv, Step, Run, Moved, Progress;
    SendingRun(c, events);
    PacketsJoin(c.past.offer);
  }

  /** An accepted IN request starts such a stage, with the first packet ready, unless the host had sent
      an OUT packet already: `size / 64 + 1` packets carry the data of the answer. */
  lemma InRequestStarts(c: Control, a: Answer)
    requires Inv(c) && c.usb.setup.Some? && |c.usb.setup.value| == 8
    requires a.accepted && Proper(ParseSetup(c.usb.setup.value), a) && ParseSetup(c.usb.setup.value).IsIn()
    requires c.usb.out.None? || c.stage != SetupStage
    ensures var d := c.Interrupt(a);
            && Sending(d) && d.stage == DataIn && d.past.taken == [] && d.past.offer == a.payload[..a.size]
            && Work(d) == 2 * (a.size / EP_SIZE + 1)
  {
    hide HistoryInv, InInv, OutInv, ParseSetup, Packets, Control.Start, Control.Cleared;
    InterruptHolds(c, a);
    var d := c.(usb := c.usb.(nakInInt := false, nakOutInt := false));
    ClearedFields(d);
    StartSends(d.Cleared().Asked(ParseSetup(c.usb.setup.value), a).Grant());
  }

  lemma ClearedFields(c: Control)
    requires c.usb.out.None? || c.stage != SetupStage
    ensures var d := c.Cleared(); d.usb.out.None? && d.usb.bank == c.usb.bank && d.past.taken == []
  {
  }

  lemma StartSends(f: Control)
    requires f.req.setup.IsIn() && f.req.size <= |f.req.payload| && f.usb.out.None?
    ensures var d := f.Start();
            && d.stage == DataIn && d.usb.setup == f.usb.setup && d.usb.out.None? && d.usb.bank.Some?
            && d.past.taken == f.past.taken && d.past.offer == f.req.payload[..f.req.size]
  {
    hide Setup.IsIn, Control.SendNext;
    FirstSent(f.(needInZlp := f.req.size % EP_SIZE == 0 && f.req.size != 0, prevNbTrans := 0, nbTrans := 0, stage := DataIn,
                 usb := f.usb.(inSendInt := false), past := f.past.(offer := f.req.payload[..f.req.size])));
  }

  lemma FirstSent(g: Control)
    requires g.req.size <= |g.req.payload| && g.usb.out.None? && g.nbTrans == 0
    ensures var d := g.SendNext();
            && d.past == g.past && d.stage == g.stage && d.usb.setup == g.usb.setup && d.usb.out.None? && d.usb.bank.Some?
  {
  }
}
