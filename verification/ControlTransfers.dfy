/** Whole control transfers, from the SETUP packet to the end of the status stage, and what breaks them off:
    sections 8.5.3 and 9.2.6 of the USB 2.0 specification. */
module ControlTransfers {
  import opened Basics
  import opened UsbRequest
  import opened ControlPipe

  // ---- Callbacks ---------------------------------------------------------------------

  /** Every run of a callback directly follows its own request; and a request with a callback is directly
      followed by the run of it, unless it was broken off or the bus was reset. */
  ghost predicate RunOnce(log: seq<Entry>) {
    && (forall i | 0 <= i < |log| && log[i].Ran? ::
          log[i].over && 0 < i && log[i - 1].Accepted? && log[i - 1].callback == log[i].callback
          && log[i - 1].req.wValue == log[i].wValue)
    && (forall i | 0 <= i < |log| - 1 && log[i].Accepted? && log[i].callback != NoCallback ::
          log[i + 1] == Ran(log[i].callback, log[i].req.wValue, true) || log[i + 1] == Dropped(log[i].callback) || log[i + 1].Reset?)
  }

  lemma {:induction false} DisciplinedRunsOnce(log: seq<Entry>)
    requires Disciplined(log)
    ensures RunOnce(log)
  {
    if log != [] {
      var before := log[..|log| - 1];
      DisciplinedRunsOnce(before);
      forall i | 0 <= i < |log| - 1 && log[i].Accepted? && log[i].callback != NoCallback
        ensures log[i + 1] == Ran(log[i].callback, log[i].req.wValue, true) || log[i + 1] == Dropped(log[i].callback)
                || log[i + 1].Reset?
      {
        if i + 1 < |log| - 1 {
          assert before[i] == log[i] && before[i + 1] == log[i + 1];
        } else {
          assert before[|before| - 1] == log[i];
        }
      }
      forall i | 0 <= i < |log| && log[i].Ran?
        ensures log[i].over && 0 < i && log[i - 1].Accepted? && log[i - 1].callback == log[i].callback
                && log[i - 1].req.wValue == log[i].wValue
      {
        if i < |log| - 1 {
          assert before[i] == log[i] && before[i - 1] == log[i - 1];
        }
      }
    }
  }

  /** In every run a callback is run exactly once for its request, or dropped, or lost in a bus reset; and as
      long as it is to come the request is not over. */
  lemma CallbackOnceInEveryRun(events: seq<Event>)
    ensures var c := Run(Enabled(), events);
            && RunOnce(c.past.log)
            && (c.req.callback != NoCallback <==> Awaits(c.past.log))
            && (c.req.callback != NoCallback ==> c.stage == DataOut || c.stage == WaitInZlp || c.stage == Stalled)
  {
    hide Step, InInv, OutInv;
    EnabledHolds();
    RunHolds(Enabled(), events);
    DisciplinedRunsOnce(Run(Enabled(), events).past.log);
  }

  /** Once the host has taken the status packet, the next interrupt runs the callback and the endpoint is ready
      for a request. */
  lemma StatusServed(c: Control, a: Answer)
    requires Inv(c) && c.usb.setup.None? && c.stage == WaitInZlp && c.usb.bank.None?
    ensures var r := c.Interrupt(a);
            && r.stage == SetupStage && r.req.callback == NoCallback && r.past.over
            && r.usb.setup.None? && r.usb.out.None? && r.usb.bank.None? && !r.usb.inSendInt && r.usb.stall == c.usb.stall
            && r.past.log == c.past.log + Ending(c)
            && r.address == (if c.req.callback == ValidAddress then c.req.setup.wValue % 128 else c.address)
            && r.req.payload == c.req.payload && r.req.setup == c.req.setup
  {
    hide HistoryInv, InInv, OutInv;
    assert c.past.log + [] == c.past.log;
  }

  /** The next SETUP packet runs the callback of a request that was not over. */
  lemma NextSetupRuns(c: Control, a: Answer)
    requires Inv(c) && c.usb.setup.Some? && c.req.callback != NoCallback
    ensures |c.past.log| < |c.Interrupt(a).past.log|
    ensures c.Interrupt(a).past.log[|c.past.log|] == Ran(c.req.callback, c.req.setup.wValue, true)
  {
    hide HistoryInv, InInv, OutInv, Control.Start;
    var d := c.(usb := c.usb.(nakInInt := false, nakOutInt := false));
    ClearedLog(d);
    SetupLog(d, a);
  }

  /** The event drops a callback. */
  predicate Drops(c: Control, d: Control) {
    |c.past.log| < |d.past.log| && d.past.log[|c.past.log|].Dropped?
  }

  /** A request is broken off: an OUT packet is served before the end of the status stage, or after a stall. */
  predicate BrokenOff(c: Control) {
    && c.usb.setup.None? && c.usb.out.Some? && (c.stage == WaitInZlp || c.stage == Stalled)
    && !(c.usb.bank.None? && c.usb.inSendInt)
  }

  /** A callback is dropped exactly if its request is broken off; then nothing else happens to the history and the
      endpoint stalls. */
  lemma DropsExactly(c: Control, e: Event)
    requires Inv(c)
    ensures Drops(c, Step(c, e)) <==> c.req.callback != NoCallback && e.Interrupt? && BrokenOff(c)
    ensures Drops(c, Step(c, e)) ==> Step(c, e).past.log == c.past.log + [Dropped(c.req.callback)] && Step(c, e).usb.stall
  {
    hide InInv, OutInv, Proper, ParseSetup, Disciplined, AddressOf, Overwrite;
    match e {
      case Interrupt(a) => DropsAt(c, ProperAnswer(c, a));
      case _ =>
    }
  }

  lemma DropsAt(c: Control, a: Answer)
    requires Inv(c)
    ensures Drops(c, c.Interrupt(a)) <==> c.req.callback != NoCallback && BrokenOff(c)
    ensures Drops(c, c.Interrupt(a)) ==> c.Interrupt(a).past.log == c.past.log + [Dropped(c.req.callback)] && c.Interrupt(a).usb.stall
  {
    hide HistoryInv, InInv, OutInv, Control.SetupReceived, Control.InSent;
    var d := c.(usb := c.usb.(nakInInt := false, nakOutInt := false));
    if c.req.callback != NoCallback {
      PendingIn(c);
    }
    if c.usb.setup.Some? {
      SetupDrops(d, a);
    } else if c.usb.bank.None? && c.usb.inSendInt {
      SentDrops(d);
    } else if c.usb.out.Some? {
      ReceivedDrops(d);
    }
  }

  lemma PendingIn(c: Control)
    requires Inv(c) && c.req.callback != NoCallback
    ensures c.stage == DataOut || c.stage == WaitInZlp || c.stage == Stalled
  {
    hide InInv, OutInv, Disciplined, AddressOf;
  }

  lemma SetupDrops(d: Control, a: Answer)
    requires d.usb.setup.Some? && (d.stage == SetupStage ==> d.req.callback == NoCallback)
    ensures !Drops(d, d.SetupReceived(a))
  {
    hide Control.SetupReceived;
    SetupLog(d, a);
    if d.stage != SetupStage {
      ClearedLog(d);
    }
  }

  lemma SentDrops(d: Control)
    ensures !Drops(d, d.InSent())
  {
  }

  lemma ReceivedDrops(d: Control)
    requires d.usb.out.Some? && (d.stage == DataIn || d.stage == WaitOutZlp || d.stage == SetupStage ==> d.req.callback == NoCallback)
    ensures var r := d.OutReceived();
            && (Drops(d, r) <==> d.req.callback != NoCallback && (d.stage == WaitInZlp || d.stage == Stalled))
            && (Drops(d, r) ==> r.past.log == d.past.log + [Dropped(d.req.callback)] && r.usb.stall)
  {
    hide Overwrite;
  }

  // ---- Requests without data ---------------------------------------------------------

  /** Nothing is under way and nothing waits. */
  predicate Ready(c: Control) {
    && c.stage == SetupStage && c.req.callback == NoCallback && c.req.size == 0
    && c.usb.setup.None? && c.usb.out.None? && c.usb.bank.None? && !c.usb.inSendInt && !c.usb.stall
  }

  /** The host sends a request, and the core accepts it. */
  function Asked(c: Control, packet: seq<byte>, a: Answer): Control {
    Step(Step(c, HostSetup(packet)), Interrupt(a))
  }

  /** The history, and the address, when the request before is over. */
  function Before(c: Control): seq<Entry> {
    c.past.log + if c.req.callback == NoCallback then [] else [Ran(c.req.callback, c.req.setup.wValue, true)]
  }

  predicate Acceptable(packet: seq<byte>, a: Answer) {
    |packet| == 8 && a.accepted && Proper(ParseSetup(packet), a)
  }

  /** An accepted request without data offers the status packet; one with OUT data waits for them, with nothing
      stored. */
  lemma AskedOut(c: Control, packet: seq<byte>, a: Answer)
    requires Inv(c) && Acceptable(packet, a) && !ParseSetup(packet).IsIn()
    ensures var d := Asked(c, packet, a);
            && Inv(d) && d.req == Request(ParseSetup(packet), a.payload, a.size, a.callback)
            && d.usb.setup.None? && !d.usb.stall && !d.past.over && (c.stage != SetupStage || c.usb.out.None? ==> d.usb.out.None?)
            && d.past.log == Before(c) + [Accepted(ParseSetup(packet), a.callback)]
            && if ParseSetup(packet).wLength == 0 then d.OffersStatus()
               else d.stage == DataOut && d.nbTrans == 0 && d.past.packets == [] && d.past.room == a.size
                    && d.usb.bank.None? && d.usb.nakInInt && !d.usb.nakIn
  {
    hide HistoryInv, InInv, OutInv, ParseSetup, Proper, Control.Cleared, Control.Start;
    var b := c.HostSetup(packet);
    HostSetupHolds(c, packet);
    InterruptHolds(b, a);
    var d := b.(usb := b.usb.(nakInInt := false, nakOutInt := false));
    ClearedBefore(c, d);
    var g := d.Cleared().Asked(ParseSetup(packet), a).Grant();
    StartsOut(g);
  }

  lemma ClearedBefore(c: Control, d: Control)
    requires StageInv(c)
    requires d.stage == c.stage && d.req == c.req && d.past.log == c.past.log && d.past.over && d.address == c.address
    requires d.usb.setup.Some? && d.usb.bank.None? && !d.usb.stall && d.usb.out == c.usb.out
    ensures var r := d.Cleared();
            && r.usb.setup == d.usb.setup && r.usb.bank.None? && !r.usb.stall && (c.stage != SetupStage || c.usb.out.None? ==> r.usb.out.None?)
            && r.past.log == Before(c) && r.past.packets == [] && r.past.taken == []
  {
    assert c.past.log + [] == c.past.log;
  }

  lemma StartsOut(f: Control)
    requires !f.req.setup.IsIn()
    ensures var d := f.Start();
            && d.req == f.req && d.past.log == f.past.log && d.past.packets == f.past.packets && d.past.over == f.past.over
            && d.usb.setup == f.usb.setup && d.usb.out == f.usb.out && d.usb.stall == f.usb.stall
            && if f.req.setup.wLength == 0 then d.OffersStatus()
               else d.stage == DataOut && d.nbTrans == 0 && d.past.room == f.req.size
                    && d.usb.bank == f.usb.bank && d.usb.nakInInt && !d.usb.nakIn
  {
  }

  /** The host takes the status packet, and an interrupt follows. */
  function StatusIn(c: Control, a: Answer): Control {
    Step(Step(c, HostIn), Interrupt(a))
  }

  lemma StatusTaken(c: Control, a: Answer)
    requires Inv(c) && c.usb.setup.None? && c.stage == WaitInZlp && c.usb.bank.Some? && !c.usb.stall
    ensures var r := StatusIn(c, a);
            && Inv(r) && Ready(r)
            && r.past.log == c.past.log + (if c.req.callback == NoCallback then [] else [Ran(c.req.callback, c.req.setup.wValue, true)])
            && r.address == (if c.req.callback == ValidAddress then c.req.setup.wValue % 128 else c.address)
            && r.req.payload == c.req.payload && r.req.setup == c.req.setup
  {
    hide HistoryInv, InInv, OutInv;
    HostInHolds(c);
    InterruptHolds(c.HostIn(), ProperAnswer(c.HostIn(), a));
    StatusServed(c.HostIn(), ProperAnswer(c.HostIn(), a));
  }

  /** From every state, an accepted request without data is over when the host has taken the status packet: its
      callback has run, after that of a request before, and the endpoint is ready. */
  lemma NoDataTransfer(c: Control, packet: seq<byte>, a: Answer, b: Answer)
    requires Inv(c) && Acceptable(packet, a) && !ParseSetup(packet).IsIn() && ParseSetup(packet).wLength == 0
    ensures var r := StatusIn(Asked(c, packet, a), b);
            && Inv(r) && Ready(r)
            && r.past.log == Before(c) + [Accepted(ParseSetup(packet), a.callback)]
                             + (if a.callback == NoCallback then [] else [Ran(a.callback, ParseSetup(packet).wValue, true)])
            && r.address == AddressOf(r.past.log)
  {
    hide InInv, OutInv, ParseSetup, Proper, StatusIn, Asked;
    AskedOut(c, packet, a);
    StatusTaken(Asked(c, packet, a), b);
  }

  /** SET_ADDRESS, byte by byte: the device has the new address once the status packet is taken. */
  lemma SetAddressTakesEffect(c: Control, v: byte, b: Answer)
    requires Inv(c) && v < 128
    ensures var r := StatusIn(Asked(c, [0, 5, v, 0, 0, 0, 0, 0], Answer(true, [], 0, ValidAddress)), b);
            Ready(r) && r.address == v
  {
    SetAddressParsed(v);
    hide Inv, ParseSetup, Acceptable, StatusIn, Asked;
    var packet: seq<byte>, a := [0, 5, v, 0, 0, 0, 0, 0], Answer(true, [], 0, ValidAddress);
    AskedOut(c, packet, a);
    StatusTaken(Asked(c, packet, a), b);
  }

  lemma SetAddressParsed(v: byte)
    ensures var packet: seq<byte> := [0, 5, v, 0, 0, 0, 0, 0];
            && ParseSetup(packet) == Setup(0, 5, v as nat, 0, 0) && !ParseSetup(packet).IsIn()
            && Acceptable(packet, Answer(true, [], 0, ValidAddress))
  {
  }

  // ---- Requests with OUT data --------------------------------------------------------

  /** The host sends an OUT packet, and an interrupt follows. */
  function OutPacket(c: Control, data: seq<byte>): Control {
    Step(Step(c, HostOut(data)), Interrupt(Refused()))
  }

  /** The endpoint waits for OUT data. */
  ghost predicate Receiving(c: Control) {
    Inv(c) && c.stage == DataOut && c.usb.setup.None? && c.usb.out.None?
  }

  /** The buffer is as before behind what was stored. */
  predicate KeepsRest(c: Control, r: Control) {
    r.nbTrans <= |r.req.payload| == |c.req.payload| && r.req.payload[r.nbTrans..] == c.req.payload[r.nbTrans..]
  }

  /** What an OUT packet leads to: the status stage exactly if it ends the data, a stall exactly if it does not and
      the buffer is full, and else to more data. */
  lemma OutPacketDecides(c: Control, data: seq<byte>)
    requires Receiving(c) && |data| <= EP_SIZE
    ensures var r := OutPacket(c, data);
            && Inv(r) && r.past.packets == c.past.packets + [data] && r.past.room == c.past.room && StoresFirst(r)
            && r.usb.setup.None? && r.usb.out.None? && KeepsRest(c, r)
            && r.req.setup == c.req.setup && r.req.callback == c.req.callback && r.past.log == c.past.log && r.address == c.address
            && (if Ended(r.past.packets, r.past.room, r.req.setup.wLength)
                then r.OffersStatus() && !r.usb.stall && r.req.size == r.nbTrans
                else if r.past.room <= |Joined(r.past.packets)| then r.stage == Stalled && r.usb.stall
                else r.stage == DataOut && r.usb.nakInInt && !r.usb.nakIn && r.req.size == c.req.size)
  {
    hide HistoryInv, InInv, Kept, Joined, Ended, Overwrite, StoresFirst, Stored, Control.OutReceived;
    HostOutHolds(c, data);
    DataOutIdle(c);
    var b := c.HostOut(data);
    var d := b.(usb := b.usb.(nakInInt := false, nakOutInt := false));
    Unmoved(c, b);
    Unmoved(b, d);
    InterruptHolds(b, Refused());
    AfterPacketStores(d);
    KeptNow(c.past.packets, data, c.past.room);
    EndedNow(c.past.packets, data, c.past.room, c.req.setup.wLength);
    StoredSame(c, d);
    StoredDecides(c, d);
  }

  lemma DataOutIdle(c: Control)
    requires Receiving(c)
    ensures c.usb.bank.None? && !c.usb.inSendInt && !c.usb.stall && c.prevNbTrans == 0 && StoresFirst(c) && c.req.size == c.past.room
    ensures c.nbTrans == |Joined(c.past.packets)| == Kept(c.past.packets, c.past.room)
  {
    hide HistoryInv, InInv, Joined;
  }

  lemma StoredDecides(c: Control, d: Control)
    requires d.stage == DataOut && d.usb.out.Some? && OutInv(d) && !d.usb.stall
    requires d.prevNbTrans == 0 && d.past == c.past && d.req == c.req && d.nbTrans == c.nbTrans
    requires d.nbTrans <= d.req.size == d.past.room <= |d.req.payload| && StoresFirst(d) && StoresFirst(AfterPacket(d))
    requires d.OutReceived() == AfterPacket(d).OutStored(AfterPacket(d).nbTrans - d.nbTrans) && KeepsRest(c, AfterPacket(d))
    requires d.nbTrans == |Joined(d.past.packets)| == Kept(d.past.packets, d.past.room)
    requires var packets := d.past.packets + [d.usb.out.value];
             && |Joined(packets)| == |Joined(d.past.packets)| + |d.usb.out.value|
             && Kept(packets, d.past.room) == Min(|Joined(d.past.packets)| + |d.usb.out.value|, d.past.room)
             && (Ended(packets, d.past.room, d.req.setup.wLength)
                 <==> Kept(packets, d.past.room) - Kept(d.past.packets, d.past.room) != EP_SIZE
                      || d.req.setup.wLength <= Kept(packets, d.past.room))
    ensures var r := d.OutReceived();
            && r.past.packets == d.past.packets + [d.usb.out.value] && r.past.room == d.past.room && StoresFirst(r)
            && r.usb.setup == d.usb.setup && r.usb.out.None? && KeepsRest(c, r)
            && r.req.setup == c.req.setup && r.req.callback == c.req.callback && r.past.log == c.past.log && r.address == d.address
            && (if Ended(r.past.packets, r.past.room, r.req.setup.wLength)
                then r.OffersStatus() && !r.usb.stall && r.req.size == r.nbTrans
                else if r.past.room <= |Joined(r.past.packets)| then r.stage == Stalled && r.usb.stall
                else r.stage == DataOut && r.usb.nakInInt && !r.usb.nakIn && r.req.size == c.req.size)
  {
    hide Control.OutReceived, Kept, Joined, Ended, Overwrite, OutInv, StoresFirst, Control.SendZlpIn;
    var x := AfterPacket(d);
    SendZlpInFields(x.(req := x.req.(size := x.nbTrans), usb := x.usb.(out := None)));
    StoredSame(x, x.OutStored(x.nbTrans - d.nbTrans));
  }

  /** The host sends `data` in packets of 64 bytes, the last one possibly shorter. */
  function SendData(c: Control, data: seq<byte>): Control
    decreases |data|
  {
    if |data| <= EP_SIZE then OutPacket(c, data) else SendData(OutPacket(c, data[..EP_SIZE]), data[EP_SIZE..])
  }

  /** The rest of the data the host announced, after `done`. */
  lemma {:induction false} DataArrives(c: Control, done: seq<byte>, data: seq<byte>)
    requires Receiving(c) && Joined(c.past.packets) == done
    requires 0 < |data| && |done| + |data| == c.req.setup.wLength <= c.past.room
    ensures var d := SendData(c, data);
            && Inv(d) && d.usb.setup.None? && d.stage == WaitInZlp && d.usb.bank.Some? && !d.usb.stall
            && d.nbTrans == d.req.size == c.req.setup.wLength <= |d.req.payload| && d.req.payload[..d.nbTrans] == done + data
            && KeepsRest(c, d)
            && d.req.setup == c.req.setup && d.req.callback == c.req.callback && d.past.log == c.past.log && d.address == c.address
    decreases |data|
  {
    hide Inv, Joined, Ended, Kept, OutPacket;
    var p := if |data| <= EP_SIZE then data else data[..EP_SIZE];
    OutPacketDecides(c, p);
    var r := OutPacket(c, p);
    JoinedMore(c.past.packets, p);
    PacketEnds(c, p);
    if |data| <= EP_SIZE {
      StoredAll(r);
    } else {
      Regroup(done, p, data[EP_SIZE..]);
      assert p + data[EP_SIZE..] == data;
      DataArrives(r, done + p, data[EP_SIZE..]);
      DataOutIdle(r);
      RestKept(c, r, SendData(c, data));
    }
  }

  lemma RestKept(c: Control, r: Control, d: Control)
    requires KeepsRest(c, r) && KeepsRest(r, d) && r.nbTrans <= d.nbTrans
    ensures KeepsRest(c, d)
  {
    var n := d.nbTrans - r.nbTrans;
    assert c.req.payload[r.nbTrans..][n..] == c.req.payload[d.nbTrans..];
    assert r.req.payload[r.nbTrans..][n..] == r.req.payload[d.nbTrans..];
  }

  lemma PacketEnds(c: Control, p: seq<byte>)
    requires Receiving(c) && |p| <= EP_SIZE && |Joined(c.past.packets)| + |p| <= c.req.setup.wLength <= c.past.room
    requires |p| == EP_SIZE || |Joined(c.past.packets)| + |p| == c.req.setup.wLength
    ensures Ended(c.past.packets + [p], c.past.room, c.req.setup.wLength)
       <==> |Joined(c.past.packets)| + |p| == c.req.setup.wLength
  {
    hide Inv, Joined;
    KeptNow(c.past.packets, p, c.past.room);
    EndedNow(c.past.packets, p, c.past.room, c.req.setup.wLength);
  }

  lemma StoredAll(r: Control)
    requires StoresFirst(r) && |Joined(r.past.packets)| <= r.past.room
    ensures r.nbTrans == |Joined(r.past.packets)| <= |r.req.payload| && r.req.payload[..r.nbTrans] == Joined(r.past.packets)
  {
    hide Joined;
  }

  /** From every state: an accepted request with OUT data that fit the buffer has exactly them stored, in order, when
      its status packet is taken; its callback has run, and the endpoint is ready. */
  lemma OutTransfer(c: Control, packet: seq<byte>, a: Answer, data: seq<byte>, b: Answer)
    requires Inv(c) && Acceptable(packet, a) && !ParseSetup(packet).IsIn() && (c.stage != SetupStage || c.usb.out.None?)
    requires 0 < |data| == ParseSetup(packet).wLength <= a.size
    ensures var r := StatusIn(SendData(Asked(c, packet, a), data), b);
            && Inv(r) && Ready(r) && r.req.payload == data + a.payload[|data|..]
            && r.past.log == Before(c) + [Accepted(ParseSetup(packet), a.callback)]
                             + (if a.callback == NoCallback then [] else [Ran(a.callback, ParseSetup(packet).wValue, true)])
  {
    hide Inv, ParseSetup, Acceptable, StatusIn, Asked, SendData, Joined;
    AskedOut(c, packet, a);
    var d := Asked(c, packet, a);
    NothingJoined();
    assert [] + data == data;
    DataArrives(d, [], data);
    assert SendData(d, data).req.payload == data + a.payload[|data|..];
    StatusTaken(SendData(d, data), b);
  }

  lemma NothingJoined()
    ensures Joined([]) == []
  {
  }

  // ---- Requests with IN data ---------------------------------------------------------

  /** The host sends the empty OUT packet of the status stage, and an interrupt follows. */
  lemma StatusOut(c: Control)
    requires Sending(c) && c.stage == WaitOutZlp && !c.usb.stall
    ensures var r := OutPacket(c, []); Inv(r) && Ready(r) && r.past.taken == c.past.taken && r.past.log == c.past.log
  {
    hide HistoryInv, InInv, OutInv, Packets;
    HostOutHolds(c, []);
    InterruptHolds(c.HostOut([]), Refused());
    NoCallbackIn(c);
  }

  /** From every state: an accepted request for data, whatever the order of the IN tokens and interrupts. Once the data
      stage has moved on as often as its packets need and the host has sent the status packet, it has taken exactly
      the packets of the answer, and the endpoint is ready, unless a further IN token was stalled. */
  lemma InTransfer(c: Control, packet: seq<byte>, a: Answer, events: seq<Event>)
    requires Inv(c) && Acceptable(packet, a) && ParseSetup(packet).IsIn() && (c.stage != SetupStage || c.usb.out.None?)
    requires forall e | e in events :: Asking(e)
    requires Moved(Asked(c, packet, a), events) == 2 * (a.size / EP_SIZE + 1)
    ensures var d := Run(Asked(c, packet, a), events);
            && d.past.taken == Packets(a.payload[..a.size])
            && (!d.usb.stall ==> Ready(OutPacket(d, [])) && OutPacket(d, []).past.taken == d.past.taken)
  {
    hide HistoryInv, InInv, OutInv, ParseSetup, Packets, Proper, Control.Interrupt, Moved, OutPacket, Run, Progress;
    HostSetupHolds(c, packet);
    InRequestStarts(c.HostSetup(packet), a);
    var s := Asked(c, packet, a);
    InStageCompletes(s, events);
    SendingRun(s, events);
    var d := Run(s, events);
    if !d.usb.stall {
      StatusOut(d);
    }
  }

  /** After the last packet of the data the endpoint waits for the status packet of the host, and an IN token in the
      place of it would be noticed. */
  lemma DataEnds(c: Control, a: Answer)
    requires c.usb.setup.None? && c.usb.bank.None? && c.usb.inSendInt && c.stage == DataIn
    requires c.nbTrans == c.req.size && !c.needInZlp
    ensures c.Interrupt(a) == c.(stage := WaitOutZlp, usb := c.usb.(inSendInt := false, nakIn := false, nakInInt := true, nakOutInt := false))
  {
  }

  /** If the host goes on to the status stage before that, no further packet is offered. */
  lemma HostGivesUp(c: Control, a: Answer)
    requires c.usb.setup.None? && c.usb.bank.None? && c.usb.inSendInt && c.stage == DataIn && c.usb.out.Some?
    requires c.nbTrans < c.req.size || c.needInZlp
    ensures var r := c.Interrupt(a);
            r == c.(stage := WaitOutZlp, needInZlp := r.needInZlp, usb := c.usb.(inSendInt := false, nakInInt := false, nakOutInt := false))
  {
  }

  // ---- Refusals and protocol errors --------------------------------------------------

  /** A SETUP packet of the wrong size and a request that the core does not support are stalled: no data and no
      status packet is accepted or offered until the next SETUP packet. */
  lemma RefusedStalls(c: Control, a: Answer, data: seq<byte>)
    requires Inv(c) && c.usb.setup.Some? && (|c.usb.setup.value| != 8 || !a.accepted)
    ensures var r := c.Interrupt(a);
            && r.stage == Stalled && r.usb.stall && r.usb.setup.None? && r.usb.bank.None?
            && r.HostIn() == r && r.HostOut(data) == r && r.past.log == Before(c)
  {
    hide HistoryInv, InInv, OutInv, ParseSetup, Control.Cleared;
    var d := c.(usb := c.usb.(nakInInt := false, nakOutInt := false));
    ClearedBefore(c, d);
  }

  /** OUT data in the status stage, or after a stall, break the request off. */
  lemma BrokenOffStalls(c: Control, a: Answer)
    requires Inv(c) && BrokenOff(c)
    ensures var r := c.Interrupt(a); r.usb.stall && r.stage == SetupStage && r.usb.out.None? && r.req.callback == NoCallback
  {
    hide HistoryInv, InInv, OutInv;
  }

  /** So does OUT data that the controller refused there. */
  lemma OverflowStalls(c: Control, a: Answer)
    requires Inv(c) && c.stage == WaitInZlp && c.usb.bank.Some? && c.usb.setup.None? && c.usb.out.None?
    requires c.usb.nakOut && c.usb.nakOutInt
    ensures c.Interrupt(a).usb.stall && !c.Interrupt(a).usb.nakOut && c.Interrupt(a).stage == WaitInZlp
  {
    hide HistoryInv, InInv, OutInv;
  }

  /** An IN token that the controller refused while the driver watches for it: during OUT data it is answered with
      the status packet, after IN data it is stalled, in both cases exactly if no refused OUT packet is noted. */
  lemma RefusedInExactly(c: Control, a: Answer)
    requires Inv(c) && (c.stage == DataOut || c.stage == WaitOutZlp) && c.usb.setup.None? && c.usb.out.None? && !c.usb.stall
    requires c.usb.nakIn && c.usb.nakInInt
    ensures c.stage == DataOut ==> (c.Interrupt(a).stage == WaitInZlp && c.Interrupt(a).usb.bank == Some([]) <==> !c.usb.nakOut)
    ensures c.stage == WaitOutZlp ==> (c.Interrupt(a).usb.stall <==> !c.usb.nakOut)
    ensures c.usb.nakOut ==> c.Interrupt(a) == c.(usb := c.usb.(nakOut := false, nakInInt := false, nakOutInt := false))
    ensures c.usb.nakOut && c.stage == DataOut ==> Missing(c.Interrupt(a))
  {
    if c.stage == DataOut {
      DataOutIdle(c);
    }
    hide HistoryInv, InInv, OutInv;
  }

  /** A token that is missed during OUT data is missed for good, and so is every further one until OUT data or a SETUP packet arrives. */
  lemma {:induction false} MissedForGood(c: Control, events: seq<Event>)
    requires Missing(c) && forall e | e in events :: Asking(e)
    ensures Missing(Run(c, events)) && Run(c, events).past == c.past
    decreases |events|
  {
    hide Missing, Step;
    if events != [] {
      MissingStep(c, events[0]);
      MissedForGood(Step(c, events[0]), events[1..]);
    }
  }

  /** OUT data is expected, and no interrupt watches for IN tokens. */
  predicate Missing(c: Control) {
    && c.stage == DataOut && c.usb.setup.None? && c.usb.out.None? && c.usb.bank.None? && !c.usb.inSendInt && !c.usb.stall
    && !c.usb.nakInInt && !c.usb.nakOutInt
  }

  lemma MissingStep(c: Control, e: Event)
    requires Missing(c) && Asking(e)
    ensures Missing(Step(c, e)) && Step(c, e).past == c.past
  {
    hide Control.SetupReceived, Control.Served, Proper, ParseSetup;
  }

  /** A bus reset leaves the endpoint ready and the device without an address. */
  lemma ResetReady(c: Control)
    ensures Ready(c.BusReset()) && c.BusReset().address == 0 && c.BusReset().past.log == c.past.log + [Reset]
  {
  }
}
