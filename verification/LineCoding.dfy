/** The line coding of the CDC interface over whole transfers: what the host sets is what it gets. */
module LineCoding {
  import opened Basics
  import opened UsbRequest
  import opened ControlPipe
  import opened ControlTransfers

  /** The control endpoint and the line coding, which is the payload of a SET_LINE_CODING request while that is under
      way. */
  datatype Line = Line(c: Control, coding: seq<byte>)

  function Next(l: Line, e: Event): Line {
    var d := Step(l.c, e);
    Line(d, if e.Interrupt? && l.c.usb.setup.None? && l.c.req.callback == LineCodingReceived then d.req.payload else l.coding)
  }

  function After(l: Line, events: seq<Event>): Line
    decreases |events|
  {
    if events == [] then l else After(Next(l, events[0]), events[1..])
  }

  const SET_LINE_CODING: seq<byte> := [0x21, 0x20, 0, 0, 0, 0, 7, 0]
  const GET_LINE_CODING: seq<byte> := [0xA1, 0x21, 0, 0, 0, 0, 7, 0]

  /** The host sends the request, its data and the IN token of the status stage, each followed by an interrupt; `a` and
      `b` are the core's answers. */
  function Set(data: seq<byte>, a: Answer, b: Answer): seq<Event> {
    [Event.HostSetup(SET_LINE_CODING), Event.Interrupt(a), Event.HostOut(data), Event.Interrupt(Refused()), Event.HostIn,
     Event.Interrupt(b)]
  }

  /** From every state: once SET_LINE_CODING with seven bytes is over these are the line coding, whatever it was, and the
      callback has run. */
  lemma SetStores(l: Line, data: seq<byte>, b: Answer)
    requires Inv(l.c) && (l.c.stage != SetupStage || l.c.usb.out.None?) && |l.coding| == 7 && |data| == 7
    ensures var r := After(l, Set(data, Answer(true, l.coding, 7, LineCodingReceived), b));
            && Inv(r.c) && Ready(r.c) && r.coding == data
            && r.c.past.log != [] && r.c.past.log[|r.c.past.log| - 1] == Ran(LineCodingReceived, 0, true)
  {
    var a := Answer(true, l.coding, 7, LineCodingReceived);
    SetParsed(a);
    hide Inv, Ready, Step, ParseSetup, Acceptable, Setup.IsIn;
    OutTransfer(l.c, SET_LINE_CODING, a, data, b);
    SixEvents(l, Set(data, a, b));
    AskedOut(l.c, SET_LINE_CODING, a);
    var c2 := Asked(l.c, SET_LINE_CODING, a);
    OutPacketDecides(c2, data);
    NoSetupYet(c2, data);
    NoSetupYet(OutPacket(c2, data), data);
    assert data + l.coding[7..] == data;
  }

  lemma SetParsed(a: Answer)
    requires |a.payload| == 7 && a == Answer(true, a.payload, 7, LineCodingReceived)
    ensures ParseSetup(SET_LINE_CODING) == Setup(0x21, 0x20, 0, 0, 7) && !ParseSetup(SET_LINE_CODING).IsIn()
    ensures Acceptable(SET_LINE_CODING, a)
  {
  }

  /** The host makes no SETUP packet of what it does in a data or status stage. */
  lemma NoSetupYet(c: Control, data: seq<byte>)
    requires c.usb.setup.None?
    ensures Step(c, HostOut(data)).usb.setup.None? && Step(c, HostIn).usb.setup.None?
    ensures Step(c, HostOut(data)).req == c.req && Step(c, HostIn).req == c.req
  {
  }

  lemma SixEvents(l: Line, es: seq<Event>)
    requires |es| == 6
    ensures After(l, es) == Next(Next(Next(Next(Next(Next(l, es[0]), es[1]), es[2]), es[3]), es[4]), es[5])
  {
    hide Next;
    FirstEvent(l, es, 0);
    var l1 := Next(l, es[0]);
    FirstEvent(l1, es, 1);
    var l2 := Next(l1, es[1]);
    FirstEvent(l2, es, 2);
    var l3 := Next(l2, es[2]);
    FirstEvent(l3, es, 3);
    var l4 := Next(l3, es[3]);
    FirstEvent(l4, es, 4);
    FirstEvent(Next(l4, es[4]), es, 5);
  }

  lemma FirstEvent(l: Line, es: seq<Event>, i: nat)
    requires i < |es|
    ensures es[0..] == es && After(l, es[i..]) == After(Next(l, es[i]), es[i + 1..])
    ensures i + 1 == |es| ==> After(Next(l, es[i]), es[i + 1..]) == Next(l, es[i])
  {
    hide Next;
    assert es[i..][1..] == es[i + 1..];
  }

  /** The host then asks for it, in whatever order its IN tokens and the interrupts come: once it has the whole answer,
      that is what it set. */
  lemma SetThenGet(l: Line, data: seq<byte>, b: Answer, events: seq<Event>)
    requires Inv(l.c) && (l.c.stage != SetupStage || l.c.usb.out.None?) && |l.coding| == 7 && |data| == 7
    requires forall e | e in events :: Asking(e)
    requires var r := After(l, Set(data, Answer(true, l.coding, 7, LineCodingReceived), b));
             Moved(Asked(r.c, GET_LINE_CODING, Answer(true, r.coding, 7, NoCallback)), events) == 2
    ensures var r := After(l, Set(data, Answer(true, l.coding, 7, LineCodingReceived), b));
            Run(Asked(r.c, GET_LINE_CODING, Answer(true, r.coding, 7, NoCallback)), events).past.taken == [data]
  {
    hide Inv, After, Set, Acceptable, ParseSetup, Asked, Run, Moved, Setup.IsIn;
    SetStores(l, data, b);
    var r := After(l, Set(data, Answer(true, l.coding, 7, LineCodingReceived), b));
    GetParsed(Answer(true, r.coding, 7, NoCallback));
    InTransfer(r.c, GET_LINE_CODING, Answer(true, r.coding, 7, NoCallback), events);
    assert r.coding[..7] == data;
    assert Packets(data) == [data];
  }

  lemma GetParsed(a: Answer)
    requires |a.payload| == 7 && a == Answer(true, a.payload, 7, NoCallback)
    ensures ParseSetup(GET_LINE_CODING).IsIn() && Acceptable(GET_LINE_CODING, a)
  {
  }
}
