/** The control endpoint of the USB device driver as the driver has it: one object whose handlers update
    its fields. Every handler is the function of the same name on `Control`. */
module UsbDevice {
  import opened Basics
  import opened UsbRequest
  import opened ControlPipe
  import opened DeviceCore
  import InterfaceSelection
  import LineCoding

  class ControlEndpoint {
    // The request, `udd_g_ctrlreq`.
    var req: Setup
    var payload: seq<byte>
    var payloadSize: nat
    var callback: Callback
    // The state of its transfer.
    var stage: Stage
    var nbTrans: nat
    var prevNbTrans: nat
    var needInZlp: bool
    // The controller.
    var address: nat
    var usb: Usbb
    ghost var past: Past

    ghost function View(): Control
      reads this
    {
      Control(Request(req, payload, payloadSize, callback), stage, nbTrans, prevNbTrans, needInZlp, address, usb, past)
    }

    constructor ()
      ensures View() == Enabled()
    {
      req, payload, payloadSize, callback := Setup(0, 0, 0, 0, 0), [], 0, NoCallback;
      stage, nbTrans, prevNbTrans, needInZlp, address := SetupStage, 0, 0, false, 0;
      usb := Usbb(None, None, None, false, false, false, false, false, false);
      past := Past([], [], [], 0, false, []);
    }

    /** While SET_LINE_CODING is under way the payload is the line coding of the CDC interface itself. */
    ghost predicate Linked(udc: Udc)
      reads this, udc
    {
      callback == LineCodingReceived ==> payload == udc.lineCoding
    }

    method EndOfRequest()
      modifies this
      ensures View() == old(View()).EndOfRequest() && payload == old(payload)
    {
      if callback != NoCallback {
        past := past.(log := past.log + [Ran(callback, req.wValue, past.over)]);
        if callback == ValidAddress {
          address := req.wValue % 128;
        }
      }
    }

    method Init()
      modifies this
      ensures View() == old(View()).Init() && payload == old(payload) && callback == NoCallback
    {
      usb := usb.(inSendInt := false);
      usb := usb.(out := None);
      callback := NoCallback;
      payloadSize := 0;
      stage := SetupStage;
    }

    ghost method Abandon()
      modifies this`past
      ensures View() == old(View()).Abandoned()
    {
      if callback != NoCallback {
        past := past.(log := past.log + [Dropped(callback)]);
      }
    }

    method StallData()
      modifies this
      ensures View() == old(View()).StallData() && payload == old(payload) && callback == old(callback)
    {
      stage := Stalled;
      usb := usb.(stall := true);
    }

    method SendZlpIn()
      modifies this
      ensures View() == old(View()).SendZlpIn()
    {
      stage := WaitInZlp;
      usb := usb.(bank := Some([]), inSendInt := true);
      usb := usb.(nakOut := false, nakOutInt := true);
    }

    method SendZlpOut()
      modifies this
      ensures View() == old(View()).SendZlpOut()
    {
      stage := WaitOutZlp;
      usb := usb.(nakIn := false, nakInInt := true);
    }

    /** The core's answer to a packet, byte by byte, from the state `b`, where the device has `address`. */
    ghost predicate Answered(udc: Udc, p: seq<byte>, address: nat, b: Device, a: Answer)
      requires b.s.In(udc.Env())
      reads udc, udc.endpoints
    {
      if |p| != 8 then a == Refused() && udc.State() == b else
      udc.Answers(p[0], p[1], p[2], p[3], p[4], p[6] as nat + 256 * p[7] as nat, address, b, udc.State(), a)
    }

    /** A SETUP packet was received. The core's answer to it is `a`: the one that its bytes call for, and proper, so that
        all that was proved of runs with proper answers holds of this driver. */
    method SetupReceived(udc: Udc) returns (a: Answer)
      requires usb.setup.Some? && udc.Valid() && (stage == SetupStage ==> callback == NoCallback)
      modifies this, udc, udc.endpoints
      ensures udc.Valid() && View() == old(View()).SetupReceived(a) && Linked(udc)
      ensures |old(usb).setup.value| == 8 ==> Proper(ParseSetup(old(usb).setup.value), a)
      ensures Answered(udc, old(usb).setup.value, old(View()).Cleared().address, old(udc.State()), a)
    {
      hide Udc.Valid, Udc.Answers, ParseSetup, Control.Cleared, Control.Refuse, Control.Grant, Control.Start;
      var packet := usb.setup.value;
      Clear();
      a := Refused();
      if |packet| != 8 {
        Refuse();
        return;
      }
      ParsedBytes(packet);
      req := ParseSetup(packet);
      a := udc.ProcessSetup(req, address);
      payload, payloadSize, callback := a.payload, a.size, a.callback;
      if !a.accepted {
        Refuse();
        return;
      }
      Grant();
      Start();
    }

    /** Ends a request that was not over. */
    method Clear()
      modifies this
      ensures View() == old(View()).Cleared() && callback == if old(stage) == SetupStage then old(callback) else NoCallback
    {
      hide Control.EndOfRequest, Control.Init;
      if stage != SetupStage {
        EndOfRequest();
        Init();
      }
      past := Past([], [], [], 0, old(past).over, past.log);
    }

    method Refuse()
      modifies this
      ensures View() == old(View()).Refuse() && callback == old(callback)
    {
      StallData();
      usb := usb.(setup := None);
    }

    method Grant()
      modifies this
      ensures View() == old(View()).Grant()
      ensures payload == old(payload) && payloadSize == old(payloadSize) && callback == old(callback)
    {
      usb := usb.(setup := None);
      past := past.(over := false, log := past.log + [Accepted(req, callback)]);
    }

    method Start()
      requires payloadSize <= |payload|
      modifies this
      ensures View() == old(View()).Start() && payload == old(payload) && callback == old(callback)
    {
      if req.IsIn() {
        needInZlp := payloadSize % EP_SIZE == 0;
        prevNbTrans := 0;
        nbTrans := 0;
        stage := DataIn;
        past := past.(offer := payload[..payloadSize]);
        InSent();
      } else if req.wLength == 0 {
        SendZlpIn();
      } else {
        prevNbTrans := 0;
        nbTrans := 0;
        stage := DataOut;
        past := past.(room := payloadSize);
        usb := usb.(nakIn := false, nakInInt := true);
      }
    }

    method InSent()
      requires stage != WaitInZlp ==> nbTrans <= payloadSize <= |payload|
      modifies this
      ensures View() == old(View()).InSent()
      ensures payload == old(payload) && callback == if old(stage) == WaitInZlp then NoCallback else old(callback)
    {
      usb := usb.(inSendInt := false);
      if stage == WaitInZlp {
        EndOfRequest();
        Init();
        return;
      }
      var remain := payloadSize - nbTrans;
      if remain == 0 {
        if !needInZlp {
          SendZlpOut();
          return;
        }
        needInZlp := false;
      }
      if remain > EP_SIZE {
        remain := EP_SIZE;
      }
      if usb.out.Some? {
        stage := WaitOutZlp;
        return;
      }
      var fifo := CopyOut(payload, nbTrans, remain);
      nbTrans := nbTrans + remain;
      usb := usb.(bank := Some(fifo), inSendInt := true);
    }

    /** Data go into the payload, and so into the line coding if that is what it is. */
    method OutReceived(udc: Udc)
      requires usb.out.Some? && (stage == DataOut ==> nbTrans <= payloadSize <= |payload|) && udc.Valid() && Linked(udc)
      modifies this, udc`lineCoding
      ensures udc.Valid() && View() == old(View()).OutReceived() && Linked(udc)
      ensures udc.lineCoding == if old(callback) == LineCodingReceived then payload else old(udc.lineCoding)
    {
      hide Control.OutStored, Control.EndOfRequest, Control.Init, Control.StallData, Control.Abandoned, Overwrite, Udc.Valid;
      if stage != DataOut {
        if stage == DataIn || stage == WaitOutZlp {
          EndOfRequest();
        } else {
          Abandon();
          StallData();
        }
        Init();
        return;
      }
      var n := StorePacket(udc);
      OutStored(n);
    }

    /** Reads an OUT packet as far as there is room for it. */
    method StorePacket(udc: Udc) returns (n: nat)
      requires stage == DataOut && usb.out.Some? && nbTrans <= payloadSize <= |payload| && udc.Valid() && Linked(udc)
      modifies this`payload, this`nbTrans, this`past, udc`lineCoding
      ensures n == Min(|usb.out.value|, payloadSize - old(nbTrans)) && udc.Valid() && Linked(udc)
      ensures View() == old(View()).(req := old(View()).req.(payload := Overwrite(old(payload), old(nbTrans), usb.out.value[..n])),
                                     nbTrans := old(nbTrans) + n,
                                     past := old(past).(packets := old(past).packets + [usb.out.value]))
      ensures udc.lineCoding == if callback == LineCodingReceived then payload else old(udc.lineCoding)
    {
      hide Udc.Valid;
      udc.CodingSize();
      n := |usb.out.value|;
      if payloadSize < nbTrans + n {
        n := payloadSize - nbTrans;
      }
      payload := CopyIn(payload, nbTrans, usb.out.value, n);
      if callback == LineCodingReceived {
        udc.StoreCoding(payload);
      }
      nbTrans := nbTrans + n;
      past := past.(packets := past.packets + [usb.out.value]);
    }

    /** What follows when `n` bytes of an OUT packet were stored. */
    method OutStored(n: nat)
      modifies this
      ensures View() == old(View()).OutStored(n) && payload == old(payload) && callback == old(callback)
    {
      if n != EP_SIZE || req.wLength <= prevNbTrans + nbTrans {
        payloadSize := nbTrans;
        usb := usb.(out := None);
        SendZlpIn();
        return;
      }
      if payloadSize == nbTrans {
        StallData();
        usb := usb.(out := None);
        return;
      }
      usb := usb.(out := None);
      usb := usb.(nakIn := false, nakInInt := true);
    }

    method Underflow()
      modifies this
      ensures View() == old(View()).Underflow() && payload == old(payload) && callback == old(callback)
    {
      if usb.out.Some? {
        return;
      }
      if stage == DataOut {
        SendZlpIn();
      } else if stage == WaitOutZlp {
        usb := usb.(stall := true);
      }
    }

    method Overflow()
      modifies this
      ensures View() == old(View()).Overflow() && payload == old(payload) && callback == old(callback)
    {
      if usb.bank.None? {
        return;
      }
      if stage == WaitInZlp {
        usb := usb.(stall := true);
      }
    }

    /** `udd_ctrl_interrupt`; `a` is the core's answer if there was a SETUP packet. */
    method Interrupt(udc: Udc) returns (handled: bool, a: Answer)
      requires udc.Valid() && Inv(View()) && Linked(udc)
      modifies this, udc, udc.endpoints
      ensures udc.Valid() && View() == Step(old(View()), Event.Interrupt(a)) && Inv(View()) && Linked(udc)
      ensures handled == old(View()).Pending()
      ensures if old(usb).setup.Some?
              then Answered(udc, old(usb).setup.value, old(View()).Cleared().address, old(udc.State()), a)
              else udc.State() == old(udc.State()).(lineCoding :=
                                    LineCoding.Next(LineCoding.Line(old(View()), old(udc.lineCoding)), Event.Interrupt(a)).coding)
    {
      hide Udc.Valid, Inv, Proper, ParseSetup, Control.SetupReceived, Control.InSent, Control.OutReceived, Control.Underflow,
           Control.Overflow, Control.Cleared, ControlEndpoint.Answered, InterfaceSelection.World.Described;
      ghost var before := View();
      a := Refused();
      handled := usb.setup.Some? || usb.out.Some? || (usb.bank.None? && usb.inSendInt)
                 || (usb.nakIn && usb.nakInInt) || (usb.nakOut && usb.nakOutInt);
      if handled {
        PayloadFits(before);
        usb := usb.(nakInInt := false, nakOutInt := false);
        ClearedAddress(before, usb);
        if usb.setup.Some? {
          a := SetupReceived(udc);
          WrongSize(before, a);
        } else {
          Dispatch(udc);
        }
      }
      StepHolds(before, Event.Interrupt(a));
    }

    /** The events other than a SETUP packet, in the order in which they are served. */
    method Dispatch(udc: Udc)
      requires usb.setup.None? && udc.Valid() && Linked(udc)
      requires (stage == DataIn || stage == DataOut ==> nbTrans <= payloadSize <= |payload|)
               && (usb.inSendInt ==> stage == DataIn || stage == WaitInZlp)
      modifies this, udc`lineCoding
      ensures udc.Valid() && View() == old(View()).Served() && Linked(udc)
      ensures udc.lineCoding == if old(callback) == LineCodingReceived then payload else old(udc.lineCoding)
    {
      hide Udc.Valid, Control.InSent, Control.OutReceived, Control.Underflow, Control.Overflow;
      if usb.bank.None? && usb.inSendInt {
        InSent();
      } else if usb.out.Some? {
        OutReceived(udc);
      } else if usb.nakOut {
        usb := usb.(nakOut := false);
        Overflow();
      } else if usb.nakIn {
        usb := usb.(nakIn := false);
        Underflow();
      }
    }

    /** The bus reset: the core, then the endpoint. */
    method BusReset(udc: Udc)
      requires udc.Valid()
      modifies this, udc, udc.endpoints
      ensures udc.Valid() && View() == old(View()).BusReset() && udc.numConfiguration == 0
      ensures Linked(udc) && udc.lineCoding == old(udc.lineCoding)
      ensures !udc.mismatch ==> udc.endpoints.enabled == {0}
    {
      udc.Reset();
      usb := Usbb(None, None, None, false, false, false, false, false, false);
      address := 0;
      past := Past([], [], [], 0, past.over, past.log + [Reset]);
      Init();
    }
  }

  lemma ClearedAddress(c: Control, usb: Usbb)
    ensures c.(usb := usb).Cleared().address == c.Cleared().address
  {
  }

  /** A SETUP packet of the wrong size is stalled whatever the answer. */
  lemma WrongSize(c: Control, a: Answer)
    requires c.usb.setup.Some?
    ensures |c.usb.setup.value| != 8 ==>
              c.(usb := c.usb.(nakInInt := false, nakOutInt := false)).SetupReceived(a)
              == c.(usb := c.usb.(nakInInt := false, nakOutInt := false)).SetupReceived(Refused())
  {
  }

  /** Fills the endpoint's bank from the payload. */
  method CopyOut(payload: seq<byte>, at: nat, n: nat) returns (fifo: seq<byte>)
    requires at + n <= |payload|
    ensures fifo == payload[at..at + n]
  {
    fifo := [];
    for i := 0 to n
      invariant fifo == payload[at..at + i]
    {
      fifo := fifo + [payload[at + i]];
    }
  }

  /** Stores the first `n` bytes of a packet in the payload. */
  method CopyIn(payload: seq<byte>, at: nat, data: seq<byte>, n: nat) returns (r: seq<byte>)
    requires at + n <= |payload| && n <= |data|
    ensures r == Overwrite(payload, at, data[..n])
  {
    r := payload;
    for i := 0 to n
      invariant r == payload[..at] + data[..i] + payload[at + i..]
    {
      r := r[at + i := data[i]];
      assert r == payload[..at] + data[..i + 1] + payload[at + i + 1..];
    }
  }
}
