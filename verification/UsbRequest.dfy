/** Requests on the default control pipe, and what the device core may answer. */
module UsbRequest {

  type byte = x: int | 0 <= x < 256

  /** A SETUP packet, section 9.3 of the USB 2.0 specification. */
  datatype Setup = Setup(bmRequestType: nat, bRequest: nat, wValue: nat, wIndex: nat, wLength: nat) {
    /** The data stage, if any, goes from the device to the host. */
    predicate IsIn() {
      bmRequestType / 128 % 2 == 1
    }

    function Type(): nat {
      bmRequestType / 32 % 4
    }

    function Recipient(): nat {
      bmRequestType % 32
    }

    predicate Asks(recipient: nat, request: nat) {
      Recipient() == recipient && bRequest == request
    }

    /** A standard request to the device. */
    predicate IsDeviceRequest(request: nat) {
      Type() == TYPE_STANDARD && Asks(RECIPIENT_DEVICE, request)
    }

    /** The fields have one and two bytes. */
    predicate Fits() {
      bmRequestType < 256 && bRequest < 256 && wValue < 0x1_0000 && wIndex < 0x1_0000 && wLength < 0x1_0000
    }

    predicate IsSetAddress() {
      !IsIn() && IsDeviceRequest(SET_ADDRESS) && wLength == 0
    }
  }

  /** The parts of the request's type. */
  lemma KindOf(req: Setup)
    requires req.Fits()
    ensures req.bmRequestType == (if req.IsIn() then 128 else 0) + 32 * req.Type() + req.Recipient()
    ensures req.Type() < 4 && req.Recipient() < 32
  {
  }

  const TYPE_STANDARD := 0
  const TYPE_CLASS := 1
  const RECIPIENT_DEVICE := 0
  const RECIPIENT_INTERFACE := 1
  const RECIPIENT_ENDPOINT := 2

  const GET_STATUS := 0
  const CLEAR_FEATURE := 1
  const SET_FEATURE := 3
  const SET_ADDRESS := 5
  const GET_DESCRIPTOR := 6
  const GET_CONFIGURATION := 8
  const SET_CONFIGURATION := 9
  const GET_INTERFACE := 10
  const SET_INTERFACE := 11

  function Word(low: byte, high: byte): nat {
    low as nat + 256 * high as nat
  }

  function ParseSetup(bytes: seq<byte>): Setup
    requires |bytes| == 8
  {
    Setup(bytes[0] as nat, bytes[1] as nat, Word(bytes[2], bytes[3]), Word(bytes[4], bytes[5]), Word(bytes[6], bytes[7]))
  }

  /** A packet's fields are its bytes: type, number, and three 16-bit fields with the low byte first. */
  lemma ParsedBytes(p: seq<byte>)
    requires |p| == 8
    ensures var req := ParseSetup(p);
            && req.Fits() && req.bmRequestType == p[0] && req.bRequest == p[1]
            && req.wValue % 256 == p[2] && req.wValue / 256 == p[3]
            && req.wIndex % 256 == p[4] && req.wIndex / 256 == p[5]
            && req.wLength == p[6] as nat + 256 * p[7] as nat
  {
    hide Word;
    WordBytes(p[2], p[3]);
    WordBytes(p[4], p[5]);
    WordBytes(p[6], p[7]);
  }

  lemma WordBytes(low: byte, high: byte)
    ensures Word(low, high) % 256 == low && Word(low, high) / 256 == high && Word(low, high) == low as nat + 256 * high as nat
  {
  }

  /** What is to run when a request is over. */
  datatype Callback = NoCallback | ValidAddress | LineCodingReceived

  /** The answer to a SETUP packet: whether it is supported, the buffer of the data stage and how much
      of it is to be used, and the callback. */
  datatype Answer = Answer(accepted: bool, payload: seq<byte>, size: nat, callback: Callback)

  function Refused(): Answer {
    Answer(false, [], 0, NoCallback)
  }

  /** What the device core keeps to. An answer to an IN request is no longer than the host asked for
      (section 9.3.5 of the USB 2.0 specification); only an accepted SET_ADDRESS changes the address. */
  predicate Proper(req: Setup, a: Answer) {
    && a.size <= |a.payload| && a.size < 0x1_0000
    && (a.callback != NoCallback ==> a.accepted && !req.IsIn())
    && (a.callback == ValidAddress ==> req.IsSetAddress())
    && (a.accepted && req.IsIn() ==> 0 < req.wLength && a.size <= req.wLength)
  }
}
