/** The device core: it selects configurations and interface settings by walking the configuration
    descriptor, and answers the requests of the control pipe. */
module DeviceCore {
  import opened Basics
  import opened UsbRequest
  import opened Descriptors
  import opened DataEndpoints
  import opened InterfaceSelection

  const CDC_SET_LINE_CODING := 0x20
  const CDC_GET_LINE_CODING := 0x21
  const CDC_SET_CONTROL_LINE_STATE := 0x22
  const CDC_COMM_INTERFACE := 0

  const REMOTE_WAKEUP := 1
  const ENDPOINT_HALT := 0

  function Supported(): Answer {
    Answer(true, [], 0, NoCallback)
  }

  function Data(payload: seq<byte>): Answer {
    Answer(true, payload, |payload|, NoCallback)
  }

  /** The data asked for, cut to the length the host can take. */
  function Clipped(d: Option<seq<byte>>, wLength: nat): Answer {
    match d
    case None => Refused()
    case Some(bytes) => Answer(true, bytes, if wLength < |bytes| then wLength else |bytes|, NoCallback)
  }

  /** Two bytes, the low one first. */
  function LittleEndian(value: nat): seq<byte> {
    [(value % 256) as byte, (value / 256 % 256) as byte]
  }

  /** A string descriptor: length, type, and the characters as 16-bit units. */
  function StringDescriptor(s: seq<byte>): (r: seq<byte>)
    requires |s| <= 126
    ensures |r| == 2 + 2 * |s|
  {
    [(2 + 2 * |s|) as byte, DT_STRING] + Utf16(s)
  }

  function Utf16(s: seq<byte>): (r: seq<byte>)
    ensures |r| == 2 * |s|
  {
    if s == [] then [] else Utf16(s[..|s| - 1]) + [s[|s| - 1], 0]
  }

  const LANGUAGE_ID: seq<byte> := [4, 3, 9, 4]

  /** The line coding after `udi_cdc_comm_enable`: 115200 baud with the low byte first, one stop bit, no parity, 8 bits. */
  const DEFAULT_CODING: seq<byte> := [0x00, 0xC2, 0x01, 0x00, 0, 0, 8]

  /** What requests can read and change. */
  datatype Device = Device(s: Selection, status: nat, halted: set<nat>, busy: set<nat>, lineCoding: seq<byte>)

  /** A string descriptor, byte by byte: its length, its type, and each character followed by a zero. An empty string
      has none. */
  ghost predicate IsString(s: seq<byte>, d: seq<byte>) {
    if s == [] then d == []
    else && |d| == 2 + 2 * |s| && d[0] == |d| && d[1] == DT_STRING
         && forall i | 0 <= i < |s| :: d[2 + 2 * i] == s[i] && d[3 + 2 * i] == 0
  }

  lemma StringGiven(s: seq<byte>)
    requires 0 < |s| <= 126
    ensures IsString(s, StringDescriptor(s))
  {
    forall i | 0 <= i < |s|
      ensures Utf16(s)[2 * i] == s[i] && Utf16(s)[2 * i + 1] == 0
    {
      Utf16At(s, i);
    }
  }

  lemma {:induction false} Utf16At(s: seq<byte>, i: nat)
    requires i < |s|
    ensures Utf16(s)[2 * i] == s[i] && Utf16(s)[2 * i + 1] == 0
  {
    if i < |s| - 1 {
      Utf16At(s[..|s| - 1], i);
    }
  }

  class Udc {
    const configs: seq<seq<byte>>
    const deviceDescriptor: seq<byte>
    /** The manufacturer, product and serial number strings that the device has. */
    const strings: map<nat, seq<byte>>
    const endpoints: Endpoints
    /** Whether the n-th attempt to enable an interface's driver succeeds. */
    const driverEnables: nat -> bool
    /** The setting that a driver reports after the n-th attempt, which was made with a setting. */
    const driverReports: (nat, nat) -> nat

    var numConfiguration: nat
    var ptrIface: nat
    var deviceStatus: nat
    var lineCoding: seq<byte>
    // The drivers of the interfaces.
    var attempts: nat
    var reported: map<nat, nat>
    // History, see `Selection`.
    ghost var asked: map<nat, nat>
    ghost var partial: bool
    ghost var mismatch: bool

    ghost function Env(): World {
      World(configs, endpoints.configured, driverEnables, driverReports)
    }

    ghost function View(): Selection
      reads this, endpoints
    {
      Selection(numConfiguration, endpoints.enabled, endpoints.checks, attempts, reported, asked, partial, mismatch)
    }

    ghost function State(): Device
      reads this, endpoints
    {
      Device(View(), deviceStatus, endpoints.halted, endpoints.busy, lineCoding)
    }

    ghost predicate Valid()
      reads this, endpoints
    {
      && Env().Described() && |deviceDescriptor| == 18 && deviceDescriptor[1] == DT_DEVICE && deviceDescriptor[17] == |configs|
      && deviceStatus < 0x1_0000
      && (forall i | i in strings :: 0 < i <= 3 && |strings[i]| <= 126)
      && |lineCoding| == 7 && numConfiguration <= |configs|
      && (mismatch || Inv(Env(), View()))
    }

    /** The selected configuration. */
    function Conf(): (block: seq<byte>)
      requires 0 < numConfiguration <= |configs| && IsBlock(configs[numConfiguration - 1])
      reads this`numConfiguration
      ensures IsBlock(block)
    {
      configs[numConfiguration - 1]
    }

    /** The setting that the driver of an interface reports. */
    function GetSetting(iface: nat): nat
      reads this`reported
    {
      if iface in reported then reported[iface] else 0
    }

    constructor (configs: seq<seq<byte>>, deviceDescriptor: seq<byte>, strings: map<nat, seq<byte>>, endpoints: Endpoints,
                 driverEnables: nat -> bool, driverReports: (nat, nat) -> nat)
      requires forall i | 0 <= i < |configs| :: IsConfiguration(configs[i])
      requires |deviceDescriptor| == 18 && deviceDescriptor[1] == DT_DEVICE && deviceDescriptor[17] == |configs|
      requires forall i | i in strings :: 0 < i <= 3 && |strings[i]| <= 126
      requires endpoints.enabled == {0} && endpoints.checks == 0
      ensures Valid() && this.endpoints == endpoints && View() == Unselected
      ensures Env() == World(configs, endpoints.configured, driverEnables, driverReports)
    {
      this.configs := configs;
      this.deviceDescriptor := deviceDescriptor;
      this.strings := strings;
      this.endpoints := endpoints;
      this.driverEnables := driverEnables;
      this.driverReports := driverReports;
      numConfiguration, ptrIface, deviceStatus, attempts := 0, 0, 1, 0;
      lineCoding := [0, 0, 0, 0, 0, 0, 0];
      reported, asked, partial, mismatch := map[], map[], false, false;
    }

    // ---- Walking the descriptor ------------------------------------------------------

    /** `udc_next_desc_in_iface`: the next descriptor of a type that belongs to the interface. */
    method NextDescInIface(desc: nat, kind: byte) returns (next: Option<nat>)
      requires 0 < numConfiguration <= |configs| && IsBlock(configs[numConfiguration - 1])
      requires Chained(Conf(), desc) && desc < |Conf()|
      ensures PointsTo(Conf(), desc, FromNext(Parse(Conf(), desc)[1..], kind), next)
    {
      hide Chained, Parse, FromNext;
      var block := Conf();
      var eof := Word(block[2], block[3]);
      ParseStep(block, desc);
      var at := desc + block[desc];
      while at < eof
        invariant desc < at <= |block| && Chained(block, at)
        invariant FromNext(Parse(block, at), kind) == FromNext(Parse(block, desc)[1..], kind)
        decreases eof - at
      {
        FromNextStep(block, at, kind);
        if block[at + 1] == DT_INTERFACE {
          return None;
        }
        if kind == block[at + 1] {
          return Some(at);
        }
        ParseStep(block, at);
        at := at + block[at];
      }
      NothingLeft(block, kind);
      next := None;
    }

    /** `udc_update_iface_desc`: points `ptrIface` to the descriptor of an interface setting. */
    method UpdateIfaceDesc(iface: nat, setting: nat) returns (found: bool)
      requires numConfiguration <= |configs|
      requires numConfiguration != 0 ==> IsBlock(configs[numConfiguration - 1]) && Named(Parse(Conf(), 0))
      modifies `ptrIface
      ensures found <==> numConfiguration != 0 && iface < Conf()[4] && HasSetting(Conf(), iface, setting)
      ensures found ==> AtSetting(Conf(), iface, setting, ptrIface)
    {
      hide Chained, Parse, FromSetting, Named;
      if numConfiguration == 0 {
        return false;
      }
      var block := Conf();
      if iface >= block[4] {
        return false;
      }
      ptrIface := 0;
      var end := Word(block[2], block[3]);
      while ptrIface < end
        invariant ptrIface <= |block| && Chained(block, ptrIface) && Named(Parse(block, ptrIface))
        invariant FromSetting(Parse(block, ptrIface), iface, setting) == FromSetting(Parse(block, 0), iface, setting)
        decreases end - ptrIface
      {
        FromSettingStep(block, ptrIface, iface, setting);
        if block[ptrIface + 1] == DT_INTERFACE {
          if iface == block[ptrIface + 2] && setting == block[ptrIface + 3] {
            return true;
          }
        }
        ParseStep(block, ptrIface);
        ptrIface := ptrIface + block[ptrIface];
      }
      NoSettingLeft(block, iface, setting);
      found := false;
    }

    // ---- Enabling and disabling interfaces -------------------------------------------

    /** `udc_iface_disable`. */
    method IfaceDisable(iface: nat) returns (ok: bool)
      requires Valid()
      modifies this`ptrIface, this`asked, endpoints`enabled, endpoints`busy
      ensures Valid() && Outcome(ok, View()) == Disable(Env(), old(View()), iface)
    {
      hide HasSetting, AtSetting, SettingEndpoints, Numbers, IsConfiguration, Inv;
      WalkReady();
      ghost var s := View();
      ok := UpdateIfaceDesc(iface, 0);
      if ok {
        ok := UpdateIfaceDesc(iface, GetSetting(iface));
        if ok {
          FreeEndpoints(iface, GetSetting(iface));
        }
      }
      asked := asked - {iface};
      if !mismatch {
        DisableHolds(Env(), s, iface);
      }
    }

    /** The walks can run over the selected configuration. */
    lemma WalkReady()
      requires Env().Described() && numConfiguration <= |configs|
      ensures numConfiguration != 0 ==>
                && IsBlock(configs[numConfiguration - 1]) && IsConfiguration(Conf())
                && Named(Parse(Conf(), 0)) && Numbered(Parse(Conf(), 0))
    {
    }

    /** Frees the endpoints of the interface setting at `ptrIface`. */
    method FreeEndpoints(iface: nat, setting: nat)
      requires 0 < numConfiguration <= |configs| && IsConfiguration(configs[numConfiguration - 1])
      requires AtSetting(Conf(), iface, setting, ptrIface)
      modifies endpoints`enabled, endpoints`busy
      ensures endpoints.enabled == old(endpoints.enabled) - Numbers(SettingEndpoints(Conf(), iface, setting))
    {
      hide Chained, Parse, FromSetting, FromNext, EndpointsOf, Numbers, HasSetting, Numbered;
      ghost var all := SettingEndpoints(Conf(), iface, setting);
      ghost var done: seq<Descriptor> := [];
      var desc := ptrIface;
      EndpointsFrom(Conf(), iface, setting, desc);
      NumbersGrow([], Descriptor(0, []));
      while true
        invariant desc < |Conf()| && Chained(Conf(), desc) && Numbered(Parse(Conf(), desc))
        invariant all == done + EndpointsOf(Parse(Conf(), desc)[1..])
        invariant endpoints.enabled == old(endpoints.enabled) - Numbers(done)
        decreases |Conf()| - desc
      {
        var next := NextDescInIface(desc, DT_ENDPOINT);
        EndpointStep(Conf(), desc, next);
        if next == None {
          assert done + [] == done;
          break;
        }
        desc := next.value;
        endpoints.Free(Conf()[desc + 2]);
        NumbersGrow(done, Parse(Conf(), desc)[0]);
        done := done + [Parse(Conf(), desc)[0]];
      }
    }

    /** `udc_iface_enable`. */
    method IfaceEnable(iface: nat, setting: nat) returns (ok: bool)
      requires Valid() && (mismatch || (iface !in asked && MayEnable(Env(), View(), iface, setting)))
      modifies this`ptrIface, this`asked, this`partial, this`mismatch, this`attempts, this`reported, this`lineCoding
      modifies endpoints`enabled, endpoints`checks
      ensures Valid() && Outcome(ok, View()) == Enable(Env(), old(View()), iface, setting)
      ensures old(attempts) <= attempts
      ensures lineCoding == if iface == CDC_COMM_INTERFACE && old(attempts) < attempts then DEFAULT_CODING else old(lineCoding)
    {
      hide HasSetting, AtSetting, SettingEndpoints, Numbers, IsConfiguration, Inv, AllocateAll, Named, Numbered, Parse;
      WalkReady();
      ghost var s := View();
      if !mismatch {
        EnableHolds(Env(), s, iface, setting);
      }
      ok := UpdateIfaceDesc(iface, setting);
      if ok {
        ok := AllocEndpoints(iface, setting);
        asked := asked[iface := setting];
        if ok {
          ok := DriverEnable(iface, setting);
        } else {
          partial := true;
        }
        mismatch := mismatch || GetSetting(iface) != setting;
      }
    }

    /** The interface's own enable function; that of the communication interface resets the line coding. */
    method DriverEnable(iface: nat, setting: nat) returns (ok: bool)
      modifies this`attempts, this`reported, this`lineCoding
      ensures lineCoding == if iface == CDC_COMM_INTERFACE then DEFAULT_CODING else old(lineCoding)
      ensures attempts == old(attempts) + 1 && ok == driverEnables(attempts)
      ensures reported == old(reported)[iface := driverReports(attempts, setting)]
    {
      if iface == CDC_COMM_INTERFACE {
        lineCoding := DEFAULT_CODING;
      }
      attempts := attempts + 1;
      reported := reported[iface := driverReports(attempts, setting)];
      ok := driverEnables(attempts);
    }

    /** Allocates the endpoints of the interface setting at `ptrIface`. */
    method AllocEndpoints(iface: nat, setting: nat) returns (ok: bool)
      requires 0 < numConfiguration <= |configs| && IsConfiguration(configs[numConfiguration - 1])
      requires AtSetting(Conf(), iface, setting, ptrIface)
      modifies endpoints`enabled, endpoints`checks
      ensures Allocation(ok, endpoints.enabled, endpoints.checks)
           == AllocateAll(endpoints.configured, old(endpoints.enabled), old(endpoints.checks),
                          SettingEndpoints(Conf(), iface, setting))
    {
      hide Chained, Parse, FromSetting, FromNext, EndpointsOf, Allocate, HasSetting, Numbered;
      ghost var all := AllocateAll(endpoints.configured, endpoints.enabled, endpoints.checks,
                                   SettingEndpoints(Conf(), iface, setting));
      var desc := ptrIface;
      EndpointsFrom(Conf(), iface, setting, desc);
      while true
        invariant desc < |Conf()| && Chained(Conf(), desc) && Numbered(Parse(Conf(), desc))
        invariant all == AllocateAll(endpoints.configured, endpoints.enabled, endpoints.checks,
                                     EndpointsOf(Parse(Conf(), desc)[1..]))
        decreases |Conf()| - desc
      {
        var next := NextDescInIface(desc, DT_ENDPOINT);
        EndpointStep(Conf(), desc, next);
        if next == None {
          break;
        }
        desc := next.value;
        ghost var rest := EndpointsOf(Parse(Conf(), desc)[1..]);
        assert ([Parse(Conf(), desc)[0]] + rest)[1..] == rest;
        ok := endpoints.Alloc(Conf()[desc + 2], Conf()[desc + 3]);
        if !ok {
          return;
        }
      }
      ok := true;
    }

    /** `udc_reset`: if no interface was ever left with endpoints of a setting its driver does not report, no
        data endpoint stays enabled. */
    method Reset()
      requires Valid()
      modifies this`numConfiguration, this`ptrIface, this`deviceStatus, this`asked, endpoints`enabled, endpoints`busy
      ensures Valid() && View() == InterfaceSelection.Reset(Env(), old(View())) && deviceStatus == 1
      ensures !mismatch ==> endpoints.enabled == {0}
    {
      hide HasSetting, SettingEndpoints, Numbers, IsConfiguration, Disable, Inv;
      WalkReady();
      ghost var s := View();
      if numConfiguration != 0 {
        var iface := 0;
        while iface < Conf()[4]
          invariant Valid() && numConfiguration == old(numConfiguration) && IsBlock(configs[numConfiguration - 1])
          invariant iface <= Conf()[4] && View() == DisableAll(Env(), s, iface)
          decreases Conf()[4] - iface
        {
          var _ := IfaceDisable(iface);
          iface := iface + 1;
        }
      }
      numConfiguration := 0;
      asked := map[];
      deviceStatus := 1;
      if !old(mismatch) {
        ResetClears(Env(), s);
      }
    }

    // ---- Requests that change the configuration --------------------------------------

    /** `udc_req_std_dev_set_configuration`. */
    method SetConfiguration(req: Setup, address: nat) returns (ok: bool)
      requires Valid()
      modifies this`numConfiguration, this`ptrIface, this`deviceStatus, this`asked, this`partial, this`mismatch
      modifies this`attempts, this`reported, this`lineCoding, endpoints`enabled, endpoints`checks, endpoints`busy
      ensures Valid() && lineCoding == if old(attempts) < attempts then DEFAULT_CODING else old(lineCoding)
      ensures if req.wLength != 0 || address == 0 || req.wValue % 256 > |configs|
              then !ok && State() == old(State())
              else Outcome(ok, View()) == Configure(Env(), old(View()), req.wValue % 256) && deviceStatus == 1
    {
      hide HasSetting, SettingEndpoints, Numbers, IsConfiguration, EnableAll, Inv, InterfaceSelection.Reset;
      if req.wLength != 0 || address == 0 || req.wValue % 256 > deviceDescriptor[17] {
        return false;
      }
      Reset();
      Reconfigured(Env(), View(), req.wValue % 256);
      numConfiguration := req.wValue % 256;
      if numConfiguration == 0 {
        return true;
      }
      ok := EnableDefaults();
    }

    /** Enables all interfaces of the selected configuration with their default setting. */
    method EnableDefaults() returns (ok: bool)
      requires Valid() && numConfiguration != 0 && asked == map[]
      modifies this`ptrIface, this`asked, this`partial, this`mismatch, this`attempts, this`reported, this`lineCoding
      modifies endpoints`enabled, endpoints`checks
      ensures Valid() && Outcome(ok, View()) == EnableAll(Env(), old(View()), old(View()).Interfaces(Env()))
      ensures lineCoding == if old(attempts) < attempts then DEFAULT_CODING else old(lineCoding)
    {
      hide HasSetting, SettingEndpoints, Numbers, IsConfiguration, Enable, Inv;
      WalkReady();
      ghost var s := View();
      var iface := 0;
      while iface < Conf()[4]
        invariant Valid() && numConfiguration == s.conf && IsBlock(configs[numConfiguration - 1])
        invariant iface <= Conf()[4] && Outcome(true, View()) == EnableAll(Env(), s, iface)
        invariant s.attempts <= attempts && (0 < iface ==> s.attempts < attempts)
        invariant lineCoding == if s.attempts < attempts then DEFAULT_CODING else old(lineCoding)
        decreases Conf()[4] - iface
      {
        DefaultNext(Env(), s, View(), iface);
        ghost var now := View();
        var enabled := IfaceEnable(iface, 0);
        if !enabled {
          EnableAllStops(Env(), s, iface + 1, s.Interfaces(Env()));
          return false;
        }
        EnableAsks(Env(), now, iface, 0);
        iface := iface + 1;
      }
      ok := true;
    }

    /** `udc_req_std_iface_set_setting`. */
    method SetInterface(req: Setup) returns (ok: bool)
      requires Valid()
      modifies this`ptrIface, this`asked, this`partial, this`mismatch, this`attempts, this`reported, this`lineCoding
      modifies endpoints`enabled, endpoints`checks, endpoints`busy
      ensures Valid()
      ensures lineCoding == if req.wIndex % 256 == CDC_COMM_INTERFACE && old(attempts) < attempts then DEFAULT_CODING
                            else old(lineCoding)
      ensures if req.wLength != 0 || old(numConfiguration) == 0 then !ok && State() == old(State())
              else Outcome(ok, View()) == Switch(Env(), old(View()), req.wIndex % 256, req.wValue % 256)
    {
      hide HasSetting, SettingEndpoints, Numbers, IsConfiguration, Inv;
      if req.wLength != 0 || numConfiguration == 0 {
        return false;
      }
      ghost var before := View();
      ok := IfaceDisable(req.wIndex % 256);
      if ok {
        SwitchReady(Env(), before, req.wIndex % 256, req.wValue % 256);
        assert req.wIndex % 256 !in View().asked;
        ok := IfaceEnable(req.wIndex % 256, req.wValue % 256);
      }
    }

    // ---- Requests for data -----------------------------------------------------------

    /** The descriptor that a GET_DESCRIPTOR request names. */
    function DescriptorOf(wValue: nat): Option<seq<byte>>
      requires forall i | i in strings :: |strings[i]| <= 126
    {
      var index := wValue % 256;
      match wValue / 256 % 256
      case 1 => Some(deviceDescriptor)
      case 2 => if index < |configs| then Some(configs[index]) else None
      case 3 =>
        if index == 0 then Some(LANGUAGE_ID)
        else if index in strings then Some(if strings[index] == [] then [] else StringDescriptor(strings[index]))
        else None
      case _ => None
    }

    lemma DescriptorFits(wValue: nat)
      requires Valid()
      ensures match DescriptorOf(wValue) case None => true case Some(d) => |d| < 0x1_0000
    {
    }

    /** The device has a descriptor of this type and index. */
    predicate HasDescriptor(kind: nat, index: nat) {
      kind == 1 || (kind == 2 && index < |configs|) || (kind == 3 && (index == 0 || index in strings))
    }

    /** The answer to a request for a descriptor: accepted exactly if there is such a one, and then the one of that
        type and index, which names its own type, and no more of it than asked for. */
    ghost predicate GivesDescriptor(kind: nat, index: nat, wLength: nat, a: Answer) {
      && (if HasDescriptor(kind, index) then a.accepted else a == Refused())
      && (a.accepted ==>
            && a.size == Min(|a.payload|, wLength) && a.callback == NoCallback
            && (a.payload != [] ==> 2 <= |a.payload| && a.payload[1] as nat == kind)
            && (kind == 1 ==> a.payload == deviceDescriptor)
            && (kind == 2 ==> a.payload == configs[index])
            && (kind == 3 && index == 0 ==> a.payload == [4, 3, 9, 4])
            && (kind == 3 && index != 0 ==> IsString(strings[index], a.payload)))
    }

    lemma DescriptorGiven(wValue: nat, wLength: nat)
      requires Valid()
      ensures GivesDescriptor(wValue / 256 % 256, wValue % 256, wLength, Clipped(DescriptorOf(wValue), wLength))
    {
      hide Inv, Numbered, Named, Parse;
      var index := wValue % 256;
      if index in strings && strings[index] != [] {
        StringGiven(strings[index]);
      }
    }

    /** `udc_req_std_dev_get_str_desc`. */
    method GetString(index: nat) returns (d: Option<seq<byte>>)
      requires Valid()
      ensures d == if index == 0 then Some(LANGUAGE_ID)
                   else if index in strings then Some(if strings[index] == [] then [] else StringDescriptor(strings[index]))
                   else None
    {
      if index == 0 {
        return Some(LANGUAGE_ID);
      }
      if index !in strings {
        return None;
      }
      var str := strings[index];
      if |str| == 0 {
        return Some([]);
      }
      var units: seq<byte> := [];
      for i := 0 to |str|
        invariant units == Utf16(str[..i])
      {
        assert str[..i + 1][..i] == str[..i];
        units := units + [str[i], 0];
      }
      assert str[..|str|] == str;
      d := Some([(2 + 2 * |str|) as byte, DT_STRING] + units);
    }

    /** `udc_req_std_dev_get_descriptor`: no more than the host asked for. */
    method GetDescriptor(req: Setup) returns (a: Answer)
      requires Valid()
      ensures a == Clipped(DescriptorOf(req.wValue), req.wLength)
      ensures GivesDescriptor(req.wValue / 256 % 256, req.wValue % 256, req.wLength, a)
    {
      hide GivesDescriptor;
      DescriptorGiven(req.wValue, req.wLength);
      var index := req.wValue % 256;
      match req.wValue / 256 % 256 {
        case 1 => a := Data(deviceDescriptor);
        case 2 =>
          if index >= deviceDescriptor[17] {
            return Refused();
          }
          var block := configs[index];
          a := Answer(true, block, Word(block[2], block[3]), NoCallback);
        case 3 =>
          var d := GetString(index);
          if d == None {
            return Refused();
          }
          a := Data(d.value);
        case _ => return Refused();
      }
      if req.wLength < a.size {
        a := a.(size := req.wLength);
      }
    }

    /** `udc_req_std_iface_get_setting`. */
    method GetInterface(req: Setup) returns (a: Answer)
      requires Valid()
      modifies this`ptrIface
      ensures Valid()
      ensures a == if req.wLength == 1 && View().Finds(Env(), req.wIndex % 256, 0)
                   then Data([GetSetting(req.wIndex % 256) % 256]) else Refused()
    {
      hide Inv, HasSetting, IsConfiguration, AtSetting, Named, Numbered, Parse;
      WalkReady();
      if req.wLength != 1 || numConfiguration == 0 || req.wIndex % 256 >= Conf()[4] {
        return Refused();
      }
      var found := UpdateIfaceDesc(req.wIndex % 256, 0);
      a := if found then Data([GetSetting(req.wIndex % 256) % 256]) else Refused();
    }

    // ---- Dispatch --------------------------------------------------------------------

    /** What a request that asks for data is answered, by the bytes of its packet: its type and number, the two bytes of
        wValue, the low byte of wIndex, and wLength. Five standard requests are answered and all others refused. */
    ghost predicate Gives(kind: nat, request: nat, value: nat, high: nat, index: nat, n: nat, d: Device, a: Answer)
      requires d.s.In(Env())
    {
      match kind
      case 0x80 =>
        if request == 6 && 0 < n then GivesDescriptor(high, value, n, a)
        else a == if request == 8 && n == 1 then Answer(true, [d.s.conf % 256], 1, NoCallback)
                  else if request == 0 && n == 2 then Answer(true, [d.status % 256, d.status / 256 % 256], 2, NoCallback)
                  else Refused()
      case 0x81 =>
        a == if request == 10 && n == 1 && d.s.Finds(Env(), index, 0) then Answer(true, [d.s.Report(index) % 256], 1, NoCallback)
             else Refused()
      case 0x82 =>
        a == if request == 0 && n == 2 then Answer(true, [if index % 16 in d.halted then 1 else 0, 0], 2, NoCallback) else Refused()
      case _ => a == Refused()
    }

    /** What a standard request without data does, from `b` to `d`: six are supported, and nothing else changes. */
    ghost predicate Does(kind: nat, request: nat, value: nat, high: nat, index: nat, n: nat, address: nat,
                         b: Device, d: Device, a: Answer)
      requires b.s.In(Env())
    {
      if n != 0 then Keeps(b, d, a)
      else if kind == 0x00 && request == 5 then d == b && a == Answer(true, [], 0, ValidAddress)
      else if kind == 0x00 && request == 1 && value == 1 && high == 0 then
        Acknowledges(a) && a.accepted && d == b.(status := d.status) && IsBit1Cleared(b.status, d.status)
      else if kind == 0x00 && request == 9 && address != 0 && value <= |configs| then
        Acknowledges(a) && Outcome(a.accepted, d.s) == Configure(Env(), b.s, value)
        && d == b.(s := d.s, status := 1, busy := d.busy, lineCoding := CodingAfter(b, d))
      else if kind == 0x01 && request == 11 && b.s.conf != 0 then
        Acknowledges(a) && Outcome(a.accepted, d.s) == Switch(Env(), b.s, index, value)
        && d == b.(s := d.s, busy := d.busy, lineCoding := if index == 0 then CodingAfter(b, d) else b.lineCoding)
      else if kind == 0x02 && request == 1 && value == 0 && high == 0 && index % 16 <= 3 then
        Acknowledges(a) && a.accepted && d == b.(halted := b.halted - {index % 16}, busy := d.busy)
      else if kind == 0x02 && request == 3 && value == 0 && high == 0 && index % 16 <= 3 && index % 16 !in b.busy then
        Acknowledges(a) && a.accepted && d == b.(halted := b.halted + {index % 16})
      else Keeps(b, d, a)
    }

    /** What a request to the driver of an interface is answered: three reach the communication interface. */
    ghost predicate Forwards(kind: nat, request: nat, index: nat, n: nat, d: Device, a: Answer)
      requires d.s.In(Env())
    {
      a == if Reached(d.s, index) then LineAnswer(kind, request, n, d.lineCoding) else Refused()
    }

    /** The answer to any SETUP packet. */
    ghost predicate Answers(kind: nat, request: nat, value: nat, high: nat, index: nat, n: nat, address: nat,
                            b: Device, d: Device, a: Answer)
      requires b.s.In(Env())
    {
      if kind == 0x80 || kind == 0x81 || kind == 0x82 then d == b && Gives(kind, request, value, high, index, n, b, a)
      else if kind == 0x00 || kind == 0x01 || kind == 0x02 then Does(kind, request, value, high, index, n, address, b, d, a)
      else if kind == 0x21 || kind == 0xA1 then d == b && Forwards(kind, request, index, n, b, a)
      else Keeps(b, d, a)
    }

    /** The line coding after a request that may have enabled the communication interface. */
    ghost function CodingAfter(b: Device, d: Device): seq<byte> {
      if b.s.attempts < d.s.attempts then [0x00, 0xC2, 0x01, 0x00, 0, 0, 8] else b.lineCoding
    }

    ghost predicate Keeps(b: Device, d: Device, a: Answer) {
      d == b && a == Refused()
    }

    /** Supported or not, without data. */
    ghost predicate Acknowledges(a: Answer) {
      a == if a.accepted then Answer(true, [], 0, NoCallback) else Refused()
    }

    /** The interface is the communication interface of the selected configuration, with the setting it reports. */
    ghost predicate Reached(s: Selection, iface: nat)
      requires s.In(Env())
    {
      iface == 0 && s.Finds(Env(), iface, 0) && s.Finds(Env(), iface, s.Report(iface))
    }

    /** `udc_reqstd`, the requests that ask for data. */
    method StandardIn(req: Setup) returns (a: Answer)
      requires Valid() && req.Fits() && req.IsIn() && req.Type() == TYPE_STANDARD
      modifies this`ptrIface
      ensures Valid() && Proper(req, a)
      ensures Gives(req.bmRequestType, req.bRequest, req.wValue % 256, req.wValue / 256, req.wIndex % 256, req.wLength, State(), a)
    {
      hide Inv, HasSetting, IsConfiguration, GivesDescriptor, Setup.IsIn, Setup.Type, Setup.Recipient;
      KindOf(req);
      if req.wLength == 0 {
        return Refused();
      }
      if req.Recipient() == RECIPIENT_DEVICE {
        match req.bRequest {
          case 0 => return if req.wLength == 2 then Data(LittleEndian(deviceStatus)) else Refused();
          case 6 =>
            DescriptorFits(req.wValue);
            a := GetDescriptor(req);
            return;
          case 8 => return if req.wLength == 1 then Data([numConfiguration]) else Refused();
          case _ =>
        }
      }
      if req.Recipient() == RECIPIENT_INTERFACE && req.bRequest == GET_INTERFACE {
        a := GetInterface(req);
        return;
      }
      if req.Recipient() == RECIPIENT_ENDPOINT && req.bRequest == GET_STATUS {
        return if req.wLength == 2 then Data(LittleEndian(if req.wIndex % 16 in endpoints.halted then 1 else 0)) else Refused();
      }
      a := Refused();
    }

    /** `udc_reqstd`, the other requests. Only the address is left to a callback. */
    method StandardOut(req: Setup, address: nat) returns (a: Answer)
      requires Valid() && req.Fits() && !req.IsIn() && req.Type() == TYPE_STANDARD
      modifies this, endpoints
      ensures Valid() && Proper(req, a)
      ensures Does(req.bmRequestType, req.bRequest, req.wValue % 256, req.wValue / 256, req.wIndex % 256, req.wLength, address,
                   old(State()), State(), a)
      ensures a.callback != LineCodingReceived
    {
      hide Inv, Configure, Switch, World.Described, IsBit1Cleared, Setup.IsIn, Setup.Type, Setup.Recipient;
      KindOf(req);
      assert req.wValue == req.wValue % 256 + 256 * (req.wValue / 256);
      var ok := false;
      if req.Recipient() == RECIPIENT_DEVICE {
        match req.bRequest {
          case 5 => return if req.wLength == 0 then Answer(true, [], 0, ValidAddress) else Refused();
          case 1 => ok := DeviceClearFeature(req);
          case 9 => ok := SetConfiguration(req, address);
          case _ =>
        }
      } else if req.Recipient() == RECIPIENT_INTERFACE && req.bRequest == SET_INTERFACE {
        ok := SetInterface(req);
      } else if req.Recipient() == RECIPIENT_ENDPOINT {
        match req.bRequest {
          case 1 => ok := EndpointFeature(req, false);
          case 3 => ok := EndpointFeature(req, true);
          case _ =>
        }
      }
      a := if ok then Supported() else Refused();
    }

    /** `udc_req_std_dev_clear_feature`. */
    method DeviceClearFeature(req: Setup) returns (ok: bool)
      requires Valid()
      modifies `deviceStatus
      ensures Valid() && ok == (req.wLength == 0 && req.wValue == REMOTE_WAKEUP)
      ensures if ok then IsBit1Cleared(old(deviceStatus), deviceStatus) else deviceStatus == old(deviceStatus)
    {
      ok := req.wLength == 0 && req.wValue == REMOTE_WAKEUP;
      if ok {
        deviceStatus := deviceStatus - deviceStatus / 2 % 2 * 2;
      }
    }

    /** `udc_req_std_epset_feature` and `udc_req_std_ep_clear_feature`. */
    method EndpointFeature(req: Setup, halt: bool) returns (ok: bool)
      requires Valid()
      modifies endpoints`halted, endpoints`busy
      ensures Valid() && View() == old(View())
      ensures ok <==> req.wLength == 0 && req.wValue == ENDPOINT_HALT && req.wIndex % 256 % 16 <= MAX_EP
                      && (halt ==> req.wIndex % 256 % 16 !in old(endpoints.busy))
      ensures endpoints.halted == if !ok then old(endpoints.halted)
                                  else if halt then old(endpoints.halted) + {req.wIndex % 256 % 16}
                                  else old(endpoints.halted) - {req.wIndex % 256 % 16}
      ensures halt || !ok ==> endpoints.busy == old(endpoints.busy)
    {
      ok := false;
      if req.wLength == 0 && req.wValue == ENDPOINT_HALT {
        if halt {
          ok := endpoints.SetHalt(req.wIndex % 256);
        } else {
          ok := endpoints.ClearHalt(req.wIndex % 256);
        }
      }
    }

    /** The data of SET_LINE_CODING go directly into the line coding. */
    method StoreCoding(coding: seq<byte>)
      requires Valid() && |coding| == 7
      modifies `lineCoding
      ensures Valid() && lineCoding == coding
    {
      hide Inv, World.Described;
      lineCoding := coding;
    }

    lemma CodingSize()
      requires Valid()
      ensures |lineCoding| == 7
    {
    }

    /** `udi_cdc_comm_setup`: the line coding has exactly seven bytes in both directions. */
    method CommSetup(req: Setup) returns (a: Answer)
      requires Valid() && req.Fits() && req.Recipient() == RECIPIENT_INTERFACE
      ensures a == LineAnswer(req.bmRequestType, req.bRequest, req.wLength, lineCoding)
    {
      if req.Type() != TYPE_CLASS {
        return Refused();
      }
      if req.IsIn() {
        return if req.bRequest == CDC_GET_LINE_CODING && req.wLength == 7 then Data(lineCoding) else Refused();
      }
      match req.bRequest {
        case 0x20 => a := if req.wLength == 7 then Answer(true, lineCoding, 7, LineCodingReceived) else Refused();
        case 0x22 => a := Supported();
        case _ => a := Refused();
      }
    }

    /** `udc_req_iface`: the request reaches the driver of a configured interface whose reported setting is
        found; here only the communication interface answers. */
    method IfaceRequest(req: Setup) returns (a: Answer)
      requires Valid() && req.Fits() && req.Recipient() == RECIPIENT_INTERFACE && (req.IsIn() ==> 0 < req.wLength)
      modifies this`ptrIface
      ensures Valid() && Proper(req, a)
      ensures Forwards(req.bmRequestType, req.bRequest, req.wIndex % 256, req.wLength, State(), a)
      ensures a.callback == LineCodingReceived ==> a.payload == lineCoding
    {
      hide HasSetting, IsConfiguration, Inv;
      a := Refused();
      var found := SelectInterface(req.wIndex % 256);
      if found && req.wIndex % 256 == CDC_COMM_INTERFACE {
        a := CommSetup(req);
      }
    }

    /** Points `ptrIface` to the setting that the interface's driver reports. */
    method SelectInterface(iface: nat) returns (found: bool)
      requires Valid()
      modifies this`ptrIface
      ensures Valid()
      ensures found <==> View().Finds(Env(), iface, 0) && View().Finds(Env(), iface, GetSetting(iface))
    {
      hide Inv, HasSetting, IsConfiguration, AtSetting;
      WalkReady();
      found := numConfiguration != 0 && iface < Conf()[4];
      if found {
        found := UpdateIfaceDesc(iface, 0);
      }
      if found {
        found := UpdateIfaceDesc(iface, GetSetting(iface));
      }
    }

    /** `udc_process_setup`: whatever the request and the state of the device, the answer is proper and the one that the
        bytes of the packet call for. */
    method ProcessSetup(req: Setup, address: nat) returns (a: Answer)
      requires Valid() && req.Fits()
      modifies this, endpoints
      ensures Valid() && Proper(req, a)
      ensures Answers(req.bmRequestType, req.bRequest, req.wValue % 256, req.wValue / 256, req.wIndex % 256, req.wLength, address,
                      old(State()), State(), a)
      ensures a.callback == LineCodingReceived ==> a.payload == lineCoding
    {
      hide Inv, Gives, Does, Forwards, Answers, World.Described;
      ghost var before := State();
      if req.IsIn() && req.wLength == 0 {
        NothingAsked(req, address, State());
        return Refused();
      }
      a := Refused();
      if req.Type() == TYPE_STANDARD {
        if req.IsIn() {
          a := StandardIn(req);
        } else {
          a := StandardOut(req, address);
        }
        StandardAnswers(req, address, before, State(), a);
        if a.accepted {
          return;
        }
      }
      if req.Recipient() == RECIPIENT_INTERFACE {
        a := IfaceRequest(req);
        IfaceAnswers(req, address, State(), a);
      } else if req.Type() != TYPE_STANDARD {
        OthersRefused(req, address, before);
      }
    }

    lemma NothingAsked(req: Setup, address: nat, d: Device)
      requires req.Fits() && req.IsIn() && req.wLength == 0 && d.s.In(Env())
      ensures Answers(req.bmRequestType, req.bRequest, req.wValue % 256, req.wValue / 256, req.wIndex % 256, 0, address,
                      d, d, Refused())
    {
      hide GivesDescriptor, Configure, Switch, Setup.IsIn, Setup.Type, Setup.Recipient, Reached;
      KindOf(req);
    }

    lemma StandardAnswers(req: Setup, address: nat, b: Device, d: Device, a: Answer)
      requires req.Fits() && req.Type() == TYPE_STANDARD && b.s.In(Env()) && d.s.In(Env())
      requires req.IsIn() ==> d == b
      requires req.IsIn() ==>
                Gives(req.bmRequestType, req.bRequest, req.wValue % 256, req.wValue / 256, req.wIndex % 256, req.wLength, d, a)
      requires !req.IsIn() ==>
                Does(req.bmRequestType, req.bRequest, req.wValue % 256, req.wValue / 256, req.wIndex % 256, req.wLength, address, b, d, a)
      ensures Answers(req.bmRequestType, req.bRequest, req.wValue % 256, req.wValue / 256, req.wIndex % 256, req.wLength, address,
                      b, d, a)
      ensures a.accepted || a == Refused()
    {
      hide IsString, Udc.HasDescriptor, Configure, Switch, Setup.IsIn, Setup.Type, Setup.Recipient, IsBit1Cleared;
      KindOf(req);
    }

    lemma OthersRefused(req: Setup, address: nat, d: Device)
      requires req.Fits() && req.Recipient() != RECIPIENT_INTERFACE && req.Type() != TYPE_STANDARD && d.s.In(Env())
      ensures Answers(req.bmRequestType, req.bRequest, req.wValue % 256, req.wValue / 256, req.wIndex % 256, req.wLength, address,
                      d, d, Refused())
    {
      hide GivesDescriptor, Configure, Switch, Setup.IsIn, Setup.Type, Setup.Recipient, Reached;
      KindOf(req);
    }

    lemma IfaceAnswers(req: Setup, address: nat, d: Device, a: Answer)
      requires req.Fits() && req.Recipient() == RECIPIENT_INTERFACE && d.s.In(Env())
      requires Forwards(req.bmRequestType, req.bRequest, req.wIndex % 256, req.wLength, d, a)
      ensures if a.accepted then req.Type() == TYPE_CLASS else a == Refused()
      ensures req.Type() != TYPE_STANDARD ==>
                Answers(req.bmRequestType, req.bRequest, req.wValue % 256, req.wValue / 256, req.wIndex % 256, req.wLength, address,
                        d, d, a)
    {
      hide GivesDescriptor, Configure, Switch, Setup.IsIn, Setup.Type, Setup.Recipient, Reached, Gives, Does;
      KindOf(req);
    }
  }

  /** The three requests to the CDC communication interface, by the bytes of the packet. */
  ghost function LineAnswer(kind: nat, request: nat, n: nat, lineCoding: seq<byte>): Answer {
    if kind == 0xA1 && request == 0x21 && n == 7 then Answer(true, lineCoding, 7, NoCallback)
    else if kind == 0x21 && request == 0x20 && n == 7 then Answer(true, lineCoding, 7, LineCodingReceived)
    else if kind == 0x21 && request == 0x22 then Answer(true, [], 0, NoCallback)
    else Refused()
  }

  /** Remote wake-up is bit 1 of the device's status; all others are kept. */
  ghost predicate IsBit1Cleared(b: nat, d: nat) {
    d % 2 == b % 2 && d / 2 % 2 == 0 && d / 4 == b / 4
  }

  lemma EndpointsFrom(block: seq<byte>, iface: nat, setting: nat, at: nat)
    requires IsConfiguration(block) && AtSetting(block, iface, setting, at)
    ensures Numbered(Parse(block, at))
    ensures SettingEndpoints(block, iface, setting) == EndpointsOf(Parse(block, at)[1..])
  {
  }

  /** Stepping from one endpoint to the next goes through the endpoints of the interface in order. */
  lemma EndpointStep(block: seq<byte>, desc: nat, next: Option<nat>)
    requires Chained(block, desc) && desc < |block| && Numbered(Parse(block, desc))
    requires PointsTo(block, desc, FromNext(Parse(block, desc)[1..], DT_ENDPOINT), next)
    ensures var eps := EndpointsOf(Parse(block, desc)[1..]);
            match next
            case None => eps == []
            case Some(at) =>
              && desc < at < |block| && Chained(block, at) && at + 3 < |block| && Numbered(Parse(block, at))
              && eps == [Parse(block, at)[0]] + EndpointsOf(Parse(block, at)[1..])
              && Parse(block, at)[0].Address() == block[at + 2] && Parse(block, at)[0].Attributes() == block[at + 3]
              && 0 < EndpointNumber(block[at + 2])
  {
    hide Chained, EndpointsOf, FromNext, Parse;
    ParseStep(block, desc);
    EndpointsNext(Parse(block, desc)[1..]);
    if next.Some? {
      assert Parse(block, next.value)[0] in Parse(block, desc);
      ParseStep(block, next.value);
      DescriptorAt(block, next.value);
    }
  }

  /** `next` is the position of the first descriptor of `r`, behind `desc`, or nothing if `r` is empty. */
  ghost predicate PointsTo(block: seq<byte>, desc: nat, r: seq<Descriptor>, next: Option<nat>) {
    match next
    case None => r == []
    case Some(at) => r != [] && desc < at < |block| && Chained(block, at) && Parse(block, at) == r
  }

  ghost predicate AtSetting(block: seq<byte>, iface: nat, setting: nat, at: nat)
    requires Chained(block, 0)
  {
    at < |block| && Chained(block, at) && Parse(block, at) == FromSetting(Parse(block, 0), iface, setting)
  }

  lemma NothingLeft(block: seq<byte>, kind: byte)
    requires Chained(block, |block|)
    ensures FromNext(Parse(block, |block|), kind) == []
  {
  }

  lemma NoSettingLeft(block: seq<byte>, iface: nat, setting: nat)
    requires Chained(block, |block|)
    ensures FromSetting(Parse(block, |block|), iface, setting) == []
  {
  }
}
