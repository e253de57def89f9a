/** Configuration descriptor blocks: the bytes that the device core walks with a pointer, and the same
    block as a list. */
module Descriptors {
  import opened UsbRequest

  const DT_DEVICE: byte := 1
  const DT_CONFIGURATION: byte := 2
  const DT_STRING: byte := 3
  const DT_INTERFACE: byte := 4
  const DT_ENDPOINT: byte := 5

  /** A descriptor at offset `at` of its block; the first byte is its length and the second its type. */
  datatype Descriptor = Descriptor(at: nat, data: seq<byte>) {
    predicate IsOf(kind: byte) {
      2 <= |data| && data[1] == kind
    }

    predicate IsInterface() {
      IsOf(DT_INTERFACE)
    }

    predicate IsSetting(iface: nat, setting: nat) {
      IsInterface() && 4 <= |data| && data[2] == iface && data[3] == setting
    }

    predicate IsEndpoint() {
      IsOf(DT_ENDPOINT)
    }

    function Address(): byte {
      if 3 <= |data| then data[2] else 0
    }

    function Attributes(): byte {
      if 4 <= |data| then data[3] else 0
    }

    function Number(): nat {
      EndpointNumber(Address())
    }
  }

  /** `bEndpointAddress & USB_EP_ADDR_MASK`. */
  function EndpointNumber(address: byte): nat {
    address % 16
  }

  /** The descriptors from `at` on, each of at least two bytes, add up to the end of the block. */
  predicate Chained(block: seq<byte>, at: nat)
    decreases |block| - at
  {
    at == |block| || (at + 2 <= |block| && 2 <= block[at] && at + block[at] <= |block| && Chained(block, at + block[at]))
  }

  function Parse(block: seq<byte>, at: nat): (ds: seq<Descriptor>)
    requires Chained(block, at)
    ensures ds == [] <==> at == |block|
    ensures ds != [] ==> at < |block| && ds[0].at == at
    decreases |block| - at
  {
    if at == |block| then [] else
    [Descriptor(at, block[at..at + block[at]])] + Parse(block, at + block[at])
  }

  /** A configuration descriptor with all that belongs to it, added up to its total length. */
  predicate IsBlock(block: seq<byte>) {
    9 <= |block| && Chained(block, 0) && Word(block[2], block[3]) == |block|
  }

  /** Interface descriptors hold their numbers. */
  predicate Named(ds: seq<Descriptor>) {
    forall d | d in ds :: d.IsInterface() ==> 4 <= |d.data|
  }

  /** Endpoint descriptors hold their fields and are numbered from 1. */
  predicate Numbered(ds: seq<Descriptor>) {
    forall d | d in ds :: d.IsEndpoint() ==> 6 <= |d.data| && 0 < d.Number()
  }

  predicate IsConfiguration(block: seq<byte>) {
    IsBlock(block) && block[1] == DT_CONFIGURATION && Named(Parse(block, 0)) && Numbered(Parse(block, 0))
  }

  /** The list from the descriptor of an interface setting on, or nothing. */
  function FromSetting(ds: seq<Descriptor>, iface: nat, setting: nat): (r: seq<Descriptor>)
    ensures r != [] ==> r[0].IsSetting(iface, setting)
    ensures forall d | d in r :: d in ds
  {
    if ds == [] || ds[0].IsSetting(iface, setting) then ds else FromSetting(ds[1..], iface, setting)
  }

  /** The endpoints that precede the next interface descriptor. */
  function EndpointsOf(ds: seq<Descriptor>): (eps: seq<Descriptor>)
    ensures forall d | d in eps :: d in ds && d.IsEndpoint()
  {
    if ds == [] || ds[0].IsInterface() then [] else
    (if ds[0].IsEndpoint() then [ds[0]] else []) + EndpointsOf(ds[1..])
  }

  /** The first descriptor of a type that precedes the next interface descriptor, and what follows it. */
  function FromNext(ds: seq<Descriptor>, kind: byte): (r: seq<Descriptor>)
    ensures r != [] ==> r[0].IsOf(kind) && !r[0].IsInterface()
    ensures forall d | d in r :: d in ds
  {
    if ds == [] || ds[0].IsInterface() then []
    else if ds[0].IsOf(kind) then ds
    else FromNext(ds[1..], kind)
  }

  function Numbers(eps: seq<Descriptor>): (r: set<nat>) {
    set e | e in eps :: e.Number()
  }

  /** The endpoints of an interface setting. */
  function SettingEndpoints(block: seq<byte>, iface: nat, setting: nat): seq<Descriptor>
    requires Chained(block, 0)
  {
    var ds := FromSetting(Parse(block, 0), iface, setting);
    if ds == [] then [] else EndpointsOf(ds[1..])
  }

  predicate HasSetting(block: seq<byte>, iface: nat, setting: nat)
    requires Chained(block, 0)
  {
    FromSetting(Parse(block, 0), iface, setting) != []
  }

  lemma ParseStep(block: seq<byte>, at: nat)
    requires Chained(block, at) && at < |block|
    ensures at + 2 <= |block|
    ensures var next := at + block[at];
            && at + 2 <= next <= |block| && Chained(block, next)
            && Parse(block, at) == [Descriptor(at, block[at..next])] + Parse(block, next)
            && Parse(block, at)[1..] == Parse(block, next)
  {
  }

  /** What the first descriptor says, in bytes of the block. */
  lemma DescriptorAt(block: seq<byte>, at: nat)
    requires Chained(block, at) && at < |block|
    ensures at + 2 <= |block| && at + block[at] <= |block|
    ensures var d := Parse(block, at)[0];
            && d.data == block[at..at + block[at]] && (forall kind :: d.IsOf(kind) <==> block[at + 1] == kind)
            && (3 <= |d.data| ==> at + 3 <= |block| && d.Address() == block[at + 2])
            && (4 <= |d.data| ==> at + 4 <= |block| && d.Attributes() == block[at + 3])
  {
  }

  /** One step of a search for the next descriptor of a type. */
  lemma FromNextStep(block: seq<byte>, at: nat, kind: byte)
    requires Chained(block, at) && at < |block|
    ensures at + 2 <= |block| && at + block[at] <= |block| && Chained(block, at + block[at])
    ensures FromNext(Parse(block, at), kind)
         == if block[at + 1] == DT_INTERFACE then []
            else if block[at + 1] == kind then Parse(block, at)
            else FromNext(Parse(block, at + block[at]), kind)
  {
    hide Chained, Parse, Descriptor.IsOf;
    ParseStep(block, at);
    DescriptorAt(block, at);
  }

  /** One step of a search for an interface setting. */
  lemma FromSettingStep(block: seq<byte>, at: nat, iface: nat, setting: nat)
    requires Chained(block, at) && at < |block| && Named(Parse(block, at))
    ensures at + 2 <= |block| && at + block[at] <= |block| && Chained(block, at + block[at])
    ensures Named(Parse(block, at + block[at]))
    ensures block[at + 1] == DT_INTERFACE ==> at + 4 <= |block|
    ensures FromSetting(Parse(block, at), iface, setting)
         == if block[at + 1] == DT_INTERFACE && block[at + 2] == iface && block[at + 3] == setting then Parse(block, at)
            else FromSetting(Parse(block, at + block[at]), iface, setting)
  {
    hide Chained, Parse;
    ParseStep(block, at);
    DescriptorAt(block, at);
    assert Parse(block, at)[0] in Parse(block, at);
  }

  /** The endpoints are those that searching for one after the other finds. */
  lemma {:induction false} EndpointsNext(ds: seq<Descriptor>)
    ensures var r := FromNext(ds, DT_ENDPOINT);
            EndpointsOf(ds) == if r == [] then [] else [r[0]] + EndpointsOf(r[1..])
  {
    if ds != [] && !ds[0].IsInterface() && !ds[0].IsEndpoint() {
      EndpointsNext(ds[1..]);
    }
  }

  lemma NumbersGrow(done: seq<Descriptor>, d: Descriptor)
    ensures Numbers([]) == {} && Numbers(done + [d]) == Numbers(done) + {d.Number()}
  {
    NumbersJoin(done, [d]);
    assert Numbers([d]) == {d.Number()} by { assert [d][0] == d; }
  }

  lemma NumbersJoin(a: seq<Descriptor>, b: seq<Descriptor>)
    ensures Numbers(a + b) == Numbers(a) + Numbers(b)
  {
    forall n | n in Numbers(a) + Numbers(b)
      ensures n in Numbers(a + b)
    {
      var e :| (e in a || e in b) && e.Number() == n;
      assert e in a + b;
    }
  }
}
