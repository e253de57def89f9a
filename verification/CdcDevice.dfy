/** The device of the USB serial example: its configuration of one CDC function, selected by the core. */
module CdcDevice {
  import opened UsbRequest
  import opened Descriptors
  import opened InterfaceSelection

  /** What the core reads of the configuration: interface 0 with notification endpoint 3, interface 1 with the bulk
      endpoints 1 and 2, and between them functional descriptors that it steps over. */
  predicate IsCdc(block: seq<byte>) {
    && |block| == 67
    && block[0] == 9 && block[1] == DT_CONFIGURATION && block[2] == 67 && block[3] == 0 && block[4] == 2
    && block[9] == 9 && block[10] == DT_INTERFACE && block[11] == 0 && block[12] == 0
    && block[18] == 5 && block[19] == 36 && block[23] == 4 && block[24] == 36
    && block[27] == 5 && block[28] == 36 && block[32] == 5 && block[33] == 36
    && block[37] == 7 && block[38] == DT_ENDPOINT && block[39] == 131 && block[40] == 3
    && block[44] == 9 && block[45] == DT_INTERFACE && block[46] == 1 && block[47] == 0
    && block[53] == 7 && block[54] == DT_ENDPOINT && block[55] == 129 && block[56] == 2
    && block[60] == 7 && block[61] == DT_ENDPOINT && block[62] == 2 && block[63] == 2
  }

  /** The configuration as it is. */
  lemma ConfigurationIsCdc()
    ensures IsCdc([9, 2, 67, 0, 2, 1, 0, 192, 50]
                  + [9, 4, 0, 0, 1, 2, 2, 1, 0] + [5, 36, 0, 16, 1] + [4, 36, 2, 2] + [5, 36, 6, 0, 1] + [5, 36, 1, 3, 1]
                  + [7, 5, 131, 3, 64, 0, 255]
                  + [9, 4, 1, 0, 2, 10, 0, 0, 0] + [7, 5, 129, 2, 64, 0, 0] + [7, 5, 2, 2, 64, 0, 0])
  {
  }

  /** Its descriptors as a list. */
  function Listed(block: seq<byte>): (ds: seq<Descriptor>)
    requires |block| == 67
    ensures |ds| == 10
  {
    [Descriptor(0, block[0..9]), Descriptor(9, block[9..18]), Descriptor(18, block[18..23]), Descriptor(23, block[23..27]),
     Descriptor(27, block[27..32]), Descriptor(32, block[32..37]), Descriptor(37, block[37..44]),
     Descriptor(44, block[44..53]), Descriptor(53, block[53..60]), Descriptor(60, block[60..67])]
  }

  lemma Chains(block: seq<byte>)
    requires IsCdc(block)
    ensures Chained(block, 0)
  {
    assert Chained(block, 60);
    assert Chained(block, 53);
    assert Chained(block, 44);
    assert Chained(block, 37);
    assert Chained(block, 32);
    assert Chained(block, 27);
    assert Chained(block, 23);
    assert Chained(block, 18);
    assert Chained(block, 9);
  }

  lemma Parses(block: seq<byte>)
    requires IsCdc(block)
    ensures Chained(block, 0) && Parse(block, 0) == Listed(block)
  {
    hide Chained, Parse;
    Chains(block);
    ParseStep(block, 0);
    ParseStep(block, 9);
    ParseStep(block, 18);
    ParseStep(block, 23);
    ParseStep(block, 27);
    ParseStep(block, 32);
    ParseStep(block, 37);
    ParseStep(block, 44);
    ParseStep(block, 53);
    ParseStep(block, 60);
  }

  lemma At(block: seq<byte>, at: nat, n: nat, d: Descriptor)
    requires 4 <= n && at + n <= |block| && d == Descriptor(at, block[at..at + n])
    ensures |d.data| == n && d.Address() == block[at + 2] && d.Attributes() == block[at + 3]
    ensures forall kind :: d.IsOf(kind) <==> block[at + 1] == kind
    ensures forall iface, setting ::
              d.IsSetting(iface, setting) <==> block[at + 1] == DT_INTERFACE && block[at + 2] == iface && block[at + 3] == setting
  {
  }

  /** The types of the descriptors. */
  ghost predicate Typed(ds: seq<Descriptor>) {
    && |ds| == 10
    && !ds[0].IsInterface() && ds[1].IsSetting(0, 0) && ds[7].IsSetting(1, 0) && !ds[0].IsSetting(0, 0)
    && (forall i | 2 <= i < 7 || 8 <= i < 10 :: !ds[i].IsInterface())
    && (forall i | 0 <= i < 7 :: !ds[i].IsSetting(1, 0))
    && (forall i | 0 <= i < 10 :: ds[i].IsEndpoint() <==> i == 6 || i == 8 || i == 9)
  }

  lemma Kinds(block: seq<byte>)
    requires IsCdc(block)
    ensures var ds := Listed(block);
            && Typed(ds) && Named(ds) && Numbered(ds)
            && ds[6].Number() == 3 && ds[8].Number() == 1 && ds[9].Number() == 2
            && Usable(ds[6]) && Usable(ds[8]) && Usable(ds[9])
  {
    hide Descriptor.IsOf, Descriptor.Address, Descriptor.Attributes, Descriptor.IsSetting;
    var ds := Listed(block);
    At(block, 0, 9, ds[0]);
    At(block, 9, 9, ds[1]);
    At(block, 18, 5, ds[2]);
    At(block, 23, 4, ds[3]);
    At(block, 27, 5, ds[4]);
    At(block, 32, 5, ds[5]);
    At(block, 37, 7, ds[6]);
    At(block, 44, 9, ds[7]);
    At(block, 53, 7, ds[8]);
    At(block, 60, 7, ds[9]);
    hide IsCdc, Listed;
  }

  lemma Settings(block: seq<byte>)
    requires IsCdc(block)
    ensures IsConfiguration(block) && HasSetting(block, 0, 0) && HasSetting(block, 1, 0)
    ensures SettingEndpoints(block, 0, 0) == [Listed(block)[6]]
    ensures SettingEndpoints(block, 1, 0) == [Listed(block)[8], Listed(block)[9]]
  {
    hide Chained, Parse, Listed, Named, Numbered, FromSetting, EndpointsOf;
    Parses(block);
    Kinds(block);
    Walks(Listed(block));
  }

  lemma Walks(ds: seq<Descriptor>)
    requires Typed(ds)
    ensures FromSetting(ds, 0, 0) == ds[1..] && FromSetting(ds, 1, 0) == ds[7..]
    ensures FromSetting(ds, 0, 0)[1..] == ds[2..] && FromSetting(ds, 1, 0)[1..] == ds[8..]
    ensures EndpointsOf(ds[2..]) == [ds[6]] && EndpointsOf(ds[8..]) == [ds[8], ds[9]]
  {
    hide FromSetting, EndpointsOf, Descriptor.IsSetting, Descriptor.IsEndpoint, Descriptor.IsInterface;
    SettingIsInterface(ds[7], 1, 0);
    TwoLast(ds, 8);
    SkipTo(ds, 2, 6);
    OneThenInterface(ds, 6);
    SettingFrom(ds, 0, 1, 0, 0);
    SettingFrom(ds, 0, 7, 1, 0);
    Whole(ds);
  }

  lemma Whole(ds: seq<Descriptor>)
    requires |ds| == 10
    ensures ds[0..] == ds && ds[1..][1..] == ds[2..] && ds[7..][1..] == ds[8..]
  {
  }

  lemma TwoLast(ds: seq<Descriptor>, i: nat)
    requires |ds| == i + 2 && ds[i].IsEndpoint() && ds[i + 1].IsEndpoint() && !ds[i].IsInterface() && !ds[i + 1].IsInterface()
    ensures EndpointsOf(ds[i..]) == [ds[i], ds[i + 1]]
  {
    hide EndpointsOf, Descriptor.IsEndpoint, Descriptor.IsInterface;
    EndpointsStep(ds, i);
    EndpointsStep(ds, i + 1);
  }

  lemma OneThenInterface(ds: seq<Descriptor>, i: nat)
    requires i + 1 < |ds| && ds[i].IsEndpoint() && !ds[i].IsInterface() && ds[i + 1].IsInterface()
    ensures EndpointsOf(ds[i..]) == [ds[i]]
  {
    hide EndpointsOf, Descriptor.IsEndpoint, Descriptor.IsInterface;
    EndpointsStep(ds, i);
    EndpointsStep(ds, i + 1);
  }

  lemma {:induction false} SkipTo(ds: seq<Descriptor>, i: nat, j: nat)
    requires i <= j <= |ds| && forall k | i <= k < j :: !ds[k].IsInterface() && !ds[k].IsEndpoint()
    ensures EndpointsOf(ds[i..]) == EndpointsOf(ds[j..])
    decreases j - i
  {
    hide EndpointsOf, Descriptor.IsEndpoint, Descriptor.IsInterface;
    if i < j {
      EndpointsStep(ds, i);
      SkipTo(ds, i + 1, j);
    }
  }

  lemma SettingIsInterface(d: Descriptor, iface: nat, setting: nat)
    requires d.IsSetting(iface, setting)
    ensures d.IsInterface()
  {
  }

  lemma {:induction false} SettingFrom(ds: seq<Descriptor>, i: nat, j: nat, iface: nat, setting: nat)
    requires i <= j < |ds| && ds[j].IsSetting(iface, setting) && forall k | i <= k < j :: !ds[k].IsSetting(iface, setting)
    ensures FromSetting(ds[i..], iface, setting) == ds[j..]
    decreases j - i
  {
    if i < j {
      SettingFrom(ds, i + 1, j, iface, setting);
      assert ds[i..][1..] == ds[i + 1..];
    }
  }

  lemma EndpointsStep(ds: seq<Descriptor>, i: nat)
    requires i < |ds|
    ensures EndpointsOf(ds[i..])
         == if ds[i].IsInterface() then [] else (if ds[i].IsEndpoint() then [ds[i]] else []) + EndpointsOf(ds[i + 1..])
    ensures i + 1 == |ds| ==> EndpointsOf(ds[i + 1..]) == []
  {
    assert ds[i..][1..] == ds[i + 1..];
  }

  /** Configuration 1, selected. */
  const First := Selection(1, {0}, 0, 0, map[], map[], false, false)

  lemma Defaulted(w: World)
    requires w.Described() && |w.configs| == 1 && IsCdc(w.configs[0])
    ensures First.Interfaces(w) == 2 && HasSetting(First.Block(w), 0, 0) && HasSetting(First.Block(w), 1, 0)
    ensures Allocatable({0}, DefaultEndpoints(w, First, 2)) && Numbers(DefaultEndpoints(w, First, 2)) == {1, 2, 3}
  {
    var block := w.configs[0];
    Settings(block);
    Kinds(block);
    var ds := Listed(block);
    ThreeAllocatable(ds[6], ds[8], ds[9]);
    ThreeNumbers(ds[6], ds[8], ds[9]);
    hide Listed, HasSetting, SettingEndpoints, IsConfiguration, Usable, Allocatable, Numbers, Typed, Named, Numbered,
         Descriptor.Number, DefaultEndpoints;
    Endpoints(w, First, ds);
  }

  /** With a controller and drivers that never refuse, selecting configuration 1 succeeds from every state of the
      invariant, and exactly endpoints 0 to 3 are enabled then. */
  lemma Configures(w: World, s: Selection)
    requires |w.configs| == 1 && IsCdc(w.configs[0]) && Inv(w, s) && NeverRefuses(w)
    ensures Configure(w, s, 1).ok && Configure(w, s, 1).s.enabled == {0, 1, 2, 3}
  {
    hide IsCdc, IsConfiguration, HasSetting, SettingEndpoints, Configure, Allocatable, Numbers, NeverRefuses, Defaults,
         DefaultEndpoints;
    assert w.Described();
    Defaulted(w);
    ConfigureSucceeds(w, s, 1);
    ConfigureExactly(w, s, 1);
    SameDefaults(w, First, Configure(w, s, 1).s, 2);
    DefaultNumbers(w, First, 2);
  }

  lemma Endpoints(w: World, r: Selection, ds: seq<Descriptor>)
    requires |ds| == 10 && r.In(w) && r.conf == 1
    requires SettingEndpoints(r.Block(w), 0, 0) == [ds[6]] && SettingEndpoints(r.Block(w), 1, 0) == [ds[8], ds[9]]
    ensures DefaultEndpoints(w, r, 2) == [ds[6], ds[8], ds[9]]
  {
    hide SettingEndpoints, IsConfiguration;
    assert DefaultEndpoints(w, r, 1) == [] + [ds[6]];
    assert [] + [ds[6]] + [ds[8], ds[9]] == [ds[6], ds[8], ds[9]];
  }

  lemma ThreeAllocatable(a: Descriptor, b: Descriptor, c: Descriptor)
    requires Usable(a) && Usable(b) && Usable(c) && a.Number() == 3 && b.Number() == 1 && c.Number() == 2
    ensures Allocatable({0}, [a, b, c])
  {
  }

  lemma ThreeNumbers(a: Descriptor, b: Descriptor, c: Descriptor)
    ensures Numbers([a, b, c]) == {a.Number(), b.Number(), c.Number()}
  {
    NumbersGrow([], a);
    NumbersGrow([a], b);
    NumbersGrow([a, b], c);
    assert [] + [a] == [a] && [a] + [b] == [a, b] && [a, b] + [c] == [a, b, c];
  }
}
