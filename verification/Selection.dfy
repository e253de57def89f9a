/** Which configuration and interface settings of a device are selected, and which endpoints that leaves
    enabled: the effect of the core's enable, disable and reset functions as functions on a value, and
    what every sequence of them keeps. */
module InterfaceSelection {
  import opened UsbRequest
  import opened Descriptors
  import opened DataEndpoints

  /** What the core finds: the configurations, and how the controller and the interfaces' drivers answer. The
      n-th allocation asked for succeeds or not; the n-th attempt to enable a driver succeeds or not, and
      after it, with setting `s`, the driver reports `driverReports(n, s)`. */
  datatype World = World(configs: seq<seq<byte>>, configured: nat -> bool, driverEnables: nat -> bool,
                         driverReports: (nat, nat) -> nat) {
    predicate Described() {
      forall i | 0 <= i < |configs| :: IsConfiguration(configs[i])
    }

    /** Every driver reports the setting it was last enabled with. */
    ghost predicate Honest() {
      forall n, s :: driverReports(n, s) == s
    }

    /** There are no alternate settings, and the drivers report the only one. */
    ghost predicate OnlyDefaultSettings()
      requires Described()
    {
      && (forall n, s :: driverReports(n, s) == 0)
      && forall n, i, s | 0 <= n < |configs| && HasSetting(configs[n], i, s) :: s == 0
    }
  }

  /** `reported` are the settings the drivers report, 0 at first. The last three are history: the setting whose
      endpoints were last asked for, for the interfaces that were not disabled since; whether an allocation
      ever stopped part-way; whether an interface was ever left with endpoints asked for a setting other
      than the one its driver reports. */
  datatype Selection = Selection(conf: nat, enabled: set<nat>, checks: nat, attempts: nat, reported: map<nat, nat>,
                                 asked: map<nat, nat>, partial: bool, mismatch: bool) {
    function Report(iface: nat): nat {
      if iface in reported then reported[iface] else 0
    }

    predicate In(w: World) {
      w.Described() && conf <= |w.configs|
    }

    /** The selected configuration. */
    function Block(w: World): (block: seq<byte>)
      requires In(w) && conf != 0
      ensures IsConfiguration(block) && Chained(block, 0) && 9 <= |block|
    {
      w.configs[conf - 1]
    }

    function Interfaces(w: World): nat
      requires In(w) && conf != 0
    {
      Block(w)[4]
    }

    predicate Finds(w: World, iface: nat, setting: nat)
      requires In(w)
    {
      conf != 0 && iface < Interfaces(w) && HasSetting(Block(w), iface, setting)
    }

    /** The endpoints of a setting of the selected configuration. */
    function Eps(w: World, iface: nat, setting: nat): set<nat>
      requires In(w) && conf != 0
    {
      Numbers(SettingEndpoints(Block(w), iface, setting))
    }
  }

  datatype Outcome = Outcome(ok: bool, s: Selection)

  // ---- The functions of the core -----------------------------------------------------

  /** Allocates endpoints one after the other, up to the first refusal. */
  function AllocateAll(configured: nat -> bool, enabled: set<nat>, checks: nat, eps: seq<Descriptor>): Allocation
    decreases |eps|
  {
    if eps == [] then Allocation(true, enabled, checks) else
    var a := Allocate(configured, enabled, checks, eps[0].Address(), eps[0].Attributes());
    if !a.ok then a else AllocateAll(configured, a.enabled, a.checks, eps[1..])
  }

  /** `udc_iface_disable`: the endpoints of the setting that the driver reports are released. */
  function Disable(w: World, s: Selection, iface: nat): (o: Outcome)
    requires s.In(w)
    ensures o.s.In(w) && o.s.conf == s.conf
  {
    var ok := s.Finds(w, iface, 0) && s.Finds(w, iface, s.Report(iface));
    Outcome(ok, s.(enabled := if ok then s.enabled - s.Eps(w, iface, s.Report(iface)) else s.enabled,
                   asked := s.asked - {iface}))
  }

  /** `udc_iface_enable`. */
  function Enable(w: World, s: Selection, iface: nat, setting: nat): (o: Outcome)
    requires s.In(w)
    ensures o.s.In(w) && o.s.conf == s.conf
  {
    if !s.Finds(w, iface, setting) then Outcome(false, s) else
    var a := AllocateAll(w.configured, s.enabled, s.checks, SettingEndpoints(s.Block(w), iface, setting));
    var t := s.(enabled := a.enabled, checks := a.checks, asked := s.asked[iface := setting]);
    if !a.ok then Outcome(false, t.(partial := true, mismatch := s.mismatch || s.Report(iface) != setting))
    else
      var report := w.driverReports(s.attempts + 1, setting);
      Outcome(w.driverEnables(s.attempts + 1),
              t.(attempts := s.attempts + 1, reported := s.reported[iface := report],
                 mismatch := s.mismatch || report != setting))
  }

  /** The first `n` interfaces disabled. */
  function DisableAll(w: World, s: Selection, n: nat): (r: Selection)
    requires s.In(w)
    ensures r.In(w) && r.conf == s.conf
  {
    if n == 0 then s else Disable(w, DisableAll(w, s, n - 1), n - 1).s
  }

  /** `udc_reset`. */
  function Reset(w: World, s: Selection): (r: Selection)
    requires s.In(w)
    ensures r.In(w) && r.conf == 0 && r.asked == map[]
  {
    (if s.conf == 0 then s else DisableAll(w, s, s.Interfaces(w))).(conf := 0, asked := map[])
  }

  /** The first `n` interfaces enabled with their default setting, up to the first failure. */
  function EnableAll(w: World, s: Selection, n: nat): (o: Outcome)
    requires s.In(w)
    ensures o.s.In(w) && o.s.conf == s.conf
  {
    if n == 0 then Outcome(true, s) else
    var o := EnableAll(w, s, n - 1);
    if !o.ok then o else Enable(w, o.s, n - 1, 0)
  }

  /** The part of `udc_req_std_dev_set_configuration` after its checks. */
  function Configure(w: World, s: Selection, value: nat): (o: Outcome)
    requires s.In(w) && value <= |w.configs|
    ensures o.s.In(w) && o.s.conf == value
  {
    var r := Reset(w, s).(conf := value);
    if value == 0 then Outcome(true, r) else EnableAll(w, r, r.Interfaces(w))
  }

  /** The part of `udc_req_std_iface_set_setting` after its checks. */
  function Switch(w: World, s: Selection, iface: nat, setting: nat): (o: Outcome)
    requires s.In(w)
    ensures o.s.In(w) && o.s.conf == s.conf
  {
    var o := Disable(w, s, iface);
    if o.ok then Enable(w, o.s, iface, setting) else o
  }

  // ---- What they keep ----------------------------------------------------------------

  /** Every enabled data endpoint belongs to a setting asked for and reported by its driver. */
  ghost predicate Inv(w: World, s: Selection) {
    && s.In(w) && 0 in s.enabled
    && (s.conf == 0 ==> s.asked == map[])
    && (forall i | i in s.asked :: s.conf != 0 && s.Finds(w, i, 0) && s.Finds(w, i, s.asked[i]) && s.Report(i) == s.asked[i])
    && (forall e | e in s.enabled && e != 0 :: exists i :: i in s.asked && e in s.Eps(w, i, s.asked[i]))
  }

  lemma AllocateAdds(configured: nat -> bool, enabled: set<nat>, checks: nat, d: Descriptor)
    ensures var a := Allocate(configured, enabled, checks, d.Address(), d.Attributes());
            && a.enabled <= enabled + {d.Number()} && (0 in enabled ==> 0 in a.enabled)
            && (a.ok ==> a.enabled == enabled + {d.Number()} && d.Number() !in enabled)
  {
  }

  lemma {:induction false} AllocateAllOutcome(configured: nat -> bool, enabled: set<nat>, checks: nat, eps: seq<Descriptor>)
    ensures var a := AllocateAll(configured, enabled, checks, eps);
            && a.enabled <= enabled + Numbers(eps) && (0 in enabled ==> 0 in a.enabled)
            && (a.ok ==> a.enabled == enabled + Numbers(eps) && enabled !! Numbers(eps))
    decreases |eps|
  {
    hide Numbers, Allocate, Descriptor.Address, Descriptor.Attributes, Descriptor.Number;
    NumbersGrow([], Descriptor(0, []));
    if eps != [] {
      NumbersGrow([], eps[0]);
      AllocateAdds(configured, enabled, checks, eps[0]);
      NumbersJoin([eps[0]], eps[1..]);
      assert [eps[0]] + eps[1..] == eps && [] + [eps[0]] == [eps[0]];
      var a := Allocate(configured, enabled, checks, eps[0].Address(), eps[0].Attributes());
      if a.ok {
        AllocateAllOutcome(configured, a.enabled, a.checks, eps[1..]);
      }
    }
  }

  /** Endpoint 0 is in no setting. */
  lemma DataNumbers(block: seq<byte>, iface: nat, setting: nat)
    requires IsConfiguration(block)
    ensures 0 !in Numbers(SettingEndpoints(block, iface, setting))
  {
  }

  lemma DisableHolds(w: World, s: Selection, iface: nat)
    requires Inv(w, s)
    ensures Inv(w, Disable(w, s, iface).s)
    ensures iface in s.asked ==> Disable(w, s, iface).ok
  {
    hide IsConfiguration, HasSetting, SettingEndpoints, Numbers;
    var r := Disable(w, s, iface).s;
    if s.conf != 0 {
      DataNumbers(s.Block(w), iface, s.Report(iface));
    }
    forall e | e in r.enabled && e != 0
      ensures exists i :: i in r.asked && e in r.Eps(w, i, r.asked[i])
    {
      var i :| i in s.asked && e in s.Eps(w, i, s.asked[i]);
      assert i in r.asked;
    }
  }

  /** An interface that is found at all has its default setting. */
  ghost predicate MayEnable(w: World, s: Selection, iface: nat, setting: nat)
    requires s.In(w)
  {
    s.Finds(w, iface, setting) ==> s.Finds(w, iface, 0)
  }

  lemma EnableHolds(w: World, s: Selection, iface: nat, setting: nat)
    requires Inv(w, s) && iface !in s.asked && MayEnable(w, s, iface, setting)
    ensures Enable(w, s, iface, setting).s.mismatch || Inv(w, Enable(w, s, iface, setting).s)
  {
    hide IsConfiguration, HasSetting, SettingEndpoints, Numbers, AllocateAll;
    var r := Enable(w, s, iface, setting).s;
    if !r.mismatch && s.Finds(w, iface, setting) {
      AllocateAllOutcome(w.configured, s.enabled, s.checks, SettingEndpoints(s.Block(w), iface, setting));
      forall e | e in r.enabled && e != 0
        ensures exists i :: i in r.asked && e in r.Eps(w, i, r.asked[i])
      {
        if e in s.enabled {
          var i :| i in s.asked && e in s.Eps(w, i, s.asked[i]);
          assert i in r.asked;
        } else {
          assert iface in r.asked && e in r.Eps(w, iface, r.asked[iface]);
        }
      }
    }
  }

  lemma {:induction false} DisableAllHolds(w: World, s: Selection, n: nat)
    requires Inv(w, s)
    ensures var r := DisableAll(w, s, n);
            && Inv(w, r) && r.mismatch == s.mismatch && r.partial == s.partial
            && (forall i | i in r.asked :: i in s.asked && n <= i)
  {
    hide Inv, HasSetting, SettingEndpoints, Numbers, IsConfiguration;
    if n > 0 {
      DisableAllHolds(w, s, n - 1);
      DisableHolds(w, DisableAll(w, s, n - 1), n - 1);
    }
  }

  /** A reset disables every data endpoint. */
  lemma ResetClears(w: World, s: Selection)
    requires Inv(w, s)
    ensures var r := Reset(w, s);
            Inv(w, r) && r.enabled == {0} && r.mismatch == s.mismatch && r.partial == s.partial
  {
    hide IsConfiguration, HasSetting, SettingEndpoints, Numbers;
    if s.conf != 0 {
      DisableAllHolds(w, s, s.Interfaces(w));
      var d := DisableAll(w, s, s.Interfaces(w));
      assert d.enabled <= {0};
    }
  }

  lemma {:induction false} EnableAllHolds(w: World, s: Selection, n: nat)
    requires Inv(w, s) && s.asked == map[]
    ensures var o := EnableAll(w, s, n);
            o.s.mismatch || (Inv(w, o.s) && forall i | i in o.s.asked :: i < n)
  {
    hide Inv, IsConfiguration, HasSetting, Enable;
    if n > 0 {
      EnableAllHolds(w, s, n - 1);
      var o := EnableAll(w, s, n - 1);
      AsksOne(w, o.s, n - 1, 0);
      if o.ok && !o.s.mismatch {
        EnableHolds(w, o.s, n - 1, 0);
      }
    }
  }

  lemma AsksOne(w: World, s: Selection, iface: nat, setting: nat)
    requires s.In(w)
    ensures var r := Enable(w, s, iface, setting).s;
            (s.mismatch ==> r.mismatch) && forall i | i in r.asked :: i in s.asked || i == iface
  {
  }

  /** The next interface is not enabled yet. */
  lemma DefaultNext(w: World, s: Selection, now: Selection, n: nat)
    requires s.In(w) && (s.mismatch || Inv(w, s)) && s.asked == map[] && Outcome(true, now) == EnableAll(w, s, n)
    ensures now.mismatch || (n !in now.asked && MayEnable(w, now, n, 0))
  {
    EnableAllLater(w, s, n);
    if !s.mismatch {
      EnableAllHolds(w, s, n);
    }
  }

  lemma {:induction false} EnableAllStops(w: World, s: Selection, k: nat, n: nat)
    requires s.In(w) && k <= n && !EnableAll(w, s, k).ok
    ensures EnableAll(w, s, n) == EnableAll(w, s, k)
  {
    hide Enable;
    if k < n {
      EnableAllStops(w, s, k, n - 1);
    }
  }

  /** Nothing is enabled after a reset, so any configuration can be selected. */
  lemma Reconfigured(w: World, s: Selection, value: nat)
    requires s.In(w) && s.conf == 0 && (s.mismatch || Inv(w, s)) && value <= |w.configs|
    ensures s.mismatch || (Inv(w, s.(conf := value)) && s.asked == map[] && s.enabled == {0})
  {
    if !s.mismatch {
      assert s.enabled <= {0};
    }
  }

  lemma ConfigureHolds(w: World, s: Selection, value: nat)
    requires Inv(w, s) && value <= |w.configs|
    ensures var o := Configure(w, s, value); o.s.mismatch || Inv(w, o.s)
  {
    hide IsConfiguration, HasSetting, SettingEndpoints, Numbers, Reset, EnableAll;
    ResetClears(w, s);
    var r := Reset(w, s).(conf := value);
    if value != 0 {
      EnableAllHolds(w, r, r.Interfaces(w));
    }
  }

  lemma SwitchHolds(w: World, s: Selection, iface: nat, setting: nat)
    requires Inv(w, s)
    ensures var o := Switch(w, s, iface, setting); o.s.mismatch || Inv(w, o.s)
  {
    hide Inv, IsConfiguration, HasSetting, SettingEndpoints, Numbers;
    DisableHolds(w, s, iface);
    var o := Disable(w, s, iface);
    if o.ok {
      EnableHolds(w, o.s, iface, setting);
    }
  }

  /** A successful enable adds exactly the endpoints of the setting, none of which was enabled; a driver that
      reports the setting has exactly those disabled again. */
  lemma EnableThenDisable(w: World, s: Selection, iface: nat, setting: nat)
    requires s.In(w) && 0 in s.enabled && s.Finds(w, iface, 0) && Enable(w, s, iface, setting).ok
    ensures var r := Enable(w, s, iface, setting).s;
            && s.Finds(w, iface, setting) && r.enabled == s.enabled + s.Eps(w, iface, setting) && s.enabled !! s.Eps(w, iface, setting)
            && (r.Report(iface) == setting ==> Disable(w, r, iface).s.enabled == s.enabled)
  {
    hide IsConfiguration, HasSetting, SettingEndpoints, Numbers, AllocateAll;
    AllocateAllOutcome(w.configured, s.enabled, s.checks, SettingEndpoints(s.Block(w), iface, setting));
  }

  /** The endpoints of the default settings of the first `n` interfaces. */
  function Defaults(w: World, s: Selection, n: nat): set<nat>
    requires s.In(w) && s.conf != 0
  {
    if n == 0 then {} else Defaults(w, s, n - 1) + s.Eps(w, n - 1, 0)
  }

  lemma {:induction false} EnableAllExactly(w: World, s: Selection, n: nat)
    requires s.In(w) && s.conf != 0 && 0 in s.enabled && EnableAll(w, s, n).ok
    ensures EnableAll(w, s, n).s.enabled == s.enabled + Defaults(w, s, n)
  {
    hide IsConfiguration, HasSetting, SettingEndpoints, Numbers, Enable;
    if n > 0 {
      EnableAllExactly(w, s, n - 1);
      EnablesDefault(w, EnableAll(w, s, n - 1).s, n - 1);
    }
  }

  lemma EnablesDefault(w: World, s: Selection, iface: nat)
    requires s.In(w) && 0 in s.enabled && s.conf != 0 && Enable(w, s, iface, 0).ok
    ensures Enable(w, s, iface, 0).s.enabled == s.enabled + s.Eps(w, iface, 0)
  {
    EnableThenDisable(w, s, iface, 0);
  }

  /** A successful SET_CONFIGURATION leaves exactly the endpoints of all default settings enabled. */
  lemma ConfigureExactly(w: World, s: Selection, value: nat)
    requires Inv(w, s) && value <= |w.configs| && Configure(w, s, value).ok
    ensures var r := Configure(w, s, value).s;
            r.enabled == {0} + if value == 0 then {} else Defaults(w, r, r.Interfaces(w))
  {
    hide IsConfiguration, HasSetting, SettingEndpoints, Numbers, EnableAll, Reset;
    ResetClears(w, s);
    var r := Reset(w, s).(conf := value);
    if value != 0 {
      EnableAllExactly(w, r, r.Interfaces(w));
      SameDefaults(w, r, Configure(w, s, value).s, r.Interfaces(w));
    }
  }

  lemma {:induction false} SameDefaults(w: World, s: Selection, r: Selection, n: nat)
    requires s.In(w) && s.conf != 0 && r.conf == s.conf
    ensures Defaults(w, s, n) == Defaults(w, r, n)
  {
    hide IsConfiguration, SettingEndpoints, Numbers;
    if n > 0 {
      SameDefaults(w, s, r, n - 1);
    }
  }

  /** Once an interface is disabled any setting of it may be enabled. */
  lemma SwitchReady(w: World, s: Selection, iface: nat, setting: nat)
    requires s.In(w) && Disable(w, s, iface).ok
    ensures var d := Disable(w, s, iface).s; iface !in d.asked && MayEnable(w, d, iface, setting)
  {
  }

  // ---- When they succeed -------------------------------------------------------------

  /** The controller has memory for every endpoint, and every driver can be enabled. */
  ghost predicate NeverRefuses(w: World) {
    forall n: nat :: w.configured(n) && w.driverEnables(n)
  }

  /** A data endpoint that the controller has. */
  predicate Usable(d: Descriptor) {
    d.Number() <= 3 && d.Attributes() % 4 != 0
  }

  /** Endpoints that can be allocated together with those that are enabled. */
  ghost predicate Allocatable(enabled: set<nat>, eps: seq<Descriptor>) {
    && (forall i | 0 <= i < |eps| :: Usable(eps[i]) && eps[i].Number() !in enabled)
    && forall i, j | 0 <= i < j < |eps| :: eps[i].Number() != eps[j].Number()
  }

  lemma AllocatableNext(enabled: set<nat>, d: Descriptor, eps: seq<Descriptor>)
    ensures Allocatable(enabled, [d] + eps)
       <==> Usable(d) && d.Number() !in enabled && Allocatable(enabled + {d.Number()}, eps)
  {
    hide Allocatable, Usable;
    if Allocatable(enabled, [d] + eps) {
      AllocatableRest(enabled, d, eps);
    }
    if Usable(d) && d.Number() !in enabled && Allocatable(enabled + {d.Number()}, eps) {
      AllocatableMore(enabled, d, eps);
    }
  }

  lemma AllocatableRest(enabled: set<nat>, d: Descriptor, eps: seq<Descriptor>)
    requires Allocatable(enabled, [d] + eps)
    ensures Usable(d) && d.Number() !in enabled && Allocatable(enabled + {d.Number()}, eps)
  {
    hide Usable, Descriptor.Number;
    var all := [d] + eps;
    assert all[0] == d;
    forall i | 0 <= i < |eps|
      ensures Usable(eps[i]) && eps[i].Number() !in enabled + {d.Number()}
    {
      assert all[i + 1] == eps[i] && all[0].Number() != all[i + 1].Number();
    }
    forall i, j | 0 <= i < j < |eps|
      ensures eps[i].Number() != eps[j].Number()
    {
      assert all[i + 1].Number() != all[j + 1].Number();
    }
  }

  lemma AllocatableMore(enabled: set<nat>, d: Descriptor, eps: seq<Descriptor>)
    requires Usable(d) && d.Number() !in enabled && Allocatable(enabled + {d.Number()}, eps)
    ensures Allocatable(enabled, [d] + eps)
  {
    hide Usable, Descriptor.Number;
    var all := [d] + eps;
    forall i | 0 <= i < |all|
      ensures Usable(all[i]) && all[i].Number() !in enabled
      ensures 0 < i ==> all[i] == eps[i - 1] && all[i].Number() != d.Number()
    {
      if 0 < i {
        assert all[i] == eps[i - 1];
      }
    }
  }

  lemma {:induction false} AllocatableJoin(enabled: set<nat>, a: seq<Descriptor>, b: seq<Descriptor>)
    ensures Allocatable(enabled, a + b) <==> Allocatable(enabled, a) && Allocatable(enabled + Numbers(a), b)
    decreases |a|
  {
    hide Allocatable, Numbers, Usable;
    NumbersGrow([], Descriptor(0, []));
    if a == [] {
      assert a + b == b && enabled + {} == enabled;
      NothingAllocatable(enabled);
    } else {
      var rest := a[1..];
      assert a == [a[0]] + rest && a + b == [a[0]] + (rest + b);
      AllocatableNext(enabled, a[0], rest);
      AllocatableNext(enabled, a[0], rest + b);
      AllocatableJoin(enabled + {a[0].Number()}, rest, b);
      NumbersJoin([a[0]], rest);
      NumbersGrow([], a[0]);
      assert [] + [a[0]] == [a[0]];
      assert enabled + {a[0].Number()} + Numbers(rest) == enabled + Numbers(a);
    }
  }

  lemma NothingAllocatable(enabled: set<nat>)
    ensures Allocatable(enabled, [])
  {
  }

  lemma {:induction false} AllocateAllSucceeds(configured: nat -> bool, enabled: set<nat>, checks: nat, eps: seq<Descriptor>)
    requires forall n: nat :: configured(n)
    ensures AllocateAll(configured, enabled, checks, eps).ok <==> Allocatable(enabled, eps)
    decreases |eps|
  {
    hide Allocatable, Allocate;
    if eps == [] {
      NothingAllocatable(enabled);
    } else {
      var d := eps[0];
      assert eps == [d] + eps[1..];
      AllocatableNext(enabled, d, eps[1..]);
      AllocateExactly(configured, enabled, checks, d.Address(), d.Attributes());
      var a := Allocate(configured, enabled, checks, d.Address(), d.Attributes());
      AllocateAdds(configured, enabled, checks, d);
      if a.ok {
        AllocateAllSucceeds(configured, a.enabled, a.checks, eps[1..]);
      }
    }
  }

  lemma EnableSucceeds(w: World, s: Selection, iface: nat, setting: nat)
    requires s.In(w) && NeverRefuses(w)
    ensures var o := Enable(w, s, iface, setting);
            && (o.ok <==> s.Finds(w, iface, setting) && Allocatable(s.enabled, SettingEndpoints(s.Block(w), iface, setting)))
            && (o.ok ==> o.s.enabled == s.enabled + s.Eps(w, iface, setting))
  {
    hide IsConfiguration, HasSetting, SettingEndpoints, Numbers, AllocateAll, Allocatable;
    if s.Finds(w, iface, setting) {
      AllocateAllSucceeds(w.configured, s.enabled, s.checks, SettingEndpoints(s.Block(w), iface, setting));
      AllocateAllOutcome(w.configured, s.enabled, s.checks, SettingEndpoints(s.Block(w), iface, setting));
    }
  }

  /** The endpoints of the default settings of the first `n` interfaces, in the order of the interfaces. */
  function DefaultEndpoints(w: World, s: Selection, n: nat): seq<Descriptor>
    requires s.In(w) && s.conf != 0
  {
    if n == 0 then [] else DefaultEndpoints(w, s, n - 1) + SettingEndpoints(s.Block(w), n - 1, 0)
  }

  lemma {:induction false} DefaultNumbers(w: World, s: Selection, n: nat)
    requires s.In(w) && s.conf != 0
    ensures Numbers(DefaultEndpoints(w, s, n)) == Defaults(w, s, n)
  {
    hide IsConfiguration, SettingEndpoints;
    if n > 0 {
      DefaultNumbers(w, s, n - 1);
      NumbersJoin(DefaultEndpoints(w, s, n - 1), SettingEndpoints(s.Block(w), n - 1, 0));
    }
  }

  lemma {:induction false} EnableAllSucceeds(w: World, s: Selection, n: nat)
    requires s.In(w) && s.conf != 0 && 0 in s.enabled && NeverRefuses(w)
    ensures EnableAll(w, s, n).ok
       <==> (forall i | 0 <= i < n :: s.Finds(w, i, 0)) && Allocatable(s.enabled, DefaultEndpoints(w, s, n))
  {
    hide IsConfiguration, HasSetting, SettingEndpoints, Numbers, Allocatable, Enable, NeverRefuses;
    if n == 0 {
      NothingAllocatable(s.enabled);
    } else {
      EnableAllSucceeds(w, s, n - 1);
      AllocatableJoin(s.enabled, DefaultEndpoints(w, s, n - 1), SettingEndpoints(s.Block(w), n - 1, 0));
      DefaultNumbers(w, s, n - 1);
      var o := EnableAll(w, s, n - 1);
      if o.ok {
        EnableAllExactly(w, s, n - 1);
        EnableSucceeds(w, o.s, n - 1, 0);
        assert o.s.Finds(w, n - 1, 0) == s.Finds(w, n - 1, 0);
      }
    }
  }

  /** With a controller and drivers that never refuse, SET_CONFIGURATION succeeds exactly if the default settings
      of all interfaces are found and their endpoints are distinct data endpoints that the controller has. */
  lemma ConfigureSucceeds(w: World, s: Selection, value: nat)
    requires Inv(w, s) && 0 < value <= |w.configs| && NeverRefuses(w)
    ensures var r := Selection(value, {0}, 0, 0, map[], map[], false, false);
            Configure(w, s, value).ok
            <==> (forall i | 0 <= i < r.Interfaces(w) :: HasSetting(r.Block(w), i, 0))
                 && Allocatable({0}, DefaultEndpoints(w, r, r.Interfaces(w)))
  {
    hide IsConfiguration, HasSetting, SettingEndpoints, Allocatable, EnableAll, Reset, NeverRefuses;
    ResetClears(w, s);
    var r := Reset(w, s).(conf := value);
    EnableAllSucceeds(w, r, r.Interfaces(w));
    var chosen := Selection(value, {0}, 0, 0, map[], map[], false, false);
    SameDefaultEndpoints(w, r, chosen, r.Interfaces(w));
    assert forall i | 0 <= i < r.Interfaces(w) :: r.Finds(w, i, 0) == HasSetting(chosen.Block(w), i, 0);
  }

  lemma {:induction false} SameDefaultEndpoints(w: World, s: Selection, r: Selection, n: nat)
    requires s.In(w) && s.conf != 0 && r.conf == s.conf
    ensures DefaultEndpoints(w, s, n) == DefaultEndpoints(w, r, n)
  {
    hide IsConfiguration, SettingEndpoints;
    if n > 0 {
      SameDefaultEndpoints(w, s, r, n - 1);
    }
  }

  /** Likewise SET_INTERFACE: exactly if the interface, the setting its driver reports and the new setting are found
      and the endpoints of the new one can take the place of the old. */
  lemma SwitchSucceeds(w: World, s: Selection, iface: nat, setting: nat)
    requires s.In(w) && NeverRefuses(w)
    ensures Switch(w, s, iface, setting).ok
       <==> s.Finds(w, iface, 0) && s.Finds(w, iface, s.Report(iface)) && s.Finds(w, iface, setting)
            && Allocatable(s.enabled - s.Eps(w, iface, s.Report(iface)), SettingEndpoints(s.Block(w), iface, setting))
  {
    hide IsConfiguration, HasSetting, SettingEndpoints, Numbers, Allocatable, Enable, NeverRefuses;
    var d := Disable(w, s, iface);
    if d.ok {
      EnableSucceeds(w, d.s, iface, setting);
    }
  }

  /** The drivers asked after `s` agree, `n` of them. */
  ghost predicate Agree(w: World, s: Selection, n: nat) {
    forall k | s.attempts < k <= s.attempts + n :: w.driverEnables(k)
  }

  /** A selection that succeeds has asked the driver of every interface once, and each has agreed. */
  lemma ConfigureAsksDrivers(w: World, s: Selection, value: nat)
    requires s.In(w) && 0 < value <= |w.configs| && Configure(w, s, value).ok
    ensures var o := Configure(w, s, value);
            o.s.attempts == s.attempts + o.s.Interfaces(w) && Agree(w, s, o.s.Interfaces(w))
  {
    hide IsConfiguration, EnableAll, DisableAll;
    if s.conf != 0 {
      DisableAllAsksNone(w, s, s.Interfaces(w));
    }
    var r := Reset(w, s).(conf := value);
    EnableAllAsks(w, r, r.Interfaces(w));
  }

  lemma {:induction false} DisableAllAsksNone(w: World, s: Selection, n: nat)
    requires s.In(w)
    ensures DisableAll(w, s, n).attempts == s.attempts
  {
    hide HasSetting, SettingEndpoints, Numbers, IsConfiguration;
    if n > 0 {
      DisableAllAsksNone(w, s, n - 1);
    }
  }

  lemma {:induction false} EnableAllAsks(w: World, s: Selection, n: nat)
    requires s.In(w) && EnableAll(w, s, n).ok
    ensures EnableAll(w, s, n).s.attempts == s.attempts + n && Agree(w, s, n)
  {
    hide Enable;
    if n > 0 {
      EnableAllAsks(w, s, n - 1);
      EnableAsks(w, EnableAll(w, s, n - 1).s, n - 1, 0);
    }
  }

  lemma EnableAsks(w: World, s: Selection, iface: nat, setting: nat)
    requires s.In(w) && Enable(w, s, iface, setting).ok
    ensures Enable(w, s, iface, setting).s.attempts == s.attempts + 1 && w.driverEnables(s.attempts + 1)
  {
    hide HasSetting, SettingEndpoints, IsConfiguration, AllocateAll;
  }

  /** Likewise a change of a setting, which asks one driver. */
  lemma SwitchAsksDriver(w: World, s: Selection, iface: nat, setting: nat)
    requires s.In(w) && Switch(w, s, iface, setting).ok
    ensures Switch(w, s, iface, setting).s.attempts == s.attempts + 1 && Agree(w, s, 1)
  {
    hide HasSetting, SettingEndpoints, Numbers, IsConfiguration, Enable;
    EnableAsks(w, Disable(w, s, iface).s, iface, setting);
  }

  // ---- Over every sequence -----------------------------------------------------------

  datatype Call = SetConfiguration(value: nat) | SetInterface(iface: nat, setting: nat) | BusReset

  function Step(w: World, s: Selection, c: Call): (r: Selection)
    requires s.In(w)
    ensures r.In(w)
  {
    match c
    case SetConfiguration(value) => if value <= |w.configs| then Configure(w, s, value).s else s
    case SetInterface(iface, setting) => Switch(w, s, iface, setting).s
    case BusReset => Reset(w, s)
  }

  function Run(w: World, s: Selection, calls: seq<Call>): (r: Selection)
    requires s.In(w)
    ensures r.In(w)
    decreases |calls|
  {
    if calls == [] then s else Run(w, Step(w, s, calls[0]), calls[1..])
  }

  const Unselected := Selection(0, {0}, 0, 0, map[], map[], false, false)

  // The history flags: once set they stay set, an honest driver mismatches only when an allocation stopped
  // part-way, and without alternate settings a driver that reports the only one never does.

  ghost predicate AlwaysDefault(s: Selection) {
    forall i | i in s.reported :: s.reported[i] == 0
  }

  ghost predicate Later(w: World, s: Selection, r: Selection)
    requires w.Described()
  {
    && (s.mismatch ==> r.mismatch) && (s.partial ==> r.partial)
    && (w.Honest() && r.mismatch ==> s.mismatch || r.partial)
    && (w.OnlyDefaultSettings() && AlwaysDefault(s) ==> AlwaysDefault(r) && (r.mismatch ==> s.mismatch))
  }

  lemma EnableLater(w: World, s: Selection, iface: nat, setting: nat)
    requires s.In(w)
    ensures Later(w, s, Enable(w, s, iface, setting).s)
  {
    hide AllocateAll, HasSetting, SettingEndpoints;
    if w.OnlyDefaultSettings() && s.Finds(w, iface, setting) {
      assert HasSetting(s.Block(w), iface, setting) && setting == 0;
    }
  }

  lemma {:induction false} DisableAllLater(w: World, s: Selection, n: nat)
    requires s.In(w)
    ensures var r := DisableAll(w, s, n);
            Later(w, s, r) && r.mismatch == s.mismatch && r.partial == s.partial && r.reported == s.reported
  {
    hide IsConfiguration, HasSetting, World.Honest, World.OnlyDefaultSettings;
    if n > 0 {
      DisableAllLater(w, s, n - 1);
    }
  }

  lemma {:induction false} EnableAllLater(w: World, s: Selection, n: nat)
    requires s.In(w)
    ensures Later(w, s, EnableAll(w, s, n).s)
  {
    hide IsConfiguration, HasSetting, Enable, World.Honest, World.OnlyDefaultSettings;
    if n > 0 {
      EnableAllLater(w, s, n - 1);
      EnableLater(w, EnableAll(w, s, n - 1).s, n - 1, 0);
    }
  }

  lemma StepLater(w: World, s: Selection, c: Call)
    requires s.In(w)
    ensures Later(w, s, Step(w, s, c))
  {
    hide IsConfiguration, HasSetting, Enable, EnableAll, Reset, World.Honest, World.OnlyDefaultSettings;
    match c {
      case SetConfiguration(value) =>
        ResetLater(w, s);
        if value <= |w.configs| && value != 0 {
          var r := Reset(w, s).(conf := value);
          EnableAllLater(w, r, r.Interfaces(w));
        }
      case SetInterface(iface, setting) => EnableLater(w, Disable(w, s, iface).s, iface, setting);
      case BusReset => ResetLater(w, s);
    }
  }

  lemma ResetLater(w: World, s: Selection)
    requires s.In(w)
    ensures Later(w, s, Reset(w, s)) && Reset(w, s).reported == s.reported
  {
    hide World.Honest, World.OnlyDefaultSettings, IsConfiguration, HasSetting;
    if s.conf != 0 {
      DisableAllLater(w, s, s.Interfaces(w));
    }
  }

  lemma StepHolds(w: World, s: Selection, c: Call)
    requires s.In(w) && (s.mismatch || Inv(w, s))
    ensures Step(w, s, c).mismatch || Inv(w, Step(w, s, c))
  {
    hide Inv, Configure, Switch, Reset;
    StepLater(w, s, c);
    if !s.mismatch {
      match c {
        case SetConfiguration(value) =>
          if value <= |w.configs| {
            ConfigureHolds(w, s, value);
          }
        case SetInterface(iface, setting) => SwitchHolds(w, s, iface, setting);
        case BusReset => ResetClears(w, s);
      }
    }
  }

  lemma {:induction false} RunHolds(w: World, s: Selection, calls: seq<Call>)
    requires s.In(w) && (s.mismatch || Inv(w, s))
    ensures var r := Run(w, s, calls); Later(w, s, r) && (r.mismatch || Inv(w, r))
    decreases |calls|
  {
    hide Inv, Step, World.Honest, World.OnlyDefaultSettings, World.Described;
    if calls != [] {
      StepHolds(w, s, calls[0]);
      StepLater(w, s, calls[0]);
      RunHolds(w, Step(w, s, calls[0]), calls[1..]);
    }
  }

  /** After every sequence of configurations, interface settings and resets: if no interface was ever left
      with endpoints of a setting its driver does not report, then exactly endpoints of reported settings are
      enabled and a reset leaves no data endpoint enabled. Honest drivers can only get there by an
      allocation that stops part-way; drivers without alternate settings never do. */
  lemma ResetClearsAfterEveryRun(w: World, calls: seq<Call>)
    requires w.Described()
    ensures var s := Run(w, Unselected, calls);
            && (!s.mismatch ==> Reset(w, s).enabled == {0})
            && (w.Honest() && !s.partial ==> !s.mismatch && Reset(w, s).enabled == {0})
            && (w.OnlyDefaultSettings() ==> !s.mismatch && Reset(w, s).enabled == {0})
  {
    hide Run, Reset, World.Honest, World.OnlyDefaultSettings;
    assert Inv(w, Unselected) && AlwaysDefault(Unselected);
    RunHolds(w, Unselected, calls);
    var s := Run(w, Unselected, calls);
    if !s.mismatch {
      ResetClears(w, s);
    }
  }

  /** An honest driver keeps its endpoints apart through a change to any setting. */
  lemma HonestSwitch(w: World, s: Selection, iface: nat, setting: nat)
    requires Inv(w, s) && w.Honest() && iface in s.asked && !s.mismatch
    ensures var o := Switch(w, s, iface, setting);
            o.ok ==>
              && Inv(w, o.s) && !o.s.mismatch && o.s.Report(iface) == setting && s.conf != 0
              && o.s.enabled == s.enabled - s.Eps(w, iface, s.Report(iface)) + s.Eps(w, iface, setting)
              && Reset(w, o.s).enabled == {0}
  {
    hide IsConfiguration, HasSetting, SettingEndpoints, Numbers, AllocateAll, Reset, Inv;
    DisableHolds(w, s, iface);
    SwitchHolds(w, s, iface, setting);
    var o, d := Switch(w, s, iface, setting), Disable(w, s, iface);
    if o.ok {
      AllocateAllOutcome(w.configured, d.s.enabled, d.s.checks, SettingEndpoints(s.Block(w), iface, setting));
      ResetClears(w, o.s);
    }
  }

  // ---- Exactly what a reset leaves ---------------------------------------------------

  /** The endpoints of the settings that the drivers of the first `n` interfaces report. */
  function Reported(w: World, s: Selection, n: nat): set<nat>
    requires s.In(w) && s.conf != 0
  {
    if n == 0 then {} else
    Reported(w, s, n - 1)
    + if s.Finds(w, n - 1, 0) && s.Finds(w, n - 1, s.Report(n - 1)) then s.Eps(w, n - 1, s.Report(n - 1)) else {}
  }

  lemma {:induction false} DisableAllExactly(w: World, s: Selection, n: nat)
    requires s.In(w) && s.conf != 0
    ensures var r := DisableAll(w, s, n); r.enabled == s.enabled - Reported(w, s, n) && r.reported == s.reported
  {
    hide HasSetting, SettingEndpoints, Numbers, IsConfiguration;
    if n > 0 {
      DisableAllExactly(w, s, n - 1);
    }
  }

  /** In any state a reset disables exactly the endpoints of the reported settings, so no data endpoint stays
      enabled exactly if each belongs to one of those. */
  lemma ResetExactly(w: World, s: Selection)
    requires s.In(w) && s.conf != 0 && 0 in s.enabled
    ensures Reset(w, s).enabled == s.enabled - Reported(w, s, s.Interfaces(w))
    ensures 0 !in Reported(w, s, s.Interfaces(w))
    ensures Reset(w, s).enabled == {0} <==> s.enabled <= {0} + Reported(w, s, s.Interfaces(w))
  {
    hide HasSetting, SettingEndpoints, Numbers, IsConfiguration, Reported;
    DisableAllExactly(w, s, s.Interfaces(w));
    ReportedData(w, s, s.Interfaces(w));
  }

  lemma {:induction false} ReportedData(w: World, s: Selection, n: nat)
    requires s.In(w) && s.conf != 0
    ensures 0 !in Reported(w, s, n)
  {
    hide HasSetting, SettingEndpoints, Numbers, IsConfiguration;
    if n > 0 {
      ReportedData(w, s, n - 1);
      DataNumbers(s.Block(w), n - 1, s.Report(n - 1));
    }
  }

  /** An enable after which a reset still clears everything: exactly those whose new endpoints the drivers
      report. For an honest driver that is every enable whose allocations all succeed. */
  lemma EnableThenReset(w: World, s: Selection, iface: nat, setting: nat)
    requires Inv(w, s) && iface !in s.asked && s.Finds(w, iface, setting) && s.Finds(w, iface, 0)
    ensures var r := Enable(w, s, iface, setting).s;
            && (Reset(w, r).enabled == {0} <==> r.enabled - s.enabled <= Reported(w, r, r.Interfaces(w)))
            && (w.Honest() && !s.mismatch
                && AllocateAll(w.configured, s.enabled, s.checks, SettingEndpoints(s.Block(w), iface, setting)).ok
                ==> Reset(w, r).enabled == {0})
  {
    hide HasSetting, SettingEndpoints, Numbers, IsConfiguration, Reported, AllocateAll, Reset;
    var r := Enable(w, s, iface, setting).s;
    AllocateAllOutcome(w.configured, s.enabled, s.checks, SettingEndpoints(s.Block(w), iface, setting));
    ResetExactly(w, r);
    forall e | e in s.enabled && e != 0
      ensures e in Reported(w, r, r.Interfaces(w))
    {
      var i :| i in s.asked && e in s.Eps(w, i, s.asked[i]);
      ReportedHas(w, r, r.Interfaces(w), i, e);
    }
    EnableHolds(w, s, iface, setting);
    if Inv(w, r) {
      ResetClears(w, r);
    }
  }

  lemma {:induction false} ReportedHas(w: World, s: Selection, n: nat, i: nat, e: nat)
    requires s.In(w) && s.conf != 0 && i < n && s.Finds(w, i, 0) && s.Finds(w, i, s.Report(i)) && e in s.Eps(w, i, s.Report(i))
    ensures e in Reported(w, s, n)
  {
    hide HasSetting, SettingEndpoints, Numbers, IsConfiguration;
    if i < n - 1 {
      ReportedHas(w, s, n - 1, i, e);
    }
  }

  // ---- Where an honest driver is not enough ------------------------------------------

  /** One interface: no endpoints in its default setting, endpoints 1 and 2 in setting 1. */
  predicate IsAlternate(block: seq<byte>) {
    && |block| == 41
    && block[0] == 9 && block[1] == DT_CONFIGURATION && block[2] == 41 && block[3] == 0 && block[4] == 1
    && block[9] == 9 && block[10] == DT_INTERFACE && block[11] == 0 && block[12] == 0
    && block[18] == 9 && block[19] == DT_INTERFACE && block[20] == 0 && block[21] == 1
    && block[27] == 7 && block[28] == DT_ENDPOINT && block[29] == 129 && block[30] == 2
    && block[34] == 7 && block[35] == DT_ENDPOINT && block[36] == 2 && block[37] == 2
  }

  lemma AlternateExists()
    ensures IsAlternate([9, 2, 41, 0, 1, 1, 0, 192, 50]
                        + [9, 4, 0, 0, 0, 255, 0, 0, 0]
                        + [9, 4, 0, 1, 2, 255, 0, 0, 0]
                        + [7, 5, 129, 2, 64, 0, 0]
                        + [7, 5, 2, 2, 64, 0, 0])
  {
  }

  lemma AlternateParsed(block: seq<byte>)
    requires IsAlternate(block)
    ensures Chained(block, 0)
    ensures Parse(block, 0)
         == [Descriptor(0, block[0..9]), Descriptor(9, block[9..18]), Descriptor(18, block[18..27]),
             Descriptor(27, block[27..34]), Descriptor(34, block[34..41])]
  {
    assert Chained(block, 34);
    assert Chained(block, 27);
    assert Chained(block, 18);
    assert Chained(block, 9);
    hide Chained, Parse;
    ParseStep(block, 0);
    ParseStep(block, 9);
    ParseStep(block, 18);
    ParseStep(block, 27);
    ParseStep(block, 34);
  }

  lemma AlternateSettings(block: seq<byte>)
    requires IsAlternate(block)
    ensures IsConfiguration(block) && HasSetting(block, 0, 0) && HasSetting(block, 0, 1)
    ensures SettingEndpoints(block, 0, 0) == []
    ensures var eps := SettingEndpoints(block, 0, 1);
            && |eps| == 2 && eps[0].Address() == 129 && eps[0].Attributes() == 2
            && eps[1].Address() == 2 && eps[1].Attributes() == 2
  {
    hide Chained, Parse, FromSetting, EndpointsOf, Named, Numbered;
    AlternateParsed(block);
    AlternateLists(block, Parse(block, 0));
    AlternateFields(block, Parse(block, 0));
  }

  lemma AlternateFields(block: seq<byte>, ds: seq<Descriptor>)
    requires IsAlternate(block)
    requires ds == [Descriptor(0, block[0..9]), Descriptor(9, block[9..18]), Descriptor(18, block[18..27]),
                    Descriptor(27, block[27..34]), Descriptor(34, block[34..41])]
    ensures Named(ds) && Numbered(ds)
    ensures ds[3].Address() == 129 && ds[3].Attributes() == 2 && ds[4].Address() == 2 && ds[4].Attributes() == 2
  {
  }

  lemma AlternateLists(block: seq<byte>, ds: seq<Descriptor>)
    requires IsAlternate(block)
    requires ds == [Descriptor(0, block[0..9]), Descriptor(9, block[9..18]), Descriptor(18, block[18..27]),
                    Descriptor(27, block[27..34]), Descriptor(34, block[34..41])]
    ensures FromSetting(ds, 0, 0) == ds[1..] && FromSetting(ds, 0, 1) == ds[2..]
    ensures EndpointsOf(ds[2..]) == [] && EndpointsOf(ds[3..]) == ds[3..]
    ensures FromSetting(ds, 0, 0)[1..] == ds[2..] && FromSetting(ds, 0, 1)[1..] == ds[3..]
  {
    hide Descriptor.Number, Descriptor.Address;
    var a, b, c, d := ds[1..], ds[2..], ds[3..], ds[4..];
    assert a[1..] == b && b[1..] == c && c[1..] == d && d[1..] == [];
    assert FromSetting(ds, 0, 0) == FromSetting(a, 0, 0) == a;
    assert FromSetting(ds, 0, 1) == FromSetting(a, 0, 1) == FromSetting(b, 0, 1) == b;
    assert EndpointsOf(d) == d;
    assert EndpointsOf(c) == [c[0]] + EndpointsOf(d);
  }

  /** The second allocation of a change to setting 1 is refused. The driver was not enabled, so it still
      reports the default setting, and the reset leaves endpoints 1 and 2 enabled. */
  lemma StoppedSwitchLeavesEndpoints(block: seq<byte>)
    requires IsAlternate(block)
    ensures var w := World([block], n => n != 2, n => true, (n, s) => s);
            && w.Described() && w.Honest()
            && var s := Run(w, Unselected, [SetConfiguration(1), SetInterface(0, 1)]);
               s.partial && Reset(w, s).enabled == {0, 1, 2}
  {
    hide IsConfiguration, IsAlternate, HasSetting, SettingEndpoints, Numbers, AllocateAll;
    var w := World([block], n => n != 2, n => true, (n, s) => s);
    AlternateSettings(block);
    assert w.Described();
    var s1 := Configured(w, block);
    var s2 := Stopped(w, block, s1);
    var calls := [SetConfiguration(1), SetInterface(0, 1)];
    assert calls[1..] == [SetInterface(0, 1)] && calls[1..][1..] == [];
    hide Configure, Switch, Reset;
    assert Run(w, s2, []) == s2;
    assert Run(w, s1, [SetInterface(0, 1)]) == Run(w, s2, []);
  }

  lemma Configured(w: World, block: seq<byte>) returns (s1: Selection)
    requires IsAlternate(block) && w.configs == [block] && w.Described()
    requires w.configured(1) && !w.configured(2) && w.driverEnables(1) && w.driverReports(1, 0) == 0
    ensures s1 == Configure(w, Unselected, 1).s
    ensures s1 == Selection(1, {0}, 0, 1, map[0 := 0], map[0 := 0], false, false)
  {
    AlternateSettings(block);
    hide HasSetting, SettingEndpoints, IsConfiguration;
    var r := Reset(w, Unselected).(conf := 1);
    assert r == Unselected.(conf := 1) && r.Interfaces(w) == 1;
    assert AllocateAll(w.configured, {0}, 0, []) == Allocation(true, {0}, 0);
    assert EnableAll(w, r, 0) == Outcome(true, r);
    s1 := Configure(w, Unselected, 1).s;
    assert s1 == Enable(w, r, 0, 0).s;
  }

  lemma Stopped(w: World, block: seq<byte>, s1: Selection) returns (s2: Selection)
    requires IsAlternate(block) && w.configs == [block] && w.Described()
    requires w.configured(1) && !w.configured(2)
    requires s1 == Selection(1, {0}, 0, 1, map[0 := 0], map[0 := 0], false, false)
    ensures s2 == Switch(w, s1, 0, 1).s && s2.partial && Reset(w, s2).enabled == {0, 1, 2}
  {
    AlternateSettings(block);
    AlternateAllocated(w.configured, SettingEndpoints(block, 0, 1));
    hide HasSetting, SettingEndpoints, IsConfiguration, AllocateAll, Numbers;
    NumbersGrow([], Descriptor(0, []));
    assert s1.Interfaces(w) == 1 && s1.Finds(w, 0, 0) && s1.Eps(w, 0, 0) == {};
    var d := s1.(asked := map[]);
    assert Disable(w, s1, 0).ok && Disable(w, s1, 0).s == d;
    s2 := Enable(w, d, 0, 1).s;
    assert s2.enabled == {0, 1, 2} && s2.partial && s2.reported == map[0 := 0] && s2.conf == 1;
    hide Enable;
    assert DisableAll(w, s2, 0) == s2 && s2.Eps(w, 0, 0) == {};
    assert DisableAll(w, s2, 1) == Disable(w, s2, 0).s;
  }

  lemma AlternateAllocated(configured: nat -> bool, eps: seq<Descriptor>)
    requires |eps| == 2 && configured(1) && !configured(2)
    requires eps[0].Address() == 129 && eps[0].Attributes() == 2 && eps[1].Address() == 2 && eps[1].Attributes() == 2
    ensures var a := AllocateAll(configured, {0}, 0, eps); !a.ok && a.enabled == {0, 1, 2}
  {
    assert Above({0}, 1) == {} && Above({0, 1}, 2) == {};
    assert Allocate(configured, {0}, 0, 129, 2) == Allocation(true, {0, 1}, 1);
    assert Allocate(configured, {0, 1}, 1, 2, 2) == Allocation(false, {0, 1, 2}, 2);
  }
}
