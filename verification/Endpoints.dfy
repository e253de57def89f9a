/** The data endpoints of the USB device driver. */
module DataEndpoints {
  import opened UsbRequest
  import opened Descriptors

  const MAX_EP := 3

  /** How an allocation ends: whether it succeeded, the enabled endpoints, and how often the controller was
      asked for memory. */
  datatype Allocation = Allocation(ok: bool, enabled: set<nat>, checks: nat)

  /** Endpoints `i` to `MAX_EP` of `waiting` are allocated again, up to the first refusal. */
  function Reallocate(configured: nat -> bool, enabled: set<nat>, waiting: set<nat>, i: nat, checks: nat): (a: Allocation)
    ensures enabled <= a.enabled <= enabled + waiting
    ensures a.ok ==> forall e | e in waiting && i <= e <= MAX_EP :: e in a.enabled
    decreases MAX_EP + 1 - i
  {
    if i > MAX_EP then Allocation(true, enabled, checks)
    else if i !in waiting then Reallocate(configured, enabled, waiting, i + 1, checks)
    else if !configured(checks + 1) then Allocation(false, enabled + {i}, checks + 1)
    else Reallocate(configured, enabled + {i}, waiting, i + 1, checks + 1)
  }

  /** To enable an endpoint, those with higher numbers are released and allocated again. On success exactly
      that endpoint is enabled in addition; lower ones are never touched. */
  function Allocate(configured: nat -> bool, enabled: set<nat>, checks: nat, address: byte, attributes: byte): (a: Allocation)
    ensures var ep := EndpointNumber(address);
            && (a.ok ==> ep <= MAX_EP && ep !in enabled && a.enabled == enabled + {ep})
            && a.enabled <= enabled + {ep} && (forall e | e in enabled && e < ep :: e in a.enabled)
            && (ep in enabled || MAX_EP < ep || attributes % 4 == 0 ==> !a.ok && a.enabled == enabled)
  {
    var ep := EndpointNumber(address);
    if MAX_EP < ep || ep in enabled || attributes % 4 == 0 then Allocation(false, enabled, checks) else
    Reallocate(configured, enabled - Above(enabled, ep), Above(enabled, ep) + {ep}, ep, checks)
  }

  /** The endpoints above `i`. */
  function Above(enabled: set<nat>, i: nat): set<nat> {
    set e | e in enabled && i < e <= MAX_EP
  }

  /** The endpoints from `i` on. */
  function From(waiting: set<nat>, i: nat): set<nat> {
    set e | e in waiting && i <= e <= MAX_EP
  }

  /** The controller grants the next `n` requests for memory. */
  ghost predicate Grants(configured: nat -> bool, checks: nat, n: nat) {
    forall k | checks < k <= checks + n :: configured(k)
  }

  lemma FromStep(waiting: set<nat>, i: nat)
    requires i <= MAX_EP
    ensures From(waiting, i) == From(waiting, i + 1) + if i in waiting then {i} else {}
    ensures |From(waiting, i)| == |From(waiting, i + 1)| + if i in waiting then 1 else 0
  {
    assert From(waiting, i) == From(waiting, i + 1) + if i in waiting then {i} else {};
  }

  /** All are allocated again exactly if the controller grants each. */
  lemma {:induction false} ReallocateSucceeds(configured: nat -> bool, enabled: set<nat>, waiting: set<nat>, i: nat, checks: nat)
    ensures var a := Reallocate(configured, enabled, waiting, i, checks);
            && (a.ok <==> Grants(configured, checks, |From(waiting, i)|))
            && (a.ok ==> a.enabled == enabled + From(waiting, i) && a.checks == checks + |From(waiting, i)|)
    decreases MAX_EP + 1 - i
  {
    hide Grants, From;
    if i > MAX_EP {
      NothingFrom(configured, waiting, i, checks);
    } else if i in waiting {
      ReallocateSucceeds(configured, enabled + {i}, waiting, i + 1, checks + 1);
      FromStep(waiting, i);
      GrantsNext(configured, checks, |From(waiting, i + 1)|);
    } else {
      ReallocateSucceeds(configured, enabled, waiting, i + 1, checks);
      FromStep(waiting, i);
    }
  }

  lemma NothingFrom(configured: nat -> bool, waiting: set<nat>, i: nat, checks: nat)
    requires i > MAX_EP
    ensures From(waiting, i) == {} && Grants(configured, checks, 0)
  {
  }

  /** If one is refused, those above it stay released. */
  lemma {:induction false} ReallocateStops(configured: nat -> bool, enabled: set<nat>, waiting: set<nat>, i: nat, checks: nat)
    returns (j: nat)
    requires !Reallocate(configured, enabled, waiting, i, checks).ok
    ensures j in waiting && i <= j <= MAX_EP
    ensures Reallocate(configured, enabled, waiting, i, checks).enabled == enabled + (From(waiting, i) - From(waiting, j + 1))
    decreases MAX_EP + 1 - i
  {
    FromStep(waiting, i);
    if i !in waiting {
      j := ReallocateStops(configured, enabled, waiting, i + 1, checks);
    } else if configured(checks + 1) {
      j := ReallocateStops(configured, enabled + {i}, waiting, i + 1, checks + 1);
    } else {
      j := i;
    }
  }

  lemma GrantsNext(configured: nat -> bool, checks: nat, n: nat)
    ensures Grants(configured, checks, n + 1) <==> configured(checks + 1) && Grants(configured, checks + 1, n)
  {
  }

  /** An allocation succeeds exactly if the endpoint exists, is not enabled and not of control type, and the controller
      grants its memory and, again, that of each enabled endpoint above it. */
  lemma AllocateExactly(configured: nat -> bool, enabled: set<nat>, checks: nat, address: byte, attributes: byte)
    ensures var a, ep := Allocate(configured, enabled, checks, address, attributes), EndpointNumber(address);
            a.ok <==> ep <= 3 && ep !in enabled && attributes % 4 != 0 && Grants(configured, checks, 1 + |Above(enabled, ep)|)
  {
    hide Grants, Reallocate;
    var ep := EndpointNumber(address);
    if ep <= MAX_EP && ep !in enabled {
      ReallocateSucceeds(configured, enabled - Above(enabled, ep), Above(enabled, ep) + {ep}, ep, checks);
      assert From(Above(enabled, ep) + {ep}, ep) == Above(enabled, ep) + {ep};
    }
  }

  lemma AboveStep(enabled: set<nat>, i: nat)
    ensures i <= MAX_EP ==> i !in Above(enabled, i)
    ensures 0 < i <= MAX_EP ==> Above(enabled, i - 1) == Above(enabled, i) + if i in enabled then {i} else {}
    ensures Above(enabled, MAX_EP) == {}
  {
  }

  class Endpoints {
    /** What the controller says of the n-th memory allocation it is asked for. */
    const configured: nat -> bool

    /** The enabled endpoints; 0 is the control endpoint. */
    var enabled: set<nat>
    var halted: set<nat>
    /** The endpoints with a transfer in progress. */
    var busy: set<nat>
    /** Number of allocations asked for. */
    var checks: nat

    constructor (configured: nat -> bool)
      ensures enabled == {0} && halted == {} && busy == {} && this.configured == configured
    {
      this.configured := configured;
      enabled, halted, busy, checks := {0}, {}, {}, 0;
    }

    /** `udd_ep_alloc`. */
    method Alloc(address: byte, attributes: byte) returns (ok: bool)
      modifies this`enabled, this`checks
      ensures Allocation(ok, enabled, checks) == Allocate(configured, old(enabled), old(checks), address, attributes)
      ensures ok <==> address % 16 <= 3 && address % 16 !in old(enabled) && attributes % 4 != 0
                      && Grants(configured, old(checks), 1 + |Above(old(enabled), address % 16)|)
      ensures ok ==> enabled == old(enabled) + {address % 16}
    {
      hide Grants, Above, Reallocate;
      AllocateExactly(configured, enabled, checks, address, attributes);
      var ep := EndpointNumber(address);
      if MAX_EP < ep || ep in enabled || attributes % 4 == 0 {
        return false;
      }
      var waiting := ReleaseAbove(ep);
      ok := AllocateAgain(waiting, ep);
    }

    /** Releases the enabled endpoints above `ep`; they and `ep` wait for memory then. */
    method ReleaseAbove(ep: nat) returns (waiting: set<nat>)
      requires ep <= MAX_EP
      modifies this`enabled
      ensures waiting == Above(old(enabled), ep) + {ep} && enabled == old(enabled) - Above(old(enabled), ep)
    {
      hide Above;
      AboveStep(enabled, MAX_EP);
      waiting := {ep};
      var i := MAX_EP;
      while ep < i
        invariant ep <= i <= MAX_EP
        invariant waiting == Above(old(enabled), i) + {ep} && enabled == old(enabled) - Above(old(enabled), i)
      {
        AboveStep(old(enabled), i);
        if i in enabled {
          waiting := waiting + {i};
          enabled := enabled - {i};
        }
        i := i - 1;
      }
    }

    /** Gives memory to the waiting endpoints from `ep` on, up to the first refusal. */
    method AllocateAgain(waiting: set<nat>, ep: nat) returns (ok: bool)
      requires ep <= MAX_EP
      modifies this`enabled, this`checks
      ensures Allocation(ok, enabled, checks) == Reallocate(configured, old(enabled), waiting, ep, old(checks))
    {
      var i := ep;
      while i <= MAX_EP
        invariant ep <= i <= MAX_EP + 1
        invariant Reallocate(configured, enabled, waiting, i, checks)
               == Reallocate(configured, old(enabled), waiting, ep, old(checks))
      {
        if i in waiting {
          enabled := enabled + {i};
          checks := checks + 1;
          if !configured(checks) {
            return false;
          }
        }
        i := i + 1;
      }
      ok := true;
    }

    /** `udd_ep_free`. */
    method Free(address: byte)
      modifies this`enabled, this`busy
      ensures enabled == old(enabled) - {EndpointNumber(address)} && busy == old(busy) - {EndpointNumber(address)}
    {
      enabled := enabled - {EndpointNumber(address)};
      busy := busy - {EndpointNumber(address)};
    }

    /** `udd_ep_set_halt`. */
    method SetHalt(ep: nat) returns (ok: bool)
      modifies this`halted
      ensures ok == (ep % 16 <= MAX_EP && ep % 16 !in busy)
      ensures halted == if ok then old(halted) + {ep % 16} else old(halted)
    {
      if MAX_EP < ep % 16 || ep % 16 in busy {
        return false;
      }
      halted := halted + {ep % 16};
      ok := true;
    }

    /** `udd_ep_clear_halt`; a job that waited for it ends. */
    method ClearHalt(ep: nat) returns (ok: bool)
      modifies this`halted, this`busy
      ensures ok == (ep % 16 <= MAX_EP)
      ensures halted == if ok then old(halted) - {ep % 16} else old(halted)
      ensures busy == if ok && ep % 16 in old(halted) then old(busy) - {ep % 16} else old(busy)
    {
      if MAX_EP < ep % 16 {
        return false;
      }
      if ep % 16 in halted {
        halted := halted - {ep % 16};
        busy := busy - {ep % 16};
      }
      ok := true;
    }
  }
}
