/** Timeouts on the 32-bit cycle counter, which wraps around. */
module CycleTimer {
  import opened Alignment

  const WRAP := 0x1_0000_0000

  datatype TimerState = Started | Reached | Stopped

  /** Cycles from one reading of the counter to another, as the counter shows them. */
  function Between(first: nat, second: nat): (d: nat)
    ensures d < WRAP
  {
    (second - first) % WRAP
  }

  /** `t_cpu_time`. */
  class Timer {
    var startCycle: nat
    var endCycle: nat
    var state: TimerState
    /** The delay that was set. */
    ghost var delay: nat

    ghost predicate Valid()
      reads this
    {
      startCycle < WRAP && delay < WRAP && endCycle == (startCycle + delay) % WRAP
    }

    /** `cpu_set_timeout`; `count` is the counter's value. */
    constructor (delay: nat, count: nat)
      requires delay < WRAP && count < WRAP
      ensures Valid() && this.delay == delay && startCycle == count && state == Started
    {
      startCycle := count;
      endCycle := (count + delay) % WRAP;
      state := Started;
      this.delay := delay;
    }

    /** `cpu_is_timeout`: exactly if more than the delay has passed on the counter, whether the end of the
        delay lies behind a wrap-around or not; and from then on until the timer is stopped. */
    method IsTimeout(count: nat) returns (timeout: bool)
      requires Valid() && count < 0x1_0000_0000
      modifies `state
      ensures Valid() && (timeout <==> state == Reached)
      ensures state == match old(state)
                       case Started => if Between(startCycle, count) > delay then Reached else Started
                       case Reached => Reached
                       case Stopped => Stopped
    {
      WindowIsElapsed(startCycle, delay, count);
      if state == Stopped {
        return false;
      } else if state == Reached {
        return true;
      } else if startCycle > endCycle {
        if count < startCycle && count > endCycle {
          state := Reached;
          return true;
        }
        return false;
      } else {
        if count < startCycle || count > endCycle {
          state := Reached;
          return true;
        }
        return false;
      }
    }

    /** `cpu_stop_timeout`. */
    method Stop()
      modifies `state
      ensures state == Stopped
    {
      state := Stopped;
    }
  }

  /** Both tests of the counter against the ends of the delay, wrapped or not, say whether more than the
      delay has passed. */
  lemma WindowIsElapsed(start: nat, delay: nat, count: nat)
    requires start < WRAP && delay < WRAP && count < WRAP
    ensures var end := (start + delay) % WRAP;
            Between(start, count) > delay
            <==> if start > end then count < start && count > end else count < start || count > end
  {
    var end := (start + delay) % WRAP;
    if start + delay < WRAP {
      assert end == start + delay;
    } else {
      assert end == start + delay - WRAP;
    }
    if start <= count {
      assert Between(start, count) == count - start;
    } else {
      assert Between(start, count) == count - start + WRAP;
    }
  }

  // ---- Busy waiting ------------------------------------------------------------------

  /** The counter `t` cycles after it read `count`. */
  function CountAt(count: nat, t: nat): (c: nat)
    ensures c < WRAP
  {
    (count + t) % WRAP
  }

  lemma ElapsedOnCounter(count: nat, t: nat, u: nat)
    requires t <= u
    ensures Between(CountAt(count, t), CountAt(count, u)) == (u - t) % WRAP
    ensures u - t < WRAP ==> Between(CountAt(count, t), CountAt(count, u)) == u - t
  {
    var a, b := (count + t) / WRAP, (count + u) / WRAP;
    assert CountAt(count, u) - CountAt(count, t) == (u - t) + WRAP * (a - b);
  }

  /** A timeout is never reported early, however far apart the polls are. */
  lemma NeverEarly(count: nat, t: nat, u: nat, delay: nat)
    requires t <= u && Between(CountAt(count, t), CountAt(count, u)) > delay
    ensures u - t > delay
  {
    ElapsedOnCounter(count, t, u);
  }

  /** Polls that are close enough together see the end of the delay. */
  ghost predicate PollsClose(poll: nat -> nat, delay: nat) {
    forall i: nat :: poll(i) < poll(i + 1) <= poll(i) + (WRAP - 1 - delay)
  }

  /** `cpu_delay_cy`: the counter is read at the times `poll(0)`, `poll(1)`, and so on. It returns at the first
      poll after more than `delay` cycles. */
  method DelayCycles(delay: nat, count: nat, poll: nat -> nat) returns (n: nat)
    requires delay < WRAP && PollsClose(poll, delay)
    ensures 0 < n && poll(0) + delay < poll(n)
    ensures forall i | 0 <= i < n :: poll(i) <= poll(0) + delay
  {
    hide Between, CountAt;
    var timer := new Timer(delay, CountAt(count, poll(0)));
    n := 0;
    var timeout := false;
    while !timeout
      invariant timer.Valid() && timer.delay == delay && timer.startCycle == CountAt(count, poll(0))
      invariant timer.state == if timeout then Reached else Started
      invariant forall i | 0 <= i < n :: poll(i) <= poll(0) + delay
      invariant poll(0) + n <= poll(n)
      invariant if timeout then 0 < n && poll(0) + delay < poll(n) else poll(n) <= poll(0) + delay
      decreases (if timeout then 0 else 1), poll(0) + delay - poll(n)
    {
      assert poll(n) < poll(n + 1) <= poll(n) + (WRAP - 1 - delay);
      n := n + 1;
      ElapsedOnCounter(count, poll(0), poll(n));
      timeout := timer.IsTimeout(CountAt(count, poll(n)));
    }
  }

  lemma NextInside(t: nat, delay: nat)
    requires t % WRAP <= delay < WRAP
    ensures if t % WRAP < delay then (t + 1) % WRAP <= delay else (t + (WRAP - delay)) % WRAP == 0
  {
    var q, r := t / WRAP, t % WRAP;
    assert t == WRAP * q + r;
    if r < delay {
      assert t + 1 == WRAP * q + (r + 1);
      assert (t + 1) % WRAP == r + 1;
    } else {
      assert t + (WRAP - delay) == WRAP * (q + 1);
    }
  }

  /** Times at which a wait never ends: every poll falls into the delay as the wrapped counter shows it. */
  function LatePoll(delay: nat, i: nat): (t: nat)
    requires delay < WRAP
    ensures t % WRAP <= delay && (i == 0 ==> t == 0)
  {
    if i == 0 then 0 else
    var t := LatePoll(delay, i - 1);
    NextInside(t, delay);
    if t % WRAP < delay then t + 1 else t + (WRAP - delay)
  }

  /** The bound on the distance of the polls cannot be relaxed by one: polls at most `WRAP - delay` apart may all
      miss the end of the delay. */
  lemma WaitMayNotEnd(count: nat, delay: nat, i: nat)
    requires delay < WRAP
    ensures LatePoll(delay, i) < LatePoll(delay, i + 1) <= LatePoll(delay, i) + (WRAP - delay)
    ensures Between(CountAt(count, LatePoll(delay, 0)), CountAt(count, LatePoll(delay, i))) <= delay
  {
    hide Between, CountAt;
    ElapsedOnCounter(count, 0, LatePoll(delay, i));
  }

  // ---- Conversions -------------------------------------------------------------------

  /** `cpu_ms_2_cy`; the result has 32 bits. */
  function MsToCycles(ms: nat, fcpu: nat): nat {
    MulPositive(ms, fcpu);
    (ms * fcpu + 999) / 1000 % WRAP
  }

  /** `cpu_us_2_cy`. */
  function UsToCycles(us: nat, fcpu: nat): nat {
    MulPositive(us, fcpu);
    (us * fcpu + 999999) / 1000000 % WRAP
  }

  /** The converted delay is not shorter than the time asked for exactly if the cycles fit 32 bits, and
      then it is the least such number. */
  lemma CyclesRoundUp(ms: nat, us: nat, fcpu: nat, n: nat)
    ensures ms * fcpu <= 1000 * 0xFFFF_FFFF ==> (ms * fcpu <= 1000 * n <==> MsToCycles(ms, fcpu) <= n)
    ensures us * fcpu <= 1000000 * 0xFFFF_FFFF ==> (us * fcpu <= 1000000 * n <==> UsToCycles(us, fcpu) <= n)
    ensures ms * fcpu <= 1000 * MsToCycles(ms, fcpu) <==> ms * fcpu <= 1000 * (WRAP - 1)
    ensures us * fcpu <= 1000000 * UsToCycles(us, fcpu) <==> us * fcpu <= 1000000 * (WRAP - 1)
  {
    MulPositive(ms, fcpu);
    MulPositive(us, fcpu);
    Truncated(ms * fcpu, 1000, n);
    Truncated(us * fcpu, 1000000, n);
  }

  /** A quotient rounded up and truncated to 32 bits. */
  lemma Truncated(x: nat, d: nat, n: nat)
    requires 0 < d
    ensures var c := (x + d - 1) / d % WRAP;
            && (x <= d * (WRAP - 1) ==> (x <= d * n <==> c <= n))
            && (x <= d * c <==> x <= d * (WRAP - 1))
  {
    RoundUp(x, d, n);
    RoundUp(x, d, WRAP - 1);
    var q := (x + d - 1) / d;
    var c := q % WRAP;
    RoundUp(x, d, c);
    MulOrder(d, WRAP - 1, c);
  }

  lemma NotMoreThan(x: int, d: nat)
    requires 0 <= x && 0 < d
    ensures d * ((x + d - 1) / d % WRAP) < x + d
  {
    var y := x + d - 1;
    var q, r := y / d, y % d;
    assert y == d * q + r;
    var c := q % WRAP;
    assert c <= q;
    MulOrder(d, q, c);
  }

  lemma RoundUp(x: nat, d: nat, n: nat)
    requires 0 < d
    ensures (x + d - 1) / d <= n <==> x <= d * n
  {
    var q := (x + d - 1) / d;
    assert x + d - 1 == d * q + (x + d - 1) % d;
    MulOrder(d, n, q);
    MulOrder(d, q, n);
  }

  /** `cpu_delay_ms`: it never returns before the time asked for, if that many cycles fit 32 bits, and polls once more
      only while at most the time asked for, rounded up to a cycle, has passed. */
  method DelayMs(ms: nat, fcpu: nat, count: nat, poll: nat -> nat) returns (n: nat)
    requires PollsClose(poll, MsToCycles(ms, fcpu))
    ensures 0 < n && (ms * fcpu <= 1000 * (WRAP - 1) ==> ms * fcpu < 1000 * (poll(n) - poll(0)))
    ensures forall i | 0 <= i < n :: 1000 * (poll(i) - poll(0)) < ms * fcpu + 1000
  {
    n := DelayCycles(MsToCycles(ms, fcpu), count, poll);
    CyclesRoundUp(ms, 0, fcpu, 0);
    NotMoreThan(ms * fcpu, 1000);
  }

  /** `cpu_delay_us`. */
  method DelayUs(us: nat, fcpu: nat, count: nat, poll: nat -> nat) returns (n: nat)
    requires PollsClose(poll, UsToCycles(us, fcpu))
    ensures 0 < n && (us * fcpu <= 1000000 * (WRAP - 1) ==> us * fcpu < 1000000 * (poll(n) - poll(0)))
    ensures forall i | 0 <= i < n :: 1000000 * (poll(i) - poll(0)) < us * fcpu + 1000000
  {
    n := DelayCycles(UsToCycles(us, fcpu), count, poll);
    CyclesRoundUp(0, us, fcpu, 0);
    NotMoreThan(us * fcpu, 1000000);
  }
}
