/** The dining philosophers with a pickup mutex, for any number of them from two on. */
module Philosophers {
  import opened Basics

  /** Where a philosopher stands in the loop: before locking the pickup mutex, the own chopstick, the
      neighbour's chopstick; before unlocking the pickup mutex; eating, before unlocking the own
      chopstick; and before unlocking the neighbour's. */
  datatype Phase = Thinking | TakesOwn | TakesNext | LetsOthersPick | Eating | PutsNext

  /** The owners of the mutexes and the places of the threads. */
  datatype State = State(at: seq<Phase>, pickup: Option<nat>, sticks: seq<Option<nat>>)

  function Next(i: nat, n: nat): (j: nat)
    requires i < n
    ensures j < n
  {
    (i + 1) % n
  }

  predicate Shape(s: State) {
    2 <= |s.at| && |s.sticks| == |s.at|
  }

  /** The thread does not wait for a mutex. */
  predicate CanMove(s: State, i: nat)
    requires Shape(s) && i < |s.at|
  {
    match s.at[i]
    case Thinking => s.pickup == None
    case TakesOwn => s.sticks[i] == None
    case TakesNext => s.sticks[Next(i, |s.at|)] == None
    case _ => true
  }

  function Move(s: State, i: nat): (r: State)
    requires Shape(s) && i < |s.at|
    ensures Shape(r) && |r.at| == |s.at|
  {
    if !CanMove(s, i) then s else
    match s.at[i]
    case Thinking => s.(pickup := Some(i), at := s.at[i := TakesOwn])
    case TakesOwn => s.(sticks := s.sticks[i := Some(i)], at := s.at[i := TakesNext])
    case TakesNext => s.(sticks := s.sticks[Next(i, |s.at|) := Some(i)], at := s.at[i := LetsOthersPick])
    case LetsOthersPick => s.(pickup := None, at := s.at[i := Eating])
    case Eating => s.(sticks := s.sticks[i := None], at := s.at[i := PutsNext])
    case PutsNext => s.(sticks := s.sticks[Next(i, |s.at|) := None], at := s.at[i := Thinking])
  }

  // ---- The threads as they are -------------------------------------------------------

  class Table {
    const at: array<Phase>
    const sticks: array<Option<nat>>
    var pickup: Option<nat>

    ghost predicate Valid() {
      2 <= at.Length && sticks.Length == at.Length
    }

    ghost function View(): State
      reads this, at, sticks
    {
      State(at[..], pickup, sticks[..])
    }

    constructor (n: nat)
      requires 2 <= n
      ensures Valid() && fresh(at) && fresh(sticks) && View() == Start(n)
    {
      at := new Phase[n](_ => Thinking);
      sticks := new Option<nat>[n](_ => None);
      pickup := None;
      new;
      assert at[..] == seq(n, _ => Thinking) && sticks[..] == seq(n, _ => None);
    }

    /** The next statement of philosopher `i`; a lock that is taken is tried again. */
    method Advance(i: nat)
      requires Valid() && i < at.Length
      modifies this, at, sticks
      ensures View() == Move(old(View()), i)
    {
      var next := (i + 1) % at.Length;
      match at[i] {
        case Thinking =>
          if pickup == None {
            pickup := Some(i);
            at[i] := TakesOwn;
          }
        case TakesOwn =>
          if sticks[i] == None {
            sticks[i] := Some(i);
            at[i] := TakesNext;
          }
        case TakesNext =>
          if sticks[next] == None {
            sticks[next] := Some(i);
            at[i] := LetsOthersPick;
          }
        case LetsOthersPick =>
          pickup := None;
          at[i] := Eating;
        case Eating =>
          sticks[i] := None;
          at[i] := PutsNext;
        case PutsNext =>
          sticks[next] := None;
          at[i] := Thinking;
      }
    }
  }

  // ---- Safety ------------------------------------------------------------------------

  predicate Picks(p: Phase) {
    p == TakesOwn || p == TakesNext || p == LetsOthersPick
  }

  predicate HasOwn(p: Phase) {
    p == TakesNext || p == LetsOthersPick || p == Eating
  }

  predicate HasNext(p: Phase) {
    p == LetsOthersPick || p == Eating || p == PutsNext
  }

  function Previous(j: nat, n: nat): (i: nat)
    requires j < n
    ensures i < n
  {
    if j == 0 then n - 1 else j - 1
  }

  lemma NextIs(i: nat, n: nat)
    requires i < n
    ensures Next(i, n) == if i + 1 == n then 0 else i + 1
  {
    if i + 1 == n {
      assert (i + 1) % n == 0;
    } else {
      assert (i + 1) % n == i + 1;
    }
  }

  /** Chopstick `j` has exactly the owner that the places of its two users say, and never both. */
  ghost predicate StickOwned(s: State, j: nat)
    requires Shape(s) && j < |s.at|
  {
    var left := Previous(j, |s.at|);
    && !(HasOwn(s.at[j]) && HasNext(s.at[left]))
    && s.sticks[j] == if HasOwn(s.at[j]) then Some(j) else if HasNext(s.at[left]) then Some(left) else None
  }

  /** Every mutex has exactly the owner that the places of the threads say. */
  ghost predicate Inv(s: State) {
    && Shape(s)
    && (forall i | 0 <= i < |s.at| :: Picks(s.at[i]) <==> s.pickup == Some(i))
    && (s.pickup != None ==> s.pickup.value < |s.at|)
    && forall j | 0 <= j < |s.at| :: StickOwned(s, j)
  }

  function Start(n: nat): State {
    State(seq(n, _ => Thinking), None, seq(n, _ => None))
  }

  lemma StartHolds(n: nat)
    requires 2 <= n
    ensures Inv(Start(n))
  {
  }

  lemma StickHolds(s: State, i: nat, j: nat)
    requires Inv(s) && i < |s.at| && j < |s.at|
    ensures StickOwned(Move(s, i), j)
  {
    NextIs(i, |s.at|);
    hide Next;
    assert StickOwned(s, j) && StickOwned(s, i);
  }

  lemma MoveHolds(s: State, i: nat)
    requires Inv(s) && i < |s.at|
    ensures Inv(Move(s, i))
  {
    hide StickOwned;
    var r := Move(s, i);
    forall j | 0 <= j < |r.at|
      ensures StickOwned(r, j)
    {
      StickHolds(s, i, j);
    }
  }

  /** The state after the threads have moved in some order. */
  function Run(s: State, schedule: seq<nat>): (r: State)
    requires Shape(s)
    ensures Shape(r) && |r.at| == |s.at|
    decreases |schedule|
  {
    if schedule == [] then s
    else Run(if schedule[0] < |s.at| then Move(s, schedule[0]) else s, schedule[1..])
  }

  lemma {:induction false} RunHolds(s: State, schedule: seq<nat>)
    requires Inv(s)
    ensures Inv(Run(s, schedule))
    decreases |schedule|
  {
    hide Move;
    if schedule != [] {
      if schedule[0] < |s.at| {
        MoveHolds(s, schedule[0]);
        RunHolds(Move(s, schedule[0]), schedule[1..]);
      } else {
        RunHolds(s, schedule[1..]);
      }
    }
  }

  /** In every run, whatever the interleaving, neighbours never eat at the same time. */
  lemma NeighboursNeverEat(n: nat, schedule: seq<nat>, i: nat)
    requires 2 <= n && i < n
    ensures var s := Run(Start(n), schedule); !(s.at[i] == Eating && s.at[(i + 1) % n] == Eating)
  {
    StartHolds(n);
    RunHolds(Start(n), schedule);
    NextIs(i, n);
    assert StickOwned(Run(Start(n), schedule), Next(i, n));
  }

  // ---- Progress ----------------------------------------------------------------------

  /** In every reachable state some thread can move. */
  lemma SomeoneMoves(s: State) returns (i: nat)
    requires Inv(s)
    ensures i < |s.at| && CanMove(s, i)
  {
    if k: nat :| k < |s.at| && (s.at[k] == LetsOthersPick || s.at[k] == Eating || s.at[k] == PutsNext) {
      i := k;
    } else if s.pickup == None {
      i := 0;
    } else {
      i := s.pickup.value;
      NextIs(i, |s.at|);
      assert StickOwned(s, i) && StickOwned(s, Next(i, |s.at|));
    }
  }

  /** No run ends in a deadlock. */
  lemma NoDeadlock(n: nat, schedule: seq<nat>) returns (i: nat)
    requires 2 <= n
    ensures i < n && CanMove(Run(Start(n), schedule), i)
  {
    hide CanMove;
    StartHolds(n);
    RunHolds(Start(n), schedule);
    i := SomeoneMoves(Run(Start(n), schedule));
  }

  /** How many moves are left before the thread needs the pickup mutex, or eats if it is the one that has it. */
  function Left(p: Phase): nat {
    match p
    case Thinking => 0
    case TakesOwn => 3
    case TakesNext => 2
    case LetsOthersPick => 1
    case Eating => 2
    case PutsNext => 1
  }

  function AllLeft(at: seq<Phase>): nat {
    if at == [] then 0 else AllLeft(at[..|at| - 1]) + Left(at[|at| - 1])
  }

  lemma {:induction false} OneLess(at: seq<Phase>, i: nat, p: Phase)
    requires i < |at|
    ensures AllLeft(at[i := p]) == AllLeft(at) - Left(at[i]) + Left(p)
  {
    var r := at[i := p];
    if i < |at| - 1 {
      OneLess(at[..|at| - 1], i, p);
      assert r[..|at| - 1] == at[..|at| - 1][i := p];
    } else {
      assert r[..|at| - 1] == at[..|at| - 1];
    }
  }

  /** While `h` has the pickup mutex, every move uses up one of the moves that are left, until `h` eats. */
  lemma MoveUses(s: State, h: nat, i: nat)
    requires Inv(s) && s.pickup == Some(h) && i < |s.at| && CanMove(s, i)
    ensures Inv(Move(s, i)) && h < |s.at|
    ensures var r := Move(s, i);
            if r.at[h] == Eating then i == h
            else r.pickup == Some(h) && AllLeft(r.at) == AllLeft(s.at) - 1
  {
    hide StickOwned, Next;
    MoveHolds(s, i);
    OneLess(s.at, i, Move(s, i).at[i]);
  }

  /** Every thread of a schedule can move when its turn comes. */
  predicate Fits(s: State, schedule: seq<nat>)
    requires Shape(s)
    decreases |schedule|
  {
    schedule == [] || (schedule[0] < |s.at| && CanMove(s, schedule[0]) && Fits(Move(s, schedule[0]), schedule[1..]))
  }

  /** With move `k` of the schedule philosopher `h` begins to eat. */
  predicate BeginsToEat(s: State, schedule: seq<nat>, k: nat, h: nat)
    requires Shape(s) && h < |s.at|
  {
    && 0 < k <= |schedule|
    && Run(s, schedule[..k]).at[h] == Eating && Run(s, schedule[..k - 1]).at[h] != Eating
  }

  /** Once it has the pickup mutex a philosopher gets to eat, whatever the others do: no schedule is longer
      than the moves left without it eating on the way. */
  lemma {:induction false} HolderEats(s: State, h: nat, schedule: seq<nat>) returns (k: nat)
    requires Inv(s) && s.pickup == Some(h) && Fits(s, schedule) && AllLeft(s.at) < |schedule|
    ensures h < |s.at| && BeginsToEat(s, schedule, k, h)
    decreases |schedule|
  {
    hide CanMove, Move, AllLeft, StickOwned;
    MoveUses(s, h, schedule[0]);
    var r := Move(s, schedule[0]);
    if r.at[h] == Eating {
      k := 1;
      HolderHungry(s, h);
      assert schedule[..1][1..] == [];
      assert Run(r, []) == r;
    } else {
      var rest := HolderEats(r, h, schedule[1..]);
      k := rest + 1;
      Later(s, schedule, rest, h);
    }
  }

  lemma HolderHungry(s: State, h: nat)
    requires Inv(s) && s.pickup == Some(h)
    ensures h < |s.at| && Picks(s.at[h])
  {
  }

  lemma Later(s: State, schedule: seq<nat>, k: nat, h: nat)
    requires Shape(s) && schedule != [] && schedule[0] < |s.at| && h < |s.at|
    requires BeginsToEat(Move(s, schedule[0]), schedule[1..], k, h)
    ensures BeginsToEat(s, schedule, k + 1, h)
  {
    hide Move;
    assert schedule[..k + 1][1..] == schedule[1..][..k];
    assert schedule[..k][1..] == schedule[1..][..k - 1];
  }

  /** With the pickup mutex free, a move uses up one of the moves that are left, or takes the mutex. */
  lemma FreeMove(s: State, i: nat)
    requires Inv(s) && s.pickup == None && i < |s.at| && CanMove(s, i)
    ensures var r := Move(s, i);
            && Inv(r)
            && (if r.pickup == None then AllLeft(r.at) == AllLeft(s.at) - 1
                else r.pickup == Some(i) && AllLeft(r.at) == AllLeft(s.at) + 3)
  {
    hide StickOwned, Next;
    MoveHolds(s, i);
    OneLess(s.at, i, Move(s, i).at[i]);
  }

  lemma {:induction false} AllLeftBound(at: seq<Phase>)
    ensures AllLeft(at) <= 3 * |at|
  {
    if at != [] {
      AllLeftBound(at[..|at| - 1]);
    }
  }

  lemma {:induction false} SomeoneEats(s: State, schedule: seq<nat>) returns (h: nat, k: nat)
    requires Inv(s) && Fits(s, schedule) && AllLeft(s.at) + 4 < |schedule|
    ensures h < |s.at| && BeginsToEat(s, schedule, k, h)
    decreases |schedule|
  {
    hide CanMove, Move, AllLeft, StickOwned;
    if s.pickup != None {
      h := s.pickup.value;
      k := HolderEats(s, h, schedule);
    } else {
      FreeMove(s, schedule[0]);
      var r := Move(s, schedule[0]);
      if r.pickup == None {
        h, k := SomeoneEats(r, schedule[1..]);
      } else {
        h := schedule[0];
        k := HolderEats(r, h, schedule[1..]);
      }
      Later(s, schedule, k, h);
      k := k + 1;
    }
  }

  /** From every reachable state, whoever moves when: within `3 * n + 5` moves some philosopher begins
      to eat. */
  lemma EatingGoesOn(n: nat, before: seq<nat>, schedule: seq<nat>) returns (h: nat, k: nat)
    requires 2 <= n && Fits(Run(Start(n), before), schedule) && 3 * n + 4 < |schedule|
    ensures h < n && BeginsToEat(Run(Start(n), before), schedule, k, h)
  {
    hide Fits, BeginsToEat, StickOwned;
    StartHolds(n);
    RunHolds(Start(n), before);
    var s := Run(Start(n), before);
    AllLeftBound(s.at);
    h, k := SomeoneEats(s, schedule);
  }

  // ---- What the mutexes allow --------------------------------------------------------

  /** Philosopher `i` eats, and nothing else differs from `s`. */
  function EatingToo(s: State, i: nat): (r: State)
    requires Shape(s) && i < |s.at|
    ensures Shape(r) && |r.at| == |s.at|
  {
    State(s.at[i := Eating], None, s.sticks[i := Some(i)][Next(i, |s.at|) := Some(i)])
  }

  /** A philosopher with free chopsticks gets to eat with four moves of its own, whoever else is eating, and with two
      more everything is as before. */
  lemma EatsAndPutsBack(s: State, i: nat)
    requires Shape(s) && i < |s.at| && s.pickup == None
    requires s.at[i] == Thinking && s.sticks[i] == None && s.sticks[Next(i, |s.at|)] == None
    ensures Run(s, [i, i, i, i]) == EatingToo(s, i) && Run(EatingToo(s, i), [i, i]) == s
  {
    hide Run;
    NextIs(i, |s.at|);
    hide Next;
    assert [i] + [i, i, i] == [i, i, i, i] && [i] + [i, i] == [i, i, i] && [i] + [i] == [i, i] && [i] + [] == [i];
    RunFirst(s, i, [i, i, i]);
    var s1 := Move(s, i);
    RunFirst(s1, i, [i, i]);
    var s2 := Move(s1, i);
    RunFirst(s2, i, [i]);
    var s3 := Move(s2, i);
    RunFirst(s3, i, []);
    assert Move(s3, i) == EatingToo(s, i);
    var s5 := Move(EatingToo(s, i), i);
    RunFirst(EatingToo(s, i), i, [i]);
    RunFirst(s5, i, []);
    assert Move(s5, i).sticks == s.sticks && Move(s5, i).at == s.at;
  }

  lemma RunFirst(s: State, i: nat, rest: seq<nat>)
    requires Shape(s) && i < |s.at|
    ensures Run(s, [i] + rest) == Run(Move(s, i), rest) && Run(s, []) == s && Run(Move(s, i), []) == Move(s, i)
  {
    hide Move;
    assert ([i] + rest)[1..] == rest;
  }

  /** Any two that are not neighbours can eat at the same time. */
  lemma TwoEat(n: nat, i: nat, j: nat)
    requires 2 <= n && i < n && j < n && i != j && Next(i, n) != j && Next(j, n) != i
    ensures var s := Run(Run(Start(n), [i, i, i, i]), [j, j, j, j]); s.at[i] == Eating && s.at[j] == Eating
  {
    hide Run, Move;
    NextIs(i, n);
    NextIs(j, n);
    EatsAndPutsBack(Start(n), i);
    EatsAndPutsBack(EatingToo(Start(n), i), j);
  }
}
