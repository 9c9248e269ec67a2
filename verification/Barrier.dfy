/**
 Two workers that alternate through one mutex, two flags and one condition variable
 (cpp_practices/barrier_examples/src/simple_barrier.cpp).

 A schedule says which worker moves next, or which sleeping one wakes up for no reason; a worker that
 waits for the mutex or sleeps does nothing when scheduled. `wait` with a predicate tests it under the
 mutex, and releases the mutex and falls asleep in one step. `notify_one` is a step of its own.
 */
module Barrier {
  import opened Basics

  datatype WorkerA =
    | ALockFirst | AInc1 | ASet1 | AUnlock1 | ANotify
    | ALockSecond | ACheck | ASleep | ARelock | AClear2 | AInc2 | AUnlock2

  datatype WorkerB =
    | BLockFirst | BCheck | BSleep | BRelock | BClear1 | BDec1 | BUnlock1
    | BLockSecond | BDec2 | BSet2 | BUnlock2 | BNotify

  datatype Holder = Nobody | HeldByA | HeldByB

  datatype Phase = FirstInc | FirstDec | SecondDec | SecondInc

  datatype Action = StepA | StepB | WakeA | WakeB

  /** `log` lists the updates of `state` so far; `asserts` says that every assert has held. */
  datatype State = State(a: WorkerA, b: WorkerB, mutex: Holder, state: int, barrier1: bool, barrier2: bool,
                         log: seq<Phase>, asserts: bool)

  const START := State(ALockFirst, BLockFirst, Nobody, 0, false, false, [], true)

  function Update(s: State, delta: int, expected: int, phase: Phase): State {
    s.(state := s.state + delta, log := s.log + [phase], asserts := s.asserts && s.state + delta == expected)
  }

  function AStep(s: State): State {
    match s.a
    case ALockFirst => if s.mutex.Nobody? then s.(mutex := HeldByA, a := AInc1) else s
    case AInc1 => Update(s, 1, 1, FirstInc).(a := ASet1)
    case ASet1 => s.(barrier1 := true, a := AUnlock1)
    case AUnlock1 => s.(mutex := Nobody, a := ANotify)
    case ANotify => s.(a := ALockSecond, b := if s.b.BSleep? then BRelock else s.b)
    case ALockSecond => if s.mutex.Nobody? then s.(mutex := HeldByA, a := ACheck) else s
    case ACheck => if s.barrier2 then s.(a := AClear2) else s.(mutex := Nobody, a := ASleep)
    case ASleep => s
    case ARelock => if s.mutex.Nobody? then s.(mutex := HeldByA, a := ACheck) else s
    case AClear2 => s.(barrier2 := false, a := AInc2)
    case AInc2 => Update(s, 1, 0, SecondInc).(a := AUnlock2)
    case AUnlock2 => s.(mutex := Nobody, a := ALockFirst)
  }

  function BStep(s: State): State {
    match s.b
    case BLockFirst => if s.mutex.Nobody? then s.(mutex := HeldByB, b := BCheck) else s
    case BCheck => if s.barrier1 then s.(b := BClear1) else s.(mutex := Nobody, b := BSleep)
    case BSleep => s
    case BRelock => if s.mutex.Nobody? then s.(mutex := HeldByB, b := BCheck) else s
    case BClear1 => s.(barrier1 := false, b := BDec1)
    case BDec1 => Update(s, -1, 0, FirstDec).(b := BUnlock1)
    case BUnlock1 => s.(mutex := Nobody, b := BLockSecond)
    case BLockSecond => if s.mutex.Nobody? then s.(mutex := HeldByB, b := BDec2) else s
    case BDec2 => Update(s, -1, -1, SecondDec).(b := BSet2)
    case BSet2 => s.(barrier2 := true, b := BUnlock2)
    case BUnlock2 => s.(mutex := Nobody, b := BNotify)
    case BNotify => s.(b := BLockFirst, a := if s.a.ASleep? then ARelock else s.a)
  }

  function Step(s: State, act: Action): State {
    match act
    case StepA => AStep(s)
    case StepB => BStep(s)
    case WakeA => if s.a.ASleep? then s.(a := ARelock) else s
    case WakeB => if s.b.BSleep? then s.(b := BRelock) else s
  }

  function Run(schedule: seq<Action>): State {
    if schedule == [] then START
    else Step(Run(schedule[..|schedule| - 1]), schedule[|schedule| - 1])
  }

  // ---------- the invariant ----------

  predicate AHolds(a: WorkerA) {
    a.AInc1? || a.ASet1? || a.AUnlock1? || a.ACheck? || a.AClear2? || a.AInc2? || a.AUnlock2?
  }

  predicate BHolds(b: WorkerB) {
    b.BCheck? || b.BClear1? || b.BDec1? || b.BUnlock1? || b.BDec2? || b.BSet2? || b.BUnlock2?
  }

  /** Worker A is between its first and its second increment. */
  predicate AWaits(a: WorkerA) {
    !(a.ALockFirst? || a.AInc1? || a.AUnlock2?)
  }

  /** Worker B is between its first and its second decrement. */
  predicate BBusy(b: WorkerB) {
    b.BUnlock1? || b.BLockSecond? || b.BDec2?
  }

  function Cycle(n: nat): Phase {
    [FirstInc, FirstDec, SecondDec, SecondInc][n % 4]
  }

  ghost predicate Cyclic(log: seq<Phase>) {
    forall i :: 0 <= i < |log| ==> log[i] == Cycle(i)
  }

  /** Which update comes next decides everything else. */
  ghost predicate Phased(s: State) {
    var k := |s.log| % 4;
    && s.state == [0, 1, 0, -1][k]
    && (k == 0 <==> !AWaits(s.a))
    && (k == 2 <==> BBusy(s.b))
    && (s.barrier1 <==> k == 1 && !s.a.ASet1? && !s.b.BDec1?)
    && (s.barrier2 <==> k == 3 && !s.b.BSet2? && !s.a.AInc2?)
    && (s.a.ASet1? ==> k == 1) && (s.b.BDec1? || s.b.BClear1? ==> k == 1)
    && (s.b.BSet2? ==> k == 3) && (s.a.AInc2? || s.a.AClear2? ==> k == 3)
  }

  /** The mutex, and no lost wake-up: who sleeps although its flag is set has its notification still to come. */
  ghost predicate Guarded(s: State) {
    && (s.mutex.HeldByA? <==> AHolds(s.a))
    && (s.mutex.HeldByB? <==> BHolds(s.b))
    && (s.b.BSleep? && s.barrier1 ==> s.a.AUnlock1? || s.a.ANotify?)
    && (s.a.ASleep? && s.barrier2 ==> s.b.BUnlock2? || s.b.BNotify?)
    && s.asserts
  }

  ghost predicate Inv(s: State) {
    Phased(s) && Guarded(s) && Cyclic(s.log)
  }

  lemma CyclicAppend(log: seq<Phase>)
    requires Cyclic(log)
    ensures Cyclic(log + [Cycle(|log|)])
  {
  }

  lemma AKeepsInv(s: State)
    requires Inv(s)
    ensures Inv(AStep(s))
  {
    hide Cyclic;
    CyclicAppend(s.log);
  }

  lemma BKeepsInv(s: State)
    requires Inv(s)
    ensures Inv(BStep(s))
  {
    hide Cyclic;
    CyclicAppend(s.log);
  }

  lemma StepKeepsInv(s: State, act: Action)
    requires Inv(s)
    ensures Inv(Step(s, act))
  {
    match act
    case StepA => AKeepsInv(s);
    case StepB => BKeepsInv(s);
    case WakeA =>
    case WakeB =>
  }

  lemma {:induction false} InvHolds(schedule: seq<Action>)
    ensures Inv(Run(schedule))
  {
    if schedule != [] {
      InvHolds(schedule[..|schedule| - 1]);
      StepKeepsInv(Run(schedule[..|schedule| - 1]), schedule[|schedule| - 1]);
    }
  }

  // ---------- main results ----------

  /**
   Safety: under every schedule and every spurious wake-up, all four asserts hold, the updates happen in the
   fixed cycle of four, the workers exclude each other, and they never both sleep.
   */
  lemma Safety(schedule: seq<Action>)
    ensures var s := Run(schedule);
            && s.asserts
            && (forall i :: 0 <= i < |s.log| ==> s.log[i] == [FirstInc, FirstDec, SecondDec, SecondInc][i % 4])
            && s.state == [0, 1, 0, -1][|s.log| % 4]
            && !(AHolds(s.a) && BHolds(s.b))
            && !(s.a.ASleep? && s.b.BSleep?)
  {
    InvHolds(schedule);
  }

  // ---------- progress ----------

  /** Steps until the worker must sleep or updates `state`, counting a notification as the four steps it can cause. */
  function ARank(a: WorkerA): nat {
    match a
    case ASleep => 0 case AInc2 => 1 case AClear2 => 2 case ACheck => 3 case ARelock => 4 case ALockSecond => 4
    case ANotify => 9 case AUnlock1 => 10 case ASet1 => 11 case AInc1 => 12 case ALockFirst => 13 case AUnlock2 => 14
  }

  function BRank(b: WorkerB): nat {
    match b
    case BSleep => 0 case BDec1 => 1 case BClear1 => 2 case BCheck => 3 case BRelock => 4 case BLockFirst => 4
    case BNotify => 9 case BUnlock2 => 10 case BSet2 => 11 case BDec2 => 12 case BLockSecond => 13 case BUnlock1 => 14
  }

  function Rank(s: State): nat {
    ARank(s.a) + BRank(s.b)
  }

  predicate Wakes(act: Action) {
    act.WakeA? || act.WakeB?
  }

  /** A step changes nothing, updates `state`, or counts down. */
  lemma StepCountsDown(s: State, act: Action)
    requires Inv(s) && !Wakes(act)
    ensures var s' := Step(s, act);
            s' == s || |s'.log| == |s.log| + 1 || (s'.log == s.log && Rank(s') < Rank(s))
  {
  }

  /** Some worker can always move on its own: the workers are never stuck, asleep or not. */
  lemma SomeWorkerMoves(s: State) returns (act: Action)
    requires Inv(s)
    ensures !Wakes(act) && Step(s, act) != s
  {
    act := if s.mutex.HeldByA? then StepA
    else if s.mutex.HeldByB? then StepB
    else if s.a.ASleep? then StepB
    else StepA;
  }

  lemma RunAppend(schedule: seq<Action>, act: Action)
    ensures Run(schedule + [act]) == Step(Run(schedule), act)
  {
    assert (schedule + [act])[..|schedule|] == schedule;
  }

  ghost predicate NoWakes(acts: seq<Action>) {
    forall act :: act in acts ==> !Wakes(act)
  }

  ghost predicate FairRound(acts: seq<Action>) {
    StepA in acts && StepB in acts && NoWakes(acts)
  }

  /** Without wake-ups the measure never goes up, unless `state` is updated. */
  lemma {:induction false} CountsDown(w: seq<Action>, acts: seq<Action>)
    requires NoWakes(acts)
    ensures var s, s' := Run(w), Run(w + acts);
            |s'.log| >= |s.log| && (|s'.log| == |s.log| ==> Rank(s') <= Rank(s))
  {
    if acts == [] {
      assert w + acts == w;
    } else {
      var front, act := acts[..|acts| - 1], acts[|acts| - 1];
      assert w + acts == w + front + [act];
      CountsDown(w, front);
      RunAppend(w + front, act);
      InvHolds(w + front);
      hide Run, Inv, Step;
      StepCountsDown(Run(w + front), act);
    }
  }

  lemma {:induction false} MoverMoves(w: seq<Action>, acts: seq<Action>, act: Action)
    requires NoWakes(acts) && act in acts && Step(Run(w), act) != Run(w)
    ensures var s, s' := Run(w), Run(w + acts); |s'.log| > |s.log| || Rank(s') < Rank(s)
    decreases |acts|
  {
    assert w + acts == w + [acts[0]] + acts[1..];
    RunAppend(w, acts[0]);
    InvHolds(w);
    hide Run, Inv, Step;
    StepCountsDown(Run(w), acts[0]);
    if Run(w + [acts[0]]) == Run(w) {
      MoverMoves(w + [acts[0]], acts[1..], act);
    } else {
      CountsDown(w + [acts[0]], acts[1..]);
    }
  }

  lemma {:induction false} RoundsHaveNoWakes(rounds: seq<seq<Action>>)
    requires forall r :: r in rounds ==> FairRound(r)
    ensures NoWakes(Concat(rounds))
  {
    if rounds != [] {
      assert rounds[0] in rounds;
      RoundsHaveNoWakes(rounds[1..]);
    }
  }

  /**
   Progress: from every reachable state, however it was reached, `state` is updated again within `Rank` + 1
   rounds in which both workers are scheduled and nobody is woken for no reason.
   */
  lemma {:induction false} Progress(schedule: seq<Action>, rounds: seq<seq<Action>>)
    requires |rounds| > Rank(Run(schedule)) && forall r :: r in rounds ==> FairRound(r)
    ensures |Run(schedule + Concat(rounds)).log| > |Run(schedule).log|
    decreases |rounds|
  {
    InvHolds(schedule);
    hide Run, Inv;
    var act := SomeWorkerMoves(Run(schedule));
    var r, rest := rounds[0], rounds[1..];
    assert r in rounds && schedule + Concat(rounds) == schedule + r + Concat(rest);
    MoverMoves(schedule, r, act);
    CountsDown(schedule, r);
    if |Run(schedule + r).log| == |Run(schedule).log| {
      Progress(schedule + r, rest);
    } else {
      RoundsHaveNoWakes(rest);
      CountsDown(schedule + r, Concat(rest));
    }
  }
}
