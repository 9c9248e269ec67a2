/**
 The queue of the realtime executor (utils/realtime_executor/include/queue.h), used by any number of
 threads. A bound of 0 means that nothing is ever dropped.
 */
module BoundedQueue {

  /** `pop_if_needed`: beyond the bound, the oldest element is dropped. */
  function PopIfNeeded<T>(q: seq<T>, bound: nat): seq<T> {
    if bound != 0 && |q| > bound then q[1..] else q
  }

  /** The object as one thread sees it while it holds the mutex. */
  class Queue<T> {
    const bound: nat
    var q: seq<T>

    constructor (bound: nat)
      ensures this.bound == bound && q == []
    {
      this.bound := bound;
      q := [];
    }

    /** Push under the mutex: the newest `bound` elements stay. */
    method Push(msg: T)
      modifies this
      ensures q == PopIfNeeded(old(q) + [msg], bound)
      ensures bound != 0 && |old(q)| <= bound ==> |q| <= bound
      ensures bound == 0 || |old(q)| < bound ==> q == old(q) + [msg]
      ensures bound != 0 && |old(q)| == bound ==> q == old(q)[1..] + [msg]
      ensures q != [] && q[|q| - 1] == msg
    {
      q := q + [msg];
      if bound != 0 {
        if |q| > bound {
          q := q[1..];
        }
      }
    }

    /** The rest of `waitAndPop` once its predicate holds. */
    method Pop() returns (res: T)
      requires q != []
      modifies this
      ensures [res] + q == old(q)
    {
      res := q[0];
      q := q[1..];
    }
  }

  // ---------- threads ----------

  datatype Pc<T> =
    | Idle
    | PushLock(v: T) | PushAppend(v: T) | PushNotify | PushDrop | PushUnlock
    | PopLock | PopCheck | PopSleep | PopWoken | PopTake | PopUnlock(res: T)

  datatype Removal<T> = Popped(value: T) | Dropped(value: T)

  /** `pushed` and `removed` are history: everything pushed, and everything taken from the front, in order. */
  datatype State<T> = State(q: seq<T>, holder: int, pcs: seq<Pc<T>>, pushed: seq<T>, removed: seq<Removal<T>>)

  /** A thread calls `push` or `waitAndPop`, moves one step, or wakes up for no reason. */
  datatype Action<T> = CallPush(t: nat, v: T) | CallPop(t: nat) | Move(t: nat) | Wake(t: nat)

  const NOBODY := -1

  function Start<T>(threads: nat): State<T> {
    State([], NOBODY, seq(threads, _ => Idle), [], [])
  }

  /** `notify_all`. */
  function Woken<T>(pcs: seq<Pc<T>>): seq<Pc<T>> {
    seq(|pcs|, i requires 0 <= i < |pcs| => if pcs[i].PopSleep? then PopWoken else pcs[i])
  }

  function At<T>(s: State<T>, t: nat, pc: Pc<T>): State<T>
    requires t < |s.pcs|
  {
    s.(pcs := s.pcs[t := pc])
  }

  /** One step of thread `t`; while another thread holds the mutex, locking waits. */
  function MoveThread<T>(s: State<T>, t: nat, bound: nat): State<T>
    requires t < |s.pcs|
  {
    match s.pcs[t]
    case Idle => s
    case PushLock(v) => if s.holder == NOBODY then At(s, t, PushAppend(v)).(holder := t) else s
    case PushAppend(v) => At(s, t, PushNotify).(q := s.q + [v], pushed := s.pushed + [v])
    case PushNotify => s.(pcs := Woken(s.pcs)[t := PushDrop])
    case PushDrop =>
      var kept := PopIfNeeded(s.q, bound);
      At(s, t, PushUnlock).(q := kept, removed := s.removed + (if |kept| == |s.q| then [] else [Dropped(s.q[0])]))
    case PushUnlock => At(s, t, Idle).(holder := NOBODY)
    case PopLock => if s.holder == NOBODY then At(s, t, PopCheck).(holder := t) else s
    case PopCheck => if s.q != [] then At(s, t, PopTake) else At(s, t, PopSleep).(holder := NOBODY)
    case PopSleep => s
    case PopWoken => if s.holder == NOBODY then At(s, t, PopCheck).(holder := t) else s
    case PopTake =>
      if s.q == [] then s
      else At(s, t, PopUnlock(s.q[0])).(q := s.q[1..], removed := s.removed + [Popped(s.q[0])])
    case PopUnlock(_) => At(s, t, Idle).(holder := NOBODY)
  }

  function Step<T>(s: State<T>, act: Action<T>, bound: nat): State<T> {
    if act.t >= |s.pcs| then s
    else
      match act
      case CallPush(t, v) => if s.pcs[t].Idle? then At(s, t, PushLock(v)) else s
      case CallPop(t) => if s.pcs[t].Idle? then At(s, t, PopLock) else s
      case Move(t) => MoveThread(s, t, bound)
      case Wake(t) => if s.pcs[t].PopSleep? then At(s, t, PopWoken) else s
  }

  function Run<T>(threads: nat, bound: nat, schedule: seq<Action<T>>): State<T> {
    if schedule == [] then Start(threads)
    else Step(Run(threads, bound, schedule[..|schedule| - 1]), schedule[|schedule| - 1], bound)
  }

  // ---------- the invariant ----------

  predicate Holds<T>(pc: Pc<T>) {
    pc.PushAppend? || pc.PushNotify? || pc.PushDrop? || pc.PushUnlock? || pc.PopCheck? || pc.PopTake? || pc.PopUnlock?
  }

  /** The holder is the one thread inside the mutex. */
  ghost predicate Exclusive<T>(s: State<T>) {
    && NOBODY <= s.holder < |s.pcs|
    && forall t :: 0 <= t < |s.pcs| ==> (Holds(s.pcs[t]) <==> t == s.holder)
  }

  /** Everything pushed is what was taken from the front, in order, followed by the queue. */
  ghost predicate Accounts<T>(pushed: seq<T>, removed: seq<Removal<T>>, q: seq<T>) {
    && |removed| + |q| == |pushed|
    && q == pushed[|removed|..]
    && forall i :: 0 <= i < |removed| ==> removed[i].value == pushed[i]
  }

  ghost predicate Conserved<T>(s: State<T>) {
    Accounts(s.pushed, s.removed, s.q)
  }

  lemma AccountsForPush<T>(pushed: seq<T>, removed: seq<Removal<T>>, q: seq<T>, v: T)
    requires Accounts(pushed, removed, q)
    ensures Accounts(pushed + [v], removed, q + [v])
  {
  }

  lemma AccountsForRemoval<T>(pushed: seq<T>, removed: seq<Removal<T>>, q: seq<T>, r: Removal<T>)
    requires Accounts(pushed, removed, q) && q != [] && r.value == q[0]
    ensures Accounts(pushed, removed + [r], q[1..])
  {
  }

  ghost predicate HolderAt<T>(s: State<T>, pc: Pc<T>) {
    0 <= s.holder < |s.pcs| && s.pcs[s.holder] == pc
  }

  ghost predicate Bounded<T>(s: State<T>, bound: nat) {
    && (bound != 0 ==> |s.q| <= bound + (if HolderAt(s, PushNotify) || HolderAt(s, PushDrop) then 1 else 0))
    && (bound == 0 ==> forall i :: 0 <= i < |s.removed| ==> s.removed[i].Popped?)
    && (HolderAt(s, PopTake) ==> s.q != [])
  }

  /** What was dropped had at least `bound` newer elements. */
  ghost predicate DropsOldest<T>(s: State<T>, bound: nat) {
    forall i :: 0 <= i < |s.removed| && s.removed[i].Dropped? ==> i + bound < |s.pushed|
  }

  /** A thread sleeps beside a non-empty queue only while its notification is still to come. */
  ghost predicate NoLostWakeup<T>(s: State<T>) {
    s.q != [] && !HolderAt(s, PushNotify) ==> forall t :: 0 <= t < |s.pcs| ==> !s.pcs[t].PopSleep?
  }

  /** A pop returns the element it took from the front. */
  ghost predicate Returned<T>(s: State<T>) {
    0 <= s.holder < |s.pcs| && s.pcs[s.holder].PopUnlock? ==>
      s.removed != [] && s.removed[|s.removed| - 1] == Popped(s.pcs[s.holder].res)
  }

  ghost predicate Inv<T>(s: State<T>, bound: nat) {
    Exclusive(s) && Conserved(s) && Bounded(s, bound) && DropsOldest(s, bound) && NoLostWakeup(s) && Returned(s)
  }

  lemma StepKeepsExclusive<T>(s: State<T>, act: Action<T>, bound: nat)
    requires Exclusive(s)
    ensures Exclusive(Step(s, act, bound))
  {
  }

  lemma StepKeepsConserved<T>(s: State<T>, act: Action<T>, bound: nat)
    requires Conserved(s)
    ensures Conserved(Step(s, act, bound))
  {
    hide Accounts;
    if act.Move? && act.t < |s.pcs| {
      match s.pcs[act.t]
      case PushAppend(v) => AccountsForPush(s.pushed, s.removed, s.q, v);
      case PushDrop =>
        assert s.removed + [] == s.removed;
        if s.q != [] {
          AccountsForRemoval(s.pushed, s.removed, s.q, Dropped(s.q[0]));
        }
      case PopTake =>
        if s.q != [] {
          AccountsForRemoval(s.pushed, s.removed, s.q, Popped(s.q[0]));
        }
      case _ =>
    }
  }

  lemma StepKeepsBounded<T>(s: State<T>, act: Action<T>, bound: nat)
    requires Exclusive(s) && Bounded(s, bound)
    ensures Bounded(Step(s, act, bound), bound)
  {
  }

  lemma StepKeepsDropsOldest<T>(s: State<T>, act: Action<T>, bound: nat)
    requires Conserved(s) && DropsOldest(s, bound)
    ensures DropsOldest(Step(s, act, bound), bound)
  {
  }

  lemma StepKeepsNoLostWakeup<T>(s: State<T>, act: Action<T>, bound: nat)
    requires Exclusive(s) && Bounded(s, bound) && NoLostWakeup(s)
    ensures NoLostWakeup(Step(s, act, bound))
  {
  }

  lemma StepKeepsReturned<T>(s: State<T>, act: Action<T>, bound: nat)
    requires Exclusive(s) && Bounded(s, bound) && Returned(s)
    ensures Returned(Step(s, act, bound))
  {
  }

  lemma StepKeepsInv<T>(s: State<T>, act: Action<T>, bound: nat)
    requires Inv(s, bound)
    ensures Inv(Step(s, act, bound), bound)
  {
    hide Step, Exclusive, Conserved, Bounded, DropsOldest, NoLostWakeup, Returned;
    StepKeepsExclusive(s, act, bound);
    StepKeepsConserved(s, act, bound);
    StepKeepsBounded(s, act, bound);
    StepKeepsDropsOldest(s, act, bound);
    StepKeepsNoLostWakeup(s, act, bound);
    StepKeepsReturned(s, act, bound);
  }

  lemma {:induction false} InvHolds<T>(threads: nat, bound: nat, schedule: seq<Action<T>>)
    ensures Inv(Run(threads, bound, schedule), bound)
  {
    if schedule != [] {
      InvHolds(threads, bound, schedule[..|schedule| - 1]);
      hide Inv, Step;
      StepKeepsInv(Run(threads, bound, schedule[..|schedule| - 1]), schedule[|schedule| - 1], bound);
    }
  }

  // ---------- main results ----------

  /**
   For any number of threads and any schedule: everything pushed is the elements taken from the front, popped
   or dropped, in order, followed by the queue; while the mutex is free the bound is kept, so a queue of one
   holds the newest element; without a bound nothing is dropped, and with one only what has at least that many
   newer elements; and a thread sleeps beside a non-empty queue
   only while a push is about to notify it.
   */
  lemma QueueHistory<T>(threads: nat, bound: nat, schedule: seq<Action<T>>)
    ensures var s := Run(threads, bound, schedule);
            && s.pushed == seq(|s.removed|, i requires 0 <= i < |s.removed| => s.removed[i].value) + s.q
            && (bound != 0 && s.holder == NOBODY ==> |s.q| <= bound)
            && (bound == 1 && s.holder == NOBODY && s.q != [] ==> s.q == [s.pushed[|s.pushed| - 1]])
            && (bound == 0 ==> forall i :: 0 <= i < |s.removed| ==> s.removed[i].Popped?)
            && (forall i :: 0 <= i < |s.removed| && s.removed[i].Dropped? ==> i + bound < |s.pushed|)
            && (forall t :: 0 <= t < |s.pcs| && s.pcs[t].PopUnlock? ==>
                  s.removed != [] && s.removed[|s.removed| - 1] == Popped(s.pcs[t].res))
            && (forall t :: 0 <= t < |s.pcs| && s.pcs[t].PopTake? ==> s.q != [])
            && ((forall t :: 0 <= t < |s.pcs| ==> s.pcs[t] != PushNotify) ==>
                  forall t :: 0 <= t < |s.pcs| && s.pcs[t].PopSleep? ==> s.q == [])
  {
    InvHolds(threads, bound, schedule);
    hide Run;
    var s := Run(threads, bound, schedule);
    assert s.pushed == s.pushed[..|s.removed|] + s.pushed[|s.removed|..];
  }

  /**
   No lost wake-up: when no thread can move on its own, the mutex is free, every thread is idle or asleep in
   `waitAndPop`, and if one is asleep the queue is empty.
   */
  lemma OnlyEmptyQueueBlocks<T>(threads: nat, bound: nat, schedule: seq<Action<T>>)
    requires var s := Run(threads, bound, schedule);
             forall t: nat :: t < |s.pcs| ==> Step(s, Move(t), bound) == s
    ensures var s := Run(threads, bound, schedule);
            && s.holder == NOBODY
            && (forall t :: 0 <= t < |s.pcs| ==> s.pcs[t].Idle? || s.pcs[t].PopSleep?)
            && (forall t :: 0 <= t < |s.pcs| && s.pcs[t].PopSleep? ==> s.q == [])
  {
    InvHolds(threads, bound, schedule);
    var s := Run(threads, bound, schedule);
    hide Step, Run;
    if s.holder != NOBODY {
      Moves(s, s.holder, bound);
    }
    forall t: nat | t < |s.pcs| && !s.pcs[t].Idle? && !s.pcs[t].PopSleep?
      ensures Step(s, Move(t), bound) != s
    {
      Moves(s, t, bound);
    }
  }

  /** A thread inside the mutex always moves; one that waits for it moves when it is free. */
  lemma Moves<T>(s: State<T>, t: nat, bound: nat)
    requires Inv(s, bound) && t < |s.pcs|
    requires t == s.holder || (s.holder == NOBODY && !s.pcs[t].Idle? && !s.pcs[t].PopSleep?)
    ensures Step(s, Move(t), bound) != s
  {
    var pc := s.pcs[t];
    var s' := Step(s, Move(t), bound);
    assert t < |s'.pcs| && s'.pcs[t] != pc;
  }

  // ---------- every call has its effect ----------

  /** A thread has called `push` and not appended yet, or `waitAndPop` and not taken yet. */
  predicate Pending<T>(pc: Pc<T>, pops: bool) {
    if pops then pc.PopLock? || pc.PopCheck? || pc.PopSleep? || pc.PopWoken? || pc.PopTake?
    else pc.PushLock? || pc.PushAppend?
  }

  function PendingCount<T>(pcs: seq<Pc<T>>, pops: bool): nat {
    if pcs == [] then 0
    else PendingCount(pcs[..|pcs| - 1], pops) + (if Pending(pcs[|pcs| - 1], pops) then 1 else 0)
  }

  /** How many calls of `push` or of `waitAndPop` idle threads have made. */
  function Calls<T>(threads: nat, bound: nat, schedule: seq<Action<T>>, pops: bool): nat {
    if schedule == [] then 0
    else
      var before, act := schedule[..|schedule| - 1], schedule[|schedule| - 1];
      var s := Run(threads, bound, before);
      Calls(threads, bound, before, pops)
      + (if (if pops then act.CallPop? else act.CallPush?) && act.t < |s.pcs| && s.pcs[act.t].Idle? then 1 else 0)
  }

  lemma {:induction false} CountAfterUpdate<T>(pcs: seq<Pc<T>>, t: nat, pc: Pc<T>, pops: bool)
    requires t < |pcs|
    ensures PendingCount(pcs[t := pc], pops) + (if Pending(pcs[t], pops) then 1 else 0) ==
            PendingCount(pcs, pops) + (if Pending(pc, pops) then 1 else 0)
  {
    var front := pcs[..|pcs| - 1];
    if t < |front| {
      assert pcs[t := pc][..|front|] == front[t := pc];
      CountAfterUpdate(front, t, pc, pops);
    } else {
      assert pcs[t := pc][..|front|] == front;
    }
  }

  lemma {:induction false} CountAfterNotify<T>(pcs: seq<Pc<T>>, pops: bool)
    ensures PendingCount(Woken(pcs), pops) == PendingCount(pcs, pops)
  {
    if pcs != [] {
      var front := pcs[..|pcs| - 1];
      assert Woken(pcs)[..|front|] == Woken(front);
      CountAfterNotify(front, pops);
    }
  }

  lemma {:induction false} NobodyPending<T>(pcs: seq<Pc<T>>, pops: bool)
    requires forall t :: 0 <= t < |pcs| ==> pcs[t].Idle?
    ensures PendingCount(pcs, pops) == 0
  {
    if pcs != [] {
      NobodyPending(pcs[..|pcs| - 1], pops);
    }
  }

  function One(b: bool): nat {
    if b then 1 else 0
  }

  /** Only the acting thread's share of the count changes. */
  lemma StepCountsPending<T>(s: State<T>, act: Action<T>, bound: nat, pops: bool)
    requires act.t < |s.pcs|
    ensures var s' := Step(s, act, bound);
            && |s'.pcs| == |s.pcs|
            && PendingCount(s'.pcs, pops) + One(Pending(s.pcs[act.t], pops)) ==
               PendingCount(s.pcs, pops) + One(Pending(s'.pcs[act.t], pops))
  {
    var s' := Step(s, act, bound);
    var pcs := if act.Move? && s.pcs[act.t].PushNotify? then Woken(s.pcs) else s.pcs;
    assert pcs[act.t] == s.pcs[act.t] && s'.pcs == pcs[act.t := s'.pcs[act.t]];
    hide Step, Woken;
    CountAfterNotify(s.pcs, pops);
    CountAfterUpdate(pcs, act.t, s'.pcs[act.t], pops);
  }

  lemma StepPushes<T>(s: State<T>, act: Action<T>, bound: nat)
    requires act.t < |s.pcs|
    ensures var s' := Step(s, act, bound);
            && |s'.pcs| == |s.pcs|
            && |s'.pushed| + One(Pending(s'.pcs[act.t], false)) ==
               |s.pushed| + One(Pending(s.pcs[act.t], false)) + One(s.pcs[act.t].Idle? && act.CallPush?)
  {
  }

  lemma StepPops<T>(s: State<T>, act: Action<T>, bound: nat)
    requires act.t < |s.pcs|
    ensures var s' := Step(s, act, bound);
            && |s'.pcs| == |s.pcs|
            && |PoppedValues(s'.removed)| + One(Pending(s'.pcs[act.t], true)) ==
               |PoppedValues(s.removed)| + One(Pending(s.pcs[act.t], true)) + One(s.pcs[act.t].Idle? && act.CallPop?)
  {
    hide PoppedValues;
    assert s.removed + [] == s.removed;
    if s.q != [] {
      PoppedAppend(s.removed, Popped(s.q[0]));
      PoppedAppend(s.removed, Dropped(s.q[0]));
    }
  }

  /**
   In every run each call of `push` appends one element and each call of `waitAndPop` takes one: no call ends
   without its effect, and none has it twice.
   */
  lemma {:induction false} EveryCallHasItsEffect<T>(threads: nat, bound: nat, schedule: seq<Action<T>>)
    ensures var s := Run(threads, bound, schedule);
            && Calls(threads, bound, schedule, false) == |s.pushed| + PendingCount(s.pcs, false)
            && Calls(threads, bound, schedule, true) == |PoppedValues(s.removed)| + PendingCount(s.pcs, true)
  {
    if schedule == [] {
      NobodyPending(Start<T>(threads).pcs, false);
      NobodyPending(Start<T>(threads).pcs, true);
    } else {
      var before, act := schedule[..|schedule| - 1], schedule[|schedule| - 1];
      EveryCallHasItsEffect(threads, bound, before);
      var s := Run(threads, bound, before);
      if act.t < |s.pcs| {
        hide Step, PendingCount, PoppedValues, Pending;
        StepCountsPending(s, act, bound, false);
        StepCountsPending(s, act, bound, true);
        StepPushes(s, act, bound);
        StepPops(s, act, bound);
      }
    }
  }

  // ---------- one thread alone ----------

  datatype Op<T> = Push(v: T) | Pop

  /** A call and its steps. */
  function Steps<T>(op: Op<T>): seq<Action<T>> {
    match op
    case Push(v) => [CallPush(0, v), Move(0), Move(0), Move(0), Move(0), Move(0)]
    case Pop => [CallPop(0), Move(0), Move(0), Move(0), Move(0)]
  }

  function Script<T>(ops: seq<Op<T>>): seq<Action<T>> {
    if ops == [] then [] else Script(ops[..|ops| - 1]) + Steps(ops[|ops| - 1])
  }

  /** What was popped, without what was dropped. */
  function PoppedValues<T>(removed: seq<Removal<T>>): seq<T> {
    if removed == [] then []
    else
      var last := removed[|removed| - 1];
      PoppedValues(removed[..|removed| - 1]) + (if last.Popped? then [last.value] else [])
  }

  /** Every pop comes when there is something to take. */
  ghost predicate Enabled<T>(bound: nat, ops: seq<Op<T>>) {
    forall n :: 0 <= n < |ops| && ops[n].Pop? ==> Run(1, bound, Script(ops[..n])).q != []
  }

  ghost predicate Quiet<T>(s: State<T>) {
    s.pcs == [Idle] && s.holder == NOBODY
  }

  lemma Then<T>(bound: nat, w: seq<Action<T>>, act: Action<T>) returns (w': seq<Action<T>>)
    ensures w' == w + [act] && Run(1, bound, w') == Step(Run(1, bound, w), act, bound)
  {
    w' := w + [act];
    assert w'[..|w|] == w;
  }

  lemma PoppedAppend<T>(removed: seq<Removal<T>>, r: Removal<T>)
    ensures PoppedValues(removed + [r]) == PoppedValues(removed) + (if r.Popped? then [r.value] else [])
  {
    assert (removed + [r])[..|removed|] == removed;
  }

  lemma PushAlone<T>(bound: nat, w: seq<Action<T>>, v: T)
    requires Quiet(Run(1, bound, w))
    ensures var s, s' := Run(1, bound, w), Run(1, bound, w + Steps(Push(v)));
            Quiet(s') && s'.q == PopIfNeeded(s.q + [v], bound) && PoppedValues(s'.removed) == PoppedValues(s.removed)
  {
    hide Run, PoppedValues;
    var w' := Then(bound, w, CallPush(0, v));
    w' := Then(bound, w', Move(0));
    w' := Then(bound, w', Move(0));
    w' := Then(bound, w', Move(0));
    PoppedAppend(Run(1, bound, w).removed, Dropped(Run(1, bound, w').q[0]));
    w' := Then(bound, w', Move(0));
    w' := Then(bound, w', Move(0));
    assert w' == w + Steps(Push(v));
    assert Run(1, bound, w).removed + [] == Run(1, bound, w).removed;
  }

  lemma PopAlone<T>(bound: nat, w: seq<Action<T>>)
    requires Quiet(Run(1, bound, w)) && Run(1, bound, w).q != []
    ensures var s, s' := Run(1, bound, w), Run(1, bound, w + Steps(Pop));
            Quiet(s') && s'.q == s.q[1..] && PoppedValues(s'.removed) == PoppedValues(s.removed) + [s.q[0]]
  {
    hide Run, PoppedValues;
    var w' := Then(bound, w, CallPop(0));
    w' := Then(bound, w', Move(0));
    w' := Then(bound, w', Move(0));
    PoppedAppend(Run(1, bound, w).removed, Popped(Run(1, bound, w).q[0]));
    w' := Then(bound, w', Move(0));
    w' := Then(bound, w', Move(0));
    assert w' == w + Steps(Pop);
  }

  /** The object does, one whole operation at a time, what the step machine does with one thread. */
  method Replay<T>(bound: nat, ops: seq<Op<T>>) returns (queue: Queue<T>, popped: seq<T>)
    requires Enabled(bound, ops)
    ensures var s := Run(1, bound, Script(ops)); queue.q == s.q && popped == PoppedValues(s.removed)
  {
    queue := new Queue(bound);
    popped := [];
    assert Quiet(Run(1, bound, Script<T>([])));
    for k := 0 to |ops|
      invariant fresh(queue) && queue.bound == bound && Quiet(Run(1, bound, Script(ops[..k])))
      invariant queue.q == Run(1, bound, Script(ops[..k])).q
      invariant popped == PoppedValues(Run(1, bound, Script(ops[..k])).removed)
    {
      assert ops[..k + 1][..k] == ops[..k];
      hide Run, PoppedValues;
      match ops[k] {
        case Push(v) =>
          PushAlone(bound, Script(ops[..k]), v);
          queue.Push(v);
        case Pop =>
          PopAlone(bound, Script(ops[..k]));
          var res := queue.Pop();
          popped := popped + [res];
      }
    }
    assert ops[..|ops|] == ops;
  }

  /** A pop of an empty queue blocks: asleep, without the mutex, and unable to move on its own. */
  lemma EmptyPopBlocks<T>(bound: nat, w: seq<Action<T>>)
    requires Quiet(Run(1, bound, w)) && Run(1, bound, w).q == []
    ensures var s := Run(1, bound, w + [CallPop(0), Move(0), Move(0)]);
            s.pcs == [PopSleep] && s.holder == NOBODY && Step(s, Move(0), bound) == s
  {
    hide Run;
    var w' := Then(bound, w, CallPop(0));
    w' := Then(bound, w', Move(0));
    w' := Then(bound, w', Move(0));
    assert w' == w + [CallPop(0), Move(0), Move(0)];
  }
}
