/**
 The triple buffer of cpp_practices/lock_free_structure/include/triple_buffer.h, one thread storing and one
 loading, step by step.

 A value is named by its version: 0 is the initial one, and the n-th `store` stores version n. Copying a value
 into or out of a buffer takes two steps, so a copy that overlaps another one shows as a torn value.
 */
module TripleBufferThreads {
  import R = TripleBuffer

  type Buffer = b: nat | b < 3

  datatype Content = Torn | Full(version: nat)

  datatype StorerPc = SIdle | SBegin | SEnd | SLoad | SExchange | SStore | SClear

  /** `wait_load` runs from `LTest` to `LCopied`, `instant_load` from `LRead` around to `LStore`. */
  datatype LoaderPc = LIdle | LTest | LLoad | LExchange | LStore | LRead | LCopied

  /** Who put the buffer into `ready`. */
  datatype Source = FromStart | FromStorer | FromLoader

  datatype Memory = Memory(bufs: seq<Content>, present: Buffer, ready: Buffer, inprogress: Buffer, stale: bool)

  /** A thread: where it is, its register, and for the loader which operation it runs and what it has copied. */
  datatype Storer = Storer(pc: StorerPc, reg: Buffer)
  datatype Loader = Loader(pc: LoaderPc, reg: Buffer, waits: bool, seen: Content)

  /**
   History, which decides no branch and no pointer: the buffers each thread owns, the origin of `ready`, the
   number of publications, the buffer given up in the last loader swap, and everything loaded.
   */
  datatype History = History(stores: Buffer, loads: Buffer, source: Source, published: nat, given: Buffer,
                             loaded: seq<Content>)

  datatype State = State(m: Memory, st: Storer, ld: Loader, h: History)

  /** A thread calls an operation, if it is idle, or moves one step. */
  datatype Action = CallStore | CallWait | CallInstant | MoveStorer | MoveLoader

  const START := State(Memory([Full(0), Full(0), Full(0)], 0, 1, 2, false), Storer(SIdle, 2),
                       Loader(LIdle, 0, false, Full(0)), History(2, 0, FromStart, 0, 0, []))

  predicate Shaped(s: State) {
    |s.m.bufs| == 3
  }

  function StorerStep(s: State): State
    requires Shaped(s)
  {
    var m, st := s.m, s.st;
    match st.pc
    case SIdle => s
    case SBegin => s.(m := m.(bufs := m.bufs[m.inprogress := Torn]), st := Storer(SEnd, m.inprogress))
    case SEnd => s.(m := m.(bufs := m.bufs[st.reg := Full(s.h.published + 1)]), st := st.(pc := SLoad))
    case SLoad => s.(st := Storer(SExchange, m.inprogress))
    case SExchange => s.(m := m.(ready := st.reg), st := Storer(SStore, m.ready),
                         h := s.h.(stores := m.ready, source := FromStorer, published := s.h.published + 1))
    case SStore => s.(m := m.(inprogress := st.reg), st := st.(pc := SClear))
    case SClear => s.(m := m.(stale := false), st := st.(pc := SIdle))
  }

  function LoaderStep(s: State): State
    requires Shaped(s)
  {
    var m, ld := s.m, s.ld;
    match ld.pc
    case LIdle => s
    case LTest => s.(m := m.(stale := true),
                     ld := ld.(pc := if !m.stale then LLoad else if ld.waits then LTest else LIdle))
    case LLoad => s.(ld := ld.(pc := LExchange, reg := m.present))
    case LExchange => s.(m := m.(ready := ld.reg), ld := ld.(pc := LStore, reg := m.ready),
                         h := s.h.(loads := m.ready, source := FromLoader, given := s.h.loads))
    case LStore => s.(m := m.(present := ld.reg), ld := ld.(pc := if ld.waits then LRead else LIdle))
    case LRead => s.(ld := ld.(pc := LCopied, reg := m.present, seen := m.bufs[m.present]))
    case LCopied =>
      var val := if m.bufs[ld.reg] == ld.seen then ld.seen else Torn;
      s.(ld := ld.(pc := if ld.waits then LIdle else LTest), h := s.h.(loaded := s.h.loaded + [val]))
  }

  function Step(s: State, act: Action): (s': State)
    requires Shaped(s)
    ensures Shaped(s')
  {
    match act
    case CallStore => if s.st.pc == SIdle then s.(st := s.st.(pc := SBegin)) else s
    case CallWait => if s.ld.pc == LIdle then s.(ld := s.ld.(pc := LTest, waits := true)) else s
    case CallInstant => if s.ld.pc == LIdle then s.(ld := s.ld.(pc := LRead, waits := false)) else s
    case MoveStorer => StorerStep(s)
    case MoveLoader => LoaderStep(s)
  }

  function Run(schedule: seq<Action>): (s: State)
    ensures Shaped(s)
  {
    if schedule == [] then START
    else Step(Run(schedule[..|schedule| - 1]), schedule[|schedule| - 1])
  }

  lemma RunAppend(schedule: seq<Action>, act: Action)
    ensures Run(schedule + [act]) == Step(Run(schedule), act)
  {
    assert (schedule + [act])[..|schedule|] == schedule;
  }

  /** Between the storer's swap and its `clear`. */
  predicate StorerInWindow(s: State) {
    s.st.pc.SStore? || s.st.pc.SClear?
  }

  /** Between the loader's successful `test_and_set` and its swap. */
  predicate LoaderInWindow(s: State) {
    s.ld.pc.LLoad? || s.ld.pc.LExchange?
  }

  predicate Overlap(s: State) {
    StorerInWindow(s) && LoaderInWindow(s)
  }

  // ---------- the invariant ----------

  /** The three roles are three buffers, and the pointers name them except inside a swap. */
  ghost predicate Owned(s: State) {
    && s.h.stores != s.m.ready && s.m.ready != s.h.loads && s.h.loads != s.h.stores
    && (if s.st.pc == SStore then s.st.reg == s.h.stores else s.m.inprogress == s.h.stores)
    && (if s.ld.pc == LStore then s.ld.reg == s.h.loads else s.m.present == s.h.loads)
    && (s.st.pc.SEnd? || s.st.pc.SExchange? ==> s.st.reg == s.h.stores)
    && (s.ld.pc.LCopied? || s.ld.pc.LExchange? ==> s.ld.reg == s.h.loads)
  }

  predicate Published(c: Content, n: nat) {
    c.Full? && c.version <= n
  }

  /** What the buffers hold. */
  ghost predicate Filled(s: State) {
    && Shaped(s)
    && (s.h.source == FromStart ==> s.h.published == 0 && s.m.bufs[s.m.ready] == Full(0))
    && (s.h.source == FromStorer ==> s.m.bufs[s.m.ready] == Full(s.h.published))
    && (s.h.source == FromLoader ==> s.m.ready == s.h.given && Published(s.m.bufs[s.m.ready], s.h.published))
    && Published(s.m.bufs[s.h.loads], s.h.published)
    && (s.st.pc.SLoad? || s.st.pc.SExchange? ==> s.m.bufs[s.h.stores] == Full(s.h.published + 1))
    && (StorerInWindow(s) ==> s.h.source != FromStart)
  }

  /** What was loaded; the buffer does not change while it is copied. */
  ghost predicate Copied(s: State)
    requires Shaped(s)
  {
    && (s.ld.pc == LCopied ==> s.ld.seen == s.m.bufs[s.ld.reg])
    && forall i :: 0 <= i < |s.h.loaded| ==> Published(s.h.loaded[i], s.h.published)
  }

  ghost predicate Inv(s: State) {
    Owned(s) && Filled(s) && Copied(s)
  }

  lemma KeepsOwned(s: State, act: Action)
    requires Owned(s) && Shaped(s)
    ensures Owned(Step(s, act))
  {
  }

  lemma KeepsFilled(s: State, act: Action)
    requires Owned(s) && Filled(s)
    ensures Filled(Step(s, act))
  {
  }

  lemma KeepsCopied(s: State, act: Action)
    requires Owned(s) && Filled(s) && Copied(s)
    ensures Copied(Step(s, act))
  {
  }

  lemma {:induction false} InvHolds(schedule: seq<Action>)
    ensures Inv(Run(schedule))
  {
    if schedule != [] {
      var s, act := Run(schedule[..|schedule| - 1]), schedule[|schedule| - 1];
      InvHolds(schedule[..|schedule| - 1]);
      hide Step, Owned, Filled, Copied;
      KeepsOwned(s, act);
      KeepsFilled(s, act);
      KeepsCopied(s, act);
    }
  }

  // ---------- safety in every run ----------

  /**
   In every run the two threads never copy into and out of one buffer at once, and every load returns a value
   that was completely stored and published.
   */
  lemma NoTornLoads(schedule: seq<Action>)
    ensures var s := Run(schedule);
            && (s.st.pc == SEnd && s.ld.pc == LCopied ==> s.st.reg != s.ld.reg)
            && forall i :: 0 <= i < |s.h.loaded| ==> s.h.loaded[i].Full? && s.h.loaded[i].version <= s.h.published
  {
    InvHolds(schedule);
  }

  /** A loader swap takes the newest publication, or the very buffer it gave up in its previous swap. */
  lemma SwapTakes(schedule: seq<Action>)
    requires Run(schedule).ld.pc == LExchange
    ensures var s := Run(schedule);
            if s.h.source == FromLoader then s.m.ready == s.h.given else s.m.bufs[s.m.ready] == Full(s.h.published)
  {
    InvHolds(schedule);
  }

  // ---------- freshness ----------

  ghost predicate NeverOverlaps(schedule: seq<Action>) {
    forall n :: 0 <= n <= |schedule| ==> !Overlap(Run(schedule[..n]))
  }

  /** Versions never go down. */
  ghost predicate Rising(loaded: seq<Content>) {
    && (forall i :: 0 <= i < |loaded| ==> loaded[i].Full?)
    && forall i, j :: 0 <= i < j < |loaded| ==> loaded[i].version <= loaded[j].version
  }

  /** Without overlap, a clear flag or an open window means that `ready` is not older than what the loader has. */
  ghost predicate Fresh(s: State)
    requires Inv(s)
  {
    && (!s.m.stale || LoaderInWindow(s) ==> s.h.source != FromLoader)
    && (LoaderInWindow(s) ==> s.m.stale)
    && (StorerInWindow(s) ==> s.h.source == FromStorer)
    && (s.h.source == FromStorer ==> s.m.bufs[s.h.loads].version < s.h.published)
  }

  ghost predicate InOrder(s: State)
    requires Inv(s)
  {
    && Rising(s.h.loaded)
    && (s.h.loaded != [] ==> s.h.loaded[|s.h.loaded| - 1].version <= s.m.bufs[s.h.loads].version)
  }

  lemma KeepsFresh(s: State, act: Action)
    requires Inv(s) && Inv(Step(s, act)) && Fresh(s) && !Overlap(s)
    ensures Fresh(Step(s, act))
  {
  }

  lemma RisingAppend(loaded: seq<Content>, c: Content)
    requires Rising(loaded) && c.Full? && (loaded != [] ==> loaded[|loaded| - 1].version <= c.version)
    ensures Rising(loaded + [c])
  {
  }

  lemma KeepsInOrder(s: State, act: Action)
    requires Inv(s) && Inv(Step(s, act)) && Fresh(s) && InOrder(s)
    ensures InOrder(Step(s, act))
  {
    hide Rising;
    if act == MoveLoader && s.ld.pc == LCopied {
      RisingAppend(s.h.loaded, s.ld.seen);
    }
  }

  lemma {:induction false} FreshHolds(schedule: seq<Action>)
    requires NeverOverlaps(schedule)
    ensures Inv(Run(schedule)) && Fresh(Run(schedule)) && InOrder(Run(schedule))
  {
    InvHolds(schedule);
    if schedule != [] {
      var before, act := schedule[..|schedule| - 1], schedule[|schedule| - 1];
      assert forall n :: 0 <= n <= |before| ==> before[..n] == schedule[..n];
      assert before == schedule[..|before|];
      FreshHolds(before);
      hide Inv, Fresh, InOrder, Step;
      KeepsFresh(Run(before), act);
      KeepsInOrder(Run(before), act);
    }
  }

  /** What is loaded stays below what is newer than the last load. */
  lemma RisingBelow(loaded: seq<Content>, n: nat)
    requires Rising(loaded) && (loaded != [] ==> loaded[|loaded| - 1].version < n)
    ensures forall i :: 0 <= i < |loaded| ==> loaded[i].Full? && loaded[i].version < n
  {
  }

  /**
   In a run whose windows never overlap, no load returns an older version than the load before it, every swap
   takes the newest publication, and that is newer than everything loaded once anything was stored.
   */
  lemma FreshWithoutOverlap(schedule: seq<Action>)
    requires NeverOverlaps(schedule)
    ensures var s := Run(schedule);
            && Rising(s.h.loaded)
            && (s.ld.pc == LExchange ==>
                  && s.m.bufs[s.m.ready] == Full(s.h.published)
                  && (s.h.published > 0 ==>
                        forall i :: 0 <= i < |s.h.loaded| ==> s.h.loaded[i].Full? && s.h.loaded[i].version < s.h.published))
  {
    FreshHolds(schedule);
    var s := Run(schedule);
    hide Run, Rising;
    if s.ld.pc == LExchange && s.h.published > 0 {
      RisingBelow(s.h.loaded, s.h.published);
    }
  }

  // ---------- where the windows overlap, freshness is lost ----------

  lemma Then(w: seq<Action>, act: Action) returns (w': seq<Action>)
    ensures w' == w + [act] && Run(w') == Step(Run(w), act)
  {
    w' := w + [act];
    RunAppend(w, act);
  }

  /** The loader is about to swap although nothing was published since its previous swap. */
  predicate StaleSwap(s: State) {
    s.ld.pc == LExchange && s.h.source == FromLoader
  }

  lemma FinishLoad(w: seq<Action>) returns (w': seq<Action>)
    requires LoaderInWindow(Run(w))
    ensures w <= w'
    ensures Run(w').ld.pc == LIdle && Run(w').h.source == FromLoader && Run(w').st == Run(w).st
  {
    hide Run;
    w' := w;
    if Run(w).ld.pc == LLoad {
      w' := Then(w', MoveLoader);
    }
    w' := Then(w', MoveLoader);
    w' := Then(w', MoveLoader);
    if Run(w').ld.pc == LRead {
      w' := Then(w', MoveLoader);
      w' := Then(w', MoveLoader);
    }
  }

  lemma FinishClear(w: seq<Action>) returns (w': seq<Action>)
    requires StorerInWindow(Run(w))
    ensures w <= w' && !Run(w').m.stale && Run(w').ld == Run(w).ld && Run(w').h == Run(w).h
  {
    hide Run;
    w' := w;
    if Run(w).st.pc == SStore {
      w' := Then(w', MoveStorer);
    }
    w' := Then(w', MoveStorer);
  }

  /** Every reachable overlap can be continued to a swap with nothing new to take. */
  lemma OverlapGoesStale(schedule: seq<Action>) returns (w: seq<Action>)
    requires Overlap(Run(schedule))
    ensures schedule <= w && StaleSwap(Run(w))
  {
    hide Run;
    w := FinishLoad(schedule);
    w := FinishClear(w);
    w := Then(w, CallWait);
    w := Then(w, MoveLoader);
    w := Then(w, MoveLoader);
  }

  /** The loader has passed the flag, and version 1 is published but the flag not cleared yet. */
  lemma OlderLoadStart() returns (w: seq<Action>)
    ensures Run(w) == State(Memory([Full(0), Full(0), Full(1)], 0, 2, 2, true), Storer(SStore, 1),
                            Loader(LLoad, 0, true, Full(0)), History(1, 0, FromStorer, 1, 0, []))
  {
    w := [];
    assert Run(w) == START;
    hide Run;
    w := Then(w, CallWait);
    w := Then(w, MoveLoader);
    w := Then(w, CallStore);
    w := Then(w, MoveStorer);
    w := Then(w, MoveStorer);
    assert Run(w).m.bufs == [Full(0), Full(0), Full(1)];
    w := Then(w, MoveStorer);
    w := Then(w, MoveStorer);
  }

  lemma OlderLoadFirst() returns (w: seq<Action>)
    ensures Run(w) == State(Memory([Full(0), Full(0), Full(1)], 2, 0, 1, false), Storer(SIdle, 1),
                            Loader(LIdle, 2, true, Full(1)), History(1, 2, FromLoader, 1, 0, [Full(1)]))
  {
    hide Run;
    w := OlderLoadStart();
    w := Then(w, MoveLoader);
    w := Then(w, MoveLoader);
    w := Then(w, MoveLoader);
    w := Then(w, MoveLoader);
    w := Then(w, MoveLoader);
    assert Run(w).h.loaded == [Full(1)];
    w := Then(w, MoveStorer);
    w := Then(w, MoveStorer);
  }

  /** A run in which a `wait_load` returns version 1 and the next one the initial value. */
  lemma OlderLoadRun() returns (w: seq<Action>)
    ensures Run(w).h.loaded == [Full(1), Full(0)]
  {
    hide Run;
    w := OlderLoadFirst();
    w := Then(w, CallWait);
    w := Then(w, MoveLoader);
    w := Then(w, MoveLoader);
    w := Then(w, MoveLoader);
    w := Then(w, MoveLoader);
    w := Then(w, MoveLoader);
    w := Then(w, MoveLoader);
  }

  // ---------- every operation ends ----------

  function StorerRank(st: Storer): nat {
    match st.pc
    case SIdle => 0 case SClear => 1 case SStore => 2 case SExchange => 3 case SLoad => 4 case SEnd => 5 case SBegin => 6
  }

  function LoaderRank(ld: Loader): nat {
    match ld.pc
    case LIdle => 0
    case LRead => if ld.waits then 2 else 6
    case LCopied => if ld.waits then 1 else 5
    case LTest => if ld.waits then 6 else 4
    case LLoad => if ld.waits then 5 else 3
    case LExchange => if ld.waits then 4 else 2
    case LStore => if ld.waits then 3 else 1
  }

  /** How often an action is scheduled. */
  function Times(acts: seq<Action>, act: Action): nat {
    if acts == [] then 0 else (if acts[0] == act then 1 else 0) + Times(acts[1..], act)
  }

  /** A `wait_load` in front of a set flag. */
  predicate Spins(s: State) {
    s.ld.pc == LTest && s.ld.waits && s.m.stale
  }

  lemma StorerCountsDown(s: State, act: Action)
    requires Shaped(s) && s.st.pc != SIdle
    ensures StorerRank(Step(s, act).st) == StorerRank(s.st) - (if act == MoveStorer then 1 else 0)
  {
  }

  lemma LoaderCountsDown(s: State, act: Action)
    requires Shaped(s) && s.ld.pc != LIdle && !Spins(s)
    ensures !Spins(Step(s, act)) && LoaderRank(Step(s, act).ld) <= LoaderRank(s.ld) - (if act == MoveLoader then 1 else 0)
  {
  }

  lemma FirstOfMore(w: seq<Action>, more: seq<Action>, n: nat)
    requires n < |more|
    ensures w + more[..n + 1] == w + [more[0]] + more[1..][..n]
  {
    assert more[..n + 1] == [more[0]] + more[1..][..n];
  }

  /** `store` ends within six of its own steps, whatever the loader does meanwhile. */
  lemma {:induction false} StoreEnds(schedule: seq<Action>, more: seq<Action>) returns (n: nat)
    requires Times(more, MoveStorer) >= StorerRank(Run(schedule).st)
    ensures n <= |more| && Run(schedule + more[..n]).st.pc == SIdle
    decreases |more|
  {
    hide Run, Step;
    if Run(schedule).st.pc == SIdle {
      n := 0;
      assert schedule + more[..0] == schedule;
    } else {
      assert StorerRank(Run(schedule).st) > 0;
      RunAppend(schedule, more[0]);
      StorerCountsDown(Run(schedule), more[0]);
      hide StorerRank;
      n := StoreEnds(schedule + [more[0]], more[1..]);
      FirstOfMore(schedule, more, n);
      n := n + 1;
    }
  }

  /** So does `instant_load`, and `wait_load` once the flag is clear: only the loader sets it. */
  lemma {:induction false} LoadEnds(schedule: seq<Action>, more: seq<Action>) returns (n: nat)
    requires !Spins(Run(schedule)) && Times(more, MoveLoader) >= LoaderRank(Run(schedule).ld)
    ensures n <= |more| && Run(schedule + more[..n]).ld.pc == LIdle
    decreases |more|
  {
    hide Run, Step, Spins;
    if Run(schedule).ld.pc == LIdle {
      n := 0;
      assert schedule + more[..0] == schedule;
    } else {
      assert LoaderRank(Run(schedule).ld) > 0;
      RunAppend(schedule, more[0]);
      LoaderCountsDown(Run(schedule), more[0]);
      hide LoaderRank;
      n := LoadEnds(schedule + [more[0]], more[1..]);
      FirstOfMore(schedule, more, n);
      n := n + 1;
    }
  }

  /** How many `store`s, and how many loads of either kind, an idle thread has called. */
  function StoreCalls(schedule: seq<Action>): nat {
    if schedule == [] then 0
    else
      var before, act := schedule[..|schedule| - 1], schedule[|schedule| - 1];
      StoreCalls(before) + (if act == CallStore && Run(before).st.pc == SIdle then 1 else 0)
  }

  function LoadCalls(schedule: seq<Action>): nat {
    if schedule == [] then 0
    else
      var before, act := schedule[..|schedule| - 1], schedule[|schedule| - 1];
      LoadCalls(before) + (if (act == CallWait || act == CallInstant) && Run(before).ld.pc == LIdle then 1 else 0)
  }

  predicate StillToPublish(st: Storer) {
    st.pc.SBegin? || st.pc.SEnd? || st.pc.SLoad? || st.pc.SExchange?
  }

  predicate StillToLoad(ld: Loader) {
    ld.pc.LRead? || ld.pc.LCopied? || (ld.waits && !ld.pc.LIdle?)
  }

  /** Every call of `store` publishes once and every load returns one value: no operation ends without its effect. */
  lemma {:induction false} EveryCallHasItsEffect(schedule: seq<Action>)
    ensures var s := Run(schedule);
            && StoreCalls(schedule) == s.h.published + (if StillToPublish(s.st) then 1 else 0)
            && LoadCalls(schedule) == |s.h.loaded| + (if StillToLoad(s.ld) then 1 else 0)
  {
    if schedule != [] {
      EveryCallHasItsEffect(schedule[..|schedule| - 1]);
    }
  }

  // ---------- whole operations one after the other ----------

  datatype Kind = Put | Wait | Instant

  /** A call and six steps, which is enough for each. */
  function Steps(kind: Kind): seq<Action> {
    match kind
    case Put => [CallStore, MoveStorer, MoveStorer, MoveStorer, MoveStorer, MoveStorer, MoveStorer]
    case Wait => [CallWait, MoveLoader, MoveLoader, MoveLoader, MoveLoader, MoveLoader, MoveLoader]
    case Instant => [CallInstant, MoveLoader, MoveLoader, MoveLoader, MoveLoader, MoveLoader, MoveLoader]
  }

  /** The operations one after the other, each finished before the next is called. */
  function Script(kinds: seq<Kind>): seq<Action> {
    if kinds == [] then [] else Script(kinds[..|kinds| - 1]) + Steps(kinds[|kinds| - 1])
  }

  function Puts(kinds: seq<Kind>): nat {
    if kinds == [] then 0 else Puts(kinds[..|kinds| - 1]) + (if kinds[|kinds| - 1] == Put then 1 else 0)
  }

  /** An operation of the register: after n `store`s the next one stores version n + 1. */
  function Operation(front: seq<Kind>, kind: Kind): R.Op<Content> {
    match kind case Put => R.Store(Full(Puts(front) + 1)) case Wait => R.WaitLoad case Instant => R.InstantLoad
  }

  function Operations(kinds: seq<Kind>): (ops: seq<R.Op<Content>>)
    ensures |ops| == |kinds|
  {
    if kinds == [] then []
    else
      var front := kinds[..|kinds| - 1];
      Operations(front) + [Operation(front, kinds[|kinds| - 1])]
  }

  /** The answers of the register's loads. */
  function Answers(ops: seq<R.Op<Content>>): seq<Content> {
    if ops == [] then []
    else
      Answers(ops[..|ops| - 1]) +
      match R.Answer(Full(0), ops, |ops| - 1) case None => [] case Some(val) => [val]
  }

  function Abstract(s: State): R.Register<Content>
    requires Shaped(s)
  {
    R.Register(if s.m.stale then s.m.bufs[s.m.present] else s.m.bufs[s.m.ready], s.m.bufs[s.m.present], !s.m.stale)
  }

  predicate Quiet(s: State) {
    s.st.pc == SIdle && s.ld.pc == LIdle
  }

  lemma EnabledBefore(init: Content, ops: seq<R.Op<Content>>)
    requires R.Enabled(init, ops) && ops != []
    ensures R.Enabled(init, ops[..|ops| - 1])
    ensures ops[|ops| - 1].WaitLoad? ==> R.After(init, ops[..|ops| - 1]).pending
  {
    var front := ops[..|ops| - 1];
    assert forall n :: 0 <= n < |front| ==> front[..n] == ops[..n];
  }

  lemma PutAlone(w: seq<Action>)
    requires Quiet(Run(w))
    ensures var s, s' := Run(w), Run(w + Steps(Put));
            && Quiet(s') && s'.h.published == s.h.published + 1 && s'.h.loaded == s.h.loaded
            && Abstract(s') == Abstract(s).Stored(Full(s.h.published + 1))
  {
    InvHolds(w);
    hide Run;
    var w' := Then(w, CallStore);
    w' := Then(w', MoveStorer);
    w' := Then(w', MoveStorer);
    w' := Then(w', MoveStorer);
    w' := Then(w', MoveStorer);
    w' := Then(w', MoveStorer);
    w' := Then(w', MoveStorer);
    assert w' == w + Steps(Put);
  }

  lemma WaitAlone(w: seq<Action>)
    requires Quiet(Run(w)) && !Run(w).m.stale
    ensures var s, s' := Run(w), Run(w + Steps(Wait));
            && Quiet(s') && s'.h.published == s.h.published && s'.h.loaded == s.h.loaded + [Abstract(s).latest]
            && Abstract(s') == Abstract(s).Loaded()
  {
    InvHolds(w);
    hide Run;
    var w' := Then(w, CallWait);
    w' := Then(w', MoveLoader);
    w' := Then(w', MoveLoader);
    w' := Then(w', MoveLoader);
    w' := Then(w', MoveLoader);
    w' := Then(w', MoveLoader);
    w' := Then(w', MoveLoader);
    assert w' == w + Steps(Wait);
  }

  lemma InstantAlone(w: seq<Action>)
    requires Quiet(Run(w))
    ensures var s, s' := Run(w), Run(w + Steps(Instant));
            && Quiet(s') && s'.h.published == s.h.published && s'.h.loaded == s.h.loaded + [Abstract(s).seen]
            && Abstract(s') == Abstract(s).Loaded()
  {
    InvHolds(w);
    hide Run;
    var w' := Then(w, CallInstant);
    w' := Then(w', MoveLoader);
    w' := Then(w', MoveLoader);
    w' := Then(w', MoveLoader);
    w' := Then(w', MoveLoader);
    w' := Then(w', MoveLoader);
    w' := Then(w', MoveLoader);
    assert w' == w + Steps(Instant);
  }

  lemma OneMoreKind(front: seq<Kind>, kind: Kind)
    ensures Puts(front + [kind]) == Puts(front) + (if kind == Put then 1 else 0)
    ensures Operations(front + [kind]) == Operations(front) + [Operation(front, kind)]
  {
    assert (front + [kind])[..|front|] == front;
  }

  /** The last operation, on the register. */
  lemma OneMore(ops: seq<R.Op<Content>>, op: R.Op<Content>)
    ensures var r := R.After(Full(0), ops);
            && R.After(Full(0), ops + [op]) == R.Apply(r, op)
            && Answers(ops + [op]) ==
               Answers(ops) + (match op case Store(_) => [] case WaitLoad => [r.latest] case InstantLoad => [r.seen])
  {
    assert (ops + [op])[..|ops|] == ops;
    R.RegisterHistory(Full(0), ops);
    hide R.LastStored, R.UpToLastLoad;
  }

  /**
   Refinement: operations called one after the other, each finished before the next, do on the step machine what
   they do on the register, and load the same values.
   */
  lemma {:induction false} SequentialIsRegister(kinds: seq<Kind>)
    requires R.Enabled(Full(0), Operations(kinds))
    ensures var s, ops := Run(Script(kinds)), Operations(kinds);
            && Quiet(s) && s.h.published == Puts(kinds)
            && Abstract(s) == R.After(Full(0), ops) && s.h.loaded == Answers(ops)
  {
    if kinds != [] {
      var front, kind := kinds[..|kinds| - 1], kinds[|kinds| - 1];
      assert kinds == front + [kind];
      OneMoreKind(front, kind);
      EnabledBefore(Full(0), Operations(kinds));
      OneMore(Operations(front), Operation(front, kind));
      SequentialIsRegister(front);
      assert Script(kinds) == Script(front) + Steps(kind);
      assert Abstract(Run(Script(front))).pending == !Run(Script(front)).m.stale;
      hide Run, Abstract, Puts, Operations, Answers, R.After, R.Enabled, Steps, Script;
      match kind
      case Put => PutAlone(Script(front));
      case Wait => WaitAlone(Script(front));
      case Instant => InstantAlone(Script(front));
    }
  }
}
