/**
 The lock-free triple buffer with its two threads and its destructor
 (cpp_practices/lock_free_structure/include/triple_buffer_so.h).

 Every atomic operation is sequentially consistent, so a run is an interleaving of the
 threads' atomic steps: a schedule says which thread moves next, and any schedule is allowed.
 `x = ready.exchange(x)` is three steps: load `x`, exchange with `ready`, store into `x`.
 A thread that has ended, or waits for another to end, does nothing when scheduled.
 */
module TripleBufferProtocol {
  import opened Basics

  type Buffer = b: int | 0 <= b < 3

  /** What a buffer holds: nothing yet, something half written, or the `version`-th production. */
  datatype Content = Raw | Partial | Full(version: nat)

  datatype ProducerPc = PTest | PBegin | PEnd | PLoad | PExchange | PStore | PClear | PExit
  datatype ConsumerPc = CTest | CBegin | CEnd | CSpin | CLoad | CExchange | CStore | CExit
  datatype MainPc = MRunning | MJoinProducer | MClear | MJoinConsumer | MDone
  datatype Thread = Producer | Consumer | Main

  /** Who put the buffer into `ready`. */
  datatype Source = FromStart | FromProducer | FromConsumer

  /** The object's members. */
  datatype Memory = Memory(bufs: seq<Content>, present: Buffer, ready: Buffer, inprogress: Buffer, stop: bool, stale: bool)

  /** A thread: where it is, and its register. */
  datatype ProducerThread = ProducerThread(pc: ProducerPc, reg: Buffer)
  datatype ConsumerThread = ConsumerThread(pc: ConsumerPc, reg: Buffer)

  /**
   History, which decides no branch and no pointer: the buffers each thread owns, the origin of `ready`, the number of
   publications, the buffer given up in the last consumer swap, whether a swap followed the
   destructor's `clear`, and everything handed to `consume`.
   */
  datatype History = History(produces: Buffer, consumes: Buffer, source: Source, published: nat, given: Buffer,
                             late: bool, consumed: seq<Content>)

  datatype State = State(m: Memory, p: ProducerThread, c: ConsumerThread, mpc: MainPc, h: History)

  /** After the constructor: `produce(present)` has run and the flag is set. */
  const START := State(Memory([Full(0), Raw, Raw], 0, 1, 2, false, true),
                       ProducerThread(PTest, 2), ConsumerThread(CTest, 0), MRunning,
                       History(2, 0, FromStart, 0, 0, false, []))

  predicate Shaped(s: State) {
    |s.m.bufs| == 3
  }

  function ProducerStep(s: State): State
    requires Shaped(s)
  {
    var m, p := s.m, s.p;
    match p.pc
    case PTest => s.(p := p.(pc := if m.stop then PExit else PBegin))
    case PBegin => s.(m := m.(bufs := m.bufs[m.inprogress := Partial]), p := ProducerThread(PEnd, m.inprogress))
    case PEnd => s.(m := m.(bufs := m.bufs[p.reg := Full(s.h.published + 1)]), p := p.(pc := PLoad))
    case PLoad => s.(p := ProducerThread(PExchange, m.inprogress))
    case PExchange => s.(m := m.(ready := p.reg), p := ProducerThread(PStore, m.ready),
                         h := s.h.(produces := m.ready, source := FromProducer, published := s.h.published + 1))
    case PStore => s.(m := m.(inprogress := p.reg), p := p.(pc := PClear))
    case PClear => s.(m := m.(stale := false), p := p.(pc := PTest))
    case PExit => s
  }

  function ConsumerStep(s: State): State
    requires Shaped(s)
  {
    var m, c := s.m, s.c;
    match c.pc
    case CTest => s.(c := c.(pc := if m.stop then CExit else CBegin))
    case CBegin => s.(c := ConsumerThread(CEnd, m.present), h := s.h.(consumed := s.h.consumed + [m.bufs[m.present]]))
    case CEnd => s.(c := c.(pc := CSpin))
    case CSpin => s.(m := m.(stale := true), c := c.(pc := if m.stale then CSpin else CLoad))
    case CLoad => s.(c := ConsumerThread(CExchange, m.present))
    case CExchange => s.(m := m.(ready := c.reg), c := ConsumerThread(CStore, m.ready),
                         h := s.h.(consumes := m.ready, source := FromConsumer, given := s.h.consumes,
                                   late := s.h.late || s.mpc.MJoinConsumer?))
    case CStore => s.(m := m.(present := c.reg), c := c.(pc := CTest))
    case CExit => s
  }

  /** The destructor. */
  function MainStep(s: State): State {
    match s.mpc
    case MRunning => s.(m := s.m.(stop := true), mpc := MJoinProducer)
    case MJoinProducer => if s.p.pc.PExit? then s.(mpc := MClear) else s
    case MClear => s.(m := s.m.(stale := false), mpc := MJoinConsumer)
    case MJoinConsumer => if s.c.pc.CExit? then s.(mpc := MDone) else s
    case MDone => s
  }

  function Step(s: State, t: Thread): (s': State)
    requires Shaped(s)
    ensures Shaped(s')
  {
    match t
    case Producer => ProducerStep(s)
    case Consumer => ConsumerStep(s)
    case Main => MainStep(s)
  }

  /** The state after a schedule, from the state the constructor leaves. */
  function Run(schedule: seq<Thread>): (s: State)
    ensures Shaped(s)
  {
    if schedule == [] then START
    else Step(Run(schedule[..|schedule| - 1]), schedule[|schedule| - 1])
  }

  // ---------- where the threads are ----------

  /** The producer is between its swap and its `clear`. */
  predicate ProducerInWindow(s: State) {
    s.p.pc.PStore? || s.p.pc.PClear?
  }

  /** The consumer is between its successful `test_and_set` and its swap. */
  predicate ConsumerInWindow(s: State) {
    s.c.pc.CLoad? || s.c.pc.CExchange?
  }

  /** The destructor has cleared the flag. */
  predicate Cleared(s: State) {
    s.mpc.MJoinConsumer? || s.mpc.MDone?
  }

  // ---------- the invariant ----------

  /** The three roles are three buffers, and the pointers name them except inside a swap. */
  ghost predicate Owned(s: State) {
    && s.h.produces != s.m.ready && s.m.ready != s.h.consumes && s.h.consumes != s.h.produces
    && (if s.p.pc == PStore then s.p.reg == s.h.produces else s.m.inprogress == s.h.produces)
    && (if s.c.pc == CStore then s.c.reg == s.h.consumes else s.m.present == s.h.consumes)
    && ((s.p.pc.PEnd? || s.p.pc.PExchange?) ==> s.p.reg == s.h.produces)
    && ((s.c.pc.CEnd? || s.c.pc.CExchange?) ==> s.c.reg == s.h.consumes)
  }

  /** How far the destructor has come, and what it waits for. */
  ghost predicate Stopping(s: State) {
    && s.m.stop == (s.mpc != MRunning)
    && (s.p.pc == PExit ==> s.m.stop)
    && ((s.mpc.MClear? || s.mpc.MJoinConsumer? || s.mpc.MDone?) ==> s.p.pc == PExit)
    && (Cleared(s) && (s.c.pc.CBegin? || s.c.pc.CEnd? || s.c.pc.CSpin?) ==> !s.m.stale)
    && (s.c.pc == CExit ==> s.m.stop)
    && (s.mpc == MDone ==> s.c.pc == CExit)
    && (s.h.late ==> Cleared(s) && (s.c.pc.CStore? || s.c.pc.CTest? || s.c.pc.CExit?))
  }

  /** What the buffers hold. */
  ghost predicate Filled(s: State) {
    && Shaped(s)
    && (s.h.source == FromStart <==> s.h.published == 0 && s.h.given == s.h.consumes)
    && (s.h.source == FromProducer ==> s.m.bufs[s.m.ready] == Full(s.h.published))
    && (s.h.source == FromConsumer ==>
          s.m.ready == s.h.given && s.m.bufs[s.m.ready].Full? && s.m.bufs[s.m.ready].version <= s.h.published)
    && (!s.h.late ==> s.m.bufs[s.h.consumes].Full? && s.m.bufs[s.h.consumes].version <= s.h.published)
    && ((s.p.pc.PLoad? || s.p.pc.PExchange?) ==> s.m.bufs[s.h.produces] == Full(s.h.published + 1))
    && (s.h.source == FromStart ==> (!s.m.stale || ConsumerInWindow(s) ==> Cleared(s)))
    && (ProducerInWindow(s) ==> s.h.source != FromStart)
  }

  /** What was handed to `consume`; the buffer does not change while `consume` runs. */
  ghost predicate Delivered(s: State)
    requires Shaped(s)
  {
    && (forall i :: 0 <= i < |s.h.consumed| ==> s.h.consumed[i].Full?)
    && (s.c.pc == CEnd ==> s.h.consumed != [] && s.h.consumed[|s.h.consumed| - 1] == s.m.bufs[s.c.reg])
  }

  ghost predicate Inv(s: State) {
    Owned(s) && Stopping(s) && Filled(s) && Delivered(s)
  }

  lemma KeepsOwned(s: State, t: Thread)
    requires Shaped(s) && Owned(s)
    ensures Owned(Step(s, t))
  {
  }

  lemma KeepsStopping(s: State, t: Thread)
    requires Shaped(s) && Stopping(s)
    ensures Stopping(Step(s, t))
  {
  }

  lemma ProducerKeepsFilled(s: State)
    requires Inv(s)
    ensures Filled(ProducerStep(s))
  {
    hide Delivered;
  }

  lemma ConsumerKeepsFilled(s: State)
    requires Inv(s)
    ensures Filled(ConsumerStep(s))
  {
    hide Delivered;
  }

  lemma MainKeepsFilled(s: State)
    requires Inv(s)
    ensures Filled(MainStep(s))
  {
  }

  lemma KeepsDelivered(s: State, t: Thread)
    requires Inv(s)
    ensures Delivered(Step(s, t))
  {
  }

  lemma StepKeepsInv(s: State, t: Thread)
    requires Inv(s)
    ensures Inv(Step(s, t))
  {
    assert Shaped(s);
    hide Owned, Stopping, Delivered, Filled;
    KeepsDelivered(s, t);
    KeepsOwned(s, t);
    KeepsStopping(s, t);
    match t
    case Producer => ProducerKeepsFilled(s);
    case Consumer => ConsumerKeepsFilled(s);
    case Main => MainKeepsFilled(s);
  }

  lemma StartIsGood()
    ensures Inv(START)
  {
  }

  lemma {:induction false} InvHolds(schedule: seq<Thread>)
    ensures Inv(Run(schedule))
  {
    hide Inv, Step;
    if schedule == [] {
      StartIsGood();
    } else {
      var s := Run(schedule[..|schedule| - 1]);
      InvHolds(schedule[..|schedule| - 1]);
      StepKeepsInv(s, schedule[|schedule| - 1]);
    }
  }

  /**
   Ownership: at every moment of every run the three roles are three different buffers, `produce` and
   `consume` never work on one buffer, and everything consumed was completely produced.
   */
  lemma Ownership(schedule: seq<Thread>)
    ensures var s := Run(schedule);
            && s.h.produces != s.m.ready && s.m.ready != s.h.consumes && s.h.consumes != s.h.produces
            && (s.p.pc == PEnd ==> s.p.reg == s.h.produces)
            && (s.c.pc == CEnd ==> s.c.reg == s.h.consumes && s.m.bufs[s.c.reg].Full?)
            && (s.p.pc == PEnd && s.c.pc == CEnd ==> s.p.reg != s.c.reg)
            && forall i :: 0 <= i < |s.h.consumed| ==> s.h.consumed[i].Full?
  {
    InvHolds(schedule);
  }

  /**
   What a consumer swap takes, in every run: the newest publication, or the very buffer it gave up in
   its previous swap. The buffer nobody filled is only taken after the destructor's `clear`.
   */
  lemma SwapTakes(schedule: seq<Thread>)
    requires Run(schedule).c.pc == CExchange
    ensures var s := Run(schedule);
            match s.h.source
            case FromProducer => s.m.bufs[s.m.ready] == Full(s.h.published)
            case FromConsumer => s.m.ready == s.h.given
            case FromStart => s.h.published == 0 && Cleared(s)
  {
    InvHolds(schedule);
  }

  /** A swap after the destructor's `clear` is the last thing the consumer does: it consumes nothing more. */
  lemma {:induction false} LateSwapIsNotConsumed(schedule: seq<Thread>, more: seq<Thread>)
    requires Run(schedule).h.late
    ensures Run(schedule + more).h.late && Run(schedule + more).h.consumed == Run(schedule).h.consumed
  {
    if more == [] {
      assert schedule + more == schedule;
    } else {
      var t := more[|more| - 1];
      var before := schedule + more[..|more| - 1];
      assert schedule + more == before + [t];
      RunAppend(before, t);
      LateSwapIsNotConsumed(schedule, more[..|more| - 1]);
      InvHolds(before);
    }
  }

  lemma RunAppend(schedule: seq<Thread>, t: Thread)
    ensures Run(schedule + [t]) == Step(Run(schedule), t)
  {
    assert (schedule + [t])[..|schedule|] == schedule;
  }

  // ---------- freshness ----------

  predicate Overlap(s: State) {
    ProducerInWindow(s) && ConsumerInWindow(s)
  }

  ghost predicate NeverOverlaps(schedule: seq<Thread>) {
    forall n :: 0 <= n <= |schedule| ==> !Overlap(Run(schedule[..n]))
  }

  /** Versions go strictly up. */
  ghost predicate Rising(consumed: seq<Content>) {
    && (forall i :: 0 <= i < |consumed| ==> consumed[i].Full?)
    && forall i, j :: 0 <= i < j < |consumed| ==> consumed[i].version < consumed[j].version
  }

  /** Without overlap, a clear flag or an open window means that `ready` is newer than what the consumer has. */
  ghost predicate Fresh(s: State)
    requires Inv(s)
  {
    && (!Cleared(s) && (!s.m.stale || ConsumerInWindow(s)) ==> s.h.source == FromProducer)
    && (!Cleared(s) && ConsumerInWindow(s) ==> s.m.stale)
    && (ProducerInWindow(s) ==> s.h.source == FromProducer)
    && (!s.h.late && s.h.source == FromProducer ==> s.m.bufs[s.h.consumes].version < s.h.published)
  }

  /** The last version consumed, against the one the consumer holds. */
  ghost predicate InOrder(s: State)
    requires Inv(s)
  {
    var n := |s.h.consumed|;
    && Rising(s.h.consumed)
    && (s.c.pc.CEnd? || s.c.pc.CSpin? || ConsumerInWindow(s) ==> n > 0 && s.h.consumed[n - 1] == s.m.bufs[s.h.consumes])
    && (!s.h.late && (s.c.pc.CStore? || s.c.pc.CTest? || s.c.pc.CBegin?) && n > 0 ==>
          s.h.consumed[n - 1].version < s.m.bufs[s.h.consumes].version)
  }

  lemma ProducerKeepsFresh(s: State)
    requires Inv(s) && Fresh(s) && !Overlap(s) && Inv(ProducerStep(s))
    ensures Fresh(ProducerStep(s))
  {
  }

  lemma ConsumerKeepsFresh(s: State)
    requires Inv(s) && Fresh(s) && !Overlap(s) && Inv(ConsumerStep(s))
    ensures Fresh(ConsumerStep(s))
  {
  }

  lemma KeepsFresh(s: State, t: Thread)
    requires Inv(s) && Fresh(s) && !Overlap(s) && Inv(Step(s, t))
    ensures Fresh(Step(s, t))
  {
    match t
    case Producer => ProducerKeepsFresh(s);
    case Consumer => ConsumerKeepsFresh(s);
    case Main =>
  }

  lemma RisingAppend(consumed: seq<Content>, c: Content)
    requires Rising(consumed) && c.Full?
    requires consumed != [] ==> consumed[|consumed| - 1].version < c.version
    ensures Rising(consumed + [c])
  {
  }

  lemma ConsumerKeepsInOrder(s: State)
    requires Inv(s) && Fresh(s) && InOrder(s) && Inv(ConsumerStep(s))
    ensures InOrder(ConsumerStep(s))
  {
    hide Rising;
    if s.c.pc == CBegin {
      RisingAppend(s.h.consumed, s.m.bufs[s.m.present]);
    }
  }

  /** The other threads do not touch the consumer, its history or its buffer. */
  lemma ConsumerUntouched(s: State, t: Thread)
    requires Inv(s) && t != Consumer
    ensures var s' := Step(s, t);
            && s'.c == s.c && s'.h.consumed == s.h.consumed && s'.h.consumes == s.h.consumes && s'.h.late == s.h.late
            && s'.m.bufs[s.h.consumes] == s.m.bufs[s.h.consumes]
  {
  }

  lemma KeepsInOrder(s: State, t: Thread)
    requires Inv(s) && Fresh(s) && InOrder(s) && Inv(Step(s, t))
    ensures InOrder(Step(s, t))
  {
    if t == Consumer {
      ConsumerKeepsInOrder(s);
    } else {
      hide Rising, ProducerStep, MainStep, Inv, Fresh;
      ConsumerUntouched(s, t);
    }
  }

  lemma {:induction false} FreshHolds(schedule: seq<Thread>)
    requires NeverOverlaps(schedule)
    ensures Inv(Run(schedule)) && Fresh(Run(schedule)) && InOrder(Run(schedule))
  {
    InvHolds(schedule);
    if schedule != [] {
      var before, t := schedule[..|schedule| - 1], schedule[|schedule| - 1];
      assert forall n :: 0 <= n <= |before| ==> before[..n] == schedule[..n];
      assert before == schedule[..|before|];
      FreshHolds(before);
      FreshStep(Run(before), t);
    }
  }

  lemma FreshStep(s: State, t: Thread)
    requires Inv(s) && Fresh(s) && InOrder(s) && !Overlap(s) && Inv(Step(s, t))
    ensures Fresh(Step(s, t)) && InOrder(Step(s, t))
  {
    hide Inv, Fresh, InOrder, Step;
    KeepsFresh(s, t);
    KeepsInOrder(s, t);
  }

  /**
   Freshness: in a run whose windows never overlap, the versions consumed go strictly up, and before the
   destructor's `clear` every swap takes a version published since the swap before it.
   */
  lemma FreshWithoutOverlap(schedule: seq<Thread>)
    requires NeverOverlaps(schedule)
    ensures var s := Run(schedule);
            && Rising(s.h.consumed)
            && (s.c.pc == CExchange && !Cleared(s) ==>
                  && s.h.source == FromProducer
                  && s.m.bufs[s.m.ready] == Full(s.h.published)
                  && s.h.consumed != []
                  && s.h.consumed[|s.h.consumed| - 1].version < s.h.published)
  {
    FreshHolds(schedule);
  }

  // ---------- where the windows overlap, freshness is lost ----------

  /** The consumer is about to swap although nothing was published since its previous swap. */
  predicate StaleSwap(s: State) {
    s.c.pc == CExchange && !Cleared(s) && s.h.source == FromConsumer
  }

  lemma Then(w: seq<Thread>, t: Thread) returns (w': seq<Thread>)
    ensures w <= w' && Run(w') == Step(Run(w), t)
  {
    w' := w + [t];
    RunAppend(w, t);
  }

  lemma FinishSwap(w: seq<Thread>) returns (w': seq<Thread>)
    requires ConsumerInWindow(Run(w))
    ensures w <= w'
    ensures var s, s' := Run(w), Run(w');
            && s'.c.pc == CTest && s'.h.source == FromConsumer
            && s'.p == s.p && s'.mpc == s.mpc && s'.m.stop == s.m.stop
  {
    w' := w;
    if Run(w).c.pc == CLoad {
      w' := Then(w', Consumer);
    }
    w' := Then(w', Consumer);
    w' := Then(w', Consumer);
  }

  lemma FinishClear(w: seq<Thread>) returns (w': seq<Thread>)
    requires ProducerInWindow(Run(w))
    ensures w <= w'
    ensures var s, s' := Run(w), Run(w');
            !s'.m.stale && s'.c == s.c && s'.h == s.h && s'.mpc == s.mpc && s'.m.stop == s.m.stop
  {
    w' := w;
    if Run(w).p.pc == PStore {
      w' := Then(w', Producer);
    }
    w' := Then(w', Producer);
  }

  lemma OnceAround(w: seq<Thread>) returns (w': seq<Thread>)
    requires var s := Run(w); s.c.pc == CTest && !s.m.stop && !s.m.stale
    ensures w <= w'
    ensures var s, s' := Run(w), Run(w'); s'.c.pc == CExchange && s'.h.source == s.h.source && s'.mpc == s.mpc
  {
    w' := Then(w, Consumer);
    w' := Then(w', Consumer);
    w' := Then(w', Consumer);
    w' := Then(w', Consumer);
    w' := Then(w', Consumer);
  }

  /** Every reachable overlap, before `stop`, can be continued to a swap with nothing new to take. */
  lemma OverlapGoesStale(schedule: seq<Thread>) returns (w: seq<Thread>)
    requires Overlap(Run(schedule)) && !Run(schedule).m.stop
    ensures schedule <= w && StaleSwap(Run(w))
  {
    InvHolds(schedule);
    assert Run(schedule).mpc == MRunning;
    hide Run, Inv;
    w := FinishSwap(schedule);
    w := FinishClear(w);
    w := OnceAround(w);
  }

  /** Step `m` of the schedule is a consumer swap. */
  predicate SwapsAt(schedule: seq<Thread>, m: nat) {
    m < |schedule| && schedule[m] == Consumer && Run(schedule[..m]).c.pc == CExchange
  }

  /** The consumer's window is open and has seen an overlap. */
  predicate WindowOverlapped(w: seq<Thread>) {
    ConsumerInWindow(Run(w)) && (Overlap(Run(w)) || (w != [] && WindowOverlapped(w[..|w| - 1])))
  }

  /** The window that the last swap closed had seen an overlap. */
  predicate SwapOverlapped(w: seq<Thread>) {
    && w != []
    && var before := w[..|w| - 1];
       if SwapsAt(w, |w| - 1) then WindowOverlapped(before) else SwapOverlapped(before)
  }

  /** Only an overlap clears the flag inside the window, or after a swap that left nothing new. */
  ghost predicate Blamed(s: State, window: bool, swap: bool) {
    && (Overlap(s) ==> window)
    && (!Cleared(s) && ConsumerInWindow(s) && !s.m.stale ==> window)
    && (!Cleared(s) && ConsumerInWindow(s) && s.h.source == FromConsumer ==> swap)
    && (!Cleared(s) && !ConsumerInWindow(s) && s.h.source == FromConsumer && (!s.m.stale || ProducerInWindow(s)) ==> swap)
  }

  lemma BlamedStep(s: State, t: Thread, window: bool, swap: bool)
    requires Inv(s) && Blamed(s, window, swap)
    ensures var s' := Step(s, t);
            Blamed(s', ConsumerInWindow(s') && (Overlap(s') || window), if t == Consumer && s.c.pc == CExchange then window else swap)
  {
  }

  lemma {:induction false} BlamedHolds(w: seq<Thread>)
    ensures Blamed(Run(w), WindowOverlapped(w), SwapOverlapped(w))
  {
    if w != [] {
      var before, t := w[..|w| - 1], w[|w| - 1];
      assert w == before + [t];
      BlamedHolds(before);
      RunAppend(before, t);
      InvHolds(before);
      hide Run, Inv, Step, Blamed;
      BlamedStep(Run(before), t, WindowOverlapped(before), SwapOverlapped(before));
    }
  }

  lemma {:induction false} WindowCause(w: seq<Thread>) returns (n: nat)
    requires WindowOverlapped(w)
    ensures n <= |w| && Overlap(Run(w[..n]))
    ensures forall k :: n <= k <= |w| ==> ConsumerInWindow(Run(w[..k]))
  {
    hide Run, Overlap, ConsumerInWindow;
    n := |w|;
    assert w[..n] == w;
    if !Overlap(Run(w)) {
      var before := w[..|w| - 1];
      n := WindowCause(before);
      assert forall k :: 0 <= k <= |before| ==> before[..k] == w[..k];
    }
  }

  lemma {:induction false} SwapCause(w: seq<Thread>) returns (n: nat, m: nat)
    requires SwapOverlapped(w)
    ensures n <= m && SwapsAt(w, m) && (forall k :: m < k < |w| ==> !SwapsAt(w, k))
    ensures Overlap(Run(w[..n])) && forall k :: n <= k <= m ==> ConsumerInWindow(Run(w[..k]))
  {
    var before := w[..|w| - 1];
    assert forall k :: 0 <= k <= |before| ==> before[..k] == w[..k];
    hide Run, Overlap, ConsumerInWindow;
    if SwapsAt(w, |w| - 1) {
      n := WindowCause(before);
      m := |w| - 1;
    } else {
      n, m := SwapCause(before);
      assert forall k: nat :: k < |before| ==> (SwapsAt(w, k) <==> SwapsAt(before, k));
    }
  }

  /**
   The cause of a stale swap, in every run: step `m` is the swap just before it, and in the window of that swap,
   from state `n` on, the windows of the two threads overlapped.
   */
  lemma StaleSwapHasCause(schedule: seq<Thread>) returns (n: nat, m: nat)
    requires StaleSwap(Run(schedule))
    ensures n <= m && SwapsAt(schedule, m) && (forall k :: m < k < |schedule| ==> !SwapsAt(schedule, k))
    ensures Overlap(Run(schedule[..n])) && forall k :: n <= k <= m ==> ConsumerInWindow(Run(schedule[..k]))
  {
    BlamedHolds(schedule);
    hide Run;
    n, m := SwapCause(schedule);
  }

  lemma StaleRunFirst() returns (w: seq<Thread>)
    ensures Run(w) == State(Memory([Full(0), Raw, Full(1)], 0, 2, 1, false, false),
                            ProducerThread(PTest, 1), ConsumerThread(CTest, 0), MRunning,
                            History(1, 0, FromProducer, 1, 0, false, []))
  {
    w := NoSteps();
    hide Run;
    w := Then(w, Producer);
    w := Then(w, Producer);
    w := Then(w, Producer);
    w := Then(w, Producer);
    w := Then(w, Producer);
    w := Then(w, Producer);
    w := Then(w, Producer);
  }

  lemma NoSteps() returns (w: seq<Thread>)
    ensures Run(w) == State(Memory([Full(0), Raw, Raw], 0, 1, 2, false, true),
                            ProducerThread(PTest, 2), ConsumerThread(CTest, 0), MRunning,
                            History(2, 0, FromStart, 0, 0, false, []))
  {
    w := [];
  }

  /** Version 1 is published, and the consumer, done with version 0, has passed the flag. */
  lemma StaleRunStart() returns (w: seq<Thread>)
    ensures Run(w) == State(Memory([Full(0), Raw, Full(1)], 0, 2, 1, false, true),
                            ProducerThread(PTest, 1), ConsumerThread(CLoad, 0), MRunning,
                            History(1, 0, FromProducer, 1, 0, false, [Full(0)]))
  {
    hide Run;
    w := StaleRunFirst();
    w := Then(w, Consumer);
    w := Then(w, Consumer);
    w := Then(w, Consumer);
    w := Then(w, Consumer);
  }

  /** Version 2 is published, and the consumer swaps before the producer clears the flag. */
  lemma StaleRunMiddle() returns (w: seq<Thread>)
    ensures Run(w) == State(Memory([Full(0), Full(2), Full(1)], 1, 0, 2, false, false),
                            ProducerThread(PTest, 2), ConsumerThread(CTest, 1), MRunning,
                            History(2, 1, FromConsumer, 2, 0, false, [Full(0)]))
  {
    hide Run;
    w := StaleRunStart();
    w := Then(w, Producer);
    w := Then(w, Producer);
    w := Then(w, Producer);
    w := Then(w, Producer);
    w := Then(w, Producer);
    w := Then(w, Consumer);
    w := Then(w, Consumer);
    w := Then(w, Consumer);
    w := Then(w, Producer);
    w := Then(w, Producer);
  }

  /** A run that hands version 0, then version 2, then version 0 again to `consume`. */
  lemma StaleRun() returns (w: seq<Thread>)
    ensures Run(w).h.consumed == [Full(0), Full(2), Full(0)]
  {
    hide Run;
    w := StaleRunMiddle();
    w := Then(w, Consumer);
    w := Then(w, Consumer);
    w := Then(w, Consumer);
    w := Then(w, Consumer);
    w := Then(w, Consumer);
    w := Then(w, Consumer);
    w := Then(w, Consumer);
    w := Then(w, Consumer);
    w := Then(w, Consumer);
  }

  /** A run in which the destructor's `clear` lets the consumer swap although nothing was ever published. */
  lemma UnfilledSwapRun() returns (w: seq<Thread>)
    ensures var s := Run(w);
            && s.c.pc == CExchange && Cleared(s) && s.h.source == FromStart && s.m.bufs[s.m.ready] == Raw
            && var s' := Step(s, Consumer); s'.m.bufs[s'.c.reg] == Raw
  {
    hide Run;
    w := NoSteps();
    w := Then(w, Consumer);
    w := Then(w, Consumer);
    w := Then(w, Consumer);
    w := Then(w, Main);
    w := Then(w, Producer);
    w := Then(w, Main);
    w := Then(w, Main);
    w := Then(w, Consumer);
    w := Then(w, Consumer);
  }

  // ---------- shutdown ----------

  function ProducerRank(pc: ProducerPc): nat {
    match pc
    case PExit => 0 case PTest => 1 case PClear => 2 case PStore => 3
    case PExchange => 4 case PLoad => 5 case PEnd => 6 case PBegin => 7
  }

  function ConsumerRank(pc: ConsumerPc): nat {
    match pc
    case CExit => 0 case CTest => 1 case CStore => 2 case CExchange => 3
    case CLoad => 4 case CSpin => 5 case CEnd => 6 case CBegin => 7
  }

  function MainRank(pc: MainPc): nat {
    match pc
    case MDone => 0 case MJoinConsumer => 1 case MClear => 2 case MJoinProducer => 3 case MRunning => 4
  }

  /** How many steps are left at most, once `stop` is set. */
  function Rank(s: State): nat {
    ProducerRank(s.p.pc) + ConsumerRank(s.c.pc) + MainRank(s.mpc)
  }

  /**
   Once `stop` is set every step counts down, except a spin or a wait, which change nothing; after the
   destructor's `clear` the consumer does not spin any more.
   */
  lemma StepCountsDown(s: State, t: Thread)
    requires Inv(s) && s.m.stop
    ensures var s' := Step(s, t); s'.m.stop && (s' == s || Rank(s') < Rank(s))
    ensures Cleared(s) && s.c.pc != CExit ==> Rank(Step(s, Consumer)) < Rank(s)
  {
  }

  /** Until the destructor has returned, some thread can move. */
  lemma SomeThreadMoves(s: State) returns (t: Thread)
    requires Inv(s) && s.m.stop && s.mpc != MDone
    ensures Rank(Step(s, t)) < Rank(s)
  {
    t := if s.p.pc != PExit then Producer
    else if s.mpc == MJoinProducer || s.mpc == MClear then Main
    else if s.c.pc != CExit then Consumer
    else Main;
  }

  lemma {:induction false} CountsDown(w: seq<Thread>, ts: seq<Thread>)
    requires Run(w).m.stop
    ensures Run(w + ts).m.stop && Rank(Run(w + ts)) <= Rank(Run(w))
  {
    if ts == [] {
      assert w + ts == w;
    } else {
      var front, t := ts[..|ts| - 1], ts[|ts| - 1];
      assert w + ts == w + front + [t];
      CountsDown(w, front);
      RunAppend(w + front, t);
      InvHolds(w + front);
      hide Run, Inv, Step;
      StepCountsDown(Run(w + front), t);
    }
  }

  lemma {:induction false} MoverMoves(w: seq<Thread>, ts: seq<Thread>, t: Thread)
    requires Run(w).m.stop && t in ts && Rank(Step(Run(w), t)) < Rank(Run(w))
    ensures Rank(Run(w + ts)) < Rank(Run(w))
    decreases |ts|
  {
    assert w + ts == w + [ts[0]] + ts[1..];
    RunAppend(w, ts[0]);
    InvHolds(w);
    hide Run, Inv, Step;
    StepCountsDown(Run(w), ts[0]);
    if Run(w + [ts[0]]) == Run(w) {
      MoverMoves(w + [ts[0]], ts[1..], t);
    } else {
      CountsDown(w + [ts[0]], ts[1..]);
    }
  }

  ghost predicate FairRound(ts: seq<Thread>) {
    Producer in ts && Consumer in ts && Main in ts
  }

  /**
   Shutdown terminates: from any reachable state in which `stop` is set, whatever the schedule, once every
   thread has been scheduled in each of `Rank` rounds the destructor has returned.
   */
  lemma {:induction false} ShutdownTerminates(schedule: seq<Thread>, rounds: seq<seq<Thread>>)
    requires Run(schedule).m.stop && |rounds| >= Rank(Run(schedule))
    requires forall r :: r in rounds ==> FairRound(r)
    ensures Run(schedule + Concat(rounds)).mpc == MDone
    decreases |rounds|
  {
    InvHolds(schedule);
    if Run(schedule).mpc == MDone {
      CountsDown(schedule, Concat(rounds));
    } else {
      hide Run, Inv;
      var t := SomeThreadMoves(Run(schedule));
      var r, rest := rounds[0], rounds[1..];
      assert r in rounds && schedule + Concat(rounds) == schedule + r + Concat(rest);
      MoverMoves(schedule, r, t);
      CountsDown(schedule, r);
      ShutdownTerminates(schedule + r, rest);
    }
  }
}
