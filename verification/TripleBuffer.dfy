/**
 The triple buffer used as a register by one storing and one loading thread
 (cpp_practices/lock_free_structure/include/triple_buffer.h), one whole operation at a time.
 */
module TripleBuffer {
  import opened Basics

  /** What a caller can observe: the last stored value, the one the next `instant_load` returns, and the flag. */
  datatype Register<T> = Register(latest: T, seen: T, pending: bool) {

    function Stored(v: T): Register<T> {
      Register(v, seen, true)
    }

    function Loaded(): Register<T> {
      Register(latest, latest, false)
    }
  }

  class TripleBuffer<T> {
    // The pointers are positions in `bufs`.
    const bufs: array<T>
    var present: nat
    var ready: nat
    var inprogress: nat
    var stale: bool

    ghost predicate Valid()
      reads this
    {
      && bufs.Length == 3
      && present < 3 && ready < 3 && inprogress < 3
      && present != ready && ready != inprogress && inprogress != present
    }

    ghost function Abstract(): Register<T>
      requires Valid()
      reads this, bufs
    {
      Register(if stale then bufs[present] else bufs[ready], bufs[present], !stale)
    }

    /** Both constructors: the default one passes `T{}`. */
    constructor (val: T)
      ensures Valid() && fresh(bufs)
      ensures Abstract() == Register(val, val, true)
    {
      bufs := new T[3](_ => val);
      present, ready, inprogress := 0, 1, 2;
      stale := false;
    }

    method Store(val: T)
      requires Valid()
      modifies this, bufs
      ensures Valid()
      ensures Abstract() == old(Abstract()).Stored(val)
    {
      bufs[inprogress] := val;
      inprogress, ready := ready, inprogress;
      stale := false;
    }

    /** The spin ends only while the flag is clear. */
    method WaitLoad() returns (val: T)
      requires Valid() && Abstract().pending
      modifies this
      ensures Valid()
      ensures val == old(Abstract()).latest
      ensures Abstract() == old(Abstract()).Loaded()
    {
      stale := true;
      present, ready := ready, present;
      val := bufs[present];
    }

    method InstantLoad() returns (val: T)
      requires Valid()
      modifies this
      ensures Valid()
      ensures val == old(Abstract()).seen
      ensures Abstract() == old(Abstract()).Loaded()
    {
      val := bufs[present];
      var wasStale := stale;
      stale := true;
      if !wasStale {
        present, ready := ready, present;
      }
    }
  }

  // ---------- whole histories of operations ----------

  datatype Op<T> = Store(v: T) | WaitLoad | InstantLoad

  function Apply<T>(r: Register<T>, op: Op<T>): Register<T> {
    if op.Store? then r.Stored(op.v) else r.Loaded()
  }

  function After<T>(init: T, ops: seq<Op<T>>): Register<T> {
    if ops == [] then Register(init, init, true)
    else Apply(After(init, ops[..|ops| - 1]), ops[|ops| - 1])
  }

  /** The last value stored by the operations, or the initial one. */
  function LastStored<T>(init: T, ops: seq<Op<T>>): T {
    if ops == [] then init
    else if ops[|ops| - 1].Store? then ops[|ops| - 1].v
    else LastStored(init, ops[..|ops| - 1])
  }

  /** The operations up to and including the last load; none if there is no load. */
  function UpToLastLoad<T>(ops: seq<Op<T>>): (p: seq<Op<T>>)
    ensures p <= ops
  {
    if ops == [] || !ops[|ops| - 1].Store? then ops else UpToLastLoad(ops[..|ops| - 1])
  }

  predicate HasLoad<T>(ops: seq<Op<T>>) {
    exists i :: 0 <= i < |ops| && !ops[i].Store?
  }

  /**
   After any operations: `wait_load` returns the last value stored, `instant_load` the value that was last
   stored as of the previous load, and `wait_load` can return exactly when there was no load yet or
   something was stored since the last one.
   */
  lemma {:induction false} RegisterHistory<T>(init: T, ops: seq<Op<T>>)
    ensures var r := After(init, ops);
            && r.latest == LastStored(init, ops)
            && r.seen == LastStored(init, UpToLastLoad(ops))
            && (r.pending <==> !HasLoad(ops) || UpToLastLoad(ops) != ops)
  {
    if ops != [] {
      var before := ops[..|ops| - 1];
      RegisterHistory(init, before);
      assert forall i :: 0 <= i < |before| ==> before[i] == ops[i];
    }
  }

  /** Every `wait_load` comes at a time when it can return. */
  ghost predicate Enabled<T>(init: T, ops: seq<Op<T>>) {
    forall n :: 0 <= n < |ops| && ops[n].WaitLoad? ==> After(init, ops[..n]).pending
  }

  /** What operation `n` returns, told from the values stored before it. */
  function Answer<T>(init: T, ops: seq<Op<T>>, n: nat): Option<T>
    requires n < |ops|
  {
    match ops[n]
    case Store(_) => None
    case WaitLoad => Some(LastStored(init, ops[..n]))
    case InstantLoad => Some(LastStored(init, UpToLastLoad(ops[..n])))
  }

  /** The operations on one object: what they return and where they leave it. */
  method Replay<T>(init: T, ops: seq<Op<T>>) returns (b: TripleBuffer<T>, answers: seq<Option<T>>)
    requires Enabled(init, ops)
    ensures b.Valid() && b.Abstract() == After(init, ops)
    ensures |answers| == |ops| && forall n :: 0 <= n < |ops| ==> answers[n] == Answer(init, ops, n)
  {
    b := new TripleBuffer(init);
    answers := [];
    for k := 0 to |ops|
      invariant fresh(b) && fresh(b.bufs) && b.Valid() && b.Abstract() == After(init, ops[..k])
      invariant |answers| == k && forall n :: 0 <= n < k ==> answers[n] == Answer(init, ops, n)
    {
      RegisterHistory(init, ops[..k]);
      assert ops[..k + 1][..k] == ops[..k];
      match ops[k] {
        case Store(v) =>
          b.Store(v);
          answers := answers + [None];
        case WaitLoad =>
          var val := b.WaitLoad();
          answers := answers + [Some(val)];
        case InstantLoad =>
          var val := b.InstantLoad();
          answers := answers + [Some(val)];
      }
    }
    assert ops[..|ops|] == ops;
  }
}
