/**
 Reservoir sampling (cpp_practices/tricks/src/reservoir_sampling.cpp).

 The random draw `distrib() % (i + 1)` is a free choice from 0..i: a run is given by the
 sequence of its choices for i = k, k + 1, ..., n - 1.
 */
module Reservoir {
  import opened Basics

  /** The position of the first `v` in `s`, or `|s|`. */
  function Find(s: seq<int>, v: int): (p: nat)
    ensures p <= |s| && v !in s[..p]
    ensures p < |s| ==> s[p] == v
  {
    if s == [] || s[0] == v then 0 else 1 + Find(s[1..], v)
  }

  /** One round: the choice `j`, if the reservoir holds it, is overwritten by `i`. */
  function Round(reservoir: seq<int>, i: int, j: int): seq<int> {
    var p := Find(reservoir, j);
    if p < |reservoir| then reservoir[p := i] else reservoir
  }

  function Initial(k: nat): seq<int> {
    seq(k, i => i)
  }

  /** The reservoir after the rounds for `i = k .. k + |js| - 1`. */
  function Run(k: nat, js: seq<int>): seq<int> {
    if js == [] then Initial(k)
    else Round(Run(k, js[..|js| - 1]), k + |js| - 1, js[|js| - 1])
  }

  ghost predicate Legal(k: nat, js: seq<int>) {
    forall t :: 0 <= t < |js| ==> 0 <= js[t] <= k + t
  }

  ghost predicate Distinct(s: seq<int>) {
    forall a, b :: 0 <= a < b < |s| ==> s[a] != s[b]
  }

  ghost function Elements(s: seq<int>): set<int> {
    set x | x in s
  }

  method FirstItems(k: nat) returns (reservoir: array<int>)
    ensures fresh(reservoir) && reservoir[..] == Initial(k)
    ensures reservoir.Length == k && forall p :: 0 <= p < k ==> reservoir[p] == p
  {
    reservoir := new int[k];
    for i := 0 to k
      invariant forall a :: 0 <= a < i ==> reservoir[a] == a
    {
      reservoir[i] := i;
    }
  }

  /** `std::find` followed by the assignment through the iterator it returns. */
  method ReplaceFirst(reservoir: array<int>, j: int, i: int)
    modifies reservoir
    ensures reservoir[..] == Round(old(reservoir[..]), i, j)
  {
    var p := 0;
    while p < reservoir.Length && reservoir[p] != j
      invariant 0 <= p <= reservoir.Length && j !in reservoir[..p]
    {
      p := p + 1;
    }
    assert Find(reservoir[..], j) == p;
    if p < reservoir.Length {
      reservoir[p] := i;
    }
  }

  /** Item by item: position `p` holds `p` until a round draws what it holds, and then that round's item. */
  function ItemAt(k: nat, js: seq<int>, p: nat): int {
    if js == [] then p
    else
      var held := ItemAt(k, js[..|js| - 1], p);
      if held == js[|js| - 1] then k + |js| - 1 else held
  }

  lemma {:induction false} RunIsItems(k: nat, js: seq<int>)
    ensures |Run(k, js)| == k && forall p :: 0 <= p < k ==> Run(k, js)[p] == ItemAt(k, js, p)
  {
    if js != [] {
      RunIsItems(k, js[..|js| - 1]);
      RunIsDistinct(k, js[..|js| - 1]);
    }
  }

  /** A negative `k` makes the vector's constructor throw. */
  method Sample(n: int, k: int, js: seq<int>) returns (r: Option<seq<int>>)
    requires |js| == if 0 <= k <= n then n - k else 0
    ensures r == if k < 0 then None else Some(Run(k, js))
    ensures k >= 0 ==> |r.value| == k && forall p :: 0 <= p < k ==> r.value[p] == ItemAt(k, js, p)
  {
    if k < 0 {
      return None;
    }
    var reservoir := FirstItems(k);
    Rounds(reservoir, n, k, js);
    r := Some(reservoir[..]);
    hide Run, ItemAt;
    RunIsItems(k, js);
  }

  /** The second loop. */
  method Rounds(reservoir: array<int>, n: int, k: nat, js: seq<int>)
    requires reservoir[..] == Initial(k) && |js| == if k <= n then n - k else 0
    modifies reservoir
    ensures reservoir[..] == Run(k, js)
  {
    hide Run, Round, Initial;
    ghost var done: seq<int> := [];
    RunEmpty(k);
    var i: int := k;
    while i < n
      invariant k <= i && (i <= n || i == k)
      invariant |done| == i - k && done <= js
      invariant reservoir[..] == Run(k, done)
    {
      var j := js[i - k];
      RunAppend(k, done, j);
      ReplaceFirst(reservoir, j, i);
      done := done + [j];
      i := i + 1;
    }
    assert done == js;
  }

  lemma RunEmpty(k: nat)
    ensures Run(k, []) == Initial(k)
  {
  }

  lemma RunAppend(k: nat, js: seq<int>, j: int)
    ensures Run(k, js + [j]) == Round(Run(k, js), k + |js|, j)
  {
    assert (js + [j])[..|js|] == js;
  }

  /** The reservoir always holds `k` different values, all drawn from the items seen so far. */
  lemma {:induction false} RunIsDistinct(k: nat, js: seq<int>)
    ensures var s := Run(k, js);
            |s| == k && Distinct(s) && forall v :: v in s ==> 0 <= v < k + |js|
  {
    if js != [] {
      RunIsDistinct(k, js[..|js| - 1]);
      var before, i := Run(k, js[..|js| - 1]), k + |js| - 1;
      assert forall a :: 0 <= a < k ==> before[a] in before;
      assert forall v :: v in Run(k, js) ==> v in before || v == i;
    }
  }

  // ---------- uniformity: counting choice sequences ----------

  /** All choice sequences for `i = k .. n - 1`. */
  ghost function Choices(k: nat, n: nat): set<seq<int>>
    requires k <= n
  {
    if n == k then {[]} else set js, j | js in Choices(k, n - 1) && 0 <= j < n :: js + [j]
  }

  /** Those after which the reservoir holds exactly the set `s`. */
  ghost function Hits(k: nat, n: nat, s: set<int>): set<seq<int>>
    requires k <= n
  {
    set js | js in Choices(k, n) && Elements(Run(k, js)) == s
  }

  function Factorial(n: nat): nat {
    if n == 0 then 1 else n * Factorial(n - 1)
  }

  lemma {:induction false} ChoicesAreLegal(k: nat, n: nat, js: seq<int>)
    requires k <= n
    ensures js in Choices(k, n) <==> |js| == n - k && Legal(k, js)
  {
    if n > k {
      if js in Choices(k, n) {
        var js', j :| js' in Choices(k, n - 1) && 0 <= j < n && js == js' + [j];
        ChoicesAreLegal(k, n - 1, js');
      }
      if |js| == n - k && Legal(k, js) {
        var js', j := js[..|js| - 1], js[|js| - 1];
        ChoicesAreLegal(k, n - 1, js');
        assert js == js' + [j];
      }
    }
  }

  /** Seen as a set, a round trades `j` for `i`. */
  lemma RoundElements(s: seq<int>, i: int, j: int)
    requires Distinct(s)
    ensures Elements(Round(s, i, j)) == if j in s then Elements(s) - {j} + {i} else Elements(s)
  {
    var p := Find(s, j);
    if p < |s| {
      var s' := s[p := i];
      assert s'[p] == i;
      forall x | x in s && x != j
        ensures x in s'
      {
        var a :| 0 <= a < |s| && s[a] == x;
        assert s'[a] == x;
      }
    } else {
      assert s[..p] == s;
    }
  }

  ghost function EndingIn(h: set<seq<int>>, j: int): set<seq<int>> {
    set js | js in h && js != [] && js[|js| - 1] == j
  }

  /** A set is counted by the last elements of its sequences, when each accounts for `f` of them. */
  lemma {:induction false} CountByLast(h: set<seq<int>>, lasts: set<int>, f: nat)
    requires forall js :: js in h ==> js != [] && js[|js| - 1] in lasts
    requires forall j :: j in lasts ==> |EndingIn(h, j)| == f
    ensures |h| == |lasts| * f
  {
    if lasts == {} {
      assert h == {};
    } else {
      var j := Pick(lasts);
      var here := EndingIn(h, j);
      var rest, lasts' := h - here, lasts - {j};
      forall j' | j' in lasts'
        ensures |EndingIn(rest, j')| == f
      {
        assert EndingIn(rest, j') == EndingIn(h, j');
      }
      CountByLast(rest, lasts', f);
      assert |h| == |here| + |rest|;
      assert |lasts| == |lasts'| + 1;
    }
  }

  lemma Pick<T>(s: set<T>) returns (x: T)
    requires s != {}
    ensures x in s
  {
    x :| x in s;
  }

  /** Appending one choice to every sequence of a set does not change its size. */
  lemma {:induction false} AppendKeepsSize(a: set<seq<int>>, j: int)
    ensures |set js | js in a :: js + [j]| == |a|
  {
    if a != {} {
      var x :| x in a;
      var others := a - {x};
      AppendKeepsSize(others, j);
      var rest := set js | js in others :: js + [j];
      forall y | y in others
        ensures y + [j] != x + [j]
      {
        assert (y + [j])[..|y|] == y && (x + [j])[..|x|] == x;
      }
      assert (set js | js in a :: js + [j]) == rest + {x + [j]};
    }
  }

  ghost function Below(n: nat): (s: set<int>)
    ensures forall x :: x in s <==> 0 <= x < n
  {
    if n == 0 then {} else Below(n - 1) + {n - 1}
  }

  lemma {:induction false} BelowSize(n: nat)
    ensures |Below(n)| == n
  {
    if n > 0 {
      BelowSize(n - 1);
    }
  }

  lemma InitialElements(k: nat)
    ensures Elements(Run(k, [])) == Below(k)
  {
    assert forall x :: x in Below(k) ==> Initial(k)[x] == x;
    assert Below(k) <= Elements(Initial(k));
    assert Elements(Initial(k)) <= Below(k);
  }

  lemma FullSet(s: set<int>, n: nat)
    requires s <= Below(n) && |s| == n
    ensures s == Below(n)
  {
    BelowSize(n);
    assert |Below(n) - s| == 0;
  }

  /** The last choices that can lead to `s` in round `i`, and the set each must start from. */
  ghost function LastChoices(i: nat, s: set<int>): set<int> {
    if i in s then Below(i) - s else Below(i + 1) - s
  }

  ghost function SetBefore(i: nat, s: set<int>, j: int): set<int> {
    if i in s then s - {i} + {j} else s
  }

  lemma LastRound(k: nat, i: nat, s: set<int>, js: seq<int>, j: int)
    requires k <= i && js in Choices(k, i) && 0 <= j <= i
    ensures Elements(Run(k, js + [j])) == s <==> j in LastChoices(i, s) && Elements(Run(k, js)) == SetBefore(i, s, j)
  {
    ChoicesAreLegal(k, i, js);
    RunIsDistinct(k, js);
    RunAppend(k, js, j);
    RoundElements(Run(k, js), i, j);
    hide Run, Choices;
    assert forall x :: x in Elements(Run(k, js)) ==> 0 <= x < i;
  }

  lemma LastOfHit(k: nat, i: nat, s: set<int>, js: seq<int>)
    requires k <= i && js in Hits(k, i + 1, s)
    ensures js != [] && js[|js| - 1] in LastChoices(i, s)
    ensures js[..|js| - 1] in Hits(k, i, SetBefore(i, s, js[|js| - 1]))
  {
    var js', j :| js' in Choices(k, i) && 0 <= j <= i && js == js' + [j];
    assert js[..|js| - 1] == js';
    LastRound(k, i, s, js', j);
  }

  lemma HitExtends(k: nat, i: nat, s: set<int>, js: seq<int>, j: int)
    requires k <= i && j in LastChoices(i, s) && js in Hits(k, i, SetBefore(i, s, j))
    ensures js + [j] in Hits(k, i + 1, s)
  {
    LastRound(k, i, s, js, j);
    hide Run;
  }

  lemma FiberSize(k: nat, i: nat, s: set<int>, j: int)
    requires k <= i && j in LastChoices(i, s)
    ensures |EndingIn(Hits(k, i + 1, s), j)| == |Hits(k, i, SetBefore(i, s, j))|
  {
    hide Hits, LastChoices, SetBefore;
    var fiber := EndingIn(Hits(k, i + 1, s), j);
    var before := Hits(k, i, SetBefore(i, s, j));
    forall js | js in fiber
      ensures js[..|js| - 1] in before && js == js[..|js| - 1] + [j]
    {
      LastOfHit(k, i, s, js);
    }
    forall js | js in before
      ensures js + [j] in fiber
    {
      HitExtends(k, i, s, js, j);
    }
    assert fiber == set js | js in before :: js + [j];
    AppendKeepsSize(before, j);
  }

  /**
   Uniformity: every `k`-element subset of the first `n` items is the final reservoir for
   exactly (n - k)! of the choice sequences.
   */
  lemma {:induction false} Uniform(k: nat, n: nat, s: set<int>)
    requires k <= n && s <= Below(n) && |s| == k
    ensures |Hits(k, n, s)| == Factorial(n - k)
    decreases n, 1
  {
    if n == k {
      FullSet(s, n);
      InitialElements(k);
      assert Hits(k, n, s) == {[]};
    } else {
      UniformStep(k, n - 1, s);
    }
  }

  lemma {:induction false} UniformStep(k: nat, i: nat, s: set<int>)
    requires k <= i && s <= Below(i + 1) && |s| == k
    ensures |Hits(k, i + 1, s)| == Factorial(i + 1 - k)
    decreases i + 1, 0
  {
    hide Hits, EndingIn, LastChoices, SetBefore, Below;
    var lasts, f := LastChoices(i, s), Factorial(i - k);
    LastChoicesSize(i, s);
    forall j | j in lasts
      ensures |EndingIn(Hits(k, i + 1, s), j)| == f
    {
      FiberSize(k, i, s, j);
      SetBeforeSize(i, s, j);
      Uniform(k, i, SetBefore(i, s, j));
    }
    forall js | js in Hits(k, i + 1, s)
      ensures js != [] && js[|js| - 1] in lasts
    {
      LastOfHit(k, i, s, js);
    }
    CountByLast(Hits(k, i + 1, s), lasts, f);
  }

  lemma SetBeforeSize(i: nat, s: set<int>, j: int)
    requires s <= Below(i + 1) && j in LastChoices(i, s)
    ensures SetBefore(i, s, j) <= Below(i) && |SetBefore(i, s, j)| == |s|
  {
  }

  lemma LastChoicesSize(i: nat, s: set<int>)
    requires s <= Below(i + 1)
    ensures |LastChoices(i, s)| == i + 1 - |s|
  {
    BelowSize(i);
    BelowSize(i + 1);
    if i in s {
      assert Below(i) - s == Below(i) - (s - {i});
      assert |Below(i) - (s - {i})| == i - |s - {i}|;
    }
  }

  /** There are n! / k! choice sequences, so each subset has probability k! (n - k)! / n!. */
  lemma {:induction false} ChoicesCount(k: nat, n: nat)
    requires k <= n
    ensures |Choices(k, n)| * Factorial(k) == Factorial(n)
  {
    if n > k {
      var c := Choices(k, n - 1);
      ChoicesCount(k, n - 1);
      ChoicesStep(k, n);
      assert n * |c| * Factorial(k) == n * (|c| * Factorial(k));
    }
  }

  lemma ChoicesStep(k: nat, n: nat)
    requires k < n
    ensures |Choices(k, n)| == n * |Choices(k, n - 1)|
  {
    var c := Choices(k, n - 1);
    forall j | j in Below(n)
      ensures |EndingIn(Choices(k, n), j)| == |c|
    {
      assert EndingIn(Choices(k, n), j) == set js | js in c :: js + [j];
      AppendKeepsSize(c, j);
    }
    BelowSize(n);
    CountByLast(Choices(k, n), Below(n), |c|);
  }
}
