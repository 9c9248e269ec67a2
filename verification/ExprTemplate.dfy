/**
 Expression templates over arrays (cpp_practices/expression_templates/include): a sum or product of
 arrays is a tree, evaluated element by element while it is assigned.

 Arrays are numbered. A scalar operand is kept by reference (scaler.h), so it is a cell: a variable
 or temporary of its own, or an element of some array, possibly of the one assigned to.
 The element type and its two operations are parameters, so rounding and overflow are included.
 */
module ExprTemplate {
  import opened Basics

  datatype Algebra<!T> = Algebra(plus: (T, T) -> T, times: (T, T) -> T)

  datatype Op = Plus | Times

  datatype Expr = Leaf(a: nat) | Scalar(a: nat, k: nat) | Bin(op: Op, l: Expr, r: Expr)

  /** What the operators build: a scalar only ever stands on the left of an operator. */
  predicate Built(e: Expr) {
    match e
    case Leaf(_) => true
    case Scalar(_, _) => false
    case Bin(_, l, r) => (l.Scalar? || Built(l)) && Built(r)
  }

  /** The trees inside a tree, itself included. */
  function Inside(e: Expr): set<Expr> {
    match e
    case Leaf(_) => {e}
    case Scalar(_, _) => {e}
    case Bin(_, l, r) => {e} + Inside(l) + Inside(r)
  }

  lemma {:induction false} BuiltExactly(e: Expr)
    ensures e in Inside(e)
    ensures Built(e) <==> !e.Scalar? && forall f :: f in Inside(e) && f.Bin? ==> !f.r.Scalar?
  {
    match e
    case Leaf(_) =>
    case Scalar(_, _) =>
    case Bin(_, l, r) =>
      BuiltExactly(l);
      BuiltExactly(r);
  }

  function Apply<T>(alg: Algebra<T>, op: Op, x: T, y: T): T {
    if op == Plus then alg.plus(x, y) else alg.times(x, y)
  }

  /** Every read at index `i` is inside its array. */
  predicate InRange(e: Expr, lens: seq<nat>, i: nat) {
    match e
    case Leaf(a) => a < |lens| && i < lens[a]
    case Scalar(a, k) => a < |lens| && k < lens[a]
    case Bin(_, l, r) => InRange(l, lens, i) && InRange(r, lens, i)
  }

  /** All arrays of the tree exist and have `n` elements. */
  predicate AllOfLength(e: Expr, lens: seq<nat>, n: nat) {
    match e
    case Leaf(a) => a < |lens| && lens[a] == n
    case Scalar(a, k) => a < |lens| && k < lens[a]
    case Bin(_, l, r) => AllOfLength(l, lens, n) && AllOfLength(r, lens, n)
  }

  // ---------- `size()` and its assert ----------

  function Size(e: Expr, lens: seq<nat>): nat
    requires AllExist(e, lens)
  {
    match e
    case Leaf(a) => lens[a]
    case Scalar(_, _) => 0
    case Bin(_, l, r) => if Size(l, lens) == 0 then Size(r, lens) else Size(l, lens)
  }

  predicate AllExist(e: Expr, lens: seq<nat>) {
    match e
    case Leaf(a) => a < |lens|
    case Scalar(a, k) => a < |lens| && k < lens[a]
    case Bin(_, l, r) => AllExist(l, lens) && AllExist(r, lens)
  }

  /** The asserts that `size()` evaluates: the middle term is a number used as a truth value. */
  predicate AssertsPass(e: Expr, lens: seq<nat>)
    requires AllExist(e, lens)
  {
    match e
    case Leaf(_) => true
    case Scalar(_, _) => true
    case Bin(_, l, r) =>
      && AssertsPass(l, lens) && AssertsPass(r, lens)
      && (Size(l, lens) == 0 || Size(r, lens) != 0 || Size(l, lens) == Size(r, lens))
  }

  /** Over arrays of one length, the size is that length and the asserts pass. */
  lemma {:induction false} SizeIsCommonLength(e: Expr, lens: seq<nat>, n: nat)
    requires Built(e) && AllOfLength(e, lens, n)
    ensures AllExist(e, lens) && Size(e, lens) == n && AssertsPass(e, lens)
  {
    match e
    case Leaf(_) =>
    case Bin(_, l, r) =>
      if !l.Scalar? {
        SizeIsCommonLength(l, lens, n);
      }
      SizeIsCommonLength(r, lens, n);
  }

  predicate NoneEmpty(e: Expr, lens: seq<nat>)
    requires AllExist(e, lens)
  {
    match e
    case Leaf(a) => lens[a] > 0
    case Scalar(_, _) => true
    case Bin(_, l, r) => NoneEmpty(l, lens) && NoneEmpty(r, lens)
  }

  /** As written the asserts never fail on non-empty arrays, whatever their lengths. */
  lemma {:induction false} AssertsMissMismatch(e: Expr, lens: seq<nat>)
    requires Built(e) && AllExist(e, lens) && NoneEmpty(e, lens)
    ensures AssertsPass(e, lens) && Size(e, lens) > 0
  {
    match e
    case Leaf(_) =>
    case Bin(_, l, r) =>
      if !l.Scalar? {
        AssertsMissMismatch(l, lens);
      }
      AssertsMissMismatch(r, lens);
  }

  predicate AllEmpty(e: Expr, lens: seq<nat>)
    requires AllExist(e, lens)
  {
    match e
    case Leaf(a) => lens[a] == 0
    case Scalar(_, _) => true
    case Bin(_, l, r) => AllEmpty(l, lens) && AllEmpty(r, lens)
  }

  /** Some operator has a non-empty array on its left and only empty ones on its right. */
  predicate Lopsided(e: Expr, lens: seq<nat>)
    requires AllExist(e, lens)
  {
    match e
    case Leaf(_) => false
    case Scalar(_, _) => false
    case Bin(_, l, r) => Lopsided(l, lens) || Lopsided(r, lens) || (!AllEmpty(l, lens) && AllEmpty(r, lens))
  }

  /** Exactly what the asserts catch, on every tree. */
  lemma {:induction false} AssertsExactly(e: Expr, lens: seq<nat>)
    requires AllExist(e, lens)
    ensures Size(e, lens) == 0 <==> AllEmpty(e, lens)
    ensures AssertsPass(e, lens) <==> !Lopsided(e, lens)
  {
    match e
    case Leaf(_) =>
    case Scalar(_, _) =>
    case Bin(_, l, r) =>
      AssertsExactly(l, lens);
      AssertsExactly(r, lens);
  }

  /** The lengths of the arrays of the tree, from left to right. */
  function LengthsOf(e: Expr, lens: seq<nat>): seq<nat>
    requires AllExist(e, lens)
  {
    match e
    case Leaf(a) => [lens[a]]
    case Scalar(_, _) => []
    case Bin(_, l, r) => LengthsOf(l, lens) + LengthsOf(r, lens)
  }

  /** `n` is the first length that is not 0, if there is one. */
  ghost predicate IsFirstLength(n: nat, lengths: seq<nat>) {
    if forall i :: 0 <= i < |lengths| ==> lengths[i] == 0 then n == 0
    else exists i :: 0 <= i < |lengths| && n == lengths[i] > 0 && forall j :: 0 <= j < i ==> lengths[j] == 0
  }

  lemma FirstOfBoth(n: nat, x: seq<nat>, m: nat, y: seq<nat>)
    requires IsFirstLength(n, x) && IsFirstLength(m, y)
    ensures IsFirstLength(if n == 0 then m else n, x + y)
  {
    var z := x + y;
    if n > 0 {
      var i :| 0 <= i < |x| && n == x[i] > 0 && forall j :: 0 <= j < i ==> x[j] == 0;
      assert z[i] == n && forall j :: 0 <= j < i ==> z[j] == 0;
    } else if m > 0 {
      var i :| 0 <= i < |y| && m == y[i] > 0 && forall j :: 0 <= j < i ==> y[j] == 0;
      assert z[|x| + i] == m && forall j :: 0 <= j < |x| + i ==> z[j] == 0;
    } else {
      assert forall i :: 0 <= i < |z| ==> z[i] == 0;
    }
  }

  /** The size is the length of the first array from the left that is not empty. */
  lemma {:induction false} SizeIsFirstLength(e: Expr, lens: seq<nat>)
    requires AllExist(e, lens)
    ensures IsFirstLength(Size(e, lens), LengthsOf(e, lens))
  {
    match e
    case Leaf(a) =>
      assert LengthsOf(e, lens)[0] == lens[a];
    case Scalar(_, _) =>
    case Bin(_, l, r) =>
      SizeIsFirstLength(l, lens);
      SizeIsFirstLength(r, lens);
      hide IsFirstLength;
      FirstOfBoth(Size(l, lens), LengthsOf(l, lens), Size(r, lens), LengthsOf(r, lens));
  }

  predicate AllAtLeast(e: Expr, lens: seq<nat>, n: nat)
    requires AllExist(e, lens)
  {
    match e
    case Leaf(a) => lens[a] >= n
    case Scalar(_, _) => true
    case Bin(_, l, r) => AllAtLeast(l, lens, n) && AllAtLeast(r, lens, n)
  }

  lemma {:induction false} ReadFits(e: Expr, lens: seq<nat>, i: nat)
    requires AllExist(e, lens)
    ensures InRange(e, lens, i) <==> AllAtLeast(e, lens, i + 1)
  {
    match e
    case Leaf(_) =>
    case Scalar(_, _) =>
    case Bin(_, l, r) =>
      ReadFits(l, lens, i);
      ReadFits(r, lens, i);
  }

  lemma {:induction false} AtLeastLess(e: Expr, lens: seq<nat>, n: nat, m: nat)
    requires AllExist(e, lens) && m <= n
    ensures AllAtLeast(e, lens, 0) && (AllAtLeast(e, lens, n) ==> AllAtLeast(e, lens, m))
  {
    match e
    case Leaf(_) =>
    case Scalar(_, _) =>
    case Bin(_, l, r) =>
      AtLeastLess(l, lens, n, m);
      AtLeastLess(r, lens, n, m);
  }

  lemma ReadsBelow(e: Expr, lens: seq<nat>, n: nat)
    requires AllExist(e, lens)
    ensures (forall i: nat :: i < n ==> InRange(e, lens, i)) <==> AllAtLeast(e, lens, n)
  {
    hide InRange, AllAtLeast;
    AtLeastLess(e, lens, n, 0);
    if n > 0 {
      ReadFits(e, lens, n - 1);
    }
    forall i: nat | i < n
      ensures AllAtLeast(e, lens, n) ==> InRange(e, lens, i)
    {
      ReadFits(e, lens, i);
      AtLeastLess(e, lens, n, i + 1);
    }
  }

  lemma {:induction false} LongIsNonEmpty(e: Expr, lens: seq<nat>, n: nat)
    requires AllExist(e, lens) && AllAtLeast(e, lens, n) && n > 0
    ensures NoneEmpty(e, lens)
  {
    match e
    case Leaf(_) =>
    case Scalar(_, _) =>
    case Bin(_, l, r) =>
      LongIsNonEmpty(l, lens, n);
      LongIsNonEmpty(r, lens, n);
  }

  lemma {:induction false} EmptyIsLevel(e: Expr, lens: seq<nat>)
    requires AllExist(e, lens) && AllEmpty(e, lens)
    ensures !Lopsided(e, lens)
  {
    match e
    case Leaf(_) =>
    case Scalar(_, _) =>
    case Bin(_, l, r) =>
      EmptyIsLevel(l, lens);
      EmptyIsLevel(r, lens);
  }

  /**
   All reads up to the size are inside their arrays exactly when no array is shorter than the size; the asserts
   never refuse such a tree, but they do not imply it.
   */
  lemma ReadsFitExactly(e: Expr, lens: seq<nat>)
    requires Built(e) && AllExist(e, lens)
    ensures (forall i: nat :: i < Size(e, lens) ==> InRange(e, lens, i)) <==> AllAtLeast(e, lens, Size(e, lens))
    ensures AllAtLeast(e, lens, Size(e, lens)) ==> AssertsPass(e, lens)
  {
    ReadsBelow(e, lens, Size(e, lens));
    AssertsExactly(e, lens);
    if AllAtLeast(e, lens, Size(e, lens)) {
      if Size(e, lens) == 0 {
        EmptyIsLevel(e, lens);
      } else {
        LongIsNonEmpty(e, lens, Size(e, lens));
        AssertsMissMismatch(e, lens);
      }
    }
  }

  /** An array of two plus an array of one: the asserts pass, and index 1 is outside the second array. */
  lemma MismatchReadsOutside()
    ensures var e, lens := Bin(Plus, Leaf(0), Leaf(1)), [2, 1];
            AllExist(e, lens) && AssertsPass(e, lens) && Size(e, lens) == 2 && !InRange(e, lens, 1)
  {
  }

  // ---------- evaluation ----------

  /** The arrays of the tree exist and have at least `n` elements, as many as are read. */
  predicate Reaches(e: Expr, lens: seq<nat>, n: nat) {
    AllExist(e, lens) && AllAtLeast(e, lens, n)
  }

  lemma ReachGivesRange(e: Expr, lens: seq<nat>, n: nat, i: nat)
    requires Reaches(e, lens, n) && i < n
    ensures InRange(e, lens, i)
  {
    ReadsBelow(e, lens, n);
  }


  function Lens<T>(store: seq<seq<T>>): (lens: seq<nat>)
    ensures |lens| == |store| && forall j :: 0 <= j < |store| ==> lens[j] == |store[j]|
  {
    seq(|store|, j requires 0 <= j < |store| => |store[j]|)
  }

  /** Element `i` of the expression. */
  function At<T>(alg: Algebra<T>, e: Expr, store: seq<seq<T>>, i: nat): T
    requires InRange(e, Lens(store), i)
  {
    match e
    case Leaf(a) => store[a][i]
    case Scalar(a, k) => store[a][k]
    case Bin(op, l, r) => Apply(alg, op, At(alg, l, store, i), At(alg, r, store, i))
  }

  /** A sum adds and a product multiplies, element by element; a scalar stands for the same cell at every index. */
  lemma OperatorsAreElementwise<T>(alg: Algebra<T>, l: Expr, r: Expr, store: seq<seq<T>>, i: nat)
    requires InRange(l, Lens(store), i) && InRange(r, Lens(store), i)
    ensures At(alg, Bin(Plus, l, r), store, i) == alg.plus(At(alg, l, store, i), At(alg, r, store, i))
    ensures At(alg, Bin(Times, l, r), store, i) == alg.times(At(alg, l, store, i), At(alg, r, store, i))
    ensures l.Leaf? ==> At(alg, l, store, i) == store[l.a][i]
    ensures l.Scalar? ==> At(alg, l, store, i) == store[l.a][l.k]
  {
  }

  /** The value of the whole expression before anything is assigned. */
  function Eager<T>(alg: Algebra<T>, e: Expr, store: seq<seq<T>>, n: nat): seq<T>
    requires Reaches(e, Lens(store), n)
  {
    seq(n, i requires 0 <= i < n => ReachGivesRange(e, Lens(store), n, i); At(alg, e, store, i))
  }

  /** The store after the first `i` elements of array `d` have been assigned, one after the other. */
  function Fused<T>(alg: Algebra<T>, e: Expr, store: seq<seq<T>>, d: nat, i: nat): (s: seq<seq<T>>)
    requires d < |store| && i <= |store[d]| && Reaches(e, Lens(store), |store[d]|)
    ensures Lens(s) == Lens(store)
    ensures forall j :: 0 <= j < |store| && j != d ==> s[j] == store[j]
  {
    if i == 0 then store
    else
      var s := Fused(alg, e, store, d, i - 1);
      ReachGivesRange(e, Lens(store), |store[d]|, i - 1);
      var row := s[d][i - 1 := At(alg, e, s, i - 1)];
      assert Lens(s[d := row]) == Lens(store);
      s[d := row]
  }

  /** A scalar operand is an element of the assigned array that is overwritten before the last one is computed. */
  predicate ReadsEarly(e: Expr, d: nat, n: nat) {
    match e
    case Leaf(_) => false
    case Scalar(a, k) => a == d && k + 1 < n
    case Bin(_, l, r) => ReadsEarly(l, d, n) || ReadsEarly(r, d, n)
  }

  /** `s` differs from `store` at most in the first `i` elements of array `d`. */
  ghost predicate SameFrom<T>(s: seq<seq<T>>, store: seq<seq<T>>, d: nat, i: nat) {
    && Lens(s) == Lens(store) && d < |store|
    && (forall j :: 0 <= j < |store| && j != d ==> s[j] == store[j])
    && (forall m :: i <= m < |store[d]| ==> s[d][m] == store[d][m])
  }

  lemma {:induction false} AtUnaffected<T>(alg: Algebra<T>, e: Expr, s: seq<seq<T>>, store: seq<seq<T>>, d: nat, i: nat)
    requires SameFrom(s, store, d, i) && i < |store[d]| && InRange(e, Lens(store), i) && !ReadsEarly(e, d, |store[d]|)
    ensures At(alg, e, s, i) == At(alg, e, store, i)
  {
    match e
    case Leaf(_) =>
    case Scalar(_, _) =>
    case Bin(_, l, r) =>
      AtUnaffected(alg, l, s, store, d, i);
      AtUnaffected(alg, r, s, store, d, i);
  }

  lemma {:induction false} FusedPrefix<T>(alg: Algebra<T>, e: Expr, store: seq<seq<T>>, d: nat, i: nat)
    requires d < |store| && i <= |store[d]| && Reaches(e, Lens(store), |store[d]|)
    ensures SameFrom(Fused(alg, e, store, d, i), store, d, i)
    ensures !ReadsEarly(e, d, |store[d]|) ==>
              forall m :: 0 <= m < i ==> Fused(alg, e, store, d, i)[d][m] == Eager(alg, e, store, |store[d]|)[m]
  {
    if i > 0 {
      var n := |store[d]|;
      var s := Fused(alg, e, store, d, i - 1);
      FusedPrefix(alg, e, store, d, i - 1);
      ReachGivesRange(e, Lens(store), n, i - 1);
      if !ReadsEarly(e, d, n) {
        AtUnaffected(alg, e, s, store, d, i - 1);
      }
    }
  }

  /**
   Fused in-place evaluation is eager evaluation, wherever the destination occurs in the tree, and no other
   array changes, unless a scalar operand is an early element of the destination.
   */
  lemma FusedIsEager<T>(alg: Algebra<T>, e: Expr, store: seq<seq<T>>, d: nat)
    requires d < |store| && Reaches(e, Lens(store), |store[d]|)
    requires !ReadsEarly(e, d, |store[d]|)
    ensures Fused(alg, e, store, d, |store[d]|) == store[d := Eager(alg, e, store, |store[d]|)]
  {
    var n := |store[d]|;
    var s, eager := Fused(alg, e, store, d, n), Eager(alg, e, store, n);
    FusedPrefix(alg, e, store, d, n);
    assert |s| == |Lens(s)| == |store| && |s[d]| == Lens(s)[d] == n;
    assert s[d] == eager;
  }

  /**
   What the operators assign: `x = x + y` leaves the old sums and `x = x * y` the old products in `x`, and
   `x = c * y` leaves the multiples, where `c` is a variable of its own.
   */
  lemma AssignedElements<T>(alg: Algebra<T>, store: seq<seq<T>>, x: nat, y: nat, c: nat, i: nat)
    requires x < |store| && y < |store| && c < |store| && c != x && |store[c]| == 1
    requires i < |store[x]| <= |store[y]|
    ensures var n := |store[x]|;
            var sum, product, scaled := Bin(Plus, Leaf(x), Leaf(y)), Bin(Times, Leaf(x), Leaf(y)), Bin(Times, Scalar(c, 0), Leaf(y));
            && Reaches(sum, Lens(store), n) && Reaches(product, Lens(store), n) && Reaches(scaled, Lens(store), n)
            && Element(Fused(alg, sum, store, x, n), x, i) == Some(alg.plus(store[x][i], store[y][i]))
            && Element(Fused(alg, product, store, x, n), x, i) == Some(alg.times(store[x][i], store[y][i]))
            && Element(Fused(alg, scaled, store, x, n), x, i) == Some(alg.times(store[c][0], store[y][i]))
  {
    FusedElement(alg, Bin(Plus, Leaf(x), Leaf(y)), store, x, i);
    FusedElement(alg, Bin(Times, Leaf(x), Leaf(y)), store, x, i);
    FusedElement(alg, Bin(Times, Scalar(c, 0), Leaf(y)), store, x, i);
  }

  function Element<T>(store: seq<seq<T>>, x: nat, i: nat): Option<T> {
    if x < |store| && i < |store[x]| then Some(store[x][i]) else None
  }

  lemma FusedElement<T>(alg: Algebra<T>, e: Expr, store: seq<seq<T>>, d: nat, i: nat)
    requires d < |store| && Reaches(e, Lens(store), |store[d]|) && !ReadsEarly(e, d, |store[d]|) && i < |store[d]|
    ensures InRange(e, Lens(store), i)
    ensures Element(Fused(alg, e, store, d, |store[d]|), d, i) == Some(At(alg, e, store, i))
  {
    ReachGivesRange(e, Lens(store), |store[d]|, i);
    FusedIsEager(alg, e, store, d);
  }

  // ---------- the exception is real ----------

  const INTEGERS: Algebra<int> := Algebra((x: int, y: int) => x + y, (x: int, y: int) => x * y)

  /** [3] + [4] is [7], and [3] * [4] is [12]. */
  lemma ThreeAndFour()
    ensures var e, f, store := Bin(Plus, Leaf(0), Leaf(1)), Bin(Times, Leaf(0), Leaf(1)), [[3], [4]];
            && Reaches(e, Lens(store), 1) && Eager(INTEGERS, e, store, 1) == [7]
            && Reaches(f, Lens(store), 1) && Eager(INTEGERS, f, store, 1) == [12]
  {
    var e, f, store := Bin(Plus, Leaf(0), Leaf(1)), Bin(Times, Leaf(0), Leaf(1)), [[3], [4]];
    OperatorsAreElementwise(INTEGERS, Leaf(0), Leaf(1), store, 0);
  }

  /** Cell by cell at least as large, and nowhere below two. */
  ghost predicate AtLeast(s: seq<seq<int>>, store: seq<seq<int>>) {
    && Lens(s) == Lens(store)
    && forall j, m :: 0 <= j < |store| && 0 <= m < |store[j]| ==> 2 <= store[j][m] <= s[j][m]
  }

  predicate Mentions(e: Expr, d: nat, k: nat) {
    match e
    case Leaf(_) => false
    case Scalar(a, k') => a == d && k' == k
    case Bin(_, l, r) => Mentions(l, d, k) || Mentions(r, d, k)
  }

  lemma ProductGrows(x: int, y: int, x': int, y': int)
    requires 2 <= x <= x' && 2 <= y <= y'
    ensures 4 <= x * y <= x' * y'
    ensures x < x' || y < y' ==> x * y < x' * y'
  {
    assert x' * y' - x * y == (x' - x) * y' + x * (y' - y);
    assert x * y - 4 == (x - 2) * y + 2 * (y - 2);
  }

  /** Sums and products of numbers from two up grow with every operand. */
  lemma {:induction false} AtGrows(e: Expr, s: seq<seq<int>>, store: seq<seq<int>>, i: nat, d: nat, k: nat)
    requires AtLeast(s, store) && InRange(e, Lens(store), i)
    ensures 2 <= At(INTEGERS, e, store, i) <= At(INTEGERS, e, s, i)
    ensures e.Bin? ==> At(INTEGERS, e, store, i) >= 4
    ensures Mentions(e, d, k) && d < |store| && k < |store[d]| && store[d][k] < s[d][k] ==>
              At(INTEGERS, e, store, i) < At(INTEGERS, e, s, i)
  {
    match e
    case Leaf(a) =>
      assert |s[a]| == Lens(s)[a];
    case Scalar(a, _) =>
      assert |s[a]| == Lens(s)[a];
    case Bin(op, l, r) =>
      AtGrows(l, s, store, i, d, k);
      AtGrows(r, s, store, i, d, k);
      ProductGrows(At(INTEGERS, l, store, i), At(INTEGERS, r, store, i), At(INTEGERS, l, s, i), At(INTEGERS, r, s, i));
  }

  ghost predicate AllTwo(store: seq<seq<int>>) {
    forall j, m :: 0 <= j < |store| && 0 <= m < |store[j]| ==> store[j][m] == 2
  }

  /** Assigning a sum or product of twos to an array of twos makes every element so far at least four. */
  lemma {:induction false} FusedGrows(e: Expr, store: seq<seq<int>>, d: nat, i: nat)
    requires e.Bin? && AllTwo(store) && d < |store| && i <= |store[d]| && Reaches(e, Lens(store), |store[d]|)
    ensures var s := Fused(INTEGERS, e, store, d, i);
            AtLeast(s, store) && |s[d]| == |store[d]| && forall m :: 0 <= m < i ==> s[d][m] >= 4
  {
    if i > 0 {
      FusedGrows(e, store, d, i - 1);
      var s := Fused(INTEGERS, e, store, d, i - 1);
      hide Fused, At, INTEGERS, AtLeast, Lens;
      ReachGivesRange(e, Lens(store), |store[d]|, i - 1);
      AtGrows(e, s, store, i - 1, d, 0);
      FusedCell(e, store, d, i);
      WriteKeepsAtLeast(s, store, d, i - 1, At(INTEGERS, e, s, i - 1));
    }
  }

  lemma WriteKeepsAtLeast(s: seq<seq<int>>, store: seq<seq<int>>, d: nat, m: nat, v: int)
    requires AtLeast(s, store) && d < |store| && m < |store[d]| <= |s[d]| && store[d][m] <= v
    ensures AtLeast(s[d := s[d][m := v]], store)
  {
    assert Lens(s[d := s[d][m := v]]) == Lens(s);
  }

  lemma FusedCell(e: Expr, store: seq<seq<int>>, d: nat, i: nat)
    requires d < |store| && 0 < i <= |store[d]| && Reaches(e, Lens(store), |store[d]|)
    ensures var s, s' := Fused(INTEGERS, e, store, d, i - 1), Fused(INTEGERS, e, store, d, i);
            && |s[d]| == |s'[d]| == |store[d]|
            && InRange(e, Lens(s), i - 1)
            && s' == s[d := s[d][i - 1 := At(INTEGERS, e, s, i - 1)]]
  {
    var s, s' := Fused(INTEGERS, e, store, d, i - 1), Fused(INTEGERS, e, store, d, i);
    assert |s[d]| == Lens(s)[d] && |s'[d]| == Lens(s')[d];
    ReachGivesRange(e, Lens(store), |store[d]|, i - 1);
  }

  /** With such a scalar, an array of twos already comes out wrong in its last element. */
  lemma EarlyReadIsWrong(e: Expr, store: seq<seq<int>>, d: nat, k: nat)
    requires e.Bin? && AllTwo(store) && d < |store| && Reaches(e, Lens(store), |store[d]|)
    requires Mentions(e, d, k) && k + 1 < |store[d]|
    ensures Fused(INTEGERS, e, store, d, |store[d]|)[d] != Eager(INTEGERS, e, store, |store[d]|)
  {
    hide Fused, INTEGERS, At, Eager, AllTwo, Mentions, InRange;
    var n := |store[d]|;
    LastReadGrew(e, store, d, k);
    FusedCell(e, store, d, n);
    EagerAt(e, store, n, n - 1);
  }

  lemma LastReadGrew(e: Expr, store: seq<seq<int>>, d: nat, k: nat)
    requires e.Bin? && AllTwo(store) && d < |store| && Reaches(e, Lens(store), |store[d]|)
    requires Mentions(e, d, k) && k + 1 < |store[d]|
    ensures InRange(e, Lens(store), |store[d]| - 1)
    ensures At(INTEGERS, e, store, |store[d]| - 1) <
            At(INTEGERS, e, Fused(INTEGERS, e, store, d, |store[d]| - 1), |store[d]| - 1)
  {
    hide Fused, INTEGERS, At, Mentions, AtLeast;
    var n := |store[d]|;
    FusedGrows(e, store, d, n - 1);
    ReachGivesRange(e, Lens(store), n, n - 1);
    AtGrows(e, Fused(INTEGERS, e, store, d, n - 1), store, n - 1, d, k);
  }

  lemma EagerAt(e: Expr, store: seq<seq<int>>, n: nat, i: nat)
    requires Reaches(e, Lens(store), n) && i < n
    ensures InRange(e, Lens(store), i) && Eager(INTEGERS, e, store, n)[i] == At(INTEGERS, e, store, i)
  {
    ReachGivesRange(e, Lens(store), n, i);
  }

  lemma TwosExist(lens: seq<nat>) returns (store: seq<seq<int>>)
    ensures Lens(store) == lens && AllTwo(store)
  {
    store := seq(|lens|, j requires 0 <= j < |lens| => seq(lens[j], _ => 2));
  }

  lemma {:induction false} FindMention(e: Expr, d: nat, n: nat) returns (k: nat)
    requires ReadsEarly(e, d, n)
    ensures k + 1 < n && Mentions(e, d, k)
  {
    match e
    case Scalar(_, k') => k := k';
    case Bin(_, l, r) =>
      if ReadsEarly(l, d, n) {
        k := FindMention(l, d, n);
      } else {
        k := FindMention(r, d, n);
      }
  }

  /** For integers: fused evaluation is right on all contents exactly when no scalar is an early element of the destination. */
  lemma FusedIsEagerExactly(e: Expr, lens: seq<nat>, d: nat)
    requires Built(e) && d < |lens| && Reaches(e, lens, lens[d])
    ensures !ReadsEarly(e, d, lens[d]) <==>
              forall store: seq<seq<int>> :: Lens(store) == lens ==>
                Fused(INTEGERS, e, store, d, lens[d])[d] == Eager(INTEGERS, e, store, lens[d])
  {
    if ReadsEarly(e, d, lens[d]) {
      var k := FindMention(e, d, lens[d]);
      var store := TwosExist(lens);
      assert |store[d]| == Lens(store)[d];
      EarlyReadIsWrong(e, store, d, k);
    } else {
      forall store: seq<seq<int>> | Lens(store) == lens
        ensures Fused(INTEGERS, e, store, d, lens[d])[d] == Eager(INTEGERS, e, store, lens[d])
      {
        assert |store[d]| == Lens(store)[d];
        FusedIsEager(INTEGERS, e, store, d);
      }
    }
  }

  // ---------- the assignment, on the heap ----------

  predicate Distinct<T>(arrays: seq<array<T>>) {
    forall i, j :: 0 <= i < j < |arrays| ==> arrays[i] != arrays[j]
  }

  function Lengths<T>(arrays: seq<array<T>>): (lens: seq<nat>)
    ensures |lens| == |arrays| && forall j :: 0 <= j < |arrays| ==> lens[j] == arrays[j].Length
  {
    if arrays == [] then [] else [arrays[0].Length] + Lengths(arrays[1..])
  }

  ghost function Contents<T>(arrays: seq<array<T>>): (store: seq<seq<T>>)
    reads arrays
    ensures |store| == |arrays| && forall j :: 0 <= j < |arrays| ==> store[j] == arrays[j][..]
  {
    if arrays == [] then [] else [arrays[0][..]] + Contents(arrays[1..])
  }

  /** `operator[]` of the tree: reads the arrays at index `i`. */
  function Read<T>(alg: Algebra<T>, arrays: seq<array<T>>, e: Expr, i: nat): T
    requires InRange(e, Lengths(arrays), i)
    reads arrays
  {
    match e
    case Leaf(a) => arrays[a][i]
    case Scalar(a, k) => arrays[a][k]
    case Bin(op, l, r) => Apply(alg, op, Read(alg, arrays, l, i), Read(alg, arrays, r, i))
  }

  lemma LensOfContents<T>(arrays: seq<array<T>>)
    ensures Lens(Contents(arrays)) == Lengths(arrays)
  {
  }

  lemma {:induction false} ReadIsAt<T>(alg: Algebra<T>, arrays: seq<array<T>>, e: Expr, i: nat)
    requires InRange(e, Lengths(arrays), i)
    ensures InRange(e, Lens(Contents(arrays)), i)
    ensures Read(alg, arrays, e, i) == At(alg, e, Contents(arrays), i)
  {
    LensOfContents(arrays);
    match e
    case Leaf(_) =>
    case Scalar(_, _) =>
    case Bin(_, l, r) =>
      ReadIsAt(alg, arrays, l, i);
      ReadIsAt(alg, arrays, r, i);
  }

  /** The templated `operator=`: array `d` is assigned the expression, element by element. */
  method Assign<T>(alg: Algebra<T>, arrays: seq<array<T>>, d: nat, e: Expr)
    requires Distinct(arrays) && d < |arrays| && Reaches(e, Lengths(arrays), arrays[d].Length)
    modifies arrays[d]
    ensures Lens(old(Contents(arrays))) == Lengths(arrays)
    ensures Contents(arrays) == Fused(alg, e, old(Contents(arrays)), d, arrays[d].Length)
    ensures !ReadsEarly(e, d, arrays[d].Length) ==>
              arrays[d][..] == Eager(alg, e, old(Contents(arrays)), arrays[d].Length)
  {
    hide Contents, Lengths, Lens, Read, At, Eager;
    ghost var store := Contents(arrays);
    LensOfContents(arrays);
    for idx := 0 to arrays[d].Length
      invariant Contents(arrays) == Fused(alg, e, store, d, idx)
    {
      ReachGivesRange(e, Lengths(arrays), arrays[d].Length, idx);
      ReadIsAt(alg, arrays, e, idx);
      ghost var before := Contents(arrays);
      arrays[d][idx] := Read(alg, arrays, e, idx);
      assert Contents(arrays) == before[d := before[d][idx := At(alg, e, before, idx)]];
    }
    if !ReadsEarly(e, d, arrays[d].Length) {
      FusedIsEager(alg, e, store, d);
    }
  }
}
