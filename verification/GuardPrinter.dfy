/**
 How the UML dumper prints guards and lists actions
 (third_party_examples/sml_examples/src/dump_uml.cpp).

 A guard prints as tokens: names, parentheses and the three operators. Conjunctions are printed
 without parentheses, so a reader has to rely on the precedence of C++ (sections 7.6.14 and
 7.6.15 of C++20): `!` binds tighter than `&&`, which binds tighter than `||`.
 */
module GuardPrinter {
  import opened Basics

  datatype Guard = Atom(name: string) | Or(l: Guard, r: Guard) | And(l: Guard, r: Guard) | Not(g: Guard)

  datatype Token = Name(name: string) | LPar | RPar | OrOp | AndOp | NotOp

  /** The printer has no case for a negation directly under a negation: that does not compile. */
  predicate Accepted(g: Guard) {
    match g
    case Atom(_) => true
    case Or(l, r) => Accepted(l) && Accepted(r)
    case And(l, r) => Accepted(l) && Accepted(r)
    case Not(h) => !h.Not? && Accepted(h)
  }

  function Print(g: Guard): (ts: seq<Token>)
    requires Accepted(g)
  {
    match g
    case Atom(n) => [Name(n)]
    case Or(l, r) => [LPar] + Print(l) + [OrOp] + Print(r) + [RPar]
    case And(l, r) => Print(l) + [AndOp] + Print(r)
    case Not(h) => if h.Atom? then [NotOp] + Print(h) else [NotOp, LPar] + Print(h) + [RPar]
  }

  /** How many disjunctions, and negations of something that is not a single name. */
  function Wrapped(g: Guard): nat {
    match g
    case Atom(_) => 0
    case Or(l, r) => 1 + Wrapped(l) + Wrapped(r)
    case And(l, r) => Wrapped(l) + Wrapped(r)
    case Not(h) => (if h.Atom? then 0 else 1) + Wrapped(h)
  }

  function TokenCount(g: Guard, t: Token): nat
    requires Accepted(g)
  {
    multiset(Print(g))[t]
  }

  lemma OrTokens(l: Guard, r: Guard, t: Token)
    requires Accepted(l) && Accepted(r)
    ensures TokenCount(Or(l, r), t) == TokenCount(l, t) + TokenCount(r, t) + multiset{LPar, OrOp, RPar}[t]
  {
  }

  lemma AndTokens(l: Guard, r: Guard, t: Token)
    requires Accepted(l) && Accepted(r)
    ensures TokenCount(And(l, r), t) == TokenCount(l, t) + TokenCount(r, t) + multiset{AndOp}[t]
  {
  }

  lemma NotTokens(h: Guard, t: Token)
    requires Accepted(h) && !h.Not?
    ensures TokenCount(Not(h), t) ==
            TokenCount(h, t) + (if h.Atom? then multiset{NotOp} else multiset{NotOp, LPar, RPar})[t]
  {
  }

  lemma AtomTokens(n: string, t: Token)
    ensures TokenCount(Atom(n), t) == multiset{Name(n)}[t]
  {
  }

  /** No parentheses but around disjunctions and under negations. */
  lemma {:induction false} ParenthesesCounted(g: Guard, t: Token)
    requires Accepted(g) && (t == LPar || t == RPar)
    ensures multiset(Print(g))[t] == Wrapped(g)
  {
    hide Print;
    match g
    case Atom(n) =>
      AtomTokens(n, t);
    case Or(l, r) =>
      ParenthesesCounted(l, t);
      ParenthesesCounted(r, t);
      OrTokens(l, r, t);
    case And(l, r) =>
      ParenthesesCounted(l, t);
      ParenthesesCounted(r, t);
      AndTokens(l, r, t);
    case Not(h) =>
      ParenthesesCounted(h, t);
      NotTokens(h, t);
  }

  /** The guards inside a guard, itself included. */
  function Inside(g: Guard): set<Guard> {
    match g
    case Atom(_) => {g}
    case Or(l, r) => {g} + Inside(l) + Inside(r)
    case And(l, r) => {g} + Inside(l) + Inside(r)
    case Not(h) => {g} + Inside(h)
  }

  /** A double negation anywhere is all that keeps a guard from being printed. */
  lemma {:induction false} AcceptedExactly(g: Guard)
    ensures g in Inside(g)
    ensures Accepted(g) <==> forall h :: h in Inside(g) ==> !(h.Not? && h.g.Not?)
  {
    match g
    case Atom(_) =>
    case Or(l, r) =>
      AcceptedExactly(l);
      AcceptedExactly(r);
    case And(l, r) =>
      AcceptedExactly(l);
      AcceptedExactly(r);
    case Not(h) =>
      AcceptedExactly(h);
  }

  ghost predicate Holds(g: Guard, valuation: string -> bool) {
    match g
    case Atom(n) => valuation(n)
    case Or(l, r) => Holds(l, valuation) || Holds(r, valuation)
    case And(l, r) => Holds(l, valuation) && Holds(r, valuation)
    case Not(h) => !Holds(h, valuation)
  }

  // ---------- reading with C++ precedence ----------

  /** A parsed guard and the tokens left. */
  type Parsed = Option<(Guard, seq<Token>)>

  /** or-expression: and-expressions joined by `||`, grouped to the left. */
  function ParseOr(ts: seq<Token>): (p: Parsed)
    ensures p.Some? ==> |p.value.1| < |ts|
    decreases |ts|, 3
  {
    var p := ParseAnd(ts);
    if p.None? then None else ParseOrRest(p.value.0, p.value.1)
  }

  function ParseOrRest(acc: Guard, ts: seq<Token>): (p: Parsed)
    ensures p.Some? ==> |p.value.1| <= |ts|
    decreases |ts|, 0
  {
    if ts == [] || ts[0] != OrOp then Some((acc, ts))
    else
      var p := ParseAnd(ts[1..]);
      if p.None? then None else ParseOrRest(Or(acc, p.value.0), p.value.1)
  }

  /** and-expression: unary expressions joined by `&&`, grouped to the left. */
  function ParseAnd(ts: seq<Token>): (p: Parsed)
    ensures p.Some? ==> |p.value.1| < |ts|
    decreases |ts|, 2
  {
    var p := ParseUnary(ts);
    if p.None? then None else ParseAndRest(p.value.0, p.value.1)
  }

  function ParseAndRest(acc: Guard, ts: seq<Token>): (p: Parsed)
    ensures p.Some? ==> |p.value.1| <= |ts|
    decreases |ts|, 0
  {
    if ts == [] || ts[0] != AndOp then Some((acc, ts))
    else
      var p := ParseUnary(ts[1..]);
      if p.None? then None else ParseAndRest(And(acc, p.value.0), p.value.1)
  }

  function ParseUnary(ts: seq<Token>): (p: Parsed)
    ensures p.Some? ==> |p.value.1| < |ts|
    decreases |ts|, 1
  {
    if ts == [] then None
    else
      match ts[0]
      case Name(n) => Some((Atom(n), ts[1..]))
      case NotOp =>
        var p := ParseUnary(ts[1..]);
        if p.None? then None else Some((Not(p.value.0), p.value.1))
      case LPar =>
        var p := ParseOr(ts[1..]);
        if p.None? || p.value.1 == [] || p.value.1[0] != RPar then None
        else Some((p.value.0, p.value.1[1..]))
      case _ => None
  }

  /** A guard is read from all of the tokens. */
  function Parse(ts: seq<Token>): Option<Guard> {
    var p := ParseOr(ts);
    if p.Some? && p.value.1 == [] then Some(p.value.0) else None
  }

  // ---------- regrouping conjunctions ----------

  /** `l && r`, with the conjunctions of `r` moved to the left. */
  function Join(l: Guard, r: Guard): Guard
    decreases r
  {
    if r.And? then And(Join(l, r.l), r.r) else And(l, r)
  }

  /** The same guard with every chain of conjunctions grouped to the left. */
  function Regroup(g: Guard): (h: Guard)
    ensures !g.And? ==> !h.And?
  {
    match g
    case Atom(_) => g
    case Or(l, r) => Or(Regroup(l), Regroup(r))
    case And(l, r) => Join(Regroup(l), Regroup(r))
    case Not(h) => Not(Regroup(h))
  }

  lemma {:induction false} JoinAssociates(l: Guard, m: Guard, r: Guard)
    ensures Join(Join(l, m), r) == Join(l, Join(m, r))
    decreases r
  {
    if r.And? {
      JoinAssociates(l, m, r.l);
    }
  }

  lemma {:induction false} JoinMeans(l: Guard, r: Guard, valuation: string -> bool)
    ensures Holds(Join(l, r), valuation) <==> Holds(l, valuation) && Holds(r, valuation)
    decreases r
  {
    if r.And? {
      JoinMeans(l, r.l, valuation);
    }
  }

  lemma {:induction false} JoinPrints(l: Guard, r: Guard)
    requires Accepted(l) && Accepted(r)
    ensures Accepted(Join(l, r)) && Print(Join(l, r)) == Print(l) + [AndOp] + Print(r)
    decreases r
  {
    if r.And? {
      JoinPrints(l, r.l);
    }
  }

  lemma {:induction false} RegroupMeans(g: Guard, valuation: string -> bool)
    ensures Holds(Regroup(g), valuation) <==> Holds(g, valuation)
  {
    match g
    case Atom(_) =>
    case Or(l, r) => RegroupMeans(l, valuation); RegroupMeans(r, valuation);
    case And(l, r) =>
      RegroupMeans(l, valuation);
      RegroupMeans(r, valuation);
      JoinMeans(Regroup(l), Regroup(r), valuation);
    case Not(h) => RegroupMeans(h, valuation);
  }

  lemma {:induction false} RegroupPrints(g: Guard)
    requires Accepted(g)
    ensures Accepted(Regroup(g)) && Print(Regroup(g)) == Print(g)
    ensures Regroup(g).Not? <==> g.Not?
    ensures Regroup(g).Atom? <==> g.Atom?
  {
    match g
    case Atom(_) =>
    case Or(l, r) => RegroupPrints(l); RegroupPrints(r);
    case And(l, r) =>
      RegroupPrints(l);
      RegroupPrints(r);
      JoinPrints(Regroup(l), Regroup(r));
    case Not(h) => RegroupPrints(h);
  }

  // ---------- reading what was printed ----------

  lemma {:induction false} ReadsDisjunction(g: Guard, rest: seq<Token>)
    requires Accepted(g) && g.Or?
    ensures ParseUnary(Print(g) + rest) == Some((Regroup(g), rest))
    decreases g, 0
  {
    var close := [RPar] + rest;
    var right := Print(g.r) + close;
    var inner := Print(g.l) + ([OrOp] + right);
    assert Print(g) + rest == [LPar] + inner && ([LPar] + inner)[1..] == inner;
    ReadsAnd(g.l, [OrOp] + right);
    assert ParseAnd(inner) == Some((Regroup(g.l), [OrOp] + right));
    assert ([OrOp] + right)[1..] == right;
    ReadsAnd(g.r, close);
    assert ParseAnd(right) == Some((Regroup(g.r), close));
    assert ParseOrRest(Regroup(g), close) == Some((Regroup(g), close));
    assert ParseOr(inner) == Some((Regroup(g), close));
    assert close[1..] == rest;
  }

  lemma {:induction false} ReadsNegation(g: Guard, rest: seq<Token>)
    requires Accepted(g) && g.Not? && !g.g.Atom?
    ensures ParseUnary(Print(g) + rest) == Some((Regroup(g), rest))
    decreases g, 0
  {
    var close := [RPar] + rest;
    var inner := Print(g.g) + close;
    assert Print(g) + rest == [NotOp] + ([LPar] + inner);
    ReadsAnd(g.g, close);
    assert ParseAnd(inner) == Some((Regroup(g.g), close));
    assert ParseOr(inner) == Some((Regroup(g.g), close));
    assert close[1..] == rest && ([LPar] + inner)[1..] == inner;
    assert ParseUnary([LPar] + inner) == Some((Regroup(g.g), rest));
  }

  lemma {:induction false} ReadsUnary(g: Guard, rest: seq<Token>)
    requires Accepted(g) && !g.And?
    ensures ParseUnary(Print(g) + rest) == Some((Regroup(g), rest))
    decreases g, 1
  {
    match g
    case Atom(_) =>
    case Or(_, _) => ReadsDisjunction(g, rest);
    case Not(h) =>
      if h.Atom? {
        assert (Print(g) + rest)[1..] == Print(h) + rest;
      } else {
        ReadsNegation(g, rest);
      }
  }

  lemma {:induction false} ReadsAnd(g: Guard, rest: seq<Token>)
    requires Accepted(g)
    ensures ParseAnd(Print(g) + rest) == ParseAndRest(Regroup(g), rest)
    decreases g, 2
  {
    if g.And? {
      assert Print(g) + rest == Print(g.l) + ([AndOp] + Print(g.r) + rest);
      ReadsAnd(g.l, [AndOp] + Print(g.r) + rest);
      ReadsConjunct(Regroup(g.l), g.r, rest);
    } else {
      ReadsUnary(g, rest);
    }
  }

  lemma {:induction false} ReadsConjunct(acc: Guard, g: Guard, rest: seq<Token>)
    requires Accepted(g)
    ensures ParseAndRest(acc, [AndOp] + Print(g) + rest) == ParseAndRest(Join(acc, Regroup(g)), rest)
    decreases g, 2
  {
    if g.And? {
      assert [AndOp] + Print(g) + rest == [AndOp] + Print(g.l) + ([AndOp] + Print(g.r) + rest);
      ReadsConjunct(acc, g.l, [AndOp] + Print(g.r) + rest);
      ReadsConjunct(Join(acc, Regroup(g.l)), g.r, rest);
      JoinAssociates(acc, Regroup(g.l), Regroup(g.r));
    } else {
      assert ([AndOp] + Print(g) + rest)[1..] == Print(g) + rest;
      ReadsUnary(g, rest);
    }
  }

  // ---------- main results ----------

  /** What is printed reads back, under C++ precedence, as the guard with its conjunctions grouped to the left. */
  lemma PrintParses(g: Guard)
    requires Accepted(g)
    ensures Parse(Print(g)) == Some(Regroup(g))
  {
    assert Print(g) + [] == Print(g);
    ReadsAnd(g, []);
    assert ParseAnd(Print(g)) == Some((Regroup(g), []));
    assert ParseOr(Print(g)) == ParseOrRest(Regroup(g), []) == Some((Regroup(g), []));
  }

  /** Reading the printed guard gives the same truth value as the guard, under every valuation. */
  lemma PrintKeepsMeaning(g: Guard, valuation: string -> bool)
    requires Accepted(g)
    ensures Parse(Print(g)).Some?
    ensures Holds(Parse(Print(g)).value, valuation) <==> Holds(g, valuation)
  {
    PrintParses(g);
    RegroupMeans(g, valuation);
  }

  /** Two guards print alike exactly when they differ only in the grouping of their conjunctions. */
  lemma PrintAlike(g: Guard, h: Guard)
    requires Accepted(g) && Accepted(h)
    ensures Print(g) == Print(h) <==> Regroup(g) == Regroup(h)
  {
    PrintParses(g);
    PrintParses(h);
    RegroupPrints(g);
    RegroupPrints(h);
  }

  // ---------- lists of actions ----------

  /** A sequence of actions, nested by the comma operator. */
  datatype Action = Act(name: string) | Seq(rest: Action, end: Action)

  /** A type: an action as it is, or a tuple of types. */
  datatype Type = One(a: Action) | Tuple(ts: seq<Type>)

  /** `clean_action_name` goes into the first part of a sequence only. */
  function Clean(a: Action): Type {
    match a
    case Act(_) => One(a)
    case Seq(rest, end) => Tuple([Clean(rest), One(end)])
  }

  /** `flatten_tuple`: the elements of nested tuples in order. */
  function Flatten(t: Type): seq<Action> {
    match t
    case One(a) => [a]
    case Tuple(ts) => FlattenAll(ts)
  }

  function FlattenAll(ts: seq<Type>): seq<Action> {
    if ts == [] then [] else Flatten(ts[0]) + FlattenAll(ts[1..])
  }

  /** The actions in the order in which they run. */
  function InOrder(a: Action): seq<Action> {
    match a
    case Act(_) => [a]
    case Seq(rest, end) => InOrder(rest) + InOrder(end)
  }

  predicate LeftNested(a: Action) {
    match a
    case Act(_) => true
    case Seq(rest, end) => LeftNested(rest) && end.Act?
  }

  lemma {:induction false} CleanSteps(a: Action)
    requires a.Seq?
    ensures Flatten(Clean(a)) == Flatten(Clean(a.rest)) + [a.end]
  {
    var ts := [Clean(a.rest), One(a.end)];
    assert ts[1..] == [One(a.end)] && ts[1..][1..] == [];
    assert FlattenAll(ts[1..]) == [a.end];
  }

  lemma {:induction false} InOrderIsPlain(a: Action)
    ensures InOrder(a) != [] && forall i :: 0 <= i < |InOrder(a)| ==> InOrder(a)[i].Act?
  {
    if a.Seq? {
      InOrderIsPlain(a.rest);
      InOrderIsPlain(a.end);
    }
  }

  /** Of a, then b and c nested to the right, the list shows two entries, the second a sequence. */
  lemma RightNestedIsUnflattened()
    ensures var a := Seq(Act("a"), Seq(Act("b"), Act("c")));
            && Flatten(Clean(a)) == [Act("a"), Seq(Act("b"), Act("c"))]
            && InOrder(a) == [Act("a"), Act("b"), Act("c")]
  {
    var a := Seq(Act("a"), Seq(Act("b"), Act("c")));
    CleanSteps(a);
    assert InOrder(a.end) == [Act("b"), Act("c")];
  }

  /** The list shows the actions in order exactly when they are nested to the left; otherwise it shows a sequence unflattened. */
  lemma {:induction false} ActionsListed(a: Action)
    ensures LeftNested(a) <==> Flatten(Clean(a)) == InOrder(a)
    ensures LeftNested(a) <==> forall i :: 0 <= i < |Flatten(Clean(a))| ==> Flatten(Clean(a))[i].Act?
  {
    if a.Seq? {
      ActionsListed(a.rest);
      CleanSteps(a);
      InOrderIsPlain(a.end);
      var shown, front, run := Flatten(Clean(a)), Flatten(Clean(a.rest)), InOrder(a.rest) + InOrder(a.end);
      assert shown[|shown| - 1] == a.end && run[|run| - 1] == InOrder(a.end)[|InOrder(a.end)| - 1];
      assert shown[..|shown| - 1] == front;
      assert forall i :: 0 <= i < |front| ==> shown[i] == front[i];
      if a.end.Act? {
        assert run[..|run| - 1] == InOrder(a.rest);
      }
    }
  }
}
