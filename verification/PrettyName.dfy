/**
 `pretty_name` (cpp_practices/design_pattern_in_modern_cpp/src/nameof.hpp): cuts a compiler's
 rendering of a name down to the name itself, in three passes from the right.
 */
module PrettyName {
  import opened MachineInt
  import opened Basics

  const SIZE_MAX := 0xffff_ffff_ffff_ffff

  predicate IsLetter(c: char) {
    'a' <= c <= 'z' || 'A' <= c <= 'Z' || c == '_'
  }

  predicate IsNameChar(c: char) {
    IsDigit(c) || IsLetter(c)
  }

  predicate IsIdentifier(s: string) {
    s != "" && IsLetter(s[0]) && forall i :: 0 <= i < |s| ==> IsNameChar(s[i])
  }

  /** A string or character literal of any kind, or something that starts with a digit. */
  predicate IsRejected(name: string) {
    || (|name| >= 1 && (name[0] == '"' || name[0] == '\''))
    || (|name| >= 2 && (name[0] == 'R' || name[0] == 'L' || name[0] == 'U' || name[0] == 'u')
        && (name[1] == '"' || name[1] == '\''))
    || (|name| >= 3 && name[0] == 'u' && name[1] == '8' && (name[2] == '"' || name[2] == '\''))
    || (|name| >= 1 && IsDigit(name[0]))
  }

  /** What comes before the quote of a string or character literal. */
  const LITERAL_PREFIXES := ["", "R", "L", "U", "u", "u8"]

  predicate OpensLiteral(name: string) {
    exists p :: p in LITERAL_PREFIXES && (p + "\"" <= name || p + "'" <= name)
  }

  predicate OpensNumber(name: string) {
    name != "" && '0' <= name[0] <= '9'
  }

  /** The seven tests reject what opens a literal or a number, and nothing else. */
  lemma RejectedExactly(name: string)
    ensures IsRejected(name) <==> OpensLiteral(name) || OpensNumber(name)
  {
    if IsRejected(name) && !OpensNumber(name) {
      RejectedOpens(name);
    }
    if OpensLiteral(name) {
      var p :| p in LITERAL_PREFIXES && (p + "\"" <= name || p + "'" <= name);
      var q := if p + "\"" <= name then '"' else '\'';
      assert name[|p|] == (p + [q])[|p|] == q;
      assert forall i :: 0 <= i < |p| ==> name[i] == (p + [q])[i] == p[i];
    }
  }

  lemma RejectedOpens(name: string)
    requires IsRejected(name) && !OpensNumber(name)
    ensures OpensLiteral(name)
  {
    var n, k :=
      if name[0] == '"' || name[0] == '\'' then 0 else if name[1] == '"' || name[1] == '\'' then 1 else 2,
      if name[0] == '"' || name[0] == '\'' then 0
      else if name[1] == '8' then 5
      else if name[0] == 'R' then 1 else if name[0] == 'L' then 2 else if name[0] == 'U' then 3 else 4;
    assert name[..n] == LITERAL_PREFIXES[k];
    PrefixWithNext(name, n);
    assert [name[n]] == "\"" || [name[n]] == "'";
  }

  lemma PrefixWithNext(name: string, n: nat)
    requires n < |name|
    ensures name[..n] + [name[n]] <= name
  {
  }

  // ---------- what the passes compute ----------

  datatype Brackets = Brackets(open: char, close: char)

  const PARENTHESES := Brackets('(', ')')
  const ANGLES := Brackets('<', '>')

  predicate IsBracket(c: char, b: Brackets) {
    c == b.open || c == b.close
  }

  /** How many more closing than opening brackets. */
  function Excess(s: string, b: Brackets): int {
    if s == "" then 0
    else (if s[0] == b.close then 1 else if s[0] == b.open then -1 else 0) + Excess(s[1..], b)
  }

  /** The backward scan may stop before the last `j` characters: they are balanced and no bracket precedes them. */
  predicate CanStop(name: string, j: nat, b: Brackets) {
    j < |name| && !IsBracket(name[|name| - 1 - j], b) && Excess(name[|name| - j..], b) == 0
  }

  /** `s` characters are scanned: up to the first place to stop, or all of them. */
  ghost predicate IsTail(name: string, s: nat, b: Brackets) {
    && s <= |name|
    && (forall j :: 0 <= j < s ==> !CanStop(name, j, b))
    && (s == |name| || CanStop(name, s, b))
  }

  function Tail(name: string, b: Brackets): (s: nat)
    ensures s <= |name| && IsTail(name, s, b)
  {
    TailFrom(name, 0, b)
  }

  function TailFrom(name: string, j: nat, b: Brackets): (s: nat)
    requires j <= |name|
    ensures j <= s <= |name|
    ensures forall t :: j <= t < s ==> !CanStop(name, t, b)
    ensures s == |name| || CanStop(name, s, b)
    decreases |name| - j
  {
    if j == |name| || CanStop(name, j, b) then j else TailFrom(name, j + 1, b)
  }

  lemma TailIsUnique(name: string, s: nat, b: Brackets)
    requires IsTail(name, s, b)
    ensures s == Tail(name, b)
  {
  }

  /** Where the run of name characters that ends at `e` starts. */
  function RunStart(name: string, e: nat): (lo: nat)
    requires e <= |name|
    ensures lo <= e && forall i :: lo <= i < e ==> IsNameChar(name[i])
    ensures lo == 0 || !IsNameChar(name[lo - 1])
  {
    if e == 0 || !IsNameChar(name[e - 1]) then e else RunStart(name, e - 1)
  }

  /** The name without a parenthesised tail, unless the scan ran through all of it. */
  function WithoutArguments(name: string): string {
    var s := Tail(name, PARENTHESES);
    if s < |name| then name[..|name| - s] else name
  }

  /** The last run of name characters, before or with a template suffix. */
  function WithoutScope(view: string, removeTemplateSuffix: bool): string {
    var e := |view| - Tail(view, ANGLES);
    view[RunStart(view, e)..if removeTemplateSuffix then e else |view|]
  }

  function Trim(name: string, removeTemplateSuffix: bool): string {
    if IsRejected(name) then ""
    else
      var r := WithoutScope(WithoutArguments(name), removeTemplateSuffix);
      if r != "" && IsLetter(r[0]) then r else ""
  }

  /** Unsigned 64-bit arithmetic wraps around. */
  function Wrap(x: int): nat {
    x % (SIZE_MAX + 1)
  }

  lemma WrapStep(x: int)
    ensures Wrap(Wrap(x) + 1) == Wrap(x + 1) && Wrap(Wrap(x) - 1) == Wrap(x - 1)
    ensures -SIZE_MAX <= x <= SIZE_MAX ==> (Wrap(x) == 0 <==> x == 0)
  {
    var m, q, r := SIZE_MAX + 1, x / (SIZE_MAX + 1), x % (SIZE_MAX + 1);
    DivUnique(x + 1, m, if r + 1 < m then q else q + 1, if r + 1 < m then r + 1 else 0);
    DivUnique(r + 1, m, if r + 1 < m then 0 else 1, if r + 1 < m then r + 1 else 0);
    DivUnique(x - 1, m, if r > 0 then q else q - 1, if r > 0 then r - 1 else m - 1);
    DivUnique(r - 1, m, if r > 0 then 0 else -1, if r > 0 then r - 1 else m - 1);
  }

  lemma ExcessStep(name: string, i: nat, b: Brackets)
    requires 0 < i <= |name|
    ensures Excess(name[i - 1..], b) ==
            Excess(name[i..], b) + (if name[i - 1] == b.close then 1 else if name[i - 1] == b.open then -1 else 0)
  {
    assert name[i - 1..][1..] == name[i..];
  }

  /** The scan of passes one and two; the counter `h` may wrap below zero. */
  method ScanTail(name: string, b: Brackets) returns (s: nat)
    requires |name| <= SIZE_MAX && b.open != b.close
    ensures s == Tail(name, b)
  {
    hide Wrap, Excess;
    var h: int := Wrap(0);
    s := 0;
    var i := |name|;
    ExcessBounds(name[i..], b);
    while i > 0
      invariant 0 <= i <= |name| && s == |name| - i
      invariant h == Wrap(Excess(name[i..], b))
      invariant forall j :: 0 <= j < s ==> !CanStop(name, j, b)
    {
      ExcessBounds(name[i..], b);
      ExcessStep(name, i, b);
      WrapStep(Excess(name[i..], b));
      if name[i - 1] == b.close {
        h := Wrap(h + 1);
      } else if name[i - 1] == b.open {
        h := Wrap(h - 1);
      } else if h == 0 {
        TailIsUnique(name, s, b);
        return;
      }
      s := s + 1;
      i := i - 1;
    }
    TailIsUnique(name, s, b);
  }

  lemma {:induction false} ExcessBounds(s: string, b: Brackets)
    ensures -|s| <= Excess(s, b) <= |s|
  {
    if s != "" {
      ExcessBounds(s[1..], b);
    }
  }

  /** The third pass; 0 when every character belongs to the name. */
  method FindRunStart(name: string, e: nat) returns (i: nat)
    requires e <= |name|
    ensures i == RunStart(name, e)
  {
    i := e;
    while i > 0
      invariant 0 <= i <= e && RunStart(name, e) == RunStart(name, i)
    {
      if !IsNameChar(name[i - 1]) {
        return;
      }
      i := i - 1;
    }
  }

  method RemoveArguments(name: string) returns (view: string)
    requires |name| <= SIZE_MAX
    ensures view == WithoutArguments(name)
  {
    view := name;
    var s := ScanTail(view, PARENTHESES);
    if s < |view| {
      view := view[..|view| - s];
    }
  }

  method RemoveScope(view: string, removeTemplateSuffix: bool) returns (r: string)
    requires |view| <= SIZE_MAX
    ensures r == WithoutScope(view, removeTemplateSuffix)
  {
    hide Tail, IsTail, RunStart;
    var s := ScanTail(view, ANGLES);
    var i := FindRunStart(view, |view| - s);
    r := view[i..];
    if removeTemplateSuffix {
      r := r[..|r| - s];
    }
  }

  /** The three passes; all slices are in bounds for every name whose length fits a `size_t`. */
  method PrettyName(name: string, removeTemplateSuffix: bool) returns (r: string)
    requires |name| <= SIZE_MAX
    ensures r == Trim(name, removeTemplateSuffix)
  {
    if IsRejected(name) {
      return "";
    }
    hide IsRejected, WithoutArguments, WithoutScope;
    WithoutArgumentsIsShorter(name);
    r := RemoveArguments(name);
    r := RemoveScope(r, removeTemplateSuffix);
    if !(|r| > 0 && IsLetter(r[0])) {
      r := "";
    }
  }

  lemma WithoutArgumentsIsShorter(name: string)
    ensures |WithoutArguments(name)| <= |name|
  {
  }

  /**
   With suffix removal on, the result is empty or an identifier: a contiguous slice of the name that cannot be
   extended to the left. The first pass cut the name at `end` and the second at `hi`: what they dropped is a tail
   with as many ')' as '(' and a template suffix.
   */
  lemma TrimGivesIdentifier(name: string) returns (lo: nat, hi: nat, end: nat)
    ensures lo <= hi <= end <= |name|
    ensures name[..end] == WithoutArguments(name) && hi == end - Tail(name[..end], ANGLES)
    ensures lo == RunStart(name[..end], hi)
    ensures Trim(name, true) == "" || (Trim(name, true) == name[lo..hi] && IsIdentifier(name[lo..hi]))
    ensures Trim(name, true) != "" <==> !OpensLiteral(name) && !OpensNumber(name) && lo < hi && IsLetter(name[lo])
    ensures Trim(name, true) != "" ==> (lo == 0 || !IsNameChar(name[lo - 1]))
    ensures end == |name| || (Excess(name[end..], PARENTHESES) == 0 && end > 0 && !IsBracket(name[end - 1], PARENTHESES))
    ensures Excess(name[hi..end], ANGLES) == 0 || hi == 0
  {
    hide Tail, IsRejected, Excess, RunStart, OpensLiteral;
    RejectedExactly(name);
    var view := WithoutArguments(name);
    end := |view|;
    hi := |view| - Tail(view, ANGLES);
    lo := RunStart(view, hi);
    assert WithoutScope(view, true) == view[lo..hi];
    hide WithoutScope;
    SlicesOfPrefix(name, view, lo, hi);
  }

  lemma SlicesOfPrefix(name: string, view: string, lo: nat, hi: nat)
    requires view <= name && lo <= hi <= |view|
    ensures name[..|view|] == view && name[lo..hi] == view[lo..hi] && name[hi..|view|] == view[hi..]
  {
  }

  /** A balanced tail that a backward scan runs through without stopping, such as "<a<b>, c>". */
  ghost predicate Closed(t: string, b: Brackets) {
    Excess(t, b) == 0 && forall j :: 0 <= j < |t| ==> !CanStop(t, j, b)
  }

  lemma TailOfClosed(x: string, t: string, b: Brackets)
    requires Closed(t, b) && x != "" && !IsBracket(x[|x| - 1], b)
    ensures Tail(x + t, b) == |t|
  {
    var name := x + t;
    forall j: nat | j < |t|
      ensures !CanStop(name, j, b)
    {
      assert name[|name| - j..] == t[|t| - j..];
      assert !CanStop(t, j, b);
    }
    assert name[|name| - |t|..] == t;
    TailIsUnique(name, |t|, b);
  }

  lemma {:induction false} RunStartOfIdentifier(scope: string, id: string, n: nat)
    requires n <= |id| && forall i :: 0 <= i < n ==> IsNameChar(id[i])
    requires scope == "" || !IsNameChar(scope[|scope| - 1])
    ensures RunStart(scope + id, |scope| + n) == |scope|
  {
    if n > 0 {
      RunStartOfIdentifier(scope, id, n - 1);
    }
  }

  /** Literals and numbers have no name. */
  lemma LiteralsAreNameless(name: string, removeTemplateSuffix: bool)
    requires OpensLiteral(name) || OpensNumber(name)
    ensures Trim(name, removeTemplateSuffix) == ""
  {
    RejectedExactly(name);
  }

  /** The characters of names, by their codes: letters, digits and the underscore. */
  lemma NameCharacters(c: char)
    ensures IsLetter(c) <==> 97 <= c as int <= 122 || 65 <= c as int <= 90 || c as int == 95
    ensures IsNameChar(c) <==> IsLetter(c) || 48 <= c as int <= 57
  {
  }

  /** A closed suffix starts with a bracket, so no identifier before one opens a literal. */
  lemma IdentifierIsNotRejected(id: string, targs: string, args: string)
    requires IsIdentifier(id) && Closed(targs, ANGLES) && Closed(args, PARENTHESES)
    ensures !IsRejected(id + targs + args)
  {
    hide Closed;
    ClosedStartsWithBracket(targs, ANGLES);
    ClosedStartsWithBracket(args, PARENTHESES);
    var name := id + targs + args;
    assert forall i :: 0 <= i < |id| ==> name[i] == id[i];
    assert |id| < |name| ==> name[|id|] == (targs + args)[0];
  }

  lemma ClosedStartsWithBracket(t: string, b: Brackets)
    requires Closed(t, b)
    ensures t != "" ==> IsBracket(t[0], b)
  {
    if t != "" {
      assert !CanStop(t, |t| - 1, b);
      assert t[|t| - (|t| - 1)..] == t[1..];
    }
  }

  /**
   Completeness: a scope that ends in a character no name has, an identifier, a closed template suffix and a
   closed argument list, in that order, give back the identifier. Only a scope can make it look like a literal.
   */
  lemma TrimFindsIdentifier(scope: string, id: string, targs: string, args: string)
    requires IsIdentifier(id) && (scope == "" || !IsNameChar(scope[|scope| - 1]))
    requires Closed(targs, ANGLES) && Closed(args, PARENTHESES)
    requires scope != "" ==> !OpensLiteral(scope + id + targs + args) && !OpensNumber(scope)
    ensures Trim(scope + id + targs + args, true) == id
    ensures Trim(scope + id + targs + args, false) == id + targs
  {
    hide Tail, RunStart, Closed, IsRejected, WithoutArguments, WithoutScope, OpensLiteral;
    if scope == "" {
      IdentifierIsNotRejected(id, targs, args);
      assert scope + id + targs + args == id + targs + args;
    } else {
      RejectedExactly(scope + id + targs + args);
    }
    ViewEndsWell(scope + id, id, targs);
    ArgumentsGone(scope + id + targs, args);
    ScopeGone(scope, id, targs);
  }

  lemma ViewEndsWell(named: string, id: string, targs: string)
    requires IsIdentifier(id) && |named| >= |id| && named[|named| - |id|..] == id && Closed(targs, ANGLES)
    ensures var view := named + targs; view != "" && !IsBracket(view[|view| - 1], PARENTHESES)
  {
    assert named[|named| - 1] == id[|id| - 1];
    if targs != "" {
      assert !CanStop(targs, 0, ANGLES);
      assert targs[|targs|..] == "";
    }
  }

  lemma ArgumentsGone(view: string, args: string)
    requires view != "" && !IsBracket(view[|view| - 1], PARENTHESES) && Closed(args, PARENTHESES)
    ensures WithoutArguments(view + args) == view
  {
    hide Tail, Closed;
    TailOfClosed(view, args, PARENTHESES);
    assert (view + args)[..|view|] == view;
  }

  lemma ScopeGone(scope: string, id: string, targs: string)
    requires IsIdentifier(id) && (scope == "" || !IsNameChar(scope[|scope| - 1])) && Closed(targs, ANGLES)
    ensures WithoutScope(scope + id + targs, true) == id && WithoutScope(scope + id + targs, false) == id + targs
  {
    hide Tail, IsTail, Closed, RunStart, CanStop;
    var named := scope + id;
    var view := named + targs;
    assert named[|named| - 1] == id[|id| - 1];
    TailOfClosed(named, targs, ANGLES);
    RunStartOfView(scope, id, targs);
    SlicesOfParts(scope, id, targs);
  }

  lemma SlicesOfParts(scope: string, id: string, targs: string)
    ensures var view := scope + id + targs; view[|scope|..|scope + id|] == id && view[|scope|..] == id + targs
  {
    var view := scope + id + targs;
    assert view == scope + (id + targs);
    assert |view[|scope|..|scope + id|]| == |id|;
  }

  lemma RunStartOfView(scope: string, id: string, targs: string)
    requires IsIdentifier(id) && (scope == "" || !IsNameChar(scope[|scope| - 1]))
    ensures RunStart(scope + id + targs, |scope + id|) == |scope|
  {
    RunStartOfIdentifier(scope, id + targs, |id|);
    assert scope + id + targs == scope + (id + targs);
  }

  /** Every identifier is its own name. */
  lemma IdentifiersKeepTheirName(id: string, removeTemplateSuffix: bool)
    requires IsIdentifier(id)
    ensures Trim(id, removeTemplateSuffix) == id
  {
    hide Trim;
    TrimFindsIdentifier("", id, "", "");
    assert "" + id + "" + "" == id;
  }

  predicate Plain(t: string, open: char, close: char) {
    forall i :: 0 <= i < |t| ==> t[i] != open && t[i] != close
  }

  lemma {:induction false} PlainExcess(t: string, b: Brackets)
    requires Plain(t, b.open, b.close) && b.open != b.close
    ensures Excess(t + [b.close], b) == 1
  {
    if t == "" {
      assert t + [b.close] == [b.close] && [b.close][1..] == "";
    } else {
      assert (t + [b.close])[1..] == t[1..] + [b.close];
      PlainExcess(t[1..], b);
    }
  }

  lemma BracketedIsClosed(t: string, b: Brackets)
    requires Plain(t, b.open, b.close) && b.open != b.close
    ensures Closed([b.open] + t + [b.close], b)
  {
    var all := [b.open] + t + [b.close];
    assert all[1..] == t + [b.close];
    PlainExcess(t, b);
    forall j | 0 <= j < |all|
      ensures !CanStop(all, j, b)
    {
      if 1 <= j <= |t| {
        assert all[|all| - j..] == t[|t| + 1 - j..] + [b.close];
        PlainExcess(t[|t| + 1 - j..], b);
      }
    }
  }

  /** A scope, a name, template arguments and arguments, as a compiler writes them. */
  lemma TrimFindsName(scope: string, id: string, targs: string, args: string)
    requires IsIdentifier(id) && IsIdentifier(scope)
    requires Plain(targs, '<', '>') && Plain(args, '(', ')')
    ensures var name := scope + "::" + id + ("<" + targs + ">") + ("(" + args + ")");
            Trim(name, true) == id && Trim(name, false) == id + ("<" + targs + ">")
  {
    var prefix, suffix, tail := scope + "::", "<" + targs + ">", "(" + args + ")";
    BracketedIsClosed(targs, ANGLES);
    BracketedIsClosed(args, PARENTHESES);
    ScopeOpensNothing(scope, id + suffix + tail);
    assert prefix + id + suffix + tail == scope + "::" + (id + suffix + tail);
    hide Trim, Closed, OpensLiteral;
    TrimFindsIdentifier(prefix, id, suffix, tail);
  }

  lemma ScopeOpensNothing(scope: string, rest: string)
    requires IsIdentifier(scope)
    ensures !OpensLiteral(scope + "::" + rest) && !OpensNumber(scope + "::")
  {
    var name := scope + "::" + rest;
    assert forall i :: 0 <= i < |scope| ==> name[i] == scope[i];
    assert name[|scope|] == ':' && name[|scope| + 1] == ':';
    RejectedExactly(name);
  }
}
