/**
 `scan_keyword` (third_party_examples/uwebsockets/src/date.h): reads the longest keyword
 from a stream one character at a time, keeping a status per keyword.

 The stream is good on entry; `input` is what it still holds.
 */
module KeywordScan {

  datatype Status = DoesntMatch | MightMatch | DoesMatch

  /** `toupper` in the C locale. */
  function Upper(c: char): char {
    if 'a' <= c <= 'z' then (c as int - 32) as char else c
  }

  // ---------- what the scan is meant to find ----------

  /** The same character, or the small and the capital form of one letter from a to z. */
  predicate SameLetter(c: char, d: char) {
    || c == d
    || (97 <= c as int <= 122 && d as int == c as int - 32)
    || (97 <= d as int <= 122 && c as int == d as int - 32)
  }

  /** `p` begins `kw`, whatever the case of the letters. */
  predicate Begins(p: string, kw: string) {
    |p| <= |kw| && forall i :: 0 <= i < |p| ==> SameLetter(p[i], kw[i])
  }

  /** Comparing after `toupper` ignores the case of letters and nothing else. */
  lemma UpperIgnoresCase(c: char, d: char)
    ensures Upper(c) == Upper(d) <==> SameLetter(c, d)
  {
  }

  /** What begins a keyword also begins it with letters in another case. */
  lemma BeginsInAnyCase(p: string, q: string, kw: string)
    requires |p| == |q| && forall i :: 0 <= i < |p| ==> SameLetter(p[i], q[i])
    ensures Begins(p, kw) <==> Begins(q, kw)
  {
    forall i, d | 0 <= i < |p|
      ensures SameLetter(p[i], d) <==> SameLetter(q[i], d)
    {
      UpperIgnoresCase(p[i], q[i]);
      UpperIgnoresCase(p[i], d);
      UpperIgnoresCase(q[i], d);
    }
  }

  predicate Equals(p: string, kw: string) {
    |p| == |kw| && Begins(p, kw)
  }

  /** Some keyword begins with the first `n` characters of the input. */
  predicate Viable(kws: seq<string>, input: string, n: nat)
    requires n <= |input|
  {
    exists k :: 0 <= k < |kws| && Begins(input[..n], kws[k])
  }

  /** What a status means once the characters `p` have been read. */
  function StatusOf(p: string, kw: string): Status {
    if !Begins(p, kw) then DoesntMatch else if |p| == |kw| then DoesMatch else MightMatch
  }

  /** The same, once no more characters will be read. */
  function Settled(s: Status): Status {
    if s == MightMatch then DoesntMatch else s
  }

  /** How the next character `c`, at `indx`, changes the status of one keyword. */
  function Tested(s: Status, kw: string, indx: nat, c: char): Status
    requires s == MightMatch ==> indx < |kw|
  {
    if s != MightMatch then s
    else if c != Upper(kw[indx]) then DoesntMatch
    else if |kw| == indx + 1 then DoesMatch
    else MightMatch
  }

  /** A keyword that might match takes the character `c` at `indx`. */
  predicate Takes(s: Status, kw: string, indx: nat, c: char) {
    s == MightMatch && indx < |kw| && c == Upper(kw[indx])
  }

  /** The two counters agree with the statuses. */
  ghost predicate Counted(status: seq<Status>, might: int, does: int) {
    might == multiset(status)[MightMatch] && does == multiset(status)[DoesMatch]
  }

  ghost predicate Reflects(status: seq<Status>, kws: seq<string>, p: string) {
    |status| == |kws| && forall k :: 0 <= k < |kws| ==> status[k] == StatusOf(p, kws[k])
  }

  ghost predicate ReflectsSettled(status: seq<Status>, kws: seq<string>, p: string) {
    |status| == |kws| && forall k :: 0 <= k < |kws| ==> status[k] == Settled(StatusOf(p, kws[k]))
  }

  // ---------- the loops ----------

  method InitStatus(kws: seq<string>) returns (status: array<Status>, might: int, does: int)
    ensures fresh(status) && Reflects(status[..], kws, "") && Counted(status[..], might, does)
  {
    status := new Status[|kws|](_ => MightMatch);
    might, does := |kws|, 0;
    assert Counted(status[..], might, does) by {
      AllSame(status[..], MightMatch);
    }
    for k := 0 to |kws|
      invariant forall t :: 0 <= t < k ==> status[t] == StatusOf("", kws[t])
      invariant forall t :: k <= t < |kws| ==> status[t] == MightMatch
      invariant Counted(status[..], might, does)
    {
      if |kws[k]| == 0 {
        Mark(status, k, DoesMatch, might, does);
        might, does := might - 1, does + 1;
      }
    }
  }

  lemma {:induction false} AllSame(s: seq<Status>, v: Status)
    requires forall t :: 0 <= t < |s| ==> s[t] == v
    ensures forall u :: multiset(s)[u] == if u == v then |s| else 0
  {
    if s != [] {
      var i := |s| - 1;
      AllSame(s[..i], v);
      assert s == s[..i] + [v];
    }
  }

  /** One status is assigned; the counts of the old and the new kind change with it. */
  method Mark(status: array<Status>, k: nat, v: Status, ghost might: int, ghost does: int)
    requires k < status.Length && Counted(status[..], might, does)
    modifies status
    ensures status[..] == old(status[..])[k := v]
    ensures var s := old(status[k]);
            Counted(status[..],
                    might - (if s == MightMatch then 1 else 0) + (if v == MightMatch then 1 else 0),
                    does - (if s == DoesMatch then 1 else 0) + (if v == DoesMatch then 1 else 0))
  {
    status[k] := v;
  }

  ghost predicate TestedUpTo(before: seq<Status>, now: seq<Status>, kws: seq<string>, indx: nat, c: char, k: nat)
    requires forall t :: 0 <= t < |before| && t < |kws| && before[t] == MightMatch ==> indx < |kws[t]|
  {
    && |before| == |now| == |kws| && k <= |kws|
    && (forall t :: 0 <= t < k ==> now[t] == Tested(before[t], kws[t], indx, c))
    && (forall t :: k <= t < |kws| ==> now[t] == before[t])
  }

  lemma TestedStep(before: seq<Status>, now: seq<Status>, kws: seq<string>, indx: nat, c: char, k: nat)
    requires forall t :: 0 <= t < |before| && t < |kws| && before[t] == MightMatch ==> indx < |kws[t]|
    requires TestedUpTo(before, now, kws, indx, c, k) && k < |kws|
    ensures now[k] == before[k]
    ensures TestedUpTo(before, now[k := Tested(now[k], kws[k], indx, c)], kws, indx, c, k + 1)
    ensures now[k] == Tested(now[k], kws[k], indx, c) ==> TestedUpTo(before, now, kws, indx, c, k + 1)
  {
  }

  /** Tests every keyword that might match against the next character; `taker` is one that takes it. */
  method TestCharacter(kws: seq<string>, status: array<Status>, indx: nat, c: char, might0: int, does0: int)
      returns (consume: bool, might: int, does: int, ghost taker: nat)
    requires status.Length == |kws| && Counted(status[..], might0, does0)
    requires forall k :: 0 <= k < |kws| && status[k] == MightMatch ==> indx < |kws[k]|
    modifies status
    ensures forall k :: 0 <= k < |kws| ==> status[k] == Tested(old(status[k]), kws[k], indx, c)
    ensures Counted(status[..], might, does)
    ensures consume ==> taker < |kws| && Takes(old(status[taker]), kws[taker], indx, c)
    ensures !consume ==> forall k :: 0 <= k < |kws| ==> !Takes(old(status[k]), kws[k], indx, c)
  {
    ghost var before := status[..];
    consume, might, does, taker := false, might0, does0, 0;
    for k := 0 to |kws|
      invariant TestedUpTo(before, status[..], kws, indx, c, k)
      invariant Counted(status[..], might, does)
      invariant consume ==> taker < |kws| && Takes(before[taker], kws[taker], indx, c)
      invariant !consume ==> forall t :: 0 <= t < k ==> !Takes(before[t], kws[t], indx, c)
    {
      hide Counted, TestedUpTo, Tested, Takes;
      TestedStep(before, status[..], kws, indx, c, k);
      var took;
      took, might, does := TestKeyword(kws[k], status, k, indx, c, might, does);
      if took {
        consume, taker := true, k;
      }
    }
  }

  /** One keyword against the next character. */
  method TestKeyword(kw: string, status: array<Status>, k: nat, indx: nat, c: char, might0: int, does0: int)
      returns (took: bool, might: int, does: int)
    requires k < status.Length && Counted(status[..], might0, does0)
    requires status[k] == MightMatch ==> indx < |kw|
    modifies status
    ensures status[..] == old(status[..])[k := Tested(old(status[k]), kw, indx, c)]
    ensures Counted(status[..], might, does)
    ensures took <==> Takes(old(status[k]), kw, indx, c)
  {
    hide Upper, Counted;
    took, might, does := false, might0, does0;
    if status[k] == MightMatch {
      if c == Upper(kw[indx]) {
        took := true;
        if |kw| == indx + 1 {
          Mark(status, k, DoesMatch, might, does);
          might, does := might - 1, does + 1;
        }
      } else {
        Mark(status, k, DoesntMatch, might, does);
        might := might - 1;
      }
    }
  }

  /** Keywords that matched before the character just consumed no longer match. */
  method DropShorter(kws: seq<string>, status: array<Status>, size: nat, might: int, does0: int) returns (does: int)
    requires status.Length == |kws| && Counted(status[..], might, does0)
    modifies status
    ensures forall k :: 0 <= k < |kws| ==>
              status[k] == if old(status[k]) == DoesMatch && |kws[k]| != size then DoesntMatch else old(status[k])
    ensures Counted(status[..], might, does)
  {
    does := does0;
    for k := 0 to |kws|
      invariant forall t :: 0 <= t < k ==>
                  status[t] == if old(status[t]) == DoesMatch && |kws[t]| != size then DoesntMatch else old(status[t])
      invariant forall t :: k <= t < |kws| ==> status[t] == old(status[t])
      invariant Counted(status[..], might, does)
    {
      if status[k] == DoesMatch && |kws[k]| != size {
        Mark(status, k, DoesntMatch, might, does);
        does := does - 1;
      }
    }
  }

  /** One keyword and one more character: testing and then dropping gives the status its meaning again. */
  lemma NextStatus(p: string, c: char, kw: string)
    ensures var s := Tested(StatusOf(p, kw), kw, |p|, Upper(c));
            StatusOf(p + [c], kw) == if s == DoesMatch && |kw| != |p| + 1 then DoesntMatch else s
    ensures Begins(p + [c], kw) <==> StatusOf(p, kw) == MightMatch && Upper(c) == Upper(kw[|p|])
  {
    var q := p + [c];
    assert q[..|p|] == p && q[|p|] == c;
    hide Upper, SameLetter;
    if |q| <= |kw| {
      UpperIgnoresCase(c, kw[|p|]);
      assert Begins(q, kw) <==> Begins(p, kw) && SameLetter(c, kw[|p|]) by {
        if Begins(q, kw) {
          forall i | 0 <= i < |p|
            ensures SameLetter(p[i], kw[i])
          {
            assert q[i] == p[i];
          }
        }
      }
    }
  }

  /** Two keywords still in play are two counts. */
  lemma TwoInPlay(status: seq<Status>, a: nat, b: nat)
    requires a < b < |status| && status[a] != DoesntMatch && status[b] != DoesntMatch
    ensures multiset(status)[MightMatch] + multiset(status)[DoesMatch] >= 2
  {
    var left, right := status[..b], status[b..];
    assert status == left + right;
    assert left[a] in multiset(left) && right[0] in multiset(right);
  }

  /** The statuses after `TestCharacter` and, where more than one keyword is in play, `DropShorter`. */
  lemma Consumed(kws: seq<string>, input: string, n: nat, before: seq<Status>, tested: seq<Status>, after: seq<Status>,
      taker: nat, might: int, does: int)
    requires n < |input| && Reflects(before, kws, input[..n])
    requires |tested| == |after| == |kws|
    requires forall k :: 0 <= k < |kws| ==> tested[k] == Tested(before[k], kws[k], n, Upper(input[n]))
    requires taker < |kws| && Takes(before[taker], kws[taker], n, Upper(input[n]))
    requires Counted(tested, might, does)
    requires var dropped := might + does > 1;
             forall k :: 0 <= k < |kws| ==>
               after[k] == if dropped && tested[k] == DoesMatch && |kws[k]| != n + 1 then DoesntMatch else tested[k]
    ensures Reflects(after, kws, input[..n + 1]) && Viable(kws, input, n + 1)
  {
    var p, c := input[..n], input[n];
    assert input[..n + 1] == p + [c];
    NextStatus(p, c, kws[taker]);
    assert Begins(input[..n + 1], kws[taker]);
    forall k | 0 <= k < |kws|
      ensures after[k] == StatusOf(input[..n + 1], kws[k])
    {
      NextStatus(p, c, kws[k]);
      if k < taker && tested[k] != DoesntMatch {
        TwoInPlay(tested, k, taker);
      } else if taker < k && tested[k] != DoesntMatch {
        TwoInPlay(tested, taker, k);
      }
    }
  }

  /** No keyword takes the next character: nothing longer is viable. */
  lemma NotConsumed(kws: seq<string>, input: string, n: nat, before: seq<Status>)
    requires n < |input| && Reflects(before, kws, input[..n])
    requires !exists k :: 0 <= k < |kws| && Takes(before[k], kws[k], n, Upper(input[n]))
    ensures !Viable(kws, input, n + 1)
  {
    assert input[..n + 1] == input[..n] + [input[n]];
    forall k | 0 <= k < |kws|
      ensures !Begins(input[..n + 1], kws[k])
    {
      NextStatus(input[..n], input[n], kws[k]);
    }
  }

  // ---------- the scan ----------

  /** What is known between two characters: all of `input[..n]` was read, and nothing more unless `might > 0`. */
  ghost predicate Scanned(kws: seq<string>, input: string, n: nat, status: seq<Status>, might: int) {
    && n <= |input|
    && (n == 0 || Viable(kws, input, n))
    && (might > 0 ==> Reflects(status, kws, input[..n]))
    && (might == 0 ==> ReflectsSettled(status, kws, input[..n]))
    && (might == 0 && n < |input| ==> !Viable(kws, input, n + 1))
    && (might == 0 && n == |input| ==> Reflects(status, kws, input))
  }

  /** While the statuses are exact, no keyword that might match means that the scan is over. */
  lemma ExactIsScanned(kws: seq<string>, input: string, n: nat, status: seq<Status>, might: int, does: int)
    requires n <= |input| && Reflects(status, kws, input[..n]) && Counted(status, might, does)
    requires n == 0 || Viable(kws, input, n)
    ensures Scanned(kws, input, n, status, might)
  {
    if might == 0 {
      assert forall k :: 0 <= k < |status| ==> status[k] in multiset(status);
      if n < |input| {
        NotConsumed(kws, input, n, status);
      } else {
        assert input[..n] == input;
      }
    }
  }

  lemma RefusedIsScanned(kws: seq<string>, input: string, n: nat, before: seq<Status>, status: seq<Status>, might: int, does: int)
    requires n < |input| && Reflects(before, kws, input[..n]) && Counted(status, might, does)
    requires n == 0 || Viable(kws, input, n)
    requires |status| == |kws|
    requires forall k :: 0 <= k < |kws| ==> status[k] == Tested(before[k], kws[k], n, Upper(input[n]))
    requires forall k :: 0 <= k < |kws| ==> !Takes(before[k], kws[k], n, Upper(input[n]))
    ensures might == 0 && Scanned(kws, input, n, status, might)
  {
    NotConsumed(kws, input, n, before);
    assert MightMatch !in status;
  }

  /** One turn of the scanning loop. */
  method ReadOne(kws: seq<string>, input: string, status: array<Status>, indx: nat, might0: int, does0: int)
      returns (consumed: nat, might: int, does: int)
    requires status.Length == |kws| && Counted(status[..], might0, does0) && might0 > 0
    requires indx < |input| && Scanned(kws, input, indx, status[..], might0)
    modifies status
    ensures Counted(status[..], might, does) && Scanned(kws, input, consumed, status[..], might)
    ensures might >= 0 && (might > 0 ==> consumed == indx + 1)
  {
    hide Counted, Viable, Tested, Takes, StatusOf;
    ghost var before := status[..];
    assert forall k :: 0 <= k < |kws| && status[k] == MightMatch ==> indx < |kws[k]| by {
      LongEnough(kws, input[..indx], before);
    }
    var c := Upper(input[indx]);
    var consume: bool;
    ghost var taker;
    consume, might, does, taker := TestCharacter(kws, status, indx, c, might0, does0);
    ghost var tested, does1 := status[..], does;
    CountsAreNat(tested, might, does);
    if consume {
      consumed := indx + 1;
      if might + does > 1 {
        does := DropShorter(kws, status, indx + 1, might, does);
      }
      Consumed(kws, input, indx, before, tested, status[..], taker, might, does1);
      ExactIsScanned(kws, input, indx + 1, status[..], might, does);
    } else {
      consumed := indx;
      RefusedIsScanned(kws, input, indx, before, status[..], might, does);
    }
  }

  lemma CountsAreNat(status: seq<Status>, might: int, does: int)
    requires Counted(status, might, does)
    ensures might >= 0 && does >= 0
  {
  }

  lemma LongEnough(kws: seq<string>, p: string, status: seq<Status>)
    requires Reflects(status, kws, p)
    ensures forall k :: 0 <= k < |kws| && status[k] == MightMatch ==> |p| < |kws[k]|
  {
  }

  /**
   Reads the longest prefix of the input that begins some keyword. Succeeds exactly when that
   prefix is a keyword, with the first such keyword; `eof` and `failed` are the stream's bits.
   */
  method Scan(kws: seq<string>, input: string) returns (index: nat, consumed: nat, eof: bool, failed: bool)
    ensures consumed <= |input|
    ensures consumed == 0 || Viable(kws, input, consumed)
    ensures forall n :: consumed < n <= |input| ==> !Viable(kws, input, n)
    ensures index <= |kws| && forall k :: 0 <= k < index ==> !Equals(input[..consumed], kws[k])
    ensures failed <==> index == |kws|
    ensures !failed ==> Equals(input[..consumed], kws[index])
    ensures eof <==> consumed == |input| && exists k :: 0 <= k < |kws| && |kws[k]| > |input| && Begins(input, kws[k])
  {
    var status, might, does := InitStatus(kws);
    hide Counted, Reflects, ReflectsSettled, Viable;
    consumed, eof := 0, false;
    assert input[..0] == "";
    ExactIsScanned(kws, input, 0, status[..], might, does);
    CountsAreNat(status[..], might, does);
    var indx := 0;
    while might > 0
      invariant status.Length == |kws|
      invariant Counted(status[..], might, does) && might >= 0
      invariant Scanned(kws, input, consumed, status[..], might)
      invariant might > 0 ==> indx == consumed
      invariant indx <= |input|
      invariant !eof
      decreases |input| - indx
    {
      if consumed == |input| {
        eof := true;
        break;
      }
      consumed, might, does := ReadOne(kws, input, status, indx, might, does);
      indx := indx + 1;
    }
    ScanIsLongest(kws, input, consumed, status[..], might, does);
    index := 0;
    while index < |kws| && status[index] != DoesMatch
      invariant 0 <= index <= |kws|
      invariant forall k :: 0 <= k < index ==> status[k] != DoesMatch
    {
      index := index + 1;
    }
    failed := index == |kws|;
  }

  /** At the end of the scan. */
  lemma ScanIsLongest(kws: seq<string>, input: string, n: nat, status: seq<Status>, might: int, does: int)
    requires Scanned(kws, input, n, status, might) && Counted(status, might, does)
    requires might > 0 ==> n == |input|
    ensures |status| == |kws|
    ensures forall m :: n < m <= |input| ==> !Viable(kws, input, m)
    ensures forall k :: 0 <= k < |kws| ==> (status[k] == DoesMatch <==> Equals(input[..n], kws[k]))
    ensures might > 0 <==> n == |input| && exists k :: 0 <= k < |kws| && |kws[k]| > |input| && Begins(input, kws[k])
  {
    forall m | n < m <= |input|
      ensures !Viable(kws, input, m)
    {
      ViableShorter(kws, input, n + 1, m);
    }
    if n == |input| {
      assert input[..n] == input;
      if might > 0 {
        assert MightMatch in multiset(status);
        var k :| 0 <= k < |status| && status[k] == MightMatch;
      } else {
        assert MightMatch !in multiset(status);
        assert forall k :: 0 <= k < |status| ==> status[k] in multiset(status);
      }
    }
  }

  lemma ViableShorter(kws: seq<string>, input: string, n: nat, m: nat)
    requires n <= m <= |input|
    ensures Viable(kws, input, m) ==> Viable(kws, input, n)
  {
    if Viable(kws, input, m) {
      var k :| 0 <= k < |kws| && Begins(input[..m], kws[k]);
      BeginsShorter(input, n, m, kws[k]);
    }
  }

  lemma BeginsShorter(input: string, n: nat, m: nat, kw: string)
    requires n <= m <= |input| && Begins(input[..m], kw)
    ensures Begins(input[..n], kw)
  {
    forall i | 0 <= i < n
      ensures SameLetter(input[..n][i], kw[i])
    {
      assert input[..m][i] == input[i];
    }
  }
}
