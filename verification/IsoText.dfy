/**
 ISO week dates as text: the format "%G-W%V-%u", printed and read with the default widths
 (third_party_examples/uwebsockets/src/date.h).
 */
module IsoText {
  import opened MachineInt
  import opened Basics
  import opened Civil
  import opened WeekdayDate
  import opened IsoWeek

  predicate AllDigits(s: string) {
    forall i :: 0 <= i < |s| ==> IsDigit(s[i])
  }

  /** The number a string of digits stands for. */
  function Value(s: string): int {
    if s == "" then 0 else 10 * Value(s[..|s| - 1]) + (s[|s| - 1] as int - '0' as int)
  }

  // ---------- printing ----------

  function Decimal(n: nat): (s: string)
    ensures s != "" && AllDigits(s)
  {
    var digit := [(n % 10 + '0' as int) as char];
    if n < 10 then digit else Decimal(n / 10) + digit
  }

  function Zeros(k: nat): (s: string)
    ensures |s| == k && AllDigits(s)
  {
    seq(k, _ => '0')
  }

  function Abs(x: int): nat {
    if x < 0 then -x else x
  }

  function YearDigits(y: short): string {
    var digits := Decimal(Abs(y));
    Zeros(if |digits| < 4 then 4 - |digits| else 0) + digits
  }

  /** A year: four digits or more, the zeros after the sign. */
  function YearText(y: short): string {
    (if y < 0 then "-" else "") + YearDigits(y) + (if YearOk(y) then "" else " is not a valid year")
  }

  function WeekText(wn: int): string {
    (if wn < 10 then "0" else "") + (if wn < 0 then "-" else "") + Decimal(Abs(wn))
  }

  function WeekDateText(t: YearMonthDay): string {
    var ld := ToDays(t);
    var (g, st) := Settle(ld);
    var wd := WeekdayFromDays(ld);
    YearText(g) + "-W" + WeekText(WeekBetween(st, ld)) + "-" + Decimal(if wd != 0 then wd else 7)
  }

  // ---------- reading ----------

  /** How many digits are taken, `n` of them already: at most `most`, where 0 is no limit. */
  function Run(s: string, most: nat, n: nat): (r: nat)
    requires n <= |s|
    ensures n <= r <= |s| && forall i :: n <= i < r ==> IsDigit(s[i])
    ensures n < most ==> r <= most
    decreases |s| - n
  {
    if n == |s| || !IsDigit(s[n]) then n
    else if n + 1 == most then n + 1
    else Run(s, most, n + 1)
  }

  /** A number of at least one digit, and the text after it. */
  function Unsigned(s: string, most: nat): Option<(uint32, string)> {
    var n := Run(s, most, 0);
    if n == 0 then None else Some((ToUint32(Value(s[..n])), s[n..]))
  }

  /** `x` is the number of the longest run of digits that `s` starts with, of at most `most`, and `rest` what follows. */
  ghost predicate IsField(s: string, most: nat, x: int, rest: string) {
    var n := |s| - |rest|;
    && 1 <= n <= |s| && rest == s[n..]
    && AllDigits(s[..n]) && x == Value(s[..n]) % 0x1_0000_0000
    && (most == 0 || n <= most)
    && (n == most || n == |s| || !IsDigit(s[n]))
  }

  lemma {:induction false} RunEnds(s: string, most: nat, n: nat)
    requires n <= |s| && (n < most || most == 0)
    ensures var r := Run(s, most, n); r == most != 0 || r == |s| || !IsDigit(s[r])
    decreases |s| - n
  {
    if n < |s| && IsDigit(s[n]) && n + 1 != most {
      RunEnds(s, most, n + 1);
    }
  }

  /** Reading fails only without a digit, and otherwise reads the field. */
  lemma UnsignedReadsField(s: string, most: nat)
    ensures var r := Unsigned(s, most);
            && (r.None? <==> s == "" || !IsDigit(s[0]))
            && (r.Some? ==> IsField(s, most, r.value.0, r.value.1))
  {
    RunEnds(s, most, 0);
  }

  /** `read_unsigned`: the digits are added up as they are taken, in 32 bits. */
  method ReadUnsigned(s: string, most: nat) returns (r: Option<(uint32, string)>)
    ensures r == Unsigned(s, most)
    ensures r.None? <==> s == "" || !IsDigit(s[0])
    ensures r.Some? ==> IsField(s, most, r.value.0, r.value.1)
  {
    UnsignedReadsField(s, most);
    hide ToUint32, Value, IsField;
    var x: uint32, count := 0, 0;
    EmptyValue();
    while count < |s| && IsDigit(s[count])
      invariant count <= |s| && x == ToUint32(Value(s[..count]))
      invariant Run(s, most, 0) == Run(s, most, count)
      decreases |s| - count
    {
      NextDigit(s, count);
      x := ToUint32(10 * x + (s[count] as int - '0' as int));
      count := count + 1;
      if count == most {
        break;
      }
    }
    r := if count < 1 then None else Some((x, s[count..]));
  }

  lemma EmptyValue()
    ensures ToUint32(Value("")) == 0
  {
  }

  lemma NextDigit(s: string, n: nat)
    requires n < |s|
    ensures var c := s[n] as int - '0' as int;
            ToUint32(Value(s[..n + 1])) == ToUint32(10 * ToUint32(Value(s[..n])) + c)
  {
    assert s[..n + 1][..n] == s[..n];
    var v, c := Value(s[..n]), s[n] as int - '0' as int;
    var w := 10 * v + c;
    DivUnique(10 * (v % 0x1_0000_0000) + c, 0x1_0000_0000, w / 0x1_0000_0000 - 10 * (v / 0x1_0000_0000), w % 0x1_0000_0000);
  }

  /** `read_signed`: the sign does not count as a digit. */
  function Signed(s: string, most: nat): Option<(int32, string)> {
    if s == "" || !(IsDigit(s[0]) || s[0] == '-' || s[0] == '+') then None
    else
      match Unsigned(if IsDigit(s[0]) then s else s[1..], most)
      case None => None
      case Some((x, rest)) =>
        var n: int := x;
        Some((ToInt32(if s[0] == '-' then -n else n), rest))
  }

  /** The parser on the whole format; what follows the weekday is left in the stream. */
  function ReadWeekDate(s: string): Option<YearMonthDay> {
    match Signed(s, 4)
    case None => None
    case Some((g, s')) => if "-W" <= s' then ReadWeek(g, s'[2..]) else None
  }

  function ReadWeek(g: int32, s: string): Option<YearMonthDay> {
    match Unsigned(s, 2)
    case None => None
    case Some((v, s')) => TwoDigits(s); if "-" <= s' then ReadDay(g, v, s'[1..]) else None
  }

  function ReadDay(g: int32, v: nat, s: string): Option<YearMonthDay>
    requires v < NOT_A_WEEK
  {
    match Unsigned(s, 1)
    case None => None
    case Some((u, _)) => if 1 <= u <= 7 then Parse(g, v, if u == 7 then 0 else u) else None
  }

  /** A number of two digits is a week or not, but never the mark of a missing one. */
  lemma TwoDigits(s: string)
    ensures var r := Unsigned(s, 2); r.Some? ==> r.value.0 < NOT_A_WEEK
  {
    var n := Run(s, 2, 0);
    if n >= 1 {
      assert Value(s[..1]) == s[0] as int - '0' as int by {
        assert s[..1][..0] == "";
      }
      assert n == 2 ==> s[..2][..1] == s[..1];
      SmallUint32(Value(s[..n]));
    }
  }

  // ---------- numbers and their digits ----------

  function PowerOfTen(k: nat): (p: nat)
    ensures p >= 1
  {
    if k == 0 then 1 else 10 * PowerOfTen(k - 1)
  }

  lemma {:induction false} DecimalValue(n: nat)
    ensures Value(Decimal(n)) == n
  {
    if n >= 10 {
      DecimalValue(n / 10);
      assert Decimal(n)[..|Decimal(n)| - 1] == Decimal(n / 10);
    }
  }

  lemma {:induction false} DecimalLength(n: nat, k: nat)
    requires k >= 1
    ensures |Decimal(n)| <= k <==> n < PowerOfTen(k)
  {
    if k == 1 {
      assert PowerOfTen(1) == 10;
    } else {
      assert PowerOfTen(k) == 10 * PowerOfTen(k - 1) >= 10;
      if n >= 10 {
        DecimalLength(n / 10, k - 1);
      }
    }
  }

  lemma {:induction false} LeadingZeros(k: nat, s: string)
    ensures Value(Zeros(k) + s) == Value(s)
  {
    if s != "" {
      assert (Zeros(k) + s)[..k + |s| - 1] == Zeros(k) + s[..|s| - 1];
      LeadingZeros(k, s[..|s| - 1]);
    } else if k > 0 {
      assert Zeros(k) + s == Zeros(k) && Zeros(k)[..k - 1] == Zeros(k - 1) + "";
      LeadingZeros(k - 1, "");
    }
  }

  lemma {:induction false} RunReaches(s: string, most: nat, n: nat)
    requires n < most <= |s| && AllDigits(s[..most])
    ensures Run(s, most, n) == most
    decreases most - n
  {
    assert s[..most][n] == s[n];
    if n + 1 < most {
      RunReaches(s, most, n + 1);
    }
  }

  /** From enough digits exactly `most` are taken. */
  lemma TakesDigits(digits: string, rest: string, most: nat)
    requires AllDigits(digits) && 0 < most <= |digits|
    ensures Unsigned(digits + rest, most) == Some((ToUint32(Value(digits[..most])), digits[most..] + rest))
  {
    var s := digits + rest;
    assert s[..most] == digits[..most] && s[most..] == digits[most..] + rest;
    RunReaches(s, most, 0);
  }

  lemma {:induction false} RunStops(s: string, most: nat, n: nat, m: nat)
    requires n < m <= |s| && AllDigits(s[..m]) && (most == 0 || m <= most)
    requires m == most || m == |s| || !IsDigit(s[m])
    ensures Run(s, most, n) == m
    decreases m - n
  {
    assert s[..m][n] == s[n];
    if n + 1 < m {
      RunStops(s, most, n + 1, m);
    }
  }

  /** Digits that do not fill the width are a field too, unless another digit follows. */
  lemma TakesField(digits: string, rest: string, most: nat)
    requires AllDigits(digits) && 1 <= |digits| <= most
    requires |digits| == most || rest == "" || !IsDigit(rest[0])
    ensures Unsigned(digits + rest, most) == Some((ToUint32(Value(digits)), rest))
  {
    var s, m := digits + rest, |digits|;
    assert s[..m] == digits && s[m..] == rest;
    RunStops(s, most, 0, m);
  }

  lemma {:induction false} ValueBound(s: string)
    requires AllDigits(s)
    ensures 0 <= Value(s) < PowerOfTen(|s|)
  {
    if s != "" {
      ValueBound(s[..|s| - 1]);
    }
  }

  lemma {:induction false} PowersGrow(k: nat, n: nat)
    requires k <= n
    ensures PowerOfTen(k) <= PowerOfTen(n)
  {
    if k < n {
      PowersGrow(k, n - 1);
    }
  }

  // ---------- main results ----------

  lemma YearDigitsCount(y: short)
    ensures AllDigits(YearDigits(y)) && |YearDigits(y)| >= 4 && Value(YearDigits(y)) == Abs(y)
    ensures |YearDigits(y)| == if -9999 <= y <= 9999 then 4 else 5
  {
    hide Decimal, Zeros, Value;
    var digits := Decimal(Abs(y));
    DecimalLength(Abs(y), 4);
    DecimalLength(Abs(y), 5);
    assert PowerOfTen(4) == 10000 && PowerOfTen(5) == 100000 by {
      assert PowerOfTen(2) == 100;
    }
    DecimalValue(Abs(y));
    LeadingZeros(if |digits| < 4 then 4 - |digits| else 0, digits);
  }

  /** Without its last digit a number of five digits is another number. */
  lemma DigitMissing(digits: string)
    requires |digits| == 5 && AllDigits(digits) && 10000 <= Value(digits) < 0x10000
    ensures 0 <= Value(digits[..4]) < Value(digits)
  {
    assert Value(digits) == 10 * Value(digits[..4]) + (digits[4] as int - '0' as int);
  }

  /** A printed year is read back when it has four digits; of a longer one, digits are left over. */
  lemma ReadsYear(y: short, rest: string)
    ensures var r := Signed(YearText(y) + rest, 4);
            && r.Some?
            && (r.value == (y, rest) <==> -9999 <= y <= 9999)
            && (r.value.0 == y <==> -9999 <= y <= 9999)
            && (!(-9999 <= y <= 9999) ==> r.value.1 != "" && IsDigit(r.value.1[0]))
  {
    hide YearDigits, Value, Unsigned;
    var digits := YearDigits(y);
    YearDigitsCount(y);
    var after := (if YearOk(y) then "" else " is not a valid year") + rest;
    var s := YearText(y) + rest;
    assert s == (if y < 0 then "-" else "") + (digits + after);
    assert y < 0 ==> s[1..] == digits + after;
    assert y >= 0 ==> s == digits + after && s[0] == digits[0];
    TakesDigits(digits, after, 4);
    if |digits| == 4 {
      assert digits[..4] == digits && digits[4..] + after == after == rest;
    } else {
      DigitMissing(digits);
    }
  }

  lemma TakesWeek(v: int, rest: string)
    requires 1 <= v <= 53
    ensures Unsigned(WeekText(v) + rest, 2) == Some((v, rest))
  {
    hide Decimal, Value, Unsigned;
    DecimalLength(v, 1);
    DecimalLength(v, 2);
    assert PowerOfTen(1) == 10 && PowerOfTen(2) == 100;
    DecimalValue(v);
    LeadingZeros(1, Decimal(v));
    var digits := WeekText(v);
    assert digits == if v < 10 then Zeros(1) + Decimal(v) else Decimal(v);
    TakesDigits(digits, rest, 2);
    assert digits[..2] == digits && digits[2..] + rest == rest;
  }

  lemma TakesWeekday(u: nat, rest: string)
    requires 1 <= u <= 7
    ensures Unsigned(Decimal(u) + rest, 1) == Some((u, rest))
  {
    hide Value, Unsigned;
    DecimalValue(u);
    TakesDigits(Decimal(u), rest, 1);
    assert Decimal(u)[..1] == Decimal(u) && Decimal(u)[1..] + rest == rest;
  }

  lemma ReadsWeekAndDay(g: int32, v: int, wd: nat, rest: string)
    requires 1 <= v <= 53 && wd <= 6
    ensures ReadWeek(g, WeekText(v) + ("-" + Decimal(if wd != 0 then wd else 7) + rest)) == Parse(g, v, wd)
  {
    hide Decimal, WeekText, Unsigned, Parse;
    var u := if wd != 0 then wd else 7;
    var s := "-" + Decimal(u) + rest;
    TakesWeek(v, s);
    assert "-" <= s && s[1..] == Decimal(u) + rest;
    TakesWeekday(u, rest);
  }

  /**
   The text of a valid date, with anything after it, reads back as that date exactly when its ISO year has at
   most four digits; otherwise reading fails.
   */
  lemma TextRoundTrip(t: YearMonthDay, rest: string)
    requires t.Ok()
    ensures ReadWeekDate(WeekDateText(t) + rest) == if -9999 <= IsoYear(ToDays(t)) <= 9999 then Some(t) else None
  {
    hide ToDays, Settle, WeekdayFromDays, IsoYear, LastDay, WeekBetween, Decimal, WeekText, YearText, Signed, ReadWeek, Parse;
    var ld := ToDays(t);
    var (g, st) := Settle(ld);
    var v, wd := WeekBetween(st, ld), WeekdayFromDays(ld);
    DateRoundTrip(t);
    FormatIsStandard(ld);
    FormatParseRoundTrip(t);
    var s := WeekText(v) + ("-" + Decimal(if wd != 0 then wd else 7) + rest);
    assert WeekDateText(t) + rest == YearText(g) + ("-W" + s);
    ReadsYear(g, "-W" + s);
    assert ("-W" + s)[2..] == s;
    if -9999 <= g <= 9999 {
      ReadsWeekAndDay(g, v, wd, rest);
    } else {
      var left := Signed(YearText(g) + ("-W" + s), 4).value.1;
      assert left[0] != "-W"[0];
    }
  }

  // ---------- every text ----------

  /** The number of a signed field of up to four digits. */
  function SignedValue(sign: string, digits: string): int {
    if sign == "-" then -Value(digits) else Value(digits)
  }

  predicate IsSign(sign: string) {
    sign == "" || sign == "-" || sign == "+"
  }

  lemma FieldBound(digits: string)
    requires AllDigits(digits) && |digits| <= 4
    ensures 0 <= Value(digits) <= 9999 && (|digits| <= 2 ==> Value(digits) <= 99)
  {
    hide Value;
    ValueBound(digits);
    PowersGrow(|digits|, 4);
    if |digits| <= 2 {
      PowersGrow(|digits|, 2);
    }
    assert PowerOfTen(2) == 100;
    assert PowerOfTen(4) == 100 * PowerOfTen(2);
  }

  lemma TakesSigned(sign: string, digits: string, rest: string)
    requires IsSign(sign) && AllDigits(digits) && 1 <= |digits| <= 4 && (rest == "" || !IsDigit(rest[0]))
    ensures -9999 <= SignedValue(sign, digits) <= 9999
    ensures Signed(sign + digits + rest, 4) == Some((SignedValue(sign, digits), rest))
  {
    hide Value, Unsigned, ToUint32;
    FieldBound(digits);
    TakesField(digits, rest, 4);
    SmallUint32(Value(digits));
    AfterSign(sign, digits, rest);
  }

  lemma AfterSign(sign: string, digits: string, rest: string)
    requires IsSign(sign) && AllDigits(digits) && digits != ""
    ensures var s := sign + digits + rest;
            && (if sign == "" then IsDigit(s[0]) else s[0] == sign[0])
            && (if sign == "" then s else s[1..]) == digits + rest
  {
    var s := sign + digits + rest;
    assert s == sign + (digits + rest);
  }

  function DayOf(day: char): int {
    day as int - '0' as int
  }

  lemma ReadsDayField(g: int32, v: nat, day: char, rest: string)
    requires v < NOT_A_WEEK && IsDigit(day)
    ensures ReadDay(g, v, [day] + rest) == if 1 <= DayOf(day) <= 7 then Parse(g, v, DayOf(day) % 7) else None
  {
    hide Value, Unsigned, Parse, ToUint32;
    OneDigit(day);
    SmallUint32(DayOf(day));
    TakesField([day], rest, 1);
  }

  lemma OneDigit(day: char)
    ensures Value([day]) == DayOf(day)
  {
    assert [day][..0] == "";
  }

  lemma ReadsWeekField(g: int32, week: string, day: char, rest: string)
    requires AllDigits(week) && 1 <= |week| <= 2 && IsDigit(day)
    ensures 0 <= Value(week) < NOT_A_WEEK
    ensures ReadWeek(g, week + ("-" + ([day] + rest))) == ReadDay(g, Value(week), [day] + rest)
  {
    hide ReadDay;
    FieldBound(week);
    SmallUint32(Value(week));
    var s := "-" + ([day] + rest);
    assert s[1..] == [day] + rest;
    TakesField(week, s, 2);
    hide Value, Unsigned;
  }

  /**
   Every text of the shape the format asks for is read: an optional sign, one to four digits, "-W", one or two
   digits, "-" and one digit. It is refused only if the last digit is not 1 to 7; whatever follows is left.
   */
  lemma ReadsEveryField(sign: string, year: string, week: string, day: char, rest: string)
    requires IsSign(sign) && AllDigits(year) && 1 <= |year| <= 4
    requires AllDigits(week) && 1 <= |week| <= 2 && IsDigit(day)
    ensures 0 <= Value(week) < NOT_A_WEEK && -9999 <= SignedValue(sign, year) <= 9999
    ensures ReadWeekDate(sign + year + ("-W" + (week + ("-" + ([day] + rest))))) ==
            if 1 <= DayOf(day) <= 7 then Parse(SignedValue(sign, year), Value(week), DayOf(day) % 7) else None
  {
    hide Value, Signed, ReadWeek, Parse, ReadDay, SignedValue, DayOf;
    var s := week + ("-" + ([day] + rest));
    assert ("-W" + s)[2..] == s;
    TakesSigned(sign, year, "-W" + s);
    ReadsWeekField(SignedValue(sign, year), week, day, rest);
    ReadsDayField(SignedValue(sign, year), Value(week), day, rest);
  }

  lemma FieldOf(s: string, most: nat) returns (digits: string, rest: string)
    requires most > 0 && Unsigned(s, most).Some?
    ensures s == digits + rest && rest == Unsigned(s, most).value.1
    ensures AllDigits(digits) && 1 <= |digits| <= most
  {
    UnsignedReadsField(s, most);
    rest := Unsigned(s, most).value.1;
    digits := s[..|s| - |rest|];
  }

  /** The text has the shape of the format. */
  predicate HasShape(s: string, sign: string, year: string, week: string, day: char, rest: string) {
    && s == sign + year + ("-W" + (week + ("-" + ([day] + rest))))
    && IsSign(sign) && AllDigits(year) && 1 <= |year| <= 4
    && AllDigits(week) && 1 <= |week| <= 2 && IsDigit(day)
  }

  lemma DayShape(g: int32, v: nat, s: string) returns (day: char, rest: string)
    requires v < NOT_A_WEEK
    ensures ReadDay(g, v, s).Some? ==> IsDigit(day) && s == [day] + rest
  {
    hide Unsigned, Parse;
    day, rest := '0', "";
    if ReadDay(g, v, s).Some? {
      var digits;
      digits, rest := FieldOf(s, 1);
      day := digits[0];
      assert digits == [day];
    }
  }

  lemma WeekShape(g: int32, s: string) returns (week: string, day: char, rest: string)
    ensures ReadWeek(g, s).Some? ==> AllDigits(week) && 1 <= |week| <= 2 && IsDigit(day) && s == week + ("-" + ([day] + rest))
  {
    hide Unsigned, AllDigits, ReadDay;
    week, day, rest := "", '0', "";
    if ReadWeek(g, s).Some? {
      TwoDigits(s);
      var after;
      week, after := FieldOf(s, 2);
      day, rest := DayShape(g, Unsigned(s, 2).value.0, after[1..]);
      assert after == "-" + after[1..];
    }
  }

  lemma YearShape(s: string) returns (sign: string, year: string, rest: string)
    ensures Signed(s, 4).Some? ==>
              IsSign(sign) && AllDigits(year) && 1 <= |year| <= 4 && s == sign + year + rest && rest == Signed(s, 4).value.1
  {
    hide Unsigned, AllDigits;
    sign, year, rest := "", "", "";
    if Signed(s, 4).Some? {
      sign := if IsDigit(s[0]) then "" else s[..1];
      var body := if IsDigit(s[0]) then s else s[1..];
      year, rest := FieldOf(body, 4);
      assert s == sign + body;
    }
  }

  /** Nothing else is read. */
  lemma ReadsNothingElse(s: string) returns (sign: string, year: string, week: string, day: char, rest: string)
    ensures ReadWeekDate(s).Some? ==> HasShape(s, sign, year, week, day, rest)
  {
    hide Signed, ReadWeek, AllDigits;
    sign, year, week, day, rest := "", "", "", '0', "";
    if ReadWeekDate(s).Some? {
      var after;
      sign, year, after := YearShape(s);
      week, day, rest := WeekShape(Signed(s, 4).value.0, after[2..]);
      assert after == "-W" + after[2..];
    }
  }

  /** A week of one digit is read, and Wednesday of week 5 of 2021 is 3 February. */
  lemma ReadsShortWeek()
    ensures ReadWeekDate("2021-W5-3") == Some(YearMonthDay(2021, 2, 3))
  {
    assert Value("2021") == 2021 by {
      assert "2021"[..3] == "202" && "202"[..2] == "20" && "20"[..1] == "2";
      assert Value("2") == 2 && Value("20") == 20 && Value("202") == 202;
    }
    assert Value("5") == 5;
    assert "2021-W5-3" == "" + "2021" + ("-W" + ("5" + ("-" + (['3'] + ""))));
    ReadsEveryField("", "2021", "5", '3', "");
    hide ReadWeekDate, Value;
    WeekFiveOf2021();
  }

  lemma WeekFiveOf2021()
    ensures Parse(2021, 5, 3) == Some(YearMonthDay(2021, 2, 3))
  {
    hide ToDays, FromDays, WeekOneStart, Count;
    Around2021();
    ToDaysIsCount(YearMonthDay(2021, 2, 3));
    DateRoundTrip(YearMonthDay(2021, 2, 3));
    WeekdayIsPeriodic(18661);
  }

  lemma SomeDecimals()
    ensures Decimal(1) == "1" && Decimal(42) == "42" && Decimal(2022) == "2022" && Decimal(32768) == "32768"
  {
    assert Decimal(2) == "2" && Decimal(20) == "20" && Decimal(202) == "202";
    assert Decimal(3) == "3" && Decimal(32) == "32" && Decimal(327) == "327" && Decimal(3276) == "3276";
    assert Decimal(4) == "4";
  }

  lemma SomeYears()
    ensures YearText(2022) == "2022" && YearText(-42) == "-0042"
  {
    hide Decimal;
    SomeDecimals();
    assert YearDigits(2022) == "2022" && YearDigits(-42) == "0042" by {
      assert Zeros(2) == "00" && Zeros(0) == "";
    }
    hide YearDigits;
  }

  /** On the first two days of the calendar the text shows the wrapped year and the negative week. */
  lemma FirstDaysText(t: YearMonthDay) returns (week: nat, day: nat)
    requires t.Ok()
    ensures InFirstPartialWeek(ToDays(t)) ==>
              && week > 0
              && WeekDateText(t) == "-32768" + " is not a valid year" + "-W" + ("0-" + Decimal(week)) + "-" + Decimal(day)
  {
    hide ToDays, Settle, WeekdayFromDays, WeekBetween, Decimal, IsoYear, IsoWeekNumber, WeekOneStart;
    var ld := ToDays(t);
    DateRoundTrip(t);
    week := Abs(WeekBetween(Settle(ld).1, ld));
    day := if WeekdayFromDays(ld) != 0 then WeekdayFromDays(ld) else 7;
    if InFirstPartialWeek(ld) {
      FormatIsStandard(ld);
      PartialWeek(ld);
      LowestYear();
      NegativeWeek(WeekBetween(Settle(ld).1, ld));
      hide YearText, WeekText;
    }
  }

  lemma LowestYear()
    ensures YearText(-0x8000) == "-32768" + " is not a valid year"
  {
    SomeDecimals();
    hide Decimal;
    assert YearDigits(-0x8000) == "32768" by {
      assert Zeros(0) == "";
    }
    hide YearDigits;
    assert "-" + "32768" == "-32768";
  }

  lemma NegativeWeek(wn: int)
    requires wn < 0
    ensures WeekText(wn) == "0-" + Decimal(-wn)
  {
    hide Decimal;
    assert "0" + ("-" + Decimal(-wn)) == "0-" + Decimal(-wn);
  }

  /** 3 January 2022 prints as the Monday of week 1. */
  lemma PrintsFirstMonday()
    ensures WeekDateText(YearMonthDay(2022, 1, 3)) == "2022-W01-1"
  {
    hide ToDays, Settle, WeekdayFromDays, WeekBetween, Count, Decimal, YearText, Weeks, Parse, WeekOneStart;
    Around2021();
    WeekFiftyThreeOf2021();
    ToDaysIsCount(YearMonthDay(2022, 1, 3));
    WeekdayIsPeriodic(18995);
    SomeDecimals();
    SomeYears();
  }
}
