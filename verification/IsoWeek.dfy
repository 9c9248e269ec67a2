/**
 ISO week dates: the %G and %V conversions and their inverse in the parser
 (third_party_examples/uwebsockets/src/date.h).

 The reference is section 4.1.4 of ISO 8601:2004: weeks start on Monday, and a week
 belongs to the year that holds its Thursday.
 */
module IsoWeek {
  import opened MachineInt
  import opened Civil
  import opened WeekdayDate
  import opened Basics

  const MONDAY: uchar := 1
  const THURSDAY: uchar := 4
  const NOT_A_YEAR := -0x8000
  const NOT_A_WEEK := 100
  const NOT_A_WEEKDAY := 8

  // ---------- the standard ----------

  /** The Thursday of the week of day `ld`. */
  function ThursdayOf(ld: int): int {
    ld - (ld + 3) % 7 + 3
  }

  ghost function IsoYear(ld: int): int {
    Locate(ThursdayOf(ld)).0
  }

  ghost function IsoWeekNumber(ld: int): int {
    (ThursdayOf(ld) - Count(IsoYear(ld), 1, 1)) / 7 + 1
  }

  // ---------- the code ----------

  /** The Monday after the last Thursday of December of the year before; years wrap as `short`s. */
  function WeekOneStart(y: int): int {
    LastToDays(ToShort(y - 1), 12, THURSDAY) + Minus(MONDAY, THURSDAY)
  }

  /** The year and first Monday both conversions settle on, after at most one step back. */
  function Settle(ld: int32): (short, int)
    requires ld + 3 + 719468 < 0x8000_0000
  {
    var y := FromDays(ld + 3).y;
    var st := WeekOneStart(y);
    if ld < st then (ToShort(y - 1), WeekOneStart(ToShort(y - 1))) else (y, st)
  }

  function WeekBetween(st: int, ld: int): int {
    TruncDiv(ld - st, 7) + 1
  }

  /** Format %G: `failed` is the stream's failbit. */
  method FormatYear(ymd: YearMonthDay) returns (failed: bool, y: short)
    ensures failed == !ymd.Ok()
    ensures y == Settle(ToDays(ymd)).0
    ensures ymd.Ok() ==> y == IsoYear(ToDays(ymd))
  {
    hide ToDays, FromDays, WeekOneStart, IsoYear;
    if ymd.Ok() {
      DateRoundTrip(ymd);
      FormatIsStandard(ToDays(ymd));
    }
    failed := false;
    if !ymd.Ok() {
      failed := true;
    }
    var ld := ToDays(ymd);
    y := FromDays(ld + 3).y;
    var start := WeekOneStart(y);
    if ld < start {
      y := ToShort(y - 1);
    }
  }

  /** Format %V: the week number before it is padded to two digits. */
  method FormatWeek(ymd: YearMonthDay) returns (failed: bool, wn: int)
    ensures failed == !ymd.Ok()
    ensures wn == WeekBetween(Settle(ToDays(ymd)).1, ToDays(ymd))
    ensures ymd.Ok() && !InFirstPartialWeek(ToDays(ymd)) ==> wn == IsoWeekNumber(ToDays(ymd))
  {
    hide ToDays, FromDays, WeekOneStart, WeekBetween, IsoYear, IsoWeekNumber;
    if ymd.Ok() {
      DateRoundTrip(ymd);
      FormatIsStandard(ToDays(ymd));
    }
    failed := false;
    if !ymd.Ok() {
      failed := true;
    }
    var ld := ToDays(ymd);
    var y: int := FromDays(ld + 3).y;
    var st := WeekOneStart(y);
    if ld < st {
      y := ToShort(y - 1);
      st := WeekOneStart(y);
    }
    wn := WeekBetween(st, ld);
  }

  /** The parser's combination of %G, %V and a weekday; `None` when a field is missing or they disagree. */
  function Parse(g: int32, v: int, wd: int): Option<YearMonthDay>
    requires 0 <= v <= NOT_A_WEEK && 0 <= wd <= NOT_A_WEEKDAY
  {
    hide ToDays, FromDays;
    if g == NOT_A_YEAR || v == NOT_A_WEEK || wd == NOT_A_WEEKDAY then None
    else
      WeekOneStartFits(g);
      var trial := FromDays(WeekOneStart(g) + 7 * (v - 1) + Minus(Weekday(wd), MONDAY));
      if trial.Ok() && wd != Minus(WeekdayFromDays(ToDays(trial)), 0) then None else Some(trial)
  }

  lemma WeekOneStartFits(y: int)
    ensures -14_000_000 < WeekOneStart(y) < 14_000_000
  {
    hide ToDays, WeekdayFromDays;
  }

  /** Where the wrapped year before `stored` is really `y - 1`, the start is the standard's first Monday. */
  lemma WeekOneStartIsStandard(stored: short, y: int)
    requires ToShort(stored - 1) == y - 1
    ensures var st := WeekOneStart(stored); st % 7 == 4 && Count(y, 1, 1) - 3 <= st <= Count(y, 1, 1) + 3
  {
    hide ToDays, WeekdayFromDays, LastDay, YearStart, MonthStart;
    assert LastDay(y - 1, 12) == 31 by { LastOfDecember(y - 1); }
    ToDaysIsCount(YearMonthDay(y - 1, 12, 31));
    LastIsLast(y - 1, 12, THURSDAY);
    DecemberMeetsJanuary(y);
    var thu: int := LastToDays(y - 1, 12, THURSDAY);
    WeekdayIsPeriodic(thu);
    assert Minus(MONDAY, THURSDAY) == 4;
  }

  lemma LastOfDecember(y: int)
    ensures LastDay(y, 12) == 31
  {
  }

  lemma DecemberMeetsJanuary(y: int)
    ensures Count(y, 1, 1) == Count(y - 1, 12, 31) + 1
  {
    hide YearStart;
  }

  // ---------- the standard's weeks, seen from 1 January ----------

  lemma YearIs(x: int, y: int)
    ensures Locate(x).0 == y <==> Count(y, 1, 1) <= x < Count(y + 1, 1, 1)
  {
    hide Locate, Count;
    YearRange(x, y, y);
    DecemberMeetsJanuary(y + 1);
  }

  lemma YearSize(y: int)
    ensures 365 <= Count(y + 1, 1, 1) - Count(y, 1, 1) <= 366
  {
    hide YearStart;
    YearLength(y - 1);
  }

  /** One backward correction finds the standard's year. */
  lemma OneStepBack(ld: int, st: int)
    requires var y := Locate(ld + 3).0; st % 7 == 4 && Count(y, 1, 1) - 3 <= st <= Count(y, 1, 1) + 3
    ensures IsoYear(ld) == Locate(ld + 3).0 - (if ld < st then 1 else 0)
  {
    hide Locate, Count;
    var y, thu := Locate(ld + 3).0, ThursdayOf(ld);
    YearIs(ld + 3, y);
    YearSize(y - 1);
    YearIs(thu, y);
    YearIs(thu, y - 1);
    WeeksAlign(ld, st);
  }

  /** Days of one week are on one side of a Monday. */
  lemma WeeksAlign(ld: int, st: int)
    requires st % 7 == 4
    ensures var thu := ThursdayOf(ld);
            if ld < st then thu <= st - 4 else thu >= st + 3 && (ld - st) / 7 == (thu - st - 3) / 7 && (thu - st - 3) % 7 == 0
  {
    var k, r := (ld - st) / 7, (ld - st) % 7;
    DivUnique(ld + 3, 7, (st + 3) / 7 + k, r);
    assert ThursdayOf(ld) == st + 7 * k + 3;
  }

  lemma WeekFromStart(ld: int, st: int)
    requires st % 7 == 4
    ensures var j := Count(IsoYear(ld), 1, 1);
            j - 3 <= st <= j + 3 ==>
              ld >= st && WeekBetween(st, ld) == IsoWeekNumber(ld) && 1 <= IsoWeekNumber(ld) <= 53
  {
    hide Locate, Count;
    var y, thu := IsoYear(ld), ThursdayOf(ld);
    YearIs(thu, y);
    YearSize(y);
    WeeksAlign(ld, st);
    if Count(y, 1, 1) - 3 <= st <= Count(y, 1, 1) + 3 {
      var k := (ld - st) / 7;
      assert thu == st + 3 + 7 * k;
      DivUnique(thu - Count(y, 1, 1), 7, k, st + 3 - Count(y, 1, 1));
    }
  }

  // ---------- main results ----------

  /** The two days whose ISO year, -32768, is stored but whose year before does not fit a `short`. */
  predicate InFirstPartialWeek(ld: int) {
    FIRST_DAY <= ld < FIRST_DAY + 2
  }

  /** The first guess of the year may wrap to -32768, but the year before it is then right. */
  lemma FirstGuess(ld: int)
    requires FIRST_DAY <= ld <= LAST_DAY
    ensures var y, stored := Locate(ld + 3).0, FromDays(ld + 3).y;
            && -0x7fff <= y <= 0x8000
            && stored == ToShort(y) && ToShort(stored - 1) == y - 1
            && (InFirstPartialWeek(ld) ==> y == -0x7fff)
  {
    hide Locate, Count, FromDays, ToShort;
    FromDaysIsLocate(ld + 3);
    Bounds();
    DecemberMeetsJanuary(0x8000);
    YearSize(0x8000);
    YearSize(-0x7fff);
    YearRange(ld + 3, -0x7fff, 0x7fff);
    YearIs(ld + 3, 0x8000);
    YearIs(ld + 3, -0x7fff);
    ShortWraps(Locate(ld + 3).0);
  }

  /** Both ends of the calendar fall well: it ends on a Sunday, and its first Monday is its third day. */
  lemma GuessAtTheEnds(ld: int)
    requires FIRST_DAY <= ld <= LAST_DAY
    ensures var y, st := Locate(ld + 3).0, WeekOneStart(FromDays(ld + 3).y);
            && (y == 0x8000 ==> ld < st)
            && (y == -0x7fff ==> st == FIRST_DAY + 2)
  {
    hide Locate, Count, FromDays, WeekOneStart, ToShort, ToDays;
    FirstGuess(ld);
    WeekOneStartIsStandard(FromDays(ld + 3).y, Locate(ld + 3).0);
    Bounds();
    DecemberMeetsJanuary(0x8000);
  }

  /** Every day of the calendar has a week number from 1 to 53. */
  lemma WeekNumberRange(ld: int)
    ensures 1 <= IsoWeekNumber(ld) <= 53
  {
    hide Count, Locate, IsoWeekNumber;
    var j := Count(IsoYear(ld), 1, 1);
    WeekFromStart(ld, j + 3 - (j + 3 - 4) % 7);
  }

  /** On the two exceptional days the wrapped year puts week 1 at the other end of the calendar. */
  lemma PartialWeek(ld: int)
    requires InFirstPartialWeek(ld)
    ensures WeekBetween(WeekOneStart(-0x8000), ld) < 0
  {
    hide Count, WeekOneStart;
    WeekOneStartIsStandard(-0x8000, 0x8000);
    Bounds();
    DecemberMeetsJanuary(0x8000);
  }

  /** Week and year are the standard's, and the week is in 1..53, except on the first two days of the calendar. */
  lemma FormatIsStandard(ld: int)
    requires FIRST_DAY <= ld <= LAST_DAY
    ensures var (y, st) := Settle(ld);
            && y == IsoYear(ld)
            && (WeekBetween(st, ld) == IsoWeekNumber(ld) <==> !InFirstPartialWeek(ld))
            && (1 <= WeekBetween(st, ld) <= 53 <==> !InFirstPartialWeek(ld))
            && st == WeekOneStart(y)
            && (y == NOT_A_YEAR <==> InFirstPartialWeek(ld))
            && (!InFirstPartialWeek(ld) ==> st <= ld && st % 7 == 4)
  {
    hide Locate, Count, FromDays, WeekOneStart, ToShort, IsoWeekNumber;
    FirstGuess(ld);
    GuessAtTheEnds(ld);
    var y0, stored := Locate(ld + 3).0, FromDays(ld + 3).y;
    WeekOneStartIsStandard(stored, y0);
    OneStepBack(ld, WeekOneStart(stored));
    var (y, st) := Settle(ld);
    assert y == IsoYear(ld) by {
      ShortFits(y0);
    }
    WeekNumberRange(ld);
    if InFirstPartialWeek(ld) {
      PartialWeek(ld);
    } else {
      ShortFits(y - 1);
      WeekOneStartIsStandard(y, y);
      WeekFromStart(ld, st);
    }
  }

  lemma WeekOffset(ld: int, st: int)
    requires st <= ld && st % 7 == 4
    ensures st + 7 * (WeekBetween(st, ld) - 1) + ((ld + 4) % 7 - 1) % 7 == ld
  {
    var k, r := (ld - st) / 7, (ld - st) % 7;
    DivUnique(ld + 3, 7, (st + 3) / 7 + k, r);
    DivUnique((ld + 4) % 7 - 1, 7, (ld + 3) / 7 - (ld + 4) / 7, r);
  }

  lemma ParsesBack(t: YearMonthDay, g: short, v: int)
    requires t.Ok() && g != NOT_A_YEAR && 1 <= v <= 53
    ensures var ld, st := ToDays(t), WeekOneStart(g);
            st <= ld && st % 7 == 4 && WeekBetween(st, ld) == v ==> Parse(g, v, WeekdayFromDays(ld)) == Some(t)
  {
    hide ToDays, FromDays, WeekOneStart, WeekdayFromDays, LastDay, WeekBetween, Weekday, Minus;
    var ld := ToDays(t);
    DateRoundTrip(t);
    WeekdayIsPeriodic(ld);
    SmallWeekday(WeekdayFromDays(ld));
    MinusIsModulo(WeekdayFromDays(ld), MONDAY);
    MinusIsModulo(WeekdayFromDays(ld), 0);
    if WeekOneStart(g) <= ld && WeekOneStart(g) % 7 == 4 {
      WeekOffset(ld, WeekOneStart(g));
    }
  }

  /** The printed year and week with the weekday parse back to the date, except on those two days. */
  lemma FormatParseRoundTrip(t: YearMonthDay)
    requires t.Ok()
    ensures var ld := ToDays(t);
            var (g, st) := Settle(ld);
            var v := WeekBetween(st, ld);
            !InFirstPartialWeek(ld) <==> 0 <= v <= 53 && Parse(g, v, WeekdayFromDays(ld)) == Some(t)
  {
    hide ToDays, FromDays, WeekOneStart, Settle, WeekdayFromDays, IsoYear, IsoWeekNumber, LastDay, WeekBetween, Parse;
    var ld := ToDays(t);
    var (g, st) := Settle(ld);
    DateRoundTrip(t);
    FormatIsStandard(ld);
    if !InFirstPartialWeek(ld) {
      ParsesBack(t, g, WeekBetween(st, ld));
    } else {
      PartialWeek(ld);
    }
  }

  /** The number of ISO weeks of a year: 28 December is always in the last one. */
  ghost function Weeks(g: int): int {
    IsoWeekNumber(Count(g, 12, 28))
  }

  lemma LastWeek(g: int, st: int, v: int)
    requires st % 7 == 4 && Count(g, 1, 1) - 3 <= st <= Count(g, 1, 1) + 3
    ensures st + 3 + 7 * (v - 1) < Count(g + 1, 1, 1) <==> v <= Weeks(g)
  {
    hide Locate, Count;
    var x := Count(g, 12, 28);
    assert x == Count(g + 1, 1, 1) - 4 by {
      DecemberMeetsJanuary(g + 1);
      DecemberDays(g);
    }
    YearSize(g);
    YearIs(ThursdayOf(x), g);
    WeekFromStart(x, st);
    WeeksAlign(x, st);
    assert ThursdayOf(x) == st + 3 + 7 * (Weeks(g) - 1);
  }

  lemma DecemberDays(y: int)
    ensures Count(y, 12, 28) == Count(y, 12, 31) - 3
  {
  }

  /** Days just outside the calendar are stored in year -32768, which is not valid. */
  lemma NearCalendar(dp: int)
    requires FIRST_DAY - 340 <= dp <= LAST_DAY + 340
    ensures FromDays(dp).Ok() <==> FIRST_DAY <= dp <= LAST_DAY
    ensures FromDays(dp).Ok() ==> ToDays(FromDays(dp)) == dp
  {
    hide ToDays, FromDays, Locate, LastDay, Count, ToShort;
    DayNumberRoundTrip(dp);
    FromDaysIsLocate(dp);
    Bounds();
    YearSize(-0x8000);
    YearSize(0x8000);
    DecemberMeetsJanuary(0x8000);
    YearIs(dp, -0x8000);
    YearIs(dp, 0x8000);
    ShortWraps(0x8000);
    assert ToShort(0x8000) == -0x8000 && ToShort(-0x8000) == -0x8000 by {
      ShortFits(-0x8000);
      TopYearWraps();
    }
  }

  lemma TopYearWraps()
    ensures ToShort(0x8000) == -0x8000
  {
  }

  lemma ParsedDate(g: short, v: int, wd: int) returns (dp: int)
    requires g != NOT_A_YEAR && 0 <= v < NOT_A_WEEK && 0 <= wd <= 6
    ensures -13_000_000 < dp < 13_000_000 && Parse(g, v, wd) == Some(FromDays(dp))
    ensures FromDays(dp).Ok() ==> FIRST_DAY <= dp <= LAST_DAY && ToDays(FromDays(dp)) == dp
    ensures v >= 1 ==> WeekOneStart(g) <= dp && WeekBetween(WeekOneStart(g), dp) == v
  {
    hide ToDays, FromDays, WeekOneStart, WeekdayFromDays, LastDay, Count, ToShort, Minus;
    var st := WeekOneStart(g);
    ShortFits(g - 1);
    WeekOneStartIsStandard(g, g);
    MinusIsModulo(Weekday(wd), MONDAY);
    dp := st + 7 * (v - 1) + (wd - 1) % 7;
    DayOfWeek(st, v, wd);
    YearBounds(g);
    NearCalendar(dp);
    if FromDays(dp).Ok() {
      hide WeekBetween;
      WeekdayIsPeriodic(dp);
      MinusIsModulo(WeekdayFromDays(dp), 0);
    }
  }

  lemma DayOfWeek(st: int, v: int, wd: int)
    requires st % 7 == 4 && 0 <= wd <= 6
    ensures var dp := st + 7 * (v - 1) + (wd - 1) % 7;
            (dp + 4) % 7 == wd && (v >= 1 ==> st <= dp && WeekBetween(st, dp) == v)
  {
    var r := (wd - 1) % 7;
    var dp := st + 7 * (v - 1) + r;
    DivUnique(dp - st, 7, v - 1, r);
    DivUnique(dp + 4, 7, (st + 4) / 7 + v - 1 + (if wd == 0 then 1 else 0), wd);
  }

  lemma YearBounds(g: short)
    requires g != NOT_A_YEAR
    ensures FIRST_DAY <= Count(g, 1, 1) < LAST_DAY - 363
  {
    hide Count;
    Bounds();
    DecemberMeetsJanuary(g + 1);
    YearSize(g);
    assert Exists(g, 1, 1) && Exists(-0x7fff, 1, 1) && Exists(0x7fff, 12, 31) && Exists(g, 12, 31);
    if g > -0x7fff {
      CountGrows(-0x7fff, 1, 1, g, 1, 1);
    }
    if g < 0x7fff {
      CountGrows(g, 12, 31, 0x7fff, 12, 31);
    }
  }

  lemma PrintedWeek(g: short, v: int, ld: int)
    requires g != NOT_A_YEAR && FIRST_DAY <= ld <= LAST_DAY
    ensures WeekOneStart(g) <= ld && WeekBetween(WeekOneStart(g), ld) == v ==>
              var (y, st) := Settle(ld); y == g && WeekBetween(st, ld) == v <==> v <= Weeks(g)
  {
    hide Locate, Count, FromDays, WeekOneStart, ToShort, IsoWeekNumber, Weeks, Settle;
    var st := WeekOneStart(g);
    assert ToShort(g - 1) == g - 1 by {
      ShortFits(g - 1);
    }
    WeekOneStartIsStandard(g, g);
    WeeksAlign(ld, st);
    LastWeek(g, st, v);
    YearIs(ThursdayOf(ld), g);
    FormatIsStandard(ld);
    if st <= ld && WeekBetween(st, ld) == v {
      assert ThursdayOf(ld) == st + 3 + 7 * (v - 1);
    }
  }

  lemma MarkerIsRefused(v: int, wd: int)
    requires 0 <= v < NOT_A_WEEK && 0 <= wd <= 6
    ensures Parse(-0x8000, v, wd) == None
  {
  }

  /**
   For every year, every week number of two digits and every weekday: a year that fits a `short` always gives
   a date, and a valid date prints as it was read exactly when the year fits and has that week.
   */
  lemma ParseFormatRoundTrip(g: int32, v: int, wd: int)
    requires 0 <= v < NOT_A_WEEK && 0 <= wd <= 6
    ensures var r := Parse(g, v, wd);
            && (-0x7fff <= g <= 0x7fff ==> r.Some?)
            && (g == -0x8000 ==> r.None?)
            && (r.Some? && r.value.Ok() ==>
                  var ld := ToDays(r.value);
                  var (y, st) := Settle(ld);
                  y == g && WeekBetween(st, ld) == v <==> -0x7fff <= g <= 0x7fff && 1 <= v <= Weeks(g))
  {
    hide ToDays, FromDays, WeekOneStart, Settle, Parse, LastDay, Weeks, WeekBetween, IsoYear;
    var r := Parse(g, v, wd);
    MarkerIsRefused(v, wd);
    if r.Some? && r.value.Ok() {
      DateRoundTrip(r.value);
      FormatIsStandard(ToDays(r.value));
    }
    if -0x7fff <= g <= 0x7fff {
      var dp := ParsedDate(g, v, wd);
      if FromDays(dp).Ok() && v >= 1 {
        PrintedWeek(g, v, dp);
      }
    }
  }

  lemma Around2021()
    ensures Count(2021, 1, 1) == 18628 && Count(2022, 1, 1) == 18993 && Count(2022, 1, 3) == 18995
    ensures Count(2020, 12, 28) == 18624 && Count(2021, 2, 3) == 18661
    ensures WeekOneStart(2021) == 18631 && WeekOneStart(2022) == 18995
  {
    hide WeekOneStart;
    assert Count(2021, 1, 1) == 18628 && Count(2022, 1, 1) == 18993;
    WeekOneStartIsStandard(2021, 2021);
    WeekOneStartIsStandard(2022, 2022);
  }

  /** The parser does not check the week: week 53 of 2021, which has 52, is read as week 1 of 2022. */
  lemma WeekFiftyThreeOf2021()
    ensures Weeks(2021) == 52 && Parse(2021, 53, 1) == Some(YearMonthDay(2022, 1, 3))
    ensures var ld := ToDays(YearMonthDay(2022, 1, 3));
            var (y, st) := Settle(ld);
            y == 2022 && WeekBetween(st, ld) == 1
  {
    hide ToDays, FromDays, WeekOneStart, Count, Settle, Weeks, Locate, IsoWeekNumber;
    Around2021();
    LastWeek(2021, 18631, 52);
    LastWeek(2021, 18631, 53);
    ToDaysIsCount(YearMonthDay(2022, 1, 3));
    DateRoundTrip(YearMonthDay(2022, 1, 3));
    WeekdayIsPeriodic(18995);
    FormatIsStandard(18995);
    YearIs(ThursdayOf(18995), 2022);
    YearSize(2022);
  }

  /** Nor is week 0 refused: it is the week before week 1. */
  lemma WeekZeroOf2021()
    ensures YearMonthDay(2020, 12, 28).Ok() && Parse(2021, 0, 1) == Some(YearMonthDay(2020, 12, 28))
  {
    hide ToDays, FromDays, WeekOneStart, Count;
    Around2021();
    ToDaysIsCount(YearMonthDay(2020, 12, 28));
    DateRoundTrip(YearMonthDay(2020, 12, 28));
    WeekdayIsPeriodic(18624);
  }

  /** On 1 January -32767 the code prints year -32768 and a negative week. */
  lemma FirstDayMisprints()
    ensures FIRST.Ok() && Settle(ToDays(FIRST)).0 == NOT_A_YEAR
    ensures WeekBetween(Settle(ToDays(FIRST)).1, ToDays(FIRST)) < 0
  {
    hide ToDays, FromDays, WeekOneStart, IsoWeekNumber, Settle;
    Bounds();
    FormatIsStandard(FIRST_DAY);
    PartialWeek(FIRST_DAY);
  }
}
