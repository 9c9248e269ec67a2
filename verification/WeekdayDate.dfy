/**
 Weekdays, and dates given as the n-th or the last weekday of a month
 (third_party_examples/uwebsockets/src/date.h).
 */
module WeekdayDate {
  import opened MachineInt
  import opened Civil

  /** A weekday is stored in a byte; 0 is Sunday and 7 is stored as 0. */
  function Weekday(wd: uint32): uchar {
    ToUchar(if wd != 7 then wd else 0)
  }

  function WeekdayFromDays(z: int32): (wd: uchar)
    ensures wd <= 6
  {
    var u := ToUint32(z);
    ToUchar(if z >= -4 then ToUint32(u + 4) % 7 else u % 7)
  }

  /** Sunday is 0 or 7, and the codes from 8 up stay what they are: no weekday. */
  lemma WeekdayCodes(wd: uchar)
    ensures wd <= 7 ==> Weekday(wd) == wd % 7
    ensures wd > 7 ==> Weekday(wd) == wd
  {
  }

  /** `weekday - weekday`, a number of days. */
  function Minus(x: uchar, y: uchar): int {
    var wdu := x - y;
    var wk := TruncDiv(if wdu >= 0 then wdu else wdu - 6, 7);
    wdu - wk * 7
  }

  /** `weekday + days`. */
  function Plus(x: uchar, n: int32): uchar {
    var wdu := x + n;
    var wk := TruncDiv(if wdu >= 0 then wdu else wdu - 6, 7);
    Weekday(ToUint32(wdu - wk * 7))
  }

  /** The unsigned wrap-around below -4 lands on the right day: 2^32 is 4 modulo 7. */
  lemma WeekdayIsPeriodic(z: int32)
    ensures WeekdayFromDays(z) == (z + 4) % 7
  {
    hide ToUint32, ToUchar;
    if z < 0 {
      WrappedUint32(z + 0x1_0000_0000);
    } else {
      SmallUint32(z);
    }
    if z >= -4 {
      SmallUint32(z + 4);
      WrappedUint32(z + 4);
    } else {
      DivUnique(z + 0x1_0000_0000, 7, (z + 4) / 7 + 613566756, (z + 4) % 7);
    }
    SmallUchar((z + 4) % 7);
  }

  lemma MinusIsModulo(x: uchar, y: uchar)
    ensures Minus(x, y) == (x - y) % 7
  {
    FloorByTruncation(x - y, 7);
  }

  /** Adding days to a weekday is addition modulo 7, undone by the difference. */
  lemma PlusIsModulo(x: uchar, n: int32)
    ensures Plus(x, n) == (x + n) % 7
    ensures x < 7 ==> Minus(Plus(x, n), x) == n % 7
  {
    hide TruncDiv, ToUint32, Minus;
    FloorByTruncation(x + n, 7);
    SmallUint32((x + n) % 7);
    MinusIsModulo((x + n) % 7, x);
    if x < 7 {
      DivUnique((x + n) % 7 - x, 7, (n / 7) - (x + n) / 7, n % 7);
    }
  }

  /** Adding days to a weekday is walking the calendar: it agrees with the day numbers. */
  lemma PlusFollowsDays(z: int32, n: int32)
    requires -0x8000_0000 <= z + n < 0x8000_0000
    ensures Plus(WeekdayFromDays(z), n) == WeekdayFromDays(z + n)
  {
    hide Plus, WeekdayFromDays;
    WeekdayIsPeriodic(z);
    WeekdayIsPeriodic(z + n);
    PlusIsModulo(WeekdayFromDays(z), n);
    DivUnique((z + 4) % 7 + n, 7, (z + n + 4) / 7 - (z + 4) / 7, (z + n + 4) % 7);
  }

  // ---------- the n-th weekday of a month ----------

  /** Weekday and index are four-bit fields. */
  type nibble = x: int | 0 <= x < 0x10

  datatype YearMonthWeekday = YearMonthWeekday(y: short, m: uchar, wd: nibble, index: nibble) {

    /** `operator==`, which compares the weekdays after 7 has become 0. */
    predicate Same(that: YearMonthWeekday) {
      y == that.y && m == that.m && Weekday(wd) == Weekday(that.wd) && index == that.index
    }

    function FirstOfMonth(): int32 {
      ToDays(YearMonthDay(y, m, 1))
    }

    predicate Ok() {
      if !YearOk(y) || !(1 <= m <= 12) || !(Weekday(wd) <= 6) || index < 1 then false
      else if index <= 4 then true
      else
        var d2 := Minus(Weekday(wd), WeekdayFromDays(FirstOfMonth())) + ((index - 1) * 7 + 1);
        ToUint32(d2) <= LastDay(y, m)
    }
  }

  function NthToDays(w: YearMonthWeekday): int {
    var d := w.FirstOfMonth();
    d + (Minus(Weekday(w.wd), WeekdayFromDays(d)) + ToInt32(ToUint32((w.index - 1) * 7)))
  }

  function NthFromDays(dp: int32): YearMonthWeekday
    requires dp + 719468 < 0x8000_0000
  {
    var ymd := FromDays(dp);
    YearMonthWeekday(ymd.y, ymd.m, WeekdayFromDays(dp) % 0x10, (ToUint32(ymd.d - 1) / 7 + 1) % 0x10)
  }

  /** The last weekday `wd` of a month. */
  function LastToDays(y: short, m: uchar, wd: uchar): int {
    var d := ToDays(YearMonthDay(y, m, LastDay(y, m)));
    d - Minus(WeekdayFromDays(d), wd)
  }

  /** The `d`-th is the `w.index`-th `w.wd` of its month: the meaning of a `YearMonthWeekday`. */
  predicate IsNth(w: YearMonthWeekday, d: uchar) {
    && 1 <= d <= LastDay(w.y, w.m)
    && WeekdayFromDays(ToDays(YearMonthDay(w.y, w.m, d))) == Weekday(w.wd)
    && (d - 1) / 7 + 1 == w.index
  }

  lemma DayOfMonth(y: short, m: uchar, d: uchar)
    requires 1 <= m <= 12 && 1 <= d
    ensures ToDays(YearMonthDay(y, m, d)) == ToDays(YearMonthDay(y, m, 1)) + d - 1
  {
    hide ToDays, YearStart, MonthStart;
    ToDaysIsCount(YearMonthDay(y, m, d));
    ToDaysIsCount(YearMonthDay(y, m, 1));
  }

  /** Which day of the month the `index`-th `wd` is, when the month starts on weekday `a`. */
  lemma NthArithmetic(first: int, wd: int, index: int, d: int)
    requires 0 <= wd <= 6
    ensures var a := (first + 4) % 7;
            (first + d - 1 + 4) % 7 == wd && (d - 1) / 7 + 1 == index
            <==> d == (wd - a) % 7 + (index - 1) * 7 + 1
  {
    var a := (first + 4) % 7;
    var q := (first + 4) / 7;
    var off := (wd - a) % 7;
    assert wd == a + off || wd == a + off - 7;
    if d == off + (index - 1) * 7 + 1 {
      DivUnique(d - 1, 7, index - 1, off);
      DivUnique(first + 4 + d - 1, 7, q + (index - 1) + (if wd == a + off then 0 else 1), wd);
    }
    if (first + d - 1 + 4) % 7 == wd && (d - 1) / 7 + 1 == index {
      DivUnique(wd - a, 7, (first + d - 1 + 4) / 7 * -1 + q + (index - 1), (d - 1) % 7);
    }
  }

  /** For every month, weekday code and index, 0 included: so many weeks after the first such weekday. */
  lemma NthToDaysIsPlain(w: YearMonthWeekday)
    ensures var first := w.FirstOfMonth();
            NthToDays(w) == first + (Weekday(w.wd) - WeekdayFromDays(first)) % 7 + 7 * (w.index - 1)
  {
    hide ToDays, WeekdayFromDays, Minus, Weekday;
    MinusIsModulo(Weekday(w.wd), WeekdayFromDays(w.FirstOfMonth()));
  }

  /** In a valid month: which day is the n-th weekday, and where `to_days` puts it. */
  lemma NthIsOneDay(w: YearMonthWeekday, d: uchar)
    requires 1 <= w.m <= 12 && Weekday(w.wd) <= 6 && w.index >= 1
    ensures var day := Minus(Weekday(w.wd), WeekdayFromDays(w.FirstOfMonth())) + (w.index - 1) * 7 + 1;
            && (IsNth(w, d) <==> d == day <= LastDay(w.y, w.m))
            && 1 <= day <= 7 * w.index
            && (1 <= d == day ==> NthToDays(w) == ToDays(YearMonthDay(w.y, w.m, d)))
  {
    hide ToDays, WeekdayFromDays, Minus, Weekday, LastDay;
    var first := w.FirstOfMonth();
    WeekdayIsPeriodic(first);
    MinusIsModulo(Weekday(w.wd), WeekdayFromDays(first));
    NthArithmetic(first, Weekday(w.wd), w.index, d);
    if 1 <= d {
      DayOfMonth(w.y, w.m, d);
      WeekdayIsPeriodic(ToDays(YearMonthDay(w.y, w.m, d)));
    }
  }

  /** `ok()` says that the month has that weekday that many times, for every index. */
  lemma NthOk(w: YearMonthWeekday)
    ensures w.Ok() <==> YearOk(w.y) && 1 <= w.m <= 12 && exists d :: IsNth(w, d)
  {
    hide ToDays, WeekdayFromDays, LastDay, Weekday;
    if YearOk(w.y) && 1 <= w.m <= 12 && Weekday(w.wd) <= 6 && w.index >= 1 {
      var day := Minus(Weekday(w.wd), WeekdayFromDays(w.FirstOfMonth())) + (w.index - 1) * 7 + 1;
      NthIsOneDay(w, 1);
      NthIsOneDay(w, day);
      LastDayRange(w.y, w.m);
      SmallUint32(day);
      if d :| IsNth(w, d) {
        NthIsOneDay(w, d);
      }
    } else if d :| IsNth(w, d) {
      WeekdayIsPeriodic(ToDays(YearMonthDay(w.y, w.m, d)));
    }
  }

  /** In a date, 7 stands for Sunday as 0 does, and no code from 8 up is a weekday. */
  lemma SevenIsSunday(w: YearMonthWeekday)
    ensures w.(wd := 7).Ok() <==> w.(wd := 0).Ok()
    ensures w.wd > 7 ==> !w.Ok()
  {
    hide WeekdayFromDays, ToDays, LastDay, Minus, ToUint32;
    WeekdayCodes(7);
    WeekdayCodes(0);
    WeekdayCodes(w.wd);
  }

  lemma LastDayRange(y: int, m: int)
    ensures 28 <= LastDay(y, m) <= 31
    ensures !(1 <= m <= 12) ==> LastDay(y, m) == 29
  {
  }

  /** From a valid n-th weekday to its day number and back. */
  lemma NthRoundTrip(w: YearMonthWeekday)
    requires w.Ok()
    ensures FIRST_DAY <= NthToDays(w) <= LAST_DAY
    ensures NthFromDays(NthToDays(w)).Same(w)
  {
    hide NthToDays, NthFromDays, Weekday, Minus, ToUint32, ToDays, WeekdayFromDays, LastDay;
    NthOk(w);
    var d: uchar :| IsNth(w, d);
    NthIsOneDay(w, d);
    DayIsNth(w, d);
  }

  lemma SmallWeekday(wd: int)
    requires 0 <= wd <= 6
    ensures Weekday(wd) == wd
  {
  }

  /** The day number of the `index`-th weekday gives back weekday and index. */
  lemma DayIsNth(w: YearMonthWeekday, d: uchar)
    requires YearMonthDay(w.y, w.m, d).Ok()
    ensures var dp := ToDays(YearMonthDay(w.y, w.m, d));
            FIRST_DAY <= dp <= LAST_DAY && (IsNth(w, d) ==> NthFromDays(dp).Same(w))
  {
    hide ToDays, FromDays, WeekdayFromDays, LastDay, ToUint32, Weekday;
    var t := YearMonthDay(w.y, w.m, d);
    DateRoundTrip(t);
    SmallUint32(d - 1);
    LastDayRange(w.y, w.m);
    SmallWeekday(WeekdayFromDays(ToDays(t)));
  }

  /** From a day number to its n-th weekday and back. */
  lemma NthOfDayNumber(dp: int)
    requires FIRST_DAY <= dp <= LAST_DAY
    ensures NthFromDays(dp).Ok() && NthToDays(NthFromDays(dp)) == dp
  {
    hide ToDays, FromDays, WeekdayFromDays, NthToDays, LastDay, ToUint32;
    var w, t := NthFromDays(dp), FromDays(dp);
    DayNumberRoundTrip(dp);
    SmallUint32(t.d - 1);
    LastDayRange(t.y, t.m);
    assert IsNth(w, t.d);
    NthOk(w);
    NthIsOneDay(w, t.d);
  }

  /** The last `wd` of a month is a `wd`, in that month, with no later one. */
  lemma LastIsLast(y: short, m: uchar, wd: uchar)
    requires 1 <= m <= 12 && wd <= 6
    ensures var d := LastToDays(y, m, wd) - ToDays(YearMonthDay(y, m, 1)) + 1;
            && LastDay(y, m) - 7 < d <= LastDay(y, m)
            && ToDays(YearMonthDay(y, m, d)) == LastToDays(y, m, wd)
            && WeekdayFromDays(ToDays(YearMonthDay(y, m, d))) == wd
  {
    hide ToDays, WeekdayFromDays, LastDay, Minus;
    var e := LastDay(y, m);
    var last: int := ToDays(YearMonthDay(y, m, e));
    LastDayRange(y, m);
    DayOfMonth(y, m, e);
    WeekdayIsPeriodic(last);
    MinusIsModulo(WeekdayFromDays(last), wd);
    var back := Minus(WeekdayFromDays(last), wd);
    DayOfMonth(y, m, e - back);
    WeekdayIsPeriodic(ToDays(YearMonthDay(y, m, e - back)));
    BackToWeekday(last, wd);
  }

  lemma BackToWeekday(last: int, wd: int)
    requires 0 <= wd <= 6
    ensures (last - ((last + 4) % 7 - wd) % 7 + 4) % 7 == wd
  {
    var a := (last + 4) % 7;
    DivUnique(last - (a - wd) % 7 + 4, 7, (last + 4) / 7 + (a - wd) / 7, wd);
  }
}
