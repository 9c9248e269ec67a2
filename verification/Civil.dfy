/**
 Civil dates and day numbers (third_party_examples/uwebsockets/src/date.h).

 `ToDays` and `FromDays` are the library's closed forms with their machine types;
 `Next` and `NthDay` are the Gregorian calendar, one day at a time.
 */
module Civil {
  import opened MachineInt

  datatype YearMonthDay = YearMonthDay(y: short, m: uchar, d: uchar) {

    /** `operator<` on dates. */
    predicate Less(that: YearMonthDay) {
      if y < that.y then true
      else if y > that.y then false
      else if m < that.m then true
      else if m > that.m then false
      else d < that.d
    }

    predicate Ok() {
      YearOk(y) && 1 <= m <= 12 && 1 <= d <= LastDay(y, m)
    }
  }

  const EPOCH := YearMonthDay(1970, 1, 1)
  const FIRST := YearMonthDay(-32767, 1, 1)
  const LAST := YearMonthDay(32767, 12, 31)

  /** The day numbers of `FIRST` and `LAST`, and of the first day of year -32768. */
  const FIRST_DAY := -12687428
  const LAST_DAY := 11248737
  const LOWEST_DAY := -12687794

  predicate YearOk(y: short) {
    y != -0x8000
  }

  predicate IsLeap(y: int) {
    y % 4 == 0 && (y % 100 != 0 || y % 400 == 0)
  }

  /** `year_month_day_last::day`: a month that is not 1..12 counts 29 days. */
  function LastDay(y: int, m: int): uchar {
    if (m != 2 || !IsLeap(y)) && 1 <= m <= 12
    then [31, 28, 31, 30, 31, 30, 31, 31, 30, 31, 30, 31][m - 1]
    else 29
  }

  function ToDays(ymd: YearMonthDay): (r: int32)
    ensures -13_000_000 < r < 13_000_000
  {
    hide TruncDiv, ToUint32, ToInt32;
    var y := ymd.y - (if ymd.m <= 2 then 1 else 0);
    var m: uint32 := ymd.m;
    var era := TruncDiv(if y >= 0 then y else y - 399, 400);
    var yoe := ToUint32(y - era * 400);
    var doy := ToUint32((153 * (if m > 2 then m - 3 else m + 9) + 2) / 5 + ymd.d - 1);
    var doe := ToUint32(yoe * 365 + yoe / 4 - yoe / 100 + doy);
    ToDaysFits(y, (153 * (if m > 2 then m - 3 else m + 9) + 2) / 5 + ymd.d - 1);
    era * 146097 + ToInt32(doe) - 719468
  }

  /** The sum with 719468 is a signed 32-bit addition, so it must not overflow. */
  function FromDays(dp: int32): YearMonthDay
    requires dp + 719468 < 0x8000_0000
  {
    var z := dp + 719468;
    var era := TruncDiv(if z >= 0 then z else z - 146096, 146097);
    DateInEra(era, ToUint32(z - era * 146097))
  }

  /** The second half of `from_days`: the date of day `doe` of an era of 400 years. */
  function DateInEra(era: int, doe: uint32): YearMonthDay {
    var yoe := ToUint32(doe - doe / 1460 + doe / 36524 - doe / 146096) / 365;
    var y := yoe + era * 400;
    var doy := ToUint32(doe - (365 * yoe + yoe / 4 - yoe / 100));
    var mp := ToUint32(5 * doy + 2) / 153;
    var d := ToUint32(doy - (153 * mp + 2) / 5 + 1);
    var m := if mp < 10 then mp + 3 else ToUint32(mp - 9);
    YearMonthDay(ToShort(y + (if m <= 2 then 1 else 0)), ToUchar(m), ToUchar(d))
  }

  // ---------- the calendar, one day at a time ----------

  function Next(t: YearMonthDay): YearMonthDay {
    if t.d < LastDay(t.y, t.m) then YearMonthDay(t.y, t.m, t.d + 1)
    else if t.m < 12 then YearMonthDay(t.y, t.m + 1, 1)
    else YearMonthDay(ToShort(t.y + 1), 1, 1)
  }

  // ---------- years and months laid end to end ----------

  /** Days before 1 March of year `y`, counted from 1 March of year 0. */
  function YearStart(y: int): int {
    365 * y + y / 4 - y / 100 + y / 400
  }

  /** Days of the March-based year before month `m`. */
  function MonthStart(m: int): int {
    (153 * (if m > 2 then m - 3 else m + 9) + 2) / 5
  }

  function MarchYear(y: int, m: int): int {
    if m <= 2 then y - 1 else y
  }

  /** The day number of the `d`-th of month `m` of year `y`, for a year of any size. */
  function Count(y: int, m: int, d: int): int {
    YearStart(MarchYear(y, m)) + MonthStart(m) + d - 1 - 719468
  }

  predicate Exists(y: int, m: int, d: int) {
    1 <= m <= 12 && 1 <= d <= LastDay(y, m)
  }

  lemma YearLength(y: int)
    ensures YearStart(y + 1) == YearStart(y) + 365 + (if IsLeap(y + 1) then 1 else 0)
  {
    hide IsLeap;
    DivStep(y, 4);
    DivStep(y, 100);
    DivStep(y, 400);
    LeapByDivision(y + 1);
  }

  lemma LeapByDivision(y: int)
    ensures (if IsLeap(y) then 1 else 0) ==
            (if y % 4 == 0 then 1 else 0) - (if y % 100 == 0 then 1 else 0) + (if y % 400 == 0 then 1 else 0)
  {
    if y % 400 == 0 {
      DivUnique(y, 100, 4 * (y / 400), 0);
    }
    if y % 100 == 0 {
      DivUnique(y, 4, 25 * (y / 100), 0);
    }
  }

  lemma YearStartGrows(y: int, y': int)
    requires y < y'
    ensures YearStart(y) + 365 <= YearStart(y')
    decreases y' - y
  {
    YearLength(y);
    if y + 1 < y' {
      YearStartGrows(y + 1, y');
    }
  }

  /** Months laid end to end: every month but February ends where the next begins, February ends the year. */
  lemma MonthLength(y: int, m: int)
    requires 1 <= m <= 12
    ensures m != 2 ==> MonthStart(m) + LastDay(y, m) == MonthStart(if m == 12 then 1 else m + 1)
    ensures m == 2 ==> MonthStart(m) + LastDay(y, m) == 365 + (if IsLeap(y) then 1 else 0)
    ensures MonthStart(3) == 0
  {
  }

  lemma CountGrows(y: int, m: int, d: int, y': int, m': int, d': int)
    requires Exists(y, m, d) && Exists(y', m', d')
    requires y < y' || (y == y' && (m < m' || (m == m' && d < d')))
    ensures Count(y, m, d) < Count(y', m', d')
  {
    hide YearStart, IsLeap;
    MonthLength(y, m);
    YearLength(y - 1);
    if y < y' {
      YearStartGrows(y - 1, y' - 1);
      YearStartGrows(y' - 1, y');
      if y < y' - 1 {
        YearStartGrows(y, y' - 1);
      }
    }
  }

  // ---------- from a day number to its year, month and day ----------

  /** The days of the first `yoe` years of an era of 400 years. */
  function EraDays(yoe: int): int {
    365 * yoe + yoe / 4 - yoe / 100
  }

  function EraYear(doe: int): int {
    (doe - doe / 1460 + doe / 36524 - doe / 146096) / 365
  }

  /** Month and day of month of the `doy`-th day of a March-based year. */
  function MonthAndDay(doy: int): (int, int) {
    var mp := (5 * doy + 2) / 153;
    (if mp < 10 then mp + 3 else mp - 9, doy - (153 * mp + 2) / 5 + 1)
  }

  /** `from_days` on unbounded integers: no wrap-around, division rounding down. */
  ghost function Locate(dp: int): (int, int, int) {
    var z := dp + 719468;
    var era, doe := z / 146097, z % 146097;
    var yoe := EraYear(doe);
    var (m, d) := MonthAndDay(doe - EraDays(yoe));
    (yoe + era * 400 + (if m <= 2 then 1 else 0), m, d)
  }

  lemma YearStartByEra(era: int, yoe: int)
    requires 0 <= yoe < 400
    ensures YearStart(yoe + era * 400) == 146097 * era + EraDays(yoe)
  {
    var y := yoe + era * 400;
    DivUnique(y, 4, yoe / 4 + 100 * era, yoe % 4);
    DivUnique(y, 100, yoe / 100 + 4 * era, yoe % 100);
    DivUnique(y, 400, era, yoe);
  }

  lemma LeapByEra(r: int, era: int)
    ensures IsLeap(r + era * 400) == IsLeap(r)
  {
    var y := r + era * 400;
    DivUnique(y, 4, r / 4 + 100 * era, r % 4);
    DivUnique(y, 100, r / 100 + 4 * era, r % 100);
    DivUnique(y, 400, r / 400 + era, r % 400);
  }

  /** The year found inside an era is the one whose days contain `doe`. */
  lemma YearOfEra(doe: int)
    requires 0 <= doe < 146097
    ensures var yoe := EraYear(doe);
            0 <= yoe < 400 && 0 <= doe - EraDays(yoe) <= (if IsLeap(yoe + 1) then 365 else 364)
  {
    var c := if doe / 36524 < 3 then doe / 36524 else 3;
    var d1 := doe - 36524 * c;
    var q, d2 := d1 / 1461, d1 % 1461;
    var s := if d2 / 365 < 3 then d2 / 365 else 3;
    YearOfEraSplit(doe, c, q, s, d2 - 365 * s);
  }

  lemma YearOfEraSplit(doe: int, c: int, q: int, s: int, t: int)
    requires 0 <= c <= 3 && 0 <= q <= 24 && 0 <= s <= 3 && 0 <= t <= 365
    requires doe == 36524 * c + 1461 * q + 365 * s + t
    requires t == 365 ==> s == 3 && (q < 24 || c == 3)
    ensures var yoe := 100 * c + 4 * q + s;
            && EraYear(doe) == yoe
            && doe - EraDays(yoe) == t
            && (t == 365 ==> IsLeap(yoe + 1))
  {
    var yoe := 100 * c + 4 * q + s;
    DivUnique(yoe, 4, 25 * c + q, s);
    DivUnique(yoe, 100, c, 4 * q + s);
    var rest := 24 * c + q + 365 * s + t;
    var late := if rest >= 1460 then 1 else 0;
    DivUnique(doe, 1460, 25 * c + q + late, rest - 1460 * late);
    CenturyOfEra(doe, c);
    DivUnique(doe - doe / 1460 + c, 365, yoe, t - late);
  }

  lemma CenturyOfEra(doe: int, c: int)
    requires 0 <= c <= 3 && 36524 * c <= doe < 36524 * (c + 1) + (if c == 3 then 1 else 0)
    ensures doe / 36524 - doe / 146096 == c
  {
  }

  lemma MonthOfYear(doy: int)
    requires 0 <= doy <= 365
    ensures var (m, d) := MonthAndDay(doy);
            && 1 <= m <= 12 && 1 <= d <= 31
            && MonthStart(m) + d - 1 == doy
            && (m > 2 ==> doy < 365)
            && (forall y :: doy < 365 || IsLeap(y) ==> d <= LastDay(y, m))
  {
  }

  lemma LocateCounts(dp: int)
    ensures var (y, m, d) := Locate(dp); Exists(y, m, d) && Count(y, m, d) == dp
  {
    hide EraYear, EraDays, MonthAndDay, MonthStart, YearStart, IsLeap, LastDay;
    var z := dp + 719468;
    var era, doe := z / 146097, z % 146097;
    YearOfEra(doe);
    var yoe := EraYear(doe);
    MonthOfYear(doe - EraDays(yoe));
    YearStartByEra(era, yoe);
    LeapByEra(yoe + 1, era);
  }

  // ---------- the machine arithmetic ----------

  /** `to_days` computes the plain count of years, months and days, whatever the month and the day. */
  lemma ToDaysIsCount(t: YearMonthDay)
    ensures ToDays(t) == Count(t.y, t.m, t.d)
  {
    hide YearStart, TruncDiv, ToUint32, ToInt32;
    var y := MarchYear(t.y, t.m);
    ToDaysFits(y, MonthStart(t.m) + t.d - 1);
    YearStartByEra(y / 400, y % 400);
  }

  /** Nothing in `to_days` overflows; the unsigned day 0 wraps around and back. */
  lemma ToDaysFits(y: int, doy: int)
    requires -0x8001 <= y < 0x8000 && -1 <= doy < 10000
    ensures var era := TruncDiv(if y >= 0 then y else y - 399, 400);
            var yoe := ToUint32(y - era * 400);
            && era == y / 400 && yoe == y % 400
            && -83 <= era <= 81
            && 0 <= EraDays(yoe) < 146097
            && ToInt32(ToUint32(EraDays(yoe) + ToUint32(doy))) == EraDays(yoe) + doy
  {
    hide TruncDiv, ToUint32, ToInt32;
    FloorByTruncation(y, 400);
    SmallUint32(y % 400);
    WrapAndBack(EraDays(y % 400), doy);
  }

  /** The only machine effect that reaches the result of `from_days` is the year's `short`. */
  lemma FromDaysIsLocate(dp: int32)
    requires dp + 719468 < 0x8000_0000
    ensures var (y, m, d) := Locate(dp); FromDays(dp) == YearMonthDay(ToShort(y), m, d)
  {
    hide DateInEra, TruncDiv, ToUint32, EraYear, EraDays, MonthAndDay;
    var z := dp + 719468;
    FloorByTruncation(z, 146097);
    SmallUint32(z % 146097);
    DateInEraUnwrapped(z / 146097, z % 146097);
  }

  lemma DateInEraUnwrapped(era: int, doe: uint32)
    requires doe < 146097
    ensures var yoe := EraYear(doe);
            var (m, d) := MonthAndDay(doe - EraDays(yoe));
            && 1 <= m <= 12 && 1 <= d <= 31
            && DateInEra(era, doe) == YearMonthDay(ToShort(yoe + era * 400 + (if m <= 2 then 1 else 0)), m, d)
  {
    hide ToShort, EraYear, ToUint32, ToUchar, MonthAndDay;
    FromDaysUnwrapped(doe);
    MonthUnwrapped(doe - EraDays(EraYear(doe)));
    MonthOfYear(doe - EraDays(EraYear(doe)));
  }

  lemma FromDaysUnwrapped(doe: int)
    requires 0 <= doe < 146097
    ensures ToUint32(doe) == doe
    ensures ToUint32(doe - doe / 1460 + doe / 36524 - doe / 146096) / 365 == EraYear(doe)
    ensures ToUint32(doe - EraDays(EraYear(doe))) == doe - EraDays(EraYear(doe))
    ensures 0 <= doe - EraDays(EraYear(doe)) <= 365
  {
    hide ToUint32, EraDays;
    YearOfEra(doe);
    SmallUint32(doe);
    SmallUint32(doe - doe / 1460 + doe / 36524 - doe / 146096);
    SmallUint32(doe - EraDays(EraYear(doe)));
  }

  lemma MonthUnwrapped(doy: int)
    requires 0 <= doy <= 365
    ensures var mp := (5 * doy + 2) / 153;
            var (m, d) := MonthAndDay(doy);
            && ToUint32(5 * doy + 2) / 153 == mp
            && (if mp < 10 then mp + 3 else ToUint32(mp - 9)) == m == ToUchar(m)
            && ToUchar(ToUint32(doy - (153 * mp + 2) / 5 + 1)) == d
  {
    MonthOfYear(doy);
    hide ToUint32, ToUchar;
    var mp := (5 * doy + 2) / 153;
    SmallUint32(5 * doy + 2);
    SmallUint32(if mp < 10 then 0 else mp - 9);
    SmallUint32(doy - (153 * mp + 2) / 5 + 1);
    SmallUchar(MonthAndDay(doy).0);
    SmallUchar(MonthAndDay(doy).1);
  }

  // ---------- main results ----------

  /** One calendar day later is one day number higher, and the day stays inside the calendar. */
  lemma NextIsPlusOne(t: YearMonthDay)
    requires t.Ok() && t != LAST
    ensures Next(t).Ok() && ToDays(Next(t)) == ToDays(t) + 1
  {
    hide ToDays, YearStart, IsLeap;
    ToDaysIsCount(t);
    ToDaysIsCount(Next(t));
    MonthLength(t.y, t.m);
    YearLength(t.y - 1);
  }

  /** Day numbers order dates as `operator<` does. */
  lemma ToDaysIsMonotone(s: YearMonthDay, t: YearMonthDay)
    requires s.Ok() && t.Ok()
    ensures s.Less(t) <==> ToDays(s) < ToDays(t)
    ensures s == t <==> ToDays(s) == ToDays(t)
  {
    ToDaysIsCount(s);
    ToDaysIsCount(t);
    if s.Less(t) {
      CountGrows(s.y, s.m, s.d, t.y, t.m, t.d);
    } else if t.Less(s) {
      CountGrows(t.y, t.m, t.d, s.y, s.m, s.d);
    }
  }

  lemma Bounds()
    ensures ToDays(EPOCH) == 0
    ensures ToDays(FIRST) == FIRST_DAY && ToDays(LAST) == LAST_DAY
    ensures Count(-0x7fff, 1, 1) == FIRST_DAY && Count(0x7fff, 12, 31) == LAST_DAY
    ensures Count(-0x8000, 1, 1) == LOWEST_DAY
  {
    hide ToDays;
    ToDaysIsCount(EPOCH);
    ToDaysIsCount(FIRST);
    ToDaysIsCount(LAST);
  }

  /** A day number lies between two dates exactly when its year does. */
  lemma YearRange(dp: int, lo: int, hi: int)
    requires lo <= hi
    ensures var (y, m, d) := Locate(dp); lo <= y <= hi <==> Count(lo, 1, 1) <= dp <= Count(hi, 12, 31)
  {
    hide Locate, Count;
    var (y, m, d) := Locate(dp);
    LocateCounts(dp);
    assert Exists(lo, 1, 1) && Exists(hi, 12, 31);
    if y < lo {
      CountGrows(y, m, d, lo, 1, 1);
    } else if (y, m, d) != (lo, 1, 1) {
      CountGrows(lo, 1, 1, y, m, d);
    }
    if y > hi {
      CountGrows(hi, 12, 31, y, m, d);
    } else if (y, m, d) != (hi, 12, 31) {
      CountGrows(y, m, d, hi, 12, 31);
    }
  }

  /**
   From a day number to a date and back. The number survives exactly when its year fits
   the `short` that stores it; the date is then valid unless it is in year -32768.
   */
  lemma DayNumberRoundTrip(dp: int32)
    requires dp + 719468 < 0x8000_0000
    ensures ToDays(FromDays(dp)) == dp <==> LOWEST_DAY <= dp <= LAST_DAY
    ensures LOWEST_DAY <= dp <= LAST_DAY ==> (FromDays(dp).Ok() <==> FIRST_DAY <= dp)
  {
    hide ToDays, FromDays, Locate, YearStart, MonthStart, LastDay, ToShort;
    var (y, m, d) := Locate(dp);
    LocateCounts(dp);
    FromDaysIsLocate(dp);
    Bounds();
    YearRange(dp, -0x8000, 0x7fff);
    YearRange(dp, -0x7fff, 0x7fff);
    ToDaysIsCount(FromDays(dp));
    var y' := FromDays(dp).y;
    ShortFits(y);
    if y' < y {
      YearStartGrows(MarchYear(y', m), MarchYear(y, m));
    } else if y < y' {
      YearStartGrows(MarchYear(y, m), MarchYear(y', m));
    }
  }

  /** From a valid date to its day number and back. */
  lemma DateRoundTrip(t: YearMonthDay)
    requires t.Ok()
    ensures FIRST_DAY <= ToDays(t) <= LAST_DAY
    ensures FromDays(ToDays(t)) == t
  {
    hide ToDays, FromDays;
    Bounds();
    if t != FIRST {
      ToDaysIsMonotone(FIRST, t);
    }
    if t != LAST {
      ToDaysIsMonotone(t, LAST);
    }
    DayNumberRoundTrip(ToDays(t));
    ToDaysIsMonotone(FromDays(ToDays(t)), t);
  }

  /** The date `n` days after the first one, found by walking the calendar. */
  ghost function Walk(n: nat): YearMonthDay {
    if n == 0 then FIRST else Next(Walk(n - 1))
  }

  lemma {:induction false} WalkCounts(n: nat)
    requires n <= LAST_DAY - FIRST_DAY
    ensures Walk(n).Ok() && ToDays(Walk(n)) == FIRST_DAY + n
  {
    hide ToDays, LastDay, Next;
    Bounds();
    if n == 0 {
      FirstIsOk();
    } else {
      WalkCounts(n - 1);
      NextIsPlusOne(Walk(n - 1));
    }
  }

  lemma FirstIsOk()
    ensures FIRST.Ok() && LAST.Ok()
  {
  }

  /** The closed form is the Gregorian calendar. */
  lemma FromDaysIsCalendar(dp: int)
    requires FIRST_DAY <= dp <= LAST_DAY
    ensures FromDays(dp) == Walk(dp - FIRST_DAY)
  {
    hide FromDays, ToDays;
    WalkCounts(dp - FIRST_DAY);
    DateRoundTrip(Walk(dp - FIRST_DAY));
  }
}
