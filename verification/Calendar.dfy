/** The closed-form civil date of a day number, against a calendar defined one day at a time
    (proleptic Gregorian calendar, section 3.2.1 of ISO 8601:2004). */
module Calendar {

  datatype Date = Date(y: int, m: int, d: int)

  // ---------------------------------------------------------------- reference calendar

  predicate IsLeap(y: int) {
    y % 4 == 0 && (y % 100 != 0 || y % 400 == 0)
  }

  function MonthDays(y: int, m: int): int
    requires 1 <= m <= 12
  {
    if m == 2 then (if IsLeap(y) then 29 else 28)
    else if m == 4 || m == 6 || m == 9 || m == 11 then 30 else 31
  }

  predicate IsDate(t: Date) {
    1 <= t.m <= 12 && 1 <= t.d <= MonthDays(t.y, t.m)
  }

  function Tomorrow(t: Date): Date
    requires IsDate(t)
  {
    if t.d < MonthDays(t.y, t.m) then t.(d := t.d + 1)
    else if t.m < 12 then Date(t.y, t.m + 1, 1)
    else Date(t.y + 1, 1, 1)
  }

  // ---------------------------------------------------------------- the source's arithmetic

  /** Division rounding toward zero, as the source's integers divide. */
  function TruncDiv(a: int, b: int): int
    requires b > 0
  {
    if a >= 0 then a / b else -((-a) / b)
  }

  function DateInEra(era: int, doe: int): Date {
    var yoe := (doe - doe / 1460 + doe / 36524 - doe / 146096) / 365;
    var y := yoe + era * 400;
    var doy := doe - (365 * yoe + yoe / 4 - yoe / 100);
    var mp := (5 * doy + 2) / 153;
    var d := doy - (153 * mp + 2) / 5 + 1;
    var m := if mp < 10 then mp + 3 else mp - 9;
    Date(if m <= 2 then y + 1 else y, m, d)
  }

  function Civil(days: int): Date {
    var z := days + 719468;
    var era := TruncDiv(if z >= 0 then z else z - 146096, 146097);
    DateInEra(era, z - era * 146097)
  }

  function DateOfSeconds(epochSeconds: int): Date {
    Civil(TruncDiv(epochSeconds, 86400))
  }

  lemma EraIsFloor(z: int)
    ensures TruncDiv(if z >= 0 then z else z - 146096, 146097) == z / 146097
  {
  }

  function Yoe(doe: int): int { (doe - doe / 1460 + doe / 36524 - doe / 146096) / 365 }

  function YearStart(y: int): int { 365 * y + y / 4 - y / 100 }

  lemma StepDown(doe: int, u: int)
    requires 0 <= 1460 * u <= doe
    ensures doe - doe / 1460 >= 1459 * u
  {
    var k := doe / 1460;
    assert k >= u;
  }

  lemma CenturyOfYear(doe: int)
    requires 0 <= doe < 146096
    ensures Yoe(doe) / 100 == doe / 36524 && 0 <= Yoe(doe) < 400
  {
    var c := doe / 36524;
    var q := doe / 1460;
    assert c == 0 || c == 1 || c == 2 || c == 3;
    StepDown(doe, 25 * c);
    assert 25 * c <= q <= 25 * c + 25;
    assert doe - q + c < 36500 * (c + 1);
  }

  /** The computed year of the era is the one whose first and next first day enclose the day. */
  lemma YoeBrackets(doe: int)
    requires 0 <= doe < 146097
    ensures 0 <= Yoe(doe) < 400
    ensures YearStart(Yoe(doe)) <= doe
    ensures Yoe(doe) < 399 ==> doe < YearStart(Yoe(doe) + 1)
  {
    if doe < 146096 {
      CenturyOfYear(doe);
      var c, q, yoe := doe / 36524, doe / 1460, Yoe(doe);
      assert 365 * yoe <= doe - q + c < 365 * (yoe + 1);
      assert q >= c && q >= yoe / 4;
      var u := (yoe + 1) / 4 + 1;
      if q >= u {
        StepDown(doe, u);
        assert false;
      }
    }
  }

  // ------------------------------------------- days counted from 1 March of an era's first year

  /** A day as the algorithm sees it: era, year of the era, month from March, day of the month. */
  datatype March = March(era: int, yoe: int, mp: int, d: int)

  function MonthStart(mp: int): int { (153 * mp + 2) / 5 }

  function YearEnd(yoe: int): int { if yoe == 399 then 146097 else YearStart(yoe + 1) }

  function MonthLength(yoe: int, mp: int): int {
    if mp == 11 then YearEnd(yoe) - YearStart(yoe) - MonthStart(11) else MonthStart(mp + 1) - MonthStart(mp)
  }

  predicate IsMarch(t: March) {
    0 <= t.yoe < 400 && 0 <= t.mp < 12 && 1 <= t.d <= MonthLength(t.yoe, t.mp)
  }

  function Offset(t: March): int {
    t.era * 146097 + YearStart(t.yoe) + MonthStart(t.mp) + t.d - 1
  }

  function ToDate(t: March): Date {
    var m := if t.mp < 10 then t.mp + 3 else t.mp - 9;
    var y := t.yoe + 400 * t.era;
    Date(if m <= 2 then y + 1 else y, m, t.d)
  }

  function FromOffset(z: int): March {
    var era := z / 146097;
    var doe := z % 146097;
    var doy := doe - YearStart(Yoe(doe));
    var mp := (5 * doy + 2) / 153;
    March(era, Yoe(doe), mp, doy - MonthStart(mp) + 1)
  }

  lemma YearLength(yoe: int)
    requires 0 <= yoe < 400
    ensures YearEnd(yoe) - YearStart(yoe) == if IsLeap(yoe + 1) then 366 else 365
  {
  }

  lemma MonthOfDay(doy: int)
    requires 0 <= doy < 366
    ensures var mp := (5 * doy + 2) / 153;
            0 <= mp < 12 && MonthStart(mp) <= doy < MonthStart(mp + 1)
  {
  }

  lemma DayFitsMonth(yoe: int, doy: int)
    requires 0 <= yoe < 400 && 0 <= doy < YearEnd(yoe) - YearStart(yoe)
    ensures var mp := (5 * doy + 2) / 153;
            IsMarch(March(0, yoe, mp, doy - MonthStart(mp) + 1))
  {
    YearLength(yoe);
    MonthOfDay(doy);
  }

  /** The closed form lands on a well-formed day and loses nothing. */
  lemma FromOffsetIsMarch(z: int)
    ensures IsMarch(FromOffset(z)) && Offset(FromOffset(z)) == z
  {
    var doe := z % 146097;
    YoeBrackets(doe);
    DayFitsMonth(Yoe(doe), doe - YearStart(Yoe(doe)));
    var t := FromOffset(z);
    assert YearStart(t.yoe) + MonthStart(t.mp) + t.d - 1 == doe;
  }

  lemma DateInEraIsMarch(era: int, doe: int)
    ensures var doy := doe - YearStart(Yoe(doe));
            var mp := (5 * doy + 2) / 153;
            DateInEra(era, doe) == ToDate(March(era, Yoe(doe), mp, doy - MonthStart(mp) + 1))
  {
  }

  lemma CivilIsFromOffset(z: int)
    ensures Civil(z - 719468) == ToDate(FromOffset(z))
  {
    hide DateInEra, ToDate, Yoe, YearStart, MonthStart;
    EraIsFloor(z);
    assert z - z / 146097 * 146097 == z % 146097;
    DateInEraIsMarch(z / 146097, z % 146097);
  }

  lemma YearStartGrows(a: int, b: int)
    requires 0 <= a < b
    ensures YearEnd(a) <= YearStart(b) || b >= 400
    ensures YearStart(a) < YearStart(b)
  {
  }

  lemma DayOfYear(t: March)
    requires IsMarch(t)
    ensures 0 <= MonthStart(t.mp) + t.d - 1 < YearEnd(t.yoe) - YearStart(t.yoe)
    ensures (5 * (MonthStart(t.mp) + t.d - 1) + 2) / 153 == t.mp
  {
    YearLength(t.yoe);
  }

  /** The day of the era determines the year of the era. */
  lemma YearOfDay(yoe: int, doe: int)
    requires 0 <= yoe < 400 && YearStart(yoe) <= doe < YearEnd(yoe)
    ensures 0 <= doe < 146097 && Yoe(doe) == yoe
  {
    YearsFitEra(yoe);
    YoeBrackets(doe);
    hide Yoe, YearStart;
    if Yoe(doe) < yoe { YearStartGrows(Yoe(doe), yoe); }
    if yoe < Yoe(doe) { YearStartGrows(yoe, Yoe(doe)); }
  }

  lemma YearsFitEra(yoe: int)
    requires 0 <= yoe < 400
    ensures 0 <= YearStart(yoe) && YearEnd(yoe) <= 146097
  {
  }

  /** Each offset names one well-formed day only. */
  lemma OffsetDetermines(t: March)
    requires IsMarch(t)
    ensures FromOffset(Offset(t)) == t
  {
    DayOfYear(t);
    var doe := YearStart(t.yoe) + MonthStart(t.mp) + t.d - 1;
    YearOfDay(t.yoe, doe);
    hide Yoe, YearStart, YearEnd, MonthStart, MonthLength, IsMarch;
    assert Offset(t) == t.era * 146097 + doe;
    DivMod(t.era, doe);
  }

  lemma DivMod(era: int, doe: int)
    requires 0 <= doe < 146097
    ensures (era * 146097 + doe) / 146097 == era && (era * 146097 + doe) % 146097 == doe
  {
  }

  function NextMarch(t: March): March {
    if t.d < MonthLength(t.yoe, t.mp) then t.(d := t.d + 1)
    else if t.mp < 11 then March(t.era, t.yoe, t.mp + 1, 1)
    else if t.yoe < 399 then March(t.era, t.yoe + 1, 0, 1)
    else March(t.era + 1, 0, 0, 1)
  }

  lemma NextMarchIsNext(t: March)
    requires IsMarch(t)
    ensures IsMarch(NextMarch(t)) && Offset(NextMarch(t)) == Offset(t) + 1
  {
    YearLength(t.yoe);
    if t.yoe < 399 { YearLength(t.yoe + 1); }
  }

  lemma Mod4(y: int, j: int)
    ensures (y + 4 * j) % 4 == y % 4
  {
  }

  lemma Mod100(y: int, j: int)
    ensures (y + 100 * j) % 100 == y % 100
  {
  }

  lemma Mod400(y: int, j: int)
    ensures (y + 400 * j) % 400 == y % 400
  {
  }

  lemma LeapRepeats(y: int, era: int)
    ensures IsLeap(y + 400 * era) == IsLeap(y)
  {
    Mod4(y, 100 * era);
    Mod100(y, 4 * era);
    Mod400(y, era);
  }

  lemma MonthLengthAgrees(t: March)
    requires IsMarch(t)
    ensures 1 <= ToDate(t).m <= 12 && MonthDays(ToDate(t).y, ToDate(t).m) == MonthLength(t.yoe, t.mp)
  {
    YearLength(t.yoe);
    LeapRepeats(t.yoe + 1, t.era);
  }

  lemma NextMarchIsTomorrow(t: March)
    requires IsMarch(t)
    ensures IsDate(ToDate(t)) && ToDate(NextMarch(t)) == Tomorrow(ToDate(t))
  {
    MonthLengthAgrees(t);
  }

  // ---------------------------------------------------------------- main results

  /** Every day number gives a valid date, and the next day number gives the next date. */
  lemma CivilIsCalendar(days: int)
    ensures IsDate(Civil(days)) && Civil(days + 1) == Tomorrow(Civil(days))
  {
    hide Civil, FromOffset, ToDate, NextMarch, IsMarch, Offset, IsDate, Tomorrow;
    var t := FromOffset(days + 719468);
    FromOffsetIsMarch(days + 719468);
    CivilIsFromOffset(days + 719468);
    CivilIsFromOffset(days + 1 + 719468);
    NextMarchIsNext(t);
    OffsetDetermines(NextMarch(t));
    NextMarchIsTomorrow(t);
  }

  lemma EpochIsDayZero()
    ensures Civil(0) == Date(1970, 1, 1)
  {
  }

  function Before(a: Date, b: Date): bool {
    a.y < b.y || (a.y == b.y && (a.m < b.m || (a.m == b.m && a.d < b.d)))
  }

  /** `f` numbers the dates of the calendar consecutively. */
  ghost predicate Numbers(f: int -> Date) {
    (forall n :: IsDate(f(n))) && (forall n, k :: k == n + 1 ==> f(k) == Tomorrow(f(n)))
  }

  lemma CivilNumbers()
    ensures Numbers(Civil)
  {
    forall n ensures IsDate(Civil(n)) { CivilIsCalendar(n); }
    forall n, k | k == n + 1 ensures Civil(k) == Tomorrow(Civil(n)) { CivilIsCalendar(n); }
  }

  lemma {:induction false} NumberingIsOrdered(f: int -> Date, a: int, b: int)
    requires Numbers(f) && a < b
    ensures Before(f(a), f(b))
    decreases b - a
  {
    if a < b - 1 { NumberingIsOrdered(f, a, b - 1); }
    assert f(b) == Tomorrow(f(b - 1));
  }

  /** Date order is day order. */
  lemma DatesAreOrdered(a: int, b: int)
    requires a < b
    ensures Before(Civil(a), Civil(b))
  {
    CivilNumbers();
    NumberingIsOrdered(Civil, a, b);
  }

  /** Days of the calendar year, counted month by month. */
  function DaysBeforeMonth(y: int, m: int): int
    requires 1 <= m <= 13
  {
    if m == 1 then 0 else DaysBeforeMonth(y, m - 1) + MonthDays(y, m - 1)
  }

  /** Days from 1 January 1970 to 1 January of `y`, counted year by year. */
  function DaysBeforeYear(y: int): int
    decreases if y >= 1970 then y - 1970 else 1970 - y
  {
    if y == 1970 then 0
    else if y > 1970 then DaysBeforeYear(y - 1) + DaysBeforeMonth(y - 1, 13)
    else DaysBeforeYear(y + 1) - DaysBeforeMonth(y, 13)
  }

  function DayNumber(t: Date): int
    requires IsDate(t)
  {
    DaysBeforeYear(t.y) + DaysBeforeMonth(t.y, t.m) + t.d - 1
  }

  lemma TomorrowIsOneMore(t: Date)
    requires IsDate(t)
    ensures IsDate(Tomorrow(t)) && DayNumber(Tomorrow(t)) == DayNumber(t) + 1
  {
  }

  lemma {:induction false} NumberingInverts(f: int -> Date, days: int)
    requires Numbers(f) && f(0) == Date(1970, 1, 1)
    ensures DayNumber(f(days)) == days
    decreases if days >= 0 then days else -days
  {
    if days > 0 {
      NumberingInverts(f, days - 1);
      TomorrowIsOneMore(f(days - 1));
      assert f(days) == Tomorrow(f(days - 1));
    } else if days < 0 {
      NumberingInverts(f, days + 1);
      TomorrowIsOneMore(f(days));
      assert f(days + 1) == Tomorrow(f(days));
    }
  }

  /** Counting the date's days back gives the day number it came from. */
  lemma DayNumberInverts(days: int)
    ensures IsDate(Civil(days)) && DayNumber(Civil(days)) == days
  {
    CivilNumbers();
    EpochIsDayZero();
    NumberingInverts(Civil, days);
  }

  /** From the epoch on the date depends on the UTC day only; before it, truncation is one day late
      except at midnight. */
  lemma DateIsUtcDayIff(epochSeconds: int)
    ensures DateOfSeconds(epochSeconds) == Civil(epochSeconds / 86400)
            <==> epochSeconds >= 0 || epochSeconds % 86400 == 0
  {
    var q, r := epochSeconds / 86400, epochSeconds % 86400;
    if epochSeconds < 0 && r != 0 {
      assert TruncDiv(epochSeconds, 86400) == q + 1;
      DatesAreOrdered(q, q + 1);
    } else if epochSeconds < 0 {
      assert TruncDiv(epochSeconds, 86400) == q;
    }
  }

  lemma LastDayOf1969(t: Date)
    requires IsDate(t) && Tomorrow(t) == Date(1970, 1, 1)
    ensures t == Date(1969, 12, 31)
  {
  }

  /** The failing side of the condition: 23:59:59 on the last day of 1969 is shown as 1970-01-01. */
  lemma OneSecondBeforeTheEpoch()
    ensures DateOfSeconds(-1) == Date(1970, 1, 1) && Civil(-1) == Date(1969, 12, 31)
  {
    assert TruncDiv(-1, 86400) == 0;
    EpochIsDayZero();
    CivilIsCalendar(-1);
    LastDayOf1969(Civil(-1));
  }
}
