// Local civil time: the closed-form calendar arithmetic, against a calendar that simply steps
// from one day to the next.
module Calendar {
  import opened Words

  // C's integer division and remainder truncate toward zero.
  function Quot(a: int, b: int): int
    requires b > 0
  {
    if a >= 0 then a / b else -((-a) / b)
  }

  function Rem(a: int, b: int): int
    requires b > 0
  {
    a - b * Quot(a, b)
  }

  function ToInt32(x: int): int {
    var w := Wrap32(x);
    if w < TWO_31 then w else w - TWO_32
  }

  datatype Date = Date(year: int, month: int, day: int)

  // ---- the naive calendar ----

  predicate LeapYear(year: int) {
    (Rem(year, 4) == 0 && Rem(year, 100) != 0) || Rem(year, 400) == 0
  }

  function DaysInMonth(year: int, month: int): int {
    if month == 2 && LeapYear(year) then 29
    else if 1 <= month <= 12 then [31, 28, 31, 30, 31, 30, 31, 31, 30, 31, 30, 31][month - 1]
    else 0
  }

  predicate RealDate(d: Date) {
    1 <= d.month <= 12 && 1 <= d.day <= DaysInMonth(d.year, d.month)
  }

  function NextDay(d: Date): Date {
    if d.day < DaysInMonth(d.year, d.month) then d.(day := d.day + 1)
    else if d.month < 12 then Date(d.year, d.month + 1, 1)
    else Date(d.year + 1, 1, 1)
  }

  function PreviousDay(d: Date): Date {
    if d.day > 1 then d.(day := d.day - 1)
    else if d.month > 1 then Date(d.year, d.month - 1, DaysInMonth(d.year, d.month - 1))
    else Date(d.year - 1, 12, 31)
  }

  // Day n, counted day by day from 1970-01-01.
  function DayByDay(n: int): Date
    decreases if n >= 0 then n else -n
  {
    if n == 0 then Date(1970, 1, 1)
    else if n > 0 then NextDay(DayByDay(n - 1))
    else PreviousDay(DayByDay(n + 1))
  }

  // ---- the closed form ----

  function EraOfYear(y: int): int {
    Quot(if y >= 0 then y else y - 399, 400)
  }

  function ClosedDayOfYear(month: u32, day: u32): u32 {
    var shifted := Wrap32(month + (if month > 2 then TWO_32 - 3 else 9));
    Wrap32(Wrap32(153 * shifted + 2) / 5 + day - 1)
  }

  function DaysFromCivil(year: int, month: u32, day: u32): int {
    var y := if month <= 2 then year - 1 else year;
    var era := EraOfYear(y);
    var yoe := Wrap32(y - era * 400);
    var doe := Wrap32(yoe * 365 + yoe / 4 - yoe / 100 + ClosedDayOfYear(month, day));
    era * 146097 + doe - 719468
  }

  function EraOfDay(z: int): int {
    Quot(if z >= 0 then z else z - 146096, 146097)
  }

  function YearOfEra(doe: u32): int {
    (doe - doe / 1460 + doe / 36524 - doe / 146096) / 365
  }

  // The date of a day of a March-based year.
  function CivilInYear(marchYear: int, doy: u32): Date {
    var mp := (5 * doy + 2) / 153;
    var day := Wrap32(doy - (153 * mp + 2) / 5 + 1);
    var month := Wrap32(mp + (if mp < 10 then 3 else TWO_32 - 9));
    Date(marchYear + (if month <= 2 then 1 else 0), month, day)
  }

  function CivilFromDays(days: int): Date {
    var z := ToInt32(days + 719468);
    var era := EraOfDay(z);
    var doe := Wrap32(z - era * 146097);
    var yoe := YearOfEra(doe);
    var doy := Wrap32(doe - (365 * yoe + yoe / 4 - yoe / 100));
    CivilInYear(yoe + era * 400, doy)
  }

  // Days whose closed form stays within the 32-bit int of the firmware.
  predicate InRange(days: int) {
    -TWO_31 + 146096 <= days + 719468 < TWO_31
  }

  // ---- years that begin in March ----

  // The first day of the March-based year k of an era, and its length.
  function YearStart(k: int): int {
    365 * k + k / 4 - k / 100
  }

  function YearLength(k: int): int
    requires 0 <= k < 400
  {
    if k == 399 || ((k + 1) % 4 == 0 && (k + 1) % 100 != 0) then 366 else 365
  }

  // The same year in centuries, groups of four years, and years.
  lemma YearDigits(k: int) returns (c: int, q: int, m: int)
    requires 0 <= k < 400
    ensures 0 <= c < 4 && 0 <= q < 25 && 0 <= m < 4 && k == 100 * c + 4 * q + m
    ensures k / 4 == 25 * c + q && k / 100 == c
    ensures YearLength(k) == if m == 3 && (q < 24 || c == 3) then 366 else 365
  {
    c, q, m := k / 100, k % 100 / 4, k % 4;
    assert k % 100 == 4 * (k % 100 / 4) + k % 100 % 4;
    assert k % 100 % 4 == k % 4;
  }

  // The closed form finds the year of a day within the era.
  lemma YearOfDay(k: int, t: int)
    requires 0 <= k < 400 && 0 <= t < YearLength(k)
    ensures var doe := YearStart(k) + t;
            0 <= doe <= 146096 && YearOfEra(doe) == k
  {
    var c, q, m := YearDigits(k);
    var doe := YearStart(k) + t;
    assert doe == 36524 * c + (1461 * q + 365 * m + t);
    assert 0 <= 1461 * q + 365 * m + t <= 36524;
    CenturyOfDay(c, 1461 * q + 365 * m + t, doe);
    QuadOfDay(c, q, 365 * m + t, doe);
    var e := if 24 * c + q + 365 * m + t >= 1460 then 1 else 0;
    assert doe - doe / 1460 + doe / 36524 - doe / 146096 == 365 * k + (t - e);
    assert 0 <= t - e < 365;
  }

  lemma CenturyOfDay(c: int, r: int, doe: int)
    requires 0 <= c < 4 && doe == 36524 * c + r && 0 <= r <= 36524 && (r == 36524 ==> c == 3)
    ensures doe / 36524 - doe / 146096 == c
  {
    if r == 36524 { assert doe == 146096; }
  }

  lemma QuadOfDay(c: int, q: int, r: int, doe: int)
    requires 0 <= c < 4 && 0 <= q < 25 && 0 <= r <= 1460 && doe == 36524 * c + 1461 * q + r
    ensures doe / 1460 == 25 * c + q + (if 24 * c + q + r >= 1460 then 1 else 0)
  {
    assert doe == 1460 * (25 * c + q) + (24 * c + q + r);
  }

  // ---- months of a March-based year ----

  function MonthStart(mp: int): int {
    (153 * mp + 2) / 5
  }

  function MonthOf(mp: int): int {
    if mp < 10 then mp + 3 else mp - 9
  }

  lemma MonthOfDay(mp: int, day: int)
    requires 0 <= mp < 12 && 1 <= day <= (if mp == 11 then 29 else MonthStart(mp + 1) - MonthStart(mp))
    ensures (5 * (MonthStart(mp) + day - 1) + 2) / 153 == mp
    ensures 0 <= MonthStart(mp) + day - 1 <= 365
  {
    assert mp == 0 || mp == 1 || mp == 2 || mp == 3 || mp == 4 || mp == 5
        || mp == 6 || mp == 7 || mp == 8 || mp == 9 || mp == 10 || mp == 11;
  }

  lemma MonthLength(year: int, mp: int)
    requires 0 <= mp < 12 && mp != 11
    ensures DaysInMonth(year, MonthOf(mp)) == MonthStart(mp + 1) - MonthStart(mp)
  {
    assert mp == 0 || mp == 1 || mp == 2 || mp == 3 || mp == 4 || mp == 5
        || mp == 6 || mp == 7 || mp == 8 || mp == 9 || mp == 10;
  }

  // ---- flooring division out of the truncating one ----

  lemma ErasFloor(y: int, z: int)
    ensures EraOfYear(y) == y / 400 && EraOfDay(z) == z / 146097
  {
  }

  // For divisibility the truncating remainder is as good as any.
  lemma RemDivides(year: int, q: int, r: int, b: int)
    requires b == 4 || b == 100 || b == 400
    requires 0 <= r < b && year == b * q + r
    ensures Rem(year, b) == 0 <==> r == 0
  {
    var positive := year >= 0;
    if b == 4 {
      assert if positive then year / 4 == q else (-year) / 4 == if r == 0 then -q else -q - 1;
    } else if b == 100 {
      assert if positive then year / 100 == q else (-year) / 100 == if r == 0 then -q else -q - 1;
    } else {
      assert if positive then year / 400 == q else (-year) / 400 == if r == 0 then -q else -q - 1;
    }
  }

  lemma LeapDigits(year: int) returns (e: int, r: int)
    ensures 1 <= r <= 400 && year == 400 * e + r && (year - 1) % 400 == r - 1
    ensures Rem(year, 4) == 0 <==> r % 4 == 0
    ensures Rem(year, 100) == 0 <==> r % 100 == 0
    ensures Rem(year, 400) == 0 <==> r == 400
  {
    hide Rem;
    e, r := (year - 1) / 400, (year - 1) % 400 + 1;
    RemDivides(year, 100 * e + r / 4, r % 4, 4);
    RemDivides(year, 4 * e + r / 100, r % 100, 100);
    RemDivides(year, e + r / 400, r % 400, 400);
  }

  lemma LeapMeansLongYear(year: int)
    ensures LeapYear(year) <==> YearLength((year - 1) % 400) == 366
  {
    hide Rem;
    var e, r := LeapDigits(year);
  }

  // ---- a real date in the closed form ----

  // The March-based year of a date, and its place in the era and the year.
  function MarchYear(d: Date): int {
    if d.month <= 2 then d.year - 1 else d.year
  }

  function MarchMonth(d: Date): int {
    if d.month > 2 then d.month - 3 else d.month + 9
  }

  function DayOfYear(d: Date): int {
    MonthStart(MarchMonth(d)) + d.day - 1
  }

  lemma DateFitsYear(d: Date)
    requires RealDate(d)
    ensures 0 <= DayOfYear(d) < YearLength(MarchYear(d) % 400)
    ensures (5 * DayOfYear(d) + 2) / 153 == MarchMonth(d)
    ensures MonthOf(MarchMonth(d)) == d.month
  {
    var mp := MarchMonth(d);
    if mp == 11 { LeapMeansLongYear(d.year); } else { MonthLength(d.year, mp); }
    MonthOfDay(mp, d.day);
    assert MonthStart(11) == 337 && (mp < 11 ==> MonthStart(mp + 1) <= 337);
  }

  lemma ClosedDay(d: Date)
    requires RealDate(d)
    ensures ClosedDayOfYear(d.month, d.day) == DayOfYear(d)
  {
    hide LeapYear, DaysInMonth;
    var shifted := MarchMonth(d);
    MonthBounds(d);
    assert Wrap32(d.month + (if d.month > 2 then TWO_32 - 3 else 9)) == shifted;
    assert Wrap32(153 * shifted + 2) == 153 * shifted + 2;
  }

  lemma MonthBounds(d: Date)
    requires RealDate(d)
    ensures 1 <= d.month <= 12 && 1 <= d.day <= 31
  {
  }

  lemma YearInEra(y: int)
    ensures y - y / 400 * 400 == y % 400 == Wrap32(y - y / 400 * 400) < 400
    ensures 0 <= YearStart(y % 400) <= 146000
  {
  }

  lemma DaysOfDate(d: Date)
    requires RealDate(d)
    ensures DaysFromCivil(d.year, d.month, d.day)
         == MarchYear(d) / 400 * 146097 + YearStart(MarchYear(d) % 400) + DayOfYear(d) - 719468
  {
    hide EraOfYear, ClosedDayOfYear, DayOfYear, LeapYear, Wrap32, RealDate, MonthOf, MarchMonth;
    DateFitsYear(d); ClosedDay(d); ErasFloor(MarchYear(d), 0);
    YearInEra(MarchYear(d));
    SmallWord(YearStart(MarchYear(d) % 400) + DayOfYear(d));
  }

  // Within a March-based year the last day of a month is followed by the first of the next.
  lemma MonthEnd(d: Date)
    requires RealDate(d) && d.day == DaysInMonth(d.year, d.month) && d.month != 2
    ensures MarchYear(NextDay(d)) == MarchYear(d) && DayOfYear(NextDay(d)) == DayOfYear(d) + 1
  {
    MonthLength(d.year, MarchMonth(d));
  }

  // The last day of February is followed by the first day of the next March-based year.
  lemma YearEnd(d: Date)
    requires RealDate(d) && d.month == 2 && d.day == DaysInMonth(d.year, 2)
    ensures MarchYear(NextDay(d)) == MarchYear(d) + 1 && DayOfYear(NextDay(d)) == 0
    ensures DayOfYear(d) + 1 == YearLength(MarchYear(d) % 400)
  {
    LeapMeansLongYear(d.year);
    assert MonthStart(0) == 0 && MonthStart(11) == 337;
  }

  // The closed form numbers the days consecutively.
  lemma ClosedFormSteps(d: Date)
    requires RealDate(d)
    ensures RealDate(NextDay(d))
    ensures DaysFromCivil(NextDay(d).year, NextDay(d).month, NextDay(d).day) == DaysFromCivil(d.year, d.month, d.day) + 1
  {
    hide DaysFromCivil, LeapYear, MonthStart;
    DaysOfDate(d);
    DaysOfDate(NextDay(d));
    if d.day == DaysInMonth(d.year, d.month) {
      if d.month == 2 {
        YearEnd(d);
        NextMarchYear(MarchYear(d));
      } else {
        MonthEnd(d);
      }
    }
  }

  lemma NextMarchYear(y: int)
    ensures (y + 1) / 400 * 146097 + YearStart((y + 1) % 400)
         == y / 400 * 146097 + YearStart(y % 400) + YearLength(y % 400)
  {
    NextInEra(y);
    hide YearStart, YearLength;
    if y % 400 == 399 { EraEnds(); } else { YearFollows(y % 400); }
  }

  lemma NextInEra(y: int)
    ensures if y % 400 == 399 then (y + 1) % 400 == 0 && (y + 1) / 400 == y / 400 + 1
            else (y + 1) % 400 == y % 400 + 1 && (y + 1) / 400 == y / 400
  {
  }

  lemma EraEnds()
    ensures YearStart(0) == 0 && YearStart(399) + YearLength(399) == 146097
  {
  }

  lemma YearFollows(k: int)
    requires 0 <= k < 399
    ensures YearStart(k + 1) == YearStart(k) + YearLength(k)
  {
    var c, q, m := YearDigits(k);
    var c1, q1, m1 := YearDigits(k + 1);
  }

  lemma CivilOfDayOfYear(d: Date)
    requires RealDate(d)
    ensures 0 <= DayOfYear(d) && CivilInYear(MarchYear(d), DayOfYear(d)) == d
  {
    DateFitsYear(d);
    hide LeapYear, YearLength, Wrap32;
    var mp := MarchMonth(d);
    SmallWord(d.day);
    assert DayOfYear(d) - (153 * mp + 2) / 5 + 1 == d.day;
    MonthWord(mp);
  }

  lemma MonthWord(mp: int)
    requires 0 <= mp <= 11
    ensures Wrap32(mp + (if mp < 10 then 3 else TWO_32 - 9)) == MonthOf(mp)
  {
  }

  // The closed form splits a day number into era, March-based year and day of that year.
  lemma CivilFromParts(days: int, era: int, k: int, t: int)
    requires InRange(days) && 0 <= k < 400 && 0 <= t < YearLength(k)
    requires days + 719468 == era * 146097 + YearStart(k) + t
    ensures CivilFromDays(days) == CivilInYear(k + era * 400, t)
  {
    hide CivilInYear, YearOfEra, EraOfDay, YearLength, Wrap32, ToInt32;
    YearOfDay(k, t);
    var z, doe := days + 719468, YearStart(k) + t;
    ErasFloor(0, z);
    EraOfParts(era, doe, z);
    SmallWord(z); SmallWord(doe); SmallWord(t);
    assert z - era * 146097 == doe && doe - (365 * k + k / 4 - k / 100) == t;
  }

  lemma SmallWord(x: int)
    ensures -TWO_31 <= x < TWO_31 ==> ToInt32(x) == x
    ensures 0 <= x < TWO_32 ==> Wrap32(x) == x
  {
  }

  lemma EraOfParts(era: int, doe: int, z: int)
    requires 0 <= doe <= 146096 && z == era * 146097 + doe
    ensures z / 146097 == era
  {
  }

  // On a real date the two closed forms are inverse to each other.
  lemma CivilOfDays(d: Date)
    requires RealDate(d) && InRange(DaysFromCivil(d.year, d.month, d.day))
    ensures CivilFromDays(DaysFromCivil(d.year, d.month, d.day)) == d
  {
    hide CivilInYear, CivilFromDays, DaysFromCivil, DayOfYear, LeapYear, YearStart, YearLength, MarchYear;
    var y := MarchYear(d);
    DateFitsYear(d); DaysOfDate(d); CivilOfDayOfYear(d);
    CivilFromParts(DaysFromCivil(d.year, d.month, d.day), y / 400, y % 400, DayOfYear(d));
    assert y == y % 400 + y / 400 * 400;
  }

  lemma PreviousIsInverse(d: Date)
    requires RealDate(d)
    ensures RealDate(PreviousDay(d)) && NextDay(PreviousDay(d)) == d
  {
  }

  lemma {:induction false} DayByDayNumbers(n: int)
    ensures RealDate(DayByDay(n))
    ensures DaysFromCivil(DayByDay(n).year, DayByDay(n).month, DayByDay(n).day) == n
    decreases if n >= 0 then n else -n
  {
    hide DaysFromCivil, LeapYear, NextDay, PreviousDay;
    if n == 0 {
      DaysOfDate(Date(1970, 1, 1));
    } else if n > 0 {
      DayByDayNumbers(n - 1);
      ClosedFormSteps(DayByDay(n - 1));
    } else {
      DayByDayNumbers(n + 1);
      PreviousIsInverse(DayByDay(n + 1));
      ClosedFormSteps(DayByDay(n));
    }
  }

  // Main result: for every day number in range, the closed form gives the date reached by
  // stepping one day at a time from 1970-01-01, and its inverse gives the number back.
  lemma CalendarRefinesDayByDay(n: int)
    requires InRange(n)
    ensures CivilFromDays(n) == DayByDay(n) && RealDate(CivilFromDays(n))
    ensures DaysFromCivil(CivilFromDays(n).year, CivilFromDays(n).month, CivilFromDays(n).day) == n
  {
    DayByDayNumbers(n);
    CivilOfDays(DayByDay(n));
  }
}
