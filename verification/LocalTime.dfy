// Weekdays, the n-th weekday rule of daylight saving time, and local date and time.
module LocalTime {
  import opened Words
  import opened Calendar

  datatype LocalDateTime = LocalDateTime(date: Date, weekday: int, hour: int, minute: int)
  datatype Transition = Transition(month: byte, week: byte, weekday: byte, minuteOfDay: u16)
  datatype Dst = Dst(enabled: bool, biasMinutes: byte, start: Transition, end: Transition)

  predicate ValidTransition(t: Transition) {
    1 <= t.month <= 12 && 1 <= t.week <= 5 && 1 <= t.weekday <= 7 && t.minuteOfDay <= 1439
  }

  predicate ValidDst(s: Dst) {
    if !s.enabled then s.biasMinutes <= 120
    else 1 <= s.biasMinutes <= 120 && ValidTransition(s.start) && ValidTransition(s.end)
  }

  // Monday is 1, Sunday is 7.
  function IsoWeekday(d: Date): int
    requires 0 <= d.month < TWO_32 && 0 <= d.day < TWO_32
  {
    var value := Rem(DaysFromCivil(d.year, d.month, d.day) + 3, 7);
    (if value < 0 then value + 7 else value) + 1
  }

  function TransitionDayOfMonth(year: int, t: Transition): int {
    var dim := DaysInMonth(year, t.month);
    if dim == 0 || !ValidTransition(t) then 0
    else if t.week < 5 then
      var delta := Rem(7 + t.weekday - IsoWeekday(Date(year, t.month, 1)), 7);
      var day := 1 + delta + (t.week - 1) * 7;
      if day <= dim then day else 0
    else
      var delta := Rem(7 + IsoWeekday(Date(year, t.month, dim)) - t.weekday, 7);
      dim - delta
  }

  function LocalSecondsForTransition(year: int, t: Transition): Option<int> {
    var day := TransitionDayOfMonth(year, t);
    if day <= 0 then None else Some(DaysFromCivil(year, t.month, day) * 86400 + t.minuteOfDay * 60)
  }

  function DateTimeFromEpoch(seconds: int): LocalDateTime {
    var days := Quot(seconds, 86400);
    var sod := Rem(seconds, 86400);
    var date := CivilFromDays(if sod < 0 then days - 1 else days);
    var second := if sod < 0 then sod + 86400 else sod;
    LocalDateTime(date, if RealDate(date) then IsoWeekday(date) else 0, second / 3600, second % 3600 / 60)
  }

  function DstActive(seconds: int, s: Dst): bool {
    if !s.enabled || !ValidDst(s) then false
    else
      var year := DateTimeFromEpoch(seconds).date.year;
      match (LocalSecondsForTransition(year, s.start), LocalSecondsForTransition(year, s.end))
      case (Some(start), Some(wallEnd)) =>
        var end := wallEnd - s.biasMinutes * 60;
        if start < end then start <= seconds < end else seconds >= start || seconds < end
      case _ => false
  }

  // ---- weekdays ----

  lemma WeekdayOfNumber(d: Date)
    requires RealDate(d)
    ensures IsoWeekday(d) == (DaysFromCivil(d.year, d.month, d.day) + 3) % 7 + 1
  {
    hide DaysFromCivil;
  }

  lemma ModShift(a: int, k: int)
    ensures (a % 7 + k) % 7 == (a + k) % 7
  {
    assert a == 7 * (a / 7) + a % 7;
    assert a + k == 7 * (a / 7) + (a % 7 + k);
  }

  // The weekday advances by one, Sunday to Monday, each day ...
  lemma WeekdayAdvances(d: Date)
    requires RealDate(d)
    ensures RealDate(NextDay(d)) && IsoWeekday(NextDay(d)) == IsoWeekday(d) % 7 + 1
  {
    hide DaysFromCivil, NextDay, LeapYear, IsoWeekday;
    ClosedFormSteps(d);
    WeekdayOfNumber(d);
    WeekdayOfNumber(NextDay(d));
    ModShift(DaysFromCivil(d.year, d.month, d.day) + 3, 1);
  }

  // ... from a Thursday on 1970-01-01.
  lemma EpochWasThursday()
    ensures IsoWeekday(Date(1970, 1, 1)) == 4
  {
    hide DaysFromCivil;
    DayByDayNumbers(0);
    WeekdayOfNumber(Date(1970, 1, 1));
  }

  lemma {:induction false} DaysWithinMonth(year: int, month: int, day: int)
    requires RealDate(Date(year, month, day))
    ensures DaysFromCivil(year, month, day) == DaysFromCivil(year, month, 1) + day - 1
    decreases day
  {
    hide DaysFromCivil, LeapYear;
    if day == 1 {
    } else {
      DaysWithinMonth(year, month, day - 1);
      ClosedFormSteps(Date(year, month, day - 1));
    }
  }

  lemma WeekdayWithinMonth(year: int, month: int, day: int)
    requires RealDate(Date(year, month, day))
    ensures DaysFromCivil(year, month, day) == DaysFromCivil(year, month, 1) + day - 1
    ensures IsoWeekday(Date(year, month, day)) == (IsoWeekday(Date(year, month, 1)) + day - 2) % 7 + 1
  {
    hide DaysFromCivil, LeapYear, IsoWeekday;
    WeekdayOfNumber(Date(year, month, 1));
    WeekdayOfNumber(Date(year, month, day));
    DaysWithinMonth(year, month, day);
    ModShift(DaysFromCivil(year, month, 1) + 3, day - 1);
  }

  // ---- the n-th weekday of a month ----

  // How many of the days 1..day of a month fall on a weekday.
  function Occurrences(year: int, month: int, weekday: int, day: int): nat
    requires day >= 0 && (day > 0 ==> RealDate(Date(year, month, day)))
    decreases day
  {
    if day == 0 then 0
    else Occurrences(year, month, weekday, day - 1) + (if IsoWeekday(Date(year, month, day)) == weekday then 1 else 0)
  }

  // Counting without stepping: `first` is the first day of the month with that weekday.
  lemma {:induction false} OccurrencesClosed(year: int, month: int, weekday: int, day: int)
    requires day >= 0 && (day > 0 ==> RealDate(Date(year, month, day)))
    requires 1 <= month <= 12 && 1 <= weekday <= 7
    ensures var first := 1 + (7 + weekday - IsoWeekday(Date(year, month, 1))) % 7;
            Occurrences(year, month, weekday, day) == if day < first then 0 else (day - first) / 7 + 1
    decreases day
  {
    hide IsoWeekday, LeapYear, DaysFromCivil;
    var w1 := IsoWeekday(Date(year, month, 1));
    WeekdayOfNumber(Date(year, month, 1));
    if day == 0 {
    } else {
      OccurrencesClosed(year, month, weekday, day - 1);
      WeekdayWithinMonth(year, month, day);
      SameWeekday(w1, weekday, day);
    }
  }

  lemma SameWeekday(w1: int, weekday: int, day: int)
    requires 1 <= w1 <= 7 && 1 <= weekday <= 7 && 1 <= day <= 31
    ensures var first := 1 + (7 + weekday - w1) % 7;
            (w1 + day - 2) % 7 + 1 == weekday <==> day >= first && (day - first) % 7 == 0
  {
  }

  // Main result: weeks 1 to 4 give the k-th occurrence of the weekday in the month, week 5 the
  // last one; there always is one.
  lemma NthWeekday(year: int, t: Transition)
    requires ValidTransition(t)
    ensures var day := TransitionDayOfMonth(year, t);
            RealDate(Date(year, t.month, day)) && IsoWeekday(Date(year, t.month, day)) == t.weekday &&
            (t.week < 5 ==> Occurrences(year, t.month, t.weekday, day) == t.week) &&
            (t.week == 5 ==> forall later :: day < later <= DaysInMonth(year, t.month) ==>
                               IsoWeekday(Date(year, t.month, later)) != t.weekday)
  {
    if t.week < 5 { CountedWeekday(year, t); } else { LastWeekday(year, t); }
  }

  lemma MonthHas28To31(year: int, month: int)
    requires 1 <= month <= 12
    ensures 28 <= DaysInMonth(year, month) <= 31
  {
  }

  lemma CountedWeekday(year: int, t: Transition)
    requires ValidTransition(t) && t.week < 5
    ensures var day := TransitionDayOfMonth(year, t);
            RealDate(Date(year, t.month, day)) && IsoWeekday(Date(year, t.month, day)) == t.weekday &&
            Occurrences(year, t.month, t.weekday, day) == t.week
  {
    hide IsoWeekday, DaysInMonth, DaysFromCivil, Occurrences, LeapYear;
    MonthHas28To31(year, t.month);
    var w1 := IsoWeekday(Date(year, t.month, 1));
    WeekdayOfNumber(Date(year, t.month, 1));
    var delta := (7 + t.weekday - w1) % 7;
    var day := 1 + delta + (t.week - 1) * 7;
    assert TransitionDayOfMonth(year, t) == day;
    WeekdayWithinMonth(year, t.month, day);
    SameWeekday(w1, t.weekday, day);
    OccurrencesClosed(year, t.month, t.weekday, day);
    assert day - (1 + delta) == 7 * (t.week - 1);
  }

  lemma LastWeekday(year: int, t: Transition)
    requires ValidTransition(t) && t.week == 5
    ensures var day := TransitionDayOfMonth(year, t);
            RealDate(Date(year, t.month, day)) && IsoWeekday(Date(year, t.month, day)) == t.weekday &&
            forall later :: day < later <= DaysInMonth(year, t.month) ==> IsoWeekday(Date(year, t.month, later)) != t.weekday
  {
    hide IsoWeekday, DaysInMonth, DaysFromCivil;
    MonthHas28To31(year, t.month);
    var dim := DaysInMonth(year, t.month);
    var w1 := IsoWeekday(Date(year, t.month, 1));
    WeekdayOfNumber(Date(year, t.month, 1));
    WeekdayOfNumber(Date(year, t.month, dim));
    WeekdayWithinMonth(year, t.month, dim);
    var delta := (7 + IsoWeekday(Date(year, t.month, dim)) - t.weekday) % 7;
    var day := dim - delta;
    assert TransitionDayOfMonth(year, t) == day;
    WeekdayWithinMonth(year, t.month, day);
    LastBefore(w1, t.weekday, dim, day);
    forall later | day < later <= dim
      ensures IsoWeekday(Date(year, t.month, later)) != t.weekday
    {
      WeekdayWithinMonth(year, t.month, later);
      NotBetween(w1, t.weekday, day, later);
    }
  }

  lemma LastBefore(w1: int, weekday: int, dim: int, day: int)
    requires 1 <= w1 <= 7 && 1 <= weekday <= 7
    requires day == dim - (7 + ((w1 + dim - 2) % 7 + 1) - weekday) % 7
    ensures (w1 + day - 2) % 7 + 1 == weekday
  {
    var wd := (w1 + dim - 2) % 7 + 1;
    var delta := dim - day;
    assert delta == if wd >= weekday then wd - weekday else wd - weekday + 7;
  }

  lemma NotBetween(w1: int, weekday: int, day: int, later: int)
    requires (w1 + day - 2) % 7 + 1 == weekday && day < later < day + 7
    ensures (w1 + later - 2) % 7 + 1 != weekday
  {
  }

  // ---- date and time of an instant ----

  // The truncating division with its correction splits seconds at midnight, before 1970 too.
  lemma EpochSplits(seconds: int)
    requires InRange(seconds / 86400)
    ensures var t := DateTimeFromEpoch(seconds);
            t.date == DayByDay(seconds / 86400) && t.weekday == (seconds / 86400 + 3) % 7 + 1 &&
            0 <= t.hour < 24 && 0 <= t.minute < 60 &&
            t.hour * 3600 + t.minute * 60 <= seconds % 86400 < t.hour * 3600 + t.minute * 60 + 60
  {
    hide IsoWeekday, DaysFromCivil, CivilFromDays, LeapYear;
    CalendarRefinesDayByDay(seconds / 86400);
    WeekdayOfNumber(CivilFromDays(seconds / 86400));
    SplitAtMidnight(seconds);
  }

  lemma SplitAtMidnight(seconds: int)
    ensures var sod := Rem(seconds, 86400);
            seconds / 86400 == (if sod < 0 then Quot(seconds, 86400) - 1 else Quot(seconds, 86400)) &&
            seconds % 86400 == (if sod < 0 then sod + 86400 else sod)
  {
  }

  // Main result: the instant computed for a transition reads back as that weekday of that month
  // at that minute, so the rule means what its fields say.
  lemma TransitionReadsBack(year: int, t: Transition)
    requires ValidTransition(t)
    requires InRange(DaysFromCivil(year, t.month, 1)) && InRange(DaysFromCivil(year, t.month, 1) + 30)
    ensures LocalSecondsForTransition(year, t).Some?
    ensures DateTimeFromEpoch(LocalSecondsForTransition(year, t).value)
         == LocalDateTime(Date(year, t.month, TransitionDayOfMonth(year, t)), t.weekday, t.minuteOfDay / 60, t.minuteOfDay % 60)
  {
    hide IsoWeekday, DaysFromCivil, CivilFromDays, LeapYear, TransitionDayOfMonth, Occurrences;
    NthWeekday(year, t);
    var day := TransitionDayOfMonth(year, t);
    var n := DaysFromCivil(year, t.month, day);
    MonthHas28To31(year, t.month);
    WeekdayWithinMonth(year, t.month, day);
    CivilOfDays(Date(year, t.month, day));
    var seconds := n * 86400 + t.minuteOfDay * 60;
    assert seconds / 86400 == n && seconds % 86400 == t.minuteOfDay * 60;
    EpochSplits(seconds);
    SplitAtMidnight(seconds);
  }

  // Within a year the daylight flag changes exactly at the two transitions, unless they coincide:
  // it goes on at the start and off at the end.
  lemma DstChangesAtTransitions(seconds: int, s: Dst)
    requires s.enabled && ValidDst(s)
    requires DateTimeFromEpoch(seconds).date.year == DateTimeFromEpoch(seconds + 1).date.year
    requires var year := DateTimeFromEpoch(seconds).date.year;
             LocalSecondsForTransition(year, s.start).Some? && LocalSecondsForTransition(year, s.end).Some?
    ensures var year := DateTimeFromEpoch(seconds).date.year;
            var start := LocalSecondsForTransition(year, s.start).value;
            var end := LocalSecondsForTransition(year, s.end).value - s.biasMinutes * 60;
            (DstActive(seconds, s) != DstActive(seconds + 1, s) <==> (seconds + 1 == start) != (seconds + 1 == end)) &&
            (start != end && seconds + 1 == start ==> DstActive(seconds + 1, s)) &&
            (start != end && seconds + 1 == end ==> !DstActive(seconds + 1, s))
  {
    hide DateTimeFromEpoch, LocalSecondsForTransition;
  }

  // The instants, in standard time, at which the rules of a year begin and end daylight time.
  function StartOf(year: int, s: Dst): int
    requires s.enabled && ValidDst(s)
  {
    TransitionExists(year, s.start);
    LocalSecondsForTransition(year, s.start).value
  }

  function EndOf(year: int, s: Dst): int
    requires s.enabled && ValidDst(s)
  {
    TransitionExists(year, s.end);
    LocalSecondsForTransition(year, s.end).value - s.biasMinutes * 60
  }

  lemma TransitionExists(year: int, t: Transition)
    requires ValidTransition(t)
    ensures LocalSecondsForTransition(year, t).Some?
    ensures var day := TransitionDayOfMonth(year, t);
            RealDate(Date(year, t.month, day)) &&
            LocalSecondsForTransition(year, t).value == DaysFromCivil(year, t.month, day) * 86400 + t.minuteOfDay * 60
  {
    hide DaysFromCivil, IsoWeekday, TransitionDayOfMonth, Occurrences, LeapYear;
    NthWeekday(year, t);
  }

  // At any second and with any settings: daylight time is never on when it is disabled or the settings
  // are invalid. Otherwise the latest transition of the year decides, a start turning it on, where
  // both at once count as a start; before the first one of the year it is on exactly when the year's
  // end does not come after its start.
  lemma DstFollowsLatestTransition(seconds: int, s: Dst)
    ensures !s.enabled || !ValidDst(s) ==> !DstActive(seconds, s)
    ensures s.enabled && ValidDst(s) ==>
              var year := DateTimeFromEpoch(seconds).date.year;
              var start, end := StartOf(year, s), EndOf(year, s);
              DstActive(seconds, s) <==>
                if start <= seconds && end <= seconds then end <= start
                else if start <= seconds then true
                else if end <= seconds then false
                else end <= start
  {
    hide LocalSecondsForTransition, DateTimeFromEpoch, TransitionDayOfMonth, DaysFromCivil;
    if s.enabled && ValidDst(s) {
      var year := DateTimeFromEpoch(seconds).date.year;
      TransitionExists(year, s.start); TransitionExists(year, s.end);
    }
  }

  // ---- daylight time at New Year ----

  // The first second of a year.
  function NewYear(year: int): int {
    DaysFromCivil(year, 1, 1) * 86400
  }

  lemma {:induction false} NotAfterDecember(d: Date)
    requires RealDate(d)
    ensures DaysFromCivil(d.year, d.month, d.day) <= DaysFromCivil(d.year, 12, 31)
    decreases 12 - d.month, 31 - d.day
  {
    hide DaysFromCivil, LeapYear;
    if d.month == 12 && d.day == 31 {
    } else {
      ClosedFormSteps(d);
      NotAfterDecember(NextDay(d));
    }
  }

  lemma {:induction false} NotBeforeJanuary(d: Date)
    requires RealDate(d)
    ensures DaysFromCivil(d.year, 1, 1) <= DaysFromCivil(d.year, d.month, d.day)
    decreases d.month, d.day
  {
    hide DaysFromCivil, LeapYear;
    if d.month == 1 && d.day == 1 {
    } else {
      PreviousIsInverse(d);
      ClosedFormSteps(PreviousDay(d));
      NotBeforeJanuary(PreviousDay(d));
    }
  }

  lemma NewYearFollows(year: int)
    ensures NewYear(year + 1) == DaysFromCivil(year, 12, 31) * 86400 + 86400
  {
    hide DaysFromCivil, LeapYear;
    ClosedFormSteps(Date(year, 12, 31));
  }

  // A transition lies in its own year.
  lemma TransitionWithinYear(year: int, t: Transition)
    requires ValidTransition(t)
    ensures LocalSecondsForTransition(year, t).Some?
    ensures NewYear(year) <= LocalSecondsForTransition(year, t).value < NewYear(year + 1)
  {
    hide DaysFromCivil, TransitionDayOfMonth, LeapYear, LocalSecondsForTransition;
    TransitionExists(year, t);
    var d := Date(year, t.month, TransitionDayOfMonth(year, t));
    NotAfterDecember(d);
    NotBeforeJanuary(d);
    NewYearFollows(year);
  }

  lemma YearsAtNewYear(year: int)
    requires InRange(DaysFromCivil(year + 1, 1, 1)) && InRange(DaysFromCivil(year + 1, 1, 1) - 1)
    ensures DateTimeFromEpoch(NewYear(year + 1)).date.year == year + 1
    ensures DateTimeFromEpoch(NewYear(year + 1) - 1).date.year == year
  {
    hide DaysFromCivil, CivilFromDays, IsoWeekday, LeapYear, DayByDay;
    var n, first := DaysFromCivil(year + 1, 1, 1), NewYear(year + 1);
    ClosedFormSteps(Date(year, 12, 31));
    CivilOfDays(Date(year, 12, 31));
    CivilOfDays(Date(year + 1, 1, 1));
    assert first / 86400 == n && (first - 1) / 86400 == n - 1;
    SplitAtMidnight(first);
    SplitAtMidnight(first - 1);
  }

  // Main result: the flag on both sides of New Year. The year that ends leaves it on exactly when
  // its end does not come after its start; the year that begins takes it up exactly when daylight time
  // starts at that second, or runs from its start over New Year to an end still to come.
  lemma DstAtNewYear(year: int, s: Dst)
    requires s.enabled && ValidDst(s)
    requires InRange(DaysFromCivil(year + 1, 1, 1)) && InRange(DaysFromCivil(year + 1, 1, 1) - 1)
    ensures var first, start, end := NewYear(year + 1), StartOf(year + 1, s), EndOf(year + 1, s);
            (DstActive(first - 1, s) <==> StartOf(year, s) >= EndOf(year, s)) &&
            (DstActive(first, s) <==> first == start || (start >= end && first < end))
  {
    hide DaysFromCivil, NewYear, DateTimeFromEpoch, LocalSecondsForTransition;
    YearsAtNewYear(year);
    TransitionWithinYear(year, s.start);
    TransitionWithinYear(year, s.end);
    TransitionWithinYear(year + 1, s.start);
    TransitionWithinYear(year + 1, s.end);
  }

  // The exact condition under which the flag changes at New Year although no transition lies there.
  lemma DstChangesAtNewYear(year: int, s: Dst)
    requires s.enabled && ValidDst(s)
    requires InRange(DaysFromCivil(year + 1, 1, 1)) && InRange(DaysFromCivil(year + 1, 1, 1) - 1)
    requires StartOf(year + 1, s) != NewYear(year + 1) && EndOf(year + 1, s) != NewYear(year + 1)
    ensures var first := NewYear(year + 1);
            DstActive(first - 1, s) != DstActive(first, s) <==>
            (StartOf(year, s) < EndOf(year, s)) == (StartOf(year + 1, s) >= EndOf(year + 1, s) && first < EndOf(year + 1, s))
  {
    hide DstActive, StartOf, EndOf, NewYear;
    DstAtNewYear(year, s);
  }

  // It does happen: daylight time that ends by the rule at 00:30 wall time on the first Wednesday
  // of January should end half an hour before midnight when that is New Year's Day, but the year
  // before still has it on, and it goes off at midnight.
  lemma DstCanChangeAtNewYear()
    ensures var s := Dst(true, 60, Transition(10, 1, 7, 120), Transition(1, 1, 3, 30));
            ValidDst(s) && NewYear(2025) == 1735689600 && EndOf(2025, s) == 1735687800 && StartOf(2025, s) == 1759629600 &&
            DstActive(1735689599, s) && !DstActive(1735689600, s)
  {
    hide DaysFromCivil, IsoWeekday, DateTimeFromEpoch, DstActive, TransitionDayOfMonth, LocalSecondsForTransition, LeapYear;
    var s := Dst(true, 60, Transition(10, 1, 7, 120), Transition(1, 1, 3, 30));
    DaysOf2024And2025();
    FirstOfMonth(2024, s.end, 19723, 3); FirstOfMonth(2024, s.start, 19997, 6);
    FirstOfMonth(2025, s.end, 20089, 1); FirstOfMonth(2025, s.start, 20362, 5);
    DstAtNewYear(2024, s);
  }

  lemma DaysOf2024And2025()
    ensures DaysFromCivil(2024, 1, 1) == 19723 && DaysFromCivil(2024, 10, 1) == 19997
    ensures DaysFromCivil(2025, 1, 1) == 20089 && DaysFromCivil(2025, 10, 1) == 20362
  {
    hide DaysFromCivil;
    DaysOfDate(Date(2024, 1, 1)); DaysOfDate(Date(2024, 10, 1));
    DaysOfDate(Date(2025, 1, 1)); DaysOfDate(Date(2025, 10, 1));
  }

  // A first-week transition from the number of the first day of its month.
  lemma FirstOfMonth(year: int, t: Transition, first: int, day: int)
    requires ValidTransition(t) && t.week == 1 && DaysFromCivil(year, t.month, 1) == first
    requires 1 <= day <= 7 && (first + 3 + day - 1) % 7 + 1 == t.weekday
    ensures TransitionDayOfMonth(year, t) == day
    ensures LocalSecondsForTransition(year, t) == Some((first + day - 1) * 86400 + t.minuteOfDay * 60)
  {
    hide DaysFromCivil, LeapYear, IsoWeekday, Occurrences, DaysInMonth;
    MonthHas28To31(year, t.month);
    WeekdayOfNumber(Date(year, t.month, 1));
    DaysToWeekday(first + 3, day, t.weekday);
    DaysWithinMonth(year, t.month, day);
  }

  lemma DaysToWeekday(n: int, day: int, weekday: int)
    requires 1 <= day <= 7 && (n + day - 1) % 7 + 1 == weekday
    ensures (7 + weekday - (n % 7 + 1)) % 7 == day - 1
  {
    ModShift(n, day - 1);
    var m := n % 7 + day - 1;
    assert m % 7 == if m < 7 then m else m - 7;
  }
}
