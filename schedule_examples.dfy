/**
 Schedules as the published data writes them, and how the evaluator judges
 each of them at every moment of the week.
 */
module ScheduleExamples {
  import opened JsString
  import opened JsValue
  import opened Schedule
  import opened ScheduleProperties
  import opened WellFormed

  /** `L-D` runs from Monday round to Sunday: every day. */
  lemma AllWeekDays(s: string, day: Weekday)
    requires s == "L-D"
    ensures ParseDays(s) == Bounds(Num(1), Num(0))
    ensures InRange(ParseDays(s).lo, ParseDays(s).hi, Num(day))
  {
    assert s == [DayLetter(1)] + "-" + [DayLetter(0)];
    ParseDaysRoundTrip(1, 0);
    InRangeOnNumbers(1, 0, day);
  }

  /** `S-D` wraps past Saturday: exactly Saturday and Sunday. */
  lemma WeekendDays(s: string, day: Weekday)
    requires s == "S-D"
    ensures ParseDays(s) == Bounds(Num(6), Num(0))
    ensures InRange(ParseDays(s).lo, ParseDays(s).hi, Num(day)) <==> day == 6 || day == 0
  {
    assert s == [DayLetter(6)] + "-" + [DayLetter(0)];
    ParseDaysRoundTrip(6, 0);
    InRangeOnNumbers(6, 0, day);
  }

  /** `L-V` is exactly Monday to Friday. */
  lemma WorkingDays(s: string, day: Weekday)
    requires s == "L-V"
    ensures ParseDays(s) == Bounds(Num(1), Num(5))
    ensures InRange(ParseDays(s).lo, ParseDays(s).hi, Num(day)) <==> 1 <= day <= 5
  {
    assert s == [DayLetter(1)] + "-" + [DayLetter(5)];
    ParseDaysRoundTrip(1, 5);
    InRangeOnNumbers(1, 5, day);
  }

  lemma WeekdaysText(w: Window)
    requires w == Window(1, 5, 480, 1320)
    ensures ScheduleText([w]) == "L-V: 08:00-22:00"
  {
  }

  /** Monday to Friday, 08:00 to 22:00, both ends included. */
  lemma WeekdaysExample(s: string, day: Weekday, minute: Minute)
    requires s == "L-V: 08:00-22:00"
    ensures InService(s, day, minute) == Ok(1 <= day <= 5 && 480 <= minute <= 1320)
  {
    var w := Window(1, 5, 480, 1320);
    WeekdaysText(w);
    SingleWindow(w, day, minute);
  }

  lemma OvernightText(w: Window)
    requires w == Window(1, 0, 1320, 360)
    ensures ScheduleText([w]) == "L-D: 22:00-06:00"
  {
  }

  /** Every day from 22:00 to 06:00: the time range wraps past midnight. */
  lemma OvernightExample(s: string, day: Weekday, minute: Minute)
    requires s == "L-D: 22:00-06:00"
    ensures InService(s, day, minute) == Ok(minute >= 1320 || minute <= 360)
  {
    var w := Window(1, 0, 1320, 360);
    OvernightText(w);
    SingleWindow(w, day, minute);
  }

  lemma WeekdayNightsText(w: Window)
    requires w == Window(1, 5, 1320, 360)
    ensures ScheduleText([w]) == "L-V: 22:00-06:00"
  {
  }

  /**
   The day is judged on its own: at 02:00 on Saturday, after Friday night's
   opening, the day range Monday to Friday does not hold, while 02:00 on
   Monday, after Sunday night, counts as open.
   */
  lemma OvernightJudgedOnCurrentDay(s: string, day: Weekday, minute: Minute)
    requires s == "L-V: 22:00-06:00"
    ensures InService(s, day, minute) == Ok(1 <= day <= 5 && (minute >= 1320 || minute <= 360))
  {
    var w := Window(1, 5, 1320, 360);
    WeekdayNightsText(w);
    SingleWindow(w, day, minute);
  }

  lemma WeekendToTuesdayText(w: Window)
    requires w == Window(6, 2, 540, 840)
    ensures ScheduleText([w]) == "S-M: 09:00-14:00"
  {
  }

  /** A day range that wraps past Saturday: `S-M` is Saturday to Tuesday. */
  lemma WrappingDaysExample(s: string, day: Weekday, minute: Minute)
    requires s == "S-M: 09:00-14:00"
    ensures InService(s, day, minute) == Ok((day == 6 || day <= 2) && 540 <= minute <= 840)
  {
    var w := Window(6, 2, 540, 840);
    WeekendToTuesdayText(w);
    SingleWindow(w, day, minute);
  }

  /** A single-day clause, as the data sometimes writes it, never matches. */
  lemma SingleDayExample(s: string, day: Weekday, minute: Minute)
    requires s == "S: 10:00-13:00"
    ensures InService(s, day, minute) == Ok(false)
  {
    AbsentChar(s, AllWeekAllDay, 0);
    var days, times := s[..1], s[3..];
    assert s == days + ": " + times;
    SingleDayNeverMatches(days, times, day, minute);
    OneClause(s, day, minute);
  }

  lemma NineToFiveText(w: Window)
    requires w == Window(1, 5, 540, 1020)
    ensures ScheduleText([w]) == "L-V: 09:00-17:00"
  {
  }

  /** Monday to Friday, 09:00 to 17:00. */
  lemma NineToFiveExample(s: string, day: Weekday, minute: Minute)
    requires s == "L-V: 09:00-17:00"
    ensures InService(s, day, minute) == Ok(1 <= day <= 5 && 540 <= minute <= 1020)
  {
    var w := Window(1, 5, 540, 1020);
    NineToFiveText(w);
    SingleWindow(w, day, minute);
  }

  /**
   Two clauses: the weekday one is honoured, the single-day Saturday one is
   not, so Saturday at 11:00 is closed.
   */
  lemma TwoClauseExample(s: string, day: Weekday, minute: Minute)
    requires s == "L-V: 09:00-17:00;S: 10:00-13:00"
    ensures InService(s, day, minute) == Ok(1 <= day <= 5 && 540 <= minute <= 1020)
  {
    var first, second := "L-V: 09:00-17:00", "S: 10:00-13:00";
    assert s == first + ";" + second;
    AbsentChar(second, AllWeekAllDay, 0);
    NineToFiveExample(first, day, minute);
    SingleDayExample(second, day, minute);
    AppendClauses(first, second, day, minute);
  }

  /** The all-week marker is open at every moment. */
  lemma AllWeekExample(s: string, day: Weekday, minute: Minute)
    requires s == "L-D: 24H"
    ensures InService(s, day, minute) == Ok(true)
  {
    MarkerAnywhere("", "", day, minute);
    assert "" + AllWeekAllDay + "" == s;
  }

  /** `24H` outside the all-week marker is never honoured. */
  lemma WeekdaysAllDayExample(s: string, day: Weekday, minute: Minute)
    requires s == "L-V: 24H"
    ensures InService(s, day, minute) == Ok(false)
  {
    AbsentChar(s, AllWeekAllDay, 2);
    var days, times := s[..3], s[5..];
    assert days + ": " + times == s;
    AllDayNeverMatchesOutsideMarker(days, times, day, minute);
    OneClause(s, day, minute);
  }
}
