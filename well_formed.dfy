/**
 Schedules written the way the published data writes them: every clause a
 pair of day letters and a pair of `HH:MM` times, such as
 `L-V: 08:00-22:00`. On such schedules the evaluator means what the format
 suggests: open exactly when some clause covers the day and the time,
 inclusive at both ends, with ranges that wrap past Sunday or past midnight.
 */
module WellFormed {
  import opened JsString
  import opened JsValue
  import opened Schedule
  import opened ScheduleProperties

  /** One clause `F-T: HH:MM-HH:MM`: from day `from` to day `to`, from `opens` to `closes`. */
  datatype Window = Window(from: Weekday, to: Weekday, opens: Minute, closes: Minute)

  /** The reference reading of a window: both ranges contain the moment, wrapping when the end comes first. */
  predicate Covers(w: Window, day: Weekday, minute: Minute)
  {
    WrapContains(w.from, w.to, day) && WrapContains(w.opens, w.closes, minute)
  }

  function DigitChar(n: nat): (c: char)
    requires n < 10
    ensures IsDigit(c) && c as int - '0' as int == n
  {
    ('0' as int + n) as char
  }

  /** A number below 100 written with two digits, as in `08`. */
  function TwoDigits(n: nat): (s: string)
    requires n < 100
    ensures |s| == 2 && AllDigits(s)
  {
    [DigitChar(n / 10), DigitChar(n % 10)]
  }

  /** A minute of the day written `HH:MM`. */
  function Clock(m: Minute): string
  {
    TwoDigits(m / 60) + ":" + TwoDigits(m % 60)
  }

  function WindowText(w: Window): string
  {
    [DayLetter(w.from)] + "-" + [DayLetter(w.to)] + ": " + Clock(w.opens) + "-" + Clock(w.closes)
  }

  /** The text of each window, in order. */
  function Texts(ws: seq<Window>): (ts: seq<string>)
    ensures |ts| == |ws| && forall i :: 0 <= i < |ws| ==> ts[i] == WindowText(ws[i])
  {
    seq(|ws|, i requires 0 <= i < |ws| => WindowText(ws[i]))
  }

  /** A schedule of one or more windows, separated by `;`. */
  function ScheduleText(ws: seq<Window>): string
    requires |ws| >= 1
  {
    Join(Texts(ws), ";")
  }

  /** Two digits convert to the number they were written from. */
  lemma TwoDigitsNumber(n: nat)
    requires n < 100
    ensures DigitsValue(TwoDigits(n)) == n
    ensures StringToNumber(TwoDigits(n)) == Some(n)
  {
    var s := TwoDigits(n);
    StringToNumberDigits(s);
    TwoDigitsValue(s[0], s[1]);
    assert s == [s[0], s[1]];
  }

  /** Reducing two pieces converts the first to hours and adds the second as minutes. */
  lemma ReducePair(h: string, m: string)
    ensures Reduce([h, m]) == Step(Str(h), m)
  {
    assert [h, m][..1] == [h];
  }

  /**
   Any `H:M` of digit runs reads as `H * 60 + M`, whatever the number of digits
   and whether or not it is a real time of day: `24:00` is 1440, `8:00` is 480
   and `08:75` is 555.
   */
  lemma AnyClock(h: string, m: string)
    requires AllDigits(h) && AllDigits(m)
    ensures TimeValue(h + ":" + m) == Num(DigitsValue(h) * 60 + DigitsValue(m))
  {
    assert ':' !in h && ':' !in m by {
      assert forall k :: 0 <= k < |h| ==> IsDigit(h[k]);
      assert forall k :: 0 <= k < |m| ==> IsDigit(m[k]);
    }
    SplitPair(h, ':', m);
    assert h + ":" + m == h + [':'] + m;
    ReducePair(h, m);
    StringToNumberDigits(h);
    StringToNumberDigits(m);
  }

  /** `HH:MM` reads back as the minute it was written from. */
  lemma ClockRoundTrip(m: Minute)
    ensures TimeValue(Clock(m)) == Num(m)
  {
    var h, mm := TwoDigits(m / 60), TwoDigits(m % 60);
    AnyClock(h, mm);
    assert DigitsValue(h) * 60 + DigitsValue(mm) == m by {
      TwoDigitsNumber(m / 60);
      TwoDigitsNumber(m % 60);
    }
  }

  /** `HH:MM-HH:MM` reads back as its two minutes. */
  lemma ParseTimesRoundTrip(opens: Minute, closes: Minute)
    ensures ParseTimes(Clock(opens) + "-" + Clock(closes)) == Bounds(Num(opens), Num(closes))
  {
    SplitPair(Clock(opens), '-', Clock(closes));
    ClockRoundTrip(opens);
    ClockRoundTrip(closes);
  }

  /** Each day letter looks up to its own day. */
  lemma DayLetterValue(d: Weekday)
    ensures Trim([DayLetter(d)]) == [DayLetter(d)]
    ensures DayValue([DayLetter(d)]) == Num(d)
  {
    TrimNoEnds([DayLetter(d)]);
  }

  /** `F-T` reads back as its two days. */
  lemma ParseDaysRoundTrip(from: Weekday, to: Weekday)
    ensures ParseDays([DayLetter(from)] + "-" + [DayLetter(to)]) == Bounds(Num(from), Num(to))
  {
    SplitPair([DayLetter(from)], '-', [DayLetter(to)]);
    DayLetterValue(from);
    DayLetterValue(to);
  }

  /** A window's text parses back to the window. */
  lemma ParseWindow(w: Window)
    ensures ParseClause(WindowText(w)) ==
      Ok(Clause(Bounds(Num(w.from), Num(w.to)), Bounds(Num(w.opens), Num(w.closes))))
  {
    var days := [DayLetter(w.from)] + "-" + [DayLetter(w.to)];
    var times := Clock(w.opens) + "-" + Clock(w.closes);
    assert WindowText(w) == days + ": " + times;
    assert ' ' !in times;
    AbsentChar(times, ": ", 1);
    SplitSingle(times, ": ");
    SplitAfterFirst(days, ": ", times);
    ParseDaysRoundTrip(w.from, w.to);
    ParseTimesRoundTrip(w.opens, w.closes);
  }

  /** A window's clause matches exactly when the window covers the moment. */
  lemma WindowMatches(w: Window, day: Weekday, minute: Minute)
    ensures ParseClause(WindowText(w)).Ok?
    ensures Opens(WindowText(w), day, minute) <==> Covers(w, day, minute)
  {
    ParseWindow(w);
    InRangeOnNumbers(w.from, w.to, day);
    InRangeOnNumbers(w.opens, w.closes, minute);
  }

  /** Splitting a well-formed schedule on `;` gives back the windows' texts. */
  lemma SplitScheduleText(ws: seq<Window>)
    requires |ws| >= 1
    ensures Split(ScheduleText(ws), ";") == Texts(ws)
  {
    forall k | 0 <= k < |ws| ensures ';' !in Texts(ws)[k] {
      assert ';' !in WindowText(ws[k]);
    }
    SplitJoin(Texts(ws), ';');
  }

  /** No well-formed schedule holds the all-week marker: its `H` never appears. */
  lemma NoMarker(ws: seq<Window>)
    requires |ws| >= 1
    ensures !Includes(ScheduleText(ws), AllWeekAllDay)
  {
    forall k | 0 <= k < |ws| ensures 'H' !in Texts(ws)[k] {
      assert 'H' !in WindowText(ws[k]);
    }
    JoinChars(Texts(ws), ";", 'H');
    AbsentChar(ScheduleText(ws), AllWeekAllDay, 7);
  }

  /** Every clause of a well-formed schedule parses. */
  lemma TextsParse(ws: seq<Window>)
    ensures forall h :: h in Texts(ws) ==> ParseClause(h).Ok?
  {
    forall h | h in Texts(ws) ensures ParseClause(h).Ok? {
      var i :| 0 <= i < |ws| && Texts(ws)[i] == h;
      ParseWindow(ws[i]);
    }
  }

  /** The clause at position `i` matches exactly when window `i` covers the moment. */
  lemma TextAtOpensIff(ws: seq<Window>, i: nat, day: Weekday, minute: Minute)
    requires i < |ws|
    ensures Texts(ws)[i] in Texts(ws) && ws[i] in ws
    ensures Opens(Texts(ws)[i], day, minute) <==> Covers(ws[i], day, minute)
  {
    WindowMatches(ws[i], day, minute);
  }

  /** A matching clause of a well-formed schedule comes from a window that covers the moment. */
  lemma OpenTextCovers(ws: seq<Window>, h: string, day: Weekday, minute: Minute)
    requires h in Texts(ws) && Opens(h, day, minute)
    ensures exists w :: w in ws && Covers(w, day, minute)
  {
    var i :| 0 <= i < |ws| && Texts(ws)[i] == h;
    TextAtOpensIff(ws, i, day, minute);
  }

  /** A window that covers the moment gives a clause that matches. */
  lemma CoveringWindowOpens(ws: seq<Window>, w: Window, day: Weekday, minute: Minute)
    requires w in ws && Covers(w, day, minute)
    ensures exists h :: h in Texts(ws) && Opens(h, day, minute)
  {
    var i :| 0 <= i < |ws| && ws[i] == w;
    TextAtOpensIff(ws, i, day, minute);
  }

  /** Some clause of a well-formed schedule matches exactly when some window covers the moment. */
  lemma TextsOpenIff(ws: seq<Window>, day: Weekday, minute: Minute)
    ensures (exists h :: h in Texts(ws) && Opens(h, day, minute)) <==> (exists w :: w in ws && Covers(w, day, minute))
  {
    if exists h :: h in Texts(ws) && Opens(h, day, minute) {
      var h :| h in Texts(ws) && Opens(h, day, minute);
      OpenTextCovers(ws, h, day, minute);
    }
    if exists w :: w in ws && Covers(w, day, minute) {
      var w :| w in ws && Covers(w, day, minute);
      CoveringWindowOpens(ws, w, day, minute);
    }
  }

  /**
   A well-formed schedule never fails, and it is open exactly when one of
   its windows covers the moment.
   */
  lemma WellFormedSchedule(ws: seq<Window>, day: Weekday, minute: Minute)
    requires |ws| >= 1
    ensures InService(ScheduleText(ws), day, minute) == Ok(exists w :: w in ws && Covers(w, day, minute))
  {
    NoMarker(ws);
    SplitScheduleText(ws);
    TextsParse(ws);
    NoErrorExistential(Texts(ws), day, minute);
    TextsOpenIff(ws, day, minute);
  }

  /** A schedule of one window is open exactly when that window covers the moment. */
  lemma SingleWindow(w: Window, day: Weekday, minute: Minute)
    ensures InService(ScheduleText([w]), day, minute) == Ok(Covers(w, day, minute))
  {
    WellFormedSchedule([w], day, minute);
  }

  /** The order of a well-formed schedule's windows, and their repetition, do not matter. */
  lemma WindowOrderIrrelevant(ws: seq<Window>, vs: seq<Window>, day: Weekday, minute: Minute)
    requires |ws| >= 1 && |vs| >= 1
    requires forall w :: w in ws <==> w in vs
    ensures InService(ScheduleText(ws), day, minute) == InService(ScheduleText(vs), day, minute)
  {
    WellFormedSchedule(ws, day, minute);
    WellFormedSchedule(vs, day, minute);
  }
}
