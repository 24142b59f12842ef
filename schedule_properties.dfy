/**
 How the evaluator decides: the clause loop, the all-week marker, what
 appending to a schedule does, and which clauses can never match.
 */
module ScheduleProperties {
  import opened JsString
  import opened JsValue
  import opened Schedule

  /** The clause parses and does not match, so the loop moves past it. */
  predicate PassesOver(hour: string, day: Weekday, minute: Minute)
  {
    ParseClause(hour).Ok? && !Matches(ParseClause(hour).value, day, minute)
  }

  /** The clause parses and matches. */
  predicate Opens(hour: string, day: Weekday, minute: Minute)
  {
    ParseClause(hour).Ok? && Matches(ParseClause(hour).value, day, minute)
  }

  /** The loop gets as far as clause `i`: every clause before it is passed over. */
  predicate Reaches(hours: seq<string>, i: nat, day: Weekday, minute: Minute)
  {
    i <= |hours| && forall j :: 0 <= j < i ==> PassesOver(hours[j], day, minute)
  }

  /**
   The clause where the loop stops decides the outcome: open if it parses
   (and so matches), its error if it does not, closed if the loop passes
   every clause.
   */
  lemma {:induction false} DecidedWhereLoopStops(hours: seq<string>, day: Weekday, minute: Minute, k: nat)
    requires Reaches(hours, k, day, minute)
    requires k < |hours| ==> !PassesOver(hours[k], day, minute)
    ensures EvalClauses(hours, day, minute) ==
      if k == |hours| then Ok(false)
      else if ParseClause(hours[k]).Err? then Err(ParseClause(hours[k]).error)
      else Ok(true)
    decreases k
  {
    if k > 0 {
      assert PassesOver(hours[0], day, minute);
      ReachesTail(hours, k, day, minute);
      DecidedWhereLoopStops(hours[1..], day, minute, k - 1);
    }
  }

  /** Past the first clause, the loop reaches the same clauses of the rest. */
  lemma ReachesTail(hours: seq<string>, k: nat, day: Weekday, minute: Minute)
    requires 0 < k && Reaches(hours, k, day, minute)
    ensures Reaches(hours[1..], k - 1, day, minute)
    ensures k < |hours| ==> hours[1..][k - 1] == hours[k]
  {
    var tail := hours[1..];
    forall j | 0 <= j < k - 1 ensures PassesOver(tail[j], day, minute) {
      assert tail[j] == hours[j + 1];
    }
  }

  /** The loop stops somewhere: at the first clause it does not pass over, or after the last. */
  lemma {:induction false} LoopStops(hours: seq<string>, day: Weekday, minute: Minute) returns (k: nat)
    ensures Reaches(hours, k, day, minute)
    ensures k < |hours| ==> !PassesOver(hours[k], day, minute)
    decreases |hours|
  {
    if hours == [] || !PassesOver(hours[0], day, minute) {
      k := 0;
    } else {
      var k' := LoopStops(hours[1..], day, minute);
      k := k' + 1;
      forall j | 0 <= j < k ensures PassesOver(hours[j], day, minute) {
        if j > 0 {
          assert hours[j] == hours[1..][j - 1];
        }
      }
      assert k < |hours| ==> hours[k] == hours[1..][k'];
    }
  }

  /**
   Open exactly when some clause matches and every clause before it parses
   and does not match.
   */
  lemma EvalOpenIff(hours: seq<string>, day: Weekday, minute: Minute)
    ensures EvalClauses(hours, day, minute) == Ok(true) <==>
      exists i: nat :: i < |hours| && Reaches(hours, i, day, minute) && Opens(hours[i], day, minute)
  {
    var k := LoopStops(hours, day, minute);
    DecidedWhereLoopStops(hours, day, minute, k);
    if exists i: nat :: i < |hours| && Reaches(hours, i, day, minute) && Opens(hours[i], day, minute) {
      var i: nat :| i < |hours| && Reaches(hours, i, day, minute) && Opens(hours[i], day, minute);
      DecidedWhereLoopStops(hours, day, minute, i);
    }
  }

  /**
   Evaluation fails with `e` exactly when some clause fails to parse with
   `e` and every clause before it parses and does not match.
   */
  lemma EvalErrIff(hours: seq<string>, day: Weekday, minute: Minute, e: ScheduleError)
    ensures EvalClauses(hours, day, minute) == Err(e) <==>
      exists i: nat :: i < |hours| && Reaches(hours, i, day, minute) && ParseClause(hours[i]) == Err(e)
  {
    var k := LoopStops(hours, day, minute);
    DecidedWhereLoopStops(hours, day, minute, k);
    if exists i: nat :: i < |hours| && Reaches(hours, i, day, minute) && ParseClause(hours[i]) == Err(e) {
      var i: nat :| i < |hours| && Reaches(hours, i, day, minute) && ParseClause(hours[i]) == Err(e);
      DecidedWhereLoopStops(hours, day, minute, i);
    }
  }

  /** Closed exactly when every clause parses and none matches. */
  lemma EvalClosedIff(hours: seq<string>, day: Weekday, minute: Minute)
    ensures EvalClauses(hours, day, minute) == Ok(false) <==>
      forall i :: 0 <= i < |hours| ==> PassesOver(hours[i], day, minute)
  {
    var k := LoopStops(hours, day, minute);
    DecidedWhereLoopStops(hours, day, minute, k);
    if forall i :: 0 <= i < |hours| ==> PassesOver(hours[i], day, minute) {
      DecidedWhereLoopStops(hours, day, minute, |hours|);
    }
  }

  /**
   When every clause parses, the loop computes an existential: open exactly
   when some clause matches.
   */
  lemma NoErrorExistential(hours: seq<string>, day: Weekday, minute: Minute)
    requires forall h :: h in hours ==> ParseClause(h).Ok?
    ensures EvalClauses(hours, day, minute) == Ok(exists h :: h in hours && Opens(h, day, minute))
  {
    var k := LoopStops(hours, day, minute);
    DecidedWhereLoopStops(hours, day, minute, k);
    if k == |hours| {
      forall h | h in hours ensures !Opens(h, day, minute) {
        var j :| 0 <= j < |hours| && hours[j] == h;
        assert PassesOver(hours[j], day, minute);
      }
    } else {
      assert hours[k] in hours;
      assert Opens(hours[k], day, minute);
    }
  }

  /** When no clause can fail, the order and repetition of the clauses do not matter. */
  lemma ClauseOrderIrrelevant(hours: seq<string>, others: seq<string>, day: Weekday, minute: Minute)
    requires forall h :: h in hours ==> ParseClause(h).Ok?
    requires forall h :: h in hours <==> h in others
    ensures EvalClauses(hours, day, minute) == EvalClauses(others, day, minute)
  {
    NoErrorExistential(hours, day, minute);
    NoErrorExistential(others, day, minute);
  }

  /**
   Evaluating two lists of clauses one after the other: the second list is
   looked at only when the first ends closed, so clauses after the first
   match are never parsed and cannot raise an error.
   */
  lemma {:induction false} EvalAppend(first: seq<string>, second: seq<string>, day: Weekday, minute: Minute)
    ensures EvalClauses(first + second, day, minute) ==
      if EvalClauses(first, day, minute) == Ok(false) then EvalClauses(second, day, minute)
      else EvalClauses(first, day, minute)
  {
    if first == [] {
      assert first + second == second;
    } else {
      assert (first + second)[0] == first[0];
      assert (first + second)[1..] == first[1..] + second;
      EvalAppend(first[1..], second, day, minute);
    }
  }

  /** A schedule that contains the all-week marker anywhere is open at every moment. */
  lemma MarkerAnywhere(before: string, after: string, day: Weekday, minute: Minute)
    ensures InService(before + AllWeekAllDay + after, day, minute) == Ok(true)
  {
    assert OccursAt(AllWeekAllDay, AllWeekAllDay, 0);
    IncludesIff(AllWeekAllDay, AllWeekAllDay);
    IncludesSuffix(before, AllWeekAllDay, AllWeekAllDay);
    IncludesPrefix(before + AllWeekAllDay, after, AllWeekAllDay);
  }

  /** Appending a clause to a schedule that is open leaves it open, whatever the clause. */
  lemma AppendKeepsOpen(schedule: string, clause: string, day: Weekday, minute: Minute)
    requires InService(schedule, day, minute) == Ok(true)
    ensures InService(schedule + ";" + clause, day, minute) == Ok(true)
  {
    if Includes(schedule, AllWeekAllDay) {
      IncludesPrefix(schedule, ";" + clause, AllWeekAllDay);
      assert schedule + ";" + clause == schedule + (";" + clause);
    } else if !Includes(schedule + ";" + clause, AllWeekAllDay) {
      SplitAround(schedule, ';', clause);
      EvalAppend(Split(schedule, ";"), Split(clause, ";"), day, minute);
    }
  }

  /**
   Appending clauses that do not hold the all-week marker: the result is the
   original's when that is open or an error, and the appended clauses' own
   result when the original is closed.
   */
  lemma AppendClauses(schedule: string, more: string, day: Weekday, minute: Minute)
    requires !Includes(more, AllWeekAllDay)
    ensures InService(schedule + ";" + more, day, minute) ==
      if InService(schedule, day, minute) == Ok(false) then InService(more, day, minute)
      else InService(schedule, day, minute)
  {
    IncludesAround(schedule, ';', more, AllWeekAllDay);
    if !Includes(schedule, AllWeekAllDay) {
      SplitAround(schedule, ';', more);
      EvalAppend(Split(schedule, ";"), Split(more, ";"), day, minute);
    }
  }

  /** The empty schedule is one empty clause, which has no `": "` and so fails. */
  lemma EmptyScheduleFails(day: Weekday, minute: Minute)
    ensures InService("", day, minute) == Err(TimeRangeUndefined(""))
  {
    AbsentChar("", AllWeekAllDay, 0);
    AbsentChar("", ";", 0);
    SplitSingle("", ";");
    AbsentChar("", ": ", 0);
  }

  /**
   A trailing `;` adds an empty clause: the schedule then fails whenever it
   would otherwise have been closed.
   */
  lemma TrailingSeparatorFails(schedule: string, day: Weekday, minute: Minute)
    ensures InService(schedule + ";", day, minute) ==
      if InService(schedule, day, minute) == Ok(false) then Err(TimeRangeUndefined(""))
      else InService(schedule, day, minute)
  {
    AbsentChar("", AllWeekAllDay, 0);
    AppendClauses(schedule, "", day, minute);
    assert schedule + ";" + "" == schedule + ";";
    EmptyScheduleFails(day, minute);
  }

  /** A schedule of one clause, without the all-week marker, is decided by that clause alone. */
  lemma OneClause(hour: string, day: Weekday, minute: Minute)
    requires ';' !in hour && !Includes(hour, AllWeekAllDay)
    ensures InService(hour, day, minute) == EvalClauses([hour], day, minute)
    ensures PassesOver(hour, day, minute) ==> InService(hour, day, minute) == Ok(false)
  {
    AbsentChar(hour, ";", 0);
    SplitSingle(hour, ";");
  }

  /** A clause whose day part has no `:` parses into that day part and the time part before any further `": "`. */
  lemma ClauseParts(days: string, rest: string)
    requires ':' !in days
    ensures ParseClause(days + ": " + rest) == Ok(Clause(ParseDays(days), ParseTimes(Split(rest, ": ")[0])))
  {
    SplitAfterFirst(days, ": ", rest);
  }

  /** A clause whose day part has no `-` (a single day such as `S`) never matches: its end day is `undefined`. */
  lemma SingleDayNeverMatches(days: string, times: string, day: Weekday, minute: Minute)
    requires '-' !in days && ':' !in days
    ensures PassesOver(days + ": " + times, day, minute)
  {
    ClauseParts(days, times);
    AbsentChar(days, "-", 0);
    SplitSingle(days, "-");
    var c := ParseClause(days + ": " + times).value;
    assert c.days.hi == Undefined;
    if Matches(c, day, minute) {
      InRangeNeedsBounds(c.days.lo, c.days.hi, day);
    }
  }

  /**
   A clause with a day token that is not one of the seven letters (after
   trimming) never matches: that end of the range is `undefined`.
   */
  lemma UnknownDayNeverMatches(from: string, to: string, times: string, day: Weekday, minute: Minute)
    requires '-' !in from && '-' !in to && ':' !in from && ':' !in to
    requires DayValue(Trim(from)) == Undefined || DayValue(Trim(to)) == Undefined
    ensures PassesOver(from + "-" + to + ": " + times, day, minute)
  {
    var days := from + "-" + to;
    assert ':' !in days;
    ClauseParts(days, times);
    SplitPair(from, '-', to);
    var c := ParseClause(days + ": " + times).value;
    assert c.days == Bounds(DayValue(Trim(from)), DayValue(Trim(to)));
    if Matches(c, day, minute) {
      InRangeNeedsBounds(c.days.lo, c.days.hi, day);
    }
  }

  /** `reduce` hands back the string "24H" as the start of the range, and its end is `undefined`. */
  lemma AllDayTimes(times: string)
    requires times == "24H"
    ensures Split(times, ": ") == [times]
    ensures ParseTimes(times) == Bounds(Str(times), Undefined)
  {
    AbsentChar(times, ": ", 0);
    SplitSingle(times, ": ");
    AbsentChar(times, "-", 0);
    SplitSingle(times, "-");
    AbsentChar(times, ":", 0);
    SplitSingle(times, ":");
  }

  /** `24H` anywhere but in the all-week marker never matches, because its end is `undefined`. */
  lemma AllDayNeverMatchesOutsideMarker(days: string, times: string, day: Weekday, minute: Minute)
    requires ':' !in days && times == "24H"
    ensures PassesOver(days + ": " + times, day, minute)
  {
    ClauseParts(days, times);
    AllDayTimes(times);
    var c := ParseClause(days + ": " + times).value;
    assert c.times.hi == Undefined;
    if Matches(c, day, minute) {
      InRangeNeedsBounds(c.times.lo, c.times.hi, minute);
    }
  }
}
