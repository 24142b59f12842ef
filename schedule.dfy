/**
 The "open now" evaluator of the fuel-station finder. A schedule is the text
 the Spanish fuel-price service publishes for a station, such as
 `L-V: 08:00-22:00;S-D: 10:00-14:00` or `L-D: 24H`: clauses separated by
 `;`, each a day range and a time range separated by `: `. Days are the
 Spanish initials L M X J V S D (Monday to Sunday) and are numbered as the
 JavaScript clock numbers them, Sunday = 0. The moment of evaluation, which
 the application reads from the clock, is a parameter here.
 */
module Schedule {
  import opened JsString
  import opened JsValue

  /** A day of the week as the clock reports it: 0 is Sunday, 1 Monday, ..., 6 Saturday. */
  type Weekday = d: nat | d < 7

  /** Minutes since midnight. */
  type Minute = m: nat | m < 1440

  /**
   The one way evaluation fails: a clause without `": "` has no time range,
   and calling `split` on the missing part raises a TypeError.
   */
  datatype ScheduleError = TimeRangeUndefined(clause: string)

  datatype Result<T> = Ok(value: T) | Err(error: ScheduleError)

  /** The marker of a station that is open all week, all day. */
  const AllWeekAllDay: string := "L-D: 24H"

  /** The letter the schedule uses for each day of the week. */
  function DayLetter(d: Weekday): char
  {
    "DLMXJVS"[d]
  }

  /**
   Looking a token up in the day table: `L` 1, `M` 2, `X` 3, `J` 4, `V` 5,
   `S` 6, `D` 0, and `undefined` for anything else.
   */
  function DayValue(token: string): (v: Value)
    ensures v.Num? ==> v.n < 7 && token == [DayLetter(v.n)]
    ensures v.Num? || v.Undefined?
    ensures (exists d: Weekday :: token == [DayLetter(d)]) ==> v.Num?
  {
    if token == "L" then Num(1)
    else if token == "M" then Num(2)
    else if token == "X" then Num(3)
    else if token == "J" then Num(4)
    else if token == "V" then Num(5)
    else if token == "S" then Num(6)
    else if token == "D" then Num(0)
    else Undefined
  }

  /**
   The two ends that destructuring `[a, b] = ...` takes out of a list; `hi`
   is `undefined` when the list has a single element.
   */
  datatype Bounds = Bounds(lo: Value, hi: Value)

  /** The day part: split on `-`, and look each trimmed piece up in the day table. */
  function ParseDays(days: string): Bounds
  {
    var parts := Split(days, "-");
    Bounds(DayValue(Trim(parts[0])), if |parts| >= 2 then DayValue(Trim(parts[1])) else Undefined)
  }

  /** The reducer `(h, m) => h * 60 + Number(m)`; NaN on either side makes the result NaN. */
  function Step(h: Value, m: string): Value
  {
    match (ToNumber(h), StringToNumber(m))
    case (Some(x), Some(y)) => Num(x * 60 + y)
    case _ => NaN
  }

  /**
   `parts.reduce(step)` with no initial value: the first element, still a
   string, is the starting accumulator, so a single element comes back
   unconverted.
   */
  function Reduce(parts: seq<string>): Value
    requires |parts| >= 1
  {
    if |parts| == 1 then Str(parts[0]) else Step(Reduce(parts[..|parts| - 1]), parts[|parts| - 1])
  }

  /** One time of day: split on `:` and reduce the pieces to minutes. */
  function TimeValue(t: string): Value
  {
    Reduce(Split(t, ":"))
  }

  /** The time part: split on `-`, and turn each piece into minutes. */
  function ParseTimes(timeRange: string): Bounds
  {
    var parts := Split(timeRange, "-");
    Bounds(TimeValue(parts[0]), if |parts| >= 2 then TimeValue(parts[1]) else Undefined)
  }

  /** A clause as the evaluator sees it after parsing. */
  datatype Clause = Clause(days: Bounds, times: Bounds)

  /**
   Parses one clause. Only the first two pieces around `": "` are used; when
   there is no `": "` the time range is missing and parsing fails.
   */
  function ParseClause(hour: string): (r: Result<Clause>)
    ensures r.Err? <==> !Includes(hour, ": ")
    ensures r.Err? ==> r.error == TimeRangeUndefined(hour)
  {
    SplitSingle(hour, ": ");
    var parts := Split(hour, ": ");
    if |parts| < 2 then Err(TimeRangeUndefined(hour))
    else Ok(Clause(ParseDays(parts[0]), ParseTimes(parts[1])))
  }

  /** Both the day and the minute fall within the clause's ranges. */
  predicate Matches(c: Clause, day: Weekday, minute: Minute)
  {
    InRange(c.days.lo, c.days.hi, Num(day)) && InRange(c.times.lo, c.times.hi, Num(minute))
  }

  /**
   The clause loop: the first clause that matches makes the station open,
   a clause that fails to parse before that aborts the evaluation, and
   running out of clauses means closed.
   */
  function EvalClauses(hours: seq<string>, day: Weekday, minute: Minute): Result<bool>
  {
    if hours == [] then Ok(false)
    else match ParseClause(hours[0])
      case Err(e) => Err(e)
      case Ok(c) => if Matches(c, day, minute) then Ok(true) else EvalClauses(hours[1..], day, minute)
  }

  /** Whether the station is open at `day`, `minute`, or the error evaluation raises. */
  function InService(schedule: string, day: Weekday, minute: Minute): Result<bool>
  {
    if Includes(schedule, AllWeekAllDay) then Ok(true)
    else EvalClauses(Split(schedule, ";"), day, minute)
  }

  /**
   The evaluator as the application runs it: the all-week marker first, then
   a scan over the clauses that returns at the first match.
   */
  method IsStationInService(schedule: string, day: Weekday, minute: Minute) returns (r: Result<bool>)
    ensures r == InService(schedule, day, minute)
  {
    if Includes(schedule, AllWeekAllDay) {
      return Ok(true);
    }
    var hours := Split(schedule, ";");
    var i := 0;
    while i < |hours|
      invariant 0 <= i <= |hours|
      invariant EvalClauses(hours[i..], day, minute) == EvalClauses(hours, day, minute)
    {
      var parsed := ParseClause(hours[i]);
      if parsed.Err? {
        return Err(parsed.error);
      }
      if Matches(parsed.value, day, minute) {
        return Ok(true);
      }
      assert hours[i..][1..] == hours[i + 1..];
      i := i + 1;
    }
    return Ok(false);
  }
}
