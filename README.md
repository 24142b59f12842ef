# TailwindGas "open now" evaluator, modelled in Dafny

TailwindGas is a browser page that lists fuel stations from the Spanish
government's fuel-price service. Its one piece of real logic is
`isStationInService`. This function reads the opening-hours text the service
publishes for a station (its `Horario`) and decides whether the station is
open at the current moment. Examples of that text are
`L-V: 08:00-22:00;S-D: 10:00-14:00` and `L-D: 24H`.

The "open now" checkbox uses the evaluator as a filter over the station list.
Before any search, a small check makes sure a province, a municipality and a
fuel type have all been chosen.

The model follows the JavaScript as it is written, including its quirks:

- **All-week marker.** Any schedule containing `L-D: 24H` is open at once.
- **Clause split.** Otherwise the schedule is split into clauses on `;`.
- **Parsing a clause.** Each clause is split on `": "`. Day letters are looked
  up in the table L 1, M 2, X 3, J 4, V 5, S 6, D 0, and an unknown letter
  gives `undefined`. Each `HH:MM` goes through `split(":").reduce(...)`. A
  single piece (`24H`) therefore comes back as an unconverted string.
- **Comparisons.** The day and time tests use ECMAScript comparison. A
  comparison with `undefined` or NaN is false, and two strings compare by
  their characters.
- **Missing separator.** A clause without `": "` has no time range. Calling
  `split` on it throws, and the model returns an error value
  (`TimeRangeUndefined`).
- **First match wins.** The first clause that matches makes the station
  open. A clause that fails before any match aborts the evaluation.

Modules:

- `JsString`: `indexOf`/`includes`, `split` with a string separator, and
  `trim` over the ECMAScript white-space set, with their laws. Those laws are:
  - `split` then join gives the text back.
  - A split spreads over a separator character in the text.
  - Trimming cuts only white space.
- `JsValue`: the values that reach the comparisons (number, NaN, string,
  `undefined`), plus `Number(...)` on digit strings and the relational
  operators.
- `Schedule`: the day table, clause parsing, `Matches`, the reference function
  `InService`, and the loop `IsStationInService`, proved equal to it.
- `ScheduleProperties`: what the loop computes, what the all-week marker,
  appending and a trailing `;` do, and which clauses can never match.
- `WellFormed`: schedules built from `F-T: HH:MM-HH:MM` windows.
  - `HH:MM` parses back to its minute.
  - Such a schedule never fails, and it is open exactly when some window
    covers the moment (`WrapContains`, inclusive and wrap-aware).
- `ScheduleExamples`: concrete schedules judged at every moment of the week.
- `Stations`: the "open now" filter and what the results panel shows.
- `Selection`: `validateSelections`.

Three places where the code does not do what a reader of the format would
expect. The model follows the code in each:

- **Single-day clauses.** A reader would take a lone letter, as in
  `S: 10:00-13:00`, to mean that one day, so that
  `L-V: 09:00-17:00;S: 10:00-13:00` is open on Saturday at 11:00. In the code
  a single day leaves `endDay` undefined, and such a clause never matches.
  `ScheduleExamples.TwoClauseExample` shows Saturday 11:00 as closed.
- **`S-M`.** A reader would take `M` for Monday and `S-M` for Saturday to
  Monday. In the day table M is 2 (Tuesday, *martes*). Monday is L (*lunes*),
  so `S-M` is Saturday to Tuesday (`ScheduleExamples.WrappingDaysExample`).
- **Empty schedule.** A reader would take a station with no hours as simply
  closed. The code splits the empty text into one empty clause without
  `": "`, and the evaluation fails with the missing-time-range error
  (`ScheduleProperties.EmptyScheduleFails`).

## Model

| member | source | states |
|---|---|---|
| JsString.IndexOf | src/logic/script.js:228 | the position found is an occurrence at or after the start, and no earlier one exists; no position means no occurrence at all |
| JsString.IncludesIff | src/logic/script.js:228 | `includes` holds exactly when the pattern occurs somewhere |
| JsString.IndexOfFirst | src/logic/script.js:228 | an occurrence with none before it is the one found |
| JsString.AbsentChar | src/logic/script.js:228 | a pattern with a character the text lacks is not included |
| JsString.IncludesPrefix | src/logic/script.js:228 | text that includes the pattern still includes it when more is appended |
| JsString.IncludesSuffix | src/logic/script.js:228 | text that includes the pattern still includes it when more is prepended |
| JsString.IncludesAround | src/logic/script.js:228 | text joined by a character not in the pattern includes it exactly when one side does |
| JsString.Split | src/logic/script.js:232 | `split` always gives at least one piece |
| JsString.SplitSingle | src/logic/script.js:232 | `split` gives one piece exactly when the separator is absent, and that piece is the whole text |
| JsString.JoinSplit | src/logic/script.js:232 | joining the pieces of a split with the separator gives the text back |
| JsString.SplitPiecesFree | src/logic/script.js:232 | no piece of a split contains the separator |
| JsString.SplitAround | src/logic/script.js:232 | splitting `a;b` on `;` is the split of `a` followed by the split of `b` |
| JsString.SplitJoin | src/logic/script.js:232 | pieces free of a one-character separator come back from splitting their join |
| JsString.SplitPair | src/logic/script.js:237 | `a-b`, with no `-` in either side, splits into exactly `a` and `b` |
| JsString.SplitAfterFirst | src/logic/script.js:236 | text without the separator's first character before it splits off as the first piece |
| JsString.JoinChars | src/logic/script.js:232 | a character in no piece and not in the separator is not in the join |
| JsString.TrimStartCuts | src/logic/script.js:237 | trimming the start removes only leading white space |
| JsString.TrimEndCuts | src/logic/script.js:237 | trimming the end removes only trailing white space |
| JsString.TrimSlice | src/logic/script.js:237 | the text is white space, then the trimmed text, then white space |
| JsString.TrimEnds | src/logic/script.js:237 | trimmed text neither begins nor ends with white space |
| JsString.TrimNoEnds | src/logic/script.js:237 | text that neither begins nor ends with white space is its own trim |
| JsValue.InRangeOnNumbers | src/logic/script.js:244-247 | on numbers the containment test is the inclusive range, wrapping when the end is before the start |
| JsValue.InRangeNeedsBounds | src/logic/script.js:244-247 | the test never holds when a bound is `undefined` or NaN |
| JsValue.InRangeNeedsNumber | src/logic/script.js:244-247 | the test holds only if some bound converts to a number |
| JsValue.StrLessLexicographic | src/logic/script.js:246-247 | `<` between two strings is the lexicographic order on characters |
| JsValue.StringToNumberDigits | src/logic/script.js:240 | `Number` of a digit string is its decimal value |
| JsValue.TwoDigitsValue | src/logic/script.js:240 | two digits are read tens, then units |
| Schedule.DayValue | src/logic/script.js:231 | the table knows exactly the seven day letters, each for its own day; any other token is `undefined` |
| Schedule.ParseClause | src/logic/script.js:236-238 | a clause fails exactly when it has no `": "`, and the error names the clause |
| Schedule.IsStationInService | src/logic/script.js:222-253 | the clause loop returns what the reference evaluation returns, error included |
| ScheduleProperties.DecidedWhereLoopStops | src/logic/script.js:235-252 | the first clause that does not pass decides: open if it matches, its error if it fails; closed if every clause passes |
| ScheduleProperties.LoopStops | src/logic/script.js:235-252 | there is such a first clause, or the loop passes them all |
| ScheduleProperties.EvalOpenIff | src/logic/script.js:243-250 | open exactly when some clause matches after clauses that all parse and do not match |
| ScheduleProperties.EvalErrIff | src/logic/script.js:236-238 | fails with an error exactly when some clause fails with it after clauses that all parse and do not match |
| ScheduleProperties.EvalClosedIff | src/logic/script.js:252 | closed exactly when every clause parses and none matches |
| ScheduleProperties.NoErrorExistential | src/logic/script.js:235-252 | if every clause parses, the result is whether some clause matches |
| ScheduleProperties.ClauseOrderIrrelevant | src/logic/script.js:235-252 | if every clause parses, the order and repetition of clauses do not matter |
| ScheduleProperties.EvalAppend | src/logic/script.js:235-252 | later clauses are consulted only when the earlier ones end closed, so after a match they are never parsed |
| ScheduleProperties.MarkerAnywhere | src/logic/script.js:228 | `L-D: 24H` anywhere in the schedule makes it open at every moment |
| ScheduleProperties.AppendKeepsOpen | src/logic/script.js:232-252 | appending any clause to an open schedule keeps it open |
| ScheduleProperties.AppendClauses | src/logic/script.js:228-252 | appending clauses without the marker changes the result only when the schedule was closed, and then to the new clauses' result |
| ScheduleProperties.EmptyScheduleFails | src/logic/script.js:232-238 | the empty schedule fails with the missing-time-range error |
| ScheduleProperties.TrailingSeparatorFails | src/logic/script.js:232-238 | a trailing `;` turns closed into the missing-time-range error and leaves open and errors as they were |
| ScheduleProperties.OneClause | src/logic/script.js:232 | a schedule with one clause and no marker is decided by that clause alone |
| ScheduleProperties.ClauseParts | src/logic/script.js:236-240 | a clause whose day part has no `:` parses into that day part and the time part up to any further `": "` |
| ScheduleProperties.SingleDayNeverMatches | src/logic/script.js:237-245 | a clause with one day and no `-` parses but never matches |
| ScheduleProperties.UnknownDayNeverMatches | src/logic/script.js:231-245 | a clause with a day token outside the table parses but never matches |
| ScheduleProperties.AllDayTimes | src/logic/script.js:238-240 | the time part `24H` reads as the string "24H" with an `undefined` end |
| ScheduleProperties.AllDayNeverMatchesOutsideMarker | src/logic/script.js:238-247 | a clause with time part `24H` parses but never matches |
| WellFormed.TwoDigitsNumber | src/logic/script.js:240 | two written digits convert back to their number |
| WellFormed.AnyClock | src/logic/script.js:240 | any `H:M` of digit runs reads as `H * 60 + M`, including `24:00`, `8:00` and `08:75`, which are not times of day |
| WellFormed.ClockRoundTrip | src/logic/script.js:238-240 | `HH:MM` written from a minute reads back as that minute |
| WellFormed.ParseTimesRoundTrip | src/logic/script.js:238-240 | `HH:MM-HH:MM` reads back as its two minutes |
| WellFormed.DayLetterValue | src/logic/script.js:231-237 | each day's letter survives `trim` and looks up to that day |
| WellFormed.ParseDaysRoundTrip | src/logic/script.js:237 | `F-T` reads back as its two days |
| WellFormed.ParseWindow | src/logic/script.js:236-240 | a window's text parses back to the window |
| WellFormed.WindowMatches | src/logic/script.js:243-247 | a window's clause parses, and matches exactly when the window covers the moment |
| WellFormed.SplitScheduleText | src/logic/script.js:232 | splitting a well-formed schedule on `;` gives its windows' texts |
| WellFormed.NoMarker | src/logic/script.js:228 | no well-formed schedule contains the all-week marker |
| WellFormed.TextsParse | src/logic/script.js:236-238 | every clause of a well-formed schedule parses |
| WellFormed.TextAtOpensIff | src/logic/script.js:243-247 | the clause at position `i` matches exactly when window `i` covers the moment |
| WellFormed.OpenTextCovers | src/logic/script.js:243-247 | a matching clause comes from a window covering the moment |
| WellFormed.CoveringWindowOpens | src/logic/script.js:243-247 | a window covering the moment gives a matching clause |
| WellFormed.TextsOpenIff | src/logic/script.js:243-247 | some clause matches exactly when some window covers the moment |
| WellFormed.WellFormedSchedule | src/logic/script.js:222-253 | a well-formed schedule never fails and is open exactly when some window covers the moment |
| WellFormed.SingleWindow | src/logic/script.js:222-253 | a one-window schedule is open exactly when the window covers the moment |
| WellFormed.WindowOrderIrrelevant | src/logic/script.js:235-252 | reordering or repeating a well-formed schedule's windows does not change the result |
| ScheduleExamples.AllWeekDays | src/logic/script.js:231-245 | `L-D` is Monday to Sunday and covers every day |
| ScheduleExamples.WeekendDays | src/logic/script.js:231-245 | `S-D` covers exactly Saturday and Sunday |
| ScheduleExamples.WorkingDays | src/logic/script.js:231-245 | `L-V` covers exactly Monday to Friday |
| ScheduleExamples.WeekdaysExample | src/logic/script.js:222-253 | `L-V: 08:00-22:00` is open exactly Monday to Friday, 08:00 to 22:00 inclusive |
| ScheduleExamples.OvernightExample | src/logic/script.js:246-247 | `L-D: 22:00-06:00` is open exactly from 22:00 to 06:00 on every day |
| ScheduleExamples.OvernightJudgedOnCurrentDay | src/logic/script.js:244-247 | `L-V: 22:00-06:00` at night is judged by the current day only, so Saturday 02:00 is closed |
| ScheduleExamples.WrappingDaysExample | src/logic/script.js:244-245 | `S-M: 09:00-14:00` is open Saturday to Tuesday, 09:00 to 14:00 |
| ScheduleExamples.SingleDayExample | src/logic/script.js:237-245 | `S: 10:00-13:00` is closed at every moment |
| ScheduleExamples.NineToFiveExample | src/logic/script.js:222-253 | `L-V: 09:00-17:00` is open exactly Monday to Friday, 09:00 to 17:00 |
| ScheduleExamples.TwoClauseExample | src/logic/script.js:222-253 | `L-V: 09:00-17:00;S: 10:00-13:00` is open exactly Monday to Friday, 09:00 to 17:00, so Saturday 11:00 is closed |
| ScheduleExamples.AllWeekExample | src/logic/script.js:228 | `L-D: 24H` is open at every moment |
| ScheduleExamples.WeekdaysAllDayExample | src/logic/script.js:238-247 | `L-V: 24H` is closed at every moment |
| Stations.DisplayResults | src/logic/script.js:157-218 | an empty list shows the "no stations" message; otherwise the cards are exactly the displayed list when it is non-empty, and a schedule error in the filter, and only that, leaves the panel failed with that error |
| Stations.OpenOnlyErrors | src/logic/script.js:169 | the filter fails exactly when some schedule fails, and with the error of the first one that fails |
| Stations.OpenOnlyMembers | src/logic/script.js:169 | a station is kept exactly when it is listed and open |
| Stations.OpenOnlyCounts | src/logic/script.js:169 | every occurrence of an open station is kept and every occurrence of a closed one dropped |
| Stations.OpenOnlyInOrder | src/logic/script.js:169 | the kept stations appear at increasing positions of the list |
| Stations.OpenOnlySubsequence | src/logic/script.js:169 | the filtered list is an order-preserving subsequence of the list |
| Stations.DisplayedStations | src/logic/script.js:166-169 | without "open now" the list is shown unchanged; with it, exactly the open stations, in order |
| Stations.NoStationsMessage | src/logic/script.js:160-218 | the "no stations" message appears exactly when the list is empty or nothing is left to show |
| Selection.ValidateSelections | src/logic/script.js:22-36 | the check passes exactly when all three choices are non-empty; the panel is then cleared, and otherwise asks for the choices |
| Selection.MessageClearedIffComplete | src/logic/script.js:28-35 | the panel is empty exactly when the check passes |
| Selection.OnlyEmptinessMatters | src/logic/script.js:28 | only whether each choice is empty decides the check |

## Left out

- The calls to the fuel-price service (`fetch`, `response.text()`, `JSON.parse`) are network I/O and are not modelled.
- Populating the drop-downs, resetting and disabling them, and the event listeners are browser UI, and so is the race between two province changes whose responses arrive out of order. None of these is modelled.
- The station cards' HTML is not modelled. Address, locality, province and price are carried through as text; the price is a decimal number in the source data.
- The clock (`new Date()`, `getDay`, `getHours`, `getMinutes`) becomes the `day` and `minute` parameters.
- Stations.OpenOnly: the whole list is judged at one `(day, minute)`. In the code, `isStationInService` reads `new Date()` afresh for every station the filter visits, so a filter that runs across a minute boundary judges later stations at a later moment. `OpenOnlyMembers` and `OpenOnlyCounts` rely on the single moment.
- JsValue.StringToNumber: only trimmed digit strings and the empty string convert. Signs, decimals, exponents, `Infinity`, and the `0x`, `0o` and `0b` literals become NaN, although JavaScript converts them. A schedule holding those would compare differently in JavaScript.
- JsValue.Value: numbers are natural numbers, because the values that reach the comparisons come from the clock and from digit strings. Floating point is not modelled.
- JsValue.StrLess: characters compare by code point, while JavaScript compares UTF-16 code units. The two orders differ only above U+FFFF.
- Schedule.DayValue: keys such as `toString`, which the day table inherits from `Object.prototype`, are treated as `undefined`. They give a function rather than `undefined`, but every comparison of a day number with either is false, so containment comes out the same.
- Stations.Station: the schedule is always a string; a station without a `Horario`, on which `includes` would throw, is not modelled.
- Stations.DisplayResults: the plain "no gas stations" check made before `displayResults` is called (`src/logic/script.js:145-148`) is not part of this model.
- Stations.DisplayResults: a schedule error models the exception that escapes the filter. The promise's `catch` only logs it, and the panel stays cleared. The logging itself is not modelled.
