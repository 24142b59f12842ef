/**
 The list of stations the results panel shows: with "open now" ticked, only
 the stations whose schedule evaluates open at the moment, in the order the
 service returned them.
 */
module Stations {
  import opened Schedule

  /** A station as the service lists it; only the schedule is interpreted. */
  datatype Station = Station(address: string, locality: string, province: string, schedule: string, price: string)

  predicate IsOpen(s: Station, day: Weekday, minute: Minute)
  {
    InService(s.schedule, day, minute) == Ok(true)
  }

  /** Keeps the open stations, in order. Evaluation runs front to back, so the first error aborts the filter. */
  function OpenOnly(stations: seq<Station>, day: Weekday, minute: Minute): Result<seq<Station>>
  {
    if stations == [] then Ok([])
    else match InService(stations[0].schedule, day, minute)
      case Err(e) => Err(e)
      case Ok(open) =>
        match OpenOnly(stations[1..], day, minute)
        case Err(e) => Err(e)
        case Ok(rest) => Ok(if open then [stations[0]] + rest else rest)
  }

  /** The list shown: filtered when "open now" is ticked, the service's list as it came otherwise. */
  function Displayed(stations: seq<Station>, showOpenOnly: bool, day: Weekday, minute: Minute): Result<seq<Station>>
  {
    if showOpenOnly then OpenOnly(stations, day, minute) else Ok(stations)
  }

  /** What the results panel ends up holding. */
  datatype Panel = NoStationsFound | Cards(shown: seq<Station>) | Failed(error: ScheduleError)

  /**
   An empty list from the service, or nothing left after filtering, shows
   the "no gas stations found" message; an error leaves the panel cleared.
   */
  function DisplayResults(stations: seq<Station>, showOpenOnly: bool, day: Weekday, minute: Minute): (p: Panel)
    ensures p.Cards? ==> p.shown != []
    ensures stations == [] ==> p == NoStationsFound
    ensures !showOpenOnly && stations != [] ==> p == Cards(stations)
    ensures p.Cards? ==> Displayed(stations, showOpenOnly, day, minute) == Ok(p.shown)
    ensures p.Failed? <==> stations != [] && Displayed(stations, showOpenOnly, day, minute).Err?
    ensures p.Failed? ==> Displayed(stations, showOpenOnly, day, minute) == Err(p.error)
  {
    if stations == [] then NoStationsFound
    else match Displayed(stations, showOpenOnly, day, minute)
      case Err(e) => Failed(e)
      case Ok(shown) => if shown == [] then NoStationsFound else Cards(shown)
  }

  /** `idx` picks out `a` from `b`, position by position, in increasing order. */
  predicate Embeds(idx: seq<nat>, a: seq<Station>, b: seq<Station>)
  {
    |idx| == |a| &&
    (forall k :: 0 <= k < |idx| ==> idx[k] < |b| && a[k] == b[idx[k]]) &&
    (forall k, l :: 0 <= k < l < |idx| ==> idx[k] < idx[l])
  }

  /** `a` is `b` with some elements dropped and the rest kept in order. */
  ghost predicate IsSubsequence(a: seq<Station>, b: seq<Station>)
  {
    exists idx: seq<nat> :: Embeds(idx, a, b)
  }

  /** The filter fails exactly when some schedule fails, and then with the first station's error. */
  lemma {:induction false} OpenOnlyErrors(stations: seq<Station>, day: Weekday, minute: Minute)
    ensures OpenOnly(stations, day, minute).Ok? <==>
      forall i :: 0 <= i < |stations| ==> InService(stations[i].schedule, day, minute).Ok?
    ensures OpenOnly(stations, day, minute).Err? ==>
      exists i :: 0 <= i < |stations| &&
        InService(stations[i].schedule, day, minute) == Err(OpenOnly(stations, day, minute).error) &&
        forall j :: 0 <= j < i ==> InService(stations[j].schedule, day, minute).Ok?
  {
    if stations != [] {
      var rest := stations[1..];
      OpenOnlyErrors(rest, day, minute);
      if InService(stations[0].schedule, day, minute).Ok? && OpenOnly(rest, day, minute).Err? {
        var i :| 0 <= i < |rest| &&
          InService(rest[i].schedule, day, minute) == Err(OpenOnly(rest, day, minute).error) &&
          forall j :: 0 <= j < i ==> InService(rest[j].schedule, day, minute).Ok?;
        assert stations[i + 1] == rest[i];
      }
    }
  }

  /** A station is kept exactly when it is in the list and open. */
  lemma {:induction false} OpenOnlyMembers(stations: seq<Station>, day: Weekday, minute: Minute)
    requires OpenOnly(stations, day, minute).Ok?
    ensures forall s ::
      s in OpenOnly(stations, day, minute).value <==> s in stations && IsOpen(s, day, minute)
  {
    if stations != [] {
      OpenOnlyMembers(stations[1..], day, minute);
      assert stations == [stations[0]] + stations[1..];
    }
  }

  /**
   Each open station keeps every one of its occurrences and each closed one
   loses them all.
   */
  lemma {:induction false} OpenOnlyCounts(stations: seq<Station>, day: Weekday, minute: Minute)
    requires OpenOnly(stations, day, minute).Ok?
    ensures forall s ::
      multiset(OpenOnly(stations, day, minute).value)[s] == if IsOpen(s, day, minute) then multiset(stations)[s] else 0
  {
    if stations != [] {
      OpenOnlyCounts(stations[1..], day, minute);
      assert stations == [stations[0]] + stations[1..];
    }
  }

  /** Every position moved one place on, past a new first element. */
  function Shift(idx: seq<nat>): (r: seq<nat>)
    ensures |r| == |idx| && forall k :: 0 <= k < |idx| ==> r[k] == idx[k] + 1
  {
    seq(|idx|, k requires 0 <= k < |idx| => idx[k] + 1)
  }

  /** An embedding into `b` is still one into `b` with an element put in front, once shifted. */
  lemma EmbedsBehind(idx: seq<nat>, a: seq<Station>, first: Station, b: seq<Station>)
    requires Embeds(idx, a, b)
    ensures Embeds(Shift(idx), a, [first] + b)
  {
    var r := Shift(idx);
    forall k | 0 <= k < |r| ensures r[k] < |[first] + b| && a[k] == ([first] + b)[r[k]] {
      assert ([first] + b)[r[k]] == b[idx[k]];
    }
  }

  /** An embedding of `a` into `b` gives one of `first` followed by `a` into `first` followed by `b`. */
  lemma EmbedsBoth(idx: seq<nat>, a: seq<Station>, first: Station, b: seq<Station>)
    requires Embeds(idx, a, b)
    ensures Embeds([0] + Shift(idx), [first] + a, [first] + b)
  {
    EmbedsBehind(idx, a, first, b);
    var r := [0] + Shift(idx);
    forall k | 0 < k < |r| ensures r[k] < |[first] + b| && ([first] + a)[k] == ([first] + b)[r[k]] {
      assert r[k] == Shift(idx)[k - 1];
    }
  }

  /** The filter keeps the order of the stations it keeps, and returns where in the list each came from. */
  lemma {:induction false} OpenOnlyInOrder(stations: seq<Station>, day: Weekday, minute: Minute) returns (idx: seq<nat>)
    requires OpenOnly(stations, day, minute).Ok?
    ensures Embeds(idx, OpenOnly(stations, day, minute).value, stations)
  {
    if stations == [] {
      idx := [];
    } else {
      var rest := stations[1..];
      assert stations == [stations[0]] + rest;
      var tail := OpenOnlyInOrder(rest, day, minute);
      if IsOpen(stations[0], day, minute) {
        EmbedsBoth(tail, OpenOnly(rest, day, minute).value, stations[0], rest);
        idx := [0] + Shift(tail);
      } else {
        EmbedsBehind(tail, OpenOnly(rest, day, minute).value, stations[0], rest);
        idx := Shift(tail);
      }
    }
  }

  /** The filtered list is a subsequence of the station list. */
  lemma OpenOnlySubsequence(stations: seq<Station>, day: Weekday, minute: Minute)
    requires OpenOnly(stations, day, minute).Ok?
    ensures IsSubsequence(OpenOnly(stations, day, minute).value, stations)
  {
    var idx := OpenOnlyInOrder(stations, day, minute);
  }

  /** Without "open now" the list is shown as it came; with it, the open stations and only those. */
  lemma DisplayedStations(stations: seq<Station>, showOpenOnly: bool, day: Weekday, minute: Minute)
    requires Displayed(stations, showOpenOnly, day, minute).Ok?
    ensures !showOpenOnly ==> Displayed(stations, showOpenOnly, day, minute).value == stations
    ensures showOpenOnly ==> IsSubsequence(Displayed(stations, showOpenOnly, day, minute).value, stations)
    ensures showOpenOnly ==> forall s ::
      s in Displayed(stations, showOpenOnly, day, minute).value <==> s in stations && IsOpen(s, day, minute)
  {
    if showOpenOnly {
      OpenOnlySubsequence(stations, day, minute);
      OpenOnlyMembers(stations, day, minute);
    }
  }

  /** The "no gas stations found" message appears exactly when there is nothing to show and nothing failed. */
  lemma NoStationsMessage(stations: seq<Station>, showOpenOnly: bool, day: Weekday, minute: Minute)
    ensures DisplayResults(stations, showOpenOnly, day, minute) == NoStationsFound <==>
      stations == [] || Displayed(stations, showOpenOnly, day, minute) == Ok([])
  {
  }
}
