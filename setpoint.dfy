/**
  The setpoint resolver: the second half of `get_target_temp_from_program`
  in qemuHost/thermofinal.c. From the points the scanner kept, in parse
  order, and the current time of day it picks the active target
  temperature: the latest point not in the future, else (before the first
  point of the day) the latest point of all, standing in for yesterday's
  last one, else the 20.0 default when nothing parsed.

  The source reads the time of day with `time()` and `localtime()`; here
  the hour and minute are parameters.
*/
module Setpoint {
  import opened Wrappers
  import opened ProgramScanner

  /** What the resolver returns when no point parsed. */
  const DefaultTarget: real := 20.0

  /** The minute-value `hour * 60 + minute` that both passes compare. */
  function TimeVal(p: Point): int {
    p.hour * 60 + p.minute
  }

  /** The points the first pass may select: not after `now`, and above
      the -1 that `latest_time_val` starts at. */
  predicate NotInFuture(p: Point, now: int) {
    -1 < TimeVal(p) <= now
  }

  /** `i` is the first point of `pts[..n]`, in parse order, with the
      greatest minute-value among the points that are not in the future. */
  predicate IsLatestPast(pts: seq<Point>, n: nat, now: int, i: nat)
    requires n <= |pts|
  {
    i < n && NotInFuture(pts[i], now) &&
    (forall j :: 0 <= j < n && NotInFuture(pts[j], now) ==> TimeVal(pts[j]) <= TimeVal(pts[i])) &&
    (forall j :: 0 <= j < i && NotInFuture(pts[j], now) ==> TimeVal(pts[j]) < TimeVal(pts[i]))
  }

  /** `i` is the first point of `pts[..n]`, in parse order, with the
      greatest minute-value of all. */
  predicate IsLatest(pts: seq<Point>, n: nat, i: nat)
    requires n <= |pts|
  {
    i < n &&
    (forall j :: 0 <= j < n ==> TimeVal(pts[j]) <= TimeVal(pts[i])) &&
    (forall j :: 0 <= j < i ==> TimeVal(pts[j]) < TimeVal(pts[i]))
  }

  /** The point the first pass has settled on after looking at `pts[..n]`,
      or None while `latest_time_val` is still -1. */
  function LatestPast(pts: seq<Point>, n: nat, now: int): (r: Option<nat>)
    requires n <= |pts|
    ensures r.Some? ==> r.value < n && NotInFuture(pts[r.value], now)
    decreases n
  {
    if n == 0 then None
    else
      var before := LatestPast(pts, n - 1, now);
      if NotInFuture(pts[n - 1], now) && (before.None? || TimeVal(pts[n - 1]) > TimeVal(pts[before.value]))
      then Some(n - 1)
      else before
  }

  /** The first pass finds the first point with the greatest minute-value
      among those not in the future, and finds none only when every point
      is in the future. */
  lemma {:induction false} LatestPastSpec(pts: seq<Point>, n: nat, now: int)
    requires n <= |pts|
    ensures LatestPast(pts, n, now).Some? ==> IsLatestPast(pts, n, now, LatestPast(pts, n, now).value)
    ensures LatestPast(pts, n, now).None? ==> forall j :: 0 <= j < n ==> !NotInFuture(pts[j], now)
    decreases n
  {
    if n > 0 {
      LatestPastSpec(pts, n - 1, now);
    }
  }

  /** The point the wrap-around pass has settled on after looking at
      `pts[..n]`; it starts from the first point. */
  function LatestOverall(pts: seq<Point>, n: nat): (r: nat)
    requires 1 <= n <= |pts|
    ensures r < n
    decreases n
  {
    if n == 1 then 0
    else
      var before := LatestOverall(pts, n - 1);
      if TimeVal(pts[n - 1]) > TimeVal(pts[before]) then n - 1 else before
  }

  /** The wrap-around pass finds the first point with the greatest
      minute-value of all. */
  lemma {:induction false} LatestOverallSpec(pts: seq<Point>, n: nat)
    requires 1 <= n <= |pts|
    ensures IsLatest(pts, n, LatestOverall(pts, n))
    decreases n
  {
    if n > 1 {
      LatestOverallSpec(pts, n - 1);
    }
  }

  /** The target temperature for the schedule `pts` at minute-value `now`:
      the default when nothing parsed. */
  function Resolve(pts: seq<Point>, now: int): (r: real)
    ensures |pts| == 0 ==> r == DefaultTarget
  {
    if |pts| == 0 then DefaultTarget
    else match LatestPast(pts, |pts|, now)
      case Some(i) => pts[i].temp
      case None => pts[LatestOverall(pts, |pts|)].temp
  }

  /** The target is always the default or the temperature of one of the
      points. */
  lemma ResolveIsSomePoint(pts: seq<Point>, now: int)
    requires |pts| > 0
    ensures exists i :: 0 <= i < |pts| && Resolve(pts, now) == pts[i].temp
  {
    match LatestPast(pts, |pts|, now)
    case Some(i) => assert Resolve(pts, now) == pts[i].temp;
    case None =>
      var i := LatestOverall(pts, |pts|);
      assert Resolve(pts, now) == pts[i].temp;
  }

  lemma LatestPastUnique(pts: seq<Point>, n: nat, now: int, i: nat, k: nat)
    requires n <= |pts| && IsLatestPast(pts, n, now, i) && IsLatestPast(pts, n, now, k)
    ensures i == k
  {
    assert TimeVal(pts[i]) == TimeVal(pts[k]);
  }

  lemma LatestUnique(pts: seq<Point>, n: nat, i: nat, k: nat)
    requires n <= |pts| && IsLatest(pts, n, i) && IsLatest(pts, n, k)
    ensures i == k
  {
    assert TimeVal(pts[i]) == TimeVal(pts[k]);
  }

  /** When some point is not in the future, the target is the temperature
      of the first point with the greatest such minute-value. */
  lemma ResolveLatestPast(pts: seq<Point>, now: int, i: nat)
    requires IsLatestPast(pts, |pts|, now, i)
    ensures Resolve(pts, now) == pts[i].temp
  {
    LatestPastSpec(pts, |pts|, now);
    var r := LatestPast(pts, |pts|, now);
    assert r.Some?;
    LatestPastUnique(pts, |pts|, now, i, r.value);
  }

  /** Day wrap-around: when every point lies in the future (or below the
      -1 sentinel), the target is the temperature of the first point with
      the greatest minute-value of all, yesterday's last setpoint. */
  lemma ResolveWrapsAround(pts: seq<Point>, now: int, i: nat)
    requires forall j :: 0 <= j < |pts| ==> !NotInFuture(pts[j], now)
    requires IsLatest(pts, |pts|, i)
    ensures Resolve(pts, now) == pts[i].temp
  {
    LatestPastSpec(pts, |pts|, now);
    LatestOverallSpec(pts, |pts|);
    assert LatestPast(pts, |pts|, now).None?;
    LatestUnique(pts, |pts|, i, LatestOverall(pts, |pts|));
  }

  /** Queried exactly at a point's time, the target is that point's
      temperature, as long as no earlier point shares that time. */
  lemma ResolveAtPointTime(pts: seq<Point>, i: nat)
    requires i < |pts| && TimeVal(pts[i]) >= 0
    requires forall j :: 0 <= j < i ==> TimeVal(pts[j]) != TimeVal(pts[i])
    ensures Resolve(pts, TimeVal(pts[i])) == pts[i].temp
  {
    ResolveLatestPast(pts, TimeVal(pts[i]), i);
  }

  /** Two points at the same time: the strict `>` keeps the first, so at
      07:00 the schedule 07:00 -> 18.0, 07:00 -> 15.0 gives 18.0, not the
      later-listed 15.0. This is why ResolveAtPointTime asks that no
      earlier point share the time. */
  lemma EqualTimesFirstWins()
    ensures Resolve([Point(7, 0, 18.0), Point(7, 0, 15.0)], 7 * 60) == 18.0
  {
    ResolveLatestPast([Point(7, 0, 18.0), Point(7, 0, 15.0)], 7 * 60, 0);
  }

  /** Schedule 07:00 -> 18.0, 22:00 -> 15.0 queried at 02:00: yesterday's
      22:00 point is still active, not the default. */
  lemma WrapAroundExample()
    ensures Resolve([Point(7, 0, 18.0), Point(22, 0, 15.0)], 2 * 60) == 15.0
  {
    ResolveWrapsAround([Point(7, 0, 18.0), Point(22, 0, 15.0)], 2 * 60, 1);
  }

  /** A point with a negative minute-value is never taken by the first
      pass even though it is not after now: at 07:00 the schedule
      -1:30 -> 5.0, 08:00 -> 19.0 wraps round to the 08:00 point. */
  lemma NegativeTimeNeverLatestPast()
    ensures Resolve([Point(-1, 30, 5.0), Point(8, 0, 19.0)], 7 * 60) == 19.0
  {
    ResolveWrapsAround([Point(-1, 30, 5.0), Point(8, 0, 19.0)], 7 * 60, 1);
  }

  /** The two passes of the resolver over the parsed points, tracking the
      minute-value and point they have settled on. */
  method ResolveTarget(program: seq<Point>, currentHour: int, currentMinute: int) returns (target: real)
    ensures target == Resolve(program, currentHour * 60 + currentMinute)
  {
    if |program| == 0 {
      return DefaultTarget;
    }
    var currentTimeVal := currentHour * 60 + currentMinute;
    var activeSetpoint := program[0];
    var latestTimeVal := -1;
    ghost var settled: Option<nat> := None;
    for i := 0 to |program|
      invariant settled == LatestPast(program, i, currentTimeVal)
      invariant settled.None? ==> latestTimeVal == -1 && activeSetpoint == program[0]
      invariant settled.Some? ==> latestTimeVal == TimeVal(program[settled.value]) > -1
      invariant settled.Some? ==> activeSetpoint == program[settled.value]
    {
      var setpointTimeVal := program[i].hour * 60 + program[i].minute;
      if setpointTimeVal <= currentTimeVal {
        if setpointTimeVal > latestTimeVal {
          latestTimeVal := setpointTimeVal;
          activeSetpoint := program[i];
          settled := Some(i);
        }
      }
    }
    if latestTimeVal == -1 {
      var latestOfAll := program[0];
      var latestOverallTime := program[0].hour * 60 + program[0].minute;
      ghost var top: nat := 0;
      for i := 1 to |program|
        invariant top == LatestOverall(program, i)
        invariant latestOfAll == program[top] && latestOverallTime == TimeVal(program[top])
      {
        var setpointTimeVal := program[i].hour * 60 + program[i].minute;
        if setpointTimeVal > latestOverallTime {
          latestOverallTime := setpointTimeVal;
          latestOfAll := program[i];
          top := i;
        }
      }
      activeSetpoint := latestOfAll;
    }
    target := activeSetpoint.temp;
  }

  /** What `get_target_temp_from_program` answers: the points the scanner
      keeps from the payload, resolved at the given time of day. */
  function TargetTemp(programJson: string, hour: int, minute: int): real {
    Resolve(Scan(programJson), hour * 60 + minute)
  }

  /** `get_target_temp_from_program`: scan the payload, then resolve the
      points it kept at the given time of day. */
  method GetTargetTemp(programJson: string, currentHour: int, currentMinute: int) returns (target: real)
    ensures target == TargetTemp(programJson, currentHour, currentMinute)
  {
    var program := ScanProgram(programJson);
    target := ResolveTarget(program, currentHour, currentMinute);
  }

  /** A payload from which nothing parses gives the 20.0 default. */
  lemma NothingParsedGivesDefault(programJson: string, hour: int, minute: int)
    requires AllPoints(programJson, 0) == []
    ensures TargetTemp(programJson, hour, minute) == DefaultTarget
  {
  }
}
