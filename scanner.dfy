/**
  The hand-written scanner that pulls up to three schedule points out of the
  program payload the server returns (the first half of
  `get_target_temp_from_program` in qemuHost/thermofinal.c).

  The payload is a C string; it is modelled as the characters before its
  terminating NUL. The library calls it relies on are in module CString;
  the two fixed `sscanf` formats are modelled here.
*/
module ProgramScanner {
  import opened Wrappers
  import opened CString

  /** One schedule point, as `ProgramPoint` holds it: hour and minute are
      whatever `%d` read (no range check), temp is what `%f` read. */
  datatype Point = Point(hour: int, minute: int, temp: real)

  /** Size of the `program` array: the scanner never keeps more points. */
  const MaxPoints: nat := 3

  const TimeKey: string := "\"time\""
  const TempKey: string := "\"temp\""

  /** `sscanf(s + t, "\"time\": \"%d:%d\"", &hour, &minute) == 2`: the
      literal `"time":`, any white space, a `"`, `%d`, a `:`, `%d`. The
      closing `"` of the format is matched after both conversions, so it
      does not affect the count. */
  function ScanTime(s: string, t: nat): (r: Option<(int, int)>)
    requires t <= |s|
    ensures r.Some? ==> Occurs(s, t, TimeKey + ":")
  {
    if !Occurs(s, t, TimeKey + ":") then None
    else
      var j := SkipSpace(s, t + 7);
      if !(j < |s| && s[j] == '"') then None
      else match ScanInt(s, j + 1)
        case None => None
        case Some((h, a)) =>
          if !(a < |s| && s[a] == ':') then None
          else match ScanInt(s, a + 1)
            case None => None
            case Some((m, _)) => Some((h, m))
  }

  /** `sscanf(s + m, "\"temp\": %f", &temp) == 1`. */
  function ScanTemp(s: string, m: nat): (r: Option<real>)
    requires m <= |s|
    ensures r.Some? ==> Occurs(s, m, TempKey + ":")
  {
    if !Occurs(s, m, TempKey + ":") then None
    else ScanReal(s, SkipSpace(s, m + 7))
  }

  /** The time field as the server writes it, `"time":`, white space, `"`
      and the clock time in `HH:MM` form: the time pattern reads back the
      hour and the minute written, whatever follows the minutes as long as
      it is not another digit. */
  lemma ScanTimeReadsClock(s: string, t: nat, gap: string, h: nat, m: nat)
    requires h < 100 && m < 100 && forall j :: 0 <= j < |gap| ==> IsSpace(gap[j])
    requires var x := TimeKey + ":" + gap + "\"" + TwoDigits(h) + ":" + TwoDigits(m);
      t + |x| <= |s| && s[t..t + |x|] == x && (t + |x| == |s| || !IsDigit(s[t + |x|]))
    ensures ScanTime(s, t) == Some((h, m))
  {
    var hh, mm := TwoDigits(h), TwoDigits(m);
    hide TwoDigits, ScanTime;
    TimeFieldParts(s, t, gap, hh, mm);
    ScanTimeOfPieces(s, t, gap, h, m);
  }

  /** Where the pieces of a time field stand. */
  lemma TimeFieldParts(s: string, t: nat, gap: string, hh: string, mm: string)
    requires |hh| == 2 && |mm| == 2
    requires var x := TimeKey + ":" + gap + "\"" + hh + ":" + mm;
      t + |x| <= |s| && s[t..t + |x|] == x
    ensures var q := t + 7 + |gap|;
      q + 6 <= |s| && s[t..t + 7] == TimeKey + ":" && s[t + 7..q] == gap && s[q] == '"' &&
      s[q + 1..q + 3] == hh && s[q + 3] == ':' && s[q + 4..q + 6] == mm
  {
    var a1 := TimeKey + ":" + gap;
    var a2 := a1 + "\"";
    var a3 := a2 + hh;
    var a4 := a3 + ":";
    SliceConcat(s, t, a4, mm);
    SliceConcat(s, t, a3, ":");
    SliceConcat(s, t, a2, hh);
    SliceConcat(s, t, a1, "\"");
    SliceConcat(s, t, TimeKey + ":", gap);
    SliceAt(s, t + |a1|, "\"");
    SliceAt(s, t + |a3|, ":");
  }

  /** The time pattern over a time field whose pieces are in place. */
  lemma ScanTimeOfPieces(s: string, t: nat, gap: string, h: nat, m: nat)
    requires h < 100 && m < 100 && forall j :: 0 <= j < |gap| ==> IsSpace(gap[j])
    requires var q := t + 7 + |gap|;
      q + 6 <= |s| && s[t..t + 7] == TimeKey + ":" && s[t + 7..q] == gap && s[q] == '"' &&
      s[q + 1..q + 3] == TwoDigits(h) && s[q + 3] == ':' && s[q + 4..q + 6] == TwoDigits(m) &&
      (q + 6 == |s| || !IsDigit(s[q + 6]))
    ensures ScanTime(s, t) == Some((h, m))
  {
    var q := t + 7 + |gap|;
    hide TwoDigits, ScanTime, ScanInt, Occurs, SkipSpace;
    OccursIffSlice(s, t, TimeKey + ":");
    SliceAt(s, t + 7, gap);
    assert forall j :: t + 7 <= j < q ==> IsSpace(s[j]) by {
      assert forall j :: t + 7 <= j < q ==> s[j] == gap[j - (t + 7)];
    }
    SkipSpaceTo(s, t + 7, q);
    ScanTwoDigits(s, q + 1, h);
    ScanTwoDigits(s, q + 4, m);
    ScanTimeOfParts(s, t, q, h, m);
  }

  /** The time pattern once its pieces are known to match in turn. */
  lemma ScanTimeOfParts(s: string, t: nat, q: nat, h: int, m: int)
    requires t <= q && q + 4 <= |s| && Occurs(s, t, TimeKey + ":") && t + 7 <= q
    requires SkipSpace(s, t + 7) == q && s[q] == '"'
    requires ScanInt(s, q + 1) == Some((h, q + 3)) && s[q + 3] == ':'
    requires ScanInt(s, q + 4).Some? && ScanInt(s, q + 4).value.0 == m
    ensures ScanTime(s, t) == Some((h, m))
  {
    hide Occurs, SkipSpace, ScanInt;
  }

  /** The temperature field `"temp":`, white space and a number written
      with two decimals: `%f` reads back that number, as long as what
      follows cannot continue it (a `,` or `}` in a payload). */
  lemma ScanTempReadsCents(s: string, m: nat, gap: string, negative: bool, cents: nat)
    requires forall j :: 0 <= j < |gap| ==> IsSpace(gap[j])
    requires var x := TempKey + ":" + gap + CentsText(negative, cents);
      m + |x| <= |s| && s[m..m + |x|] == x && (m + |x| == |s| || EndsNumber(s[m + |x|]))
    ensures ScanTemp(s, m) == Some(if negative then -(cents as real / 100.0) else cents as real / 100.0)
  {
    var c := CentsText(negative, cents);
    var p := m + 7 + |gap|;
    CentsTextLayout(negative, cents);
    hide CentsText, ScanTemp, ScanReal;
    SliceConcat(s, m, TempKey + ":" + gap, c);
    SliceConcat(s, m, TempKey + ":", gap);
    assert s[p] == c[0] by { SliceAt(s, p, c); }
    ScanTempOfPieces(s, m, gap, c);
    CentsTextReadsBackAt(s, p, negative, cents);
  }

  /** `%f` after the temperature key, white space and a number that does
      not start with white space. */
  lemma ScanTempOfPieces(s: string, m: nat, gap: string, c: string)
    requires forall j :: 0 <= j < |gap| ==> IsSpace(gap[j])
    requires var p := m + 7 + |gap|;
      p < |s| && s[m..m + 7] == TempKey + ":" && s[m + 7..p] == gap && !IsSpace(s[p])
    ensures ScanTemp(s, m) == ScanReal(s, m + 7 + |gap|)
  {
    var p := m + 7 + |gap|;
    hide ScanReal, Occurs, SkipSpace;
    OccursIffSlice(s, m, TempKey + ":");
    SliceAt(s, m + 7, gap);
    assert forall j :: m + 7 <= j < p ==> IsSpace(s[j]) by {
      assert forall j :: m + 7 <= j < p ==> s[j] == gap[j - (m + 7)];
    }
    SkipSpaceTo(s, m + 7, p);
  }

  // ---------------------------------------------------------------------
  // The scanner
  // ---------------------------------------------------------------------

  /** The segment that opens at `open` and closes at the first `}` after
      it, `close`, yields a point when the first `"time"` and the first
      `"temp"` from `open` on both lie before `close` and both `sscanf`
      patterns match there. */
  function SegmentPoint(s: string, open: nat, close: nat): Option<Point>
    requires open <= close <= |s|
  {
    var t := FindSub(s, open, TimeKey);
    var m := FindSub(s, open, TempKey);
    if t.Some? && m.Some? && t.value < close && m.value < close then
      match (ScanTime(s, t.value), ScanTemp(s, m.value))
      case (Some((h, mi)), Some(v)) => Some(Point(h, mi, v))
      case _ => None
    else None
  }

  /** Every point the scanning loop would collect from index `from` on if it
      had unlimited room: find the next `{`, take the segment up to the next
      `}`, keep its point if it has one, resume at that `}`. A `{` with no
      `}` after it ends the scan (ScanAsWritten shows what the source does
      there instead). */
  function AllPoints(s: string, from: nat): seq<Point>
    requires from <= |s|
    decreases |s| - from
  {
    match FindChar(s, from, '{')
    case None => []
    case Some(open) =>
      match FindChar(s, open, '}')
      case None => []
      case Some(close) =>
        match SegmentPoint(s, open, close)
        case Some(p) => [p] + AllPoints(s, close)
        case None => AllPoints(s, close)
  }

  /** One turn of the scanning loop: from `from`, the next segment opens at
      `open` and closes at `close`; its point, if any, precedes the rest. */
  lemma AllPointsStep(s: string, from: nat, open: nat, close: nat)
    requires from <= |s|
    requires FindChar(s, from, '{') == Some(open) && FindChar(s, open, '}') == Some(close)
    ensures open < close
    ensures AllPoints(s, from) == (match SegmentPoint(s, open, close)
                                   case Some(p) => [p]
                                   case None => []) + AllPoints(s, close)
  {
  }

  lemma AllPointsUnclosed(s: string, from: nat, open: nat)
    requires from <= |s|
    requires FindChar(s, from, '{') == Some(open) && FindChar(s, open, '}') == None
    ensures AllPoints(s, from) == []
  {
  }

  lemma AllPointsNoOpen(s: string, from: nat)
    requires from <= |s| && FindChar(s, from, '{') == None
    ensures AllPoints(s, from) == []
  {
  }

  /** The first `n` elements of `xs`, or all of them when there are fewer. */
  function Take<T>(xs: seq<T>, n: nat): (r: seq<T>)
    ensures |r| <= n && r <= xs
    ensures |r| == n || r == xs
  {
    if |xs| <= n then xs else xs[..n]
  }

  lemma TakeOfPrefix<T>(xs: seq<T>, ys: seq<T>, n: nat)
    requires ys <= xs && |ys| <= n
    requires |ys| == n || ys == xs
    ensures Take(xs, n) == ys
  {
  }

  /** What the scanner hands the resolver: the first MaxPoints points. */
  function Scan(s: string): (r: seq<Point>)
    ensures |r| <= MaxPoints
  {
    Take(AllPoints(s, 0), MaxPoints)
  }

  /** The body of the scanning loop for the segment from `open` to `close`:
      locate the keys, check that both precede the `}`, run both `sscanf`s. */
  method ReadSegment(s: string, ptr: nat, open: nat, close: nat) returns (found: Option<Point>)
    requires ptr <= |s|
    requires FindChar(s, ptr, '{') == Some(open) && FindChar(s, open, '}') == Some(close)
    ensures AllPoints(s, ptr) == (if found.Some? then [found.value] else []) + AllPoints(s, close)
  {
    AllPointsStep(s, ptr, open, close);
    found := None;
    var t := FindSub(s, open, TimeKey);
    var m := FindSub(s, open, TempKey);
    if t.Some? && m.Some? && t.value < close && m.value < close {
      var time := ScanTime(s, t.value);
      var temp := ScanTemp(s, m.value);
      if time.Some? && temp.Some? {
        found := Some(Point(time.value.0, time.value.1, temp.value));
      }
    }
  }

  /** One turn of the scanning loop from `ptr`: find the next `{` and the
      `}` after it, and read the segment between them. */
  method NextSegment(s: string, ptr: nat) returns (more: bool, found: Option<Point>, next: nat)
    requires ptr <= |s|
    ensures more ==> ptr < next <= |s|
    ensures more ==> AllPoints(s, ptr) == (if found.Some? then [found.value] else []) + AllPoints(s, next)
    ensures !more ==> AllPoints(s, ptr) == []
  {
    found, next := None, ptr;
    var open := FindChar(s, ptr, '{');
    if open.None? {
      AllPointsNoOpen(s, ptr);
      return false, found, next;
    }
    var close := FindChar(s, open.value, '}');
    if close.None? {
      // The source sets its pointer to NULL here and hands it to strchr.
      AllPointsUnclosed(s, ptr, open.value);
      return false, found, next;
    }
    found := ReadSegment(s, ptr, open.value, close.value);
    more, next := true, close.value;
  }

  /** The scanning loop over the payload, filling the three-slot `program`
      array and counting the points in it. */
  method ScanProgram(s: string) returns (points: seq<Point>)
    ensures points == Scan(s)
  {
    hide SegmentPoint;
    var program := new Point[MaxPoints];
    var count: nat := 0;
    var ptr: nat := 0;
    while count < MaxPoints
      invariant ptr <= |s| && count <= MaxPoints && program.Length == MaxPoints
      invariant program[..count] + AllPoints(s, ptr) == AllPoints(s, 0)
      decreases |s| - ptr
    {
      var more, found, next := NextSegment(s, ptr);
      if !more {
        break;
      }
      ghost var done := program[..count];
      if found.Some? {
        program[count] := found.value;
        count := count + 1;
        assert program[..count] == done + [found.value];
      }
      ptr := next;
    }
    points := program[..count];
    TakeOfPrefix(AllPoints(s, 0), points, MaxPoints);
  }

  // ---------------------------------------------------------------------
  // What the scan keeps and what it skips
  // ---------------------------------------------------------------------

  /** `k` is the first place at or after `from` where `pat` occurs. */
  ghost predicate FirstOccurrence(s: string, from: nat, k: nat, pat: string) {
    from <= k && Occurs(s, k, pat) && forall j :: from <= j < k ==> !Occurs(s, j, pat)
  }

  lemma FindSubFinds(s: string, from: nat, k: nat, pat: string)
    requires from <= |s| && FirstOccurrence(s, from, k, pat)
    ensures FindSub(s, from, pat) == Some(k)
  {
  }

  /** A segment in which `"time"` or `"temp"` does not occur before its `}`
      yields nothing, and scanning resumes at that `}`. */
  lemma SegmentWithoutKeySkipped(s: string, from: nat, open: nat, close: nat, key: string)
    requires from <= |s|
    requires FindChar(s, from, '{') == Some(open) && FindChar(s, open, '}') == Some(close)
    requires key == TimeKey || key == TempKey
    requires forall k :: open <= k < close ==> !Occurs(s, k, key)
    ensures AllPoints(s, from) == AllPoints(s, close)
  {
    AllPointsStep(s, from, open, close);
  }

  /** Only the first `"time"` of a segment is tried: when `sscanf` fails
      there, the segment yields nothing, whatever follows in it. */
  lemma FirstTimeKeyDecides(s: string, from: nat, open: nat, close: nat, t: nat)
    requires from <= |s|
    requires FindChar(s, from, '{') == Some(open) && FindChar(s, open, '}') == Some(close)
    requires FirstOccurrence(s, open, t, TimeKey) && ScanTime(s, t).None?
    ensures AllPoints(s, from) == AllPoints(s, close)
  {
    AllPointsStep(s, from, open, close);
    FindSubFinds(s, open, t, TimeKey);
  }

  /** Likewise for the first `"temp"` of a segment. */
  lemma FirstTempKeyDecides(s: string, from: nat, open: nat, close: nat, m: nat)
    requires from <= |s|
    requires FindChar(s, from, '{') == Some(open) && FindChar(s, open, '}') == Some(close)
    requires FirstOccurrence(s, open, m, TempKey) && ScanTemp(s, m).None?
    ensures AllPoints(s, from) == AllPoints(s, close)
  {
    AllPointsStep(s, from, open, close);
    FindSubFinds(s, open, m, TempKey);
  }

  /** A segment whose first `"time"` and first `"temp"` both lie before its
      `}` and both read yields exactly that point, ahead of the rest. */
  lemma WellFormedSegmentKept(s: string, from: nat, open: nat, close: nat, t: nat, m: nat)
    requires from <= |s|
    requires FindChar(s, from, '{') == Some(open) && FindChar(s, open, '}') == Some(close)
    requires FirstOccurrence(s, open, t, TimeKey) && t < close && ScanTime(s, t).Some?
    requires FirstOccurrence(s, open, m, TempKey) && m < close && ScanTemp(s, m).Some?
    ensures AllPoints(s, from)
         == [Point(ScanTime(s, t).value.0, ScanTime(s, t).value.1, ScanTemp(s, m).value)] + AllPoints(s, close)
  {
    AllPointsStep(s, from, open, close);
    FindSubFinds(s, open, t, TimeKey);
    FindSubFinds(s, open, m, TempKey);
  }

  /** The `{` positions of the segments that yield points, in scan order. */
  ghost function Origins(s: string, from: nat): seq<nat>
    requires from <= |s|
    decreases |s| - from
  {
    match FindChar(s, from, '{')
    case None => []
    case Some(open) =>
      match FindChar(s, open, '}')
      case None => []
      case Some(close) =>
        if SegmentPoint(s, open, close).Some? then [open] + Origins(s, close) else Origins(s, close)
  }

  lemma OriginsStep(s: string, from: nat, open: nat, close: nat)
    requires from <= |s|
    requires FindChar(s, from, '{') == Some(open) && FindChar(s, open, '}') == Some(close)
    ensures Origins(s, from) == (if SegmentPoint(s, open, close).Some? then [open] else []) + Origins(s, close)
  {
  }

  lemma OriginsEnd(s: string, from: nat)
    requires from <= |s|
    requires FindChar(s, from, '{').None? || FindChar(s, FindChar(s, from, '{').value, '}').None?
    ensures Origins(s, from) == [] && AllPoints(s, from) == []
  {
  }

  /** Every point has its origin, and every origin is a `{` at or after
      `from` whose segment reads as that point. */
  lemma {:induction false} OriginsReadAsPoints(s: string, from: nat)
    requires from <= |s|
    ensures |Origins(s, from)| == |AllPoints(s, from)|
    ensures forall i :: 0 <= i < |Origins(s, from)| ==> OriginOf(s, from, Origins(s, from)[i], AllPoints(s, from)[i])
    decreases |s| - from
  {
    hide SegmentPoint;
    var fo := FindChar(s, from, '{');
    if fo.None? || FindChar(s, fo.value, '}').None? {
      OriginsEnd(s, from);
    } else {
      var open := fo.value;
      var close := FindChar(s, open, '}').value;
      OriginsStep(s, from, open, close);
      AllPointsStep(s, from, open, close);
      OriginsReadAsPoints(s, close);
      var os, ps := Origins(s, close), AllPoints(s, close);
      assert forall i :: 0 <= i < |os| ==> OriginOf(s, from, os[i], ps[i]) by {
        forall i | 0 <= i < |os| ensures OriginOf(s, from, os[i], ps[i]) {
          assert OriginOf(s, close, os[i], ps[i]);
        }
      }
      match SegmentPoint(s, open, close)
      case None =>
        assert Origins(s, from) == os && AllPoints(s, from) == ps;
      case Some(p) =>
        assert Origins(s, from) == [open] + os && AllPoints(s, from) == [p] + ps;
        assert OriginOf(s, from, open, p);
        forall i | 0 <= i < |os| + 1
          ensures OriginOf(s, from, ([open] + os)[i], ([p] + ps)[i])
        {
          if i > 0 { assert ([open] + os)[i] == os[i - 1] && ([p] + ps)[i] == ps[i - 1]; }
        }
    }
  }

  ghost predicate OriginOf(s: string, from: nat, o: nat, p: Point) {
    from <= o < |s| && s[o] == '{' && FindChar(s, o, '}').Some? &&
    SegmentPoint(s, o, FindChar(s, o, '}').value) == Some(p)
  }

  lemma {:induction false} OriginsAtOrAfter(s: string, from: nat)
    requires from <= |s|
    ensures forall o :: o in Origins(s, from) ==> from <= o
    decreases |s| - from
  {
    hide SegmentPoint;
    var fo := FindChar(s, from, '{');
    if fo.None? || FindChar(s, fo.value, '}').None? {
      OriginsEnd(s, from);
    } else {
      var open := fo.value;
      var close := FindChar(s, open, '}').value;
      OriginsStep(s, from, open, close);
      OriginsAtOrAfter(s, close);
    }
  }

  /** The points come out in the order of the segments they were read
      from: their origins strictly increase. */
  lemma {:induction false} OriginsIncrease(s: string, from: nat)
    requires from <= |s|
    ensures forall i, j :: 0 <= i < j < |Origins(s, from)| ==> Origins(s, from)[i] < Origins(s, from)[j]
    decreases |s| - from
  {
    hide SegmentPoint, Origins, FindChar;
    var fo := FindChar(s, from, '{');
    if fo.None? || FindChar(s, fo.value, '}').None? {
      OriginsEnd(s, from);
    } else {
      var open := fo.value;
      var close := FindChar(s, open, '}').value;
      assert open < close by { assert s[open] == '{' && s[close] == '}'; }
      OriginsStep(s, from, open, close);
      OriginsIncrease(s, close);
      OriginsAtOrAfter(s, close);
      var rest := Origins(s, close);
      assert forall j :: 0 <= j < |rest| ==> open < rest[j] by {
        forall j | 0 <= j < |rest| ensures open < rest[j] {
          assert rest[j] in rest;
        }
      }
      if SegmentPoint(s, open, close).Some? {
        ConsIncreasing(open, rest);
      }
    }
  }

  lemma ConsIncreasing(x: nat, xs: seq<nat>)
    requires forall j :: 0 <= j < |xs| ==> x < xs[j]
    requires forall i, j :: 0 <= i < j < |xs| ==> xs[i] < xs[j]
    ensures forall i, j :: 0 <= i < j < |[x] + xs| ==> ([x] + xs)[i] < ([x] + xs)[j]
  {
    var all := [x] + xs;
    forall i, j | 0 <= i < j < |all| ensures all[i] < all[j] {
      assert all[j] == xs[j - 1];
      if i > 0 { assert all[i] == xs[i - 1]; }
    }
  }

  /** The scanner keeps the first three points of the payload and drops
      the rest; with fewer than three it keeps them all. */
  lemma ScanKeepsFirstThree(s: string)
    ensures |AllPoints(s, 0)| >= MaxPoints ==> Scan(s) == AllPoints(s, 0)[..MaxPoints]
    ensures |AllPoints(s, 0)| < MaxPoints ==> Scan(s) == AllPoints(s, 0)
  {
  }

  // ---------------------------------------------------------------------
  // The loop as written: a `{` without a later `}`
  // ---------------------------------------------------------------------

  /** The source's loop, `room` slots left: it assigns `end_obj_ptr` to
      `ptr` even when `strchr(ptr, '}')` found nothing, and the next test of
      the loop condition passes that NULL pointer to `strchr`. None stands for
      that undefined call. */
  function ScanAsWritten(s: string, from: nat, room: nat): Option<seq<Point>>
    requires from <= |s|
    decreases |s| - from
  {
    match FindChar(s, from, '{')
    case None => Some([])
    case Some(open) =>
      if room == 0 then Some([])
      else match FindChar(s, open, '}')
        case None => None
        case Some(close) =>
          match SegmentPoint(s, open, close)
          case Some(p) =>
            (match ScanAsWritten(s, close, room - 1)
             case None => None
             case Some(rest) => Some([p] + rest))
          case None => ScanAsWritten(s, close, room)
  }

  /** Wherever the source's loop terminates normally, it gives what the
      corrected scan gives. */
  lemma {:induction false} AsWrittenAgreesWhenDefined(s: string, from: nat, room: nat)
    requires from <= |s|
    requires ScanAsWritten(s, from, room).Some?
    ensures ScanAsWritten(s, from, room).value == Take(AllPoints(s, from), room)
    decreases |s| - from
  {
    hide SegmentPoint;
    match FindChar(s, from, '{')
    case None =>
    case Some(open) =>
      if room > 0 {
        var close := FindChar(s, open, '}').value;
        AllPointsStep(s, from, open, close);
        AsWrittenAgreesWhenDefined(s, close, if SegmentPoint(s, open, close).Some? then room - 1 else room);
      }
  }

  /** A payload cut off inside its first object: the source's loop reaches
      `strchr(NULL, '{')`, while the corrected scan ends with no points. */
  lemma UnclosedObjectReachesNull()
    ensures ScanAsWritten("[{", 0, MaxPoints).None?
    ensures Scan("[{") == []
  {
    assert FindChar("[{", 0, '{') == Some(1);
    assert FindChar("[{", 1, '}') == None;
  }
}
