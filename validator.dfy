/**
  The server's program validator, `is_valid_program` in
  qemuHost/project/source/cloudServer/thermo-serv.py: the checks a schedule
  sent with `PUT /thermostat/<id>/program` must pass before it is stored.

  The program arrives as decoded JSON, so it is modelled as a JSON value.
  The checks run in a fixed order and the first one that fails decides the
  message: the value must be a list, of one to three entries, and then,
  entry by entry, each must be an object holding a `time` that is a
  24-hour `HH:MM` string and a `temp` that is a number.
*/
module Validator {
  import opened Wrappers
  import opened CString

  /** A decoded JSON value as Python holds it. */
  datatype Value =
    | Str(s: string)
    | Int(i: int)
    | Bool(b: bool)
    | Float(f: real)
    | Null
    | List(items: seq<Value>)
    | Dict(fields: map<string, Value>)

  /** Why a program is refused; each reason has its own message. */
  datatype Reason =
    | NotAList
    | WrongLength
    | EntryNotObject
    | MissingKey
    | BadTime(time: Value)
    | TempNotNumber(timeText: string)

  // ---------------------------------------------------------------------
  // The time pattern
  // ---------------------------------------------------------------------

  /** `re.match(r'^([01]\d|2[0-3]):([0-5]\d)$', t)`: an hour from 00 to 23,
      a colon and a minute from 00 to 59. Python's `$` also matches just
      before a newline that ends the string. */
  predicate TimeMatches(t: string) {
    (|t| == 5 || (|t| == 6 && t[5] == '\n')) &&
    (((t[0] == '0' || t[0] == '1') && IsDigit(t[1])) || (t[0] == '2' && '0' <= t[1] <= '3')) &&
    t[2] == ':' && '0' <= t[3] <= '5' && IsDigit(t[4])
  }

  /** The clock time `h:m` in `HH:MM` form. */
  function TimeText(h: nat, m: nat): (r: string)
    requires h < 24 && m < 60
    ensures |r| == 5 && r[2] == ':'
  {
    TwoDigits(h) + ":" + TwoDigits(m)
  }

  /** The text `t` names a clock time: some hour below 24 and minute below
      60 written `HH:MM`, optionally followed by a newline. */
  ghost predicate NamesClockTime(t: string) {
    exists h: nat, m: nat :: h < 24 && m < 60 && (t == TimeText(h, m) || t == TimeText(h, m) + "\n")
  }

  lemma TimeTextMatches(h: nat, m: nat)
    requires h < 24 && m < 60
    ensures TimeMatches(TimeText(h, m)) && TimeMatches(TimeText(h, m) + "\n")
  {
    var t := TimeText(h, m);
    assert t[0] == DigitChar(h / 10) && t[1] == DigitChar(h % 10);
    assert t[3] == DigitChar(m / 10) && t[4] == DigitChar(m % 10);
    assert h / 10 <= 2 && (h / 10 == 2 ==> h % 10 <= 3);
  }

  lemma MatchNamesClockTime(t: string)
    requires TimeMatches(t)
    ensures NamesClockTime(t)
  {
    var h := 10 * DigitValue(t[0]) + DigitValue(t[1]);
    var m := 10 * DigitValue(t[3]) + DigitValue(t[4]);
    assert h / 10 == DigitValue(t[0]) && h % 10 == DigitValue(t[1]);
    assert m / 10 == DigitValue(t[3]) && m % 10 == DigitValue(t[4]);
    var text := TimeText(h, m);
    assert t[..5] == text by {
      assert text[0] == DigitChar(h / 10) == t[0] && text[1] == DigitChar(h % 10) == t[1];
      assert text[3] == DigitChar(m / 10) == t[3] && text[4] == DigitChar(m % 10) == t[4];
    }
    if |t| == 5 {
      assert t == text;
    } else {
      assert t == text + "\n";
    }
  }

  /** The pattern accepts exactly the `HH:MM` texts of the clock times of a
      day, with or without a final newline. */
  lemma TimeMatchesIffClockTime(t: string)
    ensures TimeMatches(t) <==> NamesClockTime(t)
  {
    if TimeMatches(t) {
      MatchNamesClockTime(t);
    }
    if NamesClockTime(t) {
      var h: nat, m: nat :| h < 24 && m < 60 && (t == TimeText(h, m) || t == TimeText(h, m) + "\n");
      TimeTextMatches(h, m);
    }
  }

  /** A single digit for the hour, a 24 and a 60 are all refused; the last
      minute of the day is accepted. */
  lemma TimeExamples()
    ensures !TimeMatches("7:00") && !TimeMatches("24:00") && !TimeMatches("12:60")
    ensures !TimeMatches("07:00 ") && !TimeMatches("07:0")
    ensures TimeMatches("07:00") && TimeMatches("23:59") && TimeMatches("00:00\n")
  {
  }

  // ---------------------------------------------------------------------
  // The checks
  // ---------------------------------------------------------------------

  /** `isinstance(v, (int, float))`; a Python `bool` is an `int`. */
  predicate IsNumber(v: Value) {
    v.Int? || v.Float? || v.Bool?
  }

  /** What an accepted entry looks like. */
  predicate EntryOk(entry: Value) {
    entry.Dict? && "time" in entry.fields && "temp" in entry.fields &&
    entry.fields["time"].Str? && TimeMatches(entry.fields["time"].s) &&
    IsNumber(entry.fields["temp"])
  }

  /** What an accepted program looks like: a list of one to three entries,
      every one of them acceptable. */
  predicate WellFormedProgram(programData: Value) {
    programData.List? && 1 <= |programData.items| <= 3 &&
    forall k :: 0 <= k < |programData.items| ==> EntryOk(programData.items[k])
  }

  /** The checks the loop body makes on one entry, in order; None when all
      of them pass. */
  function CheckEntry(entry: Value): (r: Option<Reason>)
    ensures r.None? <==> EntryOk(entry)
  {
    if !entry.Dict? then Some(EntryNotObject)
    else if "time" !in entry.fields || "temp" !in entry.fields then Some(MissingKey)
    else
      var time := entry.fields["time"];
      if !time.Str? || !TimeMatches(time.s) then Some(BadTime(time))
      else if !IsNumber(entry.fields["temp"]) then Some(TempNotNumber(time.s))
      else None
  }

  /** The loop over the entries: the first failing entry decides. */
  function FirstFailure(entries: seq<Value>): (r: Option<Reason>)
    ensures r.None? <==> forall k :: 0 <= k < |entries| ==> EntryOk(entries[k])
  {
    if entries == [] then None
    else match CheckEntry(entries[0])
      case Some(reason) => Some(reason)
      case None => FirstFailure(entries[1..])
  }

  /** A failure is the reason of the first entry that fails; every entry
      before it passes. */
  lemma {:induction false} FirstFailingEntryDecides(entries: seq<Value>)
    requires FirstFailure(entries).Some?
    ensures exists k :: 0 <= k < |entries| && CheckEntry(entries[k]) == FirstFailure(entries) &&
              forall j :: 0 <= j < k ==> EntryOk(entries[j])
  {
    if CheckEntry(entries[0]).None? {
      FirstFailingEntryDecides(entries[1..]);
      var k :| 0 <= k < |entries[1..]| && CheckEntry(entries[1..][k]) == FirstFailure(entries[1..]) &&
                forall j :: 0 <= j < k ==> EntryOk(entries[1..][j]);
      assert CheckEntry(entries[k + 1]) == FirstFailure(entries);
      forall j | 0 <= j < k + 1 ensures EntryOk(entries[j]) {
        if j > 0 { assert entries[j] == entries[1..][j - 1]; }
      }
    } else {
      assert CheckEntry(entries[0]) == FirstFailure(entries);
    }
  }

  /** `is_valid_program` up to its message: None for a program it accepts,
      else the reason of the first check that fails. */
  function Validate(programData: Value): (r: Option<Reason>)
    ensures r.None? <==> WellFormedProgram(programData)
    ensures !programData.List? ==> r == Some(NotAList)
    ensures programData.List? && !(1 <= |programData.items| <= 3) ==> r == Some(WrongLength)
  {
    if !programData.List? then Some(NotAList)
    else if !(1 <= |programData.items| <= 3) then Some(WrongLength)
    else FirstFailure(programData.items)
  }

  // ---------------------------------------------------------------------
  // The messages
  // ---------------------------------------------------------------------

  /** `str(v)` for the values whose text is modelled: strings, integers,
      booleans and `None`. */
  function PyStr(v: Value): Option<string> {
    match v
    case Str(s) => Some(s)
    case Int(i) => Some(IntText(i))
    case Bool(b) => Some(if b then "True" else "False")
    case Null => Some("None")
    case _ => None
  }

  /** The message returned with a reason; None where it would show `str()`
      of a float, list or dict. */
  function Message(reason: Reason): Option<string> {
    match reason
    case NotAList => Some("Program must be a list.")
    case WrongLength => Some("Program must contain between 1 and 3 setpoints.")
    case EntryNotObject => Some("Each program entry must be an object.")
    case MissingKey => Some("Each program entry must contain 'time' and 'temp' keys.")
    case BadTime(time) =>
      (match PyStr(time)
       case Some(shown) => Some("Invalid time format for '" + shown + "'. Must be HH:MM.")
       case None => None)
    case TempNotNumber(time) => Some("Temperature must be a number for time '" + time + "'.")
  }

  /** `is_valid_program`: `(True, "")` for a program it accepts, `(False,
      message)` otherwise. */
  function IsValidProgram(programData: Value): (r: (bool, Option<string>))
    ensures r.0 <==> WellFormedProgram(programData)
    ensures r.0 ==> r.1 == Some("")
    ensures !r.0 ==> r.1 != Some("")
  {
    match Validate(programData)
    case None => (true, Some(""))
    case Some(reason) => (false, Message(reason))
  }

  /** A value that is not a list is refused before anything else. */
  lemma NonListRejected(programData: Value)
    requires !programData.List?
    ensures IsValidProgram(programData) == (false, Some("Program must be a list."))
  {
  }

  /** The length is checked before any entry: a list of four valid entries
      and an empty list get the length message. */
  lemma LengthCheckedFirst(items: seq<Value>)
    requires |items| == 0 || |items| > 3
    ensures IsValidProgram(List(items)) == (false, Some("Program must contain between 1 and 3 setpoints."))
  {
  }

  /** The program every new thermostat is registered with. */
  const DefaultProgram: Value := List([Dict(map["time" := Str("07:00"), "temp" := Float(21.0)])])

  lemma DefaultProgramAccepted()
    ensures IsValidProgram(DefaultProgram) == (true, Some(""))
  {
    var entry := DefaultProgram.items[0];
    assert entry.fields["time"] == Str("07:00") && entry.fields["temp"] == Float(21.0);
    assert EntryOk(entry);
  }

  /** A program whose second entry has the time `24:00` and whose third
      entry is not even an object. */
  const TwoBadEntries: Value := List([
    Dict(map["time" := Str("07:00"), "temp" := Int(20)]),
    Dict(map["time" := Str("24:00"), "temp" := Float(18.5)]),
    Null])

  lemma TwoBadEntriesReason()
    ensures Validate(TwoBadEntries) == Some(BadTime(Str("24:00")))
  {
    var items := TwoBadEntries.items;
    assert items[0].fields["time"] == Str("07:00") && items[0].fields["temp"] == Int(20);
    assert CheckEntry(items[0]).None?;
    assert items[1].fields["time"] == Str("24:00") && !TimeMatches("24:00");
    assert CheckEntry(items[1]) == Some(BadTime(Str("24:00")));
    assert items[1..][1..] == [Null];
    assert FirstFailure(items[1..]) == Some(BadTime(Str("24:00")));
  }

  /** The first bad entry decides the message even when a later entry is
      worse: `24:00` is reported, not the entry that is not an object. */
  lemma FirstBadEntryReported()
    ensures IsValidProgram(TwoBadEntries) == (false, Some("Invalid time format for '24:00'. Must be HH:MM."))
  {
    hide *;
    TwoBadEntriesReason();
    RejectedWithMessage(TwoBadEntries, BadTime(Str("24:00")));
    assert "Invalid time format for '" + "24:00" + "'. Must be HH:MM."
        == "Invalid time format for '24:00'. Must be HH:MM.";
  }

  /** A program refused for a reason carries that reason's message; a bad
      string time is shown as written. */
  lemma RejectedWithMessage(programData: Value, reason: Reason)
    requires Validate(programData) == Some(reason)
    ensures IsValidProgram(programData) == (false, Message(reason))
    ensures reason.BadTime? && reason.time.Str? ==>
      Message(reason) == Some("Invalid time format for '" + reason.time.s + "'. Must be HH:MM.")
  {
  }

  /** A `bool` passes as a temperature, being an `int` in Python, while a
      numeric string does not. */
  lemma TempTypeExamples()
    ensures IsNumber(Bool(true)) && IsNumber(Int(21)) && IsNumber(Float(21.5))
    ensures !IsNumber(Str("21.0")) && !IsNumber(Null)
  {
  }
}
