# Thermostat client and program validator, modelled in Dafny

This project models the decision logic of a networked thermostat, which has
two halves.

- **The client daemon**, `qemuHost/thermofinal.c`. Every turn of its `main` loop:
  - reloads its configuration file (`parse_config`);
  - reads the room temperature;
  - fetches a schedule ("program") from the server;
  - picks the active target temperature (`get_target_temp_from_program`);
  - switches the heater with a 0.5 degree hysteresis band;
  - writes the heater state to a status file and posts it to the server.

  A turn whose configuration does not parse, or whose fetch fails, is
  skipped. The loop then sleeps 10 seconds instead of 5.
- **The server's validator**, `is_valid_program` in
  `qemuHost/project/source/cloudServer/thermo-serv.py`. It decides whether a
  schedule sent to the server may be stored, and if not, which message
  explains why.

The files:

| file | module | what it holds |
|---|---|---|
| `wrappers.dfy` | `Wrappers` | `Option` |
| `cstring.dfy` | `CString` | The C library calls the client relies on: `strchr`, `strstr`, `strncpy`, the `sscanf` conversions `%d` and `%f`, and the `printf` conversions `%ld` and `%.2f`. |
| `scanner.dfy` | `ProgramScanner` | The scanner that pulls up to three `(hour, minute, temp)` points out of the program payload. `ScanProgram` is the method that fills the three-slot array. `AllPoints` and `Scan` are the functions that specify it. |
| `payload.dfy` | `ProgramPayload` | The program payload the server sends, `jsonify` of the stored entries, and the proof that the scanner reads every entry of it back. |
| `setpoint.dfy` | `Setpoint` | The resolver. `ResolveTarget` is the method with the source's two loops. `Resolve` is its specification. `GetTargetTemp` is the whole of `get_target_temp_from_program`. |
| `config.dfy` | `Config` | `parse_config`. It covers the `fgets` chunking, the `%255[^=]=%255s` split, the `strcmp` chain, `strncpy` into the `AppConfig` fields, and the all-four-keys rule. |
| `hysteresis.dfy` | `HeaterRule` | The heater decision. |
| `control.dfy` | `Control` | One turn of the loop as a function `Step` over the loop's state, plus the run of many turns. |
| `control_props.dfy` | `ControlProperties` | The skip-and-retry policy and what a completed turn reports. |
| `daemon.dfy` | `Daemon` | The loop as a class `Thermostat` whose `heaterOn` and `AppConfig` are updated in place, proved against `Step`. |
| `validator.dfy` | `Validator` | `is_valid_program` over decoded JSON values, its `HH:MM` pattern and its messages. |

The client's C strings are modelled as the characters before their
terminating NUL. Temperatures are `real`.

The outside world enters each turn as a `CycleInput`, made of:
- the configuration file's contents, or None when it cannot be opened;
- the temperature read, -999 when the read failed;
- the fetched payload, or None when the request failed;
- the local hour and minute;
- the `time(NULL)` value stamped into the status file.

## What the code does at its edges

- **Point ranges.** The scanner reads a point's time with `%d:%d` and
  checks no range, so `"99:99"` and `"-1:30"` are read as points
  (thermofinal.c:365). Only the server's validator limits hours to 00–23
  and minutes to 00–59 (thermo-serv.py:42).
  - The resolver's first pass starts from `latest_time_val = -1`. A point with
    a negative minute-value therefore never wins that pass
    (`Setpoint.NegativeTimeNeverLatestPast`).
- **Status and temperature file paths.** `parse_config` requires the keys
  `TEMP_FILE` and `STATUS_FILE` and stores their values, but `main` reads
  `/tmp/temp` and writes `/tmp/status` whatever they say. The model keeps
  their values in the configuration, and the loop does not use them.
- **No last target.** The loop keeps only `heaterOn` and the
  configuration across turns; the target is recomputed every turn, and
  so it is in the model.
- **Failed parse.** A failing `parse_config` still leaves the fields it did
  read updated. The next turn starts from them.
- **Points at the same time.** The resolver's passes compare with a strict
  `>` (thermofinal.c:391, 405), so of two points at the same time the
  first in the payload wins (`Setpoint.EqualTimesFirstWins`).
- **Temperatures in the payload.** The server writes each stored
  temperature as Python does: a float as its shortest `repr` (`21.0`,
  `21.5`), an integer as its digits. The client's `%f` reads every such
  form (`ProgramPayload.TempTextReadsBackAt`).

## Model

| member | source | states |
|---|---|---|
| CString.FindChar | qemuHost/thermofinal.c:355 | `strchr`: the index found holds the character and no earlier index from the start position does; None means the character does not occur from there on |
| CString.FindSub | qemuHost/thermofinal.c:360-361 | `strstr`: the pattern occurs at the index found and at no earlier index; None means it occurs nowhere from there on |
| CString.OccursIffSlice | qemuHost/thermofinal.c:360-361 | `pat` occurs at `k` exactly when the slice of the same length at `k` equals `pat` |
| CString.OccursPrefix | qemuHost/thermofinal.c:365-366 | where a pattern with a suffix occurs, the pattern alone occurs (a `sscanf` literal that matches starts with the key) |
| CString.FindCharSkip | qemuHost/thermofinal.c:355 | `strchr` passes over a stretch that does not hold the character: searching from its start or its end finds the same |
| CString.FindCharHere | qemuHost/thermofinal.c:362 | `strchr` stops at once on the character it looks for |
| CString.NoOccurrenceBefore | qemuHost/thermofinal.c:360-361 | `strstr` finds nothing in a stretch that, with the following characters, lacks one of the pattern's characters |
| CString.NoOccurrenceWithin | qemuHost/thermofinal.c:360-362 | a pattern occurs nowhere in a stretch lacking one of its characters and closed by a character it does not hold |
| CString.SkipSpace | qemuHost/thermofinal.c:365-366 | the white space a blank in a `sscanf` format (or `%d`, `%f`) skips: everything skipped is white space and the first character not skipped is not |
| CString.SkipSpaceTo | qemuHost/thermofinal.c:365-366 | skipping white space from `i` stops exactly at the first character that is not white space |
| CString.DigitEnd | qemuHost/thermofinal.c:365 | the digit run `%d` consumes is maximal: all digits, followed by a non-digit or the end |
| CString.ScanInt | qemuHost/thermofinal.c:365 | a successful `%d` consumes at least one character and stays inside the string |
| CString.ScanIntDigits | qemuHost/thermofinal.c:365 | `%d` at a maximal run of digits reads the run's value and stops right after it |
| CString.ScanTwoDigits | qemuHost/thermofinal.c:365 | `%d` reads back a number printed with two digits, when a non-digit or the end follows |
| CString.ScanReal | qemuHost/thermofinal.c:366 | the `%f` conversion: white space, a sign, digits with an optional `.` and fraction, an optional exponent; what it reads from decimal text is stated by `CString.ScanDecimal` |
| CString.ScanDecimal | qemuHost/thermofinal.c:366 | `%f` on an optional `-`, digits and an optional `.` with more digits, followed by a character that cannot continue the number, reads the whole part plus the fraction scaled down by its number of digits, negated after `-` |
| CString.StrNCopy | qemuHost/thermofinal.c:219 | `strncpy(dst, src, n)` into a zeroed buffer holds exactly the first min(length, n) characters of the source |
| CString.DecimalText | qemuHost/thermofinal.c:275 | the digits `%ld` prints: at least one, all decimal digits, no leading zero |
| CString.DecimalTextValue | qemuHost/thermofinal.c:275 | the digits printed for n denote n |
| CString.IntText | qemuHost/thermofinal.c:275 | the `%ld` text: a minus sign for a negative value, then its digits; `CString.IntTextRoundTrip` states that `%d` reads it back |
| CString.IntTextRoundTrip | qemuHost/thermofinal.c:275 | `%d` reads back exactly the value `%ld` printed, consuming the whole text |
| CString.RoundHalfEven | qemuHost/thermofinal.c:321 | the rounding `%.2f` applies lands within half a unit of the value |
| CString.FixedTwo | qemuHost/thermofinal.c:321 | `%.2f`: the magnitude rounded half to even to hundredths, with its sign; `CString.FixedTwoReadsBack` and `CString.FixedTwoExamples` state what it prints |
| CString.CentsText | qemuHost/thermofinal.c:321 | the `%.2f` text of `cents` hundredths; `CString.CentsTextReadsBack` states that `%f` reads it back exactly |
| CString.CentsTextReadsBack | qemuHost/thermofinal.c:321 | the `%.2f` text of a magnitude of `cents` hundredths reads back under `%f` as exactly that value, with its sign |
| CString.CentsTextReadsBackAt | qemuHost/thermofinal.c:366 | the same read-back where the text stands inside a longer string, followed by a character that ends the number |
| CString.FixedTwoReadsBack | qemuHost/thermofinal.c:321 | what `%.2f` prints always reads back under `%f`, within 0.005 of the value printed |
| CString.FixedTwoExamples | qemuHost/thermofinal.c:321 | `%.2f` prints 17.0 as `17.00`, -2.5 as `-2.50`, and the tie 0.125 as `0.12` |
| ProgramScanner.ScanTime | qemuHost/thermofinal.c:365 | `sscanf(time_ptr, "\"time\": \"%d:%d\"")` matches only where `"time":` stands |
| ProgramScanner.ScanTimeReadsClock | qemuHost/thermofinal.c:365 | at `"time":`, white space and `"HH:MM`, followed by anything but a digit, the pattern reads exactly the hour HH and the minute MM |
| ProgramScanner.ScanTemp | qemuHost/thermofinal.c:366 | `sscanf(temp_ptr, "\"temp\": %f")` matches only where `"temp":` stands |
| ProgramScanner.ScanTempReadsCents | qemuHost/thermofinal.c:366 | at `"temp":`, white space and the `%.2f` text of a value, followed by a character that ends the number, the pattern reads exactly that value |
| ProgramScanner.SegmentPoint | qemuHost/thermofinal.c:360-371 | the point a `{` ... `}` segment yields, or none; when is stated by `WellFormedSegmentKept`, `FirstTimeKeyDecides`, `FirstTempKeyDecides` and `SegmentWithoutKeySkipped` |
| ProgramScanner.AllPoints | qemuHost/thermofinal.c:355-374 | every point the loop would collect without its three-point cap; `AllPointsStep`, `OriginsReadAsPoints`, `OriginsIncrease` and `ProgramPayload.PayloadReadBack` state what it holds |
| ProgramScanner.AllPointsNoOpen | qemuHost/thermofinal.c:355 | with no `{` left the loop ends and yields nothing more |
| ProgramScanner.FindSubFinds | qemuHost/thermofinal.c:360-361 | `strstr` returns the first place from the start position where the pattern occurs |
| ProgramScanner.Take | qemuHost/thermofinal.c:355 | the `count < 3` cap: at most `n` elements, a prefix, all of them when there are fewer |
| ProgramScanner.AllPointsStep | qemuHost/thermofinal.c:355-374 | helper, one unfolding step used by the other lemmas: one turn of the scanning loop: the next `{` segment's point, when it has one, comes first, and scanning resumes at that segment's `}` |
| ProgramScanner.AllPointsUnclosed | qemuHost/thermofinal.c:362 | a `{` with no `}` after it ends the (corrected) scan |
| ProgramScanner.Scan | qemuHost/thermofinal.c:350-355 | the scanner hands over at most three points |
| ProgramScanner.ReadSegment | qemuHost/thermofinal.c:360-373 | the loop body yields exactly the segment's point (or nothing), and the remaining points are those after its `}` |
| ProgramScanner.NextSegment | qemuHost/thermofinal.c:355-374 | one turn from `ptr` either ends the scan with no points left, or advances strictly and splits off the turn's point |
| ProgramScanner.ScanProgram | qemuHost/thermofinal.c:350-375 | the scanning loop fills the three-slot array with exactly the first three points of the payload (all of them when fewer), in order |
| ProgramScanner.SegmentWithoutKeySkipped | qemuHost/thermofinal.c:364 | a segment in which `"time"` or `"temp"` does not occur before its `}` yields nothing; scanning resumes at that `}` |
| ProgramScanner.FirstTimeKeyDecides | qemuHost/thermofinal.c:365 | only the first `"time"` after the `{` is tried: when `sscanf` fails there, the segment yields nothing |
| ProgramScanner.FirstTempKeyDecides | qemuHost/thermofinal.c:366 | likewise for the first `"temp"` |
| ProgramScanner.WellFormedSegmentKept | qemuHost/thermofinal.c:364-371 | a segment whose first `"time"` and first `"temp"` precede its `}` and both read yields exactly that point, ahead of all later ones |
| ProgramScanner.OriginsReadAsPoints | qemuHost/thermofinal.c:355-374 | every point comes from its own `{` segment at or after the scan start, and that segment reads as exactly that point |
| ProgramScanner.OriginsIncrease | qemuHost/thermofinal.c:355-374 | points come out in the order of their segments in the payload: their `{` positions strictly increase |
| ProgramScanner.ScanKeepsFirstThree | qemuHost/thermofinal.c:355 | helper, one unfolding step used by the other lemmas: with three or more points the first three are kept and the rest dropped; with fewer all are kept |
| ProgramScanner.AsWrittenAgreesWhenDefined | qemuHost/thermofinal.c:355-375 | wherever the loop as written ends without reaching `strchr(NULL, ...)`, it keeps exactly what the corrected scan keeps |
| ProgramScanner.ScanAsWritten | qemuHost/thermofinal.c:355-375 | the loop exactly as written, None where it would call `strchr(NULL, ...)`; compared with the corrected scan by `AsWrittenAgreesWhenDefined` and `UnclosedObjectReachesNull` |
| ProgramScanner.UnclosedObjectReachesNull | qemuHost/thermofinal.c:374 | for the payload `[{` the loop as written passes NULL to `strchr`; the corrected scan ends with no points |
| ProgramPayload.PointsOf | qemuHost/thermofinal.c:367-370 | one point per stored entry, in order, each with the entry's hour, minute and temperature |
| ProgramPayload.FractionText | qemuHost/project/source/cloudServer/thermo-serv.py:119 | the fraction Python's `repr` writes for `f` hundredths: one or two digits which, scaled down by their count, are worth `f / 100` |
| ProgramPayload.TempText | qemuHost/project/source/cloudServer/thermo-serv.py:119 | the JSON text `jsonify` writes for a stored temperature: an integer's digits, or a float's shortest `repr`; read back by `ProgramPayload.TempTextReadsBackAt` |
| ProgramPayload.TempTextChars | qemuHost/project/source/cloudServer/thermo-serv.py:119 | a temperature's JSON text is non-empty and holds only digits, `.` and `-` |
| ProgramPayload.TempTextExamples | qemuHost/project/source/cloudServer/thermo-serv.py:119 | 21.0 is written `21.0`, 21.5 `21.5`, -5.25 `-5.25` and the integer 21 `21` |
| ProgramPayload.FloatTextLayout | qemuHost/project/source/cloudServer/thermo-serv.py:119 | a float's text is an optional `-`, the whole part's digits, `.` and one or two digits, worth the whole part and the hundredths |
| ProgramPayload.IntTextLayout | qemuHost/project/source/cloudServer/thermo-serv.py:119 | an integer's text is an optional `-` and digits worth its magnitude |
| ProgramPayload.FloatTextReadsBackAt | qemuHost/thermofinal.c:366 | `%f` reads the `repr` of a float of hundredths back as exactly that value, followed by a character that ends the number |
| ProgramPayload.WholeTextReadsBackAt | qemuHost/thermofinal.c:366 | `%f` reads an integer's text back as that integer, when neither a digit, an exponent nor a `.` follows |
| ProgramPayload.TempTextReadsBackAt | qemuHost/thermofinal.c:366 | `%f` reads back every stored temperature, integer or float, as its value |
| ProgramPayload.ScanTempReadsTemp | qemuHost/thermofinal.c:366 | at `"temp":` and white space, the temperature pattern reads the stored temperature, whatever form `jsonify` gave it |
| ProgramPayload.KeysFirst | qemuHost/thermofinal.c:360-361 | in an entry object, the first `"temp"` and the first `"time"` from its `{` are the entry's own keys |
| ProgramPayload.ObjectBounds | qemuHost/thermofinal.c:355-362 | the next `{` is the object's own and the first `}` after it closes the object, as no field holds a brace |
| ProgramPayload.EntryYieldsPoint | qemuHost/thermofinal.c:355-374 | an entry object yields exactly its own point, and the scan resumes at its `}` |
| ProgramPayload.TempReadInEntry | qemuHost/thermofinal.c:366 | inside an entry the temperature pattern reads the entry's temperature |
| ProgramPayload.TimeReadInEntry | qemuHost/thermofinal.c:365 | inside an entry the time pattern reads the entry's hour and minute |
| ProgramPayload.EntriesReadBack | qemuHost/thermofinal.c:355-374 | the scan over a list of entries followed by any text without `{` yields their points, one per entry, in order |
| ProgramPayload.Payload | qemuHost/project/source/cloudServer/thermo-serv.py:119 | the JSON array `jsonify` writes for the stored entries, keys sorted; read back by `ProgramPayload.PayloadReadBack` |
| ProgramPayload.Response | qemuHost/project/source/cloudServer/thermo-serv.py:119 | that JSON text followed by the newline `jsonify` appends: the body the client fetches; read back by `ProgramPayload.PayloadReadBack` |
| ProgramPayload.PayloadReadBack | qemuHost/project/source/cloudServer/thermo-serv.py:119 | for a program of `Writable` entries holding exactly `temp` and `time`, the scanner reads every entry of the answer `jsonify` sends, final newline included, back in order and keeps the first three; a program of at most three such entries arrives whole |
| ProgramPayload.TimeOnlyObjectSkipped | qemuHost/thermofinal.c:364 | an object with a time but no `"temp"` yields nothing, and the scan resumes at its `}` |
| ProgramPayload.EntryThenTimeOnly | qemuHost/thermofinal.c:355-374 | an entry followed by an object without `"temp"` yields exactly the entry's point |
| ProgramPayload.EntryThenTimeOnlyExample | qemuHost/thermofinal.c:355-374 | `[{"temp": 21.5, "time": "07:00"}, {"time": "22:30"}]` yields exactly the point 07:00 at 21.5 |
| Setpoint.LatestPast | qemuHost/thermofinal.c:386-396 | the point the first pass settles on is one of those examined and is not in the future (its minute-value lies between -1 exclusive and now) |
| Setpoint.LatestPastSpec | qemuHost/thermofinal.c:386-396 | the first pass settles on the first point, in parse order, with the greatest minute-value not in the future, and settles on none only when every point is in the future |
| Setpoint.LatestOverall | qemuHost/thermofinal.c:401-409 | the wrap-around pass settles on one of the points examined |
| Setpoint.LatestOverallSpec | qemuHost/thermofinal.c:401-409 | the wrap-around pass settles on the first point with the greatest minute-value of all |
| Setpoint.Resolve | qemuHost/thermofinal.c:377-380 | with no points the target is 20.0 |
| Setpoint.ResolveIsSomePoint | qemuHost/thermofinal.c:383-413 | with points, the target is always the temperature of one of them |
| Setpoint.ResolveLatestPast | qemuHost/thermofinal.c:383-396 | when some point is not in the future, the target is that of the first point with the greatest such minute-value (ties go to the earliest) |
| Setpoint.ResolveWrapsAround | qemuHost/thermofinal.c:398-411 | when every point is in the future, the target is that of the first point with the greatest minute-value of all (yesterday's last setpoint) |
| Setpoint.ResolveAtPointTime | qemuHost/thermofinal.c:390-393 | queried exactly at a point's time, with no earlier point at that time, the target is that point's temperature |
| Setpoint.EqualTimesFirstWins | qemuHost/thermofinal.c:391 | of two points at 07:00, queried at 07:00, the first listed wins: the comparison is a strict `>` |
| Setpoint.WrapAroundExample | qemuHost/thermofinal.c:398-411 | 07:00 -> 18.0, 22:00 -> 15.0 queried at 02:00 resolves to 15.0, not the default |
| Setpoint.NegativeTimeNeverLatestPast | qemuHost/thermofinal.c:384-391 | a point with a negative minute-value is never taken by the first pass |
| Setpoint.ResolveTarget | qemuHost/thermofinal.c:377-413 | the two loops over the parsed points compute exactly `Resolve` at `hour * 60 + minute` |
| Setpoint.GetTargetTemp | qemuHost/thermofinal.c:344-414 | `get_target_temp_from_program` answers the resolution of the points the scanner keeps |
| Setpoint.TargetTemp | qemuHost/thermofinal.c:344-414 | the target: the points the scanner keeps, resolved at `hour * 60 + minute`; `Setpoint.GetTargetTemp` computes it and `Setpoint.NothingParsedGivesDefault` gives its default |
| Setpoint.NothingParsedGivesDefault | qemuHost/thermofinal.c:377-380 | a payload from which no point parses gives 20.0 |
| Config.KeyOf | qemuHost/thermofinal.c:218-233 | the `strcmp` chain: a key is recognised exactly when it equals one of the four names, and then names that field |
| Config.Store | qemuHost/thermofinal.c:219-231 | storing a value fills only the key's field, with at most `sizeof(field) - 1` characters of it |
| Config.LineEnd | qemuHost/thermofinal.c:213-215 | a chunk `fgets` reads is non-empty, at most 511 characters, has no newline before its last character, and ends at a newline, at 511 characters or at the end of the file |
| Config.Lines | qemuHost/thermofinal.c:215 | every chunk the loop reads holds 1 to 511 characters |
| Config.LinesCoverFile | qemuHost/thermofinal.c:215 | the chunks put back together are the file: nothing lost, nothing invented |
| Config.ScanConfigLine | qemuHost/thermofinal.c:217 | a split line has a key of 1 to 255 characters with no `=`, directly followed by `=`; the value is the first word after that `=` and the white space following it: 1 to 255 non-white characters standing there, ended by the end of the line, white space or the 255-character limit |
| Config.KeySpanEnd | qemuHost/thermofinal.c:217 | `%255[^=]`: at most 255 characters other than `=`, stopping early only at a `=` |
| Config.KeySpanEndAt | qemuHost/thermofinal.c:217 | a key of at most 255 characters followed by `=` is read whole |
| Config.WordEnd | qemuHost/thermofinal.c:217 | `%255s`: at most 255 non-white characters, stopping early only at white space |
| Config.WordEndAt | qemuHost/thermofinal.c:217 | a value of at most 255 non-white characters, followed by white space or the end, is read whole |
| Config.ConfigLineRoundTrip | qemuHost/thermofinal.c:217 | `KEY=VALUE`, with white space before the value and after it, splits into exactly that key and value |
| Config.ConfigLineLongValue | qemuHost/thermofinal.c:217 | a value word longer than 255 characters is cut to its first 255, whatever follows |
| Config.WordEndFull | qemuHost/thermofinal.c:217 | `%255s` stops after 255 non-white characters |
| Config.LineWithoutEqualsIgnored | qemuHost/thermofinal.c:217 | a line with no `=` sets nothing |
| Config.EmptyValueIgnored | qemuHost/thermofinal.c:217 | a key followed only by white space after its `=` sets nothing |
| Config.ApplyLine | qemuHost/thermofinal.c:216-234 | one line's effect on the fields; stated by `Config.LineEffect` |
| Config.ApplyLines | qemuHost/thermofinal.c:215-235 | the lines applied in file order; stated by `Config.LastLineWins` |
| Config.LineEffect | qemuHost/thermofinal.c:215-235 | one more line changes the fields by that line alone and adds at most its own key to those seen |
| Config.AllKeysSeenByName | qemuHost/thermofinal.c:237 | all keys seen is exactly the four flags `found_url`, `found_id`, `found_temp_path` and `found_status_path` |
| Config.LastLineWins | qemuHost/thermofinal.c:215-235 | each field ends up holding the truncated value of the last line that sets its key, or what it held when no line does |
| Config.ThermostatIdTruncated | qemuHost/thermofinal.c:223 | the thermostat id keeps at most 63 characters, a prefix of its value |
| Config.AppConfig.constructor | qemuHost/thermofinal.c:122 | `AppConfig config = {0}`: every field empty |
| Config.ReadConfigLine | qemuHost/thermofinal.c:216-234 | the loop body applies the line to the fields and raises exactly the flag of the key it sets |
| Config.ParseConfig | qemuHost/thermofinal.c:207-243 | returns -1 for a file it cannot open (fields untouched). Otherwise the fields are the lines applied in order. It returns 0 exactly when all four keys were seen, else -1 |
| HeaterRule.Decide | qemuHost/thermofinal.c:155-166 | an ON heater is never above target + 0.5, an OFF heater never below target - 0.5, and the state changes only outside the band |
| HeaterRule.SwitchingRules | qemuHost/thermofinal.c:155-166 | ON turns OFF if and only if current > target + 0.5; OFF turns ON if and only if current < target - 0.5 |
| HeaterRule.DeadBand | qemuHost/thermofinal.c:155-166 | inside [target - 0.5, target + 0.5] the state never changes |
| HeaterRule.DecideIdempotent | qemuHost/thermofinal.c:155-166 | deciding twice with the same temperatures gives the state deciding once gave |
| HeaterRule.BandExamples | qemuHost/thermofinal.c:155-166 | target 20.0: OFF stays OFF at 19.6 and turns ON at 19.4; ON stays ON at 20.4 and turns OFF at 20.6 |
| HeaterRule.SensorFailureHeats | qemuHost/thermofinal.c:259 | the -999 a failed sensor read returns switches the heater ON for any target above -998.5 |
| Control.Step | qemuHost/thermofinal.c:126-175 | a turn that does not complete leaves the heater as it was |
| Control.ConfigAfter | qemuHost/thermofinal.c:128 | the configuration after `parse_config`: unchanged when the file cannot be opened, otherwise its lines applied in order; `ControlProperties.StepSkips` states a skipped turn keeps it |
| Control.ProgramUrl | qemuHost/thermofinal.c:296 | `snprintf` of the program URL: at most 511 characters, a prefix of `<server>/thermostat/<id>/program`, all of it when it fits |
| Control.StatusUrl | qemuHost/thermofinal.c:320 | the same for the status URL |
| Control.StatusLine | qemuHost/thermofinal.c:275 | `ON : <time>` or `OFF : <time>` and a newline; `ControlProperties.StepCompletes` states a completed turn writes it for the state decided |
| Control.StatusBody | qemuHost/thermofinal.c:321 | the posted body: at most 255 characters, a prefix of `{"current_temp": <%.2f>, "heater_on": <bool>}`, all of it when it fits |
| Control.RunCycles | qemuHost/thermofinal.c:126-175 | the turns run in order: exactly one report per turn |
| ControlProperties.StepCompletes | qemuHost/thermofinal.c:149-172 | helper, one unfolding step used by the other lemmas: a completed turn resolves the target from the payload, applies the hysteresis rule, and writes and posts that state with the configured URLs |
| ControlProperties.StepSkips | qemuHost/thermofinal.c:128-147 | helper, one unfolding step used by the other lemmas: a skipped turn keeps the heater, reloads the configuration, and reports the configuration failure or the failed fetch |
| ControlProperties.SkipPolicy | qemuHost/thermofinal.c:128-147 | a turn completes if and only if the configuration parses and the fetch succeeds. A configuration failure is reported as such whatever the fetch. A skipped turn keeps the heater and sleeps 10 seconds, a completed one 5 |
| ControlProperties.CompletedTurnReportsDecision | qemuHost/thermofinal.c:155-172 | a completed turn writes and posts the state it decided, and that state keeps to the band around the resolved target |
| ControlProperties.SkippedTurnsLeaveNoTrace | qemuHost/thermofinal.c:126-175 | after any run of turns the heater is what the completed turns alone would have made it |
| ControlProperties.ColdRoomExample | qemuHost/thermofinal.c:150-172 | 17.0 degrees, a payload with no points, heater OFF: the target is 20.0, the heater turns ON, the status line says ON, and the body is `{"current_temp": 17.00, "heater_on": true}` |
| ControlProperties.ColdRoomBody | qemuHost/thermofinal.c:321 | the body posted for 17.0 degrees and heater ON is `{"current_temp": 17.00, "heater_on": true}` |
| Daemon.Thermostat.constructor | qemuHost/thermofinal.c:122-123 | a fresh daemon has the heater OFF and an empty configuration |
| Daemon.Thermostat.RunCycle | qemuHost/thermofinal.c:126-175 | one turn of the loop updates `heaterOn` and `config` in place and reports exactly what `Step` gives from the old state |
| Daemon.Thermostat.Run | qemuHost/thermofinal.c:126-175 | any number of turns leave the state and reports `RunCycles` gives |
| Validator.TimeTextMatches | qemuHost/project/source/cloudServer/thermo-serv.py:42 | the `HH:MM` text of every clock time of the day matches the pattern, with or without a final newline |
| Validator.MatchNamesClockTime | qemuHost/project/source/cloudServer/thermo-serv.py:42 | every text the pattern matches names an hour below 24 and a minute below 60 |
| Validator.TimeMatchesIffClockTime | qemuHost/project/source/cloudServer/thermo-serv.py:42 | the pattern matches exactly the `HH:MM` texts of the day's clock times, optionally followed by one newline |
| Validator.TimeExamples | qemuHost/project/source/cloudServer/thermo-serv.py:42 | `7:00`, `24:00`, `12:60`, `07:00 ` and `07:0` are refused; `07:00`, `23:59` and `00:00` plus newline are accepted |
| Validator.TimeMatches | qemuHost/project/source/cloudServer/thermo-serv.py:42 | the `HH:MM` pattern; `Validator.TimeMatchesIffClockTime` states what it matches |
| Validator.CheckEntry | qemuHost/project/source/cloudServer/thermo-serv.py:45-52 | an entry passes its checks exactly when it is an object with both keys, a matching `time` string and a numeric `temp` |
| Validator.FirstFailure | qemuHost/project/source/cloudServer/thermo-serv.py:44-52 | the loop finds no failure exactly when every entry is acceptable |
| Validator.FirstFailingEntryDecides | qemuHost/project/source/cloudServer/thermo-serv.py:44-52 | a failure is the reason of some entry all of whose predecessors are acceptable: the first failing entry decides |
| Validator.Validate | qemuHost/project/source/cloudServer/thermo-serv.py:36-54 | a program is accepted exactly when it is a list of 1 to 3 acceptable entries. A non-list is refused as such. A wrong length is reported before any entry is looked at |
| Validator.IsValidProgram | qemuHost/project/source/cloudServer/thermo-serv.py:29-54 | the verdict is True exactly for well-formed programs; then the message is empty, otherwise it never is |
| Validator.PyStr | qemuHost/project/source/cloudServer/thermo-serv.py:50 | `str()` of a `time` value as shown in the message, for strings, ints, bools and None |
| Validator.Message | qemuHost/project/source/cloudServer/thermo-serv.py:37-52 | the message of each reason; `Validator.RejectedWithMessage` states a refused program carries it |
| Validator.RejectedWithMessage | qemuHost/project/source/cloudServer/thermo-serv.py:36-54 | a program refused for a reason gets `(False, message)`, and a bad string time is shown as written |
| Validator.NonListRejected | qemuHost/project/source/cloudServer/thermo-serv.py:36-37 | any non-list gives `(False, "Program must be a list.")` |
| Validator.LengthCheckedFirst | qemuHost/project/source/cloudServer/thermo-serv.py:38-39 | an empty list or one of four or more entries gives the length message, whatever its entries |
| Validator.DefaultProgramAccepted | qemuHost/project/source/cloudServer/thermo-serv.py:64-66 | the program every thermostat is registered with, 07:00 -> 21.0, is accepted with an empty message |
| Validator.TwoBadEntriesReason | qemuHost/project/source/cloudServer/thermo-serv.py:44-50 | with a good entry, then one timed `24:00`, then a non-object, the reason is the bad time |
| Validator.FirstBadEntryReported | qemuHost/project/source/cloudServer/thermo-serv.py:49-50 | for that program the message is `Invalid time format for '24:00'. Must be HH:MM.` |
| Validator.TempTypeExamples | qemuHost/project/source/cloudServer/thermo-serv.py:51-52 | a bool, an int and a float pass as temperatures; a numeric string and null do not |

## Left out

- Daemonization, signal handling, option parsing, `syslog` and the shutdown path (`qemuHost/thermofinal.c` lines 65-120, 177-198): operating-system process lifecycle with no decision logic.
- libcurl and `write_callback`: network plumbing over a library outside the repository. A fetch is modelled by its outcome, the body or None. A post is modelled by the URL and body it would send. A failed post changes nothing in the loop, and the model gives it no outcome.
- File reads and writes: the configuration file's contents, the temperature read and the status timestamp are parameters. The status file's line is returned, not written.
- `time()` and `localtime()`: the hour and minute are parameters.
- `sleep`: modelled only as the number of seconds each turn would sleep (`Control.PauseAfter`).
- The dead code after `return` at the end of `parse_config` (lines 245-252): it is unreachable.
- IEEE single precision: temperatures, the `%f` conversion and the `+ 0.5`/`- 0.5` comparisons are over `real`. Rounding of `float` is not modelled.
- `%f` forms other than decimal notation: hexadecimal floats, `inf` and `nan` are not read.
- `%d` overflow: values beyond the range of `int` read as unbounded integers. `hour * 60 + minute` cannot wrap.
- NUL characters inside the payload or the configuration file: a C string ends at the first one, and the model's strings contain none.
- `snprintf` of the URLs and the status body is modelled as truncation to the buffer less one byte; its return value is ignored by the code and not modelled.
- `Validator.Message`: `str()` of a float, list or dict `time` value in the message is not rendered; the message is None there. The verdict and the reason are still modelled.
- Python's `\d` also matches non-ASCII decimal digits; the model's pattern accepts ASCII digits only.
- The Flask routes and MongoDB calls of `thermo-serv.py` (lines 57-172): thin wrappers over foreign libraries. Two of their values are modelled: the default program literal of `register_thermostat`, and the `jsonify` text of the program that `GET /thermostat/<id>/program` returns (line 119, `ProgramPayload`).
- ProgramPayload.Payload: one run of white space follows every `,` and `:`; the indented, multi-line layout of a pretty-printing `jsonify` is not modelled.
- ProgramPayload.Entry: an entry holds exactly `temp` and `time`. Extra keys, which the validator lets through, are not modelled. A key sorting before `temp` could hold a `{` or `}` in its value and split the object.
- ProgramPayload.Writable: float temperatures are exact hundredths of at most fifteen significant digits, whose shortest `repr` is the two-decimal text without a trailing zero. Floats with more decimals, binary rounding of `float`, and the exponent form `repr` uses from 1e16 are not modelled.
- Boolean temperatures: the validator accepts them (`Validator.TempTypeExamples`) and `jsonify` writes `true` or `false`, which `%f` cannot read. Such an entry yields no point, by the general `ProgramScanner.FirstTempKeyDecides`; the payload lemmas do not cover them.
- The empty fetch buffer: `chunk.memory` comes from `malloc(1)` (`qemuHost/thermofinal.c` line 141), and only `write_callback` writes its terminating NUL. A successful fetch with an empty body leaves that byte unset. The model takes the payload as a terminated string, the empty string in that case.
- `ProgramScanner.AllPoints`: where the code as written passes NULL to `strchr` (a `{` with no later `}`), the model ends the scan instead; see Findings.

## Findings

| source | as written | input that shows it | evidently intended | confidence | as-written member | corrected member |
|---|---|---|---|---|---|---|
| qemuHost/thermofinal.c:374 | `ptr = end_obj_ptr` runs even when `strchr(ptr, '}')` returned NULL, so the next loop test calls `strchr(NULL, '{')`, which is undefined behaviour (a crash in practice) | a payload cut off inside an object, such as `[{` | stop scanning at a `{` with no closing `}`, keeping the points read so far | high; not executed | ProgramScanner.UnclosedObjectReachesNull | ProgramScanner.AsWrittenAgreesWhenDefined |
