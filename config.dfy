/**
  `parse_config` in qemuHost/thermofinal.c: read the configuration file
  line by line with `fgets`, split each line with
  `sscanf(line, "%255[^=]=%255s", key, value)`, copy the value of each of
  the four known keys into the matching `AppConfig` field with `strncpy`,
  and succeed when all four keys were seen.

  The file is a parameter: None when `fopen` fails, otherwise its
  contents (without NUL characters).
*/
module Config {
  import opened Wrappers
  import opened CString

  /** `char line[512]`: `fgets` stores at most 511 characters and the NUL. */
  const LineCapacity: nat := 511

  /** The width of both conversions of the `sscanf` format. */
  const ScanWidth: nat := 255

  /** The four keys `parse_config` knows, and the fields they fill. */
  datatype Key = ServerUrl | ThermostatId | TempFile | StatusFile

  /** The text a key must equal, under `strcmp`. */
  function KeyName(k: Key): string {
    match k
    case ServerUrl => "SERVER_URL"
    case ThermostatId => "THERMOSTAT_ID"
    case TempFile => "TEMP_FILE"
    case StatusFile => "STATUS_FILE"
  }

  /** `sizeof` the field of `AppConfig` that a key fills. */
  function FieldSize(k: Key): nat {
    match k
    case ServerUrl => 256
    case ThermostatId => 64
    case TempFile => 256
    case StatusFile => 256
  }

  /** The `strcmp` chain: which field, if any, a scanned key names. */
  function KeyOf(name: string): (r: Option<Key>)
    ensures r.Some? ==> KeyName(r.value) == name
    ensures r.None? ==> forall k: Key :: KeyName(k) != name
  {
    if name == "SERVER_URL" then Some(ServerUrl)
    else if name == "THERMOSTAT_ID" then Some(ThermostatId)
    else if name == "TEMP_FILE" then Some(TempFile)
    else if name == "STATUS_FILE" then Some(StatusFile)
    else None
  }

  /** The C strings held by the four fields of an `AppConfig`. */
  datatype Settings = Settings(serverUrl: string, thermostatId: string, tempFilePath: string, statusFilePath: string)

  function Field(s: Settings, k: Key): string {
    match k
    case ServerUrl => s.serverUrl
    case ThermostatId => s.thermostatId
    case TempFile => s.tempFilePath
    case StatusFile => s.statusFilePath
  }

  /** `strncpy(field, value, sizeof(field) - 1)` for the field of `k`: the
      field then holds at most `sizeof(field) - 1` characters of `value`,
      and the other fields keep what they held. */
  function Store(s: Settings, k: Key, value: string): (r: Settings)
    ensures Field(r, k) == StrNCopy(value, FieldSize(k) - 1)
    ensures forall other: Key :: other != k ==> Field(r, other) == Field(s, other)
  {
    var copied := StrNCopy(value, FieldSize(k) - 1);
    match k
    case ServerUrl => s.(serverUrl := copied)
    case ThermostatId => s.(thermostatId := copied)
    case TempFile => s.(tempFilePath := copied)
    case StatusFile => s.(statusFilePath := copied)
  }

  /** `AppConfig`, filled in place by `parse_config`. */
  class AppConfig {
    var serverUrl: string
    var thermostatId: string
    var tempFilePath: string
    var statusFilePath: string

    /** `AppConfig config = {0}`: every field the empty string. */
    constructor ()
      ensures Snapshot() == Settings("", "", "", "")
    {
      serverUrl, thermostatId, tempFilePath, statusFilePath := "", "", "", "";
    }

    function Snapshot(): Settings
      reads this
    {
      Settings(serverUrl, thermostatId, tempFilePath, statusFilePath)
    }
  }

  // ---------------------------------------------------------------------
  // Reading lines with fgets
  // ---------------------------------------------------------------------

  /** Where the chunk `fgets(line, 512, file)` reads from `pos` ends: after
      the first newline, after 511 characters, or at the end of the file,
      whichever comes first. */
  function LineEnd(content: string, pos: nat): (e: nat)
    requires pos < |content|
    ensures pos < e <= |content| && e - pos <= LineCapacity
    ensures forall k :: pos <= k < e - 1 ==> content[k] != '\n'
    ensures e < |content| ==> content[e - 1] == '\n' || e - pos == LineCapacity
    decreases |content| - pos
  {
    LineEndFrom(content, pos, pos)
  }

  function LineEndFrom(content: string, pos: nat, k: nat): (e: nat)
    requires pos <= k < |content| && k - pos < LineCapacity
    requires forall j :: pos <= j < k ==> content[j] != '\n'
    ensures k < e <= |content| && e - pos <= LineCapacity
    ensures forall j :: pos <= j < e - 1 ==> content[j] != '\n'
    ensures e < |content| ==> content[e - 1] == '\n' || e - pos == LineCapacity
    decreases |content| - k
  {
    if content[k] == '\n' || k + 1 == |content| || k + 1 - pos == LineCapacity then k + 1
    else LineEndFrom(content, pos, k + 1)
  }

  /** The successive chunks the `while (fgets(...))` loop reads from `pos`. */
  function Lines(content: string, pos: nat): (r: seq<string>)
    requires pos <= |content|
    ensures forall i :: 0 <= i < |r| ==> 1 <= |r[i]| <= LineCapacity
    decreases |content| - pos
  {
    if pos == |content| then []
    else
      var e := LineEnd(content, pos);
      [content[pos..e]] + Lines(content, e)
  }

  function Concat(lines: seq<string>): string {
    if lines == [] then "" else lines[0] + Concat(lines[1..])
  }

  /** Reading line by line loses nothing and invents nothing: the chunks
      put back together are the file. */
  lemma {:induction false} LinesCoverFile(content: string, pos: nat)
    requires pos <= |content|
    ensures Concat(Lines(content, pos)) == content[pos..]
    decreases |content| - pos
  {
    if pos < |content| {
      var e := LineEnd(content, pos);
      LinesCoverFile(content, e);
      var ls := Lines(content, pos);
      assert ls[0] == content[pos..e] && ls[1..] == Lines(content, e);
      assert content[pos..] == content[pos..e] + content[e..];
    }
  }

  // ---------------------------------------------------------------------
  // Splitting a line with sscanf
  // ---------------------------------------------------------------------

  /** The end of the `%255[^=]` conversion from `i`: characters other than
      `=`, at most 255 of them. */
  function KeySpanEnd(line: string, i: nat): (e: nat)
    requires i <= |line|
    ensures i <= e <= |line| && e - i <= ScanWidth
    ensures forall k :: i <= k < e ==> line[k] != '='
    ensures e < |line| && e - i < ScanWidth ==> line[e] == '='
    decreases |line| - i
  {
    KeySpanFrom(line, i, i)
  }

  function KeySpanFrom(line: string, i: nat, k: nat): (e: nat)
    requires i <= k <= |line| && k - i <= ScanWidth
    requires forall j :: i <= j < k ==> line[j] != '='
    ensures k <= e <= |line| && e - i <= ScanWidth
    ensures forall j :: i <= j < e ==> line[j] != '='
    ensures e < |line| && e - i < ScanWidth ==> line[e] == '='
    decreases |line| - k
  {
    if k == |line| || k - i == ScanWidth || line[k] == '=' then k
    else KeySpanFrom(line, i, k + 1)
  }

  /** The end of the `%255s` conversion from `i` (white space already
      skipped): non-white characters, at most 255 of them. */
  function WordEnd(line: string, i: nat): (e: nat)
    requires i <= |line|
    ensures i <= e <= |line| && e - i <= ScanWidth
    ensures forall k :: i <= k < e ==> !IsSpace(line[k])
    ensures e < |line| && e - i < ScanWidth ==> IsSpace(line[e])
    decreases |line| - i
  {
    WordFrom(line, i, i)
  }

  function WordFrom(line: string, i: nat, k: nat): (e: nat)
    requires i <= k <= |line| && k - i <= ScanWidth
    requires forall j :: i <= j < k ==> !IsSpace(line[j])
    ensures k <= e <= |line| && e - i <= ScanWidth
    ensures forall j :: i <= j < e ==> !IsSpace(line[j])
    ensures e < |line| && e - i < ScanWidth ==> IsSpace(line[e])
    decreases |line| - k
  {
    if k == |line| || k - i == ScanWidth || IsSpace(line[k]) then k
    else WordFrom(line, i, k + 1)
  }

  /** `sscanf(line, "%255[^=]=%255s", key, value) == 2`: the key is the
      (non-empty) text before the first `=`, the value the first word
      after it and the white space that follows the `=`, cut to 255
      characters; None when fewer than two conversions succeed. */
  function ScanConfigLine(line: string): (r: Option<(string, string)>)
    ensures r.Some? ==> var (key, value) := r.value;
      1 <= |key| <= ScanWidth && |key| < |line| && line[..|key|] == key && line[|key|] == '=' &&
      (forall k :: 0 <= k < |key| ==> key[k] != '=') &&
      1 <= |value| <= ScanWidth && (forall k :: 0 <= k < |value| ==> !IsSpace(value[k])) &&
      exists vs :: ValueAt(line, |key|, vs, value)
  {
    var ke := KeySpanEnd(line, 0);
    if ke == 0 || ke == |line| || line[ke] != '=' then None
    else
      var vs := SkipSpace(line, ke + 1);
      var ve := WordEnd(line, vs);
      if ve == vs then None
      else
        assert ValueAt(line, ke, vs, line[vs..ve]);
        Some((line[..ke], line[vs..ve]))
  }

  /** `value` stands at `vs`, after the `=` at `eq` and nothing but white
      space, and ends where the line, white space or the 255-character
      limit ends it. */
  predicate ValueAt(line: string, eq: nat, vs: nat, value: string) {
    eq < vs && vs + |value| <= |line| &&
    (forall k :: eq < k < vs ==> IsSpace(line[k])) &&
    line[vs..vs + |value|] == value &&
    (vs + |value| == |line| || |value| == ScanWidth || IsSpace(line[vs + |value|]))
  }

  lemma KeySpanEndAt(line: string, e: nat)
    requires e < |line| && e <= ScanWidth && line[e] == '='
    requires forall k :: 0 <= k < e ==> line[k] != '='
    ensures KeySpanEnd(line, 0) == e
  {
  }

  lemma WordEndAt(line: string, i: nat, e: nat)
    requires i <= e <= |line| && e - i <= ScanWidth && forall k :: i <= k < e ==> !IsSpace(line[k])
    requires e == |line| || IsSpace(line[e])
    ensures WordEnd(line, i) == e
  {
  }

  /** A line `KEY=VALUE`, with white space allowed before the value and
      white space (such as the newline) after it, splits into exactly that
      key and value. */
  lemma ConfigLineRoundTrip(key: string, gap: string, value: string, tail: string)
    requires 1 <= |key| <= ScanWidth && forall k :: 0 <= k < |key| ==> key[k] != '='
    requires forall k :: 0 <= k < |gap| ==> IsSpace(gap[k])
    requires 1 <= |value| <= ScanWidth && forall k :: 0 <= k < |value| ==> !IsSpace(value[k])
    requires tail == [] || IsSpace(tail[0])
    ensures ScanConfigLine(key + "=" + gap + value + tail) == Some((key, value))
  {
    var line := key + "=" + gap + value + tail;
    var vs := |key| + 1 + |gap|;
    var ve := vs + |value|;
    assert line[..|key|] == key && line[|key|] == '=';
    assert line[|key| + 1..vs] == gap && line[vs..ve] == value && line[ve..] == tail;
    KeySpanEndAt(line, |key|);
    SkipSpaceTo(line, |key| + 1, vs);
    WordEndAt(line, vs, ve);
  }

  /** A value word longer than 255 characters is cut to its first 255,
      whatever follows it. */
  lemma ConfigLineLongValue(key: string, gap: string, word: string, tail: string)
    requires 1 <= |key| <= ScanWidth && forall k :: 0 <= k < |key| ==> key[k] != '='
    requires forall k :: 0 <= k < |gap| ==> IsSpace(gap[k])
    requires |word| > ScanWidth && forall k :: 0 <= k < |word| ==> !IsSpace(word[k])
    ensures ScanConfigLine(key + "=" + gap + word + tail) == Some((key, word[..ScanWidth]))
  {
    var line := key + "=" + gap + word + tail;
    var vs := |key| + 1 + |gap|;
    var ve := vs + ScanWidth;
    assert line[..|key|] == key && line[|key|] == '=';
    assert line[|key| + 1..vs] == gap && line[vs..vs + |word|] == word;
    assert line[vs..ve] == word[..ScanWidth];
    KeySpanEndAt(line, |key|);
    SkipSpaceTo(line, |key| + 1, vs);
    WordEndFull(line, vs);
  }

  /** `%255s` stops after 255 non-white characters. */
  lemma WordEndFull(line: string, i: nat)
    requires i + ScanWidth <= |line| && forall k :: i <= k < i + ScanWidth ==> !IsSpace(line[k])
    ensures WordEnd(line, i) == i + ScanWidth
  {
  }

  /** A line with no `=` in it is ignored. */
  lemma LineWithoutEqualsIgnored(line: string)
    requires forall k :: 0 <= k < |line| ==> line[k] != '='
    ensures ScanConfigLine(line) == None
  {
  }

  /** A key with nothing but white space after its `=` is ignored: `%s`
      reaches the end of the line. */
  lemma EmptyValueIgnored(key: string, rest: string)
    requires forall k :: 0 <= k < |key| ==> key[k] != '='
    requires forall k :: 0 <= k < |rest| ==> IsSpace(rest[k])
    ensures ScanConfigLine(key + "=" + rest) == None
  {
    var line := key + "=" + rest;
    assert forall k :: 0 <= k < |key| ==> line[k] == key[k];
    assert forall k :: 0 <= k < |rest| ==> line[|key| + 1 + k] == rest[k];
    var ke := KeySpanEnd(line, 0);
    if ke == |key| && 0 < ke {
      assert SkipSpace(line, ke + 1) == |line|;
    }
  }

  // ---------------------------------------------------------------------
  // What the lines do to the configuration
  // ---------------------------------------------------------------------

  /** The effect of one line: a known key overwrites its field. */
  function ApplyLine(s: Settings, line: string): Settings {
    match ScanConfigLine(line)
    case None => s
    case Some((name, value)) =>
      match KeyOf(name)
      case None => s
      case Some(k) => Store(s, k, value)
  }

  /** The effect of the lines, in file order. */
  function ApplyLines(s: Settings, lines: seq<string>): Settings
    decreases |lines|
  {
    if lines == [] then s
    else ApplyLine(ApplyLines(s, lines[..|lines| - 1]), lines[|lines| - 1])
  }

  /** The value of the last line that sets `k`, if any line does. */
  function LastValue(lines: seq<string>, k: Key): Option<string>
    decreases |lines|
  {
    if lines == [] then None
    else match ScanConfigLine(lines[|lines| - 1])
      case Some((name, value)) =>
        if name == KeyName(k) then Some(value) else LastValue(lines[..|lines| - 1], k)
      case None => LastValue(lines[..|lines| - 1], k)
  }

  /** One more line: its effect on the fields, and the keys now seen. */
  lemma LineEffect(s: Settings, lines: seq<string>, line: string)
    ensures ApplyLines(s, lines + [line]) == ApplyLine(ApplyLines(s, lines), line)
    ensures forall k: Key :: LastValue(lines + [line], k).Some? == (KeySet(line) == Some(k) || LastValue(lines, k).Some?)
  {
    assert (lines + [line])[..|lines|] == lines;
    forall k: Key ensures LastValue(lines + [line], k).Some? == (KeySet(line) == Some(k) || LastValue(lines, k).Some?) {
      match ScanConfigLine(line)
      case None =>
      case Some((name, value)) =>
        if name == KeyName(k) {
          assert KeyOf(name) == Some(k);
        }
    }
  }

  /** Every key was seen: what makes `parse_config` return 0. */
  predicate AllKeysSeen(lines: seq<string>) {
    forall k: Key :: LastValue(lines, k).Some?
  }

  lemma AllKeysSeenByName(lines: seq<string>)
    ensures AllKeysSeen(lines) <==>
      LastValue(lines, ServerUrl).Some? && LastValue(lines, ThermostatId).Some? &&
      LastValue(lines, TempFile).Some? && LastValue(lines, StatusFile).Some?
  {
    if LastValue(lines, ServerUrl).Some? && LastValue(lines, ThermostatId).Some? &&
       LastValue(lines, TempFile).Some? && LastValue(lines, StatusFile).Some? {
      forall k: Key ensures LastValue(lines, k).Some? {
        match k
        case ServerUrl =>
        case ThermostatId =>
        case TempFile =>
        case StatusFile =>
      }
    }
  }

  /** One call of `fgets` from `pos` moves one line from the lines still
      to read to the lines read. */
  lemma LinesStep(content: string, pos: nat, read: seq<string>)
    requires pos < |content| && read + Lines(content, pos) == Lines(content, 0)
    ensures (read + [content[pos..LineEnd(content, pos)]]) + Lines(content, LineEnd(content, pos)) == Lines(content, 0)
  {
    var e := LineEnd(content, pos);
    assert Lines(content, pos) == [content[pos..e]] + Lines(content, e);
    assert read + ([content[pos..e]] + Lines(content, e)) == (read + [content[pos..e]]) + Lines(content, e);
  }

  /** A later line overrides an earlier one: each field ends up holding the
      truncated value of the last line that sets its key, and keeps what it
      held before when no line sets it. */
  lemma {:induction false} LastLineWins(s: Settings, lines: seq<string>, k: Key)
    ensures Field(ApplyLines(s, lines), k)
         == match LastValue(lines, k)
            case Some(v) => StrNCopy(v, FieldSize(k) - 1)
            case None => Field(s, k)
    decreases |lines|
  {
    if lines != [] {
      var init, last := lines[..|lines| - 1], lines[|lines| - 1];
      LastLineWins(s, init, k);
      match ScanConfigLine(last)
      case None =>
      case Some((name, value)) =>
        match KeyOf(name)
        case None =>
        case Some(k') =>
          if k' == k {
            assert KeyName(k) == name;
          } else {
            assert KeyName(k) != name by {
              assert KeyName(k') == name;
            }
          }
    }
  }

  /** The thermostat id keeps at most 63 characters of its value. */
  lemma ThermostatIdTruncated(s: Settings, lines: seq<string>)
    requires LastValue(lines, ThermostatId).Some?
    ensures var id := ApplyLines(s, lines).thermostatId;
      var v := LastValue(lines, ThermostatId).value;
      |id| == (if |v| < 63 then |v| else 63) && id == v[..|id|]
  {
    LastLineWins(s, lines, ThermostatId);
  }

  /** The key a line sets, if it sets one of the four. */
  function KeySet(line: string): Option<Key> {
    match ScanConfigLine(line)
    case Some((name, _)) => KeyOf(name)
    case None => None
  }

  /** The body of the `fgets` loop for one line: scan it and, for a known
      key, copy the value into its field and raise that key's flag. */
  method ReadConfigLine(config: AppConfig, line: string, foundUrl: bool, foundId: bool, foundTempPath: bool, foundStatusPath: bool)
    returns (foundUrl': bool, foundId': bool, foundTempPath': bool, foundStatusPath': bool)
    modifies config
    ensures config.Snapshot() == ApplyLine(old(config.Snapshot()), line)
    ensures foundUrl' == (foundUrl || KeySet(line) == Some(ServerUrl))
    ensures foundId' == (foundId || KeySet(line) == Some(ThermostatId))
    ensures foundTempPath' == (foundTempPath || KeySet(line) == Some(TempFile))
    ensures foundStatusPath' == (foundStatusPath || KeySet(line) == Some(StatusFile))
  {
    foundUrl', foundId', foundTempPath', foundStatusPath' := foundUrl, foundId, foundTempPath, foundStatusPath;
    var scanned := ScanConfigLine(line);
    if scanned.Some? {
      var (key, value) := scanned.value;
      if key == "SERVER_URL" {
        config.serverUrl := StrNCopy(value, FieldSize(ServerUrl) - 1);
        foundUrl' := true;
      } else if key == "THERMOSTAT_ID" {
        config.thermostatId := StrNCopy(value, FieldSize(ThermostatId) - 1);
        foundId' := true;
      } else if key == "TEMP_FILE" {
        config.tempFilePath := StrNCopy(value, FieldSize(TempFile) - 1);
        foundTempPath' := true;
      } else if key == "STATUS_FILE" {
        config.statusFilePath := StrNCopy(value, FieldSize(StatusFile) - 1);
        foundStatusPath' := true;
      }
    }
  }

  /** `parse_config(filename, config)`: None for a file `fopen` cannot
      open. Returns 0 or -1; fields are written as their keys are met,
      so a failing parse still leaves the fields it saw updated. */
  method ParseConfig(file: Option<string>, config: AppConfig) returns (status: int)
    modifies config
    ensures file.None? ==> config.Snapshot() == old(config.Snapshot())
    ensures file.Some? ==> config.Snapshot() == ApplyLines(old(config.Snapshot()), Lines(file.value, 0))
    ensures status == 0 || status == -1
    ensures status == 0 <==> file.Some? && AllKeysSeen(Lines(file.value, 0))
  {
    if file.None? {
      return -1;
    }
    var content := file.value;
    ghost var initial := config.Snapshot();
    var foundUrl, foundId, foundTempPath, foundStatusPath := false, false, false, false;
    var pos := 0;
    ghost var consumed: seq<string> := [];
    while pos < |content|
      invariant pos <= |content|
      invariant consumed + Lines(content, pos) == Lines(content, 0)
      invariant config.Snapshot() == ApplyLines(initial, consumed)
      invariant foundUrl == LastValue(consumed, ServerUrl).Some?
      invariant foundId == LastValue(consumed, ThermostatId).Some?
      invariant foundTempPath == LastValue(consumed, TempFile).Some?
      invariant foundStatusPath == LastValue(consumed, StatusFile).Some?
      decreases |content| - pos
    {
      var e := LineEnd(content, pos);
      var line := content[pos..e];
      LinesStep(content, pos, consumed);
      foundUrl, foundId, foundTempPath, foundStatusPath :=
        ReadConfigLine(config, line, foundUrl, foundId, foundTempPath, foundStatusPath);
      LineEffect(initial, consumed, line);
      consumed := consumed + [line];
      pos := e;
    }
    assert consumed == Lines(content, 0);
    AllKeysSeenByName(consumed);
    if foundUrl && foundId && foundTempPath && foundStatusPath {
      status := 0;
    } else {
      status := -1;
    }
  }
}
