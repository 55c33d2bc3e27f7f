/**
 * The program payload as the cloud server writes it, and what the
 * thermostat's scanner reads back from it.
 *
 * `GET /thermostat/<id>/program` answers with Flask's `jsonify` of the
 * stored list of entries: a JSON array of objects whose keys come out
 * sorted, so `"temp"` precedes `"time"`. The separators `,` and `:` are
 * followed by the same white space `gap` throughout (none in Flask's
 * compact form). A temperature is written as Python writes it: an
 * integer as its digits, a float as its shortest `repr` (`21.0`, `21.5`,
 * `21.25`). The answer ends with the newline `jsonify` appends. The
 * lemmas below show that the scanner recovers every entry,
 * in order, and that an object without a `"temp"` contributes nothing
 * while its neighbours still do.
 */
module ProgramPayload {
  import opened Wrappers
  import opened CString
  import opened ProgramScanner

  /** A stored temperature as `jsonify` finds it: a JSON integer, or a
      float of `cents` hundredths of a degree, below zero when `negative`. */
  datatype Temp = Whole(n: int) | Hundredths(negative: bool, cents: nat)

  /** One stored program entry: `HH:MM` and a temperature. */
  datatype Entry = Entry(hour: nat, minute: nat, temp: Temp)

  /** Floats of at most fifteen significant digits, whose shortest `repr`
      is their two-decimal value with a trailing zero dropped. */
  const MaxCents := 1_000_000_000_000_000

  /** The entries the model writes: `HH` from 00 to 23 and `MM` from 00
      to 59, the times the server's validator lets through, and a float
      temperature of at most fifteen significant digits. */
  predicate Writable(e: Entry) {
    e.hour < 24 && e.minute < 60 && (e.temp.Hundredths? ==> e.temp.cents < MaxCents)
  }

  predicate AllWritable(es: seq<Entry>) {
    forall i :: 0 <= i < |es| ==> Writable(es[i])
  }

  /** White space only, as JSON allows between tokens. */
  predicate Blank(gap: string) {
    forall j :: 0 <= j < |gap| ==> IsSpace(gap[j])
  }

  /** The temperature a stored value stands for. */
  function Degrees(t: Temp): real {
    match t
    case Whole(n) => n as real
    case Hundredths(negative, cents) =>
      if negative then -(cents as real / 100.0) else cents as real / 100.0
  }

  /** The point an entry should become on the thermostat. */
  function PointOf(e: Entry): (p: Point)
    ensures p.hour == e.hour && p.minute == e.minute && p.temp == Degrees(e.temp)
  {
    Point(e.hour, e.minute, Degrees(e.temp))
  }

  function PointsOf(es: seq<Entry>): (ps: seq<Point>)
    ensures |ps| == |es| && forall i :: 0 <= i < |es| ==> ps[i] == PointOf(es[i])
  {
    seq(|es|, i requires 0 <= i < |es| => PointOf(es[i]))
  }

  // ---------------------------------------------------------------------
  // The text of a payload
  // ---------------------------------------------------------------------

  /** The digits of a fraction of `f` hundredths as Python's `repr`
      writes them: one digit when the second is zero, else two. */
  function FractionText(f: nat): (r: string)
    requires f < 100
    ensures 1 <= |r| <= 2 && forall j :: 0 <= j < |r| ==> IsDigit(r[j])
    ensures Scale(DigitsValue(r, 0, |r|) as real, -|r|) == f as real / 100.0
  {
    if f % 10 == 0 then
      var r := [DigitChar(f / 10)];
      assert DigitsValue(r, 0, 1) == f / 10;
      assert Scale((f / 10) as real, -1) == (f / 10) as real / 10.0;
      r
    else
      var r := TwoDigits(f);
      assert DigitsValue(r, 0, 2) == f;
      ScaleHundredth(f as real);
      r
  }

  /** Python's `repr` of a float of `cents` hundredths: the whole part,
      `.` and the fraction without a trailing zero. */
  function FloatText(negative: bool, cents: nat): string {
    (if negative then "-" else "") + DecimalText(cents / 100) + "." + FractionText(cents % 100)
  }

  /** The JSON text of a stored temperature. */
  function TempText(t: Temp): string {
    match t
    case Whole(n) => IntText(n)
    case Hundredths(negative, cents) => FloatText(negative, cents)
  }

  function TempField(gap: string, e: Entry): string {
    TempKey + ":" + gap + TempText(e.temp)
  }

  /** The clock part of the time field, up to the closing quote. */
  function ClockText(gap: string, e: Entry): string
    requires Writable(e)
  {
    TimeKey + ":" + gap + "\"" + TwoDigits(e.hour) + ":" + TwoDigits(e.minute)
  }

  function TimeField(gap: string, e: Entry): string
    requires Writable(e)
  {
    ClockText(gap, e) + "\""
  }

  /** One entry as a JSON object, keys in sorted order. */
  function EntryText(gap: string, e: Entry): string
    requires Writable(e)
  {
    "{" + TempField(gap, e) + "," + gap + TimeField(gap, e) + "}"
  }

  function EntriesText(gap: string, es: seq<Entry>): string
    requires AllWritable(es)
  {
    if |es| == 0 then ""
    else if |es| == 1 then EntryText(gap, es[0])
    else EntryText(gap, es[0]) + "," + gap + EntriesText(gap, es[1..])
  }

  /** The JSON text of the program: an array of the entries. */
  function Payload(gap: string, es: seq<Entry>): string
    requires AllWritable(es)
  {
    "[" + EntriesText(gap, es) + "]"
  }

  /** The body of the answer: `jsonify` ends the JSON text with a
      newline. */
  function Response(gap: string, es: seq<Entry>): string
    requires AllWritable(es)
  {
    Payload(gap, es) + "\n"
  }

  // ---------------------------------------------------------------------
  // Which characters the fields hold
  // ---------------------------------------------------------------------

  lemma BlankLacks(gap: string, c: char)
    requires Blank(gap) && !IsSpace(c)
    ensures c !in gap
  {
    assert forall j :: 0 <= j < |gap| ==> gap[j] != c;
  }

  /** White space holds none of the characters the scanner looks for. */
  lemma GapLacks(gap: string)
    requires Blank(gap)
    ensures '{' !in gap && '}' !in gap && 'i' !in gap && 'p' !in gap
  {
    BlankLacks(gap, '{');
    BlankLacks(gap, '}');
    BlankLacks(gap, 'i');
    BlankLacks(gap, 'p');
  }

  /** The JSON text of a temperature is made of digits, `.` and `-`. */
  lemma TempTextChars(t: Temp)
    ensures var x := TempText(t);
      |x| > 0 && forall j :: 0 <= j < |x| ==> IsDigit(x[j]) || x[j] == '.' || x[j] == '-'
  {
    match t
    case Whole(n) =>
      var d := DecimalText(if n < 0 then -n else n);
      assert IntText(n) == (if n < 0 then "-" else "") + d;
    case Hundredths(negative, cents) =>
      FloatTextLayout(negative, cents);
  }

  lemma TempTextLacks(t: Temp, c: char)
    requires !IsDigit(c) && c != '-' && c != '.'
    ensures c !in TempText(t)
  {
    var x := TempText(t);
    TempTextChars(t);
    assert forall j :: 0 <= j < |x| ==> x[j] != c;
  }

  /** Neither field holds a brace, the temperature field holds no `i`,
      the third character of `"time"`, and the time field no `p`, the
      fifth character of `"temp"`. */
  lemma FieldsLack(gap: string, e: Entry)
    requires Blank(gap) && Writable(e)
    ensures '{' !in TempField(gap, e) && '}' !in TempField(gap, e) && 'i' !in TempField(gap, e)
    ensures '{' !in TimeField(gap, e) && '}' !in TimeField(gap, e) && 'p' !in TimeField(gap, e)
    ensures '}' !in gap && 'i' !in gap
  {
    GapLacks(gap);
    TempTextLacks(e.temp, '{');
    TempTextLacks(e.temp, '}');
    TempTextLacks(e.temp, 'i');
    var hh, mm := TwoDigits(e.hour), TwoDigits(e.minute);
    assert '{' !in hh && '}' !in hh && 'p' !in hh;
    assert '{' !in mm && '}' !in mm && 'p' !in mm;
  }

  // ---------------------------------------------------------------------
  // The temperature text read back by `%f`
  // ---------------------------------------------------------------------

  /** The pieces of a signed number's text, located. */
  lemma SignedParts(s: string, k: nat, digits: string)
    requires k <= 1 && s == (if k == 1 then "-" else "") + digits
    ensures |s| == k + |digits| && (k == 1 ==> s[0] == '-')
    ensures forall i :: k <= i < |s| ==> s[i] == digits[i - k]
  {
  }

  /** The pieces of a float's text, located. */
  lemma FloatLayoutParts(s: string, k: nat, whole: string, tail: string)
    requires k <= 1
    requires s == (if k == 1 then "-" else "") + whole + "." + tail
    ensures |s| == k + |whole| + 1 + |tail| && (k == 1 ==> s[0] == '-')
    ensures forall i :: k <= i < k + |whole| ==> s[i] == whole[i - k]
    ensures s[k + |whole|] == '.'
    ensures forall j :: 0 <= j < |tail| ==> s[k + |whole| + 1 + j] == tail[j]
  {
  }

  /** How the texts of numbers are put together, and what they stand
      for. */
  lemma NumberShapes(negative: bool, cents: nat, n: int)
    ensures FloatText(negative, cents)
         == (if negative then "-" else "") + DecimalText(cents / 100) + "." + FractionText(cents % 100)
    ensures IntText(n) == (if n < 0 then "-" else "") + DecimalText(if n < 0 then -n else n)
    ensures Degrees(Hundredths(negative, cents))
         == if negative then -(cents as real / 100.0) else cents as real / 100.0
  {
  }

  /** The layout of a float's text and the values of its two runs of
      digits. */
  lemma FloatTextLayout(negative: bool, cents: nat)
    ensures var s, k := FloatText(negative, cents), if negative then 1 else 0;
      var dot := k + |DecimalText(cents / 100)|;
      k < dot && dot + 1 < |s| <= dot + 3 && (k == 1 ==> s[0] == '-') &&
      (forall i :: k <= i < dot ==> IsDigit(s[i])) && s[dot] == '.' &&
      (forall i :: dot + 1 <= i < |s| ==> IsDigit(s[i])) &&
      DigitsValue(s, k, dot) == cents / 100 &&
      Scale(DigitsValue(s, dot + 1, |s|) as real, dot + 1 - |s|) == (cents % 100) as real / 100.0
  {
    hide *;
    var whole, tail := DecimalText(cents / 100), FractionText(cents % 100);
    var s := FloatText(negative, cents);
    var k := if negative then 1 else 0;
    NumberShapes(negative, cents, 0);
    FloatLayoutParts(s, k, whole, tail);
    DecimalTextValue(cents / 100);
    DigitsValueLocal(s, whole, k, k + |whole|, k);
    DigitsShift(s, tail, k + |whole| + 1, 0, |tail|);
  }

  /** The layout of an integer's text and the value of its digits. */
  lemma IntTextLayout(n: int)
    ensures var x, k := IntText(n), if n < 0 then 1 else 0;
      k < |x| && (k == 1 ==> x[0] == '-') && (forall j :: k <= j < |x| ==> IsDigit(x[j])) &&
      DigitsValue(x, k, |x|) == (if n < 0 then -n else n)
  {
    hide *;
    var d := DecimalText(if n < 0 then -n else n);
    var x, k := IntText(n), if n < 0 then 1 else 0;
    NumberShapes(false, 0, n);
    SignedParts(x, k, d);
    DecimalTextValue(if n < 0 then -n else n);
    DigitsValueLocal(x, d, k, |x|, k);
  }

  /** `%f` reads a float's text back as its value, where the text stands
      inside a longer string and is followed by a character that ends the
      number. */
  lemma FloatTextReadsBackAt(s: string, i: nat, negative: bool, cents: nat)
    requires var x := FloatText(negative, cents);
      i + |x| <= |s| && s[i..i + |x|] == x && (i + |x| == |s| || EndsNumber(s[i + |x|]))
    ensures ScanReal(s, i) == Some(Degrees(Hundredths(negative, cents)))
  {
    hide *;
    var x := FloatText(negative, cents);
    var k := if negative then 1 else 0;
    var dot := k + |DecimalText(cents / 100)|;
    FloatTextLayout(negative, cents);
    NumberShapes(negative, cents, 0);
    SliceAt(s, i, x);
    DigitsShift(s, x, i, k, dot);
    DigitsShift(s, x, i, dot + 1, |x|);
    ScanDecimal(s, i, i + k, i + dot, i + |x|);
    CentsSplit(cents);
  }

  /** `%f` reads an integer's text back as its value, where it is
      followed by a character that ends the number and is not a `.`. */
  lemma WholeTextReadsBackAt(s: string, i: nat, n: int)
    requires var x := IntText(n);
      i + |x| <= |s| && s[i..i + |x|] == x && (i + |x| == |s| || (EndsNumber(s[i + |x|]) && s[i + |x|] != '.'))
    ensures ScanReal(s, i) == Some(n as real)
  {
    hide *;
    var x := IntText(n);
    var k := if n < 0 then 1 else 0;
    IntTextLayout(n);
    SliceAt(s, i, x);
    DigitsShift(s, x, i, k, |x|);
    ScanDecimal(s, i, i + k, i + |x|, i + |x|);
  }

  /** `%f` reads any temperature's JSON text back as the temperature. */
  lemma TempTextReadsBackAt(s: string, i: nat, t: Temp)
    requires var x := TempText(t);
      i + |x| <= |s| && s[i..i + |x|] == x && (i + |x| == |s| || (EndsNumber(s[i + |x|]) && s[i + |x|] != '.'))
    ensures ScanReal(s, i) == Some(Degrees(t))
  {
    match t
    case Whole(n) => WholeTextReadsBackAt(s, i, n);
    case Hundredths(negative, cents) => FloatTextReadsBackAt(s, i, negative, cents);
  }

  /** The temperature pattern reads the value after `"temp":` and white
      space, whatever form `jsonify` gave it. */
  lemma ScanTempReadsTemp(s: string, m: nat, gap: string, t: Temp)
    requires Blank(gap)
    requires var x := TempKey + ":" + gap + TempText(t);
      m + |x| <= |s| && s[m..m + |x|] == x && (m + |x| == |s| || (EndsNumber(s[m + |x|]) && s[m + |x|] != '.'))
    ensures ScanTemp(s, m) == Some(Degrees(t))
  {
    var c := TempText(t);
    var p := m + 7 + |gap|;
    TempTextChars(t);
    hide TempText, ScanTemp, ScanReal;
    SliceConcat(s, m, TempKey + ":" + gap, c);
    SliceConcat(s, m, TempKey + ":", gap);
    assert s[p] == c[0] by { SliceAt(s, p, c); }
    ScanTempOfPieces(s, m, gap, c);
    TempTextReadsBackAt(s, p, t);
  }

  // ---------------------------------------------------------------------
  // Reading one entry
  // ---------------------------------------------------------------------

  /** Where the pieces of an object `{a,<gap>b}` stand. */
  lemma ObjectParts(s: string, open: nat, a: string, gap: string, b: string)
    requires var x := "{" + a + "," + gap + b + "}";
      open + |x| <= |s| && s[open..open + |x|] == x
    ensures var t := open + 2 + |a| + |gap|;
      t + |b| < |s| && s[open] == '{' && s[open + 1..open + 1 + |a|] == a && s[open + 1 + |a|] == ',' &&
      s[open..t] == "{" + a + "," + gap && s[t..t + |b|] == b &&
      s[open..t + |b|] == "{" + a + "," + gap + b && s[t + |b|] == '}'
  {
    var x1 := "{" + a;
    var x2 := x1 + ",";
    var x3 := x2 + gap;
    var x4 := x3 + b;
    SliceConcat(s, open, x4, "}");
    SliceConcat(s, open, x3, b);
    SliceConcat(s, open, x2, gap);
    SliceConcat(s, open, x1, ",");
    SliceConcat(s, open, "{", a);
    SliceAt(s, open, "{");
    SliceAt(s, open + |x1|, ",");
    SliceAt(s, open + |x4|, "}");
  }

  /** The object's own `{` is the next one from `from`, and its `}` the
      first after that, when neither field holds a brace. */
  lemma ObjectBounds(s: string, from: nat, open: nat, a: string, gap: string, b: string)
    requires '}' !in a && '}' !in gap && '}' !in b
    requires var x := "{" + a + "," + gap + b + "}";
      from <= open && open + |x| <= |s| && s[open..open + |x|] == x && '{' !in s[from..open]
    ensures var close := open + 2 + |a| + |gap| + |b|;
      FindChar(s, from, '{') == Some(open) && FindChar(s, open, '}') == Some(close)
  {
    ObjectParts(s, open, a, gap, b);
    var close := open + 2 + |a| + |gap| + |b|;
    hide FindChar;
    FindCharSkip(s, from, open, '{');
    FindCharHere(s, open, '{');
    FindCharSkip(s, open, close, '}');
    FindCharHere(s, close, '}');
  }

  /** In an object `{a,<gap>b}` with the temperature key at the start of
      `a`, the time key at the start of `b` and no `i` before `b`, both
      keys first occur where the fields begin. */
  lemma KeysFirst(s: string, open: nat, a: string, gap: string, b: string)
    requires 'i' !in a && 'i' !in gap
    requires var x := "{" + a + "," + gap + b + "}";
      open + |x| <= |s| && s[open..open + |x|] == x
    requires Occurs(s, open + 1, TempKey) && Occurs(s, open + 2 + |a| + |gap|, TimeKey)
    ensures FirstOccurrence(s, open, open + 1, TempKey)
    ensures FirstOccurrence(s, open, open + 2 + |a| + |gap|, TimeKey)
  {
    ObjectParts(s, open, a, gap, b);
    var t := open + 2 + |a| + |gap|;
    hide Occurs;
    assert !Occurs(s, open, TempKey) by {
      OccursIffSlice(s, open, TempKey);
      assert s[open..open + 6][0] == s[open];
    }
    assert 'i' !in s[open..t];
    assert s[t] == '"' && s[t + 1] == 't' by {
      OccursIffSlice(s, t, TimeKey);
      assert s[t..t + 6][0] == s[t] && s[t..t + 6][1] == s[t + 1];
    }
    NoOccurrenceBefore(s, open, t, TimeKey, 2);
  }

  /** An entry standing at `open`, with no `{` between `from` and it,
      yields its own point, and the scan resumes at the entry's `}`. */
  lemma EntryYieldsPoint(s: string, from: nat, open: nat, gap: string, e: Entry)
    requires Blank(gap) && Writable(e)
    requires var x := EntryText(gap, e);
      from <= open && open + |x| <= |s| && s[open..open + |x|] == x && '{' !in s[from..open]
    ensures AllPoints(s, from) == [PointOf(e)] + AllPoints(s, open + |EntryText(gap, e)| - 1)
  {
    hide *;
    var x, a, b := EntryText(gap, e), TempField(gap, e), TimeField(gap, e);
    EntryShape(gap, e);
    FieldsLack(gap, e);
    TempReadInEntry(s, open, gap, e);
    TimeReadInEntry(s, open, gap, e);
    ObjectYieldsPoint(s, from, open, x, a, gap, b, e.hour, e.minute, Degrees(e.temp));
  }

  /** How an entry's text is put together. */
  lemma EntryShape(gap: string, e: Entry)
    requires Writable(e)
    ensures EntryText(gap, e) == "{" + TempField(gap, e) + "," + gap + TimeField(gap, e) + "}"
    ensures TempField(gap, e) == TempKey + ":" + gap + TempText(e.temp)
    ensures TimeField(gap, e) == TimeKey + ":" + gap + "\"" + TwoDigits(e.hour) + ":" + TwoDigits(e.minute) + "\""
    ensures e.hour < 100 && e.minute < 100
    ensures PointOf(e) == Point(e.hour, e.minute, Degrees(e.temp))
  {
  }

  /** An object `{a,<gap>b}` whose fields hold no brace, whose `a` and
      white space hold no `i`, and whose keys read `v` and `h:m`, yields
      that point. */
  lemma ObjectYieldsPoint(s: string, from: nat, open: nat, x: string, a: string, gap: string, b: string,
                          h: int, m: int, v: real)
    requires x == "{" + a + "," + gap + b + "}"
    requires from <= open && open + |x| <= |s| && s[open..open + |x|] == x && '{' !in s[from..open]
    requires '}' !in a && '}' !in gap && '}' !in b && 'i' !in a && 'i' !in gap
    requires ScanTemp(s, open + 1) == Some(v) && ScanTime(s, open + 2 + |a| + |gap|) == Some((h, m))
    ensures AllPoints(s, from) == [Point(h, m, v)] + AllPoints(s, open + |x| - 1)
  {
    var t := open + 2 + |a| + |gap|;
    hide AllPoints, ScanTime, ScanTemp;
    OccursPrefix(s, open + 1, TempKey, ":");
    OccursPrefix(s, t, TimeKey, ":");
    ObjectBounds(s, from, open, a, gap, b);
    KeysFirst(s, open, a, gap, b);
    WellFormedSegmentKept(s, from, open, t + |b|, t, open + 1);
  }

  /** `%f` after the temperature key reads the entry's temperature. */
  lemma TempReadInEntry(s: string, open: nat, gap: string, e: Entry)
    requires Blank(gap) && Writable(e)
    requires var x := EntryText(gap, e);
      open + |x| <= |s| && s[open..open + |x|] == x
    ensures ScanTemp(s, open + 1) == Some(Degrees(e.temp))
  {
    hide *;
    EntryShape(gap, e);
    TempReadInObject(s, open, EntryText(gap, e), TempField(gap, e), gap, TimeField(gap, e), e.temp);
  }

  lemma TempReadInObject(s: string, open: nat, x: string, a: string, gap: string, b: string, t: Temp)
    requires Blank(gap) && a == TempKey + ":" + gap + TempText(t)
    requires x == "{" + a + "," + gap + b + "}"
    requires open + |x| <= |s| && s[open..open + |x|] == x
    ensures ScanTemp(s, open + 1) == Some(Degrees(t))
  {
    hide TempText, ScanTemp;
    assert open + 1 + |a| < |s| && s[open + 1..open + 1 + |a|] == a && s[open + 1 + |a|] == ',' by {
      ObjectParts(s, open, a, gap, b);
    }
    ScanTempReadsTemp(s, open + 1, gap, t);
  }

  /** The time pattern after the time key reads the entry's clock time. */
  lemma TimeReadInEntry(s: string, open: nat, gap: string, e: Entry)
    requires Blank(gap) && Writable(e)
    requires var x := EntryText(gap, e);
      open + |x| <= |s| && s[open..open + |x|] == x
    ensures ScanTime(s, open + 2 + |TempField(gap, e)| + |gap|) == Some((e.hour, e.minute))
  {
    hide *;
    EntryShape(gap, e);
    TimeReadInObject(s, open, EntryText(gap, e), TempField(gap, e), gap, TimeField(gap, e), e.hour, e.minute);
  }

  lemma TimeReadInObject(s: string, open: nat, x: string, a: string, gap: string, b: string, h: nat, m: nat)
    requires Blank(gap) && h < 100 && m < 100
    requires b == TimeKey + ":" + gap + "\"" + TwoDigits(h) + ":" + TwoDigits(m) + "\""
    requires x == "{" + a + "," + gap + b + "}"
    requires open + |x| <= |s| && s[open..open + |x|] == x
    ensures ScanTime(s, open + 2 + |a| + |gap|) == Some((h, m))
  {
    var clock := TimeKey + ":" + gap + "\"" + TwoDigits(h) + ":" + TwoDigits(m);
    var t := open + 2 + |a| + |gap|;
    hide TwoDigits, ScanTime;
    assert t + |clock| < |s| && s[t..t + |clock|] == clock && s[t + |clock|] == '"' by {
      ObjectParts(s, open, a, gap, b);
      SliceConcat(s, t, clock, "\"");
      SliceAt(s, t + |clock|, "\"");
    }
    ScanTimeReadsClock(s, t, gap, h, m);
  }

  // ---------------------------------------------------------------------
  // Reading a whole payload
  // ---------------------------------------------------------------------

  /** How the list of entries is put together. */
  lemma EntriesShape(gap: string, es: seq<Entry>)
    requires AllWritable(es)
    ensures |es| == 0 ==> EntriesText(gap, es) == ""
    ensures |es| > 0 ==> Writable(es[0]) && AllWritable(es[1..])
    ensures |es| > 0 ==>
      EntriesText(gap, es) == EntryText(gap, es[0]) + (if |es| == 1 then "" else "," + gap + EntriesText(gap, es[1..]))
    ensures |es| > 0 ==> PointsOf(es) == [PointOf(es[0])] + PointsOf(es[1..])
  {
    if |es| > 0 {
      EntriesCons(gap, es);
      PointsOfCons(es);
    }
  }

  lemma EntriesCons(gap: string, es: seq<Entry>)
    requires AllWritable(es) && |es| > 0
    ensures Writable(es[0]) && AllWritable(es[1..])
    ensures EntriesText(gap, es) == EntryText(gap, es[0]) + (if |es| == 1 then "" else "," + gap + EntriesText(gap, es[1..]))
  {
  }

  lemma PointsOfCons(es: seq<Entry>)
    requires |es| > 0
    ensures PointsOf(es) == [PointOf(es[0])] + PointsOf(es[1..])
  {
    hide *;
    var ps, qs := PointsOf(es), [PointOf(es[0])] + PointsOf(es[1..]);
    assert forall i :: 0 <= i < |ps| ==> ps[i] == qs[i];
  }

  /** Where `lead`, `x` and the rest stand when they make up `s[from..]`. */
  lemma SuffixParts(s: string, from: nat, lead: string, x: string, tail: string)
    requires from <= |s| && s[from..] == lead + x + tail && |x| > 0
    ensures var open := from + |lead|;
      open + |x| <= |s| && s[from..open] == lead && s[open..open + |x|] == x &&
      s[open + |x| - 1..] == [x[|x| - 1]] + tail
  {
    var open := from + |lead|;
    assert s[from..open] == s[from..][..|lead|];
    assert s[open..open + |x|] == s[from..][|lead|..|lead| + |x|];
    assert s[open + |x| - 1..] == s[from..][|lead| + |x| - 1..];
  }

  /** When `s[from..]` is `lead`, the entries and `end`, and neither
      `lead` nor `end` holds a `{`, the scan from `from` yields the
      entries' points, in order. */
  lemma {:induction false} EntriesReadBack(s: string, from: nat, lead: string, gap: string, es: seq<Entry>, end: string)
    requires Blank(gap) && AllWritable(es) && '{' !in end
    requires from <= |s| && s[from..] == lead + EntriesText(gap, es) + end && '{' !in lead
    ensures AllPoints(s, from) == PointsOf(es)
    decreases |es|
  {
    hide *;
    EntriesShape(gap, es);
    if |es| == 0 {
      NothingAfter(s, from, lead, end);
    } else {
      var close, next := FirstEntryRead(s, from, lead, gap, es, end);
      EntriesReadBack(s, close, next, gap, es[1..], end);
    }
  }

  /** When `s[from..]` is `lead` and `end`, with no `{` in either, the
      scan from `from` finds nothing. */
  lemma NothingAfter(s: string, from: nat, lead: string, end: string)
    requires from <= |s| && s[from..] == lead + end && '{' !in lead && '{' !in end
    ensures AllPoints(s, from) == []
  {
    hide *;
    assert '{' !in s[from..|s|] by { assert s[from..|s|] == s[from..]; }
    FindCharSkip(s, from, |s|, '{');
    assert FindChar(s, |s|, '{') == None;
    AllPointsNoOpen(s, from);
  }

  /** The first entry of a list read: its point comes first, and what
      follows its `}` is again a lead without `{`, the other entries and
      `end`. */
  lemma FirstEntryRead(s: string, from: nat, lead: string, gap: string, es: seq<Entry>, end: string)
      returns (close: nat, next: string)
    requires Blank(gap) && AllWritable(es) && |es| > 0
    requires from <= |s| && s[from..] == lead + EntriesText(gap, es) + end && '{' !in lead
    ensures AllWritable(es[1..])
    ensures from <= close <= |s| && s[close..] == next + EntriesText(gap, es[1..]) + end && '{' !in next
    ensures AllPoints(s, from) == [PointOf(es[0])] + AllPoints(s, close)
  {
    hide *;
    GapLacks(gap);
    EntriesShape(gap, es);
    EntriesShape(gap, es[1..]);
    EntryShape(gap, es[0]);
    var x := EntryText(gap, es[0]);
    var rest := EntriesText(gap, es[1..]);
    var tail := if |es| == 1 then "" else "," + gap + rest;
    next := if |es| == 1 then "}" else "}" + "," + gap;
    close := EntryAfterLead(s, from, lead, gap, es[0], tail + end);
    NextLead(s, close, tail, next, rest, |es| == 1, gap, end);
  }

  /** An entry after a lead without `{`: its point comes first, and the
      scan resumes at its `}`. */
  lemma EntryAfterLead(s: string, from: nat, lead: string, gap: string, e: Entry, after: string)
      returns (close: nat)
    requires Blank(gap) && Writable(e) && '{' !in lead
    requires from <= |s| && s[from..] == lead + EntryText(gap, e) + after
    ensures from <= close < |s| && s[close..] == ['}'] + after
    ensures AllPoints(s, from) == [PointOf(e)] + AllPoints(s, close)
  {
    hide *;
    EntryShape(gap, e);
    var x := EntryText(gap, e);
    SuffixParts(s, from, lead, x, after);
    var open := from + |lead|;
    close := open + |x| - 1;
    EntryYieldsPoint(s, from, open, gap, e);
    assert x[|x| - 1] == '}';
  }

  /** What follows an entry's `}`, regrouped as the next lead. */
  lemma NextLead(s: string, close: nat, tail: string, next: string, rest: string, last: bool, gap: string, end: string)
    requires close < |s| && s[close..] == ['}'] + (tail + end)
    requires tail == (if last then "" else "," + gap + rest)
    requires next == (if last then "}" else "}" + "," + gap)
    requires last ==> rest == ""
    ensures s[close..] == next + rest + end
  {
    if last {
      assert ['}'] + (tail + end) == next + rest + end;
    } else {
      calc {
        ['}'] + (tail + end);
        ['}'] + ((("," + gap) + rest) + end);
        ((['}'] + ",") + gap) + rest + end;
      }
    }
  }

  /** The scanner reads back every entry of the answer, in order, and
      keeps the first MaxPoints of them; a program of at most MaxPoints
      entries arrives whole. The same holds for the JSON text without its
      final newline. */
  lemma PayloadReadBack(gap: string, es: seq<Entry>)
    requires Blank(gap) && AllWritable(es)
    ensures AllPoints(Response(gap, es), 0) == PointsOf(es)
    ensures Scan(Response(gap, es)) == Take(PointsOf(es), MaxPoints)
    ensures |es| <= MaxPoints ==> Scan(Response(gap, es)) == PointsOf(es)
    ensures Scan(Payload(gap, es)) == Take(PointsOf(es), MaxPoints)
  {
    var s, t := Payload(gap, es), Response(gap, es);
    assert s[0..] == "[" + EntriesText(gap, es) + "]";
    EntriesReadBack(s, 0, "[", gap, es, "]");
    assert t[0..] == "[" + EntriesText(gap, es) + "]\n";
    EntriesReadBack(t, 0, "[", gap, es, "]\n");
  }

  // ---------------------------------------------------------------------
  // An object without a temperature
  // ---------------------------------------------------------------------

  /** An object holding only a time field, with no `{` between `from` and
      it, yields nothing: `"temp"` does not occur before its `}`, and the
      scan resumes there. */
  lemma TimeOnlyObjectSkipped(s: string, from: nat, open: nat, gap: string, f: Entry)
    requires Blank(gap) && Writable(f)
    requires var y := "{" + TimeField(gap, f) + "}";
      from <= open && open + |y| <= |s| && s[open..open + |y|] == y && '{' !in s[from..open]
    ensures AllPoints(s, from) == AllPoints(s, open + |TimeField(gap, f)| + 1)
  {
    FieldsLack(gap, f);
    var b := TimeField(gap, f);
    hide *;
    KeyLetters();
    var close := open + 1 + |b|;
    BareObjectParts(s, open, b);
    FindCharSkip(s, from, open, '{');
    FindCharHere(s, open, '{');
    FindCharSkip(s, open, close, '}');
    FindCharHere(s, close, '}');
    assert TempKey[4] == 'p' && s[close] !in TempKey;
    NoOccurrenceWithin(s, open, close, TempKey, 4);
    SegmentWithoutKeySkipped(s, from, open, close, TempKey);
  }

  /** The letters of the keys that tell them apart from the rest. */
  lemma KeyLetters()
    ensures TempKey[4] == 'p' && '}' !in TempKey
  {
  }

  /** Where the pieces of an object `{b}` stand. */
  lemma BareObjectParts(s: string, open: nat, b: string)
    requires var y := "{" + b + "}";
      open + |y| <= |s| && s[open..open + |y|] == y
    ensures s[open] == '{' && s[open..open + 1 + |b|] == "{" + b && s[open + 1 + |b|] == '}'
  {
    SliceConcat(s, open, "{" + b, "}");
    SliceAt(s, open, "{" + b + "}");
  }

  /** A payload of a complete entry followed by an object without a
      temperature: the scan yields the first entry's point alone. */
  lemma EntryThenTimeOnly(gap: string, e: Entry, f: Entry)
    requires Blank(gap) && Writable(e) && Writable(f)
    ensures Scan("[" + EntryText(gap, e) + "," + gap + "{" + TimeField(gap, f) + "}" + "]") == [PointOf(e)]
  {
    hide *;
    var x, b := EntryText(gap, e), TimeField(gap, f);
    var s := "[" + x + "," + gap + "{" + b + "}" + "]";
    var after := "," + gap + "{" + b + "}" + "]";
    assert s[0..] == "[" + x + after;
    var c1 := EntryAfterLead(s, 0, "[", gap, e, after);
    GapLacks(gap);
    assert s[c1..] == "}" + "," + gap + "{" + b + "}" + "]";
    var c2 := TimeOnlyAfterLead(s, c1, "}" + "," + gap, gap, f, "]");
    NothingAfter(s, c2, "}", "]");
    ScanOfOne(s, PointOf(e));
  }

  lemma ScanOfOne(s: string, p: Point)
    requires AllPoints(s, 0) == [p]
    ensures Scan(s) == [p]
  {
    ScanKeepsFirstThree(s);
  }

  /** An object with only a time field after a lead without `{` yields
      nothing, and the scan resumes at its `}`. */
  lemma TimeOnlyAfterLead(s: string, from: nat, lead: string, gap: string, f: Entry, after: string)
      returns (close: nat)
    requires Blank(gap) && Writable(f) && '{' !in lead
    requires from <= |s| && s[from..] == lead + "{" + TimeField(gap, f) + "}" + after
    ensures from <= close < |s| && s[close..] == "}" + after
    ensures AllPoints(s, from) == AllPoints(s, close)
  {
    hide *;
    var y := "{" + TimeField(gap, f) + "}";
    assert s[from..] == lead + y + after;
    SuffixParts(s, from, lead, y, after);
    var open := from + |lead|;
    close := open + |y| - 1;
    TimeOnlyObjectSkipped(s, from, open, gap, f);
  }

  /** The same with one space after each separator: the entry for 07:00
      at 21.5 degrees is kept, the object for 22:30 that lacks a
      temperature is passed over. */
  lemma EntryThenTimeOnlyExample()
    ensures Scan("[" + EntryText(" ", Entry(7, 0, Hundredths(false, 2150))) + "," + " " + "{"
                 + TimeField(" ", Entry(22, 30, Whole(0))) + "}" + "]") == [Point(7, 0, 21.5)]
  {
    EntryThenTimeOnly(" ", Entry(7, 0, Hundredths(false, 2150)), Entry(22, 30, Whole(0)));
  }

  /** `jsonify` writes 21.0 as `21.0`, 21.5 as `21.5`, -5.25 as `-5.25`
      and the integer 21 as `21`. */
  lemma TempTextExamples()
    ensures TempText(Hundredths(false, 2100)) == "21.0"
    ensures TempText(Hundredths(false, 2150)) == "21.5"
    ensures TempText(Hundredths(true, 525)) == "-5.25"
    ensures TempText(Whole(21)) == "21"
  {
    assert DecimalText(21) == "21" by { assert DecimalText(2) == "2"; }
    assert DecimalText(5) == "5";
    assert FractionText(0) == "0" && FractionText(50) == "5" && FractionText(25) == "25";
    NumberShapes(false, 2100, 21);
    NumberShapes(false, 2150, 21);
    NumberShapes(true, 525, 21);
  }
}
