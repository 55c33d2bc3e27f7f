/**
  The C library routines the thermostat client leans on, over strings
  modelled as the characters before the terminating NUL: `strchr`,
  `strstr`, `strncpy`, `isspace`, the `%d` and `%f` conversions of
  `sscanf`, and the text `printf` writes for `%ld` and `%.2f`. Each is
  stated with the contract the C library gives it, and each printed text
  is proved to read back under the matching `sscanf` conversion.
*/
module CString {
  import opened Wrappers

  /** `strchr(s + from, c)`: the first index at or after `from` holding `c`. */
  function FindChar(s: string, from: nat, c: char): (r: Option<nat>)
    requires from <= |s|
    ensures r.Some? ==> from <= r.value < |s| && s[r.value] == c
    ensures forall k :: from <= k < |s| && (r.None? || k < r.value) ==> s[k] != c
    decreases |s| - from
  {
    if from == |s| then None
    else if s[from] == c then Some(from)
    else FindChar(s, from + 1, c)
  }

  /** `pat` occurs in `s` starting at index `k`. */
  predicate Occurs(s: string, k: nat, pat: string)
    ensures Occurs(s, k, pat) ==> k + |pat| <= |s|
  {
    MatchesFrom(s, k, pat, 0)
  }

  /** The characters of `pat` from index `j` on stand in `s` from `k + j` on. */
  predicate MatchesFrom(s: string, k: nat, pat: string, j: nat)
    requires j <= |pat|
    ensures MatchesFrom(s, k, pat, j) ==> k + |pat| <= |s|
    decreases |pat| - j
  {
    if j == |pat| then k + j <= |s|
    else k + j < |s| && s[k + j] == pat[j] && MatchesFrom(s, k, pat, j + 1)
  }

  /** `strchr` passes over a stretch that does not hold `c`. */
  lemma FindCharSkip(s: string, from: nat, k: nat, c: char)
    requires from <= k <= |s| && c !in s[from..k]
    ensures FindChar(s, from, c) == FindChar(s, k, c)
  {
    assert forall j :: from <= j < k ==> s[j] != c by {
      forall j | from <= j < k ensures s[j] != c {
        assert s[from..k][j - from] == s[j];
      }
    }
    var r1, r2 := FindChar(s, from, c), FindChar(s, k, c);
    if r2.Some? {
      assert r1.Some? && r1.value <= r2.value;
    }
  }

  /** `strchr` stops at once on the character it looks for. */
  lemma FindCharHere(s: string, k: nat, c: char)
    requires k < |s| && s[k] == c
    ensures FindChar(s, k, c) == Some(k)
  {
  }

  /** `pat` does not occur before `b` from `a` on when its character at
      `d` is missing from `a` up to `d` characters past `b`. */
  lemma NoOccurrenceBefore(s: string, a: nat, b: nat, pat: string, d: nat)
    requires a <= b && b + d <= |s| && d < |pat|
    requires pat[d] !in s[a..b] && forall k :: b <= k < b + d ==> s[k] != pat[d]
    ensures forall j :: a <= j < b ==> !Occurs(s, j, pat)
  {
    NotInSlice(s, a, b, pat[d]);
    forall j | a <= j < b ensures !Occurs(s, j, pat) {
      OccursIffSlice(s, j, pat);
      if j + |pat| <= |s| {
        assert s[j..j + |pat|][d] == s[j + d];
      }
    }
  }

  /** `pat` does not occur between `a` and a closing character that `pat`
      does not hold, when its character at `d` is missing there. */
  lemma NoOccurrenceWithin(s: string, a: nat, b: nat, pat: string, d: nat)
    requires a <= b < |s| && d < |pat| && s[b] !in pat && pat[d] !in s[a..b]
    ensures forall j :: a <= j < b ==> !Occurs(s, j, pat)
  {
    NotInSlice(s, a, b, pat[d]);
    forall j | a <= j < b ensures !Occurs(s, j, pat) {
      OccursIffSlice(s, j, pat);
      if j + |pat| <= |s| {
        if j + |pat| > b {
          assert s[j..j + |pat|][b - j] == s[b];
        } else {
          assert s[j..j + |pat|][d] == s[j + d];
        }
      }
    }
  }

  /** A character missing from a slice differs from each of its places. */
  lemma NotInSlice(s: string, a: nat, b: nat, c: char)
    requires a <= b <= |s| && c !in s[a..b]
    ensures forall k :: a <= k < b ==> s[k] != c
  {
    forall k | a <= k < b ensures s[k] != c {
      assert s[a..b][k - a] == s[k];
    }
  }

  /** An occurrence of `p + q` is an occurrence of `p`. */
  lemma OccursPrefix(s: string, k: nat, p: string, q: string)
    requires Occurs(s, k, p + q)
    ensures Occurs(s, k, p)
  {
    OccursIffSlice(s, k, p + q);
    OccursIffSlice(s, k, p);
    assert s[k..k + |p|] == s[k..k + |p + q|][..|p|];
  }

  /** `pat` occurs at `k` exactly when the slice of `s` there is `pat`. */
  lemma {:induction false} OccursIffSlice(s: string, k: nat, pat: string)
    ensures Occurs(s, k, pat) <==> k + |pat| <= |s| && s[k..k + |pat|] == pat
  {
    MatchesFromIff(s, k, pat, 0);
    if k + |pat| <= |s| {
      assert (forall i :: 0 <= i < |pat| ==> s[k + i] == pat[i]) <==> s[k..k + |pat|] == pat by {
        if forall i :: 0 <= i < |pat| ==> s[k + i] == pat[i] {
          assert forall i :: 0 <= i < |pat| ==> s[k..k + |pat|][i] == pat[i];
        }
      }
    }
  }

  lemma {:induction false} MatchesFromIff(s: string, k: nat, pat: string, j: nat)
    requires j <= |pat|
    ensures MatchesFrom(s, k, pat, j) <==> k + |pat| <= |s| && forall i :: j <= i < |pat| ==> s[k + i] == pat[i]
    decreases |pat| - j
  {
    if j < |pat| {
      MatchesFromIff(s, k, pat, j + 1);
    }
  }

  /** `strstr(s + from, pat)`: the first index at or after `from` where `pat` occurs. */
  function FindSub(s: string, from: nat, pat: string): (r: Option<nat>)
    requires from <= |s|
    ensures r.Some? ==> from <= r.value && Occurs(s, r.value, pat)
    ensures forall k :: from <= k && (r.None? || k < r.value) ==> !Occurs(s, k, pat)
    decreases |s| - from
  {
    if Occurs(s, from, pat) then Some(from)
    else if from == |s| then None
    else FindSub(s, from + 1, pat)
  }

  /** `isspace` in the C locale. */
  predicate IsSpace(c: char) {
    c == ' ' || c == '\t' || c == '\n' || c == '\U{000B}' || c == '\U{000C}' || c == '\r'
  }

  predicate IsDigit(c: char) {
    '0' <= c <= '9'
  }

  /** The first index at or after `i` that is not white space. */
  function SkipSpace(s: string, i: nat): (r: nat)
    requires i <= |s|
    ensures i <= r <= |s|
    ensures forall k :: i <= k < r ==> IsSpace(s[k])
    ensures r < |s| ==> !IsSpace(s[r])
    decreases |s| - i
  {
    if i < |s| && IsSpace(s[i]) then SkipSpace(s, i + 1) else i
  }

  /** White space from `i` to `e`, and none at `e`: skipping stops at `e`. */
  lemma SkipSpaceTo(s: string, i: nat, e: nat)
    requires i <= e <= |s| && forall k :: i <= k < e ==> IsSpace(s[k])
    requires e == |s| || !IsSpace(s[e])
    ensures SkipSpace(s, i) == e
  {
  }

  /** The end of the longest run of decimal digits starting at `i`. */
  function DigitEnd(s: string, i: nat): (r: nat)
    requires i <= |s|
    ensures i <= r <= |s|
    ensures forall k :: i <= k < r ==> IsDigit(s[k])
    ensures r < |s| ==> !IsDigit(s[r])
    decreases |s| - i
  {
    if i < |s| && IsDigit(s[i]) then DigitEnd(s, i + 1) else i
  }

  /** The number a run of decimal digits denotes. */
  function DigitsValue(s: string, k: nat, e: nat): nat
    requires k <= e <= |s|
    requires forall i :: k <= i < e ==> IsDigit(s[i])
    decreases e
  {
    if e == k then 0
    else 10 * DigitsValue(s, k, e - 1) + DigitValue(s[e - 1])
  }

  function DigitValue(c: char): nat
    requires IsDigit(c)
  {
    c as int - '0' as int
  }

  /** `m` times ten to the power `e`, one factor of ten at a time. */
  function Scale(m: real, e: int): (r: real)
    ensures e == 0 ==> r == m
    decreases if e < 0 then -e else e
  {
    if e == 0 then m
    else if e > 0 then 10.0 * Scale(m, e - 1)
    else Scale(m, e + 1) / 10.0
  }

  /** Where the optional `+` or `-` of a number starting at `j` ends. */
  function SkipSign(s: string, j: nat): (r: nat)
    requires j <= |s|
    ensures j <= r <= |s| && r <= j + 1
  {
    if j < |s| && (s[j] == '-' || s[j] == '+') then j + 1 else j
  }

  /** One `%d` conversion at index `i`: skip white space, an optional sign,
      then at least one digit, as many as there are. Gives the value and the
      index after the last digit, or None when the conversion fails. */
  function ScanInt(s: string, i: nat): (r: Option<(int, nat)>)
    requires i <= |s|
    ensures r.Some? ==> i < r.value.1 <= |s|
  {
    var j := SkipSpace(s, i);
    var k := SkipSign(s, j);
    var e := DigitEnd(s, k);
    if e == k then None
    else
      var v: int := DigitsValue(s, k, e);
      Some((if k > j && s[j] == '-' then -v else v, e))
  }

  /** One `%f` conversion at index `i`, restricted to decimal notation:
      white space, an optional sign, digits with an optional `.` and
      fraction (at least one digit in all), then an optional exponent
      (`e` or `E`, an optional sign, at least one digit). */
  function ScanReal(s: string, i: nat): (r: Option<real>)
    requires i <= |s|
  {
    var j := SkipSpace(s, i);
    var k := SkipSign(s, j);
    var ie := DigitEnd(s, k);
    var hasDot := ie < |s| && s[ie] == '.';
    var fe := if hasDot then DigitEnd(s, ie + 1) else ie;
    var fracDigits := if hasDot then fe - (ie + 1) else 0;
    if ie == k && fracDigits == 0 then None
    else
      var mantissa := DigitsValue(s, k, ie) as real
        + (if hasDot then Scale(DigitsValue(s, ie + 1, fe) as real, -fracDigits) else 0.0);
      var signed := if k > j && s[j] == '-' then -mantissa else mantissa;
      Some(ApplyExponent(s, fe, signed))
  }

  /** The exponent part of `%f`: when index `at` starts `e`/`E`, an optional
      sign and at least one digit, scale `m` by that power of ten; otherwise
      the `e` is not part of the number and `m` is returned as it is. */
  function ApplyExponent(s: string, at: nat, m: real): real
    requires at <= |s|
  {
    if at < |s| && (s[at] == 'e' || s[at] == 'E') then
      var x := SkipSign(s, at + 1);
      var xe := DigitEnd(s, x);
      if xe == x then m
      else
        var p: int := DigitsValue(s, x, xe);
        Scale(m, if x > at + 1 && s[at + 1] == '-' then -p else p)
    else m
  }

  /** `strncpy(dst, src, n)` into a buffer whose byte `n` is NUL and is
      never written: the buffer then holds the first `n` characters of
      `src`, or all of them when it is shorter. */
  function StrNCopy(src: string, n: nat): (r: string)
    ensures |r| == (if |src| < n then |src| else n)
    ensures r == src[..|r|]
  {
    if |src| <= n then src else src[..n]
  }

  // ---------------------------------------------------------------------
  // What printf prints
  // ---------------------------------------------------------------------

  function DigitChar(d: nat): (c: char)
    requires d < 10
    ensures IsDigit(c) && DigitValue(c) == d
  {
    ('0' as int + d) as char
  }

  /** A number below 100 written with exactly two digits, as `%02d` does. */
  function TwoDigits(n: nat): (r: string)
    requires n < 100
    ensures |r| == 2 && IsDigit(r[0]) && IsDigit(r[1])
    ensures 10 * DigitValue(r[0]) + DigitValue(r[1]) == n
  {
    [DigitChar(n / 10), DigitChar(n % 10)]
  }

  /** The digits `%d` prints for a non-negative value: no leading zeros. */
  function DecimalText(n: nat): (r: string)
    ensures 1 <= |r| && forall k :: 0 <= k < |r| ==> IsDigit(r[k])
    ensures |r| > 1 ==> r[0] != '0'
    decreases n
  {
    if n < 10 then [DigitChar(n)] else DecimalText(n / 10) + [DigitChar(n % 10)]
  }

  /** `%d` at a maximal run of digits reads the value of the run and stops
      right after it, whatever follows. */
  lemma ScanIntDigits(s: string, k: nat, e: nat)
    requires k < e <= |s| && forall j :: k <= j < e ==> IsDigit(s[j])
    requires e == |s| || !IsDigit(s[e])
    ensures ScanInt(s, k) == Some((DigitsValue(s, k, e) as int, e))
  {
    assert SkipSpace(s, k) == k by { assert !IsSpace(s[k]); }
    assert DigitEnd(s, k) == e;
  }

  /** `%d` at a two-digit number written as `%02d` prints it, followed by
      the end or a non-digit, reads that number. */
  lemma ScanTwoDigits(s: string, k: nat, n: nat)
    requires n < 100 && k + 2 <= |s| && s[k..k + 2] == TwoDigits(n)
    requires k + 2 == |s| || !IsDigit(s[k + 2])
    ensures ScanInt(s, k) == Some((n, k + 2))
  {
    var x := TwoDigits(n);
    assert s[k] == x[0] && s[k + 1] == x[1] by { SliceAt(s, k, x); }
    ScanIntDigits(s, k, k + 2);
    assert DigitsValue(s, k, k + 1) == DigitValue(s[k]);
  }

  /** `%d` and `%ld`: a minus sign for a negative value, then its digits. */
  function IntText(n: int): string {
    if n < 0 then "-" + DecimalText(-n) else DecimalText(n)
  }

  /** The value of a run of digits depends on those characters only. */
  lemma {:induction false} DigitsValueLocal(s: string, t: string, k: nat, e: nat, d: nat)
    requires k <= e <= |s| && d <= k && e - d <= |t|
    requires forall i :: k <= i < e ==> IsDigit(s[i])
    requires forall i :: k <= i < e ==> t[i - d] == s[i]
    ensures forall i :: k - d <= i < e - d ==> IsDigit(t[i])
    ensures DigitsValue(s, k, e) == DigitsValue(t, k - d, e - d)
    decreases e
  {
    assert forall i :: k - d <= i < e - d ==> t[i] == s[i + d];
    if e > k {
      DigitsValueLocal(s, t, k, e - 1, d);
    }
  }

  /** Reading back what `%d` printed gives the value printed. */
  lemma {:induction false} DecimalTextValue(n: nat)
    ensures DigitsValue(DecimalText(n), 0, |DecimalText(n)|) == n
    decreases n
  {
    var r := DecimalText(n);
    if n >= 10 {
      var q := DecimalText(n / 10);
      DecimalTextValue(n / 10);
      assert r == q + [DigitChar(n % 10)];
      DigitsValueLocal(r, q, 0, |q|, 0);
    }
  }

  /** `sscanf("%d")` reads back what `printf("%d")` printed. */
  lemma IntTextRoundTrip(n: int)
    ensures ScanInt(IntText(n), 0) == Some((n, |IntText(n)|))
  {
    var s := IntText(n);
    var m: nat := if n < 0 then -n else n;
    var digits := DecimalText(m);
    var k := if n < 0 then 1 else 0;
    assert s[k..] == digits;
    assert !IsSpace(s[0]);
    assert SkipSpace(s, 0) == 0;
    assert SkipSign(s, 0) == k;
    assert DigitEnd(s, k) == |s|;
    DecimalTextValue(m);
    DigitsValueLocal(s, digits, k, |s|, k);
  }

  /** A non-negative value rounded to the nearest integer, ties to even,
      as `printf` rounds the digits it prints. */
  function RoundHalfEven(r: real): (n: nat)
    requires r >= 0.0
    ensures r - 0.5 <= n as real <= r + 0.5
  {
    var f := r.Floor;
    var frac := r - f as real;
    if frac > 0.5 || (frac == 0.5 && f % 2 == 1) then f + 1 else f
  }

  /** `%.2f`: a minus sign for a negative value, the whole part, `.`, and
      two decimals, after rounding the magnitude to hundredths. */
  function FixedTwo(x: real): string {
    CentsText(x < 0.0, RoundHalfEven((if x < 0.0 then -x else x) * 100.0))
  }

  /** The text `%.2f` prints for a value whose magnitude rounds to
      `cents` hundredths. */
  function CentsText(negative: bool, cents: nat): string {
    (if negative then "-" else "") + DecimalText(cents / 100) + "." + TwoDigits(cents % 100)
  }

  lemma CentsSplit(cents: nat)
    ensures (cents / 100) as real + (cents % 100) as real / 100.0 == cents as real / 100.0
  {
    var a, b := cents / 100, cents % 100;
    assert cents == 100 * a + b;
    assert cents as real == 100.0 * a as real + b as real;
  }

  /** A character that cannot continue a decimal number `%f` is reading. */
  predicate EndsNumber(c: char) {
    !IsDigit(c) && c != 'e' && c != 'E'
  }

  /** `%f` at index `i` on an optional minus sign, a run of digits from `k`
      to `ie` and, when `fe > ie`, a `.` and a second run of digits up to
      `fe`, followed by the end of the string or a character that cannot
      continue the number (nor, after a whole part alone, a `.`): the value
      of the digits, the fraction scaled down by its number of digits. */
  lemma ScanDecimal(s: string, i: nat, k: nat, ie: nat, fe: nat)
    requires i <= k <= i + 1 && k < ie <= fe <= |s| && (k == i + 1 ==> s[i] == '-')
    requires forall j :: k <= j < ie ==> IsDigit(s[j])
    requires fe > ie ==> s[ie] == '.' && ie + 1 < fe && forall j :: ie + 1 <= j < fe ==> IsDigit(s[j])
    requires fe < |s| ==> EndsNumber(s[fe]) && (fe == ie ==> s[fe] != '.')
    ensures var m := DigitsValue(s, k, ie) as real
                     + (if fe > ie then Scale(DigitsValue(s, ie + 1, fe) as real, ie + 1 - fe) else 0.0);
      ScanReal(s, i) == Some(if k == i + 1 then -m else m)
  {
    assert SkipSpace(s, i) == i by { assert !IsSpace(s[i]); }
    assert SkipSign(s, i) == k;
    assert DigitEnd(s, k) == ie;
    if fe > ie {
      assert DigitEnd(s, ie + 1) == fe;
    }
    ScanDecimalOfParts(s, i, k, ie, fe);
  }

  /** `%f` once the white space, the sign and the runs of digits are known
      to end where the number's do. */
  lemma ScanDecimalOfParts(s: string, i: nat, k: nat, ie: nat, fe: nat)
    requires i <= k <= i + 1 && k < ie <= fe <= |s| && (k == i + 1 ==> s[i] == '-')
    requires SkipSpace(s, i) == i && SkipSign(s, i) == k && DigitEnd(s, k) == ie
    requires fe > ie ==> s[ie] == '.' && ie + 1 < fe && DigitEnd(s, ie + 1) == fe
    requires fe < |s| ==> EndsNumber(s[fe]) && (fe == ie ==> s[fe] != '.')
    ensures var m := DigitsValue(s, k, ie) as real
                     + (if fe > ie then Scale(DigitsValue(s, ie + 1, fe) as real, ie + 1 - fe) else 0.0);
      ScanReal(s, i) == Some(if k == i + 1 then -m else m)
  {
    var m := DigitsValue(s, k, ie) as real
             + (if fe > ie then Scale(DigitsValue(s, ie + 1, fe) as real, ie + 1 - fe) else 0.0);
    var signed := if k == i + 1 then -m else m;
    assert ApplyExponent(s, fe, signed) == signed;
    hide SkipSpace, SkipSign, DigitEnd, DigitsValue, Scale, ApplyExponent;
  }

  /** The case of `%.2f` text: a `.` and exactly two decimals. */
  lemma ScanTwoDecimals(s: string, i: nat, k: nat, dot: nat)
    requires i <= k <= i + 1 && k < dot && dot + 3 <= |s| && (k == i + 1 ==> s[i] == '-')
    requires forall j :: k <= j < dot ==> IsDigit(s[j])
    requires s[dot] == '.' && IsDigit(s[dot + 1]) && IsDigit(s[dot + 2])
    requires dot + 3 == |s| || EndsNumber(s[dot + 3])
    ensures var m := DigitsValue(s, k, dot) as real + DigitsValue(s, dot + 1, dot + 3) as real / 100.0;
      ScanReal(s, i) == Some(if k == i + 1 then -m else m)
  {
    hide ScanReal, Scale, DigitsValue;
    ScanDecimal(s, i, k, dot, dot + 3);
    ScaleHundredth(DigitsValue(s, dot + 1, dot + 3) as real);
  }

  lemma ScaleHundredth(f: real)
    ensures Scale(f, -2) == f / 100.0
  {
    assert Scale(f, -1) == f / 10.0;
  }

  /** The layout of the `%.2f` text and the values of its two runs of
      digits. */
  lemma CentsTextLayout(negative: bool, cents: nat)
    ensures var s, k := CentsText(negative, cents), if negative then 1 else 0;
      var dot := |s| - 3;
      k < dot && (k == 1 ==> s[0] == '-') &&
      (forall i :: k <= i < dot ==> IsDigit(s[i])) &&
      s[dot] == '.' && IsDigit(s[dot + 1]) && IsDigit(s[dot + 2]) &&
      DigitsValue(s, k, dot) == cents / 100 && DigitsValue(s, dot + 1, |s|) == cents % 100
  {
    var whole := DecimalText(cents / 100);
    var tail := TwoDigits(cents % 100);
    var s := CentsText(negative, cents);
    var k := if negative then 1 else 0;
    var dot := k + |whole|;
    hide CentsText, DecimalText, TwoDigits;
    CentsLayoutParts(s, k, whole, tail);
    DecimalTextValue(cents / 100);
    DigitsValueLocal(s, whole, k, dot, k);
    DigitsShift(s, tail, dot + 1, 0, 2);
    assert DigitsValue(tail, 0, 2) == 10 * DigitValue(tail[0]) + DigitValue(tail[1]);
  }

  /** The pieces of the `%.2f` text, located. */
  lemma CentsLayoutParts(s: string, k: nat, whole: string, tail: string)
    requires k <= 1 && |tail| == 2
    requires s == (if k == 1 then "-" else "") + whole + "." + tail
    ensures |s| == k + |whole| + 3 && (k == 1 ==> s[0] == '-')
    ensures forall i :: k <= i < k + |whole| ==> s[i] == whole[i - k]
    ensures s[k + |whole|] == '.'
    ensures forall j :: 0 <= j < 2 ==> s[k + |whole| + 1 + j] == tail[j]
  {
  }

  /** The characters of a slice, read in place. */
  lemma SliceAt(s: string, i: nat, x: string)
    requires i + |x| <= |s| && s[i..i + |x|] == x
    ensures forall j :: 0 <= j < |x| ==> s[i + j] == x[j]
  {
    assert forall j :: 0 <= j < |x| ==> s[i..i + |x|][j] == x[j];
  }

  /** A slice holding `a + b` holds `a` and then `b`. */
  lemma SliceConcat(s: string, i: nat, a: string, b: string)
    requires i + |a + b| <= |s| && s[i..i + |a + b|] == a + b
    ensures s[i..i + |a|] == a && s[i + |a|..i + |a| + |b|] == b
  {
    assert s[i..i + |a|] == s[i..i + |a + b|][..|a|];
    assert s[i + |a|..i + |a| + |b|] == s[i..i + |a + b|][|a|..];
  }

  /** A run of digits of `x` keeps its value where `x` stands inside `s`. */
  lemma DigitsShift(s: string, x: string, i: nat, a: nat, b: nat)
    requires a <= b <= |x| && i + |x| <= |s|
    requires forall j :: 0 <= j < |x| ==> s[i + j] == x[j]
    requires forall j :: a <= j < b ==> IsDigit(x[j])
    ensures forall j :: i + a <= j < i + b ==> IsDigit(s[j])
    ensures DigitsValue(s, i + a, i + b) == DigitsValue(x, a, b)
  {
    assert forall j :: i + a <= j < i + b ==> s[j] == x[j - i];
    DigitsValueLocal(s, x, i + a, i + b, i);
  }

  /** `%f` reads back exactly the hundredths `%.2f` printed, with their sign. */
  lemma CentsTextReadsBack(negative: bool, cents: nat)
    ensures ScanReal(CentsText(negative, cents), 0)
         == Some(if negative then -(cents as real / 100.0) else cents as real / 100.0)
  {
    CentsTextReadsBackAt(CentsText(negative, cents), 0, negative, cents);
  }

  /** The same read-back where the text stands inside a longer string and
      is followed by a character that ends the number, such as `,` or `}`. */
  lemma CentsTextReadsBackAt(s: string, i: nat, negative: bool, cents: nat)
    requires var x := CentsText(negative, cents);
      i + |x| <= |s| && s[i..i + |x|] == x && (i + |x| == |s| || EndsNumber(s[i + |x|]))
    ensures ScanReal(s, i) == Some(if negative then -(cents as real / 100.0) else cents as real / 100.0)
  {
    hide CentsText, ScanReal, DigitsValue;
    var x := CentsText(negative, cents);
    var k := if negative then 1 else 0;
    var dot := |x| - 3;
    CentsTextLayout(negative, cents);
    SliceAt(s, i, x);
    DigitsShift(s, x, i, k, dot);
    DigitsShift(s, x, i, dot + 1, dot + 3);
    ScanTwoDecimals(s, i, i + k, i + dot);
    CentsSplit(cents);
  }

  /** What `%.2f` prints reads back, under `%f`, as a value within half a
      hundredth of the value printed. */
  lemma FixedTwoReadsBack(x: real)
    ensures ScanReal(FixedTwo(x), 0).Some?
    ensures var y := ScanReal(FixedTwo(x), 0).value; x - 0.005 <= y <= x + 0.005
  {
    var cents := RoundHalfEven((if x < 0.0 then -x else x) * 100.0);
    assert FixedTwo(x) == CentsText(x < 0.0, cents);
    CentsTextReadsBack(x < 0.0, cents);
  }

  /** `%.2f` of 17.0 is `17.00`; of -2.5 is `-2.50`; and the exact tie
      0.125 rounds to the even neighbour, `0.12`. */
  lemma FixedTwoExamples()
    ensures FixedTwo(17.0) == "17.00"
    ensures FixedTwo(-2.5) == "-2.50"
    ensures FixedTwo(0.125) == "0.12"
  {
    assert RoundHalfEven(17.0 * 100.0) == 1700;
    assert DecimalText(17) == "17";
    assert RoundHalfEven(2.5 * 100.0) == 250;
    assert DecimalText(2) == "2";
    assert RoundHalfEven(0.125 * 100.0) == 12;
    assert DecimalText(0) == "0";
  }
}
