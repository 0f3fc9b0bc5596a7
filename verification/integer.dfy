/** Python's `int()` applied to a string, restricted to ASCII digits: the
    text may be surrounded by whitespace, may start with a sign, and holds
    decimal digits with single underscores allowed between two digits. */
module Integer {
  import opened Wrappers
  import opened Text

  predicate IsDigit(c: char) {
    '0' <= c <= '9'
  }

  function DigitValue(c: char): (d: nat)
    requires IsDigit(c)
    ensures d < 10
  {
    (c as int) - ('0' as int)
  }

  function DigitChar(d: nat): (c: char)
    requires d < 10
    ensures IsDigit(c) && DigitValue(c) == d
  {
    (d + '0' as int) as char
  }

  /** Digits and underscores only. */
  predicate DigitsOrUnderscores(s: string) {
    forall i :: 0 <= i < |s| ==> IsDigit(s[i]) || s[i] == '_'
  }

  /** The digit part `int()` accepts: non-empty, starting and ending with a
      digit, every underscore between two digits. */
  predicate DigitRun(s: string) {
    |s| > 0 && IsDigit(s[0]) && IsDigit(s[|s| - 1]) && DigitsOrUnderscores(s) &&
    forall i :: 0 < i < |s| - 1 && s[i] == '_' ==> IsDigit(s[i - 1]) && IsDigit(s[i + 1])
  }

  /** The value of a run of digits, underscores ignored. */
  function RunValue(s: string): nat
    requires DigitsOrUnderscores(s)
  {
    if s == [] then 0
    else if s[|s| - 1] == '_' then RunValue(s[..|s| - 1])
    else RunValue(s[..|s| - 1]) * 10 + DigitValue(s[|s| - 1])
  }

  /** The whitespace `int()` skips around a number. `int()` first turns
      every non-ASCII character that `str.isspace()` accepts into a space and
      leaves the ASCII ones alone, then skips the space and \t, \n, \v, \f,
      \r. So it skips what `str.strip()` does except U+001C..U+001F. */
  predicate IsIntSpace(c: char) {
    c == ' ' || ('\t' <= c <= '\r') || c == '\U{85}' || c == '\U{A0}' || c == '\U{1680}' ||
    ('\U{2000}' <= c <= '\U{200A}') || c == '\U{2028}' || c == '\U{2029}' || c == '\U{202F}' ||
    c == '\U{205F}' || c == '\U{3000}'
  }

  /** No leading and no trailing whitespace in the sense of `int()`. */
  predicate IntTrimmed(s: string) {
    s == [] || (!IsIntSpace(s[0]) && !IsIntSpace(s[|s| - 1]))
  }

  /** The text `int()` reads once the surrounding whitespace it skips is cut. */
  function IntStrip(s: string): string {
    StripRight(StripLeft(s, IsIntSpace), IsIntSpace)
  }

  /** `int(s)`: None where Python raises ValueError. */
  function ParseInt(s: string): Option<int> {
    ParseStripped(IntStrip(s))
  }

  /** `int()` once the surrounding whitespace is gone: an optional sign,
      then a digit run. */
  function ParseStripped(t: string): Option<int> {
    if |t| > 0 && (t[0] == '-' || t[0] == '+') then
      var run := t[1..];
      if DigitRun(run) then
        var v: int := RunValue(run);
        Some(if t[0] == '-' then -v else v)
      else None
    else if DigitRun(t) then Some(RunValue(t))
    else None
  }

  /** The decimal digits of `n`, most significant first, without leading
      zeros. */
  function ShowNat(n: nat): (s: string)
    ensures |s| > 0 && forall i :: 0 <= i < |s| ==> IsDigit(s[i])
    ensures n > 0 ==> s[0] != '0'
  {
    if n < 10 then [DigitChar(n)] else ShowNat(n / 10) + [DigitChar(n % 10)]
  }

  /** The text `str(n)` gives. */
  function Show(n: int): string {
    if n < 0 then "-" + ShowNat(-n) else ShowNat(n)
  }

  /** Reading back the digits `ShowNat` writes gives the number. */
  lemma {:induction false} RunValueShowNat(n: nat)
    ensures DigitsOrUnderscores(ShowNat(n)) && DigitRun(ShowNat(n))
    ensures RunValue(ShowNat(n)) == n
  {
    var s := ShowNat(n);
    if n >= 10 {
      RunValueShowNat(n / 10);
      assert s[..|s| - 1] == ShowNat(n / 10);
    }
  }

  /** `int(str(n)) == n`. */
  lemma ParseShow(n: int)
    ensures ParseInt(Show(n)) == Some(n)
  {
    if n < 0 {
      ParseShowNegative(n);
    } else {
      ParseShowNat(n);
    }
  }

  lemma ParseShowNat(n: int)
    requires n >= 0
    ensures ParseInt(Show(n)) == Some(n)
  {
    var digits := ShowNat(n);
    RunValueShowNat(n);
    assert Show(n) == digits;
    assert IntTrimmed(digits);
    ParseTrimmed(digits);
  }

  lemma ParseShowNegative(n: int)
    requires n < 0
    ensures ParseInt(Show(n)) == Some(n)
  {
    var m: nat := -n;
    RunValueShowNat(m);
    NegativeRun(ShowNat(m));
    assert Show(n) == "-" + ShowNat(m);
    ParseTrimmed(Show(n));
  }

  /** A minus sign followed by a digit run is read as the negated run, and
      there is nothing around it for `int()` to skip. */
  lemma NegativeRun(run: string)
    requires DigitRun(run)
    ensures IntTrimmed("-" + run)
    ensures ParseStripped("-" + run) == Some(-(RunValue(run) as int))
  {
    var s := "-" + run;
    assert s[0] == '-' && s[|s| - 1] == run[|run| - 1];
    assert s[1..] == run;
  }

  /** Text with no surrounding whitespace is read as it stands. */
  lemma ParseTrimmed(s: string)
    requires IntTrimmed(s)
    ensures ParseInt(s) == ParseStripped(s)
  {
    assert StripLeft(s, IsIntSpace) == s;
  }

  /** Whitespace `int()` skips around a trimmed text is exactly what it cuts. */
  lemma {:induction false} IntStripPadded(pre: string, t: string, post: string)
    requires IntTrimmed(t) && t != []
    requires forall k :: 0 <= k < |pre| ==> IsIntSpace(pre[k])
    requires forall k :: 0 <= k < |post| ==> IsIntSpace(post[k])
    ensures IntStrip(pre + t + post) == t
  {
    StripLeftAfter(pre, t + post, IsIntSpace);
    assert pre + t + post == pre + (t + post);
    StripRightBefore(t, post, IsIntSpace);
  }

  /** Whitespace `int()` skips around a number does not change what it reads. */
  lemma ParseAroundSpaces(pre: string, s: string, post: string)
    requires IntTrimmed(s) && s != []
    requires forall k :: 0 <= k < |pre| ==> IsIntSpace(pre[k])
    requires forall k :: 0 <= k < |post| ==> IsIntSpace(post[k])
    ensures ParseInt(pre + s + post) == ParseInt(s)
  {
    IntStripPadded(pre, s, post);
    ParseTrimmed(s);
  }

  /** `str.strip()` and `int()` part ways on U+001C..U+001F: `int()` does not
      skip them, so a number preceded by one is rejected. */
  lemma InfoSeparatorNotSkipped()
    ensures ParseInt("\U{1C}5") == None
  {
    var s := "\U{1C}5";
    assert IntTrimmed(s);
    ParseTrimmed(s);
    assert !IsDigit(s[0]);
  }

  /** A text with no digit at all — the empty field among them — is not a
      number. */
  lemma {:induction false} NoDigitNoNumber(s: string)
    requires forall i :: 0 <= i < |s| ==> !IsDigit(s[i])
    ensures ParseInt(s) == None
  {
    var left := StripLeft(s, IsIntSpace);
    var t := StripRight(left, IsIntSpace);
    var i := |s| - |left|;
    assert forall k :: 0 <= k < |t| ==> t[k] == left[k] == s[i + k];
    assert forall k :: 0 <= k < |t| ==> !IsDigit(t[k]);
    NoDigitNotStripped(t);
    assert IntStrip(s) == t;
  }

  /** Stripped text with no digit reads as no number. */
  lemma NoDigitNotStripped(t: string)
    requires forall k :: 0 <= k < |t| ==> !IsDigit(t[k])
    ensures ParseStripped(t) == None
  {
    if |t| > 1 {
      assert t[1..][0] == t[1];
    }
  }
}
