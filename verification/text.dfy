/** The Python string and bytes builtins the core relies on, stated over
    sequences: `str.strip`, `bytes.rstrip`, `str.lower`/`str.upper`
    (restricted to ASCII letters), the `in` operator on strings and
    `str.split(sep)`. Both of the latter are defined through a search for
    the leftmost occurrence of a separator. */
module Text {
  import opened Wrappers

  // ---------------------------------------------------------------------
  // Whitespace and stripping
  // ---------------------------------------------------------------------

  /** The characters for which Python's `str.isspace()` holds. */
  predicate IsSpace(c: char) {
    c == ' ' || ('\t' <= c <= '\r') || ('\U{1C}' <= c <= '\U{1F}')
    || c == '\U{85}' || c == '\U{A0}' || c == '\U{1680}'
    || ('\U{2000}' <= c <= '\U{200A}') || c == '\U{2028}' || c == '\U{2029}'
    || c == '\U{202F}' || c == '\U{205F}' || c == '\U{3000}'
  }

  /** No leading and no trailing whitespace. */
  predicate Trimmed(s: string) {
    s == [] || (!IsSpace(s[0]) && !IsSpace(s[|s| - 1]))
  }

  /** Drops the leading characters that satisfy `ws`. */
  function StripLeft(s: string, ws: char -> bool): (r: string)
    ensures |r| <= |s| && r == s[|s| - |r|..]
    ensures forall k :: 0 <= k < |s| - |r| ==> ws(s[k])
    ensures r == [] || !ws(r[0])
    decreases |s|
  {
    if s != [] && ws(s[0]) then StripLeft(s[1..], ws) else s
  }

  /** Drops the trailing characters that satisfy `ws` (`rstrip`). */
  function StripRight<T>(s: seq<T>, ws: T -> bool): (r: seq<T>)
    ensures |r| <= |s| && r == s[..|r|]
    ensures forall k :: |r| <= k < |s| ==> ws(s[k])
    ensures r == [] || !ws(r[|r| - 1])
    decreases |s|
  {
    if s != [] && ws(s[|s| - 1]) then StripRight(s[..|s| - 1], ws) else s
  }

  /** `lstrip` removes exactly a prefix of `ws` characters that stops before
      a character outside `ws`. */
  lemma StripLeftAfter(pre: string, rest: string, ws: char -> bool)
    requires forall k :: 0 <= k < |pre| ==> ws(pre[k])
    requires rest == [] || !ws(rest[0])
    ensures StripLeft(pre + rest, ws) == rest
  {
    var s := pre + rest;
    assert forall k :: 0 <= k < |pre| ==> s[k] == pre[k];
    assert rest != [] ==> s[|pre|] == rest[0];
  }

  /** `rstrip` removes exactly a suffix of `ws` elements that starts after
      an element outside `ws`. */
  lemma StripRightBefore<T>(rest: seq<T>, post: seq<T>, ws: T -> bool)
    requires forall k :: 0 <= k < |post| ==> ws(post[k])
    requires rest == [] || !ws(rest[|rest| - 1])
    ensures StripRight(rest + post, ws) == rest
  {
    var s := rest + post;
    assert forall k :: |rest| <= k < |s| ==> s[k] == post[k - |rest|];
    assert rest != [] ==> s[|rest| - 1] == rest[|rest| - 1];
  }

  /** Python's `str.strip()`: the infix left after cutting the whitespace
      from both ends; it starts at the first non-space character and
      everything cut away is whitespace. */
  function Strip(s: string): (r: string)
    ensures Trimmed(r)
  {
    var left := StripLeft(s, IsSpace);
    var r := StripRight(left, IsSpace);
    assert r != [] ==> r[0] == left[0];
    r
  }

  /** Stripping a string that is already trimmed gives it back unchanged. */
  lemma StripTrimmed(s: string)
    requires Trimmed(s)
    ensures Strip(s) == s
  {
  }

  /** Whitespace around a trimmed string is exactly what `strip` removes. */
  lemma {:induction false} StripPadded(pre: string, t: string, post: string)
    requires Trimmed(t) && t != []
    requires forall k :: 0 <= k < |pre| ==> IsSpace(pre[k])
    requires forall k :: 0 <= k < |post| ==> IsSpace(post[k])
    ensures Strip(pre + t + post) == t
  {
    StripLeftAfter(pre, t + post, IsSpace);
    assert pre + t + post == pre + (t + post);
    StripRightBefore(t, post, IsSpace);
  }

  /** One trailing space after a trimmed, non-empty string is stripped. */
  lemma StripTrailingSpace(t: string)
    requires Trimmed(t) && t != []
    ensures Strip(t + " ") == t
  {
    assert IsSpace(" "[0]);
    StripPadded("", t, " ");
    assert "" + t + " " == t + " ";
  }

  // ---------------------------------------------------------------------
  // ASCII case mapping
  // ---------------------------------------------------------------------

  function LowerChar(c: char): char {
    if 'A' <= c <= 'Z' then (c as int + 32) as char else c
  }

  function UpperChar(c: char): char {
    if 'a' <= c <= 'z' then (c as int - 32) as char else c
  }

  /** `str.lower()` on ASCII letters. */
  function Lower(s: string): (r: string)
    ensures |r| == |s|
  {
    seq(|s|, k requires 0 <= k < |s| => LowerChar(s[k]))
  }

  /** `str.upper()` on ASCII letters. */
  function Upper(s: string): (r: string)
    ensures |r| == |s|
  {
    seq(|s|, k requires 0 <= k < |s| => UpperChar(s[k]))
  }

  /** Two strings that agree ignoring case agree after either case mapping;
      upper-casing or lower-casing a string keeps it in its class. */
  lemma CaseFold(a: string, b: string)
    requires Lower(a) == Lower(b)
    ensures Upper(a) == Upper(b)
    ensures Lower(Upper(a)) == Lower(a) && Lower(Lower(a)) == Lower(a)
    ensures Upper(Upper(a)) == Upper(a)
  {
    forall k | 0 <= k < |a| ensures LowerChar(a[k]) == LowerChar(b[k]) {
      assert Lower(a)[k] == LowerChar(a[k]);
      assert Lower(b)[k] == LowerChar(b[k]);
    }
  }

  // ---------------------------------------------------------------------
  // Substring search: `in` and `split`
  // ---------------------------------------------------------------------

  predicate OccursAt<T(==)>(s: seq<T>, sep: seq<T>, i: int) {
    0 <= i && i + |sep| <= |s| && s[i..i + |sep|] == sep
  }

  predicate Occurs<T(==)>(s: seq<T>, sep: seq<T>) {
    exists i :: 0 <= i <= |s| - |sep| && OccursAt(s, sep, i)
  }

  /** The leftmost occurrence of `sep` in `s` at or after `from`. */
  function FindFrom<T(==)>(s: seq<T>, sep: seq<T>, from: nat): (r: Option<nat>)
    ensures r.Some? ==> from <= r.value && OccursAt(s, sep, r.value)
    ensures r.Some? ==> forall i :: from <= i < r.value ==> !OccursAt(s, sep, i)
    ensures r.None? ==> forall i :: from <= i ==> !OccursAt(s, sep, i)
    decreases |s| - from
  {
    if from + |sep| > |s| then None
    else if s[from..from + |sep|] == sep then Some(from)
    else FindFrom(s, sep, from + 1)
  }

  /** The leftmost occurrence, if any: where `in` looks and `split` cuts. */
  function Find<T(==)>(s: seq<T>, sep: seq<T>): (r: Option<nat>)
    ensures r.Some? <==> Occurs(s, sep)
    ensures r.Some? ==> OccursAt(s, sep, r.value)
    ensures r.Some? ==> forall i :: 0 <= i < r.value ==> !OccursAt(s, sep, i)
  {
    FindFrom(s, sep, 0)
  }

  /** Python's `sep in s`. */
  function Contains<T(==)>(s: seq<T>, sep: seq<T>): (b: bool)
    ensures b <==> Occurs(s, sep)
  {
    Find(s, sep).Some?
  }

  /** Glues parts back together with `sep` between them (`sep.join(parts)`). */
  function Join<T>(parts: seq<seq<T>>, sep: seq<T>): seq<T>
    requires |parts| >= 1
  {
    if |parts| == 1 then parts[0] else parts[0] + sep + Join(parts[1..], sep)
  }

  /** Python's `s.split(sep)`: cut at every occurrence found scanning left to
      right, each search resuming after the previous separator. The parts
      join back to `s`, none of them contains `sep`, and there is a single
      part exactly when `sep` does not occur. */
  function Split<T(==)>(s: seq<T>, sep: seq<T>): (parts: seq<seq<T>>)
    requires |sep| > 0
    ensures |parts| >= 1
    ensures Join(parts, sep) == s
    ensures forall k :: 0 <= k < |parts| ==> !Occurs(parts[k], sep)
    ensures |parts| == 1 <==> !Occurs(s, sep)
    decreases |s|
  {
    match Find(s, sep)
    case None => [s]
    case Some(i) =>
      CutAtFirst(s, sep, i);
      var tail := Split(s[i + |sep|..], sep);
      assert ([s[..i]] + tail)[1..] == tail;
      [s[..i]] + tail
  }

  /** Cutting at the leftmost occurrence: the text before it is free of
      `sep`, and the string is that text, `sep`, and the rest. */
  lemma CutAtFirst<T>(s: seq<T>, sep: seq<T>, i: nat)
    requires |sep| > 0 && Find(s, sep) == Some(i)
    ensures !Occurs(s[..i], sep)
    ensures s == s[..i] + sep + s[i + |sep|..]
  {
    var head := s[..i];
    forall j | 0 <= j <= |head| - |sep| ensures !OccursAt(head, sep, j) {
      assert head[j..j + |sep|] == s[j..j + |sep|];
      assert !OccursAt(s, sep, j);
    }
    assert s[i..i + |sep|] == sep;
    assert s == s[..i] + s[i..i + |sep|] + s[i + |sep|..];
  }

  /** What follows the first occurrence of `sep`. */
  function AfterFirst<T(==)>(s: seq<T>, sep: seq<T>): seq<T>
    requires Occurs(s, sep)
  {
    s[Find(s, sep).value + |sep|..]
  }

  /** Unpacking `a, b = s.split(sep)` succeeds exactly when `sep` occurs and
      does not occur again after its first occurrence; the two parts are then
      the text before and after that occurrence. */
  lemma SplitInTwo<T>(s: seq<T>, sep: seq<T>)
    requires |sep| > 0
    ensures |Split(s, sep)| == 2 <==> Occurs(s, sep) && !Occurs(AfterFirst(s, sep), sep)
    ensures |Split(s, sep)| == 2 ==>
      var i := Find(s, sep).value;
      Split(s, sep) == [s[..i], s[i + |sep|..]]
  {
    match Find(s, sep)
    case None =>
    case Some(i) =>
      var tail := Split(s[i + |sep|..], sep);
      assert Split(s, sep) == [s[..i]] + tail;
      if |tail| == 1 {
        assert tail[0] == Join(tail, sep) == s[i + |sep|..];
      }
  }

  /** When `sep` occurs at `i` and nowhere else, `split` cuts there only. */
  lemma SplitAtOnly<T>(s: seq<T>, sep: seq<T>, i: nat)
    requires |sep| > 0 && OccursAt(s, sep, i)
    requires forall j :: OccursAt(s, sep, j) ==> j == i
    ensures Split(s, sep) == [s[..i], s[i + |sep|..]]
  {
    assert Occurs(s, sep);
    var rest := s[i + |sep|..];
    assert Find(s, sep) == Some(i);
    forall j | 0 <= j <= |rest| - |sep| ensures !OccursAt(rest, sep, j) {
      assert s[i + |sep| + j..i + |sep| + j + |sep|] == rest[j..j + |sep|];
      assert OccursAt(rest, sep, j) ==> OccursAt(s, sep, i + |sep| + j);
    }
    SplitInTwo(s, sep);
  }

  // ---------------------------------------------------------------------
  // Occurrences across concatenations
  // ---------------------------------------------------------------------

  /** An occurrence inside a piece of a string is an occurrence in the string. */
  lemma OccursInfix<T>(a: seq<T>, b: seq<T>, c: seq<T>, sep: seq<T>)
    requires Occurs(b, sep)
    ensures Occurs(a + b + c, sep)
  {
    var j :| 0 <= j <= |b| - |sep| && OccursAt(b, sep, j);
    assert (a + b + c)[|a| + j..|a| + j + |sep|] == b[j..j + |sep|];
    assert OccursAt(a + b + c, sep, |a| + j);
  }

  /** So a piece of a string without `sep` is without it too. */
  lemma NotOccursInfix<T>(a: seq<T>, b: seq<T>, c: seq<T>, sep: seq<T>)
    requires !Occurs(a + b + c, sep)
    ensures !Occurs(b, sep)
  {
    forall j | 0 <= j <= |b| - |sep| ensures !OccursAt(b, sep, j) {
      assert (a + b + c)[|a| + j..|a| + j + |sep|] == b[j..j + |sep|];
      assert !OccursAt(a + b + c, sep, |a| + j);
    }
  }

  /** A single element that does not occur is not any element. */
  lemma ElementAbsent<T>(s: seq<T>, x: T)
    requires !Occurs(s, [x])
    ensures forall k :: 0 <= k < |s| ==> s[k] != x
  {
    forall k | 0 <= k < |s| ensures s[k] != x {
      assert s[k..k + 1] == [s[k]];
      assert !OccursAt(s, [x], k);
    }
  }

  /** A single element absent from both parts is absent from their
      concatenation. */
  lemma NotOccursSingleConcat<T>(a: seq<T>, b: seq<T>, x: T)
    requires !Occurs(a, [x]) && !Occurs(b, [x])
    ensures !Occurs(a + b, [x])
  {
    forall j | 0 <= j <= |a + b| - 1 ensures !OccursAt(a + b, [x], j) {
      if j < |a| {
        assert a[j..j + 1] == (a + b)[j..j + 1];
        assert !OccursAt(a, [x], j);
      } else {
        assert b[j - |a|..j - |a| + 1] == (a + b)[j..j + 1];
        assert !OccursAt(b, [x], j - |a|);
      }
    }
  }

  /** A "spaced word" is a separator such as " to " or " in ": a space, at
      least one non-space character, and a space. */
  predicate SpacedWord(w: string) {
    |w| >= 3 && w[0] == ' ' && w[|w| - 1] == ' '
    && forall k :: 0 < k < |w| - 1 ==> w[k] != ' '
  }

  /** An occurrence of a spaced word in `x + mid + y`, with `mid` a spaced
      word too, is either `mid` itself or lies within `x + " "` or `" " + y`:
      a spaced word cannot straddle the inner characters of another. */
  lemma {:induction false} SpacedOccurrence(x: string, mid: string, y: string, sep: string, j: int)
    requires SpacedWord(mid) && SpacedWord(sep)
    requires OccursAt(x + mid + y, sep, j)
    ensures (j == |x| && sep == mid) || Occurs(x + " ", sep) || Occurs(" " + y, sep)
  {
    var s := x + mid + y;
    var p, m, n := |x|, |mid|, |sep|;
    assert forall t :: 0 <= t < n ==> s[j + t] == sep[t] by {
      forall t | 0 <= t < n ensures s[j + t] == sep[t] {
        assert s[j..j + n][t] == s[j + t];
      }
    }
    if j < p {
      if p - j < n {
        assert sep[p - j] == s[p] == mid[0];
        assert j + n == p + 1;
      }
      var u := x + " ";
      forall t | 0 <= t < n ensures u[j + t] == sep[t] {
        assert s[j + t] == sep[t];
      }
      assert u[j..j + n] == sep;
      assert OccursAt(u, sep, j);
    } else if j == p {
      var q := if n <= m then n - 1 else m - 1;
      assert sep[q] == s[p + q] == mid[q];
      assert n == m;
      assert sep == mid by {
        forall t | 0 <= t < n ensures sep[t] == mid[t] {
          assert s[p + t] == mid[t];
        }
      }
    } else {
      assert s[j] == sep[0];
      assert j >= p + m - 1;
      var v := " " + y;
      var o := j - (p + m - 1);
      forall t | 0 <= t < n ensures v[o + t] == sep[t] {
        assert s[j + t] == sep[t];
        if o + t == 0 {
          assert s[j + t] == mid[m - 1];
        } else {
          assert s[j + t] == y[o + t - 1];
        }
      }
      assert v[o..o + n] == sep;
      assert OccursAt(v, sep, o);
    }
  }

  /** The form in which the lemma above is used: if a spaced word occurs
      neither in `x + " "` nor in `" " + y`, its only possible occurrence in
      `x + mid + y` is `mid` itself, right after `x`. */
  lemma SpacedOccurrences(x: string, mid: string, y: string, sep: string)
    requires SpacedWord(mid) && SpacedWord(sep)
    requires !Occurs(x + " ", sep) && !Occurs(" " + y, sep)
    ensures forall j :: OccursAt(x + mid + y, sep, j) ==> j == |x| && sep == mid
  {
    forall j | OccursAt(x + mid + y, sep, j) ensures j == |x| && sep == mid {
      SpacedOccurrence(x, mid, y, sep, j);
    }
  }
}
