/** `split_time_string` of when/when.py: cut a time string into the start
    expression, the end expression and the zone token. Zone separators are
    tried first, in a fixed order, on the whole string; range separators are
    then tried, in their fixed order, on the text before the zone separator
    only. Every split must give exactly two pieces, and all three results
    are stripped of surrounding whitespace. */
module Splitter {
  import opened Wrappers
  import opened Text
  import opened Model

  /** Zone separators, in the order they are tried (case-sensitive). */
  const ZoneSeps: seq<string> := ["@", " in ", " IN "]

  /** Range separators, in the order they are tried (case-sensitive). */
  const RangeSeps: seq<string> := [" to ", " TO ", " - "]

  /** The three results: start expression, end expression, zone token. */
  datatype Parts = Parts(start: string, end: string, zone: string)

  /** The first separator of `seps` that occurs in `s`: the position at
      which the `for sep in ...: if sep in s: ... break` scan stops. */
  function FirstPresent(seps: seq<string>, s: string): (r: Option<nat>)
    ensures r.Some? ==> r.value < |seps| && Occurs(s, seps[r.value])
    ensures r.Some? ==> forall k :: 0 <= k < r.value ==> !Occurs(s, seps[k])
    ensures r.None? ==> forall k :: 0 <= k < |seps| ==> !Occurs(s, seps[k])
  {
    if seps == [] then None
    else if Contains(s, seps[0]) then Some(0)
    else match FirstPresent(seps[1..], s)
      case None => None
      case Some(k) => Some(k + 1)
  }

  /** The scan stops at the first separator present and only there. */
  lemma {:induction false} FirstPresentIs(seps: seq<string>, s: string, i: nat)
    requires i < |seps| && Contains(s, seps[i])
    requires forall k :: 0 <= k < i ==> !Contains(s, seps[k])
    ensures FirstPresent(seps, s) == Some(i)
  {
    if i > 0 {
      FirstPresentIs(seps[1..], s, i - 1);
    }
  }

  /** The scan finds nothing when no separator is present. */
  lemma {:induction false} FirstPresentNone(seps: seq<string>, s: string)
    requires forall k :: 0 <= k < |seps| ==> !Contains(s, seps[k])
    ensures FirstPresent(seps, s) == None
  {
    if seps != [] {
      FirstPresentNone(seps[1..], s);
    }
  }

  /** The range stage, applied to the text before the zone separator. */
  function RangeParts(before: string, zone: string): Result<Parts, Error> {
    match FirstPresent(RangeSeps, before)
    case None => Success(Parts(Strip(before), "", Strip(zone)))
    case Some(k) =>
      var pieces := Split(before, RangeSeps[k]);
      if |pieces| != 2 then Failure(CantParse(before))
      else Success(Parts(Strip(pieces[0]), Strip(pieces[1]), Strip(zone)))
  }

  /** What `split_time_string` returns or raises for `s`. On success all
      three parts are free of surrounding whitespace. */
  function TimeStringParts(s: string): (r: Result<Parts, Error>)
    ensures r.Success? ==> Trimmed(r.value.start) && Trimmed(r.value.end) && Trimmed(r.value.zone)
    ensures r.Failure? ==> r.error.CantParse?
  {
    match FirstPresent(ZoneSeps, s)
    case None => RangeParts(s, "")
    case Some(k) =>
      var pieces := Split(s, ZoneSeps[k]);
      if |pieces| != 2 then Failure(CantParse(s))
      else RangeParts(pieces[0], pieces[1])
  }

  /** The splitter as the source writes it: two scans over the separator
      lists, each stopping at the first separator present, reassigning the
      working text as it goes; a split that does not unpack into two pieces
      raises "can't parse" with the working text at that moment. */
  method SplitTimeString(timeString: string) returns (r: Result<Parts, Error>)
    ensures r == TimeStringParts(timeString)
  {
    var text := timeString;
    var tz := "";
    ghost var zoneAt: Option<nat> := None;
    // TZ
    for i := 0 to |ZoneSeps|
      invariant zoneAt == None ==> text == timeString && tz == ""
      invariant zoneAt == None ==> forall k :: 0 <= k < i ==> !Contains(timeString, ZoneSeps[k])
      invariant zoneAt != None ==> TimeStringParts(timeString) == RangeParts(text, tz)
    {
      var sep := ZoneSeps[i];
      if Contains(text, sep) {
        FirstPresentIs(ZoneSeps, timeString, i);
        var pieces := Split(text, sep);
        if |pieces| != 2 {
          return Failure(CantParse(text));
        }
        text, tz := pieces[0], pieces[1];
        zoneAt := Some(i);
        break;
      }
    }
    if zoneAt.None? {
      FirstPresentNone(ZoneSeps, timeString);
    }
    assert TimeStringParts(timeString) == RangeParts(text, tz);
    r := ScanRanges(text, tz);
  }

  /** The second half of the splitter: the scan over the range separators,
      on the text left before the zone separator. */
  method ScanRanges(text: string, tz: string) returns (r: Result<Parts, Error>)
    ensures r == RangeParts(text, tz)
  {
    var t1, t2 := text, "";
    ghost var rangeAt: Option<nat> := None;
    for i := 0 to |RangeSeps|
      invariant rangeAt == None ==> t1 == text && t2 == ""
      invariant rangeAt == None ==> forall k :: 0 <= k < i ==> !Contains(text, RangeSeps[k])
      invariant rangeAt != None ==> RangeParts(text, tz) == Success(Parts(Strip(t1), Strip(t2), Strip(tz)))
    {
      var sep := RangeSeps[i];
      if Contains(text, sep) {
        FirstPresentIs(RangeSeps, text, i);
        var pieces := Split(text, sep);
        if |pieces| != 2 {
          return Failure(CantParse(text));
        }
        t1, t2 := pieces[0], pieces[1];
        rangeAt := Some(i);
        break;
      }
    }
    if rangeAt.None? {
      FirstPresentNone(RangeSeps, text);
    }
    return Success(Parts(Strip(t1), Strip(t2), Strip(tz)));
  }

  // -----------------------------------------------------------------------
  // Properties
  // -----------------------------------------------------------------------

  /** A string with none of the six separators is returned whole, stripped,
      with empty end and zone. */
  lemma NoSeparator(s: string)
    requires forall k :: 0 <= k < |ZoneSeps| ==> !Occurs(s, ZoneSeps[k])
    requires forall k :: 0 <= k < |RangeSeps| ==> !Occurs(s, RangeSeps[k])
    ensures TimeStringParts(s) == Success(Parts(Strip(s), "", ""))
  {
    var z := FirstPresent(ZoneSeps, s);
    assert z.None?;
    var r := FirstPresent(RangeSeps, s);
    assert r.None?;
  }

  /** A zone separator chosen by the scan that occurs again after its first
      occurrence makes the unpacking fail, and the error carries the whole
      input; otherwise a range separator that occurs again in the text before
      the zone separator makes it fail, and the error carries that text.
      These are the only failures. */
  lemma SplitFailures(s: string)
    ensures TimeStringParts(s).Failure? <==>
      ChosenTwice(ZoneSeps, s) || ChosenTwice(RangeSeps, PreZone(s))
    ensures ChosenTwice(ZoneSeps, s) ==> TimeStringParts(s) == Failure(CantParse(s))
    ensures !ChosenTwice(ZoneSeps, s) && ChosenTwice(RangeSeps, PreZone(s)) ==>
      TimeStringParts(s) == Failure(CantParse(PreZone(s)))
    ensures TimeStringParts(s).Failure? ==>
      Message(TimeStringParts(s).error) == "can't parse " + (if ChosenTwice(ZoneSeps, s) then s else PreZone(s))
  {
    match FirstPresent(ZoneSeps, s)
    case None =>
      RangeFailures(s, "");
    case Some(k) =>
      SplitInTwo(s, ZoneSeps[k]);
      if !ChosenTwice(ZoneSeps, s) {
        var pieces := Split(s, ZoneSeps[k]);
        assert pieces[0] == PreZone(s);
        RangeFailures(pieces[0], pieces[1]);
      }
  }

  lemma RangeFailures(before: string, zone: string)
    ensures RangeParts(before, zone).Failure? <==> ChosenTwice(RangeSeps, before)
    ensures RangeParts(before, zone).Failure? ==> RangeParts(before, zone) == Failure(CantParse(before))
  {
    match FirstPresent(RangeSeps, before)
    case None =>
    case Some(k) =>
      SplitInTwo(before, RangeSeps[k]);
  }

  /** The separator the scan picks in `s` occurs a second time after its
      first occurrence. */
  predicate ChosenTwice(seps: seq<string>, s: string) {
    match FirstPresent(seps, s)
    case None => false
    case Some(k) => Occurs(AfterFirst(s, seps[k]), seps[k])
  }

  /** The text before the zone separator the scan picks (all of `s` if none). */
  function PreZone(s: string): string {
    match FirstPresent(ZoneSeps, s)
    case None => s
    case Some(k) => s[..Find(s, ZoneSeps[k]).value]
  }

  /** A range separator after "@" belongs to the zone token and is not split:
      only the text before the zone separator is scanned for a range. */
  lemma RangeSearchedBeforeZoneOnly(t1: string, tz: string)
    requires !Occurs(t1, "@") && !Occurs(tz, "@")
    requires forall k :: 0 <= k < |RangeSeps| ==> !Occurs(t1, RangeSeps[k])
    ensures TimeStringParts(t1 + "@" + tz) == Success(Parts(Strip(t1), "", Strip(tz)))
  {
    var s := t1 + "@" + tz;
    AtOnlyAt(t1, "@", tz);
    assert Occurs(s, ZoneSeps[0]);
    assert FirstPresent(ZoneSeps, s) == Some(0);
    SplitAtOnly(s, "@", |t1|);
    assert s[..|t1|] == t1 && s[|t1| + 1..] == tz;
    assert Split(s, ZoneSeps[0]) == [t1, tz];
    assert FirstPresent(RangeSeps, t1) == None;
    assert RangeParts(t1, tz) == Success(Parts(Strip(t1), "", Strip(tz)));
  }

  // -----------------------------------------------------------------------
  // Round trip
  // -----------------------------------------------------------------------

  /** No separator occurs in `p`, even with a space added on either side:
      `p` can stand next to a separator without forming another one. */
  predicate SeparatorFree(p: string) {
    forall sep | sep in ZoneSeps + RangeSeps :: !Occurs(" " + p + " ", sep)
  }

  lemma SeparatorShapes()
    ensures forall k :: 1 <= k < |ZoneSeps| ==> SpacedWord(ZoneSeps[k])
    ensures forall k :: 0 <= k < |RangeSeps| ==> SpacedWord(RangeSeps[k])
    ensures forall k :: 1 <= k < |ZoneSeps| ==> !Occurs(ZoneSeps[k], "@")
    ensures forall k :: 0 <= k < |RangeSeps| ==> !Occurs(RangeSeps[k], "@")
  {
    forall k | 1 <= k < |ZoneSeps| ensures SpacedWord(ZoneSeps[k]) && !Occurs(ZoneSeps[k], "@") {
      NoElement(ZoneSeps[k], '@');
    }
    forall k | 0 <= k < |RangeSeps| ensures SpacedWord(RangeSeps[k]) && !Occurs(RangeSeps[k], "@") {
      NoElement(RangeSeps[k], '@');
    }
  }

  lemma NoElement(w: string, c: char)
    requires forall i :: 0 <= i < |w| ==> w[i] != c
    ensures !Occurs(w, [c])
  {
    forall i | 0 <= i <= |w| - 1 ensures !OccursAt(w, [c], i) {
      assert w[i..i + 1][0] == w[i];
    }
  }

  /** What a separator-free part rules out, in the forms the proofs use. */
  lemma FreeParts(p: string, sep: string)
    requires SeparatorFree(p) && sep in ZoneSeps + RangeSeps
    ensures !Occurs(p + " ", sep) && !Occurs(" " + p, sep) && !Occurs(p, sep)
  {
    assert " " + p + " " == " " + (p + " ") + "";
    NotOccursInfix(" ", p + " ", "", sep);
    assert " " + p + " " == "" + (" " + p) + " ";
    NotOccursInfix("", " " + p, " ", sep);
    NotOccursInfix(" ", p, " ", sep);
  }

  /** "@" occurs in `x + "@" + y` only between the two, when neither has one. */
  lemma AtOnlyAt(x: string, at: string, y: string)
    requires at == "@" && !Occurs(x, "@") && !Occurs(y, "@")
    ensures OccursAt(x + at + y, "@", |x|)
    ensures forall j :: OccursAt(x + at + y, "@", j) ==> j == |x|
  {
    var s := x + at + y;
    assert s[|x|..|x| + 1] == "@";
    ElementAbsent(x, '@');
    ElementAbsent(y, '@');
    assert forall k :: 0 <= k < |x| ==> s[k] == x[k];
    assert forall k :: |x| < k < |s| ==> s[k] == y[k - |x| - 1];
    forall j | OccursAt(s, "@", j) ensures j == |x| {
      assert s[j..j + 1] == [s[j]];
    }
  }

  /** "@" does not occur in a string glued from parts without it. */
  lemma NoAtInJoin(a: string, b: string, c: string)
    requires !Occurs(a, "@") && !Occurs(b, "@") && !Occurs(c, "@")
    ensures !Occurs(a + b + c, "@")
  {
    NotOccursSingleConcat(a, b, '@');
    NotOccursSingleConcat(a + b, c, '@');
  }

  /** The six separators are pairwise different. */
  lemma SeparatorsDistinct()
    ensures forall k, m :: 0 <= k < m < |ZoneSeps| ==> ZoneSeps[k] != ZoneSeps[m]
    ensures forall k, m :: 0 <= k < m < |RangeSeps| ==> RangeSeps[k] != RangeSeps[m]
    ensures forall k, m :: 0 <= k < |ZoneSeps| && 0 <= m < |RangeSeps| ==> ZoneSeps[k] != RangeSeps[m]
  {
  }

  /** In `x + mid + y`, a spaced separator of `seps` (from index `lo` on)
      occurs only as `mid` itself, right after `x`, when neither side forms
      one with a space added. */
  lemma OnlyMid(seps: seq<string>, x: string, mid: string, y: string, lo: nat)
    requires SpacedWord(mid)
    requires forall k :: lo <= k < |seps| ==> SpacedWord(seps[k])
    requires forall k :: lo <= k < |seps| ==> !Occurs(x + " ", seps[k]) && !Occurs(" " + y, seps[k])
    ensures forall k, j :: lo <= k < |seps| && OccursAt(x + mid + y, seps[k], j) ==> j == |x| && seps[k] == mid
  {
    forall k | lo <= k < |seps| {
      SpacedOccurrences(x, mid, y, seps[k]);
    }
  }

  /** The scan over `seps` stops at index `i` when that separator occurs at
      `p` only and none before it occurs; the split then cuts at `p`. */
  lemma PicksAt(seps: seq<string>, s: string, i: nat, p: nat)
    requires i < |seps| && |seps[i]| > 0 && OccursAt(s, seps[i], p)
    requires forall k :: 0 <= k < i ==> !Occurs(s, seps[k])
    requires forall j :: OccursAt(s, seps[i], j) ==> j == p
    ensures FirstPresent(seps, s) == Some(i)
    ensures Split(s, seps[i]) == [s[..p], s[p + |seps[i]|..]]
  {
    assert Occurs(s, seps[i]);
    SplitAtOnly(s, seps[i], p);
  }

  /** The range scan on `x + r + y` picks `r` and cuts there. */
  lemma RangeCut(x: string, y: string, ri: nat)
    requires ri < |RangeSeps|
    requires forall k :: 0 <= k < |RangeSeps| ==> !Occurs(x + " ", RangeSeps[k]) && !Occurs(" " + y, RangeSeps[k])
    ensures FirstPresent(RangeSeps, x + RangeSeps[ri] + y) == Some(ri)
    ensures Split(x + RangeSeps[ri] + y, RangeSeps[ri]) == [x, y]
  {
    var r := RangeSeps[ri];
    var s := x + r + y;
    SeparatorShapes();
    SeparatorsDistinct();
    OnlyMid(RangeSeps, x, r, y, 0);
    assert s[|x|..|x| + |r|] == r;
    PicksAt(RangeSeps, s, ri, |x|);
    assert s[..|x|] == x && s[|x| + |r|..] == y;
  }

  /** The zone scan on `x + z + y` picks `z` and cuts there. */
  lemma ZoneCut(x: string, y: string, zi: nat)
    requires zi < |ZoneSeps|
    requires !Occurs(x, "@") && !Occurs(y, "@")
    requires zi > 0 ==>
      forall k :: 1 <= k < |ZoneSeps| ==> !Occurs(x + " ", ZoneSeps[k]) && !Occurs(" " + y, ZoneSeps[k])
    ensures FirstPresent(ZoneSeps, x + ZoneSeps[zi] + y) == Some(zi)
    ensures Split(x + ZoneSeps[zi] + y, ZoneSeps[zi]) == [x, y]
  {
    var z := ZoneSeps[zi];
    var s := x + z + y;
    SeparatorShapes();
    if zi == 0 {
      AtOnlyAt(x, z, y);
    } else {
      SeparatorsDistinct();
      NoAtInJoin(x, z, y);
      OnlyMid(ZoneSeps, x, z, y, 1);
    }
    assert s[|x|..|x| + |z|] == z;
    PicksAt(ZoneSeps, s, zi, |x|);
    assert s[..|x|] == x && s[|x| + |z|..] == y;
  }

  /** Once the range scan's choice and split are known, so is its result. */
  lemma RangeStage(before: string, zone: string, ri: nat, a: string, b: string)
    requires ri < |RangeSeps| && FirstPresent(RangeSeps, before) == Some(ri)
    requires Split(before, RangeSeps[ri]) == [a, b]
    ensures RangeParts(before, zone) == Success(Parts(Strip(a), Strip(b), Strip(zone)))
  {
  }

  /** Once the zone scan's choice and split are known, the range stage runs
      on the first piece with the second as zone. */
  lemma ZoneStage(s: string, zi: nat, a: string, b: string)
    requires zi < |ZoneSeps| && FirstPresent(ZoneSeps, s) == Some(zi)
    requires Split(s, ZoneSeps[zi]) == [a, b]
    ensures TimeStringParts(s) == RangeParts(a, b)
  {
  }

  /** The parts of a range, followed by a space, hold no spaced zone separator. */
  lemma RangeThenSpace(t1: string, t2: string, ri: nat, zk: nat)
    requires ri < |RangeSeps| && 1 <= zk < |ZoneSeps|
    requires SeparatorFree(t1) && SeparatorFree(t2)
    ensures !Occurs(t1 + RangeSeps[ri] + t2 + " ", ZoneSeps[zk])
  {
    var sep := ZoneSeps[zk];
    SeparatorShapes();
    SeparatorsDistinct();
    FreeParts(t1, sep);
    assert !Occurs(" " + (t2 + " "), sep) by {
      assert " " + (t2 + " ") == " " + t2 + " ";
    }
    SpacedOccurrences(t1, RangeSeps[ri], t2 + " ", sep);
    assert t1 + RangeSeps[ri] + t2 + " " == t1 + RangeSeps[ri] + (t2 + " ");
  }

  /** The range stage on `t1 + r + t2` cuts at `r` and nowhere else. */
  lemma RangeRoundTrip(t1: string, t2: string, ri: nat, zone: string)
    requires ri < |RangeSeps|
    requires Trimmed(t1) && Trimmed(t2)
    requires SeparatorFree(t1) && SeparatorFree(t2)
    ensures RangeParts(t1 + RangeSeps[ri] + t2, zone) == Success(Parts(t1, t2, Strip(zone)))
  {
    forall k | 0 <= k < |RangeSeps|
      ensures !Occurs(t1 + " ", RangeSeps[k]) && !Occurs(" " + t2, RangeSeps[k])
    {
      FreeParts(t1, RangeSeps[k]);
      FreeParts(t2, RangeSeps[k]);
    }
    RangeCut(t1, t2, ri);
    RangeStage(t1 + RangeSeps[ri] + t2, zone, ri, t1, t2);
    StripTrimmed(t1);
    StripTrimmed(t2);
  }

  /** Without a zone: splitting `t1 + r + t2` gives back `(t1, t2, "")` for
      every range separator `r` and separator-free, trimmed parts. */
  lemma RoundTripRange(t1: string, t2: string, ri: nat)
    requires ri < |RangeSeps|
    requires Trimmed(t1) && Trimmed(t2)
    requires SeparatorFree(t1) && SeparatorFree(t2)
    ensures TimeStringParts(t1 + RangeSeps[ri] + t2) == Success(Parts(t1, t2, ""))
  {
    var s := t1 + RangeSeps[ri] + t2;
    SeparatorShapes();
    SeparatorsDistinct();
    FreeParts(t1, "@");
    FreeParts(t2, "@");
    NoAtInJoin(t1, RangeSeps[ri], t2);
    forall k | 1 <= k < |ZoneSeps| ensures !Occurs(s, ZoneSeps[k]) {
      FreeParts(t1, ZoneSeps[k]);
      FreeParts(t2, ZoneSeps[k]);
      SpacedOccurrences(t1, RangeSeps[ri], t2, ZoneSeps[k]);
    }
    var z := FirstPresent(ZoneSeps, s);
    assert z == None;
    RangeRoundTrip(t1, t2, ri, "");
  }

  /** Splitting `t1 + r + t2 + z + tz` gives back `(t1, t2, tz)` for every
      range separator `r`, every zone separator `z` and separator-free,
      trimmed parts. */
  lemma RoundTrip(t1: string, t2: string, tz: string, ri: nat, zi: nat)
    requires ri < |RangeSeps| && zi < |ZoneSeps|
    requires Trimmed(t1) && Trimmed(t2) && Trimmed(tz)
    requires SeparatorFree(t1) && SeparatorFree(t2) && SeparatorFree(tz)
    ensures TimeStringParts(t1 + RangeSeps[ri] + t2 + ZoneSeps[zi] + tz) == Success(Parts(t1, t2, tz))
  {
    var before := t1 + RangeSeps[ri] + t2;
    SeparatorShapes();
    FreeParts(t1, "@");
    FreeParts(t2, "@");
    FreeParts(tz, "@");
    NoAtInJoin(t1, RangeSeps[ri], t2);
    forall k | 1 <= k < |ZoneSeps|
      ensures !Occurs(before + " ", ZoneSeps[k]) && !Occurs(" " + tz, ZoneSeps[k])
    {
      RangeThenSpace(t1, t2, ri, k);
      FreeParts(tz, ZoneSeps[k]);
    }
    ZoneCut(before, tz, zi);
    ZoneStage(before + ZoneSeps[zi] + tz, zi, before, tz);
    RangeRoundTrip(t1, t2, ri, tz);
    StripTrimmed(tz);
  }

  /** The form the test-suite builds: `t1 + r + t2 + " @" + tz`, the space
      before "@" ending up around the end expression and stripped away. */
  lemma RoundTripSpacedAt(t1: string, t2: string, tz: string, ri: nat)
    requires ri < |RangeSeps|
    requires Trimmed(t1) && Trimmed(t2) && Trimmed(tz) && t2 != []
    requires SeparatorFree(t1) && SeparatorFree(t2) && SeparatorFree(tz)
    ensures TimeStringParts(t1 + RangeSeps[ri] + t2 + " @" + tz) == Success(Parts(t1, t2, tz))
  {
    SpacedAtZone(t1, t2, tz, ri);
    SpacedAtRange(t1, t2, tz, ri);
  }

  /** The zone scan on `t1 + r + t2 + " @" + tz` cuts at "@". */
  lemma SpacedAtZone(t1: string, t2: string, tz: string, ri: nat)
    requires ri < |RangeSeps|
    requires SeparatorFree(t1) && SeparatorFree(t2) && SeparatorFree(tz)
    ensures TimeStringParts(t1 + RangeSeps[ri] + t2 + " @" + tz) == RangeParts(t1 + RangeSeps[ri] + (t2 + " "), tz)
  {
    var r := RangeSeps[ri];
    var before := t1 + r + (t2 + " ");
    var s := before + ZoneSeps[0] + tz;
    assert t1 + r + t2 + " @" + tz == s;
    SeparatorShapes();
    FreeParts(t1, "@");
    FreeParts(t2, "@");
    FreeParts(tz, "@");
    NoElement(" ", '@');
    NoAtInJoin(t2, " ", "");
    assert t2 + " " + "" == t2 + " ";
    NoAtInJoin(t1, r, t2 + " ");
    ZoneCut(before, tz, 0);
    ZoneStage(s, 0, before, tz);
  }

  /** The range stage on `t1 + r + t2 + " "` cuts at `r`, and the trailing
      space is stripped from the end expression. */
  lemma SpacedAtRange(t1: string, t2: string, tz: string, ri: nat)
    requires ri < |RangeSeps|
    requires Trimmed(t1) && Trimmed(t2) && Trimmed(tz) && t2 != []
    requires SeparatorFree(t1) && SeparatorFree(t2)
    ensures RangeParts(t1 + RangeSeps[ri] + (t2 + " "), tz) == Success(Parts(t1, t2, tz))
  {
    SeparatorShapes();
    forall k | 0 <= k < |RangeSeps|
      ensures !Occurs(t1 + " ", RangeSeps[k]) && !Occurs(" " + (t2 + " "), RangeSeps[k])
    {
      FreeParts(t1, RangeSeps[k]);
      assert " " + (t2 + " ") == " " + t2 + " ";
    }
    RangeCut(t1, t2 + " ", ri);
    RangeStage(t1 + RangeSeps[ri] + (t2 + " "), tz, ri, t1, t2 + " ");
    StripTrimmed(t1);
    StripTrimmed(tz);
    StripTrailingSpace(t2);
  }

  /** Only the exact spellings are separators: " In " splits nothing, so a
      string whose only separator-like text is " In " is returned whole. */
  lemma MixedCaseNotSeparator(a: string, b: string)
    requires SeparatorFree(a) && SeparatorFree(b)
    ensures TimeStringParts(a + " In " + b) == Success(Parts(Strip(a + " In " + b), "", ""))
  {
    var s := a + " In " + b;
    SeparatorShapes();
    FreeParts(a, "@");
    FreeParts(b, "@");
    NoElement(" In ", '@');
    NoAtInJoin(a, " In ", b);
    assert SpacedWord(" In ");
    forall sep | sep in ZoneSeps[1..] + RangeSeps ensures !Occurs(s, sep) {
      assert sep in ZoneSeps + RangeSeps;
      FreeParts(a, sep);
      FreeParts(b, sep);
      SpacedOccurrences(a, " In ", b, sep);
    }
    assert forall k :: 1 <= k < |ZoneSeps| ==> ZoneSeps[k] in ZoneSeps[1..] + RangeSeps;
    assert forall k :: 0 <= k < |RangeSeps| ==> RangeSeps[k] in ZoneSeps[1..] + RangeSeps;
    NoSeparator(s);
  }
}
