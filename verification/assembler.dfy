/** `Tzone` and `when` of when/when.py: parse the start and end of a time
    string in the zone it names, and, for every requested location, list the
    whole hours from start to end as seen in that location's zone.

    Instants are whole seconds since the epoch. The date/time parser, the
    current UTC offset of a zone and the ISO formatting of a timestamp are
    outside the model and are passed in as functions. */
module Assembler {
  import opened Wrappers
  import opened Text
  import opened Model
  import opened Splitter
  import opened Resolver

  /** A timezone-aware timestamp: an instant and the zone it is shown in. */
  datatype Moment = Moment(instant: int, tz: ZoneInfo)

  /** What the core takes from its surroundings. `parse` stands for
      `parse_time_string` on a part and a zone name (None when the parser
      rejects the text); `nowOffset` for the current UTC offset of a zone in
      microseconds (None when the zone reports none); `isoformat` for the
      formatting of a timestamp. */
  datatype Env = Env(
    sources: Sources,
    defaultTz: string,
    parse: (string, string) -> Option<int>,
    nowOffset: ZoneInfo -> Option<int>,
    isoformat: Moment -> string)

  /** A parsed time string: its text and its start and end timestamps. */
  datatype Tzone = Tzone(timeString: string, t1: Moment, t2: Moment)

  const SecondsPerHour: int := 3600

  /** `parse_time_string`: a part read in the given zone. */
  function ParseTime(text: string, tz: ZoneInfo, env: Env): Result<Moment, Error>
  {
    match env.parse(text, tz.key)
    case None => Failure(ParserError(text))
    case Some(instant) => Success(Moment(instant, tz))
  }

  /** The zone token names the zone to read the times in; an empty token
      stands for the configured default. */
  function ZoneKey(zone: string, env: Env): string {
    if zone != "" then zone else env.defaultTz
  }

  /** What `Tzone(time_string)` builds or raises. */
  function TzoneOf(s: string, env: Env): Result<Tzone, Error> {
    var parts :- TimeStringParts(s);
    var loc :- Resolve(ZoneKey(parts.zone, env), env.sources);
    var t1 :- ParseTime(parts.start, loc.tz, env);
    var t2 :- if parts.end != "" then ParseTime(parts.end, loc.tz, env) else Success(t1);
    Success(Tzone(s, t1, t2))
  }

  /** `Tzone.__init__`: split, resolve the zone, parse the start and, when
      there is one, the end; a missing end is the start. */
  method NewTzone(s: string, env: Env) returns (r: Result<Tzone, Error>)
    ensures r == TzoneOf(s, env)
  {
    var parts := SplitTimeString(s);
    if parts.Failure? {
      return Failure(parts.error);
    }
    var t1, t2, tz := parts.value.start, parts.value.end, parts.value.zone;
    var loc := LocationByKey(if tz != "" then tz else env.defaultTz, env.sources);
    if loc.Failure? {
      return Failure(loc.error);
    }
    var start := ParseTime(t1, loc.value.tz, env);
    if start.Failure? {
      return Failure(start.error);
    }
    var end := start;
    if t2 != "" {
      end := ParseTime(t2, loc.value.tz, env);
      if end.Failure? {
        return Failure(end.error);
      }
    }
    return Success(Tzone(s, start.value, end.value));
  }

  /** `Arrow.range("hour", start, end)`: starting at `cur`, one timestamp an
      hour, while not past `end`. */
  function HourRange(cur: int, end: int, tz: ZoneInfo): seq<Moment>
    decreases end - cur + SecondsPerHour
  {
    if cur > end then [] else [Moment(cur, tz)] + HourRange(cur + SecondsPerHour, end, tz)
  }

  /** The number of whole hours from `start` to `end`, both ends included. */
  function HourCount(start: int, end: int): nat {
    if start <= end then (end - start) / SecondsPerHour + 1 else 0
  }

  /** The range holds `start`, `start` + 1h, ... — all in the zone asked
      for, none past `end`, and the next hour would be. */
  lemma {:induction false} HourRangeShape(start: int, end: int, tz: ZoneInfo)
    ensures |HourRange(start, end, tz)| == HourCount(start, end)
    ensures forall k :: 0 <= k < |HourRange(start, end, tz)| ==>
      HourRange(start, end, tz)[k] == Moment(start + k * SecondsPerHour, tz)
    ensures forall k :: 0 <= k < |HourRange(start, end, tz)| ==>
      start <= HourRange(start, end, tz)[k].instant <= end
    ensures start + |HourRange(start, end, tz)| * SecondsPerHour > end
    decreases end - start + SecondsPerHour
  {
    if start <= end {
      var rest := HourRange(start + SecondsPerHour, end, tz);
      HourRangeShape(start + SecondsPerHour, end, tz);
      assert HourCount(start + SecondsPerHour, end) == HourCount(start, end) - 1;
      var r := HourRange(start, end, tz);
      assert r == [Moment(start, tz)] + rest;
      forall k | 0 <= k < |r|
        ensures r[k] == Moment(start + k * SecondsPerHour, tz)
      {
        if k > 0 {
          assert r[k] == rest[k - 1];
        }
      }
    }
  }

  /** `Tzone.convert`: the hourly timestamps from start to end, shown in the
      zone asked for. Conversion keeps the instant. */
  function Convert(tzone: Tzone, tz: ZoneInfo): seq<Moment> {
    HourRange(tzone.t1.instant, tzone.t2.instant, tz)
  }

  const MicrosPerSecond: int := 1000000

  /** `int(offset.total_seconds())`: microseconds to seconds, cut toward
      zero as Python's `int()` does. */
  function WholeSeconds(micros: int): (secs: int)
    ensures micros >= 0 ==> secs >= 0 && secs * MicrosPerSecond <= micros < (secs + 1) * MicrosPerSecond
    ensures micros < 0 ==> secs <= 0 && (secs - 1) * MicrosPerSecond < micros <= secs * MicrosPerSecond
  {
    if micros >= 0 then micros / MicrosPerSecond else -((-micros) / MicrosPerSecond)
  }

  /** `Tzone.utc_offset`: the current offset of a zone in whole seconds; 0
      when the zone reports none or a zero offset. */
  function UtcOffset(tz: ZoneInfo, env: Env): int {
    match env.nowOffset(tz)
    case None => 0
    case Some(micros) => if micros == 0 then 0 else WholeSeconds(micros)
  }

  /** The offset is the reported one in seconds, cut toward zero; absent and
      zero both give 0; a whole number of seconds comes back exactly. */
  lemma UtcOffsetMeaning(tz: ZoneInfo, env: Env)
    ensures env.nowOffset(tz) == None ==> UtcOffset(tz, env) == 0
    ensures env.nowOffset(tz).Some? ==>
      var m := env.nowOffset(tz).value;
      var o := UtcOffset(tz, env);
      (m >= 0 ==> 0 <= o && o * MicrosPerSecond <= m < (o + 1) * MicrosPerSecond) &&
      (m < 0 ==> o <= 0 && (o - 1) * MicrosPerSecond < m <= o * MicrosPerSecond)
    ensures forall secs: int :: env.nowOffset(tz) == Some(secs * MicrosPerSecond) ==> UtcOffset(tz, env) == secs
  {
    forall secs: int | env.nowOffset(tz) == Some(secs * MicrosPerSecond)
      ensures UtcOffset(tz, env) == secs
    {
      var o := UtcOffset(tz, env);
      assert (o - secs) * MicrosPerSecond < MicrosPerSecond && (secs - o) * MicrosPerSecond < MicrosPerSecond;
    }
  }

  /** The formatted timestamps of one location. */
  function Times(tzone: Tzone, tz: ZoneInfo, env: Env): seq<string>
  {
    var moments := Convert(tzone, tz);
    seq(|moments|, k requires 0 <= k < |moments| => env.isoformat(moments[k]))
  }

  /** The result record of one resolved location. */
  function ZoneOf(tzone: Tzone, loc: Location, env: Env): Zone {
    Zone(name := loc.key, description := loc.description, tz := loc.tz.key,
         offset := UtcOffset(loc.tz, env), times := Times(tzone, loc.tz, env))
  }

  /** The zones of the given keys, in order; the first key that does not
      resolve aborts with its error. */
  function ZonesFor(tzone: Tzone, keys: seq<string>, env: Env): Result<seq<Zone>, Error> {
    if keys == [] then Success([])
    else
      var zones :- ZonesFor(tzone, keys[..|keys| - 1], env);
      var loc :- Resolve(keys[|keys| - 1], env.sources);
      Success(zones + [ZoneOf(tzone, loc, env)])
  }

  /** What `when(time_string, location_keys)` returns or raises. */
  function WhenOf(s: string, keys: seq<string>, env: Env): Result<seq<Zone>, Error> {
    var tzone :- TzoneOf(s, env);
    ZonesFor(tzone, keys, env)
  }

  /** `when`: build the Tzone, then append one Zone per key, in order. */
  method When(s: string, keys: seq<string>, env: Env) returns (r: Result<seq<Zone>, Error>)
    ensures r == WhenOf(s, keys, env)
  {
    var tz := NewTzone(s, env);
    if tz.Failure? {
      return Failure(tz.error);
    }
    var tzone := tz.value;
    var zones: seq<Zone> := [];
    for i := 0 to |keys|
      invariant ZonesFor(tzone, keys[..i], env) == Success(zones)
    {
      var location := LocationByKey(keys[i], env.sources);
      assert keys[..i + 1][..i] == keys[..i];
      if location.Failure? {
        FailureStays(tzone, keys, i + 1, env);
        assert keys[..|keys|] == keys;
        return Failure(location.error);
      }
      zones := zones + [ZoneOf(tzone, location.value, env)];
    }
    assert keys[..|keys|] == keys;
    return Success(zones);
  }

  /** Once a prefix of the keys fails, the whole list fails the same way. */
  lemma {:induction false} FailureStays(tzone: Tzone, keys: seq<string>, n: nat, env: Env)
    requires n <= |keys| && ZonesFor(tzone, keys[..n], env).Failure?
    ensures ZonesFor(tzone, keys, env) == ZonesFor(tzone, keys[..n], env)
    decreases |keys| - n
  {
    if n < |keys| {
      assert keys[..n + 1][..n] == keys[..n];
      FailureStays(tzone, keys, n + 1, env);
    } else {
      assert keys[..n] == keys;
    }
  }

  // -----------------------------------------------------------------------
  // Properties
  // -----------------------------------------------------------------------

  /** One Zone per key, in input order, named after the resolved location,
      showing its zone, with the hourly timestamps from start to end in that
      zone — the same number of them for every key. */
  lemma {:induction false} ZonesShape(tzone: Tzone, keys: seq<string>, env: Env)
    requires ZonesFor(tzone, keys, env).Success?
    ensures var zones := ZonesFor(tzone, keys, env).value;
      |zones| == |keys| &&
      forall i :: 0 <= i < |keys| ==>
        Resolve(keys[i], env.sources).Success? &&
        zones[i] == ZoneOf(tzone, Resolve(keys[i], env.sources).value, env)
  {
    if keys != [] {
      var init := keys[..|keys| - 1];
      ZonesShape(tzone, init, env);
      var zones := ZonesFor(tzone, keys, env).value;
      forall i | 0 <= i < |keys|
        ensures Resolve(keys[i], env.sources).Success?
        ensures zones[i] == ZoneOf(tzone, Resolve(keys[i], env.sources).value, env)
      {
        if i < |init| {
          assert keys[i] == init[i];
        }
      }
    }
  }

  /** The contents of one Zone: the location's key, description and zone
      name, its UTC offset, and the hours from start to end formatted. */
  lemma ZoneContents(tzone: Tzone, loc: Location, env: Env)
    ensures var z := ZoneOf(tzone, loc, env);
      z.name == loc.key && z.description == loc.description && z.tz == loc.tz.key &&
      z.offset == UtcOffset(loc.tz, env) &&
      |z.times| == HourCount(tzone.t1.instant, tzone.t2.instant) &&
      forall k :: 0 <= k < |z.times| ==>
        z.times[k] == env.isoformat(Moment(tzone.t1.instant + k * SecondsPerHour, loc.tz))
  {
    HourRangeShape(tzone.t1.instant, tzone.t2.instant, loc.tz);
  }

  /** `when` succeeds exactly when the time string builds a Tzone and every
      key resolves; then every zone lists the same number of hours. */
  lemma WhenResult(s: string, keys: seq<string>, env: Env)
    ensures WhenOf(s, keys, env).Success? <==>
      TzoneOf(s, env).Success? && forall i :: 0 <= i < |keys| ==> Resolve(keys[i], env.sources).Success?
    ensures WhenOf(s, keys, env).Success? ==>
      var tzone := TzoneOf(s, env).value;
      var zones := WhenOf(s, keys, env).value;
      |zones| == |keys| &&
      forall i :: 0 <= i < |keys| ==>
        zones[i].name == Resolve(keys[i], env.sources).value.key &&
        |zones[i].times| == HourCount(tzone.t1.instant, tzone.t2.instant)
  {
    if TzoneOf(s, env).Success? {
      var tzone := TzoneOf(s, env).value;
      ZonesAllResolve(tzone, keys, env);
      if ZonesFor(tzone, keys, env).Success? {
        ZonesShape(tzone, keys, env);
        forall i | 0 <= i < |keys|
          ensures |ZonesFor(tzone, keys, env).value[i].times| == HourCount(tzone.t1.instant, tzone.t2.instant)
        {
          ZoneContents(tzone, Resolve(keys[i], env.sources).value, env);
        }
      }
    }
  }

  /** The zones are built exactly when every key resolves; otherwise the
      error is that of the first key that does not. */
  lemma {:induction false} ZonesAllResolve(tzone: Tzone, keys: seq<string>, env: Env)
    ensures ZonesFor(tzone, keys, env).Success? <==>
      forall i :: 0 <= i < |keys| ==> Resolve(keys[i], env.sources).Success?
    ensures ZonesFor(tzone, keys, env).Failure? ==>
      exists i :: 0 <= i < |keys| && Resolve(keys[i], env.sources).Failure? &&
        (forall j :: 0 <= j < i ==> Resolve(keys[j], env.sources).Success?) &&
        ZonesFor(tzone, keys, env).error == Resolve(keys[i], env.sources).error
  {
    if keys != [] {
      var init := keys[..|keys| - 1];
      ZonesAllResolve(tzone, init, env);
      assert forall i :: 0 <= i < |init| ==> keys[i] == init[i];
      if ZonesFor(tzone, init, env).Failure? {
        var i :| 0 <= i < |init| && Resolve(init[i], env.sources).Failure? &&
          (forall j :: 0 <= j < i ==> Resolve(init[j], env.sources).Success?) &&
          ZonesFor(tzone, init, env).error == Resolve(init[i], env.sources).error;
        assert keys[i] == init[i];
      } else if Resolve(keys[|keys| - 1], env.sources).Failure? {
        var i := |keys| - 1;
        assert forall j :: 0 <= j < i ==> Resolve(keys[j], env.sources).Success?;
      }
    }
  }

  /** Without an end expression the end is the start: every zone shows
      exactly one timestamp. */
  lemma NoEndOneTime(s: string, env: Env)
    requires TimeStringParts(s).Success? && TimeStringParts(s).value.end == ""
    requires TzoneOf(s, env).Success?
    ensures var tzone := TzoneOf(s, env).value;
      tzone.t2 == tzone.t1 && HourCount(tzone.t1.instant, tzone.t2.instant) == 1
  {
  }

  /** An end before the start gives no timestamps at all (no error). */
  lemma EndBeforeStart(tzone: Tzone, tz: ZoneInfo)
    requires tzone.t2.instant < tzone.t1.instant
    ensures Convert(tzone, tz) == []
  {
  }

  /** Every converted timestamp is the same instant shown in another zone:
      conversion to any two zones lists the same instants. */
  lemma ConvertKeepsInstants(tzone: Tzone, a: ZoneInfo, b: ZoneInfo)
    ensures |Convert(tzone, a)| == |Convert(tzone, b)|
    ensures forall k :: 0 <= k < |Convert(tzone, a)| ==>
      Convert(tzone, a)[k].instant == Convert(tzone, b)[k].instant &&
      Convert(tzone, a)[k].tz == a && Convert(tzone, b)[k].tz == b
  {
    HourRangeShape(tzone.t1.instant, tzone.t2.instant, a);
    HourRangeShape(tzone.t1.instant, tzone.t2.instant, b);
  }

  /** The zone the times are read in: the one the zone token resolves to,
      or the default's when the token is empty. */
  lemma TzoneZone(s: string, env: Env)
    requires TzoneOf(s, env).Success?
    ensures var parts := TimeStringParts(s).value;
      var tzone := TzoneOf(s, env).value;
      Resolve(ZoneKey(parts.zone, env), env.sources).Success? &&
      tzone.t1.tz == Resolve(ZoneKey(parts.zone, env), env.sources).value.tz &&
      tzone.t2.tz == tzone.t1.tz && tzone.timeString == s &&
      env.parse(parts.start, tzone.t1.tz.key) == Some(tzone.t1.instant) &&
      (parts.end != "" ==> env.parse(parts.end, tzone.t1.tz.key) == Some(tzone.t2.instant))
  {
    var parts := TimeStringParts(s).value;
    var loc := Resolve(ZoneKey(parts.zone, env), env.sources).value;
    var t1 := ParseTime(parts.start, loc.tz, env);
    var t2 := if parts.end != "" then ParseTime(parts.end, loc.tz, env) else t1;
    assert TzoneOf(s, env).value == Tzone(s, t1.value, t2.value);
  }

  /** How `Tzone(time_string)` fails: the split's error, then the zone
      token's, then the start's parse, then the end's when there is one. */
  lemma TzoneFailures(s: string, env: Env)
    ensures TimeStringParts(s).Failure? ==> TzoneOf(s, env) == Failure(TimeStringParts(s).error)
    ensures TimeStringParts(s).Success? ==>
      var parts := TimeStringParts(s).value;
      var res := Resolve(ZoneKey(parts.zone, env), env.sources);
      (res.Failure? ==> TzoneOf(s, env) == Failure(res.error)) &&
      (res.Success? && env.parse(parts.start, res.value.tz.key) == None ==>
        TzoneOf(s, env) == Failure(ParserError(parts.start))) &&
      (res.Success? && env.parse(parts.start, res.value.tz.key).Some? && parts.end != "" &&
        env.parse(parts.end, res.value.tz.key) == None ==>
        TzoneOf(s, env) == Failure(ParserError(parts.end))) &&
      (TzoneOf(s, env).Success? <==>
        res.Success? && env.parse(parts.start, res.value.tz.key).Some? &&
        (parts.end == "" || env.parse(parts.end, res.value.tz.key).Some?))
  {
  }

  /** `when` raises whatever building the Tzone raises, before looking at
      any key. */
  lemma WhenTzoneFailure(s: string, keys: seq<string>, env: Env)
    requires TzoneOf(s, env).Failure?
    ensures WhenOf(s, keys, env) == Failure(TzoneOf(s, env).error)
  {
  }
}
