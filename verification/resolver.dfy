/** `location_by_key` of when/when.py: turn a user-supplied key into a
    Location by asking five sources in a fixed order and taking the first
    that answers — the configured aliases (compared case-insensitively), the
    IATA and ICAO airport tables (keyed by the upper-cased key), the city
    table (keyed by the lower-cased key) and, last, the exact name of a
    timezone. */
module Resolver {
  import opened Wrappers
  import opened Text
  import opened Model

  /** The lookup sources: the configured locations, the two airport tables,
      the city table and the set of timezone names the database knows. */
  datatype Sources = Sources(
    configured: seq<Location>,
    iata: map<string, Place>,
    icao: map<string, Place>,
    cities: map<string, Place>,
    zones: set<string>)

  /** Every configured location was built through the `tz` validator. */
  predicate ConfiguredValid(src: Sources) {
    forall i :: 0 <= i < |src.configured| ==> ValidLocation(src.configured[i], src.zones)
  }

  /** Two keys that are equal once lower-cased. */
  predicate SameKey(a: string, b: string) {
    Lower(a) == Lower(b)
  }

  /** Index of the first configured location whose key matches `key`
      case-insensitively. */
  function FirstConfigured(locs: seq<Location>, key: string): (r: Option<nat>)
    ensures r.Some? ==> r.value < |locs| && SameKey(locs[r.value].key, key)
    ensures r.Some? ==> forall i :: 0 <= i < r.value ==> !SameKey(locs[i].key, key)
    ensures r.None? ==> forall i :: 0 <= i < |locs| ==> !SameKey(locs[i].key, key)
  {
    if locs == [] then None
    else if SameKey(locs[0].key, key) then Some(0)
    else match FirstConfigured(locs[1..], key)
      case None => None
      case Some(k) => Some(k + 1)
  }

  /** The description built for an airport or a city: "name, country". */
  function Describe(p: Place): string {
    p.name + ", " + p.country
  }

  /** The Location an airport entry stands for: it keeps the caller's key. */
  function FromAirport(key: string, p: Place, zones: set<string>): Result<Location, Error> {
    NewLocation(key, Describe(p), p.tz, zones)
  }

  /** The Location a city entry stands for: it has no key. */
  function FromCity(p: Place, zones: set<string>): Result<Location, Error> {
    NewLocation("", Describe(p), p.tz, zones)
  }

  /** What `location_by_key` returns or raises. */
  function Resolve(key: string, src: Sources): Result<Location, Error> {
    match FirstConfigured(src.configured, key)
    case Some(i) => Success(src.configured[i])
    case None =>
      if Upper(key) in src.iata then FromAirport(key, src.iata[Upper(key)], src.zones)
      else if Upper(key) in src.icao then FromAirport(key, src.icao[Upper(key)], src.zones)
      else if Lower(key) in src.cities then FromCity(src.cities[Lower(key)], src.zones)
      else if key !in src.zones then Failure(ZoneInfoNotFound(key))
      else NewLocation("", "", key, src.zones)
  }

  /** The resolver as the source writes it: a scan of the configured list
      with early return, a scan of the two airport tables in order, then the
      city table and the timezone names. */
  method LocationByKey(key: string, src: Sources) returns (r: Result<Location, Error>)
    ensures r == Resolve(key, src)
  {
    var locs := src.configured;
    for i := 0 to |locs|
      invariant forall k :: 0 <= k < i ==> !SameKey(locs[k].key, key)
    {
      if Lower(locs[i].key) == Lower(key) {
        assert FirstConfigured(locs, key) == Some(i);
        return Success(locs[i]);
      }
    }
    assert FirstConfigured(locs, key) == None;
    var airports := [src.iata, src.icao];
    for t := 0 to |airports|
      invariant t > 0 ==> Upper(key) !in src.iata
      invariant t > 1 ==> Upper(key) !in src.icao
    {
      var table := airports[t];
      if Upper(key) in table {
        var entry := table[Upper(key)];
        assert t == 0 ==> entry == src.iata[Upper(key)];
        assert t == 1 ==> entry == src.icao[Upper(key)];
        return NewLocation(key, Describe(entry), entry.tz, src.zones);
      }
    }
    if Lower(key) in src.cities {
      var city := src.cities[Lower(key)];
      return NewLocation("", Describe(city), city.tz, src.zones);
    }
    if key !in src.zones {
      return Failure(ZoneInfoNotFound(key));
    }
    return NewLocation("", "", key, src.zones);
  }

  // -----------------------------------------------------------------------
  // Properties
  // -----------------------------------------------------------------------

  /** No source answers `key`. */
  predicate Unknown(key: string, src: Sources) {
    FirstConfigured(src.configured, key).None? &&
    Upper(key) !in src.iata && Upper(key) !in src.icao && Lower(key) !in src.cities
  }

  /** The place a table hit takes its data from, in the order the tables are
      asked (only meaningful when no configured location matches). */
  function TableHit(key: string, src: Sources): Option<Place> {
    if Upper(key) in src.iata then Some(src.iata[Upper(key)])
    else if Upper(key) in src.icao then Some(src.icao[Upper(key)])
    else if Lower(key) in src.cities then Some(src.cities[Lower(key)])
    else None
  }

  /** A configured alias wins over every other source: the first configured
      location whose key matches, in any case, is returned as is, whatever
      the airport, city and zone sources hold. */
  lemma ConfiguredFirst(key: string, src: Sources, other: Sources, i: nat)
    requires i < |src.configured| && SameKey(src.configured[i].key, key)
    requires forall k :: 0 <= k < i ==> !SameKey(src.configured[k].key, key)
    requires other.configured == src.configured
    ensures Resolve(key, src) == Success(src.configured[i])
    ensures Resolve(key, other) == Resolve(key, src)
  {
    var f := FirstConfigured(src.configured, key);
    assert f == Some(i);
  }

  /** Which error is raised: ZoneInfoNotFound(key) exactly when no source
      knows the key, UnknownTimezone when a table entry names a zone the
      database lacks; a configured alias never fails. */
  lemma ResolveFailures(key: string, src: Sources)
    ensures Resolve(key, src) == Failure(ZoneInfoNotFound(key)) <==> Unknown(key, src) && key !in src.zones
    ensures Resolve(key, src).Failure? <==>
      (Unknown(key, src) && key !in src.zones) ||
      (FirstConfigured(src.configured, key).None? && TableHit(key, src).Some? &&
        TableHit(key, src).value.tz !in src.zones)
    ensures Resolve(key, src).Failure? && !Unknown(key, src) ==>
      Resolve(key, src) == Failure(UnknownTimezone(TableHit(key, src).value.tz))
  {
  }

  /** What each branch returns: an airport hit keeps the caller's key, a city
      hit has an empty key, both describe the place as "name, country"; the
      timezone fallback has empty key and description. */
  lemma BranchResults(key: string, src: Sources)
    requires FirstConfigured(src.configured, key).None?
    ensures TableHit(key, src).Some? && TableHit(key, src).value.tz in src.zones ==>
      var p := TableHit(key, src).value;
      Resolve(key, src).Success? &&
      Resolve(key, src).value.description == p.name + ", " + p.country &&
      Resolve(key, src).value.tz == ZoneInfo(p.tz) &&
      Resolve(key, src).value.key == (if Upper(key) in src.iata || Upper(key) in src.icao then key else "")
    ensures TableHit(key, src).None? && key in src.zones ==>
      Resolve(key, src) == Success(Location("", "", ZoneInfo(key)))
  {
  }

  /** Every successful answer carries a zone the database knows. */
  lemma ResolveValid(key: string, src: Sources)
    requires ConfiguredValid(src)
    ensures Resolve(key, src).Success? ==> ValidLocation(Resolve(key, src).value, src.zones)
  {
    match FirstConfigured(src.configured, key)
    case Some(i) =>
    case None =>
  }

  /** The name of a Location: the configured key, the caller's own key for
      an airport, or empty. */
  lemma ResolvedKey(key: string, src: Sources)
    ensures Resolve(key, src).Success? ==>
      var k := Resolve(key, src).value.key;
      SameKey(k, key) || k == key || k == ""
  {
  }

  /** Case does not matter to aliases, airports and cities: two keys equal
      once lower-cased get the same answer from them, up to the key an
      airport hit keeps. */
  lemma CaseInsensitiveTables(a: string, b: string, src: Sources)
    requires SameKey(a, b)
    requires !Unknown(a, src)
    ensures !Unknown(b, src)
    ensures Resolve(a, src).Success? == Resolve(b, src).Success?
    ensures Resolve(a, src).Success? ==>
      Resolve(a, src).value.description == Resolve(b, src).value.description &&
      Resolve(a, src).value.tz == Resolve(b, src).value.tz
  {
    CaseFold(a, b);
    var fa, fb := FirstConfigured(src.configured, a), FirstConfigured(src.configured, b);
    assert fa == fb by {
      SameConfigured(src.configured, a, b);
    }
  }

  lemma {:induction false} SameConfigured(locs: seq<Location>, a: string, b: string)
    requires SameKey(a, b)
    ensures FirstConfigured(locs, a) == FirstConfigured(locs, b)
  {
    if locs != [] {
      SameConfigured(locs[1..], a, b);
    }
  }

  /** A timezone name is looked up exactly: a wrongly cased name that no
      other source knows is not found. */
  lemma ZoneNameCaseSensitive(key: string, src: Sources)
    requires Unknown(key, src) && key !in src.zones
    requires exists z :: z in src.zones && SameKey(z, key)
    ensures Resolve(key, src) == Failure(ZoneInfoNotFound(key))
  {
  }

  // -----------------------------------------------------------------------
  // The default configuration
  // -----------------------------------------------------------------------

  /** The configured locations shipped as defaults. */
  const DefaultLocations: seq<Location> := [
    Location("klu", "Klagenfurt, Austria", ZoneInfo("Europe/Vienna")),
    Location("els", "El Segundo, USA", ZoneInfo("America/Los_Angeles")),
    Location("sin", "Singapore", ZoneInfo("Asia/Singapore")),
    Location("utc", "Greenwich, UK", ZoneInfo("UTC"))
  ]

  /** "SIN" names the Singapore alias even where it is also an airport code:
      the alias is found whatever case the key is written in. */
  lemma DefaultAliasWins(src: Sources)
    requires src.configured == DefaultLocations
    ensures Resolve("SIN", src) == Success(Location("sin", "Singapore", ZoneInfo("Asia/Singapore")))
    ensures Resolve("Klu", src) == Success(Location("klu", "Klagenfurt, Austria", ZoneInfo("Europe/Vienna")))
  {
    assert Lower("SIN") == "sin";
    assert Lower("Klu") == "klu";
    assert Lower("klu")[0] == 'k' && Lower("els")[0] == 'e';
    ConfiguredFirst("SIN", src, src, 2);
    ConfiguredFirst("Klu", src, src, 0);
  }
}
