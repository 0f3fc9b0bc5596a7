/** The record types of when/model.py: a resolved `Location`, whose `tz` is
    checked against the timezone database when it is built, and the `Zone`
    result record handed to the renderers. */
module Model {
  import opened Wrappers

  /** A loaded timezone object (`zoneinfo.ZoneInfo`); `str()` of it gives
      back its key. */
  datatype ZoneInfo = ZoneInfo(key: string)

  datatype Location = Location(key: string, description: string, tz: ZoneInfo)

  /** An entry of an airport table or of the city table: the fields of it
      the resolver reads. */
  datatype Place = Place(name: string, country: string, tz: string)

  /** The exceptions the core raises. */
  datatype Error =
    | CantParse(text: string)          // the splitter could not unpack a split
    | ZoneInfoNotFound(key: string)    // no source knows the location key
    | UnknownTimezone(tz: string)      // a Location was built with an unknown zone
    | ParserError(text: string)        // the date/time parser rejected a part

  /** The message text of the two errors whose wording the core chooses. */
  function Message(e: Error): string
    requires e.CantParse? || e.UnknownTimezone?
  {
    match e
    case CantParse(text) => "can't parse " + text
    case UnknownTimezone(tz) => "Unknown timezone '" + tz + "'"
  }

  /** A Location is valid when its zone is one the database knows. */
  predicate ValidLocation(loc: Location, known: set<string>) {
    loc.tz.key in known
  }

  /** Building a Location runs the `tz` validator: the zone name becomes a
      loaded zone object, or construction fails naming the zone. */
  function NewLocation(key: string, description: string, tz: string, known: set<string>): (r: Result<Location, Error>)
    ensures r.Success? <==> tz in known
    ensures r.Success? ==>
      ValidLocation(r.value, known) && r.value.key == key && r.value.description == description && r.value.tz.key == tz
    ensures r.Failure? ==> r.error == UnknownTimezone(tz) && Message(r.error) == "Unknown timezone '" + tz + "'"
  {
    if tz in known then Success(Location(key, description, ZoneInfo(tz)))
    else Failure(UnknownTimezone(tz))
  }

  /** One resolved location of a result: its name and description, the
      zone name, the UTC offset in seconds, and the formatted timestamps. */
  datatype Zone = Zone(name: string := "", description: string := "", tz: string, offset: int, times: seq<string>)

  /** `name` and `description` may be left out and are then empty. */
  lemma ZoneDefaults(tz: string, offset: int, times: seq<string>)
    ensures var z := Zone(tz := tz, offset := offset, times := times);
      z.name == "" && z.description == "" && z.tz == tz && z.offset == offset && z.times == times
  {
  }
}
