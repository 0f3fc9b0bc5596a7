# when-cli core, modelled in Dafny

`when` shows a time, or a range of hours, in several places at once. The
user writes a time string such as `"6:00 - 10:00 in LAX"` and a list of
location keys. The core then does four things:

1. It splits the time string into a start expression, an end expression
   and a zone token (`split_time_string`).
2. It resolves every key to a `Location`: a configured alias, an IATA or
   ICAO airport, a city, or a timezone name (`location_by_key`).
3. It reads the start and end in the zone of the zone token, or in the
   default zone when there is no token (`Tzone`).
4. For every location it lists the whole hours from start to end, shown in
   that location's zone, together with the zone's current UTC offset
   (`when`).

A separate generator (`find_locations`) builds the city table from a
geonames dump.

The project models these pieces in these modules:

| file | module | models |
|---|---|---|
| `wrappers.dfy` | `Wrappers` | `Option` and `Result` |
| `text.dfy` | `Text` | the string built-ins the source relies on: `strip`, `rstrip`, `in`, `split`, `lower`, `upper` (ASCII); `in` and `split` are defined through a leftmost-occurrence search |
| `model.dfy` | `Model` | `Location` with its `tz` validator, `Zone`, the error kinds |
| `splitter.dfy` | `Splitter` | `split_time_string` |
| `resolver.dfy` | `Resolver` | `location_by_key` and the default aliases |
| `assembler.dfy` | `Assembler` | `Tzone` (`__init__`, `convert`, `utc_offset`) and `when` |
| `integer.dfy` | `Integer` | Python's `int()` on a decimal string |
| `cities.dfy` | `Cities` | `find_locations` and the generator's `Location` record |

The source's loops stay loops:

- `SplitTimeString` and `ScanRanges` model the two separator scans with
  `break`.
- `LocationByKey` models the resolver's scans with early return.
- `When` models the loop that appends one zone per key.
- `FindLocations` models the loop over the dump with `continue`, which
  writes into a map in place.

Each of these methods is proved equal to a function that states the result
declaratively: `TimeStringParts`, `RangeParts`, `Resolve`, `WhenOf` and
`Build`. The lemmas state the properties of those functions.

Time is modelled as whole seconds since the epoch. A timestamp is an instant
together with the zone it is shown in. Three things come from outside the
model and are passed in as functions of an `Env` value:

- the date/time parser (`parse_time_string`, which uses dateutil and arrow);
- the current UTC offset of a zone (`arrow.now(tz).utcoffset()`);
- ISO formatting.

The lookup sources are passed in as a `Sources` value: the configured
locations, the two airport tables, the city table and the set of timezone
names the database knows. The UTF-8 decoding of a dump field is a
parameter of the city builder.

Three behaviours of the code that are easy to miss:

- The "can't parse" error carries the working text at the moment of
  failure, not always the original input. A failed range split reports
  only the text before the zone separator (when/when.py:90-102).
- An end before the start gives an empty list of hours, not an error
  (when/when.py:75).
- When city names collide, the later line of the dump overwrites the
  earlier one. `sort_key` is computed but never used to choose
  (generate_cities.py:73-82).

## Model

| member | source | states |
|---|---|---|
| `Model.NewLocation` | when/model.py:9-19 | building a Location succeeds exactly when the zone is known; the result is valid and keeps key, description and zone name; otherwise the error is UnknownTimezone naming the zone, carrying the validator's message `Unknown timezone '<tz>'` (pydantic's ValidationError wrapper around it is not modelled) |
| `Model.ZoneDefaults` | when/model.py:22-27 | a Zone built without name and description has both empty, and keeps the zone, offset and times it was given |
| `Splitter.FirstPresent` | when/when.py:88-91 | the scan stops at a separator that occurs, and none of the separators before it occurs; it finds nothing only when no separator occurs |
| `Splitter.FirstPresentIs` | when/when.py:88-91 | the scan stops at index i whenever separator i occurs and none before it does |
| `Splitter.FirstPresentNone` | when/when.py:88-91 | the scan finds nothing when no separator occurs |
| `Splitter.TimeStringParts` | when/when.py:83-102 | on success the three parts have no surrounding whitespace; the only failure is "can't parse" |
| `Splitter.SplitTimeString` | when/when.py:83-102 | the two loops with `break` and reassignment return exactly `TimeStringParts` |
| `Splitter.ScanRanges` | when/when.py:93-100 | the range scan with `break` returns exactly `RangeParts` of the pre-zone text |
| `Splitter.NoSeparator` | when/when.py:85-100 | a string with none of the six separators gives `(strip(s), "", "")` |
| `Splitter.SplitFailures` | when/when.py:86-102 | the split fails exactly when the chosen zone separator occurs again, or when the chosen range separator occurs again in the pre-zone text; the error carries the whole input in the first case and the pre-zone text in the second, and its message reads `can't parse <that text>` |
| `Splitter.RangeFailures` | when/when.py:95-102 | the range stage fails exactly when its chosen separator occurs again, and then reports the text it scanned |
| `Splitter.RangeSearchedBeforeZoneOnly` | when/when.py:88-97 | for `t1 + "@" + tz` with no range separator in t1, the result is `(strip(t1), "", strip(tz))` even when tz holds range separators |
| `Splitter.MixedCaseNotSeparator` | when/when.py:88 | `" In "` is not a zone separator: a string whose only separator-like text is `" In "` is returned whole |
| `Splitter.PicksAt` | when/when.py:88-97 | a separator that occurs at one position only, with none before it in the list, is chosen, and the split cuts there |
| `Splitter.RangeCut` | when/when.py:95-97 | in `x + r + y` the range scan chooses r and cuts into x and y |
| `Splitter.ZoneCut` | when/when.py:88-90 | in `x + z + y` the zone scan chooses z and cuts into x and y |
| `Splitter.RangeRoundTrip` | when/when.py:93-100 | the range stage on `t1 + r + t2` gives back t1 and t2 for trimmed, separator-free parts |
| `Splitter.RoundTripRange` | tests/test_tzone.py:51-66 | splitting `t1 + r + t2` gives `(t1, t2, "")` for every range separator r |
| `Splitter.RoundTrip` | tests/test_tzone.py:51-66 | splitting `t1 + r + t2 + z + tz` gives `(t1, t2, tz)` for every range separator r and every zone separator z |
| `Splitter.RoundTripSpacedAt` | tests/test_tzone.py:50-66 | splitting `t1 + r + t2 + " @" + tz`, the form the tests build, gives `(t1, t2, tz)` |
| `Splitter.SpacedAtZone` | when/when.py:88-91 | for `t1 + r + t2 + " @" + tz` the zone scan cuts at "@" |
| `Splitter.SpacedAtRange` | when/when.py:93-100 | the space left before "@" ends up in the end expression and is stripped away |
| `Resolver.FirstConfigured` | when/when.py:18-20 | finds the first configured location whose key equals the given key ignoring case; finds none only when no key matches |
| `Resolver.LocationByKey` | when/when.py:15-42 | the scans with early return return exactly `Resolve` |
| `Resolver.ConfiguredFirst` | when/when.py:18-20 | the first configured alias that matches in any case is returned as is, whatever the airport, city and zone sources hold |
| `Resolver.ResolveFailures` | when/when.py:24-42 | ZoneInfoNotFound(key) is raised exactly when no source knows the key; the only other failure is an unknown zone in a table entry |
| `Resolver.BranchResults` | when/when.py:26-42 | an airport hit keeps the caller's key and a city hit has an empty key; both are described as "name, country"; the timezone fallback has an empty key and an empty description |
| `Resolver.ResolveValid` | when/when.py:15-42 | every successful answer holds a zone the database knows |
| `Resolver.ResolvedKey` | when/when.py:15-42 | a resolved key is the alias's key, the caller's key, or empty |
| `Resolver.CaseInsensitiveTables` | when/when.py:19-33 | two keys equal ignoring case find the same alias, airport or city: same success, description and zone |
| `Resolver.SameConfigured` | when/when.py:18-20 | keys equal ignoring case pick the same configured entry |
| `Resolver.ZoneNameCaseSensitive` | when/when.py:39-40 | a zone name that differs from a known zone only in letter case, and that no other source knows, raises ZoneInfoNotFound |
| `Resolver.DefaultAliasWins` | when/config.py:11-16 | with the shipped aliases, "SIN" resolves to the Singapore alias and "Klu" to the Klagenfurt one |
| `Assembler.NewTzone` | when/when.py:62-70 | the constructor's early returns build exactly `TzoneOf`: split, resolve the zone token (or the default), parse the start, and parse the end when there is one |
| `Assembler.TzoneZone` | when/when.py:64-70 | the times are read in the zone the token resolves to, or in the default zone when the token is empty; t1 is the start expression parsed in that zone, t2 the end expression parsed in it when there is one, and both share that zone |
| `Assembler.TzoneFailures` | when/when.py:64-70 | building a Tzone fails with the split's error, else the zone token's resolution error, else ParserError of the start, else ParserError of a non-empty end; it succeeds exactly when none of these happens |
| `Assembler.WhenTzoneFailure` | when/when.py:45-46 | when the Tzone cannot be built, `when` fails with that same error whatever the keys |
| `Assembler.NoEndOneTime` | when/when.py:70 | without an end expression the end is the start, so exactly one timestamp is listed |
| `Assembler.HourRangeShape` | when/when.py:72-75 | the range lists start, start + 1h, and so on: `HourCount` timestamps, all in the zone asked for, none past the end, and one more hour would pass it |
| `Assembler.ConvertKeepsInstants` | when/when.py:72-75 | conversion to any two zones lists the same instants, each shown in its own zone |
| `Assembler.EndBeforeStart` | when/when.py:72-75 | an end before the start gives no timestamps |
| `Assembler.WholeSeconds` | when/when.py:79 | `int()` of the seconds cuts toward zero, for negative offsets too |
| `Assembler.UtcOffsetMeaning` | when/when.py:77-80 | the offset is 0 when the zone reports none or zero; otherwise it is the reported offset cut toward zero; a whole number of seconds comes back exactly |
| `Assembler.When` | when/when.py:45-59 | the loop that appends one zone per key returns exactly `WhenOf` |
| `Assembler.FailureStays` | when/when.py:48-49 | once a key fails, the whole call fails with that error |
| `Assembler.ZonesShape` | when/when.py:47-58 | there is one Zone per key, in input order, each built from that key's resolved location |
| `Assembler.ZoneContents` | when/when.py:51-57 | a Zone holds the location's key, description and zone name, the zone's offset, and the hours from start to end formatted in that zone |
| `Assembler.WhenResult` | when/when.py:45-59 | `when` succeeds exactly when the Tzone is built and every key resolves; then it returns one zone per key, named after the resolved key, and all zones have the same number of times |
| `Assembler.ZonesAllResolve` | when/when.py:48-49 | the zones are built exactly when every key resolves; otherwise the error is that of the first key that does not |
| `Integer.RunValueShowNat` | generate_cities.py:80 | the decimal digits of a number form a digit run that reads back as the number |
| `Integer.ParseShow` | generate_cities.py:80 | `int(str(n)) == n` for every integer n |
| `Integer.ParseShowNat` | generate_cities.py:80 | `int()` reads back the digits of a non-negative number |
| `Integer.ParseShowNegative` | generate_cities.py:80 | `int()` reads back a minus sign followed by the digits |
| `Integer.NegativeRun` | generate_cities.py:80 | a minus sign followed by a digit run reads as the negated run, with nothing around it for `int()` to skip |
| `Integer.ParseTrimmed` | generate_cities.py:80 | text with no surrounding whitespace of the kind `int()` skips is read as it stands |
| `Integer.IntStripPadded` | generate_cities.py:80 | the whitespace `int()` skips around a trimmed text is exactly what it cuts |
| `Integer.ParseAroundSpaces` | generate_cities.py:80 | whitespace `int()` skips (ASCII space and \t..\r, and the non-ASCII spaces) around a number does not change what it reads |
| `Integer.InfoSeparatorNotSkipped` | generate_cities.py:80 | `int()` does not skip U+001C..U+001F although `str.strip()` does: "\x1c5" is not a number |
| `Integer.NoDigitNoNumber` | generate_cities.py:80 | a text without a digit, the empty field among them, is not a number |
| `Cities.Fields` | generate_cities.py:61-64 | a line always has at least one field |
| `Cities.BuildNext` | generate_cities.py:59-82 | building one more line applies that line's outcome to the table built so far |
| `Cities.FindLocations` | generate_cities.py:54-84 | the loop with `continue` that writes into the map in place returns exactly `Build` |
| `Cities.BuildFailureStays` | generate_cities.py:59-82 | once a line fails, the whole build fails with that error |
| `Cities.CommentSkipped` | generate_cities.py:61-63 | a line starting with "#" is skipped |
| `Cities.TimezoneField` | generate_cities.py:64-68 | a record with fewer than 18 fields makes the build fail; a record with an empty timezone field is skipped |
| `Cities.FeatureFilter` | generate_cities.py:70-71 | the feature-code test accepts exactly the non-empty codes |
| `Cities.SkipCases` | generate_cities.py:66-71 | a record is skipped exactly when its timezone field or its feature code is empty |
| `Cities.AcceptedRecord` | generate_cities.py:72-82 | a stored record is keyed by its lower-cased ASCII name; name, country and zone are the decoded fields 2, 8 and 17; the sort key comes from fields 7, 8 and 14 |
| `Cities.RecordFields` | generate_cities.py:72-82 | a built record holds the decoded text of its fields and the parsed population |
| `Cities.PopulationMustBeNumber` | generate_cities.py:80 | a record that passes the filters but has a population that is not a number makes the build fail with that text |
| `Cities.ApplyOutcome` | generate_cities.py:59-82 | applying outcomes fails exactly when one of them fails, and then with the first such error |
| `Cities.ApplyContents` | generate_cities.py:73-82 | the table holds exactly the stored keys, each with the record of the last outcome stored under it |
| `Cities.BuildOutcome` | generate_cities.py:54-84 | the build succeeds exactly when no line fails; otherwise it fails with the error of the first failing line |
| `Cities.BuildContents` | generate_cities.py:73-82 | the keys of the table are the keys of the stored lines, and each key holds the record of the last line stored under it |
| `Cities.LaterOverwrites` | generate_cities.py:73-82 | of two records with the same key, the later one is kept, whatever their sort keys |
| `Cities.SortKeyNotSerialised` | generate_cities.py:17-20 | tables that differ only in sort keys serialise the same |

## Left out

- The date/time parser (`dateutil.parser.parse` and `arrow.get`) is the `Env.parse` parameter: it is free-form natural-language parsing in foreign libraries.
- The current UTC offset (`arrow.now(tz).utcoffset()`) is the `Env.nowOffset` parameter, in microseconds: it depends on the clock and the timezone database.
- ISO formatting of timestamps is the `Env.isoformat` parameter.
- Assembler.HourRange: steps by 3600 seconds of elapsed time. Arrow steps wall-clock hours in the zone and resolves times a DST change skips or repeats. That difference is not modelled.
- Assembler.WholeSeconds: works on exact integer microseconds. `timedelta.total_seconds()` returns a float, which is exact for every real-world offset.
- The timezone database, `airportsdata.load` and the reading of `cities.json` are the `Sources` value. `zoneinfo.ZoneInfo(name)` succeeding is modelled as the name being in `Sources.zones`.
- Model.NewLocation: the error keeps the validator's `ValueError` message only. pydantic wraps it in a `ValidationError`, and that wrapper is not modelled.
- Text.Lower and Text.Upper: map ASCII letters only. Python's `str.lower`/`str.upper` also map non-ASCII letters.
- Integer.ParseInt: accepts ASCII digits only. Python's `int()` also accepts other Unicode decimal digits.
- Cities: reading the dump file, `splitlines`, the progress bar, the JSON writing and the `click` command are not modelled. The builder takes the dump as a sequence of lines.
- Cities: the UTF-8 decoding of a field is the `Decoder` parameter.
- The CLI (`when/__main__.py`), the help rendering (`when/rich_typer.py`) and the packaging scripts are not modelled.
- The legacy copy under `when/when/` is not modelled.
- The loading of settings from environment variables and `get_localzone()` are not modelled. The default zone is the `Env.defaultTz` parameter, and the shipped aliases appear only as `Resolver.DefaultLocations`.
- Exceptions other than the four the core raises or propagates (for example, memory errors) are not modelled. `split_time_string`'s catch-all becomes the one way its split can fail: an unpacking that does not give two pieces.
