/** `find_locations` of generate_cities.py: build the city table from the
    lines of a geonames dump. Each line is a tab-separated record; comment
    lines and records without a timezone are skipped, records with a
    feature code are stored under their lower-cased ASCII name, a later
    record overwriting an earlier one of the same name. The lines are bytes;
    the UTF-8 decoding of a field is outside the model and passed in. */
module Cities {
  import opened Wrappers
  import opened Text
  import opened Model
  import opened Integer

  type Byte = x: int | 0 <= x < 256
  type Bytes = seq<Byte>

  /** UTF-8 decoding of a field: None where `bytes.decode` raises. */
  type Decoder = Bytes -> Option<string>

  // Column indices of a geonames record.
  const ASCIINAME: nat := 2
  const FEATURE_CODE: nat := 7
  const COUNTRY_CODE: nat := 8
  const POPULATION: nat := 14
  const TIMEZONE: nat := 17

  const Tab: Byte := 9
  const Hash: Byte := 35
  const PPLA: Bytes := [80, 80, 76, 65]
  const PPLC: Bytes := [80, 80, 76, 67]
  const US: Bytes := [85, 83]

  /** `(feature_code != b"PPLC", country_code != b"US", -population)`. */
  datatype SortKey = SortKey(notCapital: bool, notUS: bool, negPopulation: int)

  /** The generator's Location record: `sort_key` is not serialised. */
  datatype CityRecord = CityRecord(name: string, country: string, tz: string, sortKey: SortKey)

  /** Why the build stops. */
  datatype BuildError =
    | IndexOutOfRange(index: nat)   // a record with too few fields
    | NotUtf8(field: Bytes)         // a field that does not decode
    | NotAnInteger(text: string)    // a population that `int()` rejects

  /** What one line contributes. */
  datatype LineOutcome = Skip | Accept(key: string, record: CityRecord) | Fail(error: BuildError)

  /** The bytes `bytes.rstrip()` removes: space, \t, \n, \v, \f, \r. */
  predicate IsAsciiWhitespace(b: Byte) {
    b == 32 || 9 <= b <= 13
  }

  /** A line after `rstrip()`. */
  function Trim(line: Bytes): Bytes {
    StripRight(line, IsAsciiWhitespace)
  }

  predicate IsComment(line: Bytes) {
    |Trim(line)| > 0 && Trim(line)[0] == Hash
  }

  /** The fields of a line: the stripped line split on tabs. */
  function Fields(line: Bytes): (f: seq<Bytes>)
    ensures |f| >= 1
  {
    Split(Trim(line), [Tab])
  }

  /** `feature_code in (b"PPLA", b"PPLC") or feature_code[:1]`. */
  predicate FeatureAccepted(fc: Bytes) {
    fc == PPLA || fc == PPLC || fc[..if |fc| < 1 then |fc| else 1] != []
  }

  /** The record a line with enough fields and a feature code stands for,
      decoded field by field in the order the source does. */
  function MakeRecord(f: seq<Bytes>, utf8: Decoder): Result<CityRecord, BuildError>
    requires |f| > TIMEZONE
  {
    var name :- Decode(f[ASCIINAME], utf8);
    var country :- Decode(f[COUNTRY_CODE], utf8);
    var tz :- Decode(f[TIMEZONE], utf8);
    var populationText :- Decode(f[POPULATION], utf8);
    match ParseInt(populationText)
    case None => Failure(NotAnInteger(populationText))
    case Some(population) =>
      Success(CityRecord(name, country, tz,
        SortKey(f[FEATURE_CODE] != PPLC, f[COUNTRY_CODE] != US, -population)))
  }

  function Decode(field: Bytes, utf8: Decoder): Result<string, BuildError>
  {
    match utf8(field)
    case None => Failure(NotUtf8(field))
    case Some(text) => Success(text)
  }

  /** What one line of the dump does to the table. */
  function Classify(line: Bytes, utf8: Decoder): LineOutcome {
    if IsComment(line) then Skip else ClassifyFields(Fields(line), utf8)
  }

  /** What a line that is not a comment does, by its fields: the timezone
      field is read first, then the feature code is tested. */
  function ClassifyFields(f: seq<Bytes>, utf8: Decoder): LineOutcome {
    if |f| <= TIMEZONE then Fail(IndexOutOfRange(TIMEZONE))
    else if f[TIMEZONE] == [] then Skip
    else if !FeatureAccepted(f[FEATURE_CODE]) then Skip
    else match MakeRecord(f, utf8)
      case Failure(e) => Fail(e)
      case Success(rec) => Accept(Lower(rec.name), rec)
  }

  /** What each line of the dump does, in order. */
  function Outcomes(lines: seq<Bytes>, utf8: Decoder): (os: seq<LineOutcome>)
    ensures |os| == |lines|
    ensures forall i :: 0 <= i < |lines| ==> os[i] == Classify(lines[i], utf8)
  {
    seq(|lines|, i requires 0 <= i < |lines| => Classify(lines[i], utf8))
  }

  /** One line's outcome applied to the table built so far. */
  function Store(sofar: Result<map<string, CityRecord>, BuildError>, o: LineOutcome): Result<map<string, CityRecord>, BuildError> {
    var table :- sofar;
    match o
    case Skip => Success(table)
    case Accept(key, rec) => Success(table[key := rec])
    case Fail(e) => Failure(e)
  }

  /** The outcomes applied in order to an empty table. */
  function Apply(os: seq<LineOutcome>): Result<map<string, CityRecord>, BuildError> {
    if os == [] then Success(map[]) else Store(Apply(os[..|os| - 1]), os[|os| - 1])
  }

  /** The table built from `lines`, or the error of the first line that
      fails. */
  function Build(lines: seq<Bytes>, utf8: Decoder): Result<map<string, CityRecord>, BuildError> {
    Apply(Outcomes(lines, utf8))
  }

  /** Building one more line stores that line's outcome. */
  lemma BuildNext(lines: seq<Bytes>, i: nat, utf8: Decoder)
    requires i < |lines|
    ensures Build(lines[..i + 1], utf8) == Store(Build(lines[..i], utf8), Classify(lines[i], utf8))
  {
    var os := Outcomes(lines[..i + 1], utf8);
    assert os[..i] == Outcomes(lines[..i], utf8);
  }

  /** `find_locations`: one pass over the lines, skipping with `continue`,
      storing each accepted record under its key in place. */
  method FindLocations(lines: seq<Bytes>, utf8: Decoder) returns (r: Result<map<string, CityRecord>, BuildError>)
    ensures r == Build(lines, utf8)
  {
    var locations: map<string, CityRecord> := map[];
    for i := 0 to |lines|
      invariant Build(lines[..i], utf8) == Success(locations)
    {
      BuildNext(lines, i, utf8);
      var line := StripRight(lines[i], IsAsciiWhitespace);
      if |line| > 0 && line[0] == Hash {
        continue;
      }
      var pieces := Split(line, [Tab]);
      if |pieces| <= TIMEZONE {
        BuildFailureStays(lines, i + 1, utf8);
        return Failure(IndexOutOfRange(TIMEZONE));
      }
      var tz := pieces[TIMEZONE];
      if tz == [] {
        continue;
      }
      var featureCode := pieces[FEATURE_CODE];
      if featureCode == PPLA || featureCode == PPLC || featureCode[..if |featureCode| < 1 then |featureCode| else 1] != [] {
        var record := MakeRecord(pieces, utf8);
        if record.Failure? {
          BuildFailureStays(lines, i + 1, utf8);
          return Failure(record.error);
        }
        var name := record.value.name;
        locations := locations[Lower(name) := record.value];
      }
    }
    assert lines[..|lines|] == lines;
    return Success(locations);
  }

  /** Once a prefix of the lines fails, the whole build fails the same way. */
  lemma {:induction false} BuildFailureStays(lines: seq<Bytes>, n: nat, utf8: Decoder)
    requires n <= |lines| && Build(lines[..n], utf8).Failure?
    ensures Build(lines, utf8) == Build(lines[..n], utf8)
    decreases |lines| - n
  {
    if n < |lines| {
      BuildNext(lines, n, utf8);
      BuildFailureStays(lines, n + 1, utf8);
    } else {
      assert lines[..n] == lines;
    }
  }

  /** The table as `cities.json` holds it: `sort_key` left out. */
  function Serialise(table: map<string, CityRecord>): map<string, Place>
  {
    map k | k in table :: Place(table[k].name, table[k].country, table[k].tz)
  }

  // -----------------------------------------------------------------------
  // Properties of one line
  // -----------------------------------------------------------------------

  /** Lines starting with "#" are comments and are skipped. */
  lemma CommentSkipped(line: Bytes, utf8: Decoder)
    requires |line| > 0 && line[0] == Hash
    ensures Classify(line, utf8) == Skip
  {
    var t := Trim(line);
    assert !IsAsciiWhitespace(line[0]);
    assert |t| > 0 && t[0] == Hash;
  }

  /** A record with fewer than 18 fields makes the build fail (the timezone
      field is read first); one whose timezone field is empty is skipped. */
  lemma TimezoneField(f: seq<Bytes>, utf8: Decoder)
    ensures |f| <= TIMEZONE ==> ClassifyFields(f, utf8) == Fail(IndexOutOfRange(TIMEZONE))
    ensures |f| > TIMEZONE && f[TIMEZONE] == [] ==> ClassifyFields(f, utf8) == Skip
  {
  }

  /** The feature-code test amounts to "the feature code is not empty":
      PPLA and PPLC are non-empty themselves. */
  lemma FeatureFilter(fc: Bytes)
    ensures FeatureAccepted(fc) <==> fc != []
  {
    if fc != [] {
      assert fc[..1] != [];
    }
  }

  /** A record is skipped exactly when its timezone field or its feature
      code is empty; otherwise it is stored or the build fails. */
  lemma SkipCases(f: seq<Bytes>, utf8: Decoder)
    requires |f| > TIMEZONE
    ensures ClassifyFields(f, utf8) == Skip <==> f[TIMEZONE] == [] || f[FEATURE_CODE] == []
  {
    FeatureFilter(f[FEATURE_CODE]);
  }

  /** A stored record: the key is the lower-cased ASCII name; name, country
      and zone are the decoded fields 2, 8 and 17; the sort key is computed
      from fields 7, 8 and 14. */
  lemma AcceptedRecord(f: seq<Bytes>, utf8: Decoder)
    requires ClassifyFields(f, utf8).Accept?
    ensures var rec := ClassifyFields(f, utf8).record;
      |f| > TIMEZONE && f[TIMEZONE] != [] && f[FEATURE_CODE] != [] &&
      ClassifyFields(f, utf8).key == Lower(rec.name) &&
      utf8(f[ASCIINAME]) == Some(rec.name) &&
      utf8(f[COUNTRY_CODE]) == Some(rec.country) &&
      utf8(f[TIMEZONE]) == Some(rec.tz) &&
      utf8(f[POPULATION]).Some? &&
      ParseInt(utf8(f[POPULATION]).value) == Some(-rec.sortKey.negPopulation) &&
      rec.sortKey.notCapital == (f[FEATURE_CODE] != PPLC) &&
      rec.sortKey.notUS == (f[COUNTRY_CODE] != US)
  {
    FeatureFilter(f[FEATURE_CODE]);
    RecordFields(f, utf8);
  }

  /** A record built from the fields holds their decoded text. */
  lemma RecordFields(f: seq<Bytes>, utf8: Decoder)
    requires |f| > TIMEZONE && MakeRecord(f, utf8).Success?
    ensures var rec := MakeRecord(f, utf8).value;
      utf8(f[ASCIINAME]) == Some(rec.name) &&
      utf8(f[COUNTRY_CODE]) == Some(rec.country) &&
      utf8(f[TIMEZONE]) == Some(rec.tz) &&
      utf8(f[POPULATION]).Some? &&
      ParseInt(utf8(f[POPULATION]).value) == Some(-rec.sortKey.negPopulation) &&
      rec.sortKey.notCapital == (f[FEATURE_CODE] != PPLC) &&
      rec.sortKey.notUS == (f[COUNTRY_CODE] != US)
  {
    assert utf8(f[ASCIINAME]).Some? && utf8(f[COUNTRY_CODE]).Some? && utf8(f[TIMEZONE]).Some?;
    assert utf8(f[POPULATION]).Some?;
    var population := ParseInt(utf8(f[POPULATION]).value);
    assert population.Some?;
    assert MakeRecord(f, utf8).value.sortKey.negPopulation == -population.value;
  }

  /** A record that passes the filters but whose population is not a
      number makes the build fail with that text. */
  lemma PopulationMustBeNumber(f: seq<Bytes>, utf8: Decoder)
    requires |f| > TIMEZONE && f[TIMEZONE] != [] && f[FEATURE_CODE] != []
    requires utf8(f[ASCIINAME]).Some? && utf8(f[COUNTRY_CODE]).Some? && utf8(f[TIMEZONE]).Some?
    requires utf8(f[POPULATION]).Some? && ParseInt(utf8(f[POPULATION]).value) == None
    ensures ClassifyFields(f, utf8) == Fail(NotAnInteger(utf8(f[POPULATION]).value))
  {
    FeatureFilter(f[FEATURE_CODE]);
  }

  // -----------------------------------------------------------------------
  // Properties of the whole build
  // -----------------------------------------------------------------------

  /** The outcome at `i` stores a record under `key`. */
  predicate StoredAt(os: seq<LineOutcome>, i: int, key: string)
    requires 0 <= i < |os|
  {
    os[i].Accept? && os[i].key == key
  }

  /** The outcome at `i` stores under `key` and no later one does. */
  predicate LastStoredAt(os: seq<LineOutcome>, i: int, key: string)
    requires 0 <= i < |os|
  {
    StoredAt(os, i, key) && forall j :: i < j < |os| ==> !StoredAt(os, j, key)
  }

  lemma {:induction false} ApplyOutcome(os: seq<LineOutcome>)
    ensures Apply(os).Success? <==> forall i :: 0 <= i < |os| ==> !os[i].Fail?
    ensures Apply(os).Failure? ==>
      exists i :: 0 <= i < |os| && os[i].Fail? &&
        (forall j :: 0 <= j < i ==> !os[j].Fail?) && Apply(os).error == os[i].error
  {
    if os != [] {
      var init := os[..|os| - 1];
      ApplyOutcome(init);
      assert forall i :: 0 <= i < |init| ==> os[i] == init[i];
      if Apply(init).Failure? {
        var i :| 0 <= i < |init| && init[i].Fail? &&
          (forall j :: 0 <= j < i ==> !init[j].Fail?) && Apply(init).error == init[i].error;
        assert os[i] == init[i];
      } else if os[|os| - 1].Fail? {
        var i := |os| - 1;
        assert forall j :: 0 <= j < i ==> !os[j].Fail?;
      }
    }
  }

  lemma {:induction false} ApplyContents(os: seq<LineOutcome>)
    requires Apply(os).Success?
    ensures forall key :: key in Apply(os).value <==> exists i :: 0 <= i < |os| && StoredAt(os, i, key)
    ensures forall i, key :: 0 <= i < |os| && LastStoredAt(os, i, key) ==> Apply(os).value[key] == os[i].record
  {
    if os != [] {
      var n := |os| - 1;
      var init := os[..n];
      var o := os[n];
      ApplyContents(init);
      var table := Apply(init).value;
      var out := Apply(os).value;
      assert out == if o.Accept? then table[o.key := o.record] else table;
      assert forall i :: 0 <= i < n ==> os[i] == init[i];
      assert forall i, key :: 0 <= i < n ==> (StoredAt(os, i, key) <==> StoredAt(init, i, key));
      forall key
        ensures key in out <==> exists i :: 0 <= i < |os| && StoredAt(os, i, key)
      {
        if key in table {
          var i :| 0 <= i < n && StoredAt(init, i, key);
          assert StoredAt(os, i, key);
        }
        if StoredAt(os, n, key) {
          assert key in out;
        }
      }
      forall i, key | 0 <= i < |os| && LastStoredAt(os, i, key)
        ensures out[key] == os[i].record
      {
        if i < n {
          assert LastStoredAt(init, i, key);
          assert !StoredAt(os, n, key);
        }
      }
    }
  }

  /** The build succeeds exactly when no line fails; otherwise it fails
      with the error of the first line that does. */
  lemma BuildOutcome(lines: seq<Bytes>, utf8: Decoder)
    ensures Build(lines, utf8).Success? <==> forall i :: 0 <= i < |lines| ==> !Classify(lines[i], utf8).Fail?
    ensures Build(lines, utf8).Failure? ==>
      exists i :: 0 <= i < |lines| && Classify(lines[i], utf8).Fail? &&
        (forall j :: 0 <= j < i ==> !Classify(lines[j], utf8).Fail?) &&
        Build(lines, utf8).error == Classify(lines[i], utf8).error
  {
    ApplyOutcome(Outcomes(lines, utf8));
  }

  /** The keys of the table are the keys of the stored lines, and each key
      holds the record of the LAST line stored under it: a later record
      overwrites an earlier one whatever their sort keys. */
  lemma BuildContents(lines: seq<Bytes>, utf8: Decoder)
    requires Build(lines, utf8).Success?
    ensures var os := Outcomes(lines, utf8);
      forall key :: key in Build(lines, utf8).value <==> exists i :: 0 <= i < |lines| && StoredAt(os, i, key)
    ensures var os := Outcomes(lines, utf8);
      forall i, key :: 0 <= i < |lines| && LastStoredAt(os, i, key) ==>
        Build(lines, utf8).value[key] == Classify(lines[i], utf8).record
  {
    ApplyContents(Outcomes(lines, utf8));
  }

  /** Two records under the same key in different lines: the later one is
      kept, even when its sort key ranks it lower. */
  lemma LaterOverwrites(first: LineOutcome, second: LineOutcome)
    requires first.Accept? && second.Accept? && first.key == second.key
    ensures Apply([first, second]) == Success(map[second.key := second.record])
  {
    assert [first, second][..1] == [first] && [first][..0] == [];
    assert Apply([first]) == Success(map[first.key := first.record]);
    assert map[first.key := first.record][second.key := second.record] == map[second.key := second.record];
  }

  /** `sort_key` never reaches the output: tables that differ only in sort
      keys serialise the same. */
  lemma SortKeyNotSerialised(t1: map<string, CityRecord>, t2: map<string, CityRecord>)
    requires t1.Keys == t2.Keys
    requires forall k :: k in t1 ==>
      t1[k].name == t2[k].name && t1[k].country == t2[k].country && t1[k].tz == t2[k].tz
    ensures Serialise(t1) == Serialise(t2)
  {
  }
}
