/**
 * The data-preparation script: turning raw origin-city names into canonical
 * keys for geocoding, writing the `key|x|y` coordinate file from the geocoder's
 * answers, and reading the database credentials.
 */
module DataPrep {
  import opened Wrappers
  import opened PyStr

  // ---------------------------------------------------------------------------
  // City-name normalisation (clean_city_text)
  // ---------------------------------------------------------------------------

  /** One row of `SELECT DISTINCT OriginCityName FROM ontime`; the script reads its only column as `city[0]`. */
  datatype CityRow = CityRow(originCityName: string)

  /**
   * The canonical key of one raw city name: the rule cascade of `clean_city_text`,
   * with Python's `find` (-1 when absent), its slicing (a bound of -1 counts from
   * the end) and its `in` substring test.
   */
  function CleanCity(raw: string): (key: string)
    ensures !NoSlashRule(raw) ==> raw[..Find(raw, '/')] <= key
    ensures NoSlashRule(raw) && ',' in raw ==> raw[..Find(raw, ',')] <= key
  {
    var slash := Find(raw, '/');
    var comma := Find(raw, ',');
    if slash > 0 then SliceTo(raw, slash) + SliceFrom(raw, comma)
    else if SliceFrom(raw, comma) == ", TT" then SliceTo(raw, comma)
    else if Contains(raw, ", CA") then SliceTo(raw, comma) + ", California"
    else if Contains(raw, ", LA") then SliceTo(raw, comma) + ", Louisiana"
    else if Contains(raw, ", PR") then SliceTo(raw, comma) + ", Puerto Rico"
    else raw
  }

  /** The slash rule does not fire: there is no '/', or the first one is the leading character. */
  predicate NoSlashRule(s: string)
  {
    '/' !in s || s[0] == '/'
  }

  /** A '/' after the start, first at `i`, keeps the text before it and the text from the first comma on. */
  lemma CleanCitySlash(s: string, i: int, c: int)
    requires 0 < i && FirstAt(s, '/', i)
    requires FirstAt(s, ',', c)
    ensures CleanCity(s) == s[..i] + s[c..]
  {
    FindAt(s, '/', i);
    FindAt(s, ',', c);
  }

  /** With a slash rule and no comma at all, `s[-1:]` appends the last character. */
  lemma CleanCitySlashNoComma(s: string, i: int)
    requires 0 < i && FirstAt(s, '/', i)
    requires ',' !in s
    ensures CleanCity(s) == s[..i] + [s[|s| - 1]]
  {
    FindAt(s, '/', i);
  }

  /** Without the slash rule, a text from the first comma on of exactly ", TT" is dropped. */
  lemma CleanCityTerritory(s: string, c: int)
    requires NoSlashRule(s)
    requires FirstAt(s, ',', c) && s[c..] == ", TT"
    ensures CleanCity(s) == s[..c]
  {
    FindAt(s, ',', c);
  }

  /** An occurrence of ", XX" anywhere puts a comma in `s`. */
  lemma OccurrenceHasComma(s: string, sub: string, i: int)
    requires |sub| > 0 && sub[0] == ',' && OccursAt(s, sub, i)
    ensures ',' in s
  {
    assert s[i..i + |sub|][0] == s[i];
  }

  /**
   * Otherwise, ", CA" anywhere in `s` (not only at the end) makes the result the
   * text before the first comma plus ", California"; the California test comes first.
   */
  lemma CleanCityCalifornia(s: string, c: int, i: int)
    requires NoSlashRule(s)
    requires FirstAt(s, ',', c) && s[c..] != ", TT"
    requires OccursAt(s, ", CA", i)
    ensures CleanCity(s) == s[..c] + ", California"
  {
    FindAt(s, ',', c);
  }

  /** Next ", LA" anywhere, when ", CA" occurs nowhere, gives ", Louisiana". */
  lemma CleanCityLouisiana(s: string, c: int, i: int)
    requires NoSlashRule(s)
    requires FirstAt(s, ',', c) && s[c..] != ", TT"
    requires forall j :: !OccursAt(s, ", CA", j)
    requires OccursAt(s, ", LA", i)
    ensures CleanCity(s) == s[..c] + ", Louisiana"
  {
    FindAt(s, ',', c);
  }

  /** Last ", PR" anywhere, when neither ", CA" nor ", LA" occurs, gives ", Puerto Rico". */
  lemma CleanCityPuertoRico(s: string, c: int, i: int)
    requires NoSlashRule(s)
    requires FirstAt(s, ',', c) && s[c..] != ", TT"
    requires forall j :: !OccursAt(s, ", CA", j) && !OccursAt(s, ", LA", j)
    requires OccursAt(s, ", PR", i)
    ensures CleanCity(s) == s[..c] + ", Puerto Rico"
  {
    FindAt(s, ',', c);
  }

  /** A name that no rule matches is its own key. */
  lemma CleanCityUnchanged(s: string)
    requires NoSlashRule(s)
    requires forall c :: FirstAt(s, ',', c) ==> s[c..] != ", TT"
    requires forall j :: !OccursAt(s, ", CA", j) && !OccursAt(s, ", LA", j) && !OccursAt(s, ", PR", j)
    ensures CleanCity(s) == s
  {
    if ',' in s {
      FindAt(s, ',', Find(s, ','));
    }
  }

  /** In particular a name with no comma and no slash after its start is its own key. */
  lemma {:induction false} CleanCityNoComma(s: string)
    requires NoSlashRule(s)
    requires ',' !in s
    ensures CleanCity(s) == s
  {
    forall j ensures !OccursAt(s, ", CA", j) && !OccursAt(s, ", LA", j) && !OccursAt(s, ", PR", j) {
      if OccursAt(s, ", CA", j) { OccurrenceHasComma(s, ", CA", j); }
      if OccursAt(s, ", LA", j) { OccurrenceHasComma(s, ", LA", j); }
      if OccursAt(s, ", PR", j) { OccurrenceHasComma(s, ", PR", j); }
    }
    CleanCityUnchanged(s);
  }

  /** California wins over Louisiana and Puerto Rico, wherever they occur (Louisiana over Puerto Rico is `CleanCityLouisiana`). */
  lemma CleanCityPrecedence(s: string, c: int, i: int, j: int)
    requires NoSlashRule(s)
    requires FirstAt(s, ',', c) && s[c..] != ", TT"
    requires OccursAt(s, ", CA", i) && (OccursAt(s, ", LA", j) || OccursAt(s, ", PR", j))
    ensures CleanCity(s) == s[..c] + ", California"
  {
    CleanCityCalifornia(s, c, i);
  }

  /** When `s` has a single comma, every ", XX" occurrence starts at it. */
  lemma OnlyCommaOccurrence(s: string, sub: string, c: int, j: int)
    requires FirstAt(s, ',', c) && ',' !in s[c + 1..]
    requires |sub| > 0 && sub[0] == ',' && OccursAt(s, sub, j)
    ensures j == c && sub == s[c..c + |sub|]
  {
    assert s[j..j + |sub|][0] == s[j];
  }

  /** The distinct raw names among the query rows. */
  function RawNames(cities: seq<CityRow>): set<string>
  {
    set k | 0 <= k < |cities| :: cities[k].originCityName
  }

  /** The table `clean_city_text` returns for a set of raw names. */
  function CleanedTable(names: set<string>): (table: map<string, string>)
    ensures table.Keys == names
    ensures forall raw :: raw in table ==> table[raw] == CleanCity(raw)
  {
    map raw | raw in names :: CleanCity(raw)
  }

  /**
   * `clean_city_text`: one entry per distinct raw name, each mapped to its
   * canonical key. A repeated row rewrites its entry with the same value, so
   * the result depends only on the set of names, not on their order or repeats.
   */
  method CleanCityText(cities: seq<CityRow>) returns (cleaned: map<string, string>)
    ensures cleaned.Keys == RawNames(cities)
    ensures forall raw :: raw in cleaned ==> cleaned[raw] == CleanCity(raw)
    ensures cleaned == CleanedTable(RawNames(cities))
  {
    cleaned := map[];
    for i := 0 to |cities|
      invariant cleaned == CleanedTable(RawNames(cities[..i]))
    {
      var raw := cities[i].originCityName;
      cleaned := cleaned[raw := CleanCity(raw)];
      RawNamesStep(cities, i);
      CleanedTableAdd(RawNames(cities[..i]), raw);
    }
    assert cities[..|cities|] == cities;
  }

  /** One more row adds its raw name. */
  lemma RawNamesStep(cities: seq<CityRow>, i: int)
    requires 0 <= i < |cities|
    ensures RawNames(cities[..i + 1]) == RawNames(cities[..i]) + {cities[i].originCityName}
  {
    assert cities[..i + 1][i] == cities[i];
    assert forall k :: 0 <= k < i ==> cities[..i + 1][k] == cities[..i][k];
  }

  /** Cleaning one more name sets that name's entry and leaves the others alone. */
  lemma CleanedTableAdd(names: set<string>, raw: string)
    ensures CleanedTable(names + {raw}) == CleanedTable(names)[raw := CleanCity(raw)]
  {
  }


  // ---------------------------------------------------------------------------
  // Writing the coordinate file (generate_basemap)
  // ---------------------------------------------------------------------------

  /** A geocoded position, as the geocoder returns it. */
  datatype Location = Location(longitude: real, latitude: real)

  /**
   * What one geocoder call gives: a timeout (caught and counted), no match
   * (`None`, on which `location.longitude` raises), or a location.
   */
  datatype GeocodeOutcome = TimedOut | NotFound | Found(location: Location)

  /** A projected map position, as the text the script writes for `xpt` and `ypt`. */
  datatype MapPoint = MapPoint(x: string, y: string)

  /** How the batch ends: map saved, map withheld after a timeout, or aborted on a city with no match. */
  datatype BatchStatus = Saved | Withheld | Aborted(city: string)

  /** The `'{}|{}|{}\n'` line written for a city and its projected point. */
  function FormatLine(city: string, p: MapPoint): (line: string)
    ensures |line| > |city| && city <= line && line[|city|] == '|' && line[|line| - 1] == '\n'
  {
    city + "|" + p.x + "|" + p.y + "\n"
  }

  /** The lines of a coordinate file for a list of (key, point) records. */
  function FormatLines(records: seq<(string, MapPoint)>): (lines: seq<string>)
    ensures |lines| == |records|
    ensures forall k :: 0 <= k < |records| ==> lines[k] == FormatLine(records[k].0, records[k].1)
  {
    seq(|records|, k requires 0 <= k < |records| => FormatLine(records[k].0, records[k].1))
  }

  /** How many cities the loop gets through: all of them, or up to the first with no match. */
  function Reached(outcomes: seq<GeocodeOutcome>): (n: nat)
    ensures n <= |outcomes|
    ensures n == |outcomes| <==> NotFound !in outcomes
    ensures n < |outcomes| ==> outcomes[n] == NotFound && NotFound !in outcomes[..n]
  {
    if |outcomes| == 0 then 0
    else if outcomes[0] == NotFound then 0
    else
      var n := Reached(outcomes[1..]);
      assert outcomes[..n + 1] == [outcomes[0]] + outcomes[1..][..n];
      1 + n
  }

  /** The (city, projected point) pairs the loop writes, in input order, stopping at a city with no match. */
  function Geocoded(cities: seq<string>, outcomes: seq<GeocodeOutcome>, project: Location -> MapPoint)
    : seq<(string, MapPoint)>
    requires |outcomes| == |cities|
  {
    if |cities| == 0 then []
    else match outcomes[0]
      case TimedOut => Geocoded(cities[1..], outcomes[1..], project)
      case NotFound => []
      case Found(loc) => [(cities[0], project(loc))] + Geocoded(cities[1..], outcomes[1..], project)
  }

  /** The timeouts the loop counts before it ends. */
  function Timeouts(outcomes: seq<GeocodeOutcome>): nat
  {
    if |outcomes| == 0 then 0
    else match outcomes[0]
      case TimedOut => 1 + Timeouts(outcomes[1..])
      case NotFound => 0
      case Found(_) => Timeouts(outcomes[1..])
  }

  /** Every city reached either writes one line or counts one timeout. */
  lemma {:induction false} GeocodedPlusTimeouts(cities: seq<string>, outcomes: seq<GeocodeOutcome>, project: Location -> MapPoint)
    requires |outcomes| == |cities|
    ensures |Geocoded(cities, outcomes, project)| + Timeouts(outcomes) == Reached(outcomes)
    decreases |cities|
  {
    if |cities| > 0 && outcomes[0] != NotFound {
      GeocodedPlusTimeouts(cities[1..], outcomes[1..], project);
    }
  }

  /** Only geocoded cities are written, each with the projection of its own location. */
  lemma {:induction false} GeocodedFromInput(cities: seq<string>, outcomes: seq<GeocodeOutcome>, project: Location -> MapPoint, k: int)
    requires |outcomes| == |cities|
    requires 0 <= k < |Geocoded(cities, outcomes, project)|
    ensures exists i ::
              && 0 <= i < Reached(outcomes) && outcomes[i].Found?
              && Geocoded(cities, outcomes, project)[k] == (cities[i], project(outcomes[i].location))
    decreases |cities|
  {
    var g := Geocoded(cities, outcomes, project);
    var rest := Geocoded(cities[1..], outcomes[1..], project);
    if outcomes[0].Found? && k == 0 {
      assert 0 < Reached(outcomes);
    } else {
      var k' := if outcomes[0].Found? then k - 1 else k;
      GeocodedFromInput(cities[1..], outcomes[1..], project, k');
      var i :| 0 <= i < Reached(outcomes[1..]) && outcomes[1..][i].Found?
        && rest[k'] == (cities[1..][i], project(outcomes[1..][i].location));
      assert g[k] == rest[k'];
      assert 0 <= i + 1 < Reached(outcomes) && outcomes[i + 1].Found?;
    }
  }

  /** Before the first city with no match, the records of a prefix come first and those of the rest follow. */
  lemma {:induction false} GeocodedSplit(cities: seq<string>, outcomes: seq<GeocodeOutcome>, project: Location -> MapPoint, i: int)
    requires |outcomes| == |cities| && 0 <= i <= |cities| && NotFound !in outcomes[..i]
    ensures Geocoded(cities, outcomes, project)
            == Geocoded(cities[..i], outcomes[..i], project) + Geocoded(cities[i..], outcomes[i..], project)
    decreases i
  {
    if i == 0 {
      assert cities[..0] == [] && cities[0..] == cities && outcomes[0..] == outcomes;
    } else {
      var front, first := cities[..i], outcomes[..i];
      var c1, o1 := cities[1..], outcomes[1..];
      assert first[0] == outcomes[0] && front[0] == cities[0] && first[0] in first;
      assert front[1..] == c1[..i - 1] && first[1..] == o1[..i - 1];
      assert c1[i - 1..] == cities[i..] && o1[i - 1..] == outcomes[i..];
      GeocodedSplit(c1, o1, project, i - 1);
      GeocodedUnfold(cities, outcomes, project);
      GeocodedUnfold(front, first, project);
    }
  }

  /** The first city, when it is not the one with no match, comes before the records of the rest. */
  lemma GeocodedUnfold(cities: seq<string>, outcomes: seq<GeocodeOutcome>, project: Location -> MapPoint)
    requires |outcomes| == |cities| && 0 < |cities| && outcomes[0] != NotFound
    ensures Geocoded(cities, outcomes, project)
            == (if outcomes[0].Found? then [(cities[0], project(outcomes[0].location))] else [])
               + Geocoded(cities[1..], outcomes[1..], project)
  {
  }

  /**
   * Every city the loop reaches is written exactly once, in input order, when it
   * is found, and not at all when it times out.
   */
  lemma GeocodedWritesReached(cities: seq<string>, outcomes: seq<GeocodeOutcome>, project: Location -> MapPoint, i: int)
    requires |outcomes| == |cities| && 0 <= i < Reached(outcomes)
    ensures Geocoded(cities, outcomes, project)
            == Geocoded(cities[..i], outcomes[..i], project)
               + (if outcomes[i].Found? then [(cities[i], project(outcomes[i].location))] else [])
               + Geocoded(cities[i + 1..], outcomes[i + 1..], project)
  {
    var n := Reached(outcomes);
    assert outcomes[..i] == outcomes[..n][..i] && outcomes[i] == outcomes[..n][i];
    GeocodedSplit(cities, outcomes, project, i);
    LoopStep(cities, outcomes, project, i);
  }

  /** One city of the loop, when it is not the one with no match. */
  lemma LoopStep(cities: seq<string>, outcomes: seq<GeocodeOutcome>, project: Location -> MapPoint, i: int)
    requires |outcomes| == |cities| && 0 <= i < |cities| && outcomes[i] != NotFound
    ensures Geocoded(cities[i..], outcomes[i..], project)
            == (if outcomes[i].Found? then [(cities[i], project(outcomes[i].location))] else [])
               + Geocoded(cities[i + 1..], outcomes[i + 1..], project)
  {
    assert cities[i..][1..] == cities[i + 1..];
    assert outcomes[i..][1..] == outcomes[i + 1..];
  }

  /** A city that times out counts one; a found city counts none. */
  lemma TimeoutsStep(outcomes: seq<GeocodeOutcome>, i: int)
    requires 0 <= i < |outcomes| && outcomes[i] != NotFound
    ensures Timeouts(outcomes[i..]) == (if outcomes[i] == TimedOut then 1 else 0) + Timeouts(outcomes[i + 1..])
  {
    assert outcomes[i..][1..] == outcomes[i + 1..];
  }

  /** The records written before city `i`, followed by what the rest of the loop writes, are all the loop writes. */
  predicate WrittenSoFar(cities: seq<string>, outcomes: seq<GeocodeOutcome>, project: Location -> MapPoint,
                         i: int, records: seq<(string, MapPoint)>)
    requires |outcomes| == |cities| && 0 <= i <= |cities|
  {
    Geocoded(cities, outcomes, project) == records + Geocoded(cities[i..], outcomes[i..], project)
  }

  /** Past one more city, the records written so far gain that city's record if it was found. */
  lemma WrittenStep(cities: seq<string>, outcomes: seq<GeocodeOutcome>, project: Location -> MapPoint,
                    i: int, records: seq<(string, MapPoint)>)
    requires |outcomes| == |cities| && 0 <= i < |cities| && outcomes[i] != NotFound
    requires WrittenSoFar(cities, outcomes, project, i, records)
    ensures outcomes[i].TimedOut? ==> WrittenSoFar(cities, outcomes, project, i + 1, records)
    ensures outcomes[i].Found? ==>
              WrittenSoFar(cities, outcomes, project, i + 1, records + [(cities[i], project(outcomes[i].location))])
  {
    LoopStep(cities, outcomes, project, i);
    var later := Geocoded(cities[i + 1..], outcomes[i + 1..], project);
    if outcomes[i].Found? {
      var r := (cities[i], project(outcomes[i].location));
      assert records + ([r] + later) == (records + [r]) + later;
    }
  }

  /** The loop stops at the first city with no match: nothing more is written or counted. */
  lemma LoopStops(cities: seq<string>, outcomes: seq<GeocodeOutcome>, project: Location -> MapPoint, i: int)
    requires |outcomes| == |cities| && 0 <= i < |outcomes| && outcomes[i] == NotFound
    requires forall j :: 0 <= j < i ==> outcomes[j] != NotFound
    ensures Reached(outcomes) == i
    ensures Geocoded(cities[i..], outcomes[i..], project) == []
    ensures Timeouts(outcomes[i..]) == 0
  {
    assert outcomes[i..][0] == NotFound;
  }

  /** A loop that gets through every city met no city without a match. */
  lemma LoopEnds(cities: seq<string>, outcomes: seq<GeocodeOutcome>, project: Location -> MapPoint)
    requires |outcomes| == |cities|
    requires forall j :: 0 <= j < |outcomes| ==> outcomes[j] != NotFound
    ensures NotFound !in outcomes && Reached(outcomes) == |outcomes|
    ensures Geocoded(cities[|cities|..], outcomes[|outcomes|..], project) == []
    ensures Timeouts(outcomes[|outcomes|..]) == 0
  {
  }

  /**
   * The write loop of `generate_basemap`, with the geocoder's answers as input and
   * the projection as a parameter: the written lines, the timeout count, and
   * whether the map is saved, which happens only after a full pass with no timeout.
   * A city with no match ends the loop, as the failing attribute access does.
   */
  method GenerateCoordinates(cities: seq<string>, outcomes: seq<GeocodeOutcome>, project: Location -> MapPoint)
    returns (written: seq<string>, timeouts: nat, status: BatchStatus)
    requires |outcomes| == |cities|
    ensures written == FormatLines(Geocoded(cities, outcomes, project))
    ensures timeouts == Timeouts(outcomes)
    ensures |written| + timeouts == Reached(outcomes)
    ensures status.Aborted? <==> NotFound in outcomes
    ensures status.Aborted? ==> status.city == cities[Reached(outcomes)]
    ensures status == Saved <==> NotFound !in outcomes && timeouts == 0
  {
    written, timeouts := [], 0;
    ghost var records: seq<(string, MapPoint)> := [];
    var i := 0;
    assert cities[0..] == cities && outcomes[0..] == outcomes;
    while i < |cities| && outcomes[i] != NotFound
      invariant 0 <= i <= |cities|
      invariant forall j :: 0 <= j < i ==> outcomes[j] != NotFound
      invariant WrittenSoFar(cities, outcomes, project, i, records)
      invariant |written| == |records|
      invariant forall k :: 0 <= k < |records| ==> written[k] == FormatLine(records[k].0, records[k].1)
      invariant Timeouts(outcomes) == timeouts + Timeouts(outcomes[i..])
    {
      TimeoutsStep(outcomes, i);
      WrittenStep(cities, outcomes, project, i, records);
      if outcomes[i].TimedOut? {
        timeouts := timeouts + 1;
      } else {
        var p := project(outcomes[i].location);
        written := written + [FormatLine(cities[i], p)];
        records := records + [(cities[i], p)];
      }
      i := i + 1;
    }
    GeocodedPlusTimeouts(cities, outcomes, project);
    assert written == FormatLines(records);
    if i < |cities| {
      LoopStops(cities, outcomes, project, i);
      status := Aborted(cities[i]);
    } else {
      LoopEnds(cities, outcomes, project);
      status := if timeouts == 0 then Saved else Withheld;
    }
  }

  // ---------------------------------------------------------------------------
  // Credentials (get_login)
  // ---------------------------------------------------------------------------

  /** `f` is the field after the first comma of `t`: it runs to the second comma or to the end. */
  predicate SecondField(t: string, f: string)
  {
    var j := Find(t, ',');
    0 <= j && f <= t[j + 1..] && ',' !in f && (|f| == |t| - j - 1 || t[j + 1 + |f|] == ',')
  }

  /** The credential line has a comma once its newlines are stripped. */
  predicate HasField(line: string)
  {
    ',' in Strip(line, NEWLINE)
  }

  /** `f` is the value `get_login` takes from `line`. */
  predicate IsCredential(line: string, f: string)
  {
    SecondField(Strip(line, NEWLINE), f)
  }

  /** `line.strip('\n').split(',')[1]` is the second comma-separated field. */
  lemma SplitSecond(t: string)
    ensures |Split(t, ',')| >= 2 <==> ',' in t
    ensures ',' in t ==> SecondField(t, Split(t, ',')[1])
  {
    if ',' in t {
      var j := Find(t, ',');
      SplitFirst(t[j + 1..], ',');
    }
  }

  /** The field `get_login` takes from one line: `line.strip('\n').split(',')[1]`. */
  function Credential(line: string): (f: string)
    requires HasField(line)
    ensures IsCredential(line, f)
  {
    var t := Strip(line, NEWLINE);
    SplitSecond(t);
    Split(t, ',')[1]
  }

  /** The position of the first element that fails `ok`, where a list comprehension over them raises. */
  function FirstFailing<T>(xs: seq<T>, ok: T -> bool): (i: nat)
    requires exists k :: 0 <= k < |xs| && !ok(xs[k])
    ensures i < |xs| && !ok(xs[i])
    ensures forall k :: 0 <= k < i ==> ok(xs[k])
  {
    if !ok(xs[0]) then 0
    else
      var k :| 0 <= k < |xs| && !ok(xs[k]);
      assert xs[1..][k - 1] == xs[k];
      var i := FirstFailing(xs[1..], ok);
      assert forall j :: 1 <= j <= i ==> xs[1..][j - 1] == xs[j];
      1 + i
  }

  /**
   * `get_login`: the second comma-separated field of every newline-stripped line,
   * in order. The first line without a comma raises an IndexError, named here by
   * its position.
   */
  function GetLogin(lines: seq<string>): (r: Result<seq<string>, nat>)
    ensures r.Success? <==> forall k :: 0 <= k < |lines| ==> HasField(lines[k])
    ensures r.Success? ==> |r.value| == |lines|
    ensures r.Success? ==> forall k :: 0 <= k < |lines| ==> IsCredential(lines[k], r.value[k])
    ensures r.Failure? ==> r.error < |lines| && !HasField(lines[r.error])
    ensures r.Failure? ==> forall k :: 0 <= k < r.error ==> HasField(lines[k])
  {
    if forall k :: 0 <= k < |lines| ==> HasField(lines[k]) then
      Success(seq(|lines|, k requires 0 <= k < |lines| => Credential(lines[k])))
    else
      Failure(FirstFailing(lines, HasField))
  }

  /** A line of the credential file in its `key,value` shape. */
  function KeyValueLine(key: string, value: string): string
  {
    key + "," + value + "\n"
  }

  /** From a `key,value` line, `get_login` takes the value. */
  lemma CredentialOfKeyValue(key: string, value: string)
    requires ',' !in key && ',' !in value && '\n' !in key && '\n' !in value
    ensures HasField(KeyValueLine(key, value)) && Credential(KeyValueLine(key, value)) == value
  {
    var body := key + "," + value;
    var line := KeyValueLine(key, value);
    assert line == key + ("," + value + "\n");
    StripLeftAppend(key, "," + value + "\n", NEWLINE);
    assert StripLeft(key, NEWLINE) == key;
    assert StripLeft(line, NEWLINE) == body + "\n";
    StripRightAppend(body, "\n", NEWLINE);
    assert Strip(line, NEWLINE) == body;
    SplitAround(key, value, ',');
    SplitNone(value, ',');
    assert key + [','] + value == body;
  }

  /** A credential file of `key,value` lines yields its values, one per line, in order. */
  lemma GetLoginKeyValueFile(keys: seq<string>, values: seq<string>)
    requires |keys| == |values|
    requires forall k :: 0 <= k < |keys| ==> ',' !in keys[k] && '\n' !in keys[k]
    requires forall k :: 0 <= k < |values| ==> ',' !in values[k] && '\n' !in values[k]
    ensures GetLogin(FileLines(Concat(seq(|keys|, k requires 0 <= k < |keys| => KeyValueLine(keys[k], values[k])))))
            == Success(values)
  {
    var lines := seq(|keys|, k requires 0 <= k < |keys| => KeyValueLine(keys[k], values[k]));
    forall k | 0 <= k < |keys| ensures IsLine(lines[k]) {
      var l := lines[k];
      assert l[..|l| - 1] == keys[k] + "," + values[k];
    }
    FileLinesConcat(lines);
    forall k | 0 <= k < |keys| ensures HasField(lines[k]) && Credential(lines[k]) == values[k] {
      CredentialOfKeyValue(keys[k], values[k]);
    }
    var r := GetLogin(lines);
    assert r.value == values;
  }
}
