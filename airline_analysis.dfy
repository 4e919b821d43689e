/**
 * The analysis script's own logic: reading the coordinate file into a
 * dictionary, locating a query row's city through the canonical-key table and
 * the coordinates, choosing each map marker's size, opacity and colour, and
 * attaching manufacturer names to three-character manufacturer codes.
 */
module AirlineAnalysis {
  import opened Wrappers
  import opened PyStr
  import DataPrep

  // ---------------------------------------------------------------------------
  // The coordinate file (coord_dict in plot_ontime_map and plot_pctchange)
  // ---------------------------------------------------------------------------

  /** One parsed line: the key before the first '|' and the remaining '|'-separated coordinate fields. */
  datatype CoordRecord = CoordRecord(key: string, coords: seq<string>)

  /**
   * `line.split('|')[0]` as the key and `line.strip('\n').split('|')[1:]` as the
   * coordinates (kept as text; the conversion with `float` is not modelled).
   */
  function ParseCoordLine(line: string): (rec: CoordRecord)
    ensures '|' !in rec.key && rec.key <= line
    ensures rec.key == line || line[|rec.key|] == '|'
  {
    SplitFirst(line, '|');
    CoordRecord(Split(line, '|')[0], Split(Strip(line, NEWLINE), '|')[1..])
  }

  /** Every line of the coordinate file, parsed. */
  function ParseLines(lines: seq<string>): seq<CoordRecord>
  {
    seq(|lines|, k requires 0 <= k < |lines| => ParseCoordLine(lines[k]))
  }

  /** The dictionary the reading loop leaves: each record in turn sets its key, so a later one wins. */
  function CoordTable(recs: seq<CoordRecord>): (table: map<string, seq<string>>)
    ensures forall k :: k in table ==> exists i :: (0 <= i < |recs| && recs[i].key == k && recs[i].coords == table[k])
  {
    if |recs| == 0 then map[]
    else CoordTable(recs[..|recs| - 1])[recs[|recs| - 1].key := recs[|recs| - 1].coords]
  }

  /** The keys of all records. */
  function RecordKeys(recs: seq<CoordRecord>): set<string>
  {
    set i | 0 <= i < |recs| :: recs[i].key
  }

  /** The dictionary has exactly one entry per distinct key in the file. */
  lemma {:induction false} CoordTableKeys(recs: seq<CoordRecord>)
    ensures CoordTable(recs).Keys == RecordKeys(recs)
    decreases |recs|
  {
    if |recs| > 0 {
      var n := |recs| - 1;
      CoordTableKeys(recs[..n]);
      assert RecordKeys(recs) == RecordKeys(recs[..n]) + {recs[n].key} by {
        assert forall i :: 0 <= i < n ==> recs[..n][i] == recs[i];
      }
    }
  }

  /** When several records share a key, the last one's coordinates are the ones kept. */
  lemma {:induction false} CoordTableLastWins(recs: seq<CoordRecord>, i: int)
    requires 0 <= i < |recs|
    requires forall j :: i < j < |recs| ==> recs[j].key != recs[i].key
    ensures recs[i].key in CoordTable(recs)
    ensures CoordTable(recs)[recs[i].key] == recs[i].coords
    decreases |recs|
  {
    var n := |recs| - 1;
    if i < n {
      assert recs[..n][i] == recs[i];
      CoordTableLastWins(recs[..n], i);
    }
  }

  /** The reading loop of the plotting functions, over the lines of the coordinate file. */
  method BuildCoordDict(lines: seq<string>) returns (coordDict: map<string, seq<string>>)
    ensures coordDict == CoordTable(ParseLines(lines))
  {
    ghost var recs := ParseLines(lines);
    coordDict := map[];
    for i := 0 to |lines|
      invariant coordDict == CoordTable(recs[..i])
    {
      var rec := ParseCoordLine(lines[i]);
      coordDict := coordDict[rec.key := rec.coords];
      CoordTableStep(recs, i);
    }
    assert recs[..|lines|] == recs;
  }

  /** One more record sets one more key. */
  lemma CoordTableStep(recs: seq<CoordRecord>, i: int)
    requires 0 <= i < |recs|
    ensures CoordTable(recs[..i + 1]) == CoordTable(recs[..i])[recs[i].key := recs[i].coords]
  {
    assert recs[..i + 1][..i] == recs[..i];
  }

  /** A key and a projected point the reader gets back unchanged: no '|' anywhere, no newline. */
  predicate CleanRecord(city: string, p: DataPrep.MapPoint)
  {
    '|' !in city && '|' !in p.x && '|' !in p.y && '\n' !in city && '\n' !in p.x && '\n' !in p.y
  }

  /** A stripped key keeps no character its original did not have. */
  lemma StripLeftKeepsOut(s: string, c: char)
    requires c !in s
    ensures c !in StripLeft(s, NEWLINE)
  {
    var r := StripLeft(s, NEWLINE);
    forall k | 0 <= k < |r| ensures r[k] != c {
      assert r[k] == s[|s| - |r| + k];
    }
  }

  /** The written line regrouped around its first separator, and around its newline. */
  lemma RegroupLine(a: string, x: string, y: string)
    ensures a + "|" + x + "|" + y + "\n" == a + ("|" + (x + "|" + y + "\n"))
    ensures a + "|" + x + "|" + y == a + ['|'] + (x + ['|'] + y)
    ensures a + "|" + x + "|" + y + "\n" == a + ['|'] + (x + "|" + y + "\n")
  {
  }

  /** The key field of a written line is the city. */
  lemma LineKey(city: string, p: DataPrep.MapPoint)
    requires '|' !in city
    ensures Split(DataPrep.FormatLine(city, p), '|')[0] == city
  {
    RegroupLine(city, p.x, p.y);
    assert DataPrep.FormatLine(city, p) == city + ['|'] + (p.x + "|" + p.y + "\n");
    SplitAround(city, p.x + "|" + p.y + "\n", '|');
  }

  /** Stripping newlines from a written line removes exactly its final newline (and any leading ones). */
  lemma LineStripped(city: string, p: DataPrep.MapPoint)
    requires '\n' !in p.y
    ensures Strip(DataPrep.FormatLine(city, p), NEWLINE) == StripLeft(city, NEWLINE) + "|" + p.x + "|" + p.y
  {
    var line := DataPrep.FormatLine(city, p);
    var left := StripLeft(city, NEWLINE);
    RegroupLine(city, p.x, p.y);
    StripLeftAppend(city, "|" + (p.x + "|" + p.y + "\n"), NEWLINE);
    RegroupLine(left, p.x, p.y);
    var body := left + "|" + p.x + "|" + p.y;
    assert StripLeft(line, NEWLINE) == body + "\n";
    StripRightAppend(body, "\n", NEWLINE);
  }

  /** After a '|'-free key, the fields of `key|x|y` are `x` and `y`. */
  lemma FieldsAfterKey(key: string, x: string, y: string)
    requires '|' !in key && '|' !in x && '|' !in y
    ensures Split(key + "|" + x + "|" + y, '|')[1..] == [x, y]
  {
    RegroupLine(key, x, y);
    SplitAround(key, x + ['|'] + y, '|');
    SplitAround(x, y, '|');
    SplitNone(y, '|');
  }

  /** Parsing a line written by the data-preparation script recovers its key and both coordinates. */
  lemma ParseFormatLine(city: string, p: DataPrep.MapPoint)
    requires '|' !in city && '|' !in p.x && '|' !in p.y && '\n' !in p.y
    ensures ParseCoordLine(DataPrep.FormatLine(city, p)) == CoordRecord(city, [p.x, p.y])
  {
    LineKey(city, p);
    LineStripped(city, p);
    StripLeftKeepsOut(city, '|');
    FieldsAfterKey(StripLeft(city, NEWLINE), p.x, p.y);
  }

  /** What the reader should get back for each written record: its city and both coordinates. */
  function WrittenRecords(records: seq<(string, DataPrep.MapPoint)>): seq<CoordRecord>
  {
    seq(|records|, k requires 0 <= k < |records| => CoordRecord(records[k].0, [records[k].1.x, records[k].1.y]))
  }

  /** Clean records are written as whole lines, and parsing those lines gives the records back. */
  lemma ParseWrittenLines(records: seq<(string, DataPrep.MapPoint)>)
    requires forall k :: 0 <= k < |records| ==> CleanRecord(records[k].0, records[k].1)
    ensures forall k :: 0 <= k < |records| ==> IsLine(DataPrep.FormatLines(records)[k])
    ensures ParseLines(DataPrep.FormatLines(records)) == WrittenRecords(records)
  {
    var lines := DataPrep.FormatLines(records);
    forall k | 0 <= k < |records|
      ensures IsLine(lines[k])
      ensures ParseCoordLine(lines[k]) == WrittenRecords(records)[k]
    {
      FormattedLine(records[k].0, records[k].1);
      ParseFormatLine(records[k].0, records[k].1);
    }
  }

  /**
   * The coordinate file written for `records` reads back line for line, every
   * record's city is a dictionary key and nothing else is, and each key holds
   * the coordinates of its last record.
   */
  lemma CoordinateFileRoundTrip(records: seq<(string, DataPrep.MapPoint)>)
    requires forall k :: 0 <= k < |records| ==> CleanRecord(records[k].0, records[k].1)
    ensures FileLines(Concat(DataPrep.FormatLines(records))) == DataPrep.FormatLines(records)
    ensures CoordTable(ParseLines(DataPrep.FormatLines(records))).Keys == set k | 0 <= k < |records| :: records[k].0
    ensures forall k :: 0 <= k < |records| && (forall j :: k < j < |records| ==> records[j].0 != records[k].0)
              ==> CoordTable(ParseLines(DataPrep.FormatLines(records)))[records[k].0] == [records[k].1.x, records[k].1.y]
  {
    ParseWrittenLines(records);
    FileLinesConcat(DataPrep.FormatLines(records));
    WrittenTable(records);
  }

  /** The dictionary of the written records: their cities as keys, the last record of each city winning. */
  lemma WrittenTable(records: seq<(string, DataPrep.MapPoint)>)
    ensures CoordTable(WrittenRecords(records)).Keys == set k | 0 <= k < |records| :: records[k].0
    ensures forall k :: 0 <= k < |records| && (forall j :: k < j < |records| ==> records[j].0 != records[k].0)
              ==> CoordTable(WrittenRecords(records))[records[k].0] == [records[k].1.x, records[k].1.y]
  {
    var recs := WrittenRecords(records);
    CoordTableKeys(recs);
    assert RecordKeys(recs) == set k | 0 <= k < |records| :: records[k].0 by {
      assert forall k :: 0 <= k < |records| ==> recs[k].key == records[k].0;
    }
    forall k | 0 <= k < |records| && (forall j :: k < j < |records| ==> records[j].0 != records[k].0)
      ensures CoordTable(recs)[records[k].0] == [records[k].1.x, records[k].1.y]
    {
      CoordTableLastWins(recs, k);
    }
  }

  /** A record without newlines is written as one whole line. */
  lemma FormattedLine(city: string, p: DataPrep.MapPoint)
    requires '\n' !in city && '\n' !in p.x && '\n' !in p.y
    ensures IsLine(DataPrep.FormatLine(city, p))
  {
    var body := city + "|" + p.x + "|" + p.y;
    assert DataPrep.FormatLine(city, p) == body + "\n";
    assert (body + "\n")[..|body|] == body;
  }


  // ---------------------------------------------------------------------------
  // Locating a query row's city (city_dict, then coord_dict)
  // ---------------------------------------------------------------------------

  /** What aborts a plot: a missing dictionary key, or a coordinate list with fewer than two fields. */
  datatype PlotError = KeyError(key: string) | IndexError

  /** The table `clean_city_text` gives for the rows of the city query. */
  function CityTable(cities: seq<DataPrep.CityRow>): map<string, string>
  {
    DataPrep.CleanedTable(DataPrep.RawNames(cities))
  }

  /** `coord_dict[city_dict[raw]]`, then its first two fields as the point to plot. */
  function Locate(cityDict: map<string, string>, coordDict: map<string, seq<string>>, raw: string)
    : (r: Result<(string, string), PlotError>)
    ensures r.Success? <==> raw in cityDict && cityDict[raw] in coordDict && |coordDict[cityDict[raw]]| >= 2
    ensures r.Success? ==> [r.value.0, r.value.1] <= coordDict[cityDict[raw]]
    ensures raw !in cityDict ==> r == Failure(KeyError(raw))
    ensures raw in cityDict && cityDict[raw] !in coordDict ==> r == Failure(KeyError(cityDict[raw]))
    ensures raw in cityDict && cityDict[raw] in coordDict && |coordDict[cityDict[raw]]| < 2 ==> r == Failure(IndexError)
  {
    if raw !in cityDict then Failure(KeyError(raw))
    else
      var key := cityDict[raw];
      if key !in coordDict then Failure(KeyError(key))
      else
        var coords := coordDict[key];
        if |coords| < 2 then Failure(IndexError)
        else Success((coords[0], coords[1]))
  }

  /**
   * Through the normaliser: a row is located exactly when its raw name was among
   * the queried cities and its canonical key is in the coordinate file with two
   * fields; a missing raw name is reported before a missing canonical key, and a
   * present key with fewer than two fields is an IndexError.
   */
  lemma LocateThroughCleaning(cities: seq<DataPrep.CityRow>, coordDict: map<string, seq<string>>, raw: string)
    ensures var r := Locate(CityTable(cities), coordDict, raw);
      && (r.Success? <==> raw in DataPrep.RawNames(cities) && DataPrep.CleanCity(raw) in coordDict
                          && |coordDict[DataPrep.CleanCity(raw)]| >= 2)
      && (raw !in DataPrep.RawNames(cities) ==> r == Failure(KeyError(raw)))
      && (raw in DataPrep.RawNames(cities) && DataPrep.CleanCity(raw) !in coordDict
          ==> r == Failure(KeyError(DataPrep.CleanCity(raw))))
      && (raw in DataPrep.RawNames(cities) && DataPrep.CleanCity(raw) in coordDict && |coordDict[DataPrep.CleanCity(raw)]| < 2
          ==> r == Failure(IndexError))
      && (r.Success? ==> r.value == (coordDict[DataPrep.CleanCity(raw)][0], coordDict[DataPrep.CleanCity(raw)][1]))
  {
  }

  // ---------------------------------------------------------------------------
  // Marker rules
  // ---------------------------------------------------------------------------

  /** Marker colours: 'c' for on-time markers; [.3, 1, .2], 'r' and [1, .85, 0] for change markers. */
  datatype Colour = Cyan | Green | Red | Amber

  /** One `plt.plot` call: position, marker size, opacity and colour. */
  datatype Marker = Marker(x: string, y: string, size: int, alpha: real, colour: Colour)

  /** The on-time percentages at which the marker steps up a tier. */
  const ONTIME_THRESHOLDS: seq<real> := [75.0, 80.0, 85.0, 90.0]
  const TIER_SIZES: seq<int> := [3, 6, 9, 14, 20]
  const TIER_ALPHAS: seq<real> := [0.2, 0.4, 0.6, 0.75, 0.9]

  /** How many of the thresholds `v` has reached. */
  function ThresholdsReached(ts: seq<real>, v: real): (n: nat)
    ensures n <= |ts|
  {
    if |ts| == 0 then 0
    else (if ts[0] <= v then 1 else 0) + ThresholdsReached(ts[1..], v)
  }

  predicate Ascending(ts: seq<real>)
  {
    forall i, j :: 0 <= i < j < |ts| ==> ts[i] < ts[j]
  }

  /** A larger value reaches at least as many thresholds. */
  lemma {:induction false} ThresholdsReachedMonotone(ts: seq<real>, v: real, w: real)
    requires v <= w
    ensures ThresholdsReached(ts, v) <= ThresholdsReached(ts, w)
    decreases |ts|
  {
    if |ts| > 0 {
      ThresholdsReachedMonotone(ts[1..], v, w);
    }
  }

  /** Over ascending thresholds, the count places `v` in a left-closed interval between two of them. */
  lemma {:induction false} ThresholdsReachedInterval(ts: seq<real>, v: real)
    requires Ascending(ts)
    ensures var n := ThresholdsReached(ts, v);
      (n == 0 || ts[n - 1] <= v) && (n == |ts| || v < ts[n])
    decreases |ts|
  {
    if |ts| > 0 {
      var rest := ts[1..];
      assert Ascending(rest) by {
        forall i, j | 0 <= i < j < |rest| ensures rest[i] < rest[j] {
          assert rest[i] == ts[i + 1] && rest[j] == ts[j + 1];
        }
      }
      ThresholdsReachedInterval(rest, v);
    }
  }

  /** The tier, 0 to 4, of an on-time percentage. */
  function OntimeTier(pct: real): (t: nat)
    ensures t < |TIER_SIZES| && t < |TIER_ALPHAS|
  {
    ThresholdsReached(ONTIME_THRESHOLDS, pct)
  }

  /**
   * The tier selection of `plot_ontime_map`: opacity starts at 0.2 and each
   * branch sets the size, and for the upper tiers the opacity.
   */
  method OntimeStyle(pct: real) returns (size: int, alpha: real)
    ensures size == TIER_SIZES[OntimeTier(pct)] && alpha == TIER_ALPHAS[OntimeTier(pct)]
  {
    OntimeTierInterval(pct);
    alpha := 0.2;
    if pct < 75.0 {
      size := 3;
    } else if pct < 80.0 {
      size := 6;
      alpha := 0.4;
    } else if pct < 85.0 {
      size := 9;
      alpha := 0.6;
    } else if pct < 90.0 {
      size := 14;
      alpha := 0.75;
    } else {
      size := 20;
      alpha := 0.9;
    }
  }

  /** Tiers are left-closed: tier t covers [threshold t-1, threshold t), so exactly 75 is in tier 1. */
  lemma OntimeTierInterval(pct: real)
    ensures var t := OntimeTier(pct);
      (t == 0 || ONTIME_THRESHOLDS[t - 1] <= pct) && (t == 4 || pct < ONTIME_THRESHOLDS[t])
  {
    ThresholdsReachedInterval(ONTIME_THRESHOLDS, pct);
  }

  /** The five tiers written out: size 3, 6, 9, 14, 20 and opacity 0.2, 0.4, 0.6, 0.75, 0.9. */
  lemma OntimeTierCases(pct: real)
    ensures pct < 75.0 ==> OntimeTier(pct) == 0
    ensures 75.0 <= pct < 80.0 ==> OntimeTier(pct) == 1
    ensures 80.0 <= pct < 85.0 ==> OntimeTier(pct) == 2
    ensures 85.0 <= pct < 90.0 ==> OntimeTier(pct) == 3
    ensures 90.0 <= pct ==> OntimeTier(pct) == 4
  {
    OntimeTierInterval(pct);
  }

  /** A higher on-time percentage never gets a smaller marker or a lower opacity. */
  lemma OntimeStyleMonotone(p: real, q: real)
    requires p <= q
    ensures TIER_SIZES[OntimeTier(p)] <= TIER_SIZES[OntimeTier(q)]
    ensures TIER_ALPHAS[OntimeTier(p)] <= TIER_ALPHAS[OntimeTier(q)]
  {
    ThresholdsReachedMonotone(ONTIME_THRESHOLDS, p, q);
  }

  /** Percentages 70, 77, 83, 88 and 95 fall in the five tiers in turn; 75 is already tier 1. */
  lemma OntimeTierSamples()
    ensures OntimeTier(70.0) == 0 && OntimeTier(77.0) == 1 && OntimeTier(83.0) == 2
    ensures OntimeTier(88.0) == 3 && OntimeTier(95.0) == 4
    ensures OntimeTier(75.0) == 1 && OntimeTier(74.99) == 0
  {
  }

  /** The marker for an on-time row located at `point`. */
  function OntimeMarker(point: (string, string), pct: real): (m: Marker)
    ensures (m.x, m.y) == point && m.colour == Cyan
    ensures m.size == TIER_SIZES[OntimeTier(pct)] && m.alpha == TIER_ALPHAS[OntimeTier(pct)]
  {
    Marker(point.0, point.1, TIER_SIZES[OntimeTier(pct)], TIER_ALPHAS[OntimeTier(pct)], Cyan)
  }

  /** The half-width of the band of percent changes drawn amber. */
  const CHANGE_BAND: real := 0.05

  /** The colour of `plot_pctchange`: green above the band, red below it, amber within it. */
  function ChangeColour(change: real): (c: Colour)
    ensures c != Amber ==> (c == Green <==> change > 0.0)
  {
    if change > CHANGE_BAND then Green
    else if change < -CHANGE_BAND then Red
    else Amber
  }

  /** Green and red swapped: what the band looks like for the opposite change. */
  function Mirror(c: Colour): Colour
  {
    match c
    case Green => Red
    case Red => Green
    case other => other
  }

  /** Amber exactly on the closed band, boundaries included. */
  lemma ChangeColourBand(change: real)
    ensures ChangeColour(change) == Amber <==> -0.05 <= change <= 0.05
    ensures ChangeColour(0.05) == Amber && ChangeColour(-0.05) == Amber
  {
  }

  /** The band is symmetric: the opposite change gets the mirrored colour. */
  lemma ChangeColourSymmetric(change: real)
    ensures ChangeColour(-change) == Mirror(ChangeColour(change))
  {
  }

  /** A larger change is never a worse colour: green stays green and red was red. */
  lemma ChangeColourMonotone(a: real, b: real)
    requires a <= b
    ensures ChangeColour(a) == Green ==> ChangeColour(b) == Green
    ensures ChangeColour(b) == Red ==> ChangeColour(a) == Red
    ensures ChangeColour(a) == Amber ==> ChangeColour(b) != Red
  {
  }

  /** An improvement from 80.0 to 84.0 over the nine years is a change of exactly 0.05: amber, not green. */
  lemma ChangeColourBoundaryCase()
    ensures (84.0 - 80.0) / 80.0 == 0.05
    ensures ChangeColour((84.0 - 80.0) / 80.0) == Amber
  {
  }

  /** The marker for a percent-change row located at `point`: size 12, opacity 0.8. */
  function ChangeMarker(point: (string, string), change: real): (m: Marker)
    ensures (m.x, m.y) == point && m.size == 12 && m.alpha == 0.8
    ensures m.colour == ChangeColour(change)
    ensures m.colour == Amber <==> -CHANGE_BAND <= change <= CHANGE_BAND
  {
    ChangeColourBand(change);
    Marker(point.0, point.1, 12, 0.8, ChangeColour(change))
  }

  // ---------------------------------------------------------------------------
  // The two map plots
  // ---------------------------------------------------------------------------

  /** One row of the per-city on-time query: year, on-time percentage, origin city name, airport. */
  datatype OntimeRow = OntimeRow(year: int, ontimePct: real, cityName: string, origin: string)

  /** One row of the nine-year self-join: origin city name and relative change. */
  datatype ChangeRow = ChangeRow(cityName: string, pctImprove: real)

  /**
   * The row loop of `plot_ontime_map`: one cyan marker per row, sized and shaded
   * by its on-time tier, or the first lookup failure, which aborts the plot.
   */
  method PlaceOntimeMarkers(cityDict: map<string, string>, coordDict: map<string, seq<string>>, rows: seq<OntimeRow>)
    returns (r: Result<seq<Marker>, PlotError>)
    ensures r.Success? <==> forall i :: 0 <= i < |rows| ==> Locate(cityDict, coordDict, rows[i].cityName).Success?
    ensures r.Success? ==> |r.value| == |rows|
    ensures r.Success? ==> forall i :: 0 <= i < |rows| ==>
              r.value[i] == OntimeMarker(Locate(cityDict, coordDict, rows[i].cityName).value, rows[i].ontimePct)
    ensures r.Failure? ==> exists i :: (0 <= i < |rows| && FirstUnlocated(cityDict, coordDict, rows[i].cityName, r.error)
              && forall j :: 0 <= j < i ==> Locate(cityDict, coordDict, rows[j].cityName).Success?)
  {
    var markers: seq<Marker> := [];
    for i := 0 to |rows|
      invariant |markers| == i
      invariant forall j :: 0 <= j < i ==> Locate(cityDict, coordDict, rows[j].cityName).Success?
      invariant forall j :: 0 <= j < i ==>
                  markers[j] == OntimeMarker(Locate(cityDict, coordDict, rows[j].cityName).value, rows[j].ontimePct)
    {
      var raw := rows[i].cityName;
      if raw !in cityDict {
        return Failure(KeyError(raw));
      }
      var cityKey := cityDict[raw];
      if cityKey !in coordDict {
        return Failure(KeyError(cityKey));
      }
      var cityCoords := coordDict[cityKey];
      var size, alpha := OntimeStyle(rows[i].ontimePct);
      if |cityCoords| < 2 {
        return Failure(IndexError);
      }
      markers := markers + [Marker(cityCoords[0], cityCoords[1], size, alpha, Cyan)];
    }
    return Success(markers);
  }

  /** `raw` fails to locate, with error `e`. */
  predicate FirstUnlocated(cityDict: map<string, string>, coordDict: map<string, seq<string>>, raw: string, e: PlotError)
  {
    Locate(cityDict, coordDict, raw) == Failure(e)
  }

  /**
   * `plot_ontime_map` without the drawing: the coordinate file and the city
   * rows (a module global in the script, a parameter here) give the two
   * dictionaries, then the row loop places the markers.
   */
  method PlotOntimeMap(coordFile: string, cities: seq<DataPrep.CityRow>, rows: seq<OntimeRow>)
    returns (r: Result<seq<Marker>, PlotError>)
    ensures var cd, kd := CityTable(cities), CoordTable(ParseLines(FileLines(coordFile)));
      r.Success? <==> forall i :: 0 <= i < |rows| ==> Locate(cd, kd, rows[i].cityName).Success?
    ensures r.Success? ==> |r.value| == |rows|
    ensures var cd, kd := CityTable(cities), CoordTable(ParseLines(FileLines(coordFile)));
      r.Success? ==> forall i :: 0 <= i < |rows| ==> r.value[i] == OntimeMarker(Locate(cd, kd, rows[i].cityName).value, rows[i].ontimePct)
    ensures var cd, kd := CityTable(cities), CoordTable(ParseLines(FileLines(coordFile)));
      r.Failure? ==> exists i :: (0 <= i < |rows| && FirstUnlocated(cd, kd, rows[i].cityName, r.error)
        && forall j :: 0 <= j < i ==> Locate(cd, kd, rows[j].cityName).Success?)
  {
    var coordDict := BuildCoordDict(FileLines(coordFile));
    var cityDict := DataPrep.CleanCityText(cities);
    r := PlaceOntimeMarkers(cityDict, coordDict, rows);
  }

  /**
   * The row loop of `plot_pctchange`: one marker of size 12 and opacity 0.8 per
   * row, coloured by its relative change, or the first lookup failure.
   */
  method PlaceChangeMarkers(cityDict: map<string, string>, coordDict: map<string, seq<string>>, rows: seq<ChangeRow>)
    returns (r: Result<seq<Marker>, PlotError>)
    ensures r.Success? <==> forall i :: 0 <= i < |rows| ==> Locate(cityDict, coordDict, rows[i].cityName).Success?
    ensures r.Success? ==> |r.value| == |rows|
    ensures r.Success? ==> forall i :: 0 <= i < |rows| ==>
              r.value[i] == ChangeMarker(Locate(cityDict, coordDict, rows[i].cityName).value, rows[i].pctImprove)
    ensures r.Failure? ==> exists i :: (0 <= i < |rows| && FirstUnlocated(cityDict, coordDict, rows[i].cityName, r.error)
              && forall j :: 0 <= j < i ==> Locate(cityDict, coordDict, rows[j].cityName).Success?)
  {
    var markers: seq<Marker> := [];
    for i := 0 to |rows|
      invariant |markers| == i
      invariant forall j :: 0 <= j < i ==> Locate(cityDict, coordDict, rows[j].cityName).Success?
      invariant forall j :: 0 <= j < i ==>
                  markers[j] == ChangeMarker(Locate(cityDict, coordDict, rows[j].cityName).value, rows[j].pctImprove)
    {
      var raw := rows[i].cityName;
      if raw !in cityDict {
        return Failure(KeyError(raw));
      }
      var cityKey := cityDict[raw];
      if cityKey !in coordDict {
        return Failure(KeyError(cityKey));
      }
      var cityCoords := coordDict[cityKey];
      var alp := 0.8;
      var colour;
      if rows[i].pctImprove > CHANGE_BAND {
        colour := Green;
      } else if rows[i].pctImprove < -CHANGE_BAND {
        colour := Red;
      } else {
        colour := Amber;
      }
      if |cityCoords| < 2 {
        return Failure(IndexError);
      }
      markers := markers + [Marker(cityCoords[0], cityCoords[1], 12, alp, colour)];
    }
    return Success(markers);
  }

  /** `plot_pctchange` without the drawing: the two dictionaries, then the row loop. */
  method PlotPctChange(coordFile: string, cities: seq<DataPrep.CityRow>, rows: seq<ChangeRow>)
    returns (r: Result<seq<Marker>, PlotError>)
    ensures var cd, kd := CityTable(cities), CoordTable(ParseLines(FileLines(coordFile)));
      r.Success? <==> forall i :: 0 <= i < |rows| ==> Locate(cd, kd, rows[i].cityName).Success?
    ensures r.Success? ==> |r.value| == |rows|
    ensures var cd, kd := CityTable(cities), CoordTable(ParseLines(FileLines(coordFile)));
      r.Success? ==> forall i :: 0 <= i < |rows| ==> r.value[i] == ChangeMarker(Locate(cd, kd, rows[i].cityName).value, rows[i].pctImprove)
    ensures var cd, kd := CityTable(cities), CoordTable(ParseLines(FileLines(coordFile)));
      r.Failure? ==> exists i :: (0 <= i < |rows| && FirstUnlocated(cd, kd, rows[i].cityName, r.error)
        && forall j :: 0 <= j < i ==> Locate(cd, kd, rows[j].cityName).Success?)
  {
    var coordDict := BuildCoordDict(FileLines(coordFile));
    var cityDict := DataPrep.CleanCityText(cities);
    r := PlaceChangeMarkers(cityDict, coordDict, rows);
  }

  // ---------------------------------------------------------------------------
  // Manufacturer names (find_mfr and the code_df lookup)
  // ---------------------------------------------------------------------------

  /** One row of the aircraft reference file: its CODE and MFR columns. */
  datatype AircraftRef = AircraftRef(code: string, mfr: string)

  /** One row of `code_df`: the three-character manufacturer code and the manufacturer name. */
  datatype CodeRow = CodeRow(mfrCode: string, mfr: string)

  /** `find_mfr`: `input[0:3]`, the first three characters, or the whole code when it is shorter. */
  function FindMfr(code: string): (prefix: string)
    ensures |prefix| == if |code| < 3 then |code| else 3
    ensures prefix <= code
  {
    SliceTo(code, 3)
  }

  /** `mfr_df[['mfr_code', 'MFR']]` after `mfr_code` is filled in with `find_mfr`. */
  function CodeTable(refs: seq<AircraftRef>): (codes: seq<CodeRow>)
    ensures |codes| == |refs|
    ensures forall k :: 0 <= k < |refs| ==>
              codes[k].mfr == refs[k].mfr && codes[k].mfrCode == FindMfr(refs[k].code)
  {
    seq(|refs|, k requires 0 <= k < |refs| => CodeRow(FindMfr(refs[k].code), refs[k].mfr))
  }

  /** The rows other than `x`, in order (`WithoutKeepsOrder`). */
  function Without(rows: seq<CodeRow>, x: CodeRow): (r: seq<CodeRow>)
    ensures |r| <= |rows|
    ensures forall y :: y in r <==> y in rows && y != x
  {
    if |rows| == 0 then []
    else (if rows[0] == x then [] else [rows[0]]) + Without(rows[1..], x)
  }

  /** The position of the first occurrence of `x` in `rows`, or `|rows|` when there is none. */
  function FirstIndex(rows: seq<CodeRow>, x: CodeRow): (n: nat)
    ensures n <= |rows| && x !in rows[..n]
    ensures n < |rows| ==> rows[n] == x
  {
    if |rows| == 0 then 0
    else if rows[0] == x then 0
    else
      var n := FirstIndex(rows[1..], x);
      assert rows[..n + 1] == [rows[0]] + rows[1..][..n];
      1 + n
  }

  /** Removing every copy of `x` leaves the first occurrences of the other rows in the same order. */
  lemma {:induction false} WithoutKeepsOrder(rows: seq<CodeRow>, x: CodeRow, y: CodeRow, z: CodeRow)
    requires y != x && z != x
    ensures FirstIndex(Without(rows, x), y) < FirstIndex(Without(rows, x), z)
            <==> FirstIndex(rows, y) < FirstIndex(rows, z)
    decreases |rows|
  {
    if |rows| > 0 {
      var w := Without(rows[1..], x);
      if rows[0] == x {
        assert Without(rows, x) == w;
        WithoutKeepsOrder(rows[1..], x, y, z);
      } else {
        var v := [rows[0]] + w;
        assert Without(rows, x) == v && v[1..] == w;
        if rows[0] != y && rows[0] != z {
          WithoutKeepsOrder(rows[1..], x, y, z);
        }
      }
    }
  }

  /** `drop_duplicates()`: the first occurrence of every row, in order. */
  function DropDuplicates(rows: seq<CodeRow>): (d: seq<CodeRow>)
    ensures forall x :: x in d <==> x in rows
    ensures forall i, j :: 0 <= i < j < |d| ==> d[i] != d[j]
    ensures forall i, j :: 0 <= i < j < |d| ==> FirstIndex(rows, d[i]) < FirstIndex(rows, d[j])
    decreases |rows|
  {
    if |rows| == 0 then []
    else
      var w := Without(rows[1..], rows[0]);
      var rest := DropDuplicates(w);
      assert forall j :: 0 <= j < |rest| ==> rest[j] in rest;
      DropDuplicatesOrderStep(rows, w, rest);
      [rows[0]] + rest
  }

  /** The order of `[rows[0]] + rest` follows from the order of `rest` within `rows[1..]` without `rows[0]`. */
  lemma DropDuplicatesOrderStep(rows: seq<CodeRow>, w: seq<CodeRow>, rest: seq<CodeRow>)
    requires |rows| > 0 && w == Without(rows[1..], rows[0])
    requires forall x :: x in rest ==> x in w
    requires forall i, j :: 0 <= i < j < |rest| ==> FirstIndex(w, rest[i]) < FirstIndex(w, rest[j])
    ensures forall i, j :: 0 <= i < j < |rest| + 1 ==>
              FirstIndex(rows, ([rows[0]] + rest)[i]) < FirstIndex(rows, ([rows[0]] + rest)[j])
  {
    var d := [rows[0]] + rest;
    forall i, j | 0 <= i < j < |d|
      ensures FirstIndex(rows, d[i]) < FirstIndex(rows, d[j])
    {
      assert d[j] == rest[j - 1] && rest[j - 1] in w;
      if i > 0 {
        assert d[i] == rest[i - 1] && rest[i - 1] in w;
        WithoutKeepsOrder(rows[1..], rows[0], d[i], d[j]);
      }
    }
  }

  /** `codes[k]` is the first row with manufacturer code `val`. */
  predicate FirstWithCode(codes: seq<CodeRow>, val: string, k: int)
  {
    && 0 <= k < |codes|
    && codes[k].mfrCode == val
    && forall j :: 0 <= j < k ==> codes[j].mfrCode != val
  }

  /**
   * `code_df.loc[code_df.mfr_code == val, 'MFR'].iloc[0].strip()`: the stripped
   * name of the first row with code `val`; no such row raises an IndexError,
   * reported with the code looked up.
   */
  function ManufacturerName(codes: seq<CodeRow>, val: string): (r: Result<string, string>)
    ensures r.Success? <==> exists k :: 0 <= k < |codes| && codes[k].mfrCode == val
    ensures r.Failure? ==> r.error == val
  {
    if |codes| == 0 then Failure(val)
    else if codes[0].mfrCode == val then Success(Strip(codes[0].mfr, WHITESPACE))
    else
      FirstWithCodeTail(codes, val);
      ManufacturerName(codes[1..], val)
  }

  /** A name found is the stripped name of the first row with the code looked up. */
  lemma {:induction false} ManufacturerNameFirst(codes: seq<CodeRow>, val: string, k: int)
    requires FirstWithCode(codes, val, k)
    ensures ManufacturerName(codes, val) == Success(Strip(codes[k].mfr, WHITESPACE))
    decreases |codes|
  {
    if codes[0].mfrCode != val {
      assert FirstWithCode(codes[1..], val, k - 1);
      ManufacturerNameFirst(codes[1..], val, k - 1);
    }
  }

  /** Past a first row with another code, the rows with code `val` are those of the tail, shifted by one. */
  lemma FirstWithCodeTail(codes: seq<CodeRow>, val: string)
    requires |codes| > 0 && codes[0].mfrCode != val
    ensures forall k :: FirstWithCode(codes[1..], val, k) ==> FirstWithCode(codes, val, k + 1)
    ensures (exists k :: 0 <= k < |codes| && codes[k].mfrCode == val)
            <==> (exists k :: 0 <= k < |codes| - 1 && codes[1..][k].mfrCode == val)
  {
    assert forall k :: 1 <= k < |codes| ==> codes[1..][k - 1] == codes[k];
  }

  /** Removing rows whose code is not the one looked up does not change the name found. */
  lemma {:induction false} WithoutKeepsName(rows: seq<CodeRow>, x: CodeRow, val: string)
    requires x.mfrCode != val
    ensures ManufacturerName(Without(rows, x), val) == ManufacturerName(rows, val)
    decreases |rows|
  {
    if |rows| > 0 {
      var rest := Without(rows[1..], x);
      WithoutKeepsName(rows[1..], x, val);
      if rows[0] == x {
        assert Without(rows, x) == rest;
      } else {
        var w := [rows[0]] + rest;
        assert Without(rows, x) == w;
        assert w[1..] == rest;
      }
    }
  }

  /** Dropping duplicate (code, name) rows does not change any name lookup. */
  lemma {:induction false} DropDuplicatesKeepsName(rows: seq<CodeRow>, val: string)
    ensures ManufacturerName(DropDuplicates(rows), val) == ManufacturerName(rows, val)
    decreases |rows|
  {
    if |rows| > 0 && rows[0].mfrCode != val {
      var rest := Without(rows[1..], rows[0]);
      DropDuplicatesKeepsName(rest, val);
      WithoutKeepsName(rows[1..], rows[0], val);
      assert ([rows[0]] + DropDuplicates(rest))[1..] == DropDuplicates(rest);
    }
  }

  /** The `manufacturer` column: one name per code of the query, or the first code with none. */
  function AttachManufacturers(codes: seq<CodeRow>, vals: seq<string>): (r: Result<seq<string>, string>)
    ensures r.Success? <==> forall k :: 0 <= k < |vals| ==> ManufacturerName(codes, vals[k]).Success?
    ensures r.Success? ==> |r.value| == |vals|
    ensures r.Success? ==> forall k :: 0 <= k < |vals| ==> Success(r.value[k]) == ManufacturerName(codes, vals[k])
    ensures r.Failure? ==> exists k :: FirstUnnamed(codes, vals, k) && r.error == vals[k]
  {
    if forall k :: 0 <= k < |vals| ==> ManufacturerName(codes, vals[k]).Success? then
      Success(seq(|vals|, k requires 0 <= k < |vals| => ManufacturerName(codes, vals[k]).value))
    else
      var k := DataPrep.FirstFailing(vals, v => ManufacturerName(codes, v).Success?);
      Failure(ManufacturerName(codes, vals[k]).error)
  }

  /** `vals[k]` is the first code of the query without a manufacturer. */
  predicate FirstUnnamed(codes: seq<CodeRow>, vals: seq<string>, k: int)
  {
    && 0 <= k < |vals|
    && ManufacturerName(codes, vals[k]).Failure?
    && forall j :: 0 <= j < k ==> ManufacturerName(codes, vals[j]).Success?
  }

  /** The names attached through the deduplicated table are those of the full reference table. */
  lemma ManufacturersIgnoreDuplicates(refs: seq<AircraftRef>, vals: seq<string>)
    ensures AttachManufacturers(DropDuplicates(CodeTable(refs)), vals) == AttachManufacturers(CodeTable(refs), vals)
  {
    var full := CodeTable(refs);
    var dedup := DropDuplicates(full);
    forall v ensures ManufacturerName(dedup, v) == ManufacturerName(full, v) {
      DropDuplicatesKeepsName(full, v);
    }
    var a := AttachManufacturers(dedup, vals);
    var b := AttachManufacturers(full, vals);
    if a.Success? {
      assert a.value == b.value;
    } else {
      var ka :| FirstUnnamed(dedup, vals, ka) && a.error == vals[ka];
      var kb :| FirstUnnamed(full, vals, kb) && b.error == vals[kb];
      assert ka == kb;
    }
  }
}
