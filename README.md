# Airline on-time analysis: a Dafny model of its data handling

Two Python 2 scripts study United States airline on-time performance. They
query a flight database, clean the origin-city names, geocode each city onto
a map projection, and plot per-city markers and per-manufacturer tables.
This project models the parts of them that are program logic rather than
library calls, and proves what they do.

- `src/data_prep.py`:
  - `clean_city_text`, the cascade of textual rules that turns a raw origin-city
    name ("Seattle/Tacoma, WA", "Fajardo, PR", "Guam, TT") into the key used for
    geocoding;
  - the write loop of `generate_basemap`, which writes one `city|x|y` line per
    geocoded city, counts geocoder time-outs and saves the map only when there
    were none;
  - `get_login`, which takes the second comma-separated field of every line of
    the credentials file.
- `src/airline_analysis.py`:
  - the reading of that coordinate file into a dictionary;
  - the lookup of each query row's city through the cleaned-name table and
    the coordinates;
  - the five-tier marker size and opacity of the on-time map;
  - the three-way colour of the percent-change map;
  - `find_mfr` and the lookup that attaches a manufacturer name to each
    three-character manufacturer code.

Modules:
- `Wrappers` (wrappers.dfy): `Result`, for operations where the scripts let an
  exception escape.
- `PyStr` (py_str.dfy): the Python string operations the scripts rely on,
  with Python's edge cases (on strings of characters; see "## Left out"):
  - `str.find` gives -1 when the character is absent;
  - a slice bound of -1 counts from the end;
  - `in` is a substring test;
  - `split` on one character;
  - `strip` of a character set;
  - iteration over a file's lines.
- `DataPrep` (data_prep.dfy) and `DataPrepCases` (data_prep_cases.dfy): the
  data-preparation script and worked examples of the name cleaner.
- `AirlineAnalysis` (airline_analysis.dfy): the analysis script.

How the model follows the code:
- The name cleaner is modelled literally, including the cases the code handles
  in ways a reader might not expect:
  - the slash rule fires whenever the first '/' is past index 0, wherever the
    first comma is: "Akron, OH/Canton" becomes "Akron, OH, OH/Canton";
  - with no comma at all, the slice from -1 appends the last character:
    "Foo/Bar" becomes "Foor";
  - ", CA", ", LA" and ", PR" are found anywhere in the name, not only at the
    end, and they are tried in that order.
- Judging by "Seattle/Tacoma, WA", the slash rule is meant to drop an alternate
  name written between a slash and the comma. The code does not check that the
  slash comes before the comma, and the model follows the code.
- Query rows have named fields instead of tuple positions. The on-time map's
  name is `row[2]`, which is `OntimeRow.cityName`. The change map's name is
  `row[0]`, which is `ChangeRow.cityName`.
- The geocoder is a sequence of outcomes, one per city:
  - `TimedOut` is the caught time-out.
  - `NotFound` is the `None` that `geocode` returns for an unknown place. The
    code then fails on `location.longitude`, which ends the loop. Any other
    geocoder exception escapes from line 51 and ends the run in the same way,
    so `NotFound` stands for it too.
  - `Found(location)` is a normal result.
- The map projection is a function parameter that returns the two coordinates
  as text. The coordinates are opaque strings on both sides.
- The module global `cities` that the plot functions read is a parameter.

## Model

| member | source | states |
|---|---|---|
| PyStr.Find | src/data_prep.py:74-75 | -1 exactly when the character is absent, otherwise the index of its first occurrence |
| PyStr.SliceFromMinusOne | src/data_prep.py:77 | slicing from -1 keeps just the last character (nothing for the empty string) |
| PyStr.Contains | src/data_prep.py:80 | true exactly when the substring occurs at some index |
| PyStr.Split | src/data_prep.py:30 | at least one part, no part holds the separator, and the parts joined by the separator give back the input |
| PyStr.SplitJoin | src/airline_analysis.py:95 | splitting a join of separator-free parts gives back those parts |
| PyStr.SliceFrom | src/data_prep.py:77-78 | `s[i:]` is the suffix of `s` that starts at the bound Python computes for `i` |
| PyStr.SliceTo | src/data_prep.py:77-85 | `s[0:j]` is the prefix of `s` whose length is the bound Python computes for `j` |
| PyStr.Strip | src/airline_analysis.py:95 | the stripped text is a stretch of the input with only stripped characters before and after it, and it neither starts nor ends with one |
| PyStr.FileLines | src/airline_analysis.py:93-94 | the lines of a file, concatenated, are the file. Every line but the last ends at its first newline, and the last is non-empty and either such a line or free of newlines |
| PyStr.FileLinesConcat | src/airline_analysis.py:93-94 | a file written as whole newline-terminated lines reads back as exactly those lines |
| DataPrep.CleanCity | src/data_prep.py:74-87 | the rule cascade for one name. Its contract: the text before the first slash survives when the slash rule fires, and otherwise, when there is a comma, the text before the first comma does. The rule lemmas below state each branch |
| DataPrep.CleanCitySlash | src/data_prep.py:74-77 | a first '/' past index 0 gives the text before it followed by the text from the first comma on |
| DataPrep.CleanCitySlashNoComma | src/data_prep.py:74-77 | with a slash past index 0 and no comma, the text before the slash followed by the last character |
| DataPrep.CleanCityTerritory | src/data_prep.py:78-79 | when the slash rule does not fire and the text from the first comma is ", TT", the text before the comma |
| DataPrep.CleanCityCalifornia | src/data_prep.py:80-81 | otherwise ", CA" anywhere gives the text before the first comma plus ", California" |
| DataPrep.CleanCityLouisiana | src/data_prep.py:82-83 | otherwise, without ", CA", ", LA" anywhere gives the text before the first comma plus ", Louisiana" |
| DataPrep.CleanCityPuertoRico | src/data_prep.py:84-85 | otherwise, without ", CA" or ", LA", ", PR" anywhere gives the text before the first comma plus ", Puerto Rico" |
| DataPrep.CleanCityUnchanged | src/data_prep.py:86-87 | a name no rule applies to is its own key |
| DataPrep.CleanCityNoComma | src/data_prep.py:76-87 | a name with no comma and no slash past index 0 is its own key |
| DataPrep.CleanCityPrecedence | src/data_prep.py:80-85 | ", CA" wins over ", LA" and ", PR" |
| DataPrep.OnlyCommaOccurrence | src/data_prep.py:80-85 | in a name with a single comma, a rule text starting with a comma can only occur at that comma |
| DataPrep.CleanedTable | src/data_prep.py:72-88 | one entry per distinct raw name, whose value is that name's cleaned key |
| DataPrep.CleanCityText | src/data_prep.py:72-89 | the loop leaves exactly the raw names as keys, each mapped to its cleaned key, so repeated rows write the same value |
| DataPrep.FormatLine | src/data_prep.py:57 | a written line starts with the city followed by a bar and ends with a newline |
| DataPrep.FormatLines | src/data_prep.py:57 | one line of city, x and y separated by bars per record, in order |
| DataPrep.Reached | src/data_prep.py:49-56 | how far the loop gets: the index of the first not-found city, or all cities |
| DataPrep.Geocoded | src/data_prep.py:49-57 | the records the loop writes, one per found city in input order, stopping at the first not-found city. Its properties are the lemmas below |
| DataPrep.Timeouts | src/data_prep.py:49-55 | the time-outs the loop counts before it ends. `GeocodedPlusTimeouts` relates it to the records |
| DataPrep.GeocodedPlusTimeouts | src/data_prep.py:49-57 | lines written plus time-outs equals the number of cities the loop reached |
| DataPrep.GeocodedFromInput | src/data_prep.py:49-57 | every written record is a reached, found city paired with the projection of its location |
| DataPrep.GeocodedSplit | src/data_prep.py:49-57 | before the first not-found city, the records of a prefix of the cities come first and those of the rest follow |
| DataPrep.GeocodedWritesReached | src/data_prep.py:49-57 | every reached city writes exactly one record, at its place in input order, when it is found, and none when it times out |
| DataPrep.GenerateCoordinates | src/data_prep.py:46-62 | writes the lines of the found cities in input order and counts the time-outs. Lines plus time-outs equal the cities reached. A not-found city aborts the run. The map is saved exactly when nothing aborted and nothing timed out |
| DataPrep.SplitSecond | src/data_prep.py:30 | a line splits into two or more fields exactly when it has a comma, and field 1 then runs from the first comma to the second comma or the end |
| DataPrep.Credential | src/data_prep.py:30 | the credential of a line with a comma is its second comma-separated field after newlines are stripped |
| DataPrep.GetLogin | src/data_prep.py:29-30 | succeeds exactly when every line has a comma, with one credential per line in order. Otherwise it fails at the first line without a comma |
| DataPrep.CredentialOfKeyValue | src/data_prep.py:30 | a `key,value` line yields its value |
| DataPrep.GetLoginKeyValueFile | src/data_prep.py:29-30 | a file whose content is `key,value` lines, read line by line, yields exactly its values in order |
| DataPrepCases.CleanCitySeattleTacoma | src/data_prep.py:76-77 | "Seattle/Tacoma, WA" becomes "Seattle, WA" |
| DataPrepCases.CleanCityFajardo | src/data_prep.py:84-85 | "Fajardo, PR" becomes "Fajardo, Puerto Rico" |
| DataPrepCases.CleanCityGuam | src/data_prep.py:78-79 | "Guam, TT" becomes "Guam" |
| DataPrepCases.CleanCitySeattle | src/data_prep.py:86-87 | "Seattle, WA" is unchanged |
| DataPrepCases.CleanCitySlashWithoutComma | src/data_prep.py:74-77 | "Foo/Bar" becomes "Foor" |
| DataPrepCases.CleanCitySlashAfterComma | src/data_prep.py:74-77 | "Akron, OH/Canton" becomes "Akron, OH, OH/Canton" |
| AirlineAnalysis.ParseCoordLine | src/airline_analysis.py:95 | the key is the bar-free prefix of the line up to its first bar or its end |
| AirlineAnalysis.CoordTable | src/airline_analysis.py:92-95 | the dictionary the reading loop leaves. Every entry holds the coordinates of some line with its key |
| AirlineAnalysis.CoordTableKeys | src/airline_analysis.py:92-95 | the dictionary's keys are exactly the keys of the lines |
| AirlineAnalysis.CoordTableLastWins | src/airline_analysis.py:93-95 | a key holds the coordinates of the last line with that key |
| AirlineAnalysis.BuildCoordDict | src/airline_analysis.py:92-95 | the reading loop builds the dictionary of the parsed lines, last one winning |
| AirlineAnalysis.CoordTableStep | src/airline_analysis.py:94-95 | one more line sets exactly its own key |
| AirlineAnalysis.ParseFormatLine | src/airline_analysis.py:95 | parsing a line written by the data-preparation script recovers its city and both coordinates |
| AirlineAnalysis.LineStripped | src/airline_analysis.py:95 | stripping newlines from a written line drops its final newline |
| AirlineAnalysis.FormattedLine | src/data_prep.py:57 | a record without newlines is written as one whole line |
| AirlineAnalysis.ParseWrittenLines | src/airline_analysis.py:93-95 | the lines written for clean records are whole lines and parse back to those records |
| AirlineAnalysis.CoordinateFileRoundTrip | src/airline_analysis.py:92-95 | the written file reads back line for line. Its dictionary keys are exactly the written cities, each holding the coordinates of its last record |
| AirlineAnalysis.WrittenTable | src/airline_analysis.py:93-95 | the dictionary of written records: their cities as keys, the last record per city winning |
| AirlineAnalysis.Locate | src/airline_analysis.py:99-117 | located exactly when the raw name has a key, the key has an entry and the entry has two fields, and then the point is its first two fields. A missing raw name is a KeyError on it, a missing key a KeyError on the key, and a short entry an IndexError |
| AirlineAnalysis.LocateThroughCleaning | src/airline_analysis.py:96-100 | a row is located exactly when its raw name was queried and its cleaned key is in the coordinate file with two fields. A missing raw name is reported before a missing cleaned key, and a present key with fewer than two fields is an IndexError |
| AirlineAnalysis.ThresholdsReachedMonotone | src/airline_analysis.py:101-115 | a larger value reaches at least as many thresholds |
| AirlineAnalysis.ThresholdsReachedInterval | src/airline_analysis.py:101-115 | over ascending thresholds, the count places the value in a left-closed interval |
| AirlineAnalysis.OntimeTier | src/airline_analysis.py:101-115 | the tier of a percentage is a valid index into the size and opacity tables |
| AirlineAnalysis.OntimeMarker | src/airline_analysis.py:117 | a cyan marker at the row's point, with the size and the opacity of the percentage's own tier |
| AirlineAnalysis.OntimeStyle | src/airline_analysis.py:101-115 | the branch chain gives the size and opacity of the percentage's tier |
| AirlineAnalysis.OntimeTierInterval | src/airline_analysis.py:101-115 | tier t covers [threshold t-1, threshold t) |
| AirlineAnalysis.OntimeTierCases | src/airline_analysis.py:102-115 | below 75 is tier 0, [75, 80) tier 1, [80, 85) tier 2, [85, 90) tier 3, 90 and above tier 4 |
| AirlineAnalysis.OntimeStyleMonotone | src/airline_analysis.py:101-115 | a higher on-time percentage never gets a smaller marker or a lower opacity |
| AirlineAnalysis.OntimeTierSamples | src/airline_analysis.py:101-115 | 70, 77, 83, 88 and 95 fall in the five tiers in turn, and exactly 75 is in the second |
| AirlineAnalysis.ChangeColour | src/airline_analysis.py:140-146 | a colour other than amber is green exactly when the change is positive |
| AirlineAnalysis.ChangeColourBand | src/airline_analysis.py:140-146 | amber exactly on the closed band [-0.05, 0.05], boundaries included |
| AirlineAnalysis.ChangeColourSymmetric | src/airline_analysis.py:140-146 | the opposite change gets the colour with green and red swapped |
| AirlineAnalysis.ChangeColourMonotone | src/airline_analysis.py:140-146 | a larger change never gets a worse colour |
| AirlineAnalysis.ChangeColourBoundaryCase | src/airline_analysis.py:140-146 | a change from 80 to 84 is exactly 0.05 and is amber |
| AirlineAnalysis.ChangeMarker | src/airline_analysis.py:140-148 | a marker at the row's point with size 12 and opacity 0.8, in the change's colour: amber exactly when the change is within 0.05 either way |
| AirlineAnalysis.PlaceOntimeMarkers | src/airline_analysis.py:98-117 | succeeds exactly when every row is located, with one cyan marker per row at its point, in its tier's size and opacity. Otherwise it fails with the first unlocated row's error |
| AirlineAnalysis.PlotOntimeMap | src/airline_analysis.py:84-120 | the same, with the dictionaries built from the coordinate file and the cleaned city names |
| AirlineAnalysis.PlaceChangeMarkers | src/airline_analysis.py:137-148 | succeeds exactly when every row is located, with one marker of size 12 and opacity 0.8 per row, coloured by its change. Otherwise it fails with the first unlocated row's error |
| AirlineAnalysis.PlotPctChange | src/airline_analysis.py:123-151 | the same, with the dictionaries built from the coordinate file and the cleaned city names |
| AirlineAnalysis.FindMfr | src/airline_analysis.py:216-217 | the first three characters of the code, or all of a shorter code |
| AirlineAnalysis.CodeTable | src/airline_analysis.py:220-221 | one row per aircraft reference, with its manufacturer name and the first three characters of its CODE as the code |
| AirlineAnalysis.FirstIndex | src/airline_analysis.py:222 | the position of a row's first occurrence, or the length when it is absent |
| AirlineAnalysis.Without | src/airline_analysis.py:222 | keeps every row except the one removed |
| AirlineAnalysis.WithoutKeepsOrder | src/airline_analysis.py:222 | removing a row leaves the first occurrences of the other rows in the same order |
| AirlineAnalysis.DropDuplicates | src/airline_analysis.py:222 | the same rows, each once, in the order of their first occurrences, as `keep='first'` gives |
| AirlineAnalysis.ManufacturerName | src/airline_analysis.py:223 | found exactly when some row has the code; a missing code is the error |
| AirlineAnalysis.ManufacturerNameFirst | src/airline_analysis.py:223 | the name found is the whitespace-stripped name of the first row with the code |
| AirlineAnalysis.WithoutKeepsName | src/airline_analysis.py:222-223 | removing a row with another code does not change a lookup |
| AirlineAnalysis.DropDuplicatesKeepsName | src/airline_analysis.py:222-223 | dropping duplicate rows does not change any lookup |
| AirlineAnalysis.AttachManufacturers | src/airline_analysis.py:223 | succeeds exactly when every code has a name, giving each code's lookup in order. Otherwise it fails with the first code that has none |
| AirlineAnalysis.ManufacturersIgnoreDuplicates | src/airline_analysis.py:220-223 | attaching names through the deduplicated table gives the same result as through the full table |

## Left out

- Database access: the connection, every SQL query, and the statistics computed inside the database (on-time percentage, the nine-year self-join, yearly averages). These run in the database engine. Query results are inputs here.
- pandas: reading and writing CSV files, `pivot`, `mean` and the column-name decoding. These are library behaviour. The manufacturer lookup is modelled on a sequence of rows.
- Geocoding, map construction, projection and pickling: these are foreign calls.
  - The geocoder is a sequence of outcomes and the projection a function parameter.
  - The pickled map and saved image are reduced to the status `Saved`.
  - The progress message printed on a time-out is not modelled.
- Plotting: every matplotlib call, `bluemarble`, figure saving and terminal printing. A plot is modelled as the list of markers it would draw, or the error that stops it.
- Float handling: the `float` conversion of coordinate fields and the formatting of projected coordinates as text. Coordinates stay opaque strings, so a field `float` would reject is not modelled. On-time percentages and changes are exact `real`s.
- Files: the credentials and coordinate files are passed as their contents, and the written coordinate file as the list of lines written. Opening a missing file is not modelled.
- Script drivers: the `__main__` blocks and `database_connect` are left out. The module global `cities` is a parameter.
- `get_login` in src/airline_analysis.py:29-37 is the same code as in src/data_prep.py:22-30 and is modelled once, as `DataPrep.GetLogin`.
- `DataPrep.GetLogin`: it takes the file's lines (`PyStr.FileLines` of its content), and its error names the position of the first line without a comma, where Python raises an IndexError with no position.
- `PyStr.Strip`: the whitespace set is Python 2's ASCII whitespace for byte strings. Unicode whitespace is out of scope.
- Strings: names and lines are modelled as sequences of characters, not as Python 2 byte strings. `find` positions and slices count characters, not bytes. For a non-ASCII name, the slash rule without a comma therefore appends the last character, where Python appends the last byte of its UTF-8 encoding.
