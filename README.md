# NYC housing-crisis map: a Dafny model

This project models the logic of the NYC housing-crisis visualisation. That
covers three parts:

- **The browser map page.** It loads the city's vacate-order rows and turns
  each usable row into a coloured circle marker. It keeps two marker groups
  (clustered and plain), a heat-map overlay and a six-number summary panel in
  step with a borough filter and two toggles.
- **The permit utilities.** `parsePermitFeature` flattens a raw GeoJSON
  feature into a record. `computePermitStats` counts records into a total, an
  issued count and three dictionaries. `getPermitColor` maps a permit type to
  a colour. `filterByBorough` selects records by a short borough code.
- **Two command-line tools.** `geojson_to_ndjson.js` reads options, checks
  that the input is a FeatureCollection and writes one sanitised JSON line per
  feature into numbered chunk files. `clean_geojson.js` replaces the whole
  words `NaN`, `NAN` and `Infinity` with `null` and drops commas before a
  closing bracket or brace. Its `-Infinity` pattern does not fire after
  punctuation or a space, so `[-Infinity]` becomes `[-null]` (see Findings).
  It writes each existing input to the path with a `.geojson` suffix, in any
  letter case, changed to `.cleaned.geojson`. A path without that suffix is
  overwritten with the cleaned text.

Modules:

| file | module | models |
|---|---|---|
| `strings.dfy` | `Strings` | the string operations the code relies on: ASCII case mapping, `trim`, `startsWith`, `includes`, `split`, decimal digits |
| `sequences.dfy` | `Sequences` | order-preserving subsequences, used for the borough filter and the cleaner's input list |
| `js_values.dfy` | `JsValues` | JavaScript values, truthiness, `\|\|`, `String(v)`, property access |
| `parse_permit.dfy` | `ParsePermit` | `utils/parsePermit.js` |
| `compute_stats.dfy` | `PermitStats` | `utils/computeStats.js` |
| `permit_color.dfy` | `PermitColor` | `utils/getPermitColor.js` |
| `filter_by_borough.dfy` | `BoroughFilter` | `utils/filterByBorough.js` |
| `vacate_map.dfy` | `VacateMap` | `script.js`: `getMarkerColor`, `formatDate`, the page state, `applyFilter`, the row loop and the button handlers |
| `geojson_to_ndjson.dfy` | `NdjsonConverter` | `tools/geojson_to_ndjson.js` |
| `clean_geojson.dfy` | `GeoJsonCleaner` | `tools/clean_geojson.js` |

Modelling conventions:

- `null` or `undefined` become `Option.None`.
- A string field of a fetched row is an `Option<string>`. It is truthy when it
  is present and non-empty.
- Numbers are opaque. `Number` is a finite value, `NaN` or an infinity, and
  its decimal text is kept unread. `parseFloat` is a parameter.
- `JSON.parse` and `JSON.stringify` are parameters that return `None` where
  they throw. So is `fs.existsSync`.
- A file system that the code writes to and reads back is a
  `map<string, string>`.
- The page state of `script.js` is the class `VacateMap.MapView`:
  - a marker group is the sequence of its markers;
  - Leaflet's map is the set of this page's layers on it;
  - the summary panel is its six counts.
- The writer state of the converter (`fileIndex`, `fileCount`, `written`, the
  open streams) is the class `NdjsonConverter.NdjsonWriter`.

Where the code and its documentation differ, the model follows the code:

- **Coordinates.** `parsePermitFeature` never rejects a feature. Missing
  coordinates become `null`, and a `NaN` parse result is kept.
- **Empty chunk files.** A feature whose serialisation throws is still
  preceded by the "stream is full" check. So it can open a new, empty file
  (`SkipAtFullStreamLeavesEmptyFile`).
- **Chunk size below one.** A `--chunk` value below one makes every feature
  open its own file (`LayoutWithoutChunkBound`).
- **Overwriting.** An input path without a `.geojson` suffix is its own output
  path, so the cleaned text replaces the input.

## Model

| member | source | states |
|---|---|---|
| ParsePermit.Category | utils/parsePermit.js:10-13 | a category field is upper-cased, empty for a falsy value, and the upper-cased text of a string |
| ParsePermit.ParsePermitFeature | utils/parsePermit.js:1-17 | falsy `properties` is read as `{}`; `raw` is the feature; `lon`/`lat` are elements 0 and 1 of the coordinates through `parseFloat`, null exactly when the coordinates are falsy or the element is undefined, and NaN is kept; each category is upper-cased; `Permit Type` and `Job Type` win over `PermitType` and `JobType` when truthy |
| ParsePermit.Coordinate | utils/parsePermit.js:3-5 | no contract; the definition is the model; stated by ParsePermitFeature and PointFeature |
| ParsePermit.BareFeature | utils/parsePermit.js:2-5 | a feature with no properties and no geometry still yields a record: null coordinates and empty categories |
| ParsePermit.PointFeature | utils/parsePermit.js:3-5 | a `[x, y]` coordinate array gives longitude `x` and latitude `y` |
| PermitStats.StatsOf | utils/computeStats.js:1-26 | no contract; the definition is the model; stated by ComputePermitStats, StatsOfEmpty, ActiveCountsIssued, DictionariesSumToTotal, BoroughCount and OneMoreFeature |
| PermitStats.Histogram | utils/computeStats.js:15-22 | no contract; the definition is the model; stated by HistogramCounts and HistogramSum |
| PermitStats.ComputePermitStats | utils/computeStats.js:1-26 | the counting loop returns exactly `StatsOf(features)`: `total` is the length, `active` the issued count, and three histograms of the fallback keys |
| PermitStats.StatsOfEmpty | utils/computeStats.js:2-8 | no features give zero counts and empty dictionaries |
| PermitStats.ActiveCountsIssued | utils/computeStats.js:12-13 | `active` is the number of features whose upper-cased status is `ISSUED`, so never more than `total` |
| PermitStats.CountIssuedIndices | utils/computeStats.js:12-13 | among the first `n` features, the issued count is the number of positions holding an issued permit, and at most `n` |
| PermitStats.IssuedIndicesStep | utils/computeStats.js:12-13 | the positions of issued permits grow by position `n - 1` exactly when that permit is issued |
| PermitStats.CountIssuedStep | utils/computeStats.js:12-13 | one more feature adds 1 to the issued count exactly when it is issued |
| PermitStats.HistogramCounts | utils/computeStats.js:15-22 | a dictionary holds exactly the keys that occur, each with its number of occurrences |
| PermitStats.HistogramSum | utils/computeStats.js:15-22 | the counts of a dictionary add up to the number of keys counted |
| PermitStats.DictionariesSumToTotal | utils/computeStats.js:10-23 | each of the three dictionaries sums to `total`, so no feature is lost or counted twice |
| PermitStats.BoroughCount | utils/computeStats.js:15-16 | a borough key is present exactly when some feature has it, and its count is the number of such features |
| PermitStats.MissingCategoriesUseFallbacks | utils/computeStats.js:15-22 | an empty borough counts under `UNKNOWN`, an empty permit or job type under `OTHER`; one feature gives one entry of 1 in each dictionary |
| PermitStats.OneMoreFeature | utils/computeStats.js:10-23 | one more feature adds 1 to `total`, 1 to `active` when issued, and 1 to its own borough key, leaving every other key unchanged |
| PermitStats.ExampleBoroughs | utils/computeStats.js:15-16 | two Brooklyn features and one without a borough give `{BK: 2, UNKNOWN: 1}` |
| PermitColor.Normalize | utils/getPermitColor.js:14 | no contract; the definition is the model; stated by NormalizeIgnoresCaseAndPadding and ColorOfPlainCode |
| PermitColor.Lookup | utils/getPermitColor.js:16 | the exact lookup returns a colour only for a key of the table, with that key's colour, and nothing for any other text |
| PermitColor.FindPrefixKey | utils/getPermitColor.js:17 | the prefix search returns the first key in table order that begins the text, or nothing when no key does |
| PermitColor.GetPermitColor | utils/getPermitColor.js:12-19 | the result is the default grey or a table colour, and it is grey for a falsy permit type |
| PermitColor.ColorOfText | utils/getPermitColor.js:16-18 | the search on normalised text gives the default or a table colour |
| PermitColor.KeysArePrefixFree | utils/getPermitColor.js:1-10 | the keys are distinct two-letter codes, so at most one of them begins any text |
| PermitColor.ColorOfKeyPrefix | utils/getPermitColor.js:12-18 | a permit type whose normalised text begins with a key gets that key's colour; an exact match is one case of this |
| PermitColor.TextWithKeyPrefix | utils/getPermitColor.js:16-18 | on normalised text, a key prefix decides the colour whether the exact or the prefix lookup finds it |
| PermitColor.ColorWithoutKeyPrefix | utils/getPermitColor.js:17-18 | a permit type that no key begins gets the default grey |
| PermitColor.TextWithoutKeyPrefix | utils/getPermitColor.js:17-18 | normalised text that no key begins gets the default grey |
| PermitColor.NormalizeIgnoresCaseAndPadding | utils/getPermitColor.js:14 | normalising ignores letter case and surrounding whitespace |
| PermitColor.EmptyTextIsDefault | utils/getPermitColor.js:16-18 | text that is blank after trimming gets the default grey |
| PermitColor.ColorIgnoresCaseAndPadding | utils/getPermitColor.js:13-18 | the colour does not depend on letter case or surrounding whitespace |
| PermitColor.ColorOfPlainCode | utils/getPermitColor.js:14 | for an upper-cased, trimmed string the search runs on the string itself |
| BoroughFilter.FilterByBorough | utils/filterByBorough.js:9-13 | no contract; the definition is the model; stated by FilterByBoroughResult and FilterByBoroughIdempotent |
| BoroughFilter.Select | utils/filterByBorough.js:12 | no contract; the definition is the model; stated by SelectIsSubsequence, SelectCounts, SelectAllMatch and SelectKeepsMatching |
| BoroughFilter.FullName | utils/filterByBorough.js:11 | a known short code expands to its full name; any other code is used as it is |
| BoroughFilter.SelectIsSubsequence | utils/filterByBorough.js:12 | the filter keeps input order and only leaves elements out |
| BoroughFilter.SelectCounts | utils/filterByBorough.js:12 | each feature of the borough appears as often as in the input, and no other feature appears |
| BoroughFilter.SelectAllMatch | utils/filterByBorough.js:12 | every kept feature has the borough |
| BoroughFilter.SelectKeepsMatching | utils/filterByBorough.js:12 | features that all have the borough are kept whole |
| BoroughFilter.FilterByBoroughResult | utils/filterByBorough.js:9-13 | a falsy code returns the whole input; otherwise exactly the features whose upper-cased borough is the expanded name, in order, as often as they occur |
| BoroughFilter.FilterByBoroughIdempotent | utils/filterByBorough.js:9-13 | filtering twice with the same code is filtering once |
| BoroughFilter.ShortCodesExpand | utils/filterByBorough.js:1-7 | `MN`, `BK`, `BX`, `QN` and `SI` expand to the five borough names, and other codes stay as they are |
| BoroughFilter.ParsedRecordsCompareDirectly | utils/filterByBorough.js:12 | for records from `parsePermitFeature` the borough test is a plain comparison, because their boroughs are already upper-cased |
| VacateMap.CategoryOf | script.js:147-152 | no contract; the definition is the model; stated by MarkerColorMatchesCategory and CountRecord |
| VacateMap.Accepts | script.js:209-214 | no contract; the definition is the model: both coordinates present and non-empty, and neither parses to NaN; stated by AcceptedRowsCounts |
| VacateMap.RecordOf | script.js:211-239 | no contract; the definition is the model: the marker numbered `id` at the parsed coordinates in the reason's colour, with the row's borough and reason; stated by LoadedRecords |
| VacateMap.Loaded | script.js:207-242 | no contract; the definition is the model; stated by LoadedRecords, LoadStep and LoadRows |
| VacateMap.Selected | script.js:142-143 | no contract; the definition is the model; stated by NoFilterShowsAll and SelectedRecords |
| VacateMap.Tally | script.js:145-152 | no contract; the definition is the model; stated by TallySumsToTotal and TallyCountsCategories |
| VacateMap.TextOr | script.js:147 | `v \|\| ""` is the value when present and `""` otherwise |
| VacateMap.GetMarkerColor | script.js:86-96 | grey without a reason; otherwise always one of red, purple, orange, black or blue |
| VacateMap.MarkerColorMatchesCategory | script.js:147-152 | a record with a reason is drawn in the colour of the panel counter it is counted under; one without a reason is grey and counted as other |
| VacateMap.MarkerColorIgnoresCase | script.js:88 | colour and counter do not depend on letter case |
| VacateMap.SameLowerSameColor | script.js:88-95 | two reasons that are both present or both absent, with the same lower-cased text, get the same colour and the same counter |
| VacateMap.StripTime | script.js:103 | the result is a prefix of the date text |
| VacateMap.FormatDate | script.js:99-107 | a missing date gives `""`; otherwise the text is cut at the time part |
| VacateMap.TimestampLosesItsTime | script.js:101-103 | `<date>T<time>` without a line break in the time shows as `<date>` |
| VacateMap.DateWithoutTimeIsKept | script.js:103 | text without a `T` is shown unchanged |
| VacateMap.LineBreakKeepsTime | script.js:103 | a `T` followed by a line break is not stripped |
| VacateMap.AcceptedRows | script.js:209-214 | the accepted rows are no more than the input, and each one has present coordinates that do not parse to NaN |
| VacateMap.AcceptedRowsCounts | script.js:209-214 | exactly the rows that pass the checks are accepted, as often as they occur |
| VacateMap.Take | script.js:208 | the count check keeps the first `MAX_POINTS` accepted rows, or all of them when there are fewer |
| VacateMap.RecordsOf | script.js:233-239 | one pushed record per accepted row |
| VacateMap.LoadedRecords | script.js:207-242 | one load adds at most 5000 records, and all accepted rows when there are no more; each record has non-NaN coordinates, the colour of its reason and the next marker number |
| VacateMap.LoadStep | script.js:207-242 | one more row adds its record, numbered after those kept so far, exactly when it is accepted and fewer than 5000 were kept; otherwise nothing changes |
| VacateMap.LoadGrows | script.js:207-242 | an accepted row while fewer than 5000 are kept appends its record with the next marker number |
| VacateMap.LoadKeeps | script.js:208-214 | a rejected row, or any row once 5000 are kept, adds nothing |
| VacateMap.AcceptedStep | script.js:209-214 | one more row joins the accepted rows exactly when it passes the checks |
| VacateMap.TakeAppend | script.js:208 | one more element is kept exactly when fewer than the limit were kept |
| VacateMap.RecordsOfAppend | script.js:233-239 | one more accepted row appends its record, numbered after the others |
| VacateMap.LoadRows | script.js:207-242 | the row loop returns exactly `Loaded(rows)`: the records of the first 5000 accepted rows, numbered on from `firstId` |
| VacateMap.LoadRow | script.js:208-239 | one turn of the row loop pushes the row's record, with the next marker number, exactly when fewer than 5000 were pushed and both coordinates are present and not NaN; otherwise nothing changes |
| VacateMap.MarkersOf | script.js:155-156 | one marker per shown record |
| VacateMap.HeatPointsOf | script.js:159 | one heat point per shown record |
| VacateMap.HeatOf | script.js:172-184 | a heat layer is built exactly when some record is shown |
| VacateMap.TallySumsToTotal | script.js:145-152 | `total` is the number of shown records, and the five counters add up to it |
| VacateMap.AddCountsOnce | script.js:145-152 | counting one record adds 1 to `total` and 1 to the sum of the five reason counters |
| VacateMap.TallyCountsCategories | script.js:147-152 | each counter is the number of shown records whose reason falls under it |
| VacateMap.NoFilterShowsAll | script.js:143 | without a borough filter every record is shown |
| VacateMap.SelectedRecords | script.js:142-143 | with a filter, exactly the records of that borough are shown, as often as they occur |
| VacateMap.HeatPointsFollowRecords | script.js:155-159 | the heat map has one point per counted record, with its coordinates and intensity 0.6, and the groups hold each record's marker |
| VacateMap.RecordAt | script.js:155-159 | the heat point and the marker at position `i` are those of record `i` |
| VacateMap.CountRecord | script.js:145-152 | the counter update of one record adds one to `total` and one to the first matching reason counter |
| VacateMap.CollectShown | script.js:142-160 | the `forEach` over `markersData` returns exactly the markers, heat points and counts of the records the filter shows, in order |
| VacateMap.GroupFor | script.js:163-169 | the selected group is one of the two marker groups |
| VacateMap.MapView.constructor | script.js:111-119 | the initial page: no records, no filter, both toggles on, nothing on the map, no panel |
| VacateMap.MapView.ApplyFilter | script.js:123-197 | both groups hold the markers of the shown records; the heat layer is rebuilt from them; the panel counts them; only the selected group is on the map, plus the new heat layer when enabled; records, filter and toggles are unchanged |
| VacateMap.MapView.ClearLayers | script.js:125-130 | both groups are emptied and the heat layer is removed from the map and forgotten |
| VacateMap.MapView.AddShownMarkers | script.js:142-160 | the loop adds the shown markers to both groups and returns their heat points and counts |
| VacateMap.MapView.ShowHeat | script.js:172-188 | a heat layer is built exactly when some point is shown, it is on the map exactly when the heat toggle is on, and nothing else changes |
| VacateMap.MapView.ShowMarkerGroup | script.js:163-169 | afterwards exactly the group selected by `clusterEnabled` is on the map |
| VacateMap.MapView.OnRowsLoaded | script.js:203-246 | a load appends the records of the first 5000 accepted rows, then re-renders |
| VacateMap.MapView.AppendRows | script.js:207-242 | the row loop appends exactly `Loaded(rows)` to `markersData`; the filter, toggles, heat layer, map layers, both marker groups and the panel are unchanged until the re-render |
| VacateMap.MapView.ToggleHeat | script.js:253-262 | the heat flag flips; the current heat layer is on the map exactly when the flag is on; nothing else changes |
| VacateMap.MapView.ToggleCluster | script.js:265-268 | the cluster flag flips, and the other group replaces the old one on the map |
| VacateMap.MapView.SelectBorough | script.js:271-277 | the filter becomes the button's borough, and the panel counts that borough's records |
| VacateMap.MapView.ShowAll | script.js:280-283 | the filter is cleared, and every record is shown and counted |
| NdjsonConverter.ParseInt | tools/geojson_to_ndjson.js:23 | `parseInt` is NaN exactly when no digit follows the optional whitespace and sign |
| NdjsonConverter.ParseIntOfNatToString | tools/geojson_to_ndjson.js:23 | `parseInt` reads back the decimal text of a number |
| NdjsonConverter.ApplyArg | tools/geojson_to_ndjson.js:22-26 | one argument never changes the input path and never makes the chunk size zero |
| NdjsonConverter.ScanArgs | tools/geojson_to_ndjson.js:22-26 | the same holds for a whole run of arguments, and after a help flag nothing changes |
| NdjsonConverter.OptionsOf | tools/geojson_to_ndjson.js:17-26 | the input path is the first argument when non-empty, else the default; the chunk size is never zero |
| NdjsonConverter.ScanArgsAppend | tools/geojson_to_ndjson.js:22 | reading arguments in two runs is reading them in one |
| NdjsonConverter.ArgumentsAfterHelpIgnored | tools/geojson_to_ndjson.js:25 | no argument after `--help` or `-h` changes the options |
| NdjsonConverter.OneMoreArgument | tools/geojson_to_ndjson.js:22-26 | one more argument applies the three tests to the options so far |
| NdjsonConverter.ChunkArgument | tools/geojson_to_ndjson.js:23 | `--chunk=v` sets the chunk size to `parseInt(v)` unless that is NaN or 0 |
| NdjsonConverter.OutDirArgument | tools/geojson_to_ndjson.js:24 | `--out-dir=d` sets the output directory unless `d` is empty |
| NdjsonConverter.ChunkFlagSetsChunk | tools/geojson_to_ndjson.js:23 | a later `--chunk=N` with N > 0 sets the chunk size to N |
| NdjsonConverter.ChunkFlagWithoutNumberIgnored | tools/geojson_to_ndjson.js:23 | a `--chunk=` value that is not a number, or is zero, keeps the chunk size |
| NdjsonConverter.OutDirFlagSetsOutDir | tools/geojson_to_ndjson.js:24 | a later `--out-dir=D` sets the directory to D unless D is empty, and keeps the chunk size |
| NdjsonConverter.FirstArgumentIsInput | tools/geojson_to_ndjson.js:18-20 | a lone first argument is the input path, with the default chunk size and directory |
| NdjsonConverter.HelpStopsScan | tools/geojson_to_ndjson.js:25 | once a help flag has been read, the rest of the arguments are not |
| NdjsonConverter.ParseOptions | tools/geojson_to_ndjson.js:17-26 | the option loop computes exactly `OptionsOf(argv)` |
| NdjsonConverter.Sanitize | tools/geojson_to_ndjson.js:72-81 | a finite number is kept and a NaN or infinite one becomes `null`; strings, booleans, `null` and `undefined` are kept; an array keeps its length with each element sanitised, an object its keys with each value sanitised |
| NdjsonConverter.SanitizedIsFinite | tools/geojson_to_ndjson.js:74-79 | the sanitised value holds no NaN or infinity |
| NdjsonConverter.SanitizeKeepsFiniteValues | tools/geojson_to_ndjson.js:74-79 | a value without NaN or infinity is passed on unchanged |
| NdjsonConverter.SanitizeIdempotent | tools/geojson_to_ndjson.js:72-81 | sanitising twice is sanitising once |
| NdjsonConverter.ChunkPath | tools/geojson_to_ndjson.js:63 | no contract; the definition is the model; stated by ChunkPathsDistinct and LayoutPath |
| NdjsonConverter.ChunkPathsDistinct | tools/geojson_to_ndjson.js:63 | different stream numbers give different file names |
| NdjsonConverter.WithLine | tools/geojson_to_ndjson.js:89 | a write appends the line and a newline to the current stream only |
| NdjsonConverter.Layout | tools/geojson_to_ndjson.js:70-95 | at least one stream is opened |
| NdjsonConverter.LayoutPath | tools/geojson_to_ndjson.js:63 | stream `i` is `construction_<i>.ndjson` in the output directory |
| NdjsonConverter.Step | tools/geojson_to_ndjson.js:85-94 | one turn opens at most one stream, with the next number, and keeps earlier streams' paths |
| NdjsonConverter.LayoutKeepsLines | tools/geojson_to_ndjson.js:83-95 | read in order, the streams hold exactly the serialised features that did not throw, in input order, and `written` counts them |
| NdjsonConverter.StepKeepsLines | tools/geojson_to_ndjson.js:85-94 | one turn appends its line, if any, after all earlier ones |
| NdjsonConverter.WithLineAppends | tools/geojson_to_ndjson.js:89 | a write appends its line after all the lines already written |
| NdjsonConverter.StepChunkSizes | tools/geojson_to_ndjson.js:85 | one turn keeps every stream at `chunk` lines or fewer, and every stream but the last full |
| NdjsonConverter.LayoutChunkSizes | tools/geojson_to_ndjson.js:83-95 | with a chunk size of at least 1, no stream holds more than `chunk` lines and every stream but the last holds exactly `chunk` |
| NdjsonConverter.LayoutWithoutChunkBound | tools/geojson_to_ndjson.js:85 | with a chunk size of 0 or less, every feature opens a new stream |
| NdjsonConverter.SkipAtFullStreamLeavesEmptyFile | tools/geojson_to_ndjson.js:85-94 | a feature that throws when the stream is full still opens a stream, which stays empty |
| NdjsonConverter.LayoutPrefixStep | tools/geojson_to_ndjson.js:84-95 | the streams and the count after one more loop turn |
| NdjsonConverter.CountWritten | tools/geojson_to_ndjson.js:90 | `written` never exceeds the number of features |
| NdjsonConverter.IsFeatureCollection | tools/geojson_to_ndjson.js:50 | no contract; the definition is the model: truthy, `type` is the string `FeatureCollection`, and `features` is an array; Conversion states what it decides |
| NdjsonConverter.Serialized | tools/geojson_to_ndjson.js:84-95 | one serialisation result per feature, in order; each is `stringify` of the sanitised feature by definition |
| NdjsonConverter.Conversion | tools/geojson_to_ndjson.js:17-97 | exit 0 exactly on help; exit 2 exactly when, without help, the input is missing; exit 3 exactly when it then fails to parse; exit 4 exactly when it parses to something that is not a FeatureCollection; the streams are written exactly for a FeatureCollection, with at least one stream and at most one line per feature; an exit holds no streams, so exit 4 comes before any stream is opened |
| NdjsonConverter.NdjsonWriter.constructor | tools/geojson_to_ndjson.js:58-60 | the writer starts with no streams and zero counters |
| NdjsonConverter.NdjsonWriter.OpenNewStream | tools/geojson_to_ndjson.js:61-68 | opens the next numbered, empty stream, increments `fileIndex` and resets `fileCount` |
| NdjsonConverter.NdjsonWriter.WriteFeatures | tools/geojson_to_ndjson.js:83-95 | the loop leaves exactly `Layout(...)` as streams and `CountWritten(...)` as `written` |
| NdjsonConverter.NdjsonWriter.WriteFeature | tools/geojson_to_ndjson.js:85-94 | one turn is `Step`, and `written` grows by one exactly when serialising succeeds |
| NdjsonConverter.Convert | tools/geojson_to_ndjson.js:17-97 | the script computes exactly `Conversion(...)`, so each exit code and the written streams come under the conditions stated there |
| GeoJsonCleaner.TrimAll | tools/clean_geojson.js:15 | each piece is trimmed, in order |
| GeoJsonCleaner.NonEmpty | tools/clean_geojson.js:15 | every non-empty piece is kept, as often as it occurs and in its order (a subsequence of the pieces), and no empty piece is |
| GeoJsonCleaner.Inputs | tools/clean_geojson.js:10-16 | without arguments the two default paths; otherwise every non-empty trimmed piece of the first argument, as often as it occurs and in its order; never an empty string |
| GeoJsonCleaner.TrimmedIsFixed | tools/clean_geojson.js:15 | trimming a string with no whitespace at its ends changes nothing |
| GeoJsonCleaner.TrimmedPiece | tools/clean_geojson.js:15 | a trimmed piece has no comma and no whitespace at its ends |
| GeoJsonCleaner.TrimKeepsNoComma | tools/clean_geojson.js:15 | trimming a piece without a comma leaves none |
| GeoJsonCleaner.TrimIsTrimmed | tools/clean_geojson.js:15 | a trimmed piece has no whitespace at either end |
| GeoJsonCleaner.InputsArePlainPaths | tools/clean_geojson.js:10-16 | every input is a non-empty, trimmed piece without a comma, and only the first argument is read |
| GeoJsonCleaner.OnePlainPath | tools/clean_geojson.js:15 | a first argument naming one plain path gives exactly that path |
| GeoJsonCleaner.SkipSpaces | tools/clean_geojson.js:26 | the first non-whitespace position, with only whitespace skipped |
| GeoJsonCleaner.ReplaceWithoutMatch | tools/clean_geojson.js:20-23 | text without a match is copied |
| GeoJsonCleaner.ReplaceCopiesOne | tools/clean_geojson.js:20-23 | a position where the word does not match is copied ahead of the rest |
| GeoJsonCleaner.ReplaceOneMatchFrom | tools/clean_geojson.js:20-23 | with a single match, the text before it is copied, the match replaced and the rest copied |
| GeoJsonCleaner.ReplaceOneMatch | tools/clean_geojson.js:20-23 | with a single match, only the match is replaced |
| GeoJsonCleaner.ReplaceAll | tools/clean_geojson.js:20-23 | no contract; the definition is the model: a left-to-right scan that replaces each match and goes on after it; its meaning is stated by ReplaceFirstMatch, ReplaceWithoutMatch and ReplaceRemovesWord |
| GeoJsonCleaner.NextScan | tools/clean_geojson.js:20-23 | the replacement scan always moves forward and stays within the text, past a whole match or one character |
| GeoJsonCleaner.ReplaceFirstMatch | tools/clean_geojson.js:20-23 | for any text: up to the first match from position `i` the text is copied, the match becomes the replacement, and the scan goes on right after the match |
| GeoJsonCleaner.WithoutFirstCharacter | tools/clean_geojson.js:20-23 | text without the word's first character is copied |
| GeoJsonCleaner.ReplaceAddsNothing | tools/clean_geojson.js:20-23 | a replacement introduces only characters of the replacement |
| GeoJsonCleaner.StripWithoutComma | tools/clean_geojson.js:26 | text without a comma keeps all its characters |
| GeoJsonCleaner.StripTrailingCommas | tools/clean_geojson.js:26 | no contract; the definition is the model: a left-to-right scan for a comma, whitespace and a closing bracket or brace; its meaning is stated by StripFirstComma and StripKeepsWordAway |
| GeoJsonCleaner.StripCopiesOne | tools/clean_geojson.js:26 | a position where no trailing comma starts is copied ahead of the rest |
| GeoJsonCleaner.StripFirstComma | tools/clean_geojson.js:26 | for any text: up to the first trailing comma from position `i` the text is copied, the comma and the whitespace after it are dropped, the bracket or brace is kept, and the scan goes on after it |
| GeoJsonCleaner.NextStrip | tools/clean_geojson.js:26 | the comma scan always moves forward and stays within the text |
| GeoJsonCleaner.CleanTextAsWritten | tools/clean_geojson.js:18-29 | no contract; the definition is the model: the four replacements with the source's patterns and order, then the comma pass; stated for every text by CleanTextAsWrittenHasNoNaN, CleanTextAsWrittenHasNoNAN and CleanTextAsWrittenHasNoInfinity, and by NegativeInfinityKeepsItsMinus, NaNBecomesNull and CorrectionNeedsMinus |
| GeoJsonCleaner.CleanText | tools/clean_geojson.js:18-29 | no contract; the definition is the model: as written, with the third pattern `-Infinity\b`; stated by the four CleanTextHasNo lemmas, NaNBecomesNull and NegativeInfinityBecomesNull |
| GeoJsonCleaner.LoneWordReplaced | tools/clean_geojson.js:20-23 | a word between two non-word characters is replaced |
| GeoJsonCleaner.NaNBecomesNull | tools/clean_geojson.js:18-29 | `NaN` between two punctuation characters becomes `null` |
| GeoJsonCleaner.CleanTextWithoutWordsOrCommas | tools/clean_geojson.js:18-29 | text without the four words and without a comma is unchanged |
| GeoJsonCleaner.NegativeInfinityKeepsItsMinus | tools/clean_geojson.js:22-23 | as written, `-Infinity` after a non-word character becomes `-null` |
| GeoJsonCleaner.LeadingMinusNotMatched | tools/clean_geojson.js:22 | as written, `\b-Infinity\b` does not match a minus sign after a non-word character |
| GeoJsonCleaner.InfinityAfterMinusReplaced | tools/clean_geojson.js:23 | `\bInfinity\b` then replaces the word after the minus sign, and only it |
| GeoJsonCleaner.NegativeInfinityBecomesNull | tools/clean_geojson.js:22-23 | with the corrected pattern, `-Infinity` after a non-word character becomes `null` |
| GeoJsonCleaner.MinusInfinityReplaced | tools/clean_geojson.js:22 | the corrected `-Infinity\b` replaces the word with its minus sign |
| GeoJsonCleaner.CorrectionNeedsMinus | tools/clean_geojson.js:22 | the two cleaners agree on any text without a minus sign |
| GeoJsonCleaner.TrailingCommaRemoved | tools/clean_geojson.js:26 | a comma, any whitespace and a closing bracket or brace become the bracket or brace alone |
| GeoJsonCleaner.SkipSpacesOver | tools/clean_geojson.js:26 | skipping whitespace stops at the first non-whitespace character |
| GeoJsonCleaner.StrippingIsNotIdempotent | tools/clean_geojson.js:26 | one pass leaves `,]` from `,,]`; a second pass changes the text again |
| GeoJsonCleaner.MatchIsWholeWord | tools/clean_geojson.js:20-23 | a match of `\b<w>\b` for a word `w` is a whole word: no word character before it, and its run of word characters is exactly `w` |
| GeoJsonCleaner.WholeWordIsMatch | tools/clean_geojson.js:20-23 | a whole word `w` is a match of `\b<w>\b` |
| GeoJsonCleaner.NoWholeWordNoMatch | tools/clean_geojson.js:20-23 | a text in which no word is `w` has no match of `\b<w>\b` |
| GeoJsonCleaner.ReplaceRemovesWord | tools/clean_geojson.js:20-23 | replacing the word `tok` with a different word leaves no whole word `tok` anywhere in the result |
| GeoJsonCleaner.RemovedAtMatch | tools/clean_geojson.js:20-23 | a replaced match becomes a whole word of its own, the replacement |
| GeoJsonCleaner.RemovedAtCopy | tools/clean_geojson.js:20-23 | a copied character keeps the result free of the word `tok` |
| GeoJsonCleaner.RemovedStep | tools/clean_geojson.js:20-23 | one step of the scan, match or copy, keeps the result free of the word `tok` |
| GeoJsonCleaner.ReplaceKeepsWordAway | tools/clean_geojson.js:21-23 | a replacement of a pattern ending in a word character, by a word whose last character differs from that of `w`, creates no whole word `w`: a word it changes ends with the replacement |
| GeoJsonCleaner.KeptAwayAtMatch | tools/clean_geojson.js:21-23 | a replaced match leaves a word that ends with the replacement |
| GeoJsonCleaner.KeptAwayAtCopy | tools/clean_geojson.js:21-23 | a copied character keeps the result free of the word `w` |
| GeoJsonCleaner.KeptAwayStep | tools/clean_geojson.js:21-23 | one step of the scan, match or copy, creates no whole word `w` |
| GeoJsonCleaner.StripKeepsWordAway | tools/clean_geojson.js:26 | dropping trailing commas keeps every word as it was, so it creates no whole word `w` |
| GeoJsonCleaner.StripKeptAtComma | tools/clean_geojson.js:26 | a dropped comma leaves the bracket or brace, which starts no word |
| GeoJsonCleaner.StripKeptAtCopy | tools/clean_geojson.js:26 | a copied character keeps the result free of the word `w` |
| GeoJsonCleaner.StripKeptStep | tools/clean_geojson.js:26 | one step of the scan, dropped comma or copied character, creates no whole word `w` |
| GeoJsonCleaner.CleanTextHasNoNaN | tools/clean_geojson.js:18-29 | for any text, no match of `\bNaN\b` is left in the cleaned text |
| GeoJsonCleaner.CleanTextHasNoNAN | tools/clean_geojson.js:18-29 | for any text, no match of `\bNAN\b` is left in the cleaned text |
| GeoJsonCleaner.CleanTextHasNoInfinity | tools/clean_geojson.js:18-29 | for any text, no match of `\bInfinity\b` is left in the cleaned text |
| GeoJsonCleaner.CleanTextAsWrittenHasNoNaN | tools/clean_geojson.js:18-29 | for any text, no match of `\bNaN\b` is left by the cleaner as written |
| GeoJsonCleaner.CleanTextAsWrittenHasNoNAN | tools/clean_geojson.js:18-29 | for any text, no match of `\bNAN\b` is left by the cleaner as written |
| GeoJsonCleaner.CleanTextAsWrittenHasNoInfinity | tools/clean_geojson.js:18-29 | for any text, no match of `\bInfinity\b` is left by the cleaner as written (a minus sign before it may stay) |
| GeoJsonCleaner.MinusInfinityHoldsInfinity | tools/clean_geojson.js:22-23 | a match of `-Infinity\b` holds a match of `\bInfinity\b` right after its minus sign |
| GeoJsonCleaner.CleanTextHasNoNegativeInfinity | tools/clean_geojson.js:18-29 | for any text, no match of `-Infinity\b` is left in the cleaned text |
| GeoJsonCleaner.OutputPath | tools/clean_geojson.js:47 | no contract; the definition is the model: a `.geojson` suffix in any letter case is replaced by `.cleaned.geojson`, any other path is kept; stated by OutputPathOfSuffix and OutputPathWithoutSuffix |
| GeoJsonCleaner.OutputPathOfSuffix | tools/clean_geojson.js:47 | a `.geojson` suffix in any letter case becomes `.cleaned.geojson`, so the output never overwrites the input |
| GeoJsonCleaner.OutputPathWithoutSuffix | tools/clean_geojson.js:47 | any other path is its own output |
| GeoJsonCleaner.SuffixIsLowerCase | tools/clean_geojson.js:47 | `.geojson` is its own lower case, so it matches the case-insensitive pattern |
| GeoJsonCleaner.AfterCleaning | tools/clean_geojson.js:31-53 | no contract; the definition is the model: each existing input in turn is cleaned and written to its output path, and a missing one is skipped; stated by CleanFiles, OnlyOutputPathsWritten, CleaningOneFile and MissingInputSkipped |
| GeoJsonCleaner.CleanFiles | tools/clean_geojson.js:31-53 | the loop over the inputs leaves exactly `AfterCleaning(inputs, files)` |
| GeoJsonCleaner.OnlyOutputPathsWritten | tools/clean_geojson.js:31-53 | a path that is no input's output path is neither created nor changed |
| GeoJsonCleaner.CleaningOneFile | tools/clean_geojson.js:37-48 | one existing `.geojson` input gets a cleaned copy beside it, and the input is kept |
| GeoJsonCleaner.MissingInputSkipped | tools/clean_geojson.js:33-36 | a missing input leaves the file system as it is |

## Left out

- Leaflet, the DOM and `fetch` are display or I/O; the model keeps only what
  the page holds. Left out are the base tile layer, the NYC boundary layer,
  the geocoder control, popups and their text, marker radius and opacity, the
  heat-map gradient, and the `fetch` chain with its error handler.
- Floating point. `parseFloat`, `isFinite` and number-to-text conversion are
  abstract. `parseFloat` is a parameter, and `Number` tells only finite, NaN
  and the two infinities apart.
- Case mapping covers ASCII letters only. `toUpperCase` and `toLowerCase` on
  other characters, and the `/i` flag's canonicalisation outside ASCII, are
  not modelled.
- NdjsonConverter.ParseInt: precision is not modelled. Values that do not fit
  a double are kept exact, where JavaScript would round them.
- NdjsonConverter.ChunkPath: `path.join` normalisation (repeated or trailing
  separators, `..`) is not modelled. The directory and file name are joined
  with one `/`.
- Console output and `usage()` are left out. So is `mkdirSync` of the output
  directory, which is taken to succeed.
- `readFileSync` throwing is not modelled: after a successful existence
  check the read is taken to succeed. A JSON text holding `1e400` parses to
  Infinity; that is covered only through the `load` parameter, whose result
  may hold infinite numbers.
- Stream asynchrony and write errors. Writes are taken to land in order.
- The cleaner's trial `JSON.parse` only prints a warning, and its `catch`
  only prints an error. Neither changes any file, so both are left out.
- A district point-in-polygon lookup and an NDJSON reader are not part of this
  model: the code has neither.
- ParsePermit.ParsePermitFeature: a `null` or `undefined` feature is excluded
  by the precondition. On such a feature the source throws a TypeError when
  it reads `f.properties`.
- PermitStats.ComputePermitStats: the three dictionaries are maps without
  inherited keys. In the source they are plain `{}` objects, so a key that
  names an `Object.prototype` member, such as `constructor`, reads the
  inherited function, and `(byBorough[b] || 0) + 1` then gives a string. Keys
  from `parsePermitFeature` are upper-cased, and every such member name holds
  a lower-case letter, so parsed records never reach this case.
- GeoJsonCleaner.AfterCleaning: the file loop uses the corrected `CleanText`
  (see Findings). `CleanTextAsWritten` is the line-by-line model of the
  source.

## Findings

| source | as written | input that shows it | evidently intended | confidence | as-written member | corrected member |
|---|---|---|---|---|---|---|
| tools/clean_geojson.js:22 | `/\b-Infinity\b/g` needs a word character before the minus sign, so it does not fire after `[`, `:`, `,` or a space; then `/\bInfinity\b/g` replaces only the word, leaving `-null`, which is still not JSON | `[-Infinity]` becomes `[-null]` | the whole `-Infinity` becomes `null`, giving `[null]` (pattern `-Infinity\b`) | high; not executed | GeoJsonCleaner.NegativeInfinityKeepsItsMinus | GeoJsonCleaner.NegativeInfinityBecomesNull |
