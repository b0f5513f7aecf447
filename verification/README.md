# Social-housing parcels: a Dafny model of the join

The repository reads two semicolon-separated files. One is a cadastral file with one parcel geometry per row, keyed by its 12-character CNIG PCI identifier. The other is a social-housing file with one dwelling group per row, carrying a 14-character MAJIC `code_parcelle` and GPS text. This project models the core of that pipeline as pure Dafny functions and proves what each step guarantees:

- **MAJIC to CNIG conversion** (`MajicConverter`). It keeps characters 0-4, 7-9 and 10-13 of a 14-character code and gives `""` for any other length. Its partner is `Expand`, which puts the two dropped characters back, with round trips in both directions.
- **CSV service** (`Csv`).
  - Header cleaning: the UTF-8 byte-order mark is stripped from a non-empty first cell, then every cell is trimmed of spaces and double quotes.
  - `getHeader`, the `readCsv` stream and `countLines`, over already-parsed files.
  - `array_search` over the header.
- **Cadastral index** (`CadastralData`). This is a map from the trimmed parcel id to `{geo, lat, lon}`. Rows whose id or geometry is PHP-empty (`""` or `"0"`) are skipped. When two rows share an id, the last one wins. This is proved against an independent "last row with this key" definition.
- **GeoJSON service** (`GeoJson`):
  - the Point built from `"<lat>,<lon>"`, written `[lon, lat]`
  - the first point of a Polygon (`extractCoordinates`)
  - Feature and FeatureCollection objects
- **process-parcelles** (`ProcessParcelles`). For each row of the social file, in order:
  1. The row is looked up by CNIG code. When the file has an `id_parcellaire` column, the key is that cell: converted when it has 14 characters, used as it is otherwise (an empty cell gives the key `""`, which matches nothing). Only a file without that column falls back to the converted `code_parcelle`.
  2. A matched row gets the cadastral polygon and its GPS cell blanked. An unmatched row with GPS text counts as a GPS point. It gets a Point geometry when the text has exactly one comma, and an empty geometry otherwise.
  3. The row is written with the location name and the geometry appended.
  4. A feature is added when the geometry decodes.

  After the loop, the summary table is printed as the program computes it; a Finding below shows where it miscounts.
- **add-cnig-column** (`AddCnigColumn`). Each row's `code_parcelle` is converted. A row that reaches the `id_parcellaire` column gets the code there; a shorter row gets it appended after its last cell. That column is added at the end of the header when missing. The two counters cover every row.

The following behaviours of the PHP code are modelled as they are:

- `empty("0")` is true, so a cadastral id or geometry `"0"` is skipped.
- `$row[$i]` beyond a short row reads null, and `trim(null)` gives `""`.
- The join row is a PHP array (`PhpArray`).
  - `$row[$coords] = ''` on a row too short to have that key adds the key at the end.
  - Later `$row[] = …` pushes take the keys after it.
- Feature properties are read from the row after the name and the geometry were appended, which has two consequences:
  - a present address or group column just beyond a short row reads the location name or the geometry, when the row is unmatched or has its GPS cell (`ShortRowReadsAppendedCells`);
  - a matched row too short to have its GPS cell first gets a blank entry under the GPS key, so the column right after its cells reads "", and the name and the geometry sit one and two keys after the GPS key (`MatchedShortRowReadsBlank`, `MatchedShortRowReadsName`, `MatchedShortRowReadsGeometry`);
  - an absent column's index is `false`, and `$row[false]` reads key 0, the row's first cell (`AbsentColumnReadsFirstCell`).
- `json_decode` is a parameter `decode: string -> Json`. `JNull` stands both for a literal null and for text that does not decode. `createFeature` has an `array` parameter type, so a geometry that decodes to a scalar makes the command fail with `GeometryNotArray`.
- The prompt of add-cnig-column ("update the existing column?") is the parameter `confirmUpdate`.
- Failures that the PHP code reports with an exception or `Command::FAILURE` are `Failure(Error)` values:
  - a missing file
  - an empty file (`fgetcsv` returns false, and `cleanHeader(false)` is a type error), modelled as `NoHeader`
  - missing required columns

## Model

| member | source | states |
|---|---|---|
| MajicConverter.ConvertToCnigPci | src/Service/MajicConverterService.php:51-63 | a non-14-character code gives ""; a 14-character code gives 12 characters: positions 0-4, then 7-9, then 10-13 of the input |
| MajicConverter.Expand | src/Service/MajicConverterService.php:58-62 | the inverse direction: a CNIG code and the two dropped characters give back a 14-character MAJIC code |
| MajicConverter.ResultLength | src/Service/MajicConverterService.php:51-63 | every result is either a full 12-character CNIG code or the empty marker |
| MajicConverter.ConvertsIffFourteen | src/Service/MajicConverterService.php:53-56 | the conversion succeeds (non-empty result) exactly when the input has 14 characters |
| MajicConverter.ConvertExpand | src/Service/MajicConverterService.php:58-62 | expanding any CNIG code with any two characters and converting back gives the CNIG code |
| MajicConverter.ExpandConvert | src/Service/MajicConverterService.php:58-62 | converting a MAJIC code and re-inserting its characters 5-6 gives the original code: no other information is lost |
| MajicConverter.SameConversionIffSameOutsideDropped | src/Service/MajicConverterService.php:58-62 | two 14-character codes convert to the same CNIG code exactly when they agree everywhere except positions 5 and 6 |
| MajicConverter.ConvertParts | src/Service/MajicConverterService.php:58-62 | commune (5) + dropped (2) + section (3) + parcel (4) converts to commune + section + parcel |
| MajicConverter.StrasbourgExample | tests/Unit/Service/MajicConverterServiceTest.php:93 | 67482000010017 converts to 674820010017 |
| MajicConverter.ParisExample | tests/Unit/Service/MajicConverterServiceTest.php:96 | 75101000020025 converts to 751010020025 |
| MajicConverter.DigitsOnlyCodeConverts | tests/Unit/Service/MajicConverterServiceTest.php:118-122 | the boundary test's all-digit code 12345678901234 converts to 123458901234 (the general fact, that only the length is checked, is ConvertsIffFourteen) |
| MajicConverter.WrongLengthsRejected | tests/Unit/Service/MajicConverterServiceTest.php:104-130 | codes of 0, 12, 13 and 15 characters give "" |
| PhpString.TrimLeft | src/Service/CsvService.php:23 | the result is a suffix of the input; every removed character is in the set; the result is empty or starts with a kept character |
| PhpString.TrimRight | src/Service/CsvService.php:23 | the result is a prefix of the input; every removed character is in the set; the result is empty or ends with a kept character |
| PhpString.Trim | src/Service/CsvService.php:23 | the result is no longer than the input, neither starts nor ends with a listed character, and is empty exactly when every input character is listed |
| PhpString.TrimSlice | src/Service/CsvService.php:23 | the trimmed text is the contiguous slice of the input between the stripped prefix and the stripped suffix |
| PhpString.TrimOfTrimmed | src/Service/CsvService.php:23 | trimming a string that neither starts nor ends with a listed character leaves it unchanged |
| PhpString.TrimIdempotent | src/Service/CsvService.php:23 | trimming twice is trimming once |
| PhpString.TrimWrapped | src/Service/CsvService.php:23 | listed characters around a trimmed non-empty core are exactly what trim removes |
| PhpString.CellText | src/Service/CadastralDataService.php:41-42 | a cell inside the row reads as itself; beyond the row it reads as null, which trim turns into "" |
| PhpString.Explode | src/Service/GeoJsonService.php:16-20 | one part more than there are separators; no part contains the separator; joining the parts with it gives the input back |
| PhpString.ExplodeOneSeparator | src/Service/GeoJsonService.php:16-23 | with exactly one comma at position k, the parts are the text before and after it |
| PhpArray.Set | src/Command/ProcessParcellesCommand.php:178-181 | after `$a[$k] = $v`, key k reads v and every other key reads what it read before; an existing entry is replaced in place, a new key is appended at the end |
| PhpArray.Push | src/Command/ProcessParcellesCommand.php:188-189 | `$a[] = $v` appends one entry under the next free key and keeps the others |
| PhpArray.NextKey | src/Command/ProcessParcellesCommand.php:188-189 | the key `$a[] = $v` uses: 0 for an empty array, otherwise one more than some key in use and above every key in use, i.e. the largest key + 1 |
| PhpArray.FindOfList | src/Command/ProcessParcellesCommand.php:141 | in the array fgetcsv returns, key k sits at position k |
| PhpArray.GetOfList | src/Command/ProcessParcellesCommand.php:141 | reading key k of a row gives cell k, or null beyond the row |
| PhpArray.PushOfList | src/Command/ProcessParcellesCommand.php:188-189 | appending to a list keeps it a list with the value at the end |
| PhpArray.SetOfList | src/Command/ProcessParcellesCommand.php:180 | writing an existing key replaces that cell in place |
| PhpArray.SetBeyondList | src/Command/ProcessParcellesCommand.php:180 | writing a key beyond a short row adds it at the end, and the next push takes the key after it |
| PhpArray.ValuesOfList | src/Command/ProcessParcellesCommand.php:192 | what fputcsv writes for an unmodified row is the row |
| Csv.StripBom | src/Service/CsvService.php:18 | a text starting with the mark is the mark followed by the result; any other text is unchanged |
| Csv.CleanHeader | src/Service/CsvService.php:14-25 | as many cells as the input; every cell trimmed of spaces and quotes; cells after the first are the trimmed input cells; the first is its mark-stripped text, trimmed |
| Csv.GetHeader | src/Service/CsvService.php:85-101 | a missing file fails with "File not found"; an empty file has no header; otherwise the cleaned first record |
| Csv.ReadCsv | src/Service/CsvService.php:59-80 | fails exactly when the header cannot be read; otherwise one item per data record, in order, each with the cleaned header |
| Csv.ReadCsvRows | src/Service/CsvService.php:75-77 | the rows streamed are exactly the records after the header |
| Csv.CountLines | src/Service/CsvService.php:30-52 | 0 for a missing file and for an existing empty file; otherwise the number of items readCsv streams |
| Csv.CountLinesExamples | tests/Unit/Service/CsvServiceTest.php:103-132 | a header plus n records counts n; a missing file counts 0 |
| Csv.MissingFileFails | src/Service/CsvService.php:61-63 | readCsv and getHeader on a missing file fail with FileNotFound |
| Csv.Search | src/Service/CadastralDataService.php:28-31 | array_search: the first position holding the name, or none exactly when the name is not in the header |
| Csv.BomThenTrim | tests/Unit/Service/CsvServiceTest.php:79-87 | a first cell made of the mark, then spaces and quotes around a name, cleans to the name |
| Csv.BomOnlyInFirstCell | src/Service/CsvService.php:16-19 | a mark at the start of any other cell survives cleaning |
| Csv.EmptyHeaderStaysEmpty | tests/Unit/Service/CsvServiceTest.php:92-98 | an empty header cleans to an empty header |
| Csv.CleanHeaderOfCleanHeader | src/Service/CsvService.php:14-25 | a header of trimmed cells whose first cell has no mark is unchanged |
| Csv.CleanHeaderIdempotent | src/Service/CsvService.php:14-25 | cleaning twice equals cleaning once, unless trimming uncovered a mark at the start of the first cell |
| Csv.CleanHeaderNotIdempotent | src/Service/CsvService.php:16-24 | " " + mark + name cleans to mark + name, which cleans again to name |
| Csv.SpaceHidesBom | src/Service/CsvService.php:16-24 | a first cell starting with a space keeps the mark behind it |
| Csv.BomUncovered | tests/Unit/Service/CsvServiceTest.php:40-48 | a first cell of mark + name cleans to the name |
| CadastralData.RowId | src/Service/CadastralDataService.php:41 | the id read from a row: the id cell with leading and trailing spaces and quotes trimmed; "" when the row is too short to have the id cell |
| CadastralData.Kept | src/Service/CadastralDataService.php:41-46 | a row survives the `empty` skip only if it has both the id and the geometry cell and neither reads as "" |
| CadastralData.RecordOf | src/Service/CadastralDataService.php:48-52 | the stored record: the raw geometry cell; lat and lon are the cells of their columns when the column exists and the row reaches it, null otherwise |
| CadastralData.Keys | src/Service/CadastralDataService.php:39-47 | each row's contribution: its trimmed id when neither id nor geometry is PHP-empty, none otherwise |
| CadastralData.BuildIndex | src/Service/CadastralDataService.php:39-53 | every key is a non-empty, non-"0" id free of surrounding spaces and quotes, and every geometry is non-empty |
| CadastralData.LastWith | src/Service/CadastralDataService.php:39-53 | reference reading of the index: the position of the last kept row with a given id, or none exactly when no kept row has it |
| CadastralData.BuildIndexIsLastWins | src/Service/CadastralDataService.php:39-53 | an id is indexed exactly when some kept row has it, and its record is that of the last such row |
| CadastralData.KeptRowIndexed | src/Service/CadastralDataService.php:44-52 | every kept row's id is a key of the index |
| CadastralData.IndexKeyFromRow | src/Service/CadastralDataService.php:44-52 | every key of the index is the id of some kept row |
| CadastralData.BuildIndexSnoc | src/Service/CadastralDataService.php:39-53 | one more row: a kept row sets its id's record, a skipped one leaves the index unchanged |
| CadastralData.SkippedRowIgnored | src/Service/CadastralDataService.php:44-46 | a row with a PHP-empty id or geometry does not change the index |
| CadastralData.LaterRowWins | src/Service/CadastralDataService.php:48-52 | a kept row's record replaces whatever earlier rows stored under its id |
| CadastralData.AbsentLatIsNull | src/Service/CadastralDataService.php:50 | without a lat column every record's lat is null |
| CadastralData.ResolveColumns | src/Service/CadastralDataService.php:28-37 | succeeds exactly when the id and geometry columns exist, else fails naming both; positions point at those names; lat and lon are present exactly when their columns are |
| CadastralData.LoadCadastralData | src/Service/CadastralDataService.php:18-56 | header errors propagate; fails exactly when the id or geometry column is missing; otherwise the index of all data rows |
| CadastralData.LatLonOptional | src/Service/CadastralDataService.php:33-37 | whether loading succeeds does not depend on the lat and lon column names |
| GeoJson.Member | src/Service/GeoJsonService.php:40 | reading a member of a non-object gives null |
| GeoJson.GpsPoint | src/Service/GeoJsonService.php:16-23 | a Point exists exactly when the text has exactly one comma |
| GeoJson.PointValue | src/Service/GeoJsonService.php:25-28 | the Point object has type "Point" and coordinates [lon, lat] |
| GeoJson.CreatePointGeometry | src/Service/GeoJsonService.php:14-31 | "" exactly when the text has no single comma |
| GeoJson.DecodedPoint | src/Service/GeoJsonService.php:14-31 | what json_decode gives back for the Point text: null exactly when the Point text is "" |
| GeoJson.PointSwapsAxes | src/Service/GeoJsonService.php:22-27 | with one comma at k, the longitude is the trimmed text after it and the latitude the trimmed text before it, in [lon, lat] order |
| GeoJson.AnyTwoPartsMakePoint | src/Service/GeoJsonService.php:16-31 | any two comma-free texts around a comma make a Point; there is no numeric check |
| GeoJson.PointOfTrimmedParts | src/Service/GeoJsonService.php:22-30 | tokens already free of blanks appear verbatim, swapped into [lon, lat] |
| GeoJson.GpsExample | src/Service/GeoJsonService.php:14-31 | "48.5842,7.7458" gives the Point with coordinates [7.7458,48.5842] |
| GeoJson.WrongPartCountGivesNothing | src/Service/GeoJsonService.php:18-20 | text without a comma, or with several, gives "" and decodes to null |
| GeoJson.Index | src/Service/GeoJsonService.php:45-47 | `$j[0]` on a decoded value: the element of a list, null past its end and on a scalar |
| GeoJson.EmptyValue | src/Service/GeoJsonService.php:45 | PHP `empty()` on a decoded value: null, false, a zero number, "" or "0", and an empty array or object; used by the ExtractCoordinates guard |
| GeoJson.ExtractCoordinates | src/Service/GeoJsonService.php:36-57 | a result only for a decoded value of type Polygon whose coordinates are an array with a non-empty first ring |
| GeoJson.ExtractFirstPoint | src/Service/GeoJsonService.php:45-53 | for a decoded value of type Polygon, the result is the first point of the first ring: entry 0 as lon, entry 1 as lat |
| GeoJson.NoCoordinatesNoPoint | src/Service/GeoJsonService.php:40-42 | without a coordinates member, null |
| GeoJson.PointHasNoPolygonCoordinates | src/Service/GeoJsonService.php:45 | a Point geometry, such as the GPS fallback, yields null |
| GeoJson.CreateFeature | src/Service/GeoJsonService.php:62-69 | a Feature object with exactly three members: type "Feature", and geometry and properties equal to the arguments, unchanged |
| GeoJson.CreateFeatureCollection | src/Service/GeoJsonService.php:74-80 | a FeatureCollection object with exactly two members: type "FeatureCollection", and the features as given, in order |
| ProcessParcelles.ResolveLayout | src/Command/ProcessParcellesCommand.php:97-106 | succeeds exactly when the GPS and code_parcelle columns exist; positions point at the names; optional columns are present exactly when they are in the header |
| ProcessParcelles.MajicCode | src/Command/ProcessParcellesCommand.php:143 | the code_parcelle text: the code_parcelle cell with leading and trailing quotes trimmed; "" when the row is too short to have the cell |
| ProcessParcelles.GpsText | src/Command/ProcessParcellesCommand.php:144 | the GPS text: the GPS cell with leading and trailing quotes trimmed; "" when the row is too short to have the cell |
| ProcessParcelles.IdText | src/Command/ProcessParcellesCommand.php:147-148 | the id_parcellaire text: the id_parcellaire cell with leading and trailing quotes trimmed; "" without the column or when the row is too short |
| ProcessParcelles.ParcelKey | src/Command/ProcessParcellesCommand.php:143-159 | with an id column, a non-14-character id is used as it is and a 14-character one becomes the 12-character CNIG code that expands back to it; without an id column, the key is "" exactly when code_parcelle is not 14 characters, and otherwise it expands back to it |
| ProcessParcelles.OutputRow | src/Command/ProcessParcellesCommand.php:178-192 | unmatched: the cells, then name and geometry; matched: the GPS cell blanked, or a blank cell added when the row is too short, then name and geometry |
| ProcessParcelles.ExtendRow | src/Command/ProcessParcellesCommand.php:178-189 | the PHP array after the blanking and the two pushes: three entries more than the row when a match blanks a GPS key the row lacks, otherwise two; it ends with the name and then the geometry, under consecutive keys |
| ProcessParcelles.ExtendedRowValues | src/Command/ProcessParcellesCommand.php:178-192 | the values fputcsv writes for the extended row, in the three cases above |
| ProcessParcelles.ExtendedRowGet | src/Command/ProcessParcellesCommand.php:178-200 | what isset/`$row[$k]` see on the extended row: the cells (GPS blanked when matched), the name at key n, the geometry at key n+1, null beyond |
| ProcessParcelles.Property | src/Command/ProcessParcellesCommand.php:199-200 | a set key reads as its value trimmed of spaces and quotes (key 0 when the column is absent); an unset key reads as "" |
| ProcessParcelles.AbsentColumnReadsFirstCell | src/Command/ProcessParcellesCommand.php:199-200 | an absent address or group column reads key 0: the row's first cell trimmed, or "" when a match blanked a GPS column at key 0; this holds for every row, short or not |
| ProcessParcelles.ShortRowReadsAppendedCells | src/Command/ProcessParcellesCommand.php:188-200 | for an unmatched row, or a matched row that has its GPS cell: a column just beyond the row reads the appended name, the next one the geometry, the one after nothing |
| ProcessParcelles.ExtendedBeyondGet | src/Command/ProcessParcellesCommand.php:178-189 | the keys of a matched row too short to have its GPS cell: the cells under their positions, "" under the GPS key, the name and the geometry under the next two keys, null elsewhere |
| ProcessParcelles.MatchedShortRowReadsBlank | src/Command/ProcessParcellesCommand.php:178-200 | in a matched row too short to have its GPS cell, the column right after its cells reads "" |
| ProcessParcelles.MatchedShortRowReadsName | src/Command/ProcessParcellesCommand.php:178-200 | in such a row the column one after the GPS key reads the location name, trimmed |
| ProcessParcelles.MatchedShortRowReadsGeometry | src/Command/ProcessParcellesCommand.php:178-200 | in such a row the column two after the GPS key reads the geometry, trimmed |
| ProcessParcelles.Properties | src/Command/ProcessParcellesCommand.php:196-201 | the properties object has exactly four members, name, code_parcelle, adresse and groupe_personne, with those values |
| ProcessParcelles.PropertyObject | src/Command/ProcessParcellesCommand.php:196-201 | the properties object built from its four values: exactly four members, each holding its value |
| ProcessParcelles.Decoded | src/Command/ProcessParcellesCommand.php:166-177 | a matched row decodes the indexed geometry; an unmatched row with GPS text gives the decoded Point; a row with neither gives null |
| ProcessParcelles.JoinRow | src/Command/ProcessParcellesCommand.php:140-203 | fails exactly when a matched geometry decodes to a non-null non-array; matched exactly when the key is indexed; a point exactly when unmatched with non-empty GPS; the geometry of each case; the output cells; a feature exactly when the geometry decodes, with type, geometry, and the four properties name, code_parcelle, adresse and groupe_personne read from the extended row |
| ProcessParcelles.JoinRows | src/Command/ProcessParcellesCommand.php:140-206 | succeeds exactly when every row joins, with one outcome per row, each that row's join; on failure, the error of the first failing row, every earlier row having joined |
| ProcessParcelles.JoinRowCells | src/Command/ProcessParcellesCommand.php:178-192 | every cell except a blanked GPS cell is kept; the line ends with the name and the geometry |
| ProcessParcelles.JoinRowConsistent | src/Command/ProcessParcellesCommand.php:161-185 | with a loaded index, a match has a geometry and is not a point, and a row that is neither has none |
| ProcessParcelles.Load | src/Command/ProcessParcellesCommand.php:69-81 | every geometry of the loaded index is non-empty |
| ProcessParcelles.SummaryAsWritten | src/Command/ProcessParcellesCommand.php:228-238 | the table as printed: the total given; GPS points count every unmatched row with GPS text (IsPoint), whether or not a Point was made; polygons and unmatched rows add up to all rows; exported is polygons plus GPS points; without geometry is unmatched rows minus GPS points |
| ProcessParcelles.Summarize | src/Command/ProcessParcellesCommand.php:228-238 | exported counts the rows with a geometry, "without geometry" counts the rows without one, and together they are all rows |
| ProcessParcelles.SummaryCountsGeometries | src/Command/ProcessParcellesCommand.php:232-235 | polygons + real points = rows with a geometry; unmatched − real points = rows without one |
| ProcessParcelles.SummariesAgreeOnWellFormedGps | src/Command/ProcessParcellesCommand.php:232-235 | when every GPS text yields a Point, the table as written equals the corrected one |
| ProcessParcelles.MalformedGpsRow | src/Command/ProcessParcellesCommand.php:174-177 | an unmatched row whose GPS text has no single comma is counted as a point, gets geometry "" and no feature |
| ProcessParcelles.MalformedGpsMiscounted | src/Command/ProcessParcellesCommand.php:232-235 | one such row: the table as written reports 1 GPS point and 0 lines without geometry; the row has no geometry |
| ProcessParcelles.SummaryAsWrittenCounts | src/Command/ProcessParcellesCommand.php:174-235 | under consistent outcomes, GPS points never exceed unmatched rows, so "Lines without geometry" is never negative; it equals the rows without geometry minus the malformed GPS points; the three counts cover every row |
| ProcessParcelles.PrintedTableAgainstOutput | src/Command/ProcessParcellesCommand.php:174-235 | the printed "Lines without geometry" plus the malformed GPS points equals the written lines with an empty geometry cell; the corrected table always matches those lines, and the printed table equals it when every GPS text yields a Point |
| ProcessParcelles.OutputLines | src/Command/ProcessParcellesCommand.php:192 | one line per outcome, in order, its cells |
| ProcessParcelles.Features | src/Command/ProcessParcellesCommand.php:195-203 | as many features as outcomes with one, each the feature of some outcome |
| ProcessParcelles.FeaturesInRowOrder | src/Command/ProcessParcellesCommand.php:195-202 | row order: the feature of row i sits right after the features of the rows before it |
| ProcessParcelles.Outcomes | src/Command/ProcessParcellesCommand.php:69-206 | when the loop completes, the social file has a header and there is one outcome per line countLines counts; every outcome is consistent (a match has a polygon and no point, a row with neither has geometry "") and its written line ends with its geometry |
| ProcessParcelles.ProcessParcelles | src/Command/ProcessParcellesCommand.php:60-238 | load errors first; a missing social file, an empty one, missing columns; succeeds exactly when the loop completes, and otherwise fails with the loop's error; then the header extended by name and geometry column followed by each joined row's cells in row order, a FeatureCollection of the joined rows' features, the table as printed with the countLines total, its three counts covering all rows, and "without geometry" between 0 and the lines whose geometry cell is empty |
| ProcessParcelles.ProcessedLineIsJoinedRow | src/Command/ProcessParcellesCommand.php:140-192 | output line i is the join of record i: rows are not reordered, dropped or merged |
| ProcessParcelles.JoinedRowsSummary | src/Command/ProcessParcellesCommand.php:161-192 | every joined row is consistent, and the rows without geometry are exactly the lines ending in an empty cell |
| AddCnigColumn.RowMajic | src/Command/AddCnigColumnCommand.php:122 | the code read from a row: the code cell with leading and trailing quotes trimmed; "" when the row is too short to have the cell |
| AddCnigColumn.RowCnig | src/Command/AddCnigColumnCommand.php:121-125 | non-empty exactly when the quote-trimmed code has 14 characters, then 12 characters that expand back to the code |
| AddCnigColumn.ConvertRow | src/Command/AddCnigColumnCommand.php:133-138 | a row reaching the target gets the code there; a shorter row gets it appended; other cells unchanged |
| AddCnigColumn.ConvertRows | src/Command/AddCnigColumnCommand.php:118-144 | one output line per row, each that row converted |
| AddCnigColumn.Converted | src/Command/AddCnigColumnCommand.php:115-131 | the conversion counter counts the rows whose MAJIC code has 14 characters; with the error counter it covers every row exactly once |
| AddCnigColumn.ConversionErrors | src/Command/AddCnigColumnCommand.php:115-131 | the error counter counts the rows whose MAJIC code does not have 14 characters |
| AddCnigColumn.ConvertedStep | src/Command/AddCnigColumnCommand.php:127-131 | one more row adds 1 to the conversion counter when its CNIG code is non-empty, and 1 to the error counter otherwise, as the loop does |
| AddCnigColumn.ConvertedIffFourteen | src/Command/AddCnigColumnCommand.php:122-131 | all rows convert exactly when all codes have 14 characters; none does exactly when none has |
| AddCnigColumn.OutputHeader | src/Command/AddCnigColumnCommand.php:99-105 | a missing column is added last and targeted; an existing one is kept and targeted where it is |
| AddCnigColumn.AddCnigColumn | src/Command/AddCnigColumnCommand.php:42-144 | missing file, empty file, missing code column (exactly when absent); cancelled exactly when the column exists and the prompt is declined; updated whenever the header has the code column and the id column is absent or the prompt accepted; then the output header followed by every data row converted into the target column, the line total, and the two counters of those rows, which add up to the total |
| AddCnigColumn.ConvertRowIdempotent | src/Command/AddCnigColumnCommand.php:133-138 | converting a converted row again changes nothing, when the row reaches the target and the code column differs |
| AddCnigColumn.ConvertRowsIdempotent | src/Command/AddCnigColumnCommand.php:118-144 | the same for all lines |
| AddCnigColumn.SecondRunFindsColumn | src/Command/AddCnigColumnCommand.php:99-105 | a second run finds the added column where the first put it |
| AddCnigColumn.ShortRowAppends | src/Command/AddCnigColumnCommand.php:134-138 | a row shorter than the target gets its code after its last cell, not under the column header |
| Wrappers.MapAll | src/Command/ProcessParcellesCommand.php:140-206 | a loop that stops at the first exception: success exactly when every element succeeds, with one result per element; on failure, the first failing element's error |

## Left out

- **CSV parsing and writing.** `fgetcsv` and `fputcsv` (delimiter, quoting, escaping) are not modelled. A file is `Missing` or the list of its records, and an output is the list of lines. `writeCsv` and `createBackup` are left out for the same reason.
- **File handling:** `fopen` failures, `fclose`, the temporary file and its rename, and the backup.
- **Output text:** the progress bar, timing, console messages, and the listing of the first sample conversions.
- **JSON text and decoding.** `json_encode`/`json_decode` are abstract:
  - `decode` is a parameter;
  - a Point's geometry text is `PointText`, whose decoded form is given directly as `DecodedPoint`;
  - `writeGeoJson` (encoding flags, writing the file) is left out.
- **Number parsing.** `floatval` is not modelled: numbers stay the trimmed text they came from. A GPS token that parses to an infinite value, which `json_encode` refuses, is not distinguished.
- **Header search.** `array_search` uses loose comparison. It is modelled as exact equality, which differs only for numeric-looking header names.
- **PHP array keys.** Numeric-string keys of the cadastral map are not converted to integers; lookups behave the same either way.
- **Duplicate JSON keys.** A decoded object is a list of members, and `Member` returns the first one with a name. PHP keeps the last duplicate key. `decode` is abstract, so no result depends on this.
- **Partial output on failure.** When a row's geometry is not an array, the model returns the error and not the lines written before it.
- GeoJson.ExtractCoordinates: gives the raw entries of the first point, not their `floatval`, and its ensures state only when a result can exist. The cases that give one are stated by ExtractFirstPoint.
- ProcessParcelles.ExtendedRowGet: covers rows whose GPS key exists or that are unmatched. For a matched row shorter than its GPS column, the keys are given by ExtendedBeyondGet instead.
- CadastralData.LatLonOptional: states only that success does not depend on the optional column names, not what the records hold.

## Findings

| source | as written | input that shows it | evidently intended | confidence | as-written member | corrected member |
|---|---|---|---|---|---|---|
| src/Command/ProcessParcellesCommand.php:174-177, 232-235 | every unmatched row with non-empty GPS text increments the GPS-point counter, even when createPointGeometry returns "" (no single comma) | one unmatched row with GPS text `48.5842` (no comma): the table shows 1 GPS point and 0 lines without geometry, while its geometry column is empty and no feature is exported | count a GPS point only when a Point geometry was produced, so that "Geometries exported" and "Lines without geometry" describe the output | medium, not executed | ProcessParcelles.SummaryAsWritten, ProcessParcelles.ProcessParcelles, ProcessParcelles.MalformedGpsMiscounted | ProcessParcelles.Summarize, ProcessParcelles.PrintedTableAgainstOutput |
