# Building Orientation Toolkit — verified model of the data pipeline

The toolkit loads a GeoJSON file of building footprints in the browser. It
derives per-footprint metrics (area, perimeter, roundness, centroid,
orientation, an extrusion height), summarises them in a statistics table and
exports them as CSV. This project models the data-shaping part of that
pipeline in `docs/script.js` and proves properties of it:

- `geojson.dfy` — values: JavaScript numbers (finite, NaN, ±Infinity),
  property values, insertion-ordered property bags with JavaScript's
  `obj[k]` and `obj[k] = v`, geometries, features and top-level documents.
- `normalize.dfy` — `normalizeToFeatureCollection` and
  `extractPolygonFeatures`. The extraction is a method with the source's
  nested loops. It is proved equal to a flat-map specification, and the
  properties of the output are lemmas about that specification.
- `enrich.dfy` — the roundness guard, `computeExtrudeHeight`, the property
  merge of `enrichFeatureWithMetrics`, and the data part of
  `handleGeoJson`. The geometry library's measurements enter as a value
  (`Measurements`) or a function (`measure`). `Math.sqrt` enters as a
  parameter.
- `stats.dfy` — the finite-value filter and `computeStats`.
- `csv.dfy` — the string building of `downloadCsv` and `escapeCsvValue`.
  The header's key set is built by nested loops, and the rows are pushed one
  by one. Both loops are proved against specification functions.
  `String(number)` for finite numbers enters as a parameter `showNumber`.
- `csv_reader.dfy` — an independent CSV reader following section 2 of
  RFC 4180 (quoted fields, doubled quotes), with `"\n"` as the only line
  break. It is the partner of the writer: exported rows read back as the
  property texts, one field per header column.
- `sequences.dfy`, `arith.dfy`, `wrappers.dfy` — generic sequence identities;
  facts about real division; `Option` and `Result`.

Where the code and its design description differ, the model follows the code:

- A document of any other top-level type (say a bare `Point`) is not
  rejected as invalid GeoJSON. `normalizeToFeatureCollection` returns
  `null`, the extraction gives `[]`, and the load ends with the
  "no polygon features" message (`Enrich.PointDocumentHasNoPolygons`).
- `feature_id` is not excluded from the CSV header. Every enriched feature
  carries it as a property, so after a successful load it always gets a
  column before the computed ones
  (`CsvReader.LoadedExportHasFeatureIdColumn`).
- The header line is joined without `escapeCsvValue`. A property key holding
  a comma becomes two header fields (`CsvReader.HeaderKeyWithCommaSplits`).
  The whole-file round trip (`CsvReader.ExportReadsBack`) therefore requires
  header keys that need no quoting. The data rows read back unconditionally
  (`CsvReader.ExportRowReadsBack`).

## Model

| member | source | states |
|---|---|---|
| GeoJson.Lookup | docs/script.js:458 | `props[key]` is `undefined` exactly when the key is absent; a found value is the one stored under that key |
| GeoJson.Assign | docs/script.js:195-205 | assigning a key keeps the key order: present keys keep their position, a new key goes last |
| GeoJson.AssignLookup | docs/script.js:195-205 | after `obj[k] = v`, `obj[k]` reads `v` and every other key reads as before |
| GeoJson.AssignAllOutside | docs/script.js:195-205 | in `{ ...base, k1: v1, ... }` a key the literal does not list keeps its value from `base` |
| GeoJson.AssignAllInside | docs/script.js:195-205 | with distinct literal keys, each listed key ends up with the literal's value |
| GeoJson.AssignAllKeys | docs/script.js:195-205 | the spread keeps the base keys first and in order, adds exactly the literal's new keys, and creates no duplicate key |
| GeoJson.LookupAt | docs/script.js:195-205 | in a bag with distinct keys, the i-th key looks up the i-th value |
| GeoJson.LookupLast | docs/script.js:195-205 | appending a pair changes only the lookup of its own key, and only when that key was absent |
| Normalize.NormalizeToFeatureCollection | docs/script.js:166-180 | a FeatureCollection is used as it is; a Feature becomes a one-element collection; a Polygon or MultiPolygon becomes one feature with empty properties holding that geometry; any other type gives null |
| Normalize.PushEntry | docs/script.js:143-161 | the callback appends exactly one entry's contribution to `polygonFeatures`: the feature for a Polygon, one feature per part for a MultiPolygon, nothing otherwise |
| Normalize.ExtractPolygonFeatures | docs/script.js:136-164 | the pushed features are the flat map of the entries' contributions, in entry order; a null collection gives `[]` |
| Normalize.FlatMapAppend | docs/script.js:143-161 | entries are processed independently and in order: the output for `a + b` is the output for `a` followed by that for `b` |
| Normalize.FlatMapAt | docs/script.js:143-161 | the output splits into what precedes entry k, what entry k contributes and what follows it |
| Normalize.ContributionLength | docs/script.js:144-160 | one entry contributes one feature if it is a Polygon, its part count if a MultiPolygon, none otherwise |
| Normalize.ExtractedLength | docs/script.js:142-163 | output length = number of Polygon features + sum of MultiPolygon part counts |
| Normalize.ExtractedArePolygons | docs/script.js:143-161 | every extracted feature has Polygon geometry |
| Normalize.ExtractedPolygonEntry | docs/script.js:147-148 | a Polygon feature appears unchanged, right after what the entries before it produced |
| Normalize.ExtractedMultiPolygonEntry | docs/script.js:149-159 | a MultiPolygon with N parts contributes N consecutive features; the i-th has no id, a copy of the source's properties and part i as a Polygon |
| Normalize.ExtractedDroppedEntry | docs/script.js:144 | a null entry, one without geometry and one of another geometry type contribute nothing |
| Normalize.ExtractedPolygonsUnchanged | docs/script.js:142-163 | when every entry is a Polygon feature, extraction returns exactly those features, in order |
| Normalize.ExtractedByDocumentType | docs/script.js:137-140 | extraction by top-level type: a collection's entries, a single feature, a wrapped bare geometry, or `[]` for any other type |
| Enrich.Roundness | docs/script.js:190 | 0 when `perimeter > 0` is false (including NaN and -Infinity); otherwise `4π·area / perimeter²`; over an infinite perimeter, 0 for a finite area and NaN otherwise; finite unless the area is non-finite and the guard passes |
| Enrich.RoundnessNonNegative | docs/script.js:190 | a finite area gives a finite roundness; a non-negative area gives a non-negative roundness |
| Enrich.RoundnessScaleInvariant | docs/script.js:190 | scaling lengths by c and areas by c² leaves the roundness unchanged |
| Enrich.RoundnessOfCircle | docs/script.js:190 | a circle (area πr², perimeter 2πr) has roundness exactly 1 |
| Enrich.ExtrudeHeight | docs/script.js:214-220 | exactly 5 for a non-finite or non-positive area; otherwise within [8, 120]; equal to `sqrt(area)` when that lies in [8, 120]; 8 or 120 at the clamped ends |
| Enrich.FeatureId | docs/script.js:197 | `feature.id ?? index + 1`: never null; the feature's own id when it has one, else the number `index + 1` |
| Enrich.MetricPairsKeys | docs/script.js:197-204 | the literal sets the eight metric keys, in order and without duplicates |
| Enrich.MetricPairsLookup | docs/script.js:197-204 | each metric key of the literal holds its measured or computed value |
| Enrich.MergeProperties | docs/script.js:195-205 | every non-metric key keeps its original value; every metric key holds its metric; original keys keep their order; no key is lost or duplicated |
| Enrich.EnrichFeatureWithMetrics | docs/script.js:182-212 | same geometry, no id; original non-metric properties kept; all eight metric keys present with their values; `feature_id` is the id or index + 1 |
| Enrich.EnrichNullPropertiesAsEmpty | docs/script.js:196 | null or absent properties enrich exactly as `{}` does |
| Enrich.HandleGeoJson | docs/script.js:101-115 | a non-object is rejected as invalid; an empty extraction is rejected as having no polygons; otherwise the i-th result is the i-th extracted feature enriched with index i |
| Enrich.LoadedFeatures | docs/script.js:107-115 | a successful load is non-empty; each loaded feature is a Polygon feature carrying all metric keys, with `feature_id` its own id or its 1-based position |
| Enrich.PointDocumentHasNoPolygons | docs/script.js:173-179 | a bare Point passes the object check but ends with the "no polygon features" message |
| Stats.FiniteValues | docs/script.js:328 | `filter(isFinite)` yields a value exactly when the column holds it as a finite entry, and never lengthens the column |
| Stats.FiniteValuesLength | docs/script.js:328 | the filtered column is shorter than the column by exactly its number of NaN and infinite entries |
| Stats.FiniteValuesMultiplicity | docs/script.js:328 | each finite value is kept as many times as it occurs in the column |
| Stats.FiniteValuesSingle | docs/script.js:328 | one entry filters to its value when finite and to nothing otherwise |
| Stats.FiniteValuesAppend | docs/script.js:328 | the filter keeps the column's order: filtering a concatenation concatenates the filtered parts |
| Stats.FiniteValuesAllFinite | docs/script.js:328 | an all-finite column keeps its length; a column with no finite value filters to empty |
| Stats.Variance | docs/script.js:377-378 | the population variance (divided by the count) is non-negative |
| Stats.MinOf | docs/script.js:380 | `Math.min(...values)` is an element of the values and at most every element |
| Stats.MaxOf | docs/script.js:381 | `Math.max(...values)` is an element of the values and at least every element |
| Stats.MeanBetweenMinAndMax | docs/script.js:375-381 | the mean lies between the minimum and the maximum |
| Stats.ComputeStats | docs/script.js:362-384 | empty input gives the all-zero record; otherwise count = length, sum and mean of the values, min and max are elements bounding all values and the mean, stdDev = sqrt of the population variance |
| Stats.SummaryRow | docs/script.js:328-329 | a column's row counts exactly its finite entries; sum, mean and stdDev are those of the filtered values; min and max are finite entries of the column bounding every finite entry |
| Stats.MixedColumnSummary | docs/script.js:328-329 | the column `[1, NaN, 3]` is summarised over `1` and `3` alone: count 2, sum 4, mean 2, min 1, max 3 |
| Stats.ConstantColumn | docs/script.js:375-379 | a column of equal values has that value as its mean and zero variance |
| Stats.NoDeviation | docs/script.js:377-378 | values all equal to the mean have a zero sum of squared deviations |
| Csv.OriginalKeys | docs/script.js:422-440 | the nested loops fill the key set with exactly the first-seen original keys of all features' properties |
| Csv.FirstSeenMembers | docs/script.js:425-437 | a key is in the set exactly when some feature has it and it is neither `__`-prefixed nor computed |
| Csv.FirstSeenDistinct | docs/script.js:437 | the set holds each key once |
| Csv.FirstSeenOrder | docs/script.js:423-439 | the set lists keys in the order of their first occurrence across features |
| Csv.HeaderLayout | docs/script.js:442-452 | header keys are distinct; the original columns hold no `__`-prefixed and no computed key; the last seven are the computed keys in their fixed order |
| Csv.HeaderEndsWithComputedKeys | docs/script.js:452 | the header ends with the seven computed keys |
| Csv.FeatureIdIsOriginal | docs/script.js:425-436 | `feature_id` passes both exclusion tests |
| Csv.OriginalKeyInHeader | docs/script.js:423-452 | an original key present on some feature gets a column before the computed ones |
| Csv.EscapeCsvValue | docs/script.js:474-483 | null and undefined give the empty cell; other values are stringified and quoted as needed |
| Csv.ValueText | docs/script.js:478 | `String(value)`: a string is its own text and a finite number goes through `showNumber`; `null`, booleans and non-finite numbers give a non-empty word that needs no quoting |
| Csv.ScalarCells | docs/script.js:474-483 | cell text for each non-string scalar: `true`, `false`, `NaN`, `Infinity`, `-Infinity` unquoted; the empty cell for null and undefined |
| Csv.Row | docs/script.js:456-459 | the row for no header keys is empty; for one key it is that key's escaped cell |
| Csv.RowCons | docs/script.js:456-459 | with two or more keys, the row is the first key's escaped cell, a comma, then the row over the remaining keys |
| Csv.DownloadCsvText | docs/script.js:421-463 | the text is the header line followed by one row per feature, joined by `"\n"`: one line more than there are features |
| Csv.HalveDoubled | docs/script.js:480 | halving the doubled quotes undoes `replace(/"/g, '""')` |
| Csv.UnescapeEscape | docs/script.js:479-482 | a value without comma, quote or line feed is unchanged; any other value is wrapped in quotes; un-escaping recovers the value in both cases |
| CsvReader.ReadUnquotedPlain | docs/script.js:482 | an unquoted cell reads back as itself, up to the next separator |
| CsvReader.ReadQuotedDoubled | docs/script.js:480 | the body of a quoted cell reads back as the original value, ending at its closing quote |
| CsvReader.ReadFieldEscaped | docs/script.js:474-483 | every escaped cell reads back as the value's text, and the reader stops right after it |
| CsvReader.ReadWrittenRecord | docs/script.js:457-459 | a comma-joined line of escaped cells reads back as exactly those texts |
| CsvReader.ReadWrittenRecords | docs/script.js:455-463 | lines of escaped records joined by `"\n"` read back as the records: the reader is a left inverse of the writer |
| CsvReader.RowIsWrittenRecord | docs/script.js:457-459 | a feature's row is the written record of its field texts, one per header key |
| CsvReader.PlainHeaderIsWrittenRecord | docs/script.js:453 | a header line of keys that need no quoting is the written record of those keys |
| CsvReader.CsvLineIsWrittenRecord | docs/script.js:453-461 | with plain header keys, each line of the export is the written record of the matching record |
| CsvReader.CsvLinesAreWrittenRecords | docs/script.js:453-461 | with plain header keys, the export's lines are the written records, line by line |
| CsvReader.ExportRowReadsBack | docs/script.js:455-461 | whatever the keys, each data row reads back as exactly one field per header column, holding that property's text |
| CsvReader.ExportReadsBack | docs/script.js:421-463 | with plain header keys, the whole export reads back as the header keys followed by each feature's field texts |
| CsvReader.ComputedFields | docs/script.js:457-458 | the fields under the seven computed columns are the texts of the features' computed properties |
| CsvReader.EnrichedHoldsMetricValue | docs/script.js:198-204 | an enriched feature holds each computed metric under its column key |
| CsvReader.EnrichedHoldsMetrics | docs/script.js:195-205 | an enriched feature holds all seven computed metrics under their column keys |
| CsvReader.RowMetrics | docs/script.js:452-459 | a feature holding its metrics has a row whose last seven fields are the metric texts |
| CsvReader.LoadedExportHasFeatureIdColumn | docs/script.js:197 | after a successful load, `feature_id` always has a column before the computed ones |
| CsvReader.LoadedHoldMetrics | docs/script.js:113-115 | every loaded feature holds the metrics measured on its extracted feature |
| CsvReader.RowsEndWithMetrics | docs/script.js:442-461 | rows of features that hold their metrics end with the metric texts, in column order |
| CsvReader.LoadedExportRowsEndWithMetrics | docs/script.js:455-461 | every exported row of a successful load ends with the texts of its own feature's metrics |
| CsvReader.HeaderKeyWithCommaSplits | docs/script.js:453 | the unescaped header line: a key `a,b` reads back as two header fields |

## Left out

- Browser I/O is not modelled: file reading, JSON parsing, alerts, the DOM, the Blob download and its file name (docs/script.js:26-68, 463-471). A parsed document comes in as a `Document` value, and the two alert branches of `handleGeoJson` become `LoadError` values.
- The map layer and its glue are not modelled: MapLibre, `updateMapData`, `fitBounds`, popups and basemaps. They are UI work against a library outside this model.
- The global state `mapReady`, `processedCollection` and `processedMetrics` is not modelled. Statistics are taken over any column (`Stats.SummaryRow`), not over the `processedMetrics` projection.
- The geometry library's calls (`cleanCoords`, `area`, `length`, `polygonToLine`, `centroid`) come in as one `Measurements` value per feature. `computeMajorAxisOrientation` and `buildUtmProjection` come in the same way, as the orientation (docs/script.js:222-309).
- Floating point is modelled as reals. Rounding, overflow and `Math.pow` precision are not modelled. NaN and ±Infinity are modelled where the guards see them: the roundness guard, `computeExtrudeHeight` and the finite filter.
- The stringification of finite numbers is abstract. `String(number)` enters as the parameter `showNumber`, and `Math.sqrt` as `sqrt`.
- `formatNumber` and `renderStats` are not modelled: they are locale-dependent display code.
- JavaScript orders integer-like keys first in `Object.keys`. Property bags are modelled in plain insertion order.
- A `FeatureCollection` whose `features` member is missing makes `forEach` throw in the source. Its model always carries a `features` sequence.
- The geometry library's calls (docs/script.js:183-187) and `feature.geometry.coordinates.forEach` (line 150) can throw. The throw escapes `handleGeoJson`, the caller's catch (lines 40-46) reports "Unable to parse" and nothing loads. The model has no such outcome: `measure` is total, and a `MultiPolygon` always carries a sequence of parts.
- Property values are modelled as scalars only (null, number, string, boolean). Objects and arrays are not modelled: `String()` (line 478) would turn them into `[object Object]` or a comma-joined text that then gets quoted.
- `props[key]` (line 458) reads through the prototype chain. A feature lacking a key named `constructor` or `toString` gets that function's text in its cell, not `""`. The model's `Lookup` sees only the feature's own keys and gives `None` there.
- MultiPolygon part features and enriched features carry no `id`, as in the source, because their object literals list none.
- Only `"\n"` triggers quoting; `"\r"` does not, as in the source. The reference reader accordingly treats only `"\n"` as a line break.
- CsvReader.ExportReadsBack: requires header keys that need no quoting, because the source joins the header line without escaping it. `CsvReader.HeaderKeyWithCommaSplits` shows what happens otherwise.
