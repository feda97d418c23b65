# GestionEspaciosVerdes: a verified model of the record-cleaning core

GestionEspaciosVerdes analyses the trees, green spaces and neighbourhoods of
Corrientes. Two analysis scripts (`analisis_datos.py`,
`analisis_espaciosyarboles.py`) and a Streamlit dashboard (`app.py`) load
CSV tables with pandas and draw maps and charts. Under the plotting sits a
small layer of data logic, and this project models that layer in Dafny:

- the coordinate cleaner `corregir_coordenadas`, and the in-place rewriting
  of the registry's `lat`/`lng` columns;
- the two versions of the geometry-text repair `cargar_json`, and the loop
  that draws one polygon per green space or counts the row as problematic;
- the left join of the tree registry with the maintenance log, and what is
  computed from it:
  - the health-status counts;
  - the "needs maintenance" percentage and its donut chart;
  - the placeholder tree 7190;
  - the maintenance ids missing from the registry;
- the species normalisation and the share of native species;
- the classification filter, and the counts and shares per neighbourhood.

## Layout

| file | module | contents |
|---|---|---|
| `wrappers.dfy` | `Wrappers` | `Option` |
| `text.dfy` | `Text` | `str.isspace`, `strip`, `lower` and `title` |
| `tables.dfy` | `Tables` | pandas cells, `fillna(0)`, boolean-mask filtering, the left merge |
| `tally.dfy` | `Tally` | occurrence counts, `unique`, `groupby().size()`, `value_counts`, percentages |
| `coordinates.dfy` | `Coordinates` | `corregir_coordenadas` |
| `geometry_text.dfy` | `GeometryText` | the `""` collapse and the bare-key quoting of `cargar_json` |
| `records.dfy` | `Records` | the row types and the `TreeRegistry` class, whose columns are overwritten in place |
| `green_space_map.dfy` | `GreenSpaceMap` | decoding, ring extraction, the skip-and-count loop, the classification filter |
| `species.dfy` | `Species` | species normalisation and the native share |
| `reconcile.dfy` | `Reconcile` | the join, the status counts, the percentage, the donut, tree 7190, the missing ids |
| `neighbourhoods.dfy` | `Neighbourhoods` | the counts per neighbourhood and the `SpaceChart` table |

How values are represented:

- **Cells.** A pandas cell is `Cell = Null | Num(real) | Str(string)`.
- **Numbers** are exact reals.
- **Errors.** Where Python raises, the model returns `None`:
  - a `ValueError` from `float()`;
  - a `JSONDecodeError`;
  - a `ZeroDivisionError`, or pandas' 0/0, which gives `NaN`.
- **Library calls become parameters:**
  - `json.loads` is `decode: string -> Option<Json>`;
  - the number parsing of `pd.to_numeric` is `parse: string -> Option<real>`;
  - the point-in-polygon join `gpd.sjoin` is given as its output column `nombre_barrio`.

## Model

| member | source | states |
|---|---|---|
| Coordinates.KeepNumeric | analisis_datos.py:22 | `re.sub(r'[^0-9.-]', '', valor)`; what it keeps, and in which order, is stated by `KeepNumericFilter`. |
| Coordinates.KeepNumericFilter | analisis_datos.py:22 | The substitution keeps exactly the digits, points and minus signs, in their original order (a filter, hence a subsequence of the input). |
| Coordinates.StripRedundant | analisis_datos.py:21-22 | Stripping before the substitution changes nothing. The text given to `float()` is the point-collapse of the kept characters. |
| Coordinates.JoinSplit | analisis_datos.py:25-26 | `'.'.join(s.split('.'))` is `s` again. |
| Coordinates.ConcatSplitPoints | analisis_datos.py:25-26 | `''.join` of the pieces of `split('.')` is the text with every point removed. |
| Coordinates.CollapsePoints | analisis_datos.py:24-26 | The first-point rule; its shape and effect are stated by `CollapsePointsParts` and `CollapsePointsEffect`. |
| Coordinates.CollapsePointsParts | analisis_datos.py:24-26 | With more than one point: the text before the first point, one point, then the rest with its points removed. |
| Coordinates.CollapsePointsEffect | analisis_datos.py:24-26 | At most one point is left. Only points are removed, and every other character keeps its order. |
| Coordinates.Cleaned | analisis_datos.py:21-26 | Strip, substitution and point collapse, in that order; what the result holds is stated by `CleanedText`. |
| Coordinates.CleanedText | analisis_datos.py:21-26 | The cleaned text holds only `0-9 . -` and at most one point. Its digits are the input's digits in order. |
| Coordinates.ParseDecimal | analisis_datos.py:28 | When `float()` accepts the text, the text is the rendering of a well-formed decimal. |
| Coordinates.ParseRender | analisis_datos.py:28 | Every well-formed decimal is read back as itself (round trip). |
| Coordinates.Value | analisis_datos.py:28 | The value has the decimal's sign. Its magnitude lies between the integer digits and that integer plus 1. |
| Coordinates.CorrectCoordinate | analisis_datos.py:19-34 | Any number returned lies in [-90, 90]. |
| Coordinates.CorrectCoordinateMeaning | analisis_datos.py:19-34 | The result is `x` if and only if `x` is in [-90, 90] and the cleaned text is a decimal whose value is `x`. |
| Coordinates.OutOfRangeRejected | analisis_datos.py:30-31 | A decimal outside [-90, 90] gives `None`. |
| Coordinates.NotDecimalRejected | analisis_datos.py:28-34 | Cleaned text that is not a decimal gives `None` instead of raising. |
| Coordinates.ExampleExtraPoint | analisis_datos.py:24-28 | `"27.4.8"` gives 27.48. |
| Coordinates.ExampleStrayCharacters | analisis_datos.py:21-28 | `" 27.48X"` gives 27.48. |
| Coordinates.ExampleOutOfRange | analisis_datos.py:30-31 | `"120.5"` gives `None`. |
| Coordinates.ExampleInnerMinus | analisis_datos.py:28-34 | `"1-2"` gives `None`. |
| Coordinates.ExampleNan | analisis_datos.py:21-34 | A missing cell (`'nan'`) gives `None`. |
| Coordinates.ExampleEmpty | analisis_datos.py:28-34 | `""`, `"-"` and `"."` give `None`. |
| Coordinates.CoordinateCell | analisis_datos.py:37-38 | A cleaned cell is missing or a number in [-90, 90]. A missing cell stays missing. A text cell becomes a number exactly when the cleaner accepts it, and then it is the cleaner's value. A number stays as it is when in range and becomes missing otherwise. |
| Records.Corrected | analisis_datos.py:37-38 | The registry after cleaning `lat` and then `lng`: same length; each row's `lat`/`lng` is its cleaned cell; every other column unchanged; all coordinates valid. |
| Records.CorrectedIdempotent | analisis_datos.py:37-38 | Cleaning the registry twice is cleaning it once. |
| Records.TreeRegistry.CorrectCoordinates | analisis_datos.py:37-38 | The in-place overwrite of both columns: the new rows are `Corrected` of the old ones. |
| Records.ToNumeric | analisis_espaciosyarboles.py:50-51 | Coercion yields a number or a missing cell. Numbers stay as they are. A missing cell stays missing. A text becomes the number `parse` reads from it, or a missing cell when it reads none. |
| Records.TreeRegistry.CoerceCoordinates | analisis_espaciosyarboles.py:50-51 | The in-place coercion of `lat` and then `lng`. |
| Records.WithCoordinates | analisis_datos.py:43 | `dropna(subset=['lat','lng'])` keeps exactly the rows with both coordinates present, in their order, each as many times as it occurs. |
| Records.TreeRegistry.DropMissingCoordinates | analisis_espaciosyarboles.py:54 | The table re-bound after `dropna` is `WithCoordinates` of the old rows. |
| Records.CoerceThenDrop | analisis_espaciosyarboles.py:50-54 | After coercion and `dropna`, every remaining row has numeric `lat` and `lng`; rows keep their order; no row that already had both as numbers is dropped. A row is kept exactly when each coordinate is a number or a text that reads as one, and then appears coerced. |
| GeometryText.CollapseQuotes | analisis_datos.py:53 | Left-to-right, non-overlapping `replace('""', '"')` never lengthens the text. |
| GeometryText.CollapseQuotesKeepsText | analisis_datos.py:53 | The replacement removes only quotes; every other character keeps its order. |
| GeometryText.CollapseQuotesUnchanged | analisis_datos.py:53 | The text is unchanged if and only if it holds no doubled quote. |
| GeometryText.CollapseQuotesThree | analisis_datos.py:53-55 | One pass turns `"""` into `""`, which is why the script collapses twice. |
| GeometryText.QuoteKeysCapturing | analisis_datos.py:54 | The capturing substitution `([{,])\s*([A-Za-z0-9]+):`; `CapturingIsLookbehind` ties it to the look-behind form, whose properties follow. |
| GeometryText.QuoteKeysAfter | analisis_datos.py:56 | The look-behind substitution over a set of openers; its properties are stated by `QuoteKeysAfterKey`, `QuoteKeysAfterComplete`, `QuoteKeysAfterUnchanged` and `QuoteKeysAfterIdempotent`. |
| GeometryText.CapturingIsLookbehind | analisis_datos.py:54-56 | The capturing substitution `([{,])\s*key:` equals the look-behind form over the openers `{` and `,`. |
| GeometryText.QuoteKeysAfterKey | analisis_datos.py:56 | After an opener, a bare alphanumeric key is written as `"key":`, and scanning continues after its colon. |
| GeometryText.QuoteKeysAfterComplete | analisis_datos.py:54-56 | After the substitution, no opener is followed by a bare key. |
| GeometryText.QuoteKeysAfterUnchanged | analisis_datos.py:54-56 | With no bare key after an opener, the substitution changes nothing. |
| GeometryText.QuoteKeysAfterIdempotent | analisis_datos.py:56 | Quoting keys a second time changes nothing. |
| GeometryText.RepairBeforeDecode | analisis_datos.py:51-57 | The four-step repair leaves no bare key after `{`, `[` or `,`. |
| GeometryText.RepairSinglePass | analisis_espaciosyarboles.py:16-20 | The two-step repair leaves no bare key after `{` or `,`. |
| GeometryText.RepairUnchanged | analisis_datos.py:51-57 | Text with no doubled quote and no bare key after an opener passes through both repairs unchanged. |
| GeometryText.PolygonRepaired | analisis_datos.py:54-56 | `{type:"Polygon",coordinates:[1]}` becomes `{"type":"Polygon","coordinates":[1]}` under both repairs. |
| GeometryText.VersionsDifferOnBracket | analisis_espaciosyarboles.py:18 | A bare key after `[` is quoted by the registry script's repair only. |
| GreenSpaceMap.Repair | analisis_datos.py:53-56 | The repair each script applies before decoding; `RepairUnchanged` and `VersionsDifferOnBracket` state how the two agree and differ. |
| GreenSpaceMap.LoadGeometry | analisis_datos.py:51-60 | `cargar_json`: the repaired text handed to the decoder, a decode error giving `None`; `LoadWellFormed` states the unchanged case. |
| GreenSpaceMap.LoadWellFormed | analisis_datos.py:51-60 | Text that is already well formed reaches the decoder unchanged, in both scripts. |
| GreenSpaceMap.Member | analisis_datos.py:73 | `obj[key]` finds a member with that key, the last one when the key repeats (the one `json.loads` keeps), and finds none only when no member has it. |
| GreenSpaceMap.Vertices | analisis_datos.py:77 | All vertices are read if and only if each one is a pair of numbers; the order is kept. |
| GreenSpaceMap.SwappedTwice | analisis_datos.py:77 | Swapping the axes twice gives the vertices back. |
| GreenSpaceMap.FirstRing | analisis_datos.py:73 | `geo['coordinates'][0]` is a list exactly when the decoded value is an object whose `coordinates` is a non-empty list starting with a list. |
| GreenSpaceMap.Outline | analisis_datos.py:73-83 | A polygon is drawn exactly when the first ring is non-empty and every vertex is a pair of numbers. It has one point per vertex, `(coord[1], coord[0])`. |
| GreenSpaceMap.Drawn | analisis_datos.py:66-85 | The drawn polygons are exactly the outcomes of the rows that succeed. |
| GreenSpaceMap.DrawnPlusProblematic | analisis_datos.py:63-85 | Drawn polygons plus problematic rows equals the number of rows. |
| GreenSpaceMap.AddGreenSpaces | analisis_espaciosyarboles.py:29-47 | The loop with its counter returns `Drawn` and `Problematic` of the rows, and the two add up to the row count. |
| GreenSpaceMap.FilterByClassification | app.py:539-542 | With no selection, an empty one or "TODOS": the table unchanged. Otherwise: exactly the rows with that `clasificacion`, in their order, as many as the table has. |
| GreenSpaceMap.FilterByClassificationIdempotent | app.py:539-542 | Filtering twice by the same selection equals filtering once. |
| Tables.Filter | app.py:541 | A boolean mask keeps exactly the rows that satisfy it, and their number is the count of such rows. |
| Tables.FilterSubsequence | app.py:541 | Masking keeps the rows in their order. |
| Tables.LeftJoin | app.py:59-64 | The output length is the sum, over left rows, of max(1, number of partners). Every left row appears. Every matching pair appears. A row without a right side means no partner exists. |
| Tables.JoinRow | app.py:59-64 | One left row's output: one row per partner, in the right table's order, or a single row without a right side when it has none. |
| Tables.LeftJoinSingle | app.py:59-64 | A single left row produces exactly its `JoinRow`. |
| Tables.LeftJoinAppend | app.py:59-64 | The merge works row by row: the output for `a + b` is the output for `a` followed by that for `b`, so rows come in left order, each tree repeated once per partner. |
| Reconcile.Joined | app.py:59-64 | The merge of the registry and the maintenance log on `id_arbol`, with the join properties stated for trees. |
| Reconcile.JoinedRowByRow | app.py:59-64 | The `id_arbol` merge is built tree by tree in registry order, each tree once per matching maintenance record in log order, or once without one. |
| Reconcile.JoinedEmpty | app.py:69 | The merge is empty if and only if the registry is. |
| Reconcile.StatusCounts | app.py:154 | Health-status counts: one entry per distinct status present, each with its number of rows, in non-increasing order. |
| Reconcile.StatusCountsTotal | app.py:154 | The counts leave out missing statuses and add up to the rows that have a status. |
| Tally.ValueCounts | app.py:154 | One entry per distinct non-missing value with its number of occurrences, the entries in non-increasing order of count. |
| Tally.ValueCountsTotal | app.py:154 | For any `value_counts` result, the counts add up to the non-missing cells. |
| Reconcile.MaintenancePercentage | app.py:58-70 | `None` if and only if the registry is empty (division by zero). Otherwise a value in [0, 100] equal to 100 × (rows with status "Malo" or "Regular") / (all merged rows, including those without a status). |
| Reconcile.CareSplit | app.py:201-205 | Rows needing care are exactly the "Malo" rows plus the "Regular" rows. |
| Reconcile.DonutSlices | app.py:201-206 | The first slice is the number of "Malo" rows and the second the number of "Regular" rows; together they are the rows the percentage counts, and the three slices add up to the number of merged rows. |
| Reconcile.Placeholder | analisis_datos.py:117-133 | The new row: id 7190, active, no coordinates or distances, "Sin información" in every text column. |
| Reconcile.Updated | analisis_datos.py:136 | The original rows unchanged and in order, followed by exactly one placeholder row. |
| Reconcile.UpdatedAddsOne | analisis_datos.py:117-136 | No check for an existing 7190: every update adds one more row with that id. |
| Reconcile.UpdatedDistinctIds | analisis_datos.py:136-148 | The set of ids gains 7190; the number of distinct ids grows by one only if 7190 was absent. |
| Reconcile.MissingIds | analisis_datos.py:164-166 | Exactly the maintenance ids that occur in no registry row; empty if and only if every maintenance id is present. |
| Reconcile.PlaceholderNeverMissing | analisis_datos.py:136-164 | After the update, 7190 is never reported missing. |
| Reconcile.CompleteRows | analisis_datos.py:107 | `dropna(subset=['lat','lng','estado_salud'])` keeps exactly the complete rows, in their order, each as many times as it occurs. |
| Reconcile.CompleteRowsMatched | analisis_datos.py:98-107 | Every kept row matched a maintenance record of its own tree, and that record has a status. |
| Text.Lower | app.py:312 | `lower` keeps the length and maps each character. |
| Text.Strip | app.py:312 | The stripped text neither starts nor ends with whitespace. |
| Text.StripPieces | app.py:312 | `strip` removes only whitespace, and only at the two ends. |
| Text.StripTrimmed | app.py:312 | Stripping trimmed text changes nothing. |
| Text.LowerTitle | app.py:312-322 | Lowering a title-cased text gives the lowered original. |
| Text.TitleLower | app.py:312-322 | `title` depends only on the lowered text. |
| Text.Title | app.py:322 | `str.title()` keeps the length; `LowerTitle`, `TitleLower`, `TitleTrimmed` and `TitleAppend` state the rest. |
| Text.TitleTrimmed | app.py:322 | Title-casing keeps text trimmed. |
| Text.TitleAppend | app.py:322 | Title-casing works piece by piece, each piece seeing the character before it. |
| Species.Normalize | app.py:312-322 | Strip, lower, alias replacement and title-casing of one name; `NormalizeTrimmed`, `NormalizeIdempotent`, `FillerNormalized` and `AliasNormalized` state its effect. |
| Species.NormalizeCell | app.py:312-322 | After the three reassignments, a cell is text exactly when it was not a number. A text cell becomes its normalised name, a missing cell the normalised filler "Especie desconocida", and a number a missing value. |
| Records.SpeciesNormalized | app.py:312-322 | Every row's species is normalised; nothing else changes. |
| Records.TreeRegistry.NormalizeSpecies | app.py:312-322 | The in-place reassignment of `especie`. |
| Records.SpeciesNormalizedShape | app.py:312-322 | After normalisation, no species is a number, and every text species is trimmed. |
| Species.NormalizeTrimmed | app.py:312-322 | A normalised name has no surrounding whitespace. |
| Species.NormalizeIdempotent | app.py:312-322 | Normalising a normalised name changes nothing. |
| Species.FillerNormalized | app.py:312-322 | A missing species becomes "Especie Desconocida". |
| Species.AliasNormalized | app.py:312-322 | "sin información", "desconocido" and "sin identificar", in any case and with any surrounding whitespace, become "Especie Desconocida". |
| Species.MissingSpecies | app.py:312-322 | Both of the above, stated on cells. |
| Species.NormalizeCellIdempotent | app.py:312-322 | A second pass leaves text and missing cells as they are. A number, made missing by the first pass, would be filled by a second one. |
| Species.Comparable | app.py:397 | `lower().strip()` of one name, the form both lists are compared in; `ComparableAll` and `PresentSpeciesCovers` state it on lists. |
| Species.ComparableAll | app.py:397 | Each native name is lowered, then stripped, keeping the list's order. |
| Species.PresentSpecies | app.py:400-403 | Defined if and only if every cell is text (`lower()` raises on a missing one). Holds one comparable name per distinct cell. |
| Species.PresentSpeciesCovers | app.py:400-403 | Every name in the column is present in its comparable form. |
| Species.PresentSpeciesFrom | app.py:400-403 | Only names from the column are present. |
| Species.NativesPresent | app.py:406 | The native species present: exactly the present names found on the native list, in their order and as many times as they occur among the names present. |
| Species.NativeShare | app.py:397-419 | Defined if and only if the column is non-empty and all text. Both shares lie in [0, 100], add up to 100, and the first is the native count as a percentage of the present count. |
| Species.DashboardNativeShare | app.py:391-419 | With the 24 native species of the dashboard: defined exactly on a non-empty all-text column, the two shares adding up to 100. |
| Tally.Percentage | app.py:413 | For `part <= whole` and `whole > 0`: a value in [0, 100] whose product with `whole` is 100 × `part`. |
| Tally.GroupSizes | analisis_espaciosyarboles.py:77 | `groupby().size()`: one group per non-missing key, each with the key's number of rows. |
| Tally.SumOfOccurrences | analisis_espaciosyarboles.py:77-81 | Over distinct keys, the per-key counts add up to the cells holding one of those keys. |
| Neighbourhoods.CountFor | analisis_espaciosyarboles.py:77-81 | The merged and filled count of a key is its number of occurrences in the grouped column. A missing key gets 0. |
| Neighbourhoods.Filled | analisis_espaciosyarboles.py:81 | `fillna(0)` leaves no missing cell and changes no present one. |
| Neighbourhoods.WithTreeCounts | analisis_espaciosyarboles.py:77-81 | Each neighbourhood, filled, with the number of join rows carrying its name. |
| Neighbourhoods.WithSpaceCounts | analisis_espaciosyarboles.py:84-87 | Each row with the number of green spaces carrying its already-filled `id_barrios`. |
| Neighbourhoods.NeighbourhoodTableShape | analisis_espaciosyarboles.py:77-87 | One row per neighbourhood, in order. No missing cell anywhere. Tree counts by name, 0 without a name. Green-space counts by the filled id. |
| Neighbourhoods.MissingIdMatchesZero | analisis_espaciosyarboles.py:81-87 | A neighbourhood without an id gets the number of green spaces with id 0, because the second merge runs after `fillna(0)`. |
| Neighbourhoods.TreeCountsTotal | analisis_espaciosyarboles.py:71-81 | With distinct names covering every name the spatial join assigns, the tree counts add up to the join rows that fell inside a neighbourhood. |
| Neighbourhoods.SpaceCountsTotal | analisis_espaciosyarboles.py:84-87 | With distinct filled ids covering every id the green spaces carry, the green-space counts add up to the spaces that have an id. |
| Neighbourhoods.SpaceCounts | app.py:469-472 | The dashboard's count per neighbourhood, merged on its own id: the green spaces with that id, or 0 (always 0 without an id). |
| Neighbourhoods.Shares | app.py:474-478 | Each share is missing exactly when the total is 0. Otherwise it lies in [0, 100] and is the count as a percentage of the total. |
| Neighbourhoods.SharesSum | app.py:474-478 | When the total is above 0, the shares add up to 100. |
| Neighbourhoods.SpaceChart.constructor | app.py:469-472 | The merged and filled table with its counts. |
| Neighbourhoods.SpaceChart.AddShareColumn | app.py:478 | The new column holds `Shares` of the counts; rows and counts are unchanged. |

## Left out

- Rendering and UI are not modelled: folium maps, markers and heat maps; plotly, seaborn and matplotlib charts; Streamlit widgets and caching. They only display values.
- File I/O is not modelled: `read_csv`, `to_csv`, `mapa.save`, directory creation and timestamped names.
- `print` calls and the `nunique` figures are only printed. The effect of the update on distinct ids is stated by `Reconcile.UpdatedDistinctIds`.
- These library calls are parameters, not models: `json.loads`, the number parsing of `pd.to_numeric`, and `wkt.loads` with `gpd.sjoin` (given as the join's `nombre_barrio` column, one entry per join row, so a tree inside two overlapping neighbourhoods may appear twice).
- The maintenance-per-year chart, with its `pd.to_datetime` parsing (app.py:251-262), is not modelled. It is a library parser feeding a chart.
- Python floats are modelled as exact reals: rounding, the ±90 boundary after rounding, and the `.2f` display formatting are not modelled.
- Coordinates.CoordinateCell: a numeric cell is checked against [-90, 90] directly, not by cleaning `str(value)`. Python's exponent forms such as `1e-05`, which the cleaner would reject, are not modelled.
- Text.Lower: case mapping covers ASCII and Latin-1 letters only. Other letters, and `ß`, `ÿ`, `µ`, `ª`, `º`, are treated as uncased, where Python's `lower`/`title` may differ.
- Species.NormalizeCell: a column whose every value is a number makes pandas' `.str` accessor raise. The model instead turns each number into a missing value, as pandas does for a mixed column.
- GreenSpaceMap.Outline: vertices that folium would still accept by converting them to numbers (booleans, digit strings, one-character coordinate strings, object keys) are counted as problematic. Any vertex that is not a pair of JSON numbers is treated that way.
- Records.ToNumeric: `to_numeric` on booleans and other non-text objects is not modelled. A cell is missing, a number or a text.
- The suffixes of the merged columns (`_arbol`, `_mantenimiento`) and the column subset `nuevo_arbol` keeps are represented by the fixed row types, not by column names.
