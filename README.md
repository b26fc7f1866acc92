# NABIS balanced-development dashboard: the data-shaping core in Dafny

This project models the deterministic record-, string- and dictionary-
processing core of the NABIS balanced-development dashboard. That core
spans six scripts:

- **`build_dashboard_data.py`** (module `SheetEtl`, with `Numbers`) turns per-region
  workbooks into the long indicator table `indicators_long.csv`, the
  indicator catalog and the province → municipality hierarchy. This covers:
  - cell normalisation (`safe_float`);
  - row filtering from `DATA_START_ROW`;
  - the per-year fan-out over `YEAR_COLS` and the region level;
  - the directory walk with its skipped-file list;
  - the five-key sort, the catalog and the hierarchy.
- **`process_shapefile.py`** (module `RegionReconcile`):
  - builds the zero-padded region code and the target name, which folds a city's districts into the city inside '도' provinces;
  - left-joins the lookup onto the boundary features, with a fallback for unmatched features;
  - dissolves by (province, target name).
- **`prepare_dashboard_data.py`** (module `JoinKeys`):
  - adds the join keys `csv_sigungu` (with the Sejong override) and `csv_sido_sigungu` to the municipal layer in place;
  - builds the province-outline dissolve;
  - produces the duplicate-name report.
- **`app.py`** (module `Dashboard`) covers:
  - the load-time fix-ups of the table: the 전라북도 rename, re-assigning 군위군 to 대구광역시, repeating Sejong's province rows as municipal rows, and the `sido_sigungu` key;
  - the year options and default year;
  - the province highlight cache and the hover layer choice;
  - the region label and the reference-year text.
- **`download_nabis_index.py`** (module `Downloader`, with `Percent`) covers:
  - the anchor-name rule: text first, otherwise the percent-decoded second argument of the first `selectGrid("…", "…")` call in the link;
  - the finished-download filename filter;
  - the destination path of a moved file;
  - the saved-file count that excludes `_tmp` folders.
- **`find_city_with_gu.py`** (module `CityGu`) covers:
  - the regex selection `.+시\s+.+구$`;
  - de-duplication;
  - the split into city and district and the '도' filter;
  - the insertion-ordered grouping dictionary and its count.

Shared library behaviour is written once:
- `Strings` covers Python `str` operations and code-point order.
- `Order` covers `sorted`/`sort_values`, `drop_duplicates`/`unique`, geopandas `dissolve`, comprehensions and the concatenation of per-item outputs.
- `Wrappers` provides the `Option` type that stands for `None`/NaN.

Geometry is opaque: a feature's geometry is the set of source feature
ids it covers, so polygon union becomes set union.

Numbers are exact decimals (`Numbers.Decimal`). Only the "value or none"
decision of `safe_float` and the `int()` truncation are modelled, not
floating-point values.

Where the scripts update state step by step, the model is imperative:
- `parse_xls`'s row loop becomes `SheetEtl.ParseXls`.
- `main`'s nested collection loops become `SheetEtl.CollectDirectory` and `SheetEtl.CollectRecords`.
- The dictionary loop of `build_region_hierarchy` becomes `SheetEtl.MunicipalityMap`.
- The `.loc` completion of the merge becomes `RegionReconcile.FillMissing`, on an array.
- The column assignments on the layer become the class `JoinKeys.MunicipalLayer`.
- The statements that mutate `df` become the class `Dashboard.IndicatorFrame`.
- The cache loop becomes `Dashboard.BuildSidoCache`.
- The `grouped_result` loop becomes `CityGu.GroupCities`.

Each method is proved against a function of its inputs. The properties
the scripts rely on are proved as lemmas about that function.

## Model

| member | source | states |
|---|---|---|
| SheetEtl.SafeFloatText | build_dashboard_data.py:48-56 | `safe_float` on the text of a cell; its meaning, `float()` of the comma-free text, is stated by `SafeFloatIsCommaFreeParse` and `SentinelsRejected` |
| SheetEtl.SafeFloat | build_dashboard_data.py:48-56 | `safe_float` of a cell through `str()`; `SafeFloatOfNumber` states that a number cell gives back its own value |
| SheetEtl.SafeFloatIsCommaFreeParse | build_dashboard_data.py:48-56 | `safe_float` of any text is exactly `float()` of the comma-stripped text: the sentinel test never changes the outcome and nothing escapes as an exception |
| SheetEtl.SentinelsRejected | build_dashboard_data.py:51-56 | `float()` itself rejects each sentinel "-", "" and "None" |
| SheetEtl.SafeFloatOfNumber | build_dashboard_data.py:50-54 | a number cell always yields a value, and that value equals the cell's number (str() then float() loses nothing) |
| SheetEtl.IndicatorNo | build_dashboard_data.py:72-78 | a blank first cell skips the row; a number gives its truncation toward zero; a text cell is kept exactly when `float()` accepts it, and then gives the truncation of that value |
| SheetEtl.RegionTypeOf | build_dashboard_data.py:95 | the record is province level ("시도") exactly when sido equals sigungu |
| SheetEtl.YearColsShape | build_dashboard_data.py:37-43 | `YEAR_COLS` has five entries; entry k is publish year 2025-k read from columns 7+3k, 8+3k, 9+3k |
| SheetEtl.RowRecords | build_dashboard_data.py:70-111 | the records of one sheet row; `RowCount`, `RowYearValues`, `RowSharedFields` and `RowRecordsWellFormed` state how many, which years and values, and which shared fields |
| SheetEtl.RowCount | build_dashboard_data.py:70-111 | a skipped row yields no record and an accepted row exactly five |
| SheetEtl.RowYearValues | build_dashboard_data.py:97-111 | the k-th record of an accepted row is publish year 2025-k with local, national and reference values from that year's column triple |
| SheetEtl.RowSharedFields | build_dashboard_data.py:76-92 | all records of a row share its indicator number, sido, sigungu, type, category, name and unit |
| SheetEtl.RowRecordsWellFormed | build_dashboard_data.py:86-87 | no record has sido "전국", and every record's region type agrees with its names |
| SheetEtl.XlsRecords | build_dashboard_data.py:59-113 | the records of a workbook; `ParseXls` is proved equal to it and `SheetRecordCount`, `SheetRecordsFromRows` and `HeaderRowsIgnored` state its count, origin and independence from the header rows |
| SheetEtl.ParseXls | build_dashboard_data.py:59-113 | the row loop's appended records equal the specification `XlsRecords`: none for an unreadable workbook, otherwise each data row's records in row order |
| SheetEtl.SheetRecordCount | build_dashboard_data.py:70-111 | a readable sheet yields five records per accepted row at or below `DATA_START_ROW` |
| SheetEtl.SheetRecordsFromRows | build_dashboard_data.py:70-111 | every record comes from an accepted row at index at least 6 and is well formed |
| SheetEtl.HeaderRowsIgnored | build_dashboard_data.py:45 | the six rows above `DATA_START_ROW` may be replaced by anything without changing the records |
| SheetEtl.ProvinceDirs | build_dashboard_data.py:142-146 | a directory entry is walked exactly when it is a directory whose name does not start with "_" |
| SheetEtl.XlsFiles | build_dashboard_data.py:150-153 | a file is read exactly when its name ends in ".xls" and does not start with "." |
| SheetEtl.DirVisitsMembers | build_dashboard_data.py:150-153 | one directory's visits are exactly its selected `.xls` files |
| SheetEtl.VisitedFiles | build_dashboard_data.py:142-157 | `main` reads exactly the selected files of the selected directories |
| SheetEtl.VisitOrder | build_dashboard_data.py:142-153 | directories, and the files within each, are visited in ascending name order |
| SheetEtl.FileRecordsWhole | build_dashboard_data.py:156-160 | each file's records appear whole in `all_records`, after those of every earlier file and before those of every later one |
| SheetEtl.SkippedExactly | build_dashboard_data.py:158-162 | a path is in `skipped` exactly when some visit of it yielded no records |
| SheetEtl.CollectStep | build_dashboard_data.py:158-162 | reading one more file appends its records, or, when it yields none, its path to `skipped` |
| SheetEtl.CollectConcat | build_dashboard_data.py:156-162 | reading more files appends their records and their skipped paths |
| SheetEtl.CollectDirectory | build_dashboard_data.py:156-162 | the inner loop over one directory computes that directory's collected records and skipped paths |
| SheetEtl.CollectRecords | build_dashboard_data.py:139-162 | the nested loops compute the collected records and skipped paths of all visits in reading order |
| SheetEtl.ProvinceNameAfter | build_dashboard_data.py:180-182 | under code-point order "시군구" sorts before "시도", so descending `region_type` puts province rows first |
| SheetEtl.RecordLeTotalPreorder | build_dashboard_data.py:180-183 | the five-key order is a total preorder, as a sort requires |
| SheetEtl.SortTable | build_dashboard_data.py:180-183 | the final table is a permutation of the records and is sorted on sido asc, region_type desc, sigungu, publish_year, indicator_no asc |
| SheetEtl.ProvinceRowsFirst | build_dashboard_data.py:180-182 | within a province no municipal row precedes a province-level row |
| SheetEtl.Catalog | build_dashboard_data.py:126-133 | each distinct (no, type, category, name, unit) tuple of the table appears exactly once, ordered non-decreasing by indicator number |
| SheetEtl.MunicipalNames | build_dashboard_data.py:119-121 | a name is listed for a province exactly when some "시군구" row of that province carries it |
| SheetEtl.MunicipalityMap | build_dashboard_data.py:118-122 | the dictionary loop's keys are exactly the given provinces, and each value is the sorted distinct municipalities of that province |
| SheetEtl.BuildRegionHierarchy | build_dashboard_data.py:116-123 | the function computes the specification `Hierarchy`: entries in sorted key order carrying each key's dictionary value |
| SheetEtl.SortedKeysPresent | build_dashboard_data.py:123 | sorting the dictionary items keeps every key and its value |
| SheetEtl.Hierarchy | build_dashboard_data.py:116-123 | the province → municipality dictionary; `HierarchyKeysExact` and `HierarchyValues` state its keys and values |
| SheetEtl.HierarchyKeysExact | build_dashboard_data.py:120-123 | hierarchy keys are exactly the provinces of the table, each once, in ascending order |
| SheetEtl.HierarchyValues | build_dashboard_data.py:119-122 | each value is the sorted duplicate-free list of the province's "시군구" names, and [] when the province has only "시도" rows |
| SheetEtl.BuildOutputs | build_dashboard_data.py:171-183 | no records means no columns to convert (the script fails); otherwise the table is the sorted permutation of the records |
| Numbers.RenderParses | build_dashboard_data.py:50-54 | `float()` accepts what `str()` prints for a number and reads its digits on both sides of the point |
| Numbers.RenderRoundTrip | build_dashboard_data.py:50-54 | `float(str(x))` of a number cell gives back the same number |
| Numbers.RenderShape | build_dashboard_data.py:50 | `str()` of a number has no surrounding whitespace and consists of a sign, digits and one point |
| Numbers.Trunc | build_dashboard_data.py:76 | `int()` truncates toward zero: the magnitude is the whole part and the sign is kept |
| Numbers.Signed | build_dashboard_data.py:54 | a signed magnitude has that magnitude and is negative only when the minus sign is present and the magnitude is non-zero |
| Strings.LStrip | build_dashboard_data.py:50 | `lstrip()` leaves no leading whitespace |
| Strings.RStrip | build_dashboard_data.py:50 | `rstrip()` leaves no trailing whitespace |
| Strings.StripShape | build_dashboard_data.py:50 | `strip()` returns the slice of the text between its leading and trailing whitespace, with whitespace at neither end |
| Strings.StripIdempotent | build_dashboard_data.py:80-81 | stripping twice is stripping once |
| Strings.StripParts | build_dashboard_data.py:50 | every text is its `strip()` with whitespace on either side |
| Strings.StripRemoveChar | build_dashboard_data.py:50-54 | when the removed character is not whitespace, removing it before or after stripping gives the same text |
| Strings.RemoveCharMembers | build_dashboard_data.py:54 | `replace(",", "")` keeps exactly the other characters and changes nothing when there is no comma |
| Strings.ContainsAt | process_shapefile.py:19 | `sub in s` holds exactly when `sub` occurs at some position of `s` |
| Strings.ContainsChar | find_city_with_gu.py:44 | a one-character substring test is membership |
| Strings.Split | find_city_with_gu.py:37 | `split(' ')` has one piece exactly when there is no separator; no piece holds the separator; the first piece ends at the first separator |
| Strings.JoinSplit | find_city_with_gu.py:37-40 | joining the pieces of `split(sep)` with `sep` gives back the string |
| Strings.SplitTail | find_city_with_gu.py:40 | the pieces after the first, re-joined, are the text after the first separator |
| Strings.RStripChar | app.py:358 | `rstrip("년")` leaves a prefix that does not end in 년 and drops only 년 characters |
| Strings.StrLeTotal | build_dashboard_data.py:122 | code-point order on `str` is total |
| Strings.StrLeTransitive | build_dashboard_data.py:122 | code-point order on `str` is transitive |
| Strings.StrLeAntisymmetric | build_dashboard_data.py:122 | texts ordered both ways are equal |
| Order.SortBy | build_dashboard_data.py:122 | sorting keeps exactly the multiset of elements |
| Order.SortBySorted | build_dashboard_data.py:122 | under a total preorder the result is sorted |
| Order.SortByNoDup | build_dashboard_data.py:122 | sorting keeps a duplicate-free sequence duplicate free |
| Order.Dedup | build_dashboard_data.py:119-120 | `drop_duplicates`/`unique` keep each value exactly once and nothing else |
| Order.SortedDistinct | build_dashboard_data.py:122 | `sorted(set(s))` holds each value of `s` once |
| Order.SortedDistinctSorted | build_dashboard_data.py:122 | `sorted(set(s))` is in ascending order |
| Order.Dissolve | process_shapefile.py:40 | one group per distinct key; each group's geometry is the union of its rows' and its other columns come from its first row. pandas' default `aggfunc="first"` takes each column's first non-null value; the two agree because every column carried through a dissolve here is non-optional |
| Order.DissolveSorted | process_shapefile.py:40 | groups come out in ascending key order |
| Order.DissolveCovers | process_shapefile.py:40 | every input row belongs to exactly one group, whose geometry contains its own |
| Order.DissolveOnlyMembers | process_shapefile.py:40 | a group's geometry holds only ids of rows with the group's key |
| Order.DissolveDisjoint | process_shapefile.py:40 | when input geometries are pairwise disjoint, so are the groups' |
| Order.UnionOfGroup | process_shapefile.py:40 | the united geometry of a key's rows holds exactly the ids of those rows |
| Order.FlatMapSplit | build_dashboard_data.py:160 | each item's output appears whole, between the outputs of the items before and after it |
| Order.FlatMapMembers | build_dashboard_data.py:139-162 | an element is in the concatenated output exactly when some item's output holds it |
| Order.FlatMapLength | build_dashboard_data.py:97-111 | items yielding n outputs when they satisfy p and none otherwise give n times the count |
| Order.Filter | download_nabis_index.py:94-98 | a comprehension keeps exactly the elements that satisfy its test, as many as pass |
| Order.FilterSingleton | download_nabis_index.py:94-98 | a one-element input is kept exactly when it passes |
| Order.FilterAppend | download_nabis_index.py:94-98 | filtering distributes over concatenation, so the kept elements stay in input order |
| Order.FilterNoDup | find_city_with_gu.py:24-27 | filtering keeps a duplicate-free sequence duplicate free |
| Order.FilterFirst | download_nabis_index.py:99-100 | the first kept element is the first element of the input that passes the test |
| Order.NoDupSetSize | find_city_with_gu.py:55 | a duplicate-free list has as many distinct values as entries |
| RegionReconcile.ZFill | process_shapefile.py:11 | `zfill(3)` pads to length 3 and leaves codes of length at least 3 unchanged |
| RegionReconcile.ZFillUnsigned | process_shapefile.py:11 | without a sign the padding is all '0's in front of the code |
| RegionReconcile.ZFillValue | process_shapefile.py:11 | padding a digit string keeps its numeric value |
| RegionReconcile.SgCode | process_shapefile.py:11-12 | `SIGUNGU_CD` as province code plus the zero-filled municipality code; `SgCodeDeterminesParts` states that it is injective |
| RegionReconcile.SgCodeDeterminesParts | process_shapefile.py:11-12 | with province codes of one length, equal `SIGUNGU_CD` means equal province code and equal municipality number |
| RegionReconcile.TargetName | process_shapefile.py:14-21 | `get_target_nm`; `SpecialProvinceIsProvince`, `MetropolitanNotFolded`, `UnspacedNotFolded`, `FoldedName` and `TargetNameFixedPoint` state when it folds and to what |
| RegionReconcile.SpecialProvinceIsProvince | process_shapefile.py:19 | the test for '특별자치도' adds nothing to the test for '도' |
| RegionReconcile.MetropolitanNotFolded | process_shapefile.py:19-21 | under a province whose name lacks '도' the target name is the stripped name |
| RegionReconcile.UnspacedNotFolded | process_shapefile.py:18-21 | a name without a space (화성시, 남양주시) comes back stripped only |
| RegionReconcile.FoldedName | process_shapefile.py:19-20 | a folded name is the stripped name up to its first space and strictly shorter |
| RegionReconcile.TargetNameFixedPoint | process_shapefile.py:14-21 | when the name has no whitespace other than ' ', a target name is its own target name |
| RegionReconcile.LookupTable | process_shapefile.py:10-23 | the lookup holds exactly the code and target name of each distinct code row |
| RegionReconcile.Matches | process_shapefile.py:31 | the lookup rows matched by a code are exactly those carrying that code |
| RegionReconcile.LeftJoin | process_shapefile.py:31 | the left merge on `SIGUNGU_CD`; `LeftJoinRows`, `LeftJoinKeepsFeatures` and `LeftJoinOneToOne` state its rows |
| RegionReconcile.JoinFeature | process_shapefile.py:31 | a left join gives each feature at least one row |
| RegionReconcile.JoinFeatureRows | process_shapefile.py:31 | one feature's rows are its matches, or one row with empty lookup columns when nothing matches |
| RegionReconcile.LeftJoinRows | process_shapefile.py:31 | every joined row is a feature joined with a matching lookup row, or with empty columns when none matches |
| RegionReconcile.LeftJoinKeepsFeatures | process_shapefile.py:31 | the left join keeps every boundary feature |
| RegionReconcile.LeftJoinOneToOne | process_shapefile.py:31 | with at most one lookup row per code the join has exactly one row per feature, in feature order |
| RegionReconcile.MatchesDistinct | process_shapefile.py:31 | lookup rows with distinct codes match a code at most once |
| RegionReconcile.Fallback | process_shapefile.py:33-37 | the fill-in for one merged row; `FillMissing` applies it in place and `CompletedRows` states its result |
| RegionReconcile.Completed | process_shapefile.py:33-37 | the merged rows after the fill-in, one per merged row; `CompletedRows` and `CompletedKeysPresent` state that every row then has both keys |
| RegionReconcile.FillMissing | process_shapefile.py:33-37 | the masked `.loc` assignments give a row without target name the target = its own name and province '기타', and leave other rows alone |
| RegionReconcile.CompletedRows | process_shapefile.py:31-37 | after completion every row has both columns: a matched feature keeps the lookup values; an unmatched one has its own name and '기타' |
| RegionReconcile.PairLeTotalPreorder | process_shapefile.py:40 | the order on (province, target) pairs is a total preorder |
| RegionReconcile.KeyPresent | process_shapefile.py:40 | the group-by keeps exactly the rows with both key columns present |
| RegionReconcile.KeyPresentAll | process_shapefile.py:40 | when no key is missing, nothing is dropped |
| RegionReconcile.DissolveRegions | process_shapefile.py:40-42 | one output region per dissolved group |
| RegionReconcile.JoinRowsPaired | process_shapefile.py:31 | every joined row has both lookup columns or neither |
| RegionReconcile.CompletedKeysPresent | process_shapefile.py:33-40 | after completion the group-by drops no row |
| RegionReconcile.RegionsDistinct | process_shapefile.py:40 | output (province, name) pairs are distinct and in ascending order |
| RegionReconcile.FeatureInOneRegion | process_shapefile.py:31-40 | every completed feature lies in the one output region of its (province, target) pair: exactly one region carries that pair, and it contains the feature. A code with several lookup rows duplicates its feature, whose id then lies in one region per distinct pair |
| RegionReconcile.RegionMembers | process_shapefile.py:40-42 | a region's geometry holds exactly its key's features, and its code is that of the first such feature |
| RegionReconcile.ProcessShapes | process_shapefile.py:10-42 | the script from the code table and the features to the dissolved regions; `ProcessShapesCovers` and `ProcessShapesOnlyFeatures` state what it keeps |
| RegionReconcile.ProcessShapesCovers | process_shapefile.py:31-42 | every boundary feature lies in some output region: no feature is lost by the merge, the fill-in or the dissolve |
| RegionReconcile.ProcessShapesOnlyFeatures | process_shapefile.py:31-42 | every id in an output region is that of a boundary feature |
| JoinKeys.CsvSigungu | prepare_dashboard_data.py:22-25 | `csv_sigungu` differs from `SIGUNGU_NM` exactly for the name "세종시" |
| JoinKeys.CompositeKey | prepare_dashboard_data.py:28 | `SIDO_NM + " " + csv_sigungu`; `CompositeKeyDeterminesParts` states that the parts can be read back |
| JoinKeys.CompositeKeyDeterminesParts | prepare_dashboard_data.py:28 | for province names without a space, equal composite keys mean equal province and equal `csv_sigungu` |
| JoinKeys.SejongOverride | prepare_dashboard_data.py:25 | the `.loc` override sets "세종특별자치시" exactly where `SIGUNGU_NM` is "세종시" and keeps every other entry |
| JoinKeys.CompositeKeys | prepare_dashboard_data.py:28 | every feature's `csv_sido_sigungu` is its province, a space and its `csv_sigungu` |
| JoinKeys.MunicipalLayer.constructor | prepare_dashboard_data.py:18 | the layer holds the read features column by column, without key columns |
| JoinKeys.MunicipalLayer.CopyNames | prepare_dashboard_data.py:22 | `csv_sigungu` becomes a copy of `SIGUNGU_NM`; nothing else changes |
| JoinKeys.MunicipalLayer.OverrideSejong | prepare_dashboard_data.py:25 | only the `csv_sigungu` entries of "세종시" features change |
| JoinKeys.MunicipalLayer.AddCompositeKey | prepare_dashboard_data.py:28 | `csv_sido_sigungu` gets each feature's composite key; nothing else changes |
| JoinKeys.MunicipalLayer.PrepareKeys | prepare_dashboard_data.py:22-28 | only the two key columns are added: province, name, code, geometry and feature count are unchanged; the keys follow `CsvSigungu` and `CompositeKey` |
| JoinKeys.ProvinceOutlines | prepare_dashboard_data.py:33 | `dissolve(by="SIDO_NM")` of the layer; `ProvinceOutlinesExact` states its outlines |
| JoinKeys.ProvinceOutlinesExact | prepare_dashboard_data.py:31-33 | one outline per distinct `SIDO_NM`, in ascending order, made only of that province's features |
| JoinKeys.DuplicateNames | prepare_dashboard_data.py:54-56 | the report lists, once each, exactly the `csv_sigungu` values that occur more than once |
| JoinKeys.UniqueNamesNotReported | prepare_dashboard_data.py:55 | a name occurring at most once is not reported |
| Dashboard.RenameSido | app.py:19 | a value changes exactly when it is "전라북도", and the result is never "전라북도" |
| Dashboard.Renamed | app.py:19 | every row keeps all columns but `sido`, which is renamed |
| Dashboard.GunwiMoved | app.py:22 | rows with sigungu "군위군" get sido "대구광역시"; other rows are unchanged |
| Dashboard.SejongCopies | app.py:25-26 | the copies are exactly the Sejong "시도" rows relabelled "시군구", one per selected row |
| Dashboard.CompositeKeysOf | app.py:30 | every row's `sido_sigungu` is sido, a space and sigungu |
| Dashboard.IndicatorFrame.constructor | app.py:18 | the frame holds the rows read, without a key column |
| Dashboard.IndicatorFrame.RenameProvince | app.py:19 | the rows become the renamed rows; the key column is untouched |
| Dashboard.IndicatorFrame.MoveGunwi | app.py:22 | the rows become the rows with 군위군 moved |
| Dashboard.IndicatorFrame.AppendSejongCopies | app.py:25-27 | the copies are appended after the existing rows |
| Dashboard.IndicatorFrame.AddCompositeKey | app.py:30 | the key column is computed from the rows, which do not change |
| Dashboard.IndicatorFrame.Load | app.py:18-30 | the load-time statements leave the rows equal to `Loaded` of the rows read, each with its composite key |
| Dashboard.Loaded | app.py:19-27 | the table after the load-time fix-ups; `LoadedShape`, `SejongCopiesSound`, `SejongCopiesComplete` and `LoadedNames` state its rows |
| Dashboard.LoadedShape | app.py:19-27 | the row count grows by exactly the number of copied rows, and every original row stays in place with its fixes |
| Dashboard.CopyOrigin | app.py:25-27 | a copy comes from a selected row of the table it was taken from |
| Dashboard.SejongCopiesSound | app.py:25-27 | every appended row is a "시군구" copy of a loaded Sejong "시도" row |
| Dashboard.SejongCopiesComplete | app.py:25-27 | every loaded Sejong "시도" row has its "시군구" copy among the appended rows |
| Dashboard.LoadedNames | app.py:19-22 | after loading no row has sido "전라북도" and every 군위군 row has sido "대구광역시" |
| Dashboard.RowMatchesFeature | app.py:30 | for province names without a space, the map joins a row to a feature exactly when province and `csv_sigungu` agree |
| Dashboard.Years | app.py:42 | `sorted(unique())`: every publish year once, strictly ascending |
| Dashboard.YearOptions | app.py:43 | the dropdown lists every publish year once, strictly descending |
| Dashboard.DefaultYear | app.py:84 | `years[-1]`, absent for an empty table; `DefaultYearIsLatest` states that it is the latest publish year |
| Dashboard.DefaultYearIsLatest | app.py:84 | a default exists exactly when the table has rows; it is the latest publish year and the first option |
| Dashboard.LatestYear | app.py:84 | the last sorted year bounds every publish year |
| Dashboard.CacheOf | app.py:258-262 | the outline cache as a function of the features; `CacheKeys` and `CacheLast` state its keys and which feature each holds |
| Dashboard.BuildSidoCache | app.py:258-262 | the loop computes the cache `CacheOf` of the outline features |
| Dashboard.CacheKeys | app.py:258-262 | the cache has an entry exactly for each non-empty `SIDO_NM` of the features |
| Dashboard.CacheLast | app.py:258-262 | a name's entry holds the last feature of that name: later features overwrite earlier ones |
| Dashboard.HoverLayers | app.py:270-303 | an empty `points` list raises; otherwise the layers are the base layer, plus the highlight exactly when `customdata` has at least 2 items and its first is cached |
| Dashboard.HoverHighlightsProvince | app.py:258-303 | hovering a region highlights its province exactly when some outline feature has that name, and then it draws the last such feature |
| Dashboard.RegionLabel | app.py:339-342 | the label is the province exactly when sido equals sigungu, otherwise "sido - sigungu" |
| Dashboard.RefYearText | app.py:358 | a missing value or "-" gives "—"; any other value loses exactly its trailing 년 characters |
| Downloader.SecondArgExact | download_nabis_index.py:129 | the pattern's tail `([^"]+)"\)` matches exactly a non-empty quote-free argument followed by `")` |
| Downloader.AfterCommaSound | download_nabis_index.py:129 | after the comma, a match skips whitespace then a quoted non-empty quote-free argument |
| Downloader.AfterCommaComplete | download_nabis_index.py:129 | text of that shape after the comma is matched, with that argument |
| Downloader.AfterPrefixSound | download_nabis_index.py:129 | past `selectGrid("`, a match has a non-empty quote-free first argument, `",`, whitespace and the quoted second argument |
| Downloader.AfterPrefixComplete | download_nabis_index.py:129 | text of that shape past the prefix is matched, with that second argument |
| Downloader.MatchAtSound | download_nabis_index.py:129 | a match at a position is a `selectGrid("code",␣*"name")` call occurring there |
| Downloader.MatchAtComplete | download_nabis_index.py:129 | every such call occurring at a position is matched there, with its second argument |
| Downloader.Search | download_nabis_index.py:129 | `re.search` returns the group of the leftmost match, and nothing when no position matches |
| Downloader.SearchFinds | download_nabis_index.py:129 | a match with none before it is what the search returns |
| Downloader.AnchorName | download_nabis_index.py:117-132 | non-blank stripped text is returned; otherwise the unquoted group of the search in the link (missing link = ""), or "" when it does not match |
| Downloader.HrefMatch | download_nabis_index.py:122-129 | in the tree's link `javascript:selectGrid("code", "enc");` the search finds the encoded name |
| Downloader.AnchorNameFromHref | download_nabis_index.py:120-131 | an anchor with blank text and the tree's link for a region yields that region's name |
| Downloader.EncodedQuoteFree | download_nabis_index.py:129 | percent-encoded text holds no `"`, so the pattern's group can capture all of it |
| Downloader.PathJoin | download_nabis_index.py:100 | `os.path.join` keeps an absolute second part, inserts '/' only when the first lacks a trailing one |
| Downloader.DetectDownload | download_nabis_index.py:94-100 | one poll of the download folder; `DetectDownloadFirst` states what it finds |
| Downloader.DetectDownloadFirst | download_nabis_index.py:94-100 | a poll finds nothing exactly when no listed name is a finished Excel file; otherwise it returns the path of the first such name in listing order |
| Downloader.CrdownloadTestRedundant | download_nabis_index.py:96-97 | the `.crdownload` test never rejects a name the extension test accepts |
| Downloader.LastIndexOf | download_nabis_index.py:111 | `rfind` returns the last position of the character, or -1 |
| Downloader.SplitExt | download_nabis_index.py:111 | `splitext` splits the path into root and extension, the extension being empty or a '.' with no further '.' or '/' |
| Downloader.DestinationPath | download_nabis_index.py:111-112 | the path `move_file` moves to; `DestinationAppendsExtension` and `DestinationKeepsExtension` state its shape |
| Downloader.DestinationAppendsExtension | download_nabis_index.py:111-112 | the destination is `dest_dir/dest_name` plus the source's extension, appended whether or not `dest_name` already has one |
| Downloader.DestinationKeepsExtension | download_nabis_index.py:111-112 | split again, the destination has the source's extension |
| Downloader.SavedFileCount | download_nabis_index.py:288-292 | the saved-file total over a walk; `SavedFileCountAppend`, `TmpDirectoryNotCounted`, `SavedAtMostAll` and `TmpRootCountsNothing` state it |
| Downloader.SavedFileCountAppend | download_nabis_index.py:288-292 | the count over a walk is the sum of the counts of its parts |
| Downloader.TmpDirectoryNotCounted | download_nabis_index.py:291 | a directory whose path contains `_tmp` adds nothing to the count |
| Downloader.SavedAtMostAll | download_nabis_index.py:288-292 | the count is at most the number of files, and exactly that when no path contains `_tmp` |
| Downloader.TmpRootCountsNothing | download_nabis_index.py:290-291 | under an output folder whose own path contains `_tmp` the count is 0 |
| Percent.PercentBytesOfEncoded | download_nabis_index.py:131 | `unquote_to_bytes` gives back the octets the encoder wrote |
| Percent.Utf8RoundTrip | download_nabis_index.py:131 | UTF-8 decoding undoes UTF-8 encoding |
| Percent.EncodeWithoutPercent | download_nabis_index.py:131 | an encoding without `%` is the text itself |
| Percent.Unquote | download_nabis_index.py:131 | `urllib.parse.unquote` with its defaults; `UnquoteRoundTrip` and `TruncatedSequenceReplaced` state its results |
| Percent.UnquoteRoundTrip | download_nabis_index.py:131 | `unquote` undoes percent-encoding of any text |
| Percent.TruncatedSequenceReplaced | download_nabis_index.py:131 | a truncated UTF-8 sequence decodes to one U+FFFD, as `errors="replace"` does |
| CityGu.CityGuMatch | find_city_with_gu.py:24 | `str.contains(r".+시\s+.+구$")`; `MatchIntro` and `MatchParts` state both directions of what it accepts |
| CityGu.MatchIntro | find_city_with_gu.py:24 | any text "…X시␣…Y구" with non-empty newline-free parts and whitespace between matches |
| CityGu.MatchParts | find_city_with_gu.py:24 | every match splits the text into that shape |
| CityGu.NoSiNoMatch | find_city_with_gu.py:24 | a name without '시' never matches |
| CityGu.MissingNeverMatches | find_city_with_gu.py:9-24 | a missing name, "nan" after `astype(str)`, never matches |
| CityGu.NoSpaceNoMatch | find_city_with_gu.py:24 | a name without whitespace ("수원시영통구") never matches |
| CityGu.SuwonMatches | find_city_with_gu.py:24 | "수원시 영통구" matches |
| CityGu.Candidates | find_city_with_gu.py:24-27 | the de-duplicated triples are duplicate free |
| CityGu.CandidatesExact | find_city_with_gu.py:24-27 | a triple is a candidate exactly when some row with a matching name carries it |
| CityGu.SplitCityGu | find_city_with_gu.py:37-40 | no city/district pair exactly when the name has no ' '; otherwise the name is city, ' ', district, with no ' ' in the city |
| CityGu.SplitAtFirstSpace | find_city_with_gu.py:37-40 | the first piece of `split(' ')` and the rest re-joined with ' ' rebuild the name |
| CityGu.SuwonSplit | find_city_with_gu.py:36-40 | "수원시 영통구" splits into 수원시 and 영통구 |
| CityGu.TabSeparatedDropped | find_city_with_gu.py:24-38 | "수원시\t영통구" matches the pattern but gives no city/district pair |
| CityGu.SpecialProvinceTestRedundant | find_city_with_gu.py:44 | the test for "특별자치도" adds nothing to the test for "도" |
| CityGu.InProvince | find_city_with_gu.py:44 | the province filter; `SpecialProvinceTestRedundant` and `InProvinceChar` state it is membership of '도' |
| CityGu.InProvinceChar | find_city_with_gu.py:44 | the province filter is membership of the character '도' |
| CityGu.ProvinceExamples | find_city_with_gu.py:42-44 | 경기도 and 제주특별자치도 pass the filter |
| CityGu.SeoulExcluded | find_city_with_gu.py:42-44 | 서울특별시 does not pass the filter |
| CityGu.Key | find_city_with_gu.py:45 | `f"[{sido}] {city}"`; `KeyDeterminesParts` states that it is injective |
| CityGu.Label | find_city_with_gu.py:48 | `f"{gu} (코드: {code})"`, with its length; `SuwonExample` gives an instance |
| CityGu.KeyDeterminesParts | find_city_with_gu.py:45 | for province names without ']', equal keys mean equal province and city |
| CityGu.EntryOf | find_city_with_gu.py:37-48 | a candidate appends at most one label, and one exactly when its name has a ' ' and its province contains "도" |
| CityGu.EntryOfCases | find_city_with_gu.py:37-48 | when the split succeeds and the province passes, the label is `Label(gu, code)` under `Key(sido, city)`; otherwise nothing |
| CityGu.SuwonExample | find_city_with_gu.py:36-48 | 경기도's 31014 "수원시 영통구" is listed as "영통구 (코드: 31014)" under "[경기도] 수원시" |
| CityGu.GroupOrder | find_city_with_gu.py:46-47 | the dictionary's keys in insertion order are duplicate free |
| CityGu.AppendEntry | find_city_with_gu.py:45-48 | one `append` keeps keys, map and labels in step |
| CityGu.BuiltRepresents | find_city_with_gu.py:31-48 | the dictionary after the appends has the keys in first-appearance order and each key's labels in append order |
| CityGu.GroupCities | find_city_with_gu.py:31-48 | the loop's dictionary has keys in first-insertion order, one list per key holding that key's labels in loop order |
| CityGu.GroupKeysExact | find_city_with_gu.py:44-47 | a key is present exactly when some candidate contributes a label under it |
| CityGu.KeyInOrder | find_city_with_gu.py:46-47 | a key is in the insertion order exactly when some append used it |
| CityGu.LabelsUnderMembers | find_city_with_gu.py:48 | a label is under a key exactly when it was appended with that key |
| CityGu.LabelsExact | find_city_with_gu.py:48 | a label is listed under a key exactly when some candidate contributes it there |
| CityGu.LabelsInOrder | find_city_with_gu.py:48 | labels of earlier candidates come before those of later ones |
| CityGu.GroupsNonEmpty | find_city_with_gu.py:46-48 | every key has at least one district |
| CityGu.CountIsDistinctKeys | find_city_with_gu.py:55 | the reported count is the number of distinct keys among the appends |

## Left out

- Scraping and acquisition are browser automation, HTTP, fixed sleeps and file deletion, so they are not modelled. This covers `scrape_nabis_data.py`, `scrape_nabis_api.py`, `parse_nabis.py` and `parse_nabis2.py`. In `download_nabis_index.py` it also covers:
  - the driver setup and clicks;
  - `clear_tmp`;
  - the polling loop with its deadline. One poll is `Downloader.DetectDownload`.
- `analyze_dataset.py` only loads files and prints samples, so it is not modelled.
- Geometry is an opaque set of source feature ids, so the following are not modelled:
  - reprojection from EPSG:5179 to EPSG:4326;
  - `make_valid`;
  - polygon union;
  - topojson simplification and the tolerance choice between 5000 and 5000/111000.
- I/O is replaced by values:
  - xlrd workbook reading: a `Workbook` next to its `Unreadable` case;
  - `os.listdir`, `os.path.isdir` and `os.walk`: listings and walk entries passed as values;
  - `read_csv`/`read_excel`/`read_file`: rows and features passed as values;
  - CSV with BOM, JSON and GeoJSON writing, file sizes, `shutil.move`, `os.makedirs` and every `print`.
- Dash and Plotly layout, figure construction and callback wiring are left out, except the selection rules above. The rest of `update_sidebar`, such as the `:.2f` value texts, is left out.
- Numbers.PyFloat: accepts only an optional sign, digits and at most one point. It does not accept exponents, "inf"/"nan", underscores or non-ASCII digits that Python's `float()` also takes. Float rounding and `to_numeric` are not modelled.
- Numbers.Render: models `str()` of a number only for magnitudes that Python prints without an exponent, and only as an exact decimal.
- Strings.IsSpace: approximates Python's `str.isspace()`, and the regex `\s`, by the fixed list of Unicode White_Space characters plus U+001C..U+001F.
- SheetEtl.SortTable: states a permutation sorted on the five keys. It does not state the relative order of records equal on all five keys, which pandas' stable sort would keep.
- SheetEtl.Catalog: states ascending indicator number only. The relative order of entries with the same number is lost, as `sort_values` with its default unstable quicksort does not promise one either.
- SheetEtl.CellAt: a sheet narrower than 22 columns makes xlrd raise IndexError on the first missing cell and stops the script; the model reads the missing cells as empty. The `try` around `open_workbook` does not cover the cell reads.
- SheetEtl.BuildRegionHierarchy: the ordered `dict` is modelled as a list of key/value entries in key order.
- SheetEtl.BuildOutputs: the `astype(int)` and `to_numeric` conversions are modelled as the identity, since the model's values already have those types.
- JoinKeys.DuplicateNames: states which names are reported, not the `Counter`'s first-appearance order of them.
- Dashboard.HoverLayers: a falsy `hover_data` is modelled as no event. A hover point's `customdata` is either absent or a list of strings.
- Dashboard.RefYearText: the reference year is either missing (NaN) or a text. `str()` of a non-text value is not modelled.
- Downloader.AnchorName: the rendered text and the `href` attribute are inputs to the model, not values read from a browser.
- Downloader.HrefMatch: the shape of the link the server writes is an assumption of the lemma, which is `SelectGridHref`.
- Percent: only the `unquote` defaults used here are modelled: UTF-8, `errors="replace"`.
- No warning or check is modelled that the code does not have. The code does not check for:
  - one indicator number with differing metadata;
  - unmatched join keys;
  - duplicate (sido, region type, sigungu, year, number) records.
- The scripts write their output files directly; atomic writes are not modelled.

## Notes on the code

These are places where the code differs from its own comments. The model follows the code.

- The `move_file` docstring says the source extension is used only when `dest_name` has none. The code always appends it (`Downloader.DestinationAppendsExtension`).
- In `wait_for_download`, the `.crdownload` test is subsumed by the `.xls`/`.xlsx` test (`Downloader.CrdownloadTestRedundant`).
- In both `get_target_nm` and `find_city_with_gu.py`, the test for "특별자치도" is subsumed by the test for "도" (`RegionReconcile.SpecialProvinceIsProvince`, `CityGu.SpecialProvinceTestRedundant`).
- The regex of `find_city_with_gu.py` accepts any whitespace between city and district, but the split is on ' ' only. A tab-separated name is selected and then silently dropped (`CityGu.TabSeparatedDropped`).
