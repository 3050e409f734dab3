# Aggregated point extraction: column matching, dataset dispatch, download name

This project models the decision logic of the dashboard page that aggregates
Earth Engine pixel values over plot identifiers
(`pages/4_Aggregated_Point_Extraction.py`). The rest of that page, and the
other pages, are Streamlit wiring and calls into remote services. Three
procedures on the page decide something by themselves:

- **`find_column`** (module `ColumnMatch`, `column_match.dfy`). It picks the CSV
  column for latitude, longitude and plot identifier from a priority list of
  candidate names. An exact name wins first. After that comes a case-insensitive
  lookup through a lowercase-to-original dictionary, in which a later column
  overwrites an earlier one. If nothing matches it raises a `ValueError`. The
  Python loops are modelled as the method `FindColumn`, with loops and early
  returns. That method is proved equal to the specification function
  `ResolveColumn`, and the lemmas state the properties of `ResolveColumn`.
  The three candidate lists and the rename to `LAT`, `LON` and `plot_ID` are
  modelled as well.
- **Dataset-kind dispatch in `load_gee_as_image`** (module `DatasetDispatch`,
  `dataset_dispatch.dfy`). The downloaded catalog is an input: a sequence of
  items whose `id` and `type` keys may be missing. The model collects the
  types of the items with the requested id and joins them with spaces. The
  joined string selects one of three branches: Image, ImageCollection reduced
  to its median, or FeatureCollection rasterised. The model also records
  whether `filterDate` is applied.
- **Download file name** (module `DownloadName`, `download_name.dfy`). This is
  `geedata.strip().replace("/", "_")`, with Python's full whitespace set for
  `strip()`.

`results.dfy` holds the `Option` and `Result` datatypes. `Err` stands for a
raised exception.

## Model

| member | source | states |
|---|---|---|
| `ColumnMatch.FindColumn` | pages/4_Aggregated_Point_Extraction.py:238-247 | the two candidate loops with early return, and the dictionary built column by column, return exactly what the specification `ResolveColumn` gives, including the ValueError case |
| `ColumnMatch.FirstExact` | pages/4_Aggregated_Point_Extraction.py:239-241 | a candidate returned by the exact pass is both a candidate and a column |
| `ColumnMatch.LowerColumns` | pages/4_Aggregated_Point_Extraction.py:243 | every value of the lowercase dictionary is a column, and its lowercase form is its key |
| `ColumnMatch.FirstFolded` | pages/4_Aggregated_Point_Extraction.py:244-246 | a value returned by the fallback pass is the dictionary entry of some candidate's lowercase form |
| `ColumnMatch.LowerColumnsKeys` | pages/4_Aggregated_Point_Extraction.py:243 | a string is a key of the dictionary if and only if some column lowercases to it |
| `ColumnMatch.LowerColumnsLatest` | pages/4_Aggregated_Point_Extraction.py:243 | under each key the dictionary holds the last column in column order with that lowercase form (a later column overwrites an earlier one) |
| `ColumnMatch.ExactMatchPreferred` | pages/4_Aggregated_Point_Extraction.py:239-241 | if some candidate is a column name exactly, the result is the first such candidate in priority order, even when an earlier candidate matches only up to case |
| `ColumnMatch.FallbackPicksLastColumn` | pages/4_Aggregated_Point_Extraction.py:243-246 | with no exact match, the result is the last column whose lowercase form equals that of the first candidate that has any case-insensitive match |
| `ColumnMatch.ResolvedIsColumn` | pages/4_Aggregated_Point_Extraction.py:238-246 | every successful result is one of the columns and equals some candidate up to case |
| `ColumnMatch.ResolveFailsIff` | pages/4_Aggregated_Point_Extraction.py:243-247 | `find_column` raises if and only if no candidate matches any column up to case |
| `ColumnMatch.CandidateListsFold` | pages/4_Aggregated_Point_Extraction.py:234-236 | the latitude, longitude and identifier candidates lowercase into the pairwise disjoint sets {lat, latitude, y}, {lon, long, longitude, x} and {id, plot_id, plotid} |
| `ColumnMatch.ResolvedPointColumnsDistinct` | pages/4_Aggregated_Point_Extraction.py:234-251 | when all three lookups succeed they name three columns of the file that are pairwise different |
| `ColumnMatch.ResolvePointColumnsFails` | pages/4_Aggregated_Point_Extraction.py:249-251 | the three lookups fail if and only if one of the candidate lists has no case-insensitive match; they run in the order latitude, longitude, identifier, so the error names the first list in that order with no match |
| `ColumnMatch.RenameYieldsPointColumns` | pages/4_Aggregated_Point_Extraction.py:249-253 | the rename dictionary has three distinct keys, so after the rename the chosen latitude column is labelled `LAT`, the longitude column `LON` and the identifier column `plot_ID`; all three labels are present, the number of columns is unchanged, and every other column keeps its label |
| `ColumnMatch.LowerChar` | pages/4_Aggregated_Point_Extraction.py:243-245 | a character's lowercase form is never an ASCII capital; a capital maps to its small letter and every other character is kept (ASCII only, see Left out) |
| `ColumnMatch.Lower` | pages/4_Aggregated_Point_Extraction.py:243-245 | `str.lower` keeps the length and lowercases every character in place, so the result contains no ASCII capital |
| `ColumnMatch.ResolveColumn` | pages/4_Aggregated_Point_Extraction.py:238-247 | what `find_column` returns: a column of the file, or the ValueError naming the candidate list; which column is chosen is stated by `ExactMatchPreferred`, `FallbackPicksLastColumn`, `ResolvedIsColumn` and `ResolveFailsIff` |
| `ColumnMatch.ResolvePointColumns` | pages/4_Aggregated_Point_Extraction.py:249-251 | the three lookups in order: on success all three chosen names are columns of the file; an error names one of the three candidate lists (which one: `ResolvePointColumnsFails`) |
| `ColumnMatch.RenameMap` | pages/4_Aggregated_Point_Extraction.py:253 | the dictionary display has exactly the keys `lat_col`, `lon_col` and `id_col`; `id_col` maps to `plot_ID`, and `lon_col` and `lat_col` map to `LON` and `LAT` unless a later key repeats them, as in a Python dict display |
| `ColumnMatch.Rename` | pages/4_Aggregated_Point_Extraction.py:253 | renaming keeps the number of column labels, replaces each label that is a key of the dictionary by its value and keeps every other label |
| `ColumnMatch.RenamePointColumns` | pages/4_Aggregated_Point_Extraction.py:249-253 | the rename succeeds exactly when the three lookups do, keeps the number of columns, and otherwise raises the lookup's error (the labels it produces: `RenameYieldsPointColumns`) |
| `ColumnMatch.LogColumnNotAccepted` | pages/4_Aggregated_Point_Extraction.py:235 | a longitude column named `log`, as the page's table of accepted names (line 196) spells it, matches no longitude candidate, so the longitude lookup raises |
| `DatasetDispatch.MatchingTypes` | pages/4_Aggregated_Point_Extraction.py:117 | the comprehension yields at most one type per catalog item, and a KeyError it raises is for `id` or `type` |
| `DatasetDispatch.MatchingTypesFailsIff` | pages/4_Aggregated_Point_Extraction.py:117 | the comprehension raises if and only if some item lacks `id`, or an item with the requested id lacks `type` |
| `DatasetDispatch.MatchingTypesEmptyIff` | pages/4_Aggregated_Point_Extraction.py:117 | the comprehension yields the empty list if and only if the catalog is well formed and no item has the requested id |
| `DatasetDispatch.MatchingTypesSingleIff` | pages/4_Aggregated_Point_Extraction.py:117 | the comprehension yields exactly `[t]` if and only if the catalog is well formed and exactly one item has the requested id, with type `t` |
| `DatasetDispatch.JoinEqualsSingleType` | pages/4_Aggregated_Point_Extraction.py:118-128 | the space-join of a list equals a non-empty, space-free type name if and only if the list is that one name, so several matches never equal `"image"` or `"image_collection"` |
| `DatasetDispatch.Str` | pages/4_Aggregated_Point_Extraction.py:119-120 | `str()` always yields a string, `"None"` for `None`, and leaves a string unchanged |
| `DatasetDispatch.Join` | pages/4_Aggregated_Point_Extraction.py:118 | `' '.join` of no parts is empty, of one part is that part, and of several parts starts with the first part followed by the separator |
| `DatasetDispatch.SelectLoader` | pages/4_Aggregated_Point_Extraction.py:123-146 | the Image branch is chosen exactly for the string `"image"`, the collection branch exactly for `"image_collection"`, the FeatureCollection branch otherwise, and the filter flag is passed to the branch that can filter |
| `DatasetDispatch.ChooseLoader` | pages/4_Aggregated_Point_Extraction.py:117-146 | `load_gee_as_image` raises exactly when the comprehension raises; otherwise it takes the branch of the joined type string with the date filter off, whatever the dates (branches characterised by `ImageBranchIff`, `CollectionBranchIff`, `FeatureBranchIff`) |
| `DatasetDispatch.ChooseLoaderCorrected` | pages/4_Aggregated_Point_Extraction.py:117-146 | the corrected dispatch raises in the same cases, and in the collection and FeatureCollection branches applies the date filter exactly when both dates are given |
| `DatasetDispatch.ChooseLoaderFailsIff` | pages/4_Aggregated_Point_Extraction.py:117-146 | `load_gee_as_image` raises a KeyError if and only if the catalog lacks a key that it reads |
| `DatasetDispatch.ImageBranchIff` | pages/4_Aggregated_Point_Extraction.py:117-127 | the Image branch is taken if and only if exactly one catalog item has the requested id and its type is `"image"` |
| `DatasetDispatch.CollectionBranchIff` | pages/4_Aggregated_Point_Extraction.py:128-137 | the ImageCollection branch is taken if and only if exactly one catalog item has the requested id and its type is `"image_collection"` |
| `DatasetDispatch.FeatureBranchIff` | pages/4_Aggregated_Point_Extraction.py:138-146 | the FeatureCollection branch is taken if and only if the catalog is well formed and neither unique-match case holds: no match, several matches, or another type |
| `DatasetDispatch.NoOrSeveralMatchesGoToFeatures` | pages/4_Aggregated_Point_Extraction.py:117-146 | an id that no item has, or that two items have, is loaded as a FeatureCollection |
| `DatasetDispatch.DateFilterNeverApplied` | pages/4_Aggregated_Point_Extraction.py:119-142 | because both dates go through `str()` before the `is None` test, `filterDate` is never applied in either branch |
| `DatasetDispatch.DatesIgnoredExample` | pages/4_Aggregated_Point_Extraction.py:128-134 | a catalog with one ImageCollection and two given dates is loaded without a date filter |
| `DatasetDispatch.CorrectedSameBranch` | pages/4_Aggregated_Point_Extraction.py:117-146 | the corrected dispatch takes the same branch, and raises in the same cases, as the code as written |
| `DatasetDispatch.CorrectedFiltersGivenDates` | pages/4_Aggregated_Point_Extraction.py:128-142 | in the corrected dispatch a collection is date-filtered exactly when both dates are given |
| `DownloadName.LeadingSpaces` | pages/4_Aggregated_Point_Extraction.py:215 | the count of leading characters `strip()` drops: all of them are whitespace and the next character, if any, is not |
| `DownloadName.TrailingSpaces` | pages/4_Aggregated_Point_Extraction.py:215 | the count of trailing characters `strip()` drops: all of them are whitespace and the character before them, if any, is not |
| `DownloadName.StripLeft` | pages/4_Aggregated_Point_Extraction.py:215 | the result is a suffix of the input, every dropped character is whitespace, and the result does not start with whitespace |
| `DownloadName.StripRight` | pages/4_Aggregated_Point_Extraction.py:215 | the result is a prefix of the input, every dropped character is whitespace, and the result does not end with whitespace |
| `DownloadName.IsSpace` | pages/4_Aggregated_Point_Extraction.py:215 | the whitespace `str.strip()` removes (Python's `isspace` set) contains no letter, digit, `/`, `_`, `.` or `-`, so no character of a dataset id other than surrounding whitespace is stripped |
| `DownloadName.Strip` | pages/4_Aggregated_Point_Extraction.py:215 | `str.strip()` returns a string no longer than its input that neither starts nor ends with whitespace (that it is the window left after dropping whitespace: `StripIsWindow`) |
| `DownloadName.FileName` | pages/4_Aggregated_Point_Extraction.py:215-216 | the derived name contains no `/` and is no longer than the id (full shape: `FileNameShape`) |
| `DownloadName.SelectedFileName` | pages/4_Aggregated_Point_Extraction.py:210-216 | after `str(geedata)`, an empty select box (value `None`) gives the file name `"None"`, and a selected id gives the name derived from it |
| `DownloadName.StripIsWindow` | pages/4_Aggregated_Point_Extraction.py:215 | `strip()` returns a contiguous window of the input with non-space ends, and everything outside the window is whitespace |
| `DownloadName.StripTrimmed` | pages/4_Aggregated_Point_Extraction.py:215 | a string without surrounding whitespace is unchanged by `strip()` |
| `DownloadName.StripIdempotent` | pages/4_Aggregated_Point_Extraction.py:215 | stripping twice equals stripping once |
| `DownloadName.Replace` | pages/4_Aggregated_Point_Extraction.py:216 | the replacement keeps the length and substitutes the replacement exactly at the positions of the target character |
| `DownloadName.ReplaceAbsent` | pages/4_Aggregated_Point_Extraction.py:216 | replacing a character that does not occur leaves the string unchanged |
| `DownloadName.FileNameFixed` | pages/4_Aggregated_Point_Extraction.py:215-216 | an id with no surrounding whitespace and no `/` is its own file name |
| `DownloadName.FileNameShape` | pages/4_Aggregated_Point_Extraction.py:214-216 | the file name contains no `/`, is as long as the stripped id, and keeps every non-`/` character of the stripped id in place, with `_` where each `/` was |
| `DownloadName.FileNameIdempotent` | pages/4_Aggregated_Point_Extraction.py:214-216 | deriving the file name from a derived file name gives that name again |

## Findings

| source | as written | input that shows it | evidently intended | confidence | as-written member | corrected member |
|---|---|---|---|---|---|---|
| pages/4_Aggregated_Point_Extraction.py:119-142 | both dates are converted with `str()`, and only afterwards tested with `start_date is None and end_date is None`, so the test is never true and `filterDate` is never applied; the test is also inverted, so even without the `str()` calls `filterDate` would run only when no dates are given, with `None` arguments | a catalog with one `image_collection` item `C`, and the dates 2020-01-01 and 2020-12-31: the collection is reduced over its full time range | apply `filterDate(start, end)` when the user has given the dates (the comment "If date filters are provided, apply them" and the docstring's "Optionally filters by start and end date") | high that the filter is never applied; medium on the exact intended guard (both dates given); not executed | `DatasetDispatch.DatesIgnoredExample` | `DatasetDispatch.CorrectedFiltersGivenDates` |

The corrected guard is modelled as `DatasetDispatch.ChooseLoaderCorrected`. It
fixes both faults: it tests the dates before any conversion, and it filters when
they are given rather than when they are missing. It takes the same branch as
the code as written (`CorrectedSameBranch`).

## Left out

- ColumnMatch.Lower: models Python's `str.lower` on the ASCII letters only. Unicode case mappings are not modelled: non-ASCII capitals, and characters that lowercase to several characters.
- ColumnMatch.FindColumn: column labels are strings. pandas also allows non-string labels, and `c.lower()` would then raise an AttributeError; this is not modelled.
- ColumnMatch.Rename: models the rename of the column labels only, not of the data frame's values. Reading the CSV (line 232) and building the GeoDataFrame (lines 58-73) are library I/O.
- DatasetDispatch.ChooseLoader: models only which branch is taken and whether `filterDate` runs. The `ee.Image`, `ee.ImageCollection` and `ee.FeatureCollection` constructors, `getInfo`, `median` and `reduceToImage` (lines 124-146) are calls into a remote service, and so are the errors they raise.
- DatasetDispatch.MatchingTypes: catalog ids and types are strings. A non-string `type` would make `' '.join` raise a TypeError; this is not modelled.
- The HTTP fetches of the catalog (lines 112-115 and 203-206) are network I/O. The catalog is a parameter of the model instead.
- Earth Engine authentication and initialisation (lines 25-42) use secrets, JSON parsing of credentials and a foreign API.
- `get_coordinate_data` (lines 45-96) is not modelled: point extraction through `geemap`, the pandas `groupby(...).mean()` aggregation over floating-point values, and the DataFrame calls on the Earth Engine result at lines 92-94. All of it is library or remote code.
- CSV encoding in `convert_df` (lines 153-155) is library I/O.
- The Streamlit widgets, the layout, and the `if not geedata` and upload checks (lines 158-277) are UI flow. `Home.py` and `pages/Tutorial.py` hold only static page content.
- The disk-sampling obfuscation of the buffer-and-sample page (`create_obfuscated_points`, `obfuscate_points` and `random_points_in_polygon` in `pages/3_🪟_Buffer_and_Sample.py`) is not part of this model. It is floating-point geometry over pyproj and shapely, driven by random draws.
