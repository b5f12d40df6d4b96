# Ticket treemap: record normalisation and labelling

The repository has two scripts that turn a semicolon-separated ticket export into a treemap:
generate_treemap.py and create_treemap.py. Each row of the export has up to four hierarchy
levels ("Level 1" … "Level 4") and a ticket count. This project models what both scripts do
between loading the table and handing the rows to the charting library. That covers:

- Choosing and repairing columns. generate_treemap.py picks the value column by a heuristic and
  adds missing level columns. A value column named like a column the script writes later
  (`display_text`, `hover_text`, `value_col_name`) is overwritten by text as soon as some row is
  kept, and the run then fails; when no row is kept, nothing is overwritten and the chart has no
  nodes. create_treemap.py has a fixed value column.
- Cleaning. Level cells are trimmed, and sentinel strings become absent levels (as current
  pandas releases implement `replace(..., None)`; see "Left out"). Value cells are
  parsed, and only positive integers are kept.
- Grouping. The rows are grouped by their level tuple with `dropna=False` and the values are
  summed. Then absent levels are filled with `''`.
- Labelling. generate_treemap.py labels a row with its last non-empty level and computes a
  `hover_text` of all non-empty levels joined by " > ". create_treemap.py follows the levels only up to the first
  empty one, for both its path tuple and its label.
- Shares. Each share is the row's value over the total, with each script's zero-total guard.

The tree itself (parents, their sums, the percentages Plotly shows) is built by the charting
library. The scripts do not build it, so the model does not either.

Module layout:

| module | file | contents |
|---|---|---|
| `Wrappers` | wrappers.dfy | `Option` and `Result` |
| `Seqs` | seqs.dfy | subsequences and filtering |
| `Text` | text.dfy | `str.strip`, whitespace, lower-casing, substring search, `" > ".join`, integer parsing |
| `Frame` | frame.dfy | the loaded table, raw cells (text, NaN, `None`), column lookup, adding `None` columns |
| `Schema` | schema.dfy | value-column selection and the missing-column rules of generate_treemap.py |
| `Aggregation` | aggregation.dfy | `groupby(...).sum()`, totals, `fillna('')` |
| `Cleaning` | cleaning.dfy | both scripts' cell cleaning and the positive-value filter |
| `Grouping` | grouping.dfy | the grouped rows stated against the input rows |
| `Labels` | labels.dfy | path tuple, both labels, hover path and how they relate |
| `Percent` | percent.dfy | both percentage guards |
| `GenerateTreemap` | generate.dfy | generate_treemap.py's pipeline and its end-to-end properties |
| `CreateTreemap` | create.dfy | create_treemap.py's pipeline and its end-to-end properties |

The model follows what the two scripts do:

- Neither script builds a tree or rewrites paths.
- Neither stops when cleaning leaves no row; the model then produces a chart without nodes.
- Neither requires absent levels to form a suffix (once a level is absent, all deeper levels
  are). The two labelling rules agree on rows where they do
  (`Labels.LabelsAgreeOnContiguousRows`) and can differ on rows where they do not
  (`Labels.LabelsDisagreeAcrossGap`).

## Model

| member | source | states |
|---|---|---|
| Text.Strip | generate_treemap.py:31 | `str.strip()`: the result is no longer than the input and neither starts nor ends with whitespace |
| Text.StripMeaning | generate_treemap.py:31 | the stripped text is a slice of the input with only whitespace before and after it |
| Text.StripPadded | generate_treemap.py:31 | whitespace around a text that neither starts nor ends with whitespace is exactly what `str.strip()` removes |
| Text.StripIdempotent | create_treemap.py:37 | stripping twice is stripping once |
| Text.Contains | generate_treemap.py:107 | `needle in hay` holds exactly when the needle occurs at some position |
| Text.JoinPath | generate_treemap.py:66 | `" > ".join`: its length is the parts' length plus one separator between neighbours, and it starts with the first part and ends with the last |
| Text.JoinPathSnoc | generate_treemap.py:66 | joining one more part appends exactly one " > " and that part, so the parts appear in order with one separator between neighbours |
| Text.JoinPathThree | generate_treemap.py:66 | three parts join to the first, " > ", the second, " > ", the third |
| Text.ParseInt | generate_treemap.py:24 | the integer part of `to_numeric(errors='coerce')`: a number exactly for an optionally signed digit string; its sign follows the leading sign |
| Text.ParseDecimal | generate_treemap.py:24 | parsing inverts decimal rendering, with and without a minus sign |
| Frame.IndexOf | generate_treemap.py:116-117 | column lookup: found exactly when the name is a header, at its first occurrence |
| Frame.IndexOfAppend | generate_treemap.py:126-127 | appending columns does not move an existing column |
| Frame.IndexOfAfter | generate_treemap.py:126-127 | a column that was added is found after the original headers |
| Frame.AddNoneColumns | generate_treemap.py:126-136 | `df[col] = None` for each name: the header gets the names appended, every row keeps its cells and gets `None` cells for the new columns |
| Schema.FirstWithKeyword | generate_treemap.py:107-109 | the first header containing one of the keywords, or none exactly when no header contains one |
| Schema.SelectValueColumn | generate_treemap.py:98-113 | the last header when it is no level and does not mention "contact root cause" in any case; otherwise the first keyword header; a failure exactly when there is none |
| Schema.HierarchyHasNoKeyword | generate_treemap.py:107 | no level column name contains a keyword |
| Schema.ValueColumnIsHeader | generate_treemap.py:98-113 | the selected value column is a header and never a level column |
| Schema.MissingFromMeaning | generate_treemap.py:116-117 | exactly the required names that are not headers are missing, in their order |
| Schema.MissingFromAppend | generate_treemap.py:116-121 | the missing names of levels plus the value column are the missing levels followed by the missing value column |
| Schema.ResolveColumns | generate_treemap.py:115-136 | succeeds exactly when the value column is a header; the error names the value column; on success every level column exists and only the missing levels are appended, as `None` columns |
| Schema.SelectedColumnResolves | generate_treemap.py:129-131 | once a value column is selected, the missing-value-column exit cannot be taken |
| Cleaning.GenerateCleanCell | generate_treemap.py:29-31 | `clean_hierarchy_column` per cell: absent exactly when the stripped text is "", "nan" or "None"; otherwise that stripped text, never empty |
| Cleaning.CreateCleanCell | create_treemap.py:37-40 | create's level cleaning per cell: absent exactly when the stripped text is "" or "nan"; otherwise that stripped text, never empty |
| Cleaning.CleanCellMeaning | generate_treemap.py:29-31 | a cleaned cell is absent exactly when its stripped text is a sentinel; otherwise it is that stripped text: non-empty, not a sentinel, without surrounding whitespace |
| Cleaning.GenerateCleanIdempotent | generate_treemap.py:29-31 | cleaning a cleaned level column again changes nothing |
| Cleaning.GenerateCleansNoneObject | generate_treemap.py:155-157 | a level column added as `None` cleans to absent levels |
| Cleaning.CreateCleansMissing | create_treemap.py:37-40 | a NaN cell (an empty field or a default NA token) becomes an absent level |
| Cleaning.CreateKeepsNoneObject | create_treemap.py:37-40 | a `None` cell becomes the text "None", because "None" is not one of this script's sentinels |
| Cleaning.CreateCleanNotIdempotent | create_treemap.py:37-44 | create's level cleaning is not idempotent: an absent level cleaned again becomes "None" |
| Cleaning.CleanersDiffer | create_treemap.py:40 | the two level cleanings disagree exactly on cells whose stripped text is "None" |
| Cleaning.CleanedNotEmptyText | generate_treemap.py:31 | no cleaned level is the empty string |
| Cleaning.GenerateParseValue | generate_treemap.py:20-24 | a value cell is a number exactly when, with every whitespace character removed, it is an optionally signed digit string |
| Cleaning.CreateParseValue | create_treemap.py:19-23 | a value cell is a number exactly when, stripped and with its spaces removed, it is an optionally signed digit string |
| Cleaning.GenerateReadsDecimal | generate_treemap.py:20-24 | a rendered number with any whitespace around it is read back as that number |
| Cleaning.CreateReadsDecimal | create_treemap.py:19-23 | a rendered number with any whitespace around it is read back as that number |
| Cleaning.CreateValueAcceptedByGenerate | create_treemap.py:19-23 | every value create accepts, generate accepts with the same number |
| Cleaning.TabSeparatorOnlyGenerate | generate_treemap.py:23-24 | the converse fails: "1\t000" is 1000 for generate and rejected by create |
| Cleaning.KeptIndices | generate_treemap.py:24-26 | the kept positions, increasing, are exactly those whose value parsed to a positive integer |
| Cleaning.KeepPositive | generate_treemap.py:150-152 | the kept records have values of at least 1 summing to the total of the positive values |
| Cleaning.KeepPositiveSelects | generate_treemap.py:150-152 | the k-th record has the levels and the value of the k-th kept position |
| Cleaning.KeptRecordsFrom | generate_treemap.py:150-152 | each record carries the levels of a kept position |
| Cleaning.KeptRecordsCover | generate_treemap.py:150-152 | the levels of every kept position are carried by a record |
| Cleaning.KeepPositiveKeys | generate_treemap.py:150-157 | records keep the width of the level tuples and have positive values and no `''` level |
| Aggregation.Insert | generate_treemap.py:168 | adding a record keeps keys distinct, adds its key, and adds its value to its key's total and to the grand total |
| Aggregation.Aggregate | generate_treemap.py:168 | `groupby(...).sum()`: distinct keys, exactly the keys of the records, each key's total the sum of its records, the grand total conserved |
| Aggregation.GroupTotalIsSumOfItsRecords | generate_treemap.py:168 | each group's total is the sum of exactly the records with its key |
| Aggregation.GroupsPositive | generate_treemap.py:168 | positive values give positive group totals |
| Aggregation.GroupBelowTotal | generate_treemap.py:177 | no group exceeds the grand total |
| Aggregation.Fill | generate_treemap.py:172-174 | `fillna('')` gives one row per group with the group's total, whose levels read back as the group's key when no present level is `''` |
| Aggregation.FillRoundTrip | generate_treemap.py:172-174 | on cleaned keys `fillna('')` loses nothing: reading `''` as absent restores the key |
| Aggregation.FillKeepsDistinct | generate_treemap.py:172-174 | filled rows of distinct cleaned keys spell distinct level tuples |
| Aggregation.FillKeepsTotal | generate_treemap.py:174-177 | filling keeps the grand total |
| Aggregation.GroupedRowsSum | generate_treemap.py:168-177 | the filled rows keep the grand total, and each row's value is positive, at most the total, and the sum of the records with its levels |
| Aggregation.GroupedRowsDistinct | generate_treemap.py:168-174 | the filled rows spell pairwise distinct level tuples |
| Aggregation.GroupedRowsFromRecords | generate_treemap.py:168-174 | every filled row spells the filled key of some record |
| Aggregation.RecordsGrouped | generate_treemap.py:168-174 | every record's filled key is spelled by a row |
| Grouping.GroupKept | generate_treemap.py:150-174 | there are grouped rows exactly when some row's value parses to a positive integer |
| Grouping.GroupedFromKept | create_treemap.py:51-56 | every grouped row spells the levels of some input row whose value is a positive integer |
| Grouping.KeptGrouped | create_treemap.py:51-56 | the levels of every such input row are spelled by a grouped row |
| Grouping.GroupedShape | create_treemap.py:51-56 | the grouped rows are distinct and have the width of the input tuples |
| Grouping.GroupedTotals | create_treemap.py:51-76 | the grouped total is the sum of the positive values; each row is a positive part of it and the sum of the kept rows with its levels |
| Labels.PathPrefix | create_treemap.py:62-67 | the levels before the first `''`: a prefix without `''` that ends at the end or at a `''` |
| Labels.PathPrefixUnique | create_treemap.py:62-67 | that prefix is the only one with those properties |
| Labels.PathTuple | create_treemap.py:61-69 | `get_path_tuple`: `None` exactly when the first level is empty, otherwise the non-empty prefix |
| Labels.CreateLabel | create_treemap.py:79-88 | "Root" when the first level is empty, otherwise the level where the prefix ends |
| Labels.LastNonEmpty | generate_treemap.py:33-38 | "Root" when every level is empty, otherwise the deepest non-empty level |
| Labels.LastNonEmptyIsLastLevel | generate_treemap.py:33-38 | generate's label is the last of the non-empty levels |
| Labels.PrefixOfNonEmpty | generate_treemap.py:65 | create's prefix begins generate's path; they are equal on contiguous rows and the prefix is shorter otherwise |
| Labels.NonEmptyIsPrefixIffContiguous | create_treemap.py:61-69 | generate's path equals create's prefix exactly when the absent levels form a suffix |
| Labels.LabelsAgreeOnContiguousRows | create_treemap.py:81-88 | on rows whose absent levels form a suffix, both scripts show the same label |
| Labels.LabelsDisagreeAcrossGap | create_treemap.py:83-88 | on ("A", "", "C", "") create shows "A" and generate shows "C" |
| Labels.HoverPath | generate_treemap.py:65-66 | the hover path is "Root" when no level is present; otherwise it starts with the shallowest present level and ends with the label `LastNonEmpty` gives the row |
| Labels.HoverPathIsRoot | generate_treemap.py:65-66 | the hover path is "Root" exactly when no level is present or the only present level is itself named "Root" |
| Labels.HoverRootCollision | generate_treemap.py:65-66 | a level named "Root" collides with the root label: ("Root", "", "", "") gets the same computed `hover_text` path as a row without levels |
| Labels.HoverPathIsJoinedTuple | generate_treemap.py:65-66 | on contiguous rows the hover path is create's path tuple joined with " > ", or "Root" |
| Percent.FormatPercentage | generate_treemap.py:47-54 | the zero share exactly when the total is missing or zero, otherwise the value over the total |
| Percent.CreatePercentage | create_treemap.py:91 | the zero share exactly when the total is zero, otherwise the value over the total |
| Percent.GuardsAgree | create_treemap.py:91 | with a known total both guards give the same share |
| GenerateTreemap.Run | generate_treemap.py:92-212 | a table without headers or without rows (`df_raw.empty`) fails as an empty file; otherwise the run succeeds exactly when a value column can be selected and, if it is one of the columns the script writes later, no row is kept; it fails for lack of a value column, or names the overwritten column; the chart's value column is that header, never a level column, and a written-name column gives a chart without nodes |
| GenerateTreemap.DisplayTextChosen | generate_treemap.py:98-113 | a header whose last name is "display_text" has that column selected as the value column |
| GenerateTreemap.DisplayTextValueColumnFails | generate_treemap.py:181-207 | a non-empty file whose last header is "display_text" and in which some row is kept fails: that column is chosen as the value column and then overwritten by the display text |
| GenerateTreemap.DisplayTextValueColumnWithoutRows | generate_treemap.py:150-207 | with header ("Level 1", "display_text") and the single value "0", no row is kept, nothing is overwritten and the run gives a chart without nodes |
| GenerateTreemap.RepairedLevel | generate_treemap.py:126-157 | each cleaned level of the repaired table is the cleaned input cell, or absent when the column was missing |
| GenerateTreemap.RepairIsTransparent | generate_treemap.py:123-157 | repairing columns changes neither the parsed values nor the level tuples of the input rows |
| GenerateTreemap.RunIsRawChart | generate_treemap.py:115-177 | the chart is computed from the input rows' own level tuples and values |
| GenerateTreemap.RunKeepsTotal | generate_treemap.py:150-177 | the total is the sum of the positive parsed values, and the node values add up to it |
| GenerateTreemap.Describe | generate_treemap.py:181-189 | one node per grouped row, with that row's levels and value; `DescribedLabels` and `DescribedValues` state its labels and shares |
| GenerateTreemap.DescribedValues | generate_treemap.py:176-189 | every described node is valued: a positive part of the total, the sum of its kept records, its share the ratio of value to total |
| GenerateTreemap.RunNodeValues | generate_treemap.py:168-189 | every node of a run is valued in that sense |
| GenerateTreemap.DescribedRows | generate_treemap.py:176-189 | the rows handed to the charting library are exactly the grouped rows: labelling adds columns and changes no level or value |
| GenerateTreemap.RunNodeLevels | generate_treemap.py:150-174 | the nodes of a run are exactly the distinct level tuples of the rows with a positive value |
| GenerateTreemap.DescribedLabels | generate_treemap.py:181-189 | every described node is labelled by its last non-empty level, and its computed `hover_text` path is its joined non-empty levels, or "Root" for both |
| GenerateTreemap.RunNodeLabels | generate_treemap.py:181-189 | every node of a run has four levels and is labelled in that way |
| CreateTreemap.Run | create_treemap.py:12-97 | succeeds exactly when "Total Tickets Q1" is a header; no header is an empty file; otherwise the missing column is named |
| CreateTreemap.Describe | create_treemap.py:61-94 | one node per grouped row, with that row's levels and value; `RunNodeLabels` and `DescribedValues` state its path tuple, label and share |
| CreateTreemap.DescribedRows | create_treemap.py:61-97 | the rows handed to the charting library are exactly the grouped rows: labelling adds columns and changes no level or value |
| CreateTreemap.RunKeepsTotal | create_treemap.py:19-76 | the total is the sum of the positive parsed values, and the node values add up to it |
| CreateTreemap.DescribedValues | create_treemap.py:76-91 | every described node is a positive part of the total with the ratio share; the total is zero exactly when there is no row |
| CreateTreemap.RunNodeValues | create_treemap.py:76-91 | every node of a run is valued, and the zero-total guard fires only when there is no node |
| CreateTreemap.RunNodeLevels | create_treemap.py:24-56 | the nodes are exactly the distinct level tuples of the rows with a positive value |
| CreateTreemap.RunNodeLabels | create_treemap.py:61-88 | every node has four levels; its path tuple is its non-empty prefix, or `None` when the first level is empty; its label is the path's last step, or "Root" |
| CreateTreemap.NodeLabelsMatchGenerate | create_treemap.py:79-88 | on contiguous rows this script's label is generate's label, and its joined path tuple is generate's hover path |
| CreateTreemap.SameValueColumnWhenLast | create_treemap.py:19 | when "Total Tickets Q1" is the last header, generate_treemap.py selects the same column |

## Left out

- Reading the CSV, printing, the debug dumps, the chart title and layout, and writing the HTML
  file are I/O. The table is a parameter: a header and rows of cells.
- The treemap (parents, their sums, Plotly's `percentRoot`) is built by the charting library,
  not by the scripts.
- Number formatting (`format_value`, `"{:.2f}%"`, `"{:,.0f}"` with its comma grouping) is float
  formatting,
  so a share is kept as the pair (value, total). The `"N/A"` branch of `format_percentage`
  catches errors that cannot occur with integer values.
- Text.ParseInt: models `pd.to_numeric` only on optionally signed decimal integers. Decimals,
  exponents, "inf" and "nan" become absent rather than floats, and create's `astype(int)`
  truncation therefore never applies.
- Lower-casing for the "contact root cause" test maps ASCII letters only; Python's Unicode case
  mapping is not modelled.
- Aggregation.Aggregate: groups appear in first-appearance order, not in the sorted order of
  `groupby`. Every property stated about the grouped rows is independent of their order.
- create_treemap.py reads without `dtype=str`, so pandas may infer number columns. The model
  treats every cell as text, NaN or `None`.
- The exception handlers (`FileNotFoundError`, `EmptyDataError`, `KeyError`, any other
  exception) are not modelled as such. Their outcomes become the `Fault` values of each `Run`.
- generate_treemap.py's check that the input file exists is file-system I/O.
- Cleaning.KeepPositive: values and their sums are unbounded naturals. The scripts hold them as
  pandas numbers. generate_treemap.py's value column becomes float64 as soon as one cell fails to
  parse, so its sums are exact only up to 2^53. create_treemap.py casts to int64, so its group
  sums and the grand total wrap silently beyond 2^63 - 1. The model's properties describe the
  scripts only while the totals stay within these ranges.
- Cleaning.GenerateCleanCell: assumes `replace([...], None)` replaces the sentinels with `None`,
  as current pandas releases do. Older releases read an explicit `value=None` as a
  request to fill from the previous row. Under those releases a sentinel cell takes the level of
  the row above instead of becoming absent.
- generate_treemap.py's `hover_text` is computed but not shown: the chart's hovertemplate uses
  the charting library's node id, and `hover_text` reaches only the debug dump. The model states
  what the script computes.
- `read_csv` turns its default NA tokens ("NA", "NULL", "N/A", "nan" and, in recent pandas,
  "None") into NaN. The model reads only an empty field as NaN (`Missing`), so a field that is
  exactly one of these tokens is absent before cleaning runs. In particular, a field reading
  exactly "None" is absent in both scripts. `Cleaning.CleanersDiffer` therefore shows a
  difference at the file level only for such text followed by whitespace (leading spaces are
  skipped before the NA test), or for the `None` object.
