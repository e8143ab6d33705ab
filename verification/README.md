# audit-report: a Dafny model of the report's decision and aggregation logic

The audit report is a React application. It renders an application's audit
data: backups, incidents, findings, pipelines, users and configurable
"views" made of panels. Under the rendering sits a small set of pure
functions that decide what is shown. This project models those functions
and proves what they promise:

- **Gauge evaluation.** Thresholds are sorted by value and scanned for the
  band that holds the value. The percentage is clamped to [0, 100]. The
  label falls back from `health` to `type` to "Value".
- **Panel classification and pie data.** Panels are filtered by their
  `type`. Each pie slice is labelled by the first key that is not `count`.
  Each cell takes an explicit per-label colour, or else a palette colour
  chosen by index modulo the palette length.
- **The older view** (`View.tsx`). A Fisher–Yates shuffle of the palette,
  with `Math.random` given as a sequence of draws. Number cards are built
  from every number summary's rows.
- **The sortable table** (`DataTable.tsx`). The three-state sort request,
  the stable comparator sort, the sort indicator, column widths and the
  empty-data row.
- **The schema-driven table** (`DynamicDataTable.tsx`). Positional rows
  become `col_<i>` records. Cells are rendered by semantic type.
- **The backup calendar heatmap.** Backups are tallied per day, and each
  day gets one of four fill classes.
- **The status badge.** A case-insensitive colour lookup with a grey
  default, and a label with its first letter upper-cased.
- **The applications and findings sections.**
  - The hours-to-`"Xd Yh"` label.
  - The email-suffix authentication lookup.
  - The open/resolved incident split and the incident statistics.
  - The backup success count.
  - The pipeline status summary and the `"Mm Ss"` duration sum.
  - Group-by counts, sector fills, status classes and type icons.

Modelling conventions:

- **JavaScript values** are `Values.JsValue`: null, undefined, booleans,
  numbers as exact reals, and strings.
- **Rows** are sequences of (key, value) pairs in `Object.keys` order. This
  order is an assumption: JavaScript puts integer-like keys first, and the
  model does not.
- **Runtime conversions the code delegates to** the JavaScript engine and
  date-fns (`String(n)`, `toLocaleString`, `formatDate`, `formatDuration`,
  `Number(s)`) are fields of `Values.Formatters`. Every operation that
  needs one takes them as a parameter and does not interpret them.
- **Clocks** (`differenceInHours`) are parameters too.
- **Case mapping** is ASCII only.
- **`parseInt` without a radix** follows section 19.2.5 of ECMA-262: it
  skips leading white space and line terminators, reads an optional sign,
  reads a `0x`/`0X` numeral in base 16 and anything else in base 10, and
  stops at the first character that is not a digit of that base.

Modules follow the source files:

| module | file |
|---|---|
| `Values`, `Text`, `Collections`, `Sorting` | shared JavaScript semantics: values, strings, `filter`/`groupBy`, `Array.prototype.sort` |
| `Gauge`, `Panels` | `View/View.tsx` and the shared parts of `View.tsx` |
| `Shuffle` | `View.tsx` |
| `DataTable` | `DataTable.tsx` |
| `DynamicTable` | `DynamicDataTable.tsx` |
| `Heatmap` | `BackupCalendarHeatmap.tsx` |
| `StatusBadge` | `StatusBadge.tsx` |
| `Applications` | `ApplicationsSection.tsx` |
| `Findings` | `sections/FindingsSection.tsx` |

## Model

| member | source | states |
|---|---|---|
| Gauge.SortByValue | src/components/View/View.tsx:79 | the sorted copy is a permutation of the thresholds, in ascending value order |
| Gauge.EqualValuesKeepOrder | src/components/View/View.tsx:79 | thresholds with equal values keep their input order (the sort is stable) |
| Gauge.GaugeColor | src/components/View/View.tsx:74-97 | no thresholds gives "#10b981" |
| Gauge.BandColor | src/components/View/View.tsx:82-93 | when sorted threshold `b` is at or below the value and it is the last one or the next is above the value, the colour is threshold `b`'s |
| Gauge.BelowAllThresholds | src/components/View/View.tsx:96 | a value below every threshold gets the lowest threshold's colour, or "#10b981" when that colour is empty |
| Gauge.AtOrAboveSomeThreshold | src/components/View/View.tsx:82-93 | a value at or above some threshold lies in exactly the band the scan returns |
| Gauge.OrderIndependent | src/components/View/View.tsx:79 | with distinct threshold values, any reordering of the thresholds gives the same colour |
| Gauge.Percentage | src/components/View/View.tsx:108-109 | the percentage is in [0, 100]: 0 at or below min, 100 at or above max, and proportional to the value in between |
| Gauge.PercentageMonotone | src/components/View/View.tsx:108-109 | a larger value never gets a smaller percentage |
| Gauge.GaugeValue | src/components/View/View.tsx:107 | a falsy value counts as 0 and a number is kept |
| Gauge.GaugeLabel | src/components/View/View.tsx:121 | the label is a truthy `health`, else a truthy `type`, else "Value" |
| Gauge.GenerateGaugeData | src/components/View/View.tsx:99-123 | the percent is the clamped proportion of the value between min and max (Gauge.Percentage), so in [0, 100]; original value, min and max copied, the label, and a colour that is the default without thresholds and the threshold colour with them |
| Panels.Classify | src/components/View/View.tsx:126-133 | each group holds only panels of its type, and missing panels give four empty groups |
| Panels.ClassifyPartition | src/components/View/View.tsx:126-133 | each panel of a known type appears in its group as often as in the input, and other types appear in no group |
| Panels.ClassifyMembership | src/components/View/View.tsx:126-133 | a panel is in a group exactly when it is in the input with that type |
| Panels.ClassifyConcat | src/components/View/View.tsx:126-133 | classification is a stable filter: classifying a concatenation concatenates the groups |
| Panels.ClassifySummaries | src/components/View.tsx:85-88 | the older view keeps only the piechart and number groups, as stable filters |
| Panels.PieChartData | src/components/View/View.tsx:43-54 | same length and order; each name is the first non-`count` key's value and each value is `count` |
| Panels.PieChartDataConcat | src/components/View/View.tsx:43-54 | each row gives its slice on its own: the data of concatenated row lists is the concatenation of their data |
| Panels.PieSliceOfLabelledRow | src/components/View.tsx:52-64 | a row with a label key and `count` gives that label and that count |
| Panels.PanelPieData | src/components/View/View.tsx:210 | a panel without rows has no slices |
| Panels.ExplicitColor | src/components/View/View.tsx:241-242 | an explicit colour exists exactly when the panel's colour map has the label |
| Panels.PieCellColor | src/components/View/View.tsx:241-242 | the explicit colour when present, otherwise `COLOR_BANK[i % 20]` |
| Panels.PieCellColorPeriod | src/components/View/View.tsx:241-242 | palette colours repeat with period 20 |
| Panels.PaletteCellsDistinct | src/components/View/View.tsx:20-41 | cells fewer than 20 apart with no explicit colour get different colours |
| Panels.PanelCellColors | src/components/View/View.tsx:237-245 | one colour per slice, slice `i` coloured by `PieCellColor` with index `i` |
| Panels.NumberCards | src/components/View.tsx:97-120 | defined (no TypeError) exactly when every number summary has rows; then one card per row |
| Panels.NumberCardsSingle | src/components/View.tsx:99-103 | one summary's cards are its rows' cards: heading from the first non-`value` key, figure from `value` |
| Panels.AllCardsConcat | src/components/View.tsx:97-120 | cards of consecutive summaries are concatenated in order |
| Panels.NumberCardsConcat | src/components/View.tsx:97-120 | the cards of two summary lists are the concatenation, or a failure when either fails |
| Panels.GaugesOfRows | src/components/View/View.tsx:256-261 | one gauge per row, in order, each `generateGaugeData` of its row |
| Panels.PanelGauges | src/components/View/View.tsx:259 | a gauge panel without a gauge config or without rows contributes nothing |
| Panels.GaugeCards | src/components/View/View.tsx:256-261 | the cards exist exactly when every panel's gauges can be computed, and every card's percentage is in [0, 100] |
| Panels.GaugeCardsConcat | src/components/View/View.tsx:256-261 | the cards of consecutive panel lists are the first list's cards followed by the second's, and fail when either part fails |
| Panels.GaugeCardsSingle | src/components/View/View.tsx:256-261 | a single panel contributes exactly its own gauges |
| Panels.UnconfiguredGaugeSkipped | src/components/View/View.tsx:369 | a panel without a gauge config changes nothing in the gauge list |
| Shuffle.PickIndex | src/components/View.tsx:45 | `Math.floor(draw * (i + 1))` is an index in [0, i] |
| Shuffle.EveryIndexReachable | src/components/View.tsx:45 | every index in [0, i] is picked by some draw |
| Shuffle.Swap | src/components/View.tsx:46 | the two positions are exchanged, nothing else changes, and the multiset is kept |
| Shuffle.ShuffleArray | src/components/View.tsx:43-50 | the shuffle returns a permutation of its input of the same length, for any draws |
| Shuffle.PermutationKeepsDistinct | src/components/View.tsx:43-50 | a permutation of a palette without repeats has no repeats |
| Shuffle.ShuffledCellColor | src/components/View.tsx:156-163 | `shuffled[i % length]` is a colour of the shuffled palette |
| Shuffle.ShuffledCellColors | src/components/View.tsx:152-163 | with a shuffled palette, cell colours come from the palette and cells fewer than its length apart differ |
| Shuffle.PieCellColors | src/components/View.tsx:132-163 | one colour per slice, all from the palette; the colours repeat with the palette's length as period, and any palette-length run of consecutive cells gets different colours |
| Shuffle.LegacyPieChart | src/components/View.tsx:52-163 | a pie summary without `rows` throws; otherwise one slice per row, as `generatePieChartData` builds it, and one palette colour per slice, no two alike within 20 consecutive slices |
| DataTable.StrLessTransitive | src/components/DataTable.tsx:38-43 | `<` on strings is transitive |
| DataTable.StrLessTotal | src/components/DataTable.tsx:38-43 | `<` on strings orders any two different strings |
| DataTable.JsLessAsymmetric | src/components/DataTable.tsx:38-43 | `<` on two numbers or two strings is asymmetric |
| DataTable.JsNotLessTransitive | src/components/DataTable.tsx:38-43 | "not less than" is transitive on two numbers or two strings |
| DataTable.RequestSort | src/components/DataTable.tsx:22-30 | the next state sorts by the clicked key, descending exactly when the current state is (key, ascending) |
| DataTable.RequestSortToggles | src/components/DataTable.tsx:22-30 | clicking the same header again flips the direction, and a third click repeats the first |
| DataTable.Compare | src/components/DataTable.tsx:35-46 | the comparator returns -1, 0 or 1, and 0 exactly when neither key is less |
| DataTable.SortedData | src/components/DataTable.tsx:32-47 | no sort state returns the data itself; otherwise a permutation of it |
| DataTable.BeforeStrictWeakOrder | src/components/DataTable.tsx:35-46 | on a column of all numbers or all strings the comparator is a strict weak order |
| DataTable.SortedDataOrdered | src/components/DataTable.tsx:35-46 | the sorted rows are ordered by `<` on the key when ascending, and by its reverse when descending |
| DataTable.SortedDataStable | src/components/DataTable.tsx:35-46 | rows with equal keys keep their input order |
| DataTable.SortIndicator | src/components/DataTable.tsx:49-56 | an indicator only on the sorted column: up for ascending, down for descending |
| DataTable.IndicatorAfterClick | src/components/DataTable.tsx:22-56 | after a click only the clicked column shows an indicator |
| DataTable.ColumnWidth | src/components/DataTable.tsx:58-86 | `description` is full width; the date-like, `email`, name-like and short accessors each get their group's fixed class; anything else `w-36 min-w-[144px]` |
| DataTable.SameWidthSameGroup | src/components/DataTable.tsx:58-86 | two accessors get the same width exactly when they are in the same group |
| DataTable.UnlistedColumnWidth | src/components/DataTable.tsx:84-85 | an accessor in no list gets the default width |
| DataTable.RowCells | src/components/DataTable.tsx:113-121 | one cell per column: the column's `render` applied to the value under its accessor and to the row when the column has one, the raw value otherwise |
| DataTable.TableBody | src/components/DataTable.tsx:110-131 | empty data gives exactly one "No data available" row spanning every column; otherwise one row of (rendered) cells per data row |
| DynamicTable.AccessorInjective | src/components/DynamicDataTable.tsx:21 | different positions get different `col_<i>` accessors |
| DynamicTable.AdaptColumns | src/components/DynamicDataTable.tsx:19-23 | same number of columns; column `i` is headed by its name, reads `col_<i>`, and has a `render` that gives `renderCellValue` of the value with the column's type, whatever the row |
| DynamicTable.AdaptData | src/components/DynamicDataTable.tsx:26-32 | same number and order of rows, value `i` stored under `col_<i>` |
| DynamicTable.AdaptRowGet | src/components/DynamicDataTable.tsx:26-32 | reading `col_<i>` from an adapted row gives the row's value `i`, and `undefined` past its end |
| DynamicTable.AdaptedTableCell | src/components/DynamicDataTable.tsx:19-65 | the table built from the adapted columns and rows shows `renderCellValue(rows[r][c], cols[c])` in row `r`, column `c`, and of `undefined` past the end of a short row |
| DynamicTable.AdaptedCellText | src/components/DynamicDataTable.tsx:19-44 | every shown cell is text: "-" for a missing or nullish value, "Yes"/"No" by truthiness in a boolean column |
| DynamicTable.FindDateRun | src/components/DynamicDataTable.tsx:39 | finds the first `dddd-dd-dd` run at or after a position, or reports that there is none |
| DynamicTable.DateRunInside | src/components/DynamicDataTable.tsx:39 | the pattern is not anchored: a date run anywhere is found |
| DynamicTable.RenderCellValue | src/components/DynamicDataTable.tsx:34-65 | null and undefined give "-", a boolean column gives "Yes"/"No" by truthiness, and non-strings in date and number columns render as `String(value)` |
| DynamicTable.NullishDash | src/components/DynamicDataTable.tsx:35 | null or undefined renders "-" in every column type |
| DynamicTable.BooleanYesNo | src/components/DynamicDataTable.tsx:43-44 | a boolean column shows "Yes" exactly for truthy values, "No" otherwise |
| DynamicTable.OtherKindsAsString | src/components/DynamicDataTable.tsx:61-63 | other column types render as `String(value)` |
| DynamicTable.DatetimeStrings | src/components/DynamicDataTable.tsx:38-42 | a string with no date run is shown as it is; one with a run is formatted |
| DynamicTable.NonNumbersAsString | src/components/DynamicDataTable.tsx:45-60 | number and duration columns render non-numbers like string columns |
| DynamicTable.DurationNeverEmpty | src/components/DynamicDataTable.tsx:49-60 | a numeric duration never renders empty: an empty formatted duration becomes "0s" |
| Heatmap.DatePrefix | src/components/BackupCalendarHeatmap.tsx:29 | the day is the date's text before the first "T" (all of it when there is none) |
| Heatmap.ProcessIsGrouping | src/components/BackupCalendarHeatmap.tsx:25-48 | the single pass equals grouping backups by day and counting successes and failures per group |
| Heatmap.ProcessDistinct | src/components/BackupCalendarHeatmap.tsx:31-37 | one entry per distinct day |
| Heatmap.ProcessEntry | src/components/BackupCalendarHeatmap.tsx:39-44 | each entry counts the successful backups of its day, and successful plus failed is that day's backup count, at least 1 |
| Heatmap.ProcessCoverage | src/components/BackupCalendarHeatmap.tsx:31-37 | a day has an entry exactly when some backup has that day |
| Heatmap.ProcessTotal | src/components/BackupCalendarHeatmap.tsx:47 | the entries' totals add up to the number of backups |
| Heatmap.ClassForValue | src/components/BackupCalendarHeatmap.tsx:57-74 | no entry gives gray; all successful gives green; at least half gives orange; otherwise red |
| Heatmap.RateCutoffs | src/components/BackupCalendarHeatmap.tsx:65-72 | the rate comparisons agree with the integer comparisons of successes against the total |
| Heatmap.DayGray | src/components/BackupCalendarHeatmap.tsx:57-74 | a day is gray exactly when it has no backups |
| Heatmap.DayGreen | src/components/BackupCalendarHeatmap.tsx:40-66 | a day is green exactly when it has backups and every one of them is "Successful" or "Completed" |
| StatusBadge.ToneOf | src/components/StatusBadge.tsx:29-87 | the colour family of each listed status on the lower-cased text, and grey exactly for unlisted statuses |
| StatusBadge.GetStatusColor | src/components/StatusBadge.tsx:26-89 | the classes of the status's family; grey exactly when the lower-cased status is not listed |
| StatusBadge.StyleInjective | src/components/StatusBadge.tsx:26-89 | different families have different classes |
| StatusBadge.CaseInsensitive | src/components/StatusBadge.tsx:29 | statuses equal up to ASCII case get the same colours |
| StatusBadge.Capitalize | src/components/StatusBadge.tsx:98 | the first character is upper-cased and the rest is unchanged; empty stays empty |
| StatusBadge.CapitalizeKeepsColour | src/components/StatusBadge.tsx:98-106 | the label lower-cases like the status, so it would get the same colours |
| StatusBadge.CapitalizeIdempotent | src/components/StatusBadge.tsx:98 | capitalising twice is capitalising once |
| Collections.FilterOccurrences | src/components/View/View.tsx:126-133 | `filter` keeps every occurrence of a kept element and nothing else |
| Collections.FilterConcat | src/components/View/View.tsx:126-133 | `filter` is stable: it distributes over concatenation |
| Collections.GroupBySpec | src/components/ApplicationsSection.tsx:83 | `groupBy` gives one group per distinct key, each holding exactly that key's elements in order, and all elements once |
| Collections.GroupCounts | src/components/ApplicationsSection.tsx:95-98 | the per-key counts add up to the number of elements |
| Collections.GroupCountsSpec | src/components/ApplicationsSection.tsx:95-98 | one entry per distinct key, each counting exactly the elements with that key |
| Collections.CountIsFilterLength | src/components/ApplicationsSection.tsx:67 | counting the elements that satisfy a predicate equals the length of their `filter` |
| Text.ParseIntOfIntToString | src/components/ApplicationsSection.tsx:663 | `parseInt` reads back a rendered integer when the text after it does not extend the numeral: no digit, and no `x`/`X` after a lone `0` |
| Text.ParseIntHex | src/components/ApplicationsSection.tsx:663 | without a radix, `parseInt` reads `0x` followed by hex digits as a base-16 number, stopping at the first non-hex character |
| Text.ParseIntSkipsWhiteSpace | src/components/ApplicationsSection.tsx:663 | any run of ECMAScript white space before the text leaves `parseInt`'s result unchanged |
| Text.ParseIntRadixAndTab | src/components/ApplicationsSection.tsx:663 | `parseInt("0x1f")` is 31 and `parseInt("\t5")` is 5 |
| Text.NatToStringInjective | src/components/ApplicationsSection.tsx:123-127 | different numbers render differently |
| Applications.DurationLabel | src/components/ApplicationsSection.tsx:117-128 | "<hours>h" below 24; otherwise "<d>d <r>h" with 24*d + r equal to the hours and r below 24 |
| Applications.DurationLabelParts | src/components/ApplicationsSection.tsx:125-127 | from a day on, d is the integer quotient by 24 and r the remainder |
| Applications.DurationLabelReadBack | src/components/ApplicationsSection.tsx:117-128 | reading a label back gives the hours, so different hour counts get different labels |
| Applications.FindAuth | src/components/ApplicationsSection.tsx:163-165 | `find` returns the first authentication whose domain ends the email, or none |
| Applications.AuthType | src/components/ApplicationsSection.tsx:162-167 | the upper-cased type of the first matching authentication, "N/A" when none matches |
| Applications.MissingDomainMatchesAll | src/components/ApplicationsSection.tsx:164 | an authentication without a domain matches every email |
| Applications.AuthTypeFirstMatchWins | src/components/ApplicationsSection.tsx:163-166 | authentications after a matching one never change the result |
| Applications.OpenIncidents | src/components/ApplicationsSection.tsx:82 | the open incidents are exactly those without a truthy `resolvedDate` |
| Applications.ResolvedIncidents | src/components/ApplicationsSection.tsx:85-86 | the resolved incidents are exactly those with a truthy `resolvedDate` |
| Applications.OpenResolvedPartition | src/components/ApplicationsSection.tsx:82-89 | open and resolved incidents together hold each incident exactly as often as the input, so their counts add up |
| Applications.ResolutionTimes | src/components/ApplicationsSection.tsx:85-89 | one time per resolved incident, in order: the hours from its date to its resolution |
| Applications.Average | src/components/ApplicationsSection.tsx:91-93 | 0 when nothing is resolved; otherwise the average times the count is the sum |
| Applications.AverageBounds | src/components/ApplicationsSection.tsx:91-93 | the average lies between the shortest and the longest resolution time |
| Applications.CalculateIncidentStats | src/components/ApplicationsSection.tsx:81-105 | open incidents grouped plus resolved equals all incidents; the average resolution time is the mean of the resolved incidents' times (Applications.Average: times their number it is their sum), 0 when none is resolved; by-type counts add up to the incident count |
| Applications.IncidentStatsGroups | src/components/ApplicationsSection.tsx:83-98 | open incidents are grouped by severity exactly; by-type names each severity once and counts its incidents |
| Applications.IncidentFills | src/components/ApplicationsSection.tsx:534-539 | each incident sector is coloured by its own severity's declared colour |
| Applications.BackupSuccessCount | src/components/ApplicationsSection.tsx:67 | the count is the length of the backups filtered on status exactly "successful"; 0 when none is, all when all are |
| Applications.SuccessSpellingsDisagree | src/components/ApplicationsSection.tsx:67 | "Successful" counts on the heatmap and not here, "successful" the other way round |
| Applications.SuccessSpellingsExclusive | src/components/ApplicationsSection.tsx:67 | for any backups, the statistics' success count (exact "successful") plus the heatmap's (src/components/BackupCalendarHeatmap.tsx:40) is at most the number of backups: no status is a success in both |
| Applications.PipelineStatusClass | src/components/ApplicationsSection.tsx:20-25 | a class exists exactly for success, failed, running and cancelled |
| Applications.PipelineStatusCounts | src/components/ApplicationsSection.tsx:634-641 | the status counts add up to the number of pipelines |
| Applications.IndexOf | src/components/ApplicationsSection.tsx:662 | the first occurrence of the separator at or after a position, or none |
| Applications.ReplaceFirst | src/components/ApplicationsSection.tsx:663 | without the character the text is unchanged; with it, one character shorter |
| Applications.ReplaceFirstAt | src/components/ApplicationsSection.tsx:663 | `replace('s', '')` drops the first "s" and only it |
| Applications.SplitMinSec | src/components/ApplicationsSection.tsx:662 | `min` is the text before the first "m "; `sec` runs to the next "m " or the end, and is undefined without a separator |
| Applications.Contribution | src/components/ApplicationsSection.tsx:662-663 | a duration without "m " throws |
| Applications.Reduce | src/components/ApplicationsSection.tsx:661-664 | the reduce throws when some step throws, and is a number only when every step is |
| Applications.TotalDuration | src/components/ApplicationsSection.tsx:661-664 | the sum throws exactly when some duration lacks "m ", and is a number exactly when every duration parses |
| Applications.ContributionOfWellFormed | src/components/ApplicationsSection.tsx:662-663 | a well-formed "Mm Ss" duration contributes 60*M + S seconds |
| Applications.TotalOfWellFormed | src/components/ApplicationsSection.tsx:661-664 | over well-formed durations the reduce is the sum of 60*M + S |
| Applications.MissingSeparatorThrows | src/components/ApplicationsSection.tsx:662-663 | one duration without "m " makes the whole reduce throw |
| Findings.KeyedColor | src/components/sections/FindingsSection.tsx:11-23 | the colour of a key is undefined exactly when the table has no entry for it; otherwise it is a declared (key, colour) pair |
| Findings.KeyedColorFinds | src/components/sections/FindingsSection.tsx:11-23 | in a table with distinct keys, a declared entry is what its key finds |
| Findings.ByType | src/components/sections/FindingsSection.tsx:122-125 | the by-type counts add up to the number of findings |
| Findings.BySeverity | src/components/sections/FindingsSection.tsx:149-152 | the by-severity counts add up to the number of findings |
| Findings.PieDataSpec | src/components/sections/FindingsSection.tsx:122-152 | one entry per distinct type (severity), each counting exactly the findings with it |
| Findings.PositionalFills | src/components/sections/FindingsSection.tsx:133-135 | as written: sector `i` gets the `i`-th declared colour, and none past the fourth |
| Findings.PositionalIgnoresKeys | src/components/sections/FindingsSection.tsx:160-162 | as written, the fills depend on the number of sectors only, not on their keys |
| Findings.ComplianceDrawnRed | src/components/sections/FindingsSection.tsx:133-135 | a report whose only finding is a compliance finding draws it in the security red |
| Findings.KeyedFills | src/components/sections/FindingsSection.tsx:133-135 | corrected: each sector coloured by its own key |
| Findings.KeyedFillsFollowKeys | src/components/sections/FindingsSection.tsx:133-135 | corrected fills depend only on the key, wherever the key lands |
| Findings.KeyedTypeFill | src/components/sections/FindingsSection.tsx:11-16 | corrected: a declared type's sector gets that type's declared colour |
| Findings.KeyedSeverityFill | src/components/sections/FindingsSection.tsx:18-23 | corrected: a declared severity's sector gets that severity's declared colour |
| Findings.TablesWellFormed | src/components/sections/FindingsSection.tsx:11-23 | each table declares every key once, with four different colours |
| Findings.StatusClass | src/components/sections/FindingsSection.tsx:99-104 | open is red, resolved green, in-progress blue, anything else grey; the incident table uses the same choice (src/components/ApplicationsSection.tsx:322-326) |
| Findings.TypeIcon | src/components/sections/FindingsSection.tsx:54-66 | each of the four types has its own icon, and any other type gets the default one |
| Findings.IconsMatchColors | src/components/sections/FindingsSection.tsx:11-66 | the types with their own icon are exactly the types with a declared colour |

## Left out

- Data fetching, export and browser plumbing (`AuditReport.tsx`, `Header.tsx`), React state (`ConfigModal.tsx`, `useConfigManagement.ts`) and the purely presentational sections: none of them decides anything these properties are about.
- `GaugeCell.tsx`: `./View/panels/utils` is not part of this model.
- The SVG arc geometry of the gauge (src/components/View/View.tsx:262-355): floating-point layout.
- Date and locale formatting (`formatDistanceToNow`, `differenceInHours`, `formatDuration`, `toLocaleString`, `formatDate`): uninterpreted parameters.
- Float-only statistics: `parseFloat` sizes, `toFixed`, the success rate, the backup age, and the pipelines' average minutes. Counts and sums are modelled; numbers are exact reals.
- Applications.Average: the source renders the average with `toFixed(1)`, a string, and returns the number 0 when nothing is resolved; the model keeps the exact real.
- Gauge.Percentage: requires `max > min`. For `max == min` JavaScript yields NaN or Infinity.
- Gauge.GaugeValue: a truthy non-number `value` (JavaScript coerces it, possibly to NaN) is outside the model and gives `None`.
- `Math.random`: an oracle sequence of draws in [0, 1).
- Unicode case mapping: `toUpperCase`/`toLowerCase` are ASCII only here.
- `Object.keys` ordering: integer-like keys come first in JavaScript; rows here keep insertion order.
- DataTable.StrLess: string `<` compares UTF-16 code units in JavaScript; the model compares characters.
- DataTable.SortedDataOrdered: the order is proved for columns of all numbers or all strings only. With mixed key types JavaScript's `<` is not a strict weak order, and the engine's sort order is then unspecified.
- The new view's number cards (src/components/View/View.tsx:147-176): their `toFixed` formatting and units are presentation.
- Sparse arrays and holes: sequences are dense.
- NaN as a number value: `JsValue` has no NaN. `Number(v)` and `parseInt` model theirs as `None`, the pipeline duration sum as `NotANumber`, and the heatmap's 0/0 rate by the branch NaN takes; `differenceInHours` is the exception (next two lines).
- Applications.DurationLabel: takes the hours as an integer, so an unparseable date, for which `differenceInHours` gives NaN and the source shows "NaNd NaNh", is outside the model.
- Applications.ResolutionTimes: `hoursBetween` returns an integer, so an unparseable incident date (NaN hours, which makes the average "NaN") is outside the model.
- Applications.TotalDuration: the sum is modelled in whole seconds; the division by the number of pipelines and by 60 is float-only.
- Text.ParseInt: numerals beyond 2^53 lose precision in JavaScript; the model's integers are exact.
- Applications.BackupSuccessCount: `calculateBackupStats` also reads `backups[0]`, which throws on an empty list; only the count is modelled.

## Findings

| source | as written | input that shows it | evidently intended | confidence | as-written member | corrected member |
|---|---|---|---|---|---|---|
| src/components/sections/FindingsSection.tsx:133-135, 160-162 | the `<Cell>` children are the colour tables' entries in declaration order, and recharts pairs sector `i` with cell `i`, so a sector's colour depends on its position in first-seen order rather than on its key | findings holding one compliance finding: the single sector is drawn `#ef4444` (security red) instead of `#3b82f6` | colour each sector by its own key, as the incidents chart does (src/components/ApplicationsSection.tsx:534-539) | medium, not executed | Findings.PositionalFills, Findings.PositionalIgnoresKeys, Findings.ComplianceDrawnRed | Findings.KeyedFills, Findings.KeyedTypeFill |
