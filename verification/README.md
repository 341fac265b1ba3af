# Medical Appointment No-Show Dashboard — a verified model of its core

The dashboard (`app.py`) loads one table of medical appointments. Each row has
gender, neighbourhood, age, a "No-show" flag ("Yes" = missed, "No" =
attended), the weekday of the appointment, and four chronic-condition columns
(Hipertension, Diabetes, Alcoholism, Handcap). Three controls drive seven
callbacks: a gender dropdown, a neighbourhood dropdown and an age range
slider. Each callback filters the table by the active controls into its own
view and then aggregates the view:

- the KPI cards: total, no-show and show counts, written with thousands
  separators;
- the attendance split (`value_counts` of the flag);
- the age box plot;
- the weekday distribution (group by weekday);
- the neighbourhood bars (group by neighbourhood and flag, then shorten the
  name to its first word, at most five characters);
- the chronic-condition bars (melt the four columns, keep the cells equal to
  1, group by condition and flag);
- the age histogram.

A separate callback opens and closes the filter panel.

The model is made of pure functions over immutable sequences, as the callbacks
are: each one recomputes its output from the table and the filter state.

| file | module | what it holds |
|---|---|---|
| `optional.dfy` | `Optional` | `Option` and `Result` |
| `records.dfy` | `Records` | the appointment record and the four condition columns |
| `filtering.dfy` | `Filtering` | the filter state, the boolean-mask selection, the per-callback views and their laws |
| `grouping.dfy` | `Grouping` | `groupby(...).size()`: a table of keys in ascending order with positive counts |
| `thousands.dfy` | `ThousandsFormat` | Python's `f"{n:,}"` and its read-back |
| `labels.dfy` | `Labels` | `x.split()[0][:5]` with Python's whitespace set and its IndexError |
| `aggregates.dfy` | `Aggregates` | the KPI, split, weekday and neighbourhood aggregates |
| `chronic.dfy` | `ChronicConditions` | the melt and the chronic-condition fan-out |
| `collapse.dfy` | `Collapse` | the filter panel toggle |
| `scenarios.dfy` | `Scenarios` | worked examples on a five-appointment and a one-appointment table |

Two behaviours of the code are worth knowing before reading the contracts:

- No-shows plus shows equals the total only when every flag is "Yes" or
  "No" (`Aggregates.Tally`).
- When the age input is not a two-element list, `update_kpis`,
  `update_noshow_rates` and `age_impact_on_attendance` apply no age bound,
  and the other four callbacks filter on [0, 100] (`Filtering.FallbackOf`).

## Model

| member | source | states |
|---|---|---|
| Filtering.Select | app.py:184-188 | `rows[mask]` keeps only rows every mask accepts, and never more rows than it was given |
| Filtering.SelectMultiplicity | app.py:184-188 | a record occurs in the selection as often as in the input if the masks accept it, otherwise not at all |
| Filtering.Filter | app.py:183-188 | the gender, neighbourhood and age stages together keep each record with its full multiplicity exactly when every active constraint holds of it, and drop it otherwise |
| Filtering.FilterIsOneSelection | app.py:183-188 | the three rebindings of `filtered_df` are one selection by the conjunction of the active masks |
| Filtering.FilterMembership | app.py:183-188 | a record is in the view iff it is in the table and passes every active constraint |
| Filtering.FilterIsSubsequence | app.py:183-188 | the view is an order-preserving subsequence of the table |
| Filtering.FilterIdempotent | app.py:183-188 | filtering the view again with the same state changes nothing |
| Filtering.FilterNarrows | app.py:183-188 | a state that accepts fewer records yields a subsequence of the looser view, and no more rows |
| Filtering.GenderSelectionNarrows | app.py:183-184 | choosing a gender never adds rows to the view |
| Filtering.ReversedRangeKeepsNothing | app.py:187-188 | an age range with low above high keeps nothing |
| Filtering.LenientIgnoresMalformedRange | app.py:187-188 | for the lenient callbacks, a malformed age input leaves age unconstrained |
| Filtering.StrictFallsBackToDefault | app.py:353-356 | for the strict callbacks, a malformed age input behaves as the range [0, 100] |
| Filtering.StrictDropsOutOfRangeAges | app.py:353-356 | for the strict callbacks, a malformed age input removes ages outside [0, 100] |
| Filtering.UnconstrainedIsIdentity | app.py:183-188 | with no gender, no neighbourhood and a malformed age input, the lenient view is the whole table |
| Filtering.DefaultRangeIsIdentity | app.py:349-356 | with no selections, range [0, 100] and all ages in [0, 100], the view is the whole table |
| Filtering.View | app.py:183-188 | each callback's view holds exactly the table rows that pass its constraints under that callback's age fallback (the lenient filter as here and at 210-218 and 455-463, the strict one as at 257-264, 301-308, 349-356 and 398-405) |
| Filtering.FallbackOf | app.py:263-264 | a two-element age input is used as given by every callback; any other input gives no age bound in `update_kpis`, `update_noshow_rates` and `age_impact_on_attendance` and the window [0, 100] (`AgeWindow`) in the four callbacks whose `else` branch filters on it, here and at 307-308, 355-356 and 404-405 |
| Filtering.WellFormedRangeAgrees | app.py:257-264 | with a two-element age input all seven callbacks compute the same view |
| Filtering.MalformedRangeDiverges | app.py:301-308 | with a malformed age input the strict views are subsequences of the lenient views and agree with them on ages in [0, 100] |
| Filtering.KeepIsAllMasks | app.py:183-188 | `Keep`, the per-record decision read off the three `if` statements (with the age window `AgeWindow` chooses), holds exactly when every mask the callback applies holds |
| Filtering.SelectThenSelect | app.py:183-188 | selecting by `a` then by `b` is selecting by `a + b` |
| Filtering.SelectNarrower | app.py:183-188 | selecting with a stricter mask list yields a subsequence of the looser selection |
| Grouping.GroupSizes | app.py:311 | `groupby(...).size()`: keys in strictly ascending order, every count at least 1, each key's count is its number of occurrences, and the counts sum to the number of rows |
| Grouping.GroupSizesKeys | app.py:311 | a key has a row exactly when it occurs in the grouped column |
| Grouping.AscendingKeysDistinct | app.py:311 | an ascending table has one row per distinct key |
| Grouping.BumpSpec | app.py:311 | adding one row keeps the table ascending and positive, raises that key's count by one and leaves every other count unchanged |
| Grouping.KeyLessTransitive | app.py:311 | the lexicographic key order is transitive |
| Grouping.KeyLessTotal | app.py:311 | any two distinct keys are ordered one way or the other |
| Grouping.KeyLessIrreflexive | app.py:311 | no key precedes itself |
| Grouping.OccurrencesConcat | app.py:311 | occurrence counts add over concatenation |
| ThousandsFormat.Decimal | app.py:194 | `str(n)` is a non-empty digit string with no leading zero, and the numeral of 0 is exactly "0" |
| ThousandsFormat.DecimalRoundTrip | app.py:194 | reading the decimal numeral back gives `n` |
| ThousandsFormat.WithCommas | app.py:194 | `f"{n:,}"` is groups of exactly three digits separated by commas, the leftmost group having one to three digits; a comma appears exactly when `n` is at least 1000; removing the commas leaves `str(n)` |
| ThousandsFormat.CommasRemovedIsDecimal | app.py:194 | `f"{n:,}"` with its commas removed reads back as `n` |
| ThousandsFormat.DecimalSplit | app.py:194 | the numeral of n ≥ 1000 is the numeral of n / 1000 followed by the three digits of n % 1000 |
| Labels.Word | app.py:360 | the leading word is a prefix without whitespace that stops at whitespace or at the end |
| Labels.FirstToken | app.py:360 | `split()[0]` exists exactly when the name is not empty or all whitespace; it is non-empty, has no whitespace, and sits after leading whitespace as a whole word |
| Labels.ShortLabel | app.py:360 | the label exists iff the name is not all whitespace; it has one to five characters and no whitespace, and is a prefix of the first token (the whole token when that has at most five characters) |
| Aggregates.Tally | app.py:190-192 | the total is the view's length; the no-shows are the number of "Yes" entries in the view's flag column and the shows the number of "No" entries; no-shows plus shows is at most the total, with equality iff every flag is "Yes" or "No" |
| Aggregates.FlagCountsAddUp | app.py:191-192 | the "Yes" and "No" mask sums add up to at most the row count, and to exactly it iff every flag is one of the two |
| Aggregates.UpdateKpis | app.py:190-194 | each card reads back, commas removed, as the decimal numeral of its count, and is grouped by thousands; the total card counts the KPI view |
| Aggregates.KpisOfEmptyView | app.py:190-194 | an empty view shows "0", "0", "0" |
| Aggregates.GroupBySize | app.py:359 | a grouped view is ascending and positive, its counts sum to the view's size, and each count is the number of records with that key |
| Aggregates.GroupRowsAreDistinctKeys | app.py:359 | a grouped view has one row per distinct key among its records |
| Aggregates.GroupRowFromRecord | app.py:359 | every grouped row carries the key of some record of the view |
| Aggregates.KeyColumnCounts | app.py:311 | the key column has each key as often as the view has records with it |
| Aggregates.CountKeyIsCountFlag | app.py:221 | counting the flag key in the grouped column equals the mask sum of that flag |
| Aggregates.UpdateNoshowRates | app.py:220-222 | one positive row per flag present, each the flag's mask count, summing to the view size; nothing for an empty view |
| Aggregates.SplitAgreesWithKpis | app.py:221 | the split's "Yes" and "No" rows equal the no-show and show KPI counts |
| Aggregates.DistributionDayweek | app.py:310-311 | one positive row per weekday present, each the weekday's appointment count, summing to the view size; nothing for an empty view |
| Aggregates.Relabel | app.py:360 | relabelling fails iff some grouped name has no word; otherwise it keeps every row, its flag and its count and replaces only the name |
| Aggregates.PlaceTable | app.py:359 | every grouped row has a two-part (neighbourhood, flag) key |
| Aggregates.NeighbourhoodNoshow | app.py:358-360 | the chart raises (IndexError) exactly when a record of its view has an empty or all-whitespace neighbourhood; otherwise its bars are described by `NeighbourhoodBars` |
| Aggregates.NeighbourhoodBars | app.py:358-360 | one bar per row of the ascending grouped (neighbourhood, flag) table, so one bar per distinct pair and never two bars for the same pair, in pair order; bar i comes from row i of that table, whose pair is some record's; the bars sum to the view; each bar's count matches its pair and is at least 1; each label is exactly that neighbourhood's `split()[0][:5]`, so it has one to five characters, no whitespace, and is a prefix of the first word |
| Aggregates.BarTotalOfRelabel | app.py:360 | relabelling keeps the sum of the counts |
| ChronicConditions.MeltColumn | app.py:411-416 | one long row per record for each condition column, in record order: row j carries record j's flag, the column's name and record j's value in that column |
| ChronicConditions.Melt | app.py:411-416 | the melt has four rows per record: the Hipertension, Diabetes, Alcoholism and Handcap blocks in that order, each holding the record's flag, the column name and the record's value in that column, records in view order |
| ChronicConditions.ConditionKeys | app.py:417 | the `HasCondition == 1` mask: a (condition, flag) key is produced exactly when some melted row with value 1 carries it, each key occurs exactly as often as there are melted rows with value 1 carrying it, and never more keys than melted rows |
| ChronicConditions.ChronicNoshow | app.py:407-417 | the condition table is ascending with positive counts; nothing for an empty view |
| ChronicConditions.ChronicCounts | app.py:407-417 | the bar for (condition, flag) counts the view's records whose condition column is exactly 1 and whose flag matches |
| ChronicConditions.ChronicTotal | app.py:407-417 | the bars sum to the number of (record, condition) cells equal to 1, so a record with two conditions adds two |
| ChronicConditions.ChronicRowBound | app.py:417 | at most four times as many bars as distinct flags in the view |
| ChronicConditions.ChronicAtMostEight | app.py:417 | with only "Yes"/"No" flags there are at most eight bars |
| ChronicConditions.ColumnOccurrences | app.py:411-417 | within one column's block, a (condition, flag) key occurs once per matching record, and never under another condition |
| ChronicConditions.MeltKeyInGrid | app.py:411-417 | every key the melt produces pairs a condition name with a flag of the view |
| Records.ConditionNamesDistinct | app.py:408 | the four condition column names are pairwise distinct |
| Collapse.ToggleCollapse | app.py:162-165 | the state flips exactly when `n_clicks` is truthy |
| Collapse.UnclickedKeepsState | app.py:162-165 | with `n_clicks` None or 0 the state is returned unchanged |
| Collapse.ToggleTwiceRestores | app.py:162-165 | two clicks in a row restore the original state |
| Scenarios.WomenKpis | app.py:183-194 | on the five-appointment table, gender "F" with the slider at its initial [0, 100] gives the cards 3, 0, 3 |
| Scenarios.WomenSplit | app.py:220-222 | on the same table the split for "F" is the single row ("No", 3) |
| Scenarios.AgeWindowScenario | app.py:187-190 | range [25, 45] keeps exactly the women aged 30 and 40, total 2 |
| Scenarios.ChronicFanOut | app.py:407-417 | one no-show with hypertension and diabetes adds one to each of the two bars, two in total |

## Left out

- Dash layout, component wiring, styling and server start-up (`app.py:13-155`,
  and the `app.run` call at the end): they are presentation and I/O.
- CSV loading and the datetime parsing that derives `appointment_weekday`
  (`app.py:7-11`), and the unused `delaydays` column. The table is a parameter of every function, and the
  weekday is a plain string field of the record.
- Plotly figure construction: titles, colours, `barmode`, `category_orders`
  (including the Monday-to-Sunday order of the weekday axis) and the
  placeholder figures of empty views. The model returns the tables the
  figures are built from, and the empty table for an empty view.
- `update_age_plot` (`px.box`) and `age_impact_on_attendance`
  (`px.histogram`, 20 bins): quartiles, whiskers and binning are
  floating-point plotting work. Only their filtered views are modelled
  (`Filtering.View` with `AgeBoxPlot` and `AgeImpactChart`).
- Aggregates.UpdateNoshowRates: `value_counts` orders its rows by descending
  count. The model orders them by flag, as `groupby` does, and proves the
  counts but not that row order.
- The dropdowns' initial values are whole lists of genders and
  neighbourhoods (`app.py:50`, `app.py:79`), and a list compared against a
  column is not a single-value mask. A selection is modelled as None or one
  string.
- The age slider's values are modelled as integers. A float bound compares
  the same way against the integer ages, but it is not represented.
- pandas `NaN` in any column is not represented. Every field has a value.
- Aggregates.NeighbourhoodNoshow: where Python raises IndexError inside
  `apply`, the model returns `Err` with the offending name. It does not model
  the exception's propagation through Dash.
