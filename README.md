# Toll network pipeline and vehicle-table helpers, modelled in Dafny

This project models two pandas scripts.

The first is a toll-network pipeline, `Submissions/python_task_2.py`:
- it builds a symmetric distance matrix between toll locations from directional measurements;
- it unrolls the matrix into an edge relation `(id_start, id_end, distance)`;
- it finds the start ids whose distances lie within 10 % of a reference id's mean distance;
- it adds one toll column per vehicle class (moto, car, rv, bus, truck);
- it applies time-of-day discounts over a reference week that starts at `datetime.min`, a Monday.

The second holds helpers over a vehicle-count table, `Submissions/python_task_1.py`:
- a car-count pivot matrix with a zero diagonal;
- a count of car-type bins;
- the rows whose bus count is above twice the mean;
- the routes whose mean truck count is above 7;
- a two-step conditional scaling of a matrix;
- a per-group completeness check on timestamps.

How the model represents the data:
- All quantities are exact `real`. Location ids, routes and row positions are `int`.
- Timestamps are whole seconds from a midnight. For the discount engine that midnight is `datetime.min`.
- A matrix cell the code never writes (NaN in pandas) is a key the model's map lacks.
- The not-found answer of the threshold finder is a `Failure` value, distinct from an empty list.
- Code that changes state step by step is a method with loops and invariants: the matrix builder, the unroller, the rate calculator, the discount loop, the diagonal loop, the column the type count adds, and the array passes of `multiply_matrix`. Each method is proved against a specification function, and the properties are lemmas about that function.
- Filters, means and sorted-unique lists are functions.

Modules:
- `Wrappers`, `Sorting`, `Numeric` and `Clock` are shared: Option/Result values, `sort`/`sorted(unique)`, sum, mean, min and max, and the day and second-of-day of a timestamp.
- `DistanceMatrix`, `Unroller`, `ThresholdFinder`, `TollRates` and `TimeDiscount` model `python_task_2.py`.
- `Dataset`, `CarMatrix`, `TypeCount`, `RowFilters`, `MatrixScaling` and `Timestamps` model `python_task_1.py`.

## Model

| member | source | states |
|---|---|---|
| DistanceMatrix.CalculateDistanceMatrix | Submissions/python_task_2.py:4-27 | Every written cell is between two ids of the index. Each diagonal cell is 0. An off-diagonal cell (a, b) is written exactly when both a→b and b→a are measured, and then holds their sum. The matrix is symmetric. A pair with a missing direction stays unwritten, never 0. |
| Unroller.UnrollDistanceMatrix | Submissions/python_task_2.py:30-43 | The edges are the row-major relation `Unrolled`. Distinct ids give exactly n·(n−1) edges. No edge starts where it ends, both ends are ids of the matrix, and each edge carries its own cell's distance. |
| Unroller.RowEdges | Submissions/python_task_2.py:36-41 | By definition, row a's edges: one edge (a, b, cell) for each column id b ≠ a, in column order. |
| Unroller.Unrolled | Submissions/python_task_2.py:35-41 | By definition, the row blocks concatenated in row order. |
| Unroller.RowEdgesLength | Submissions/python_task_2.py:36-41 | A row's edges are one per column, minus one when the row id is itself a column. |
| Unroller.UnrolledLength | Submissions/python_task_2.py:35-41 | Rows drawn from distinct columns give rows·(columns−1) edges. |
| Unroller.RowEdgesMembership | Submissions/python_task_2.py:36-41 | An edge is in row a's block exactly when it starts at a, ends at another column and carries that cell. |
| Unroller.UnrolledMembership | Submissions/python_task_2.py:35-41 | An edge is in the relation exactly when it joins a row id to a different column id with that cell's distance. |
| Unroller.UnrolledRowMajor | Submissions/python_task_2.py:35-36 | The i-th block of columns−1 consecutive edges, starting at `Offset(i, columns−1)` (which `OffsetIsProduct` shows is i·(columns−1)), is exactly the edge list of the i-th row id. |
| Sorting.SortedUnique | Submissions/python_task_2.py:65 | `sorted(unique(...))` is strictly ascending and holds exactly the values of its input. |
| ThresholdFinder.StartPositions | Submissions/python_task_2.py:49 | The positions selected by the `id_start == reference_value` mask: strictly increasing, and exactly the positions of the edges that start at the reference. |
| ThresholdFinder.ReferenceDistances | Submissions/python_task_2.py:49-55 | The averaged column has one value per edge starting at the reference, in relation order: its i-th value is the distance of the i-th such edge. It is empty exactly when no edge starts at the reference. |
| ThresholdFinder.ReferenceDistancesMembership | Submissions/python_task_2.py:49-55 | A distance is averaged exactly when it is the distance of some edge that starts at the reference. |
| ThresholdFinder.WithinBounds | Submissions/python_task_2.py:58-62 | The band test, by definition: 0.9·avg ≤ d ≤ 1.1·avg, both bounds inclusive. |
| ThresholdFinder.StartsWithin | Submissions/python_task_2.py:58-62 | An id is listed exactly when some edge starting at it has a distance within the inclusive band [0.9·avg, 1.1·avg]. |
| ThresholdFinder.FindIdsWithinTenPercentageThreshold | Submissions/python_task_2.py:47-67 | The result is the not-found error exactly when no edge starts at the reference. Otherwise it is strictly ascending and holds exactly the start ids of the edges, anywhere in the relation, whose distance is within the band around the reference's mean. |
| ThresholdFinder.UniformReferenceIsIncluded | Submissions/python_task_2.py:55-65 | When all of the reference's edges have one non-negative distance, the reference itself is in the answer. |
| ThresholdFinder.ScenarioBand | Submissions/python_task_2.py:47-67 | Edges 1→2 (10) and 1→3 (20) give a mean of 15 and a band of [13.5, 16.5], so with 4→5 (14) and 4→6 (20) the answer is [4]. |
| ThresholdFinder.ScenarioNotFound | Submissions/python_task_2.py:49-52 | A reference that starts no edge gives the not-found error, never an empty list. |
| TollRates.RatedUpToColumns | Submissions/python_task_2.py:75-77 | After the first k passes of the zip loop, the first k vehicle columns are distance × coefficient. The other columns, the edge and the timestamps are untouched. |
| TollRates.RatedNextColumn | Submissions/python_task_2.py:75-77 | Assigning the next vehicle column of a row whose first k columns are assigned leaves its first k+1 columns assigned. |
| TollRates.AssignColumn | Submissions/python_task_2.py:77 | One column assignment: every row gets that vehicle column set to distance × coefficient, and nothing else in any row changes. |
| TollRates.RatedAmounts | Submissions/python_task_2.py:72-77 | A rated row has all five columns: moto 0.8·d, car 1.2·d, rv 1.5·d, bus 2.2·d and truck 3.6·d. Its edge and times are unchanged. |
| TollRates.ScenarioDistanceTen | Submissions/python_task_2.py:72-77 | A distance of 10 gives moto 8, car 12, rv 15, bus 22 and truck 36. |
| TollRates.CalculateTollRate | Submissions/python_task_2.py:70-79 | Each row of the caller's frame becomes its rated row. Row count and order, edges and timestamps are unchanged. Each vehicle column is distance × its coefficient. |
| TimeDiscount.RuleTablesWellFormed | Submissions/python_task_2.py:84-94 | There are three contiguous weekday windows, one factor for each. Together they span 00:00:00–23:59:59. The weekend has one window, also 00:00:00–23:59:59. Reference day k is weekday k, so days 0–4 are Monday to Friday. |
| TimeDiscount.Matches | Submissions/python_task_2.py:97-100 | The mask, by definition: a row matches a window on a day when its start is at or after the window's start on that day and its end is at or before the window's end on that day. |
| TimeDiscount.MatchesOnOwnDay | Submissions/python_task_2.py:97-100 | For a row within one day and a window inside a day, the mask on the row's own day holds exactly when the row's start time of day is at or after the window's start and its end time of day is at or before the window's end, which is what comparing against `datetime.combine(day.date(), t)` means. |
| TimeDiscount.StepFactor | Submissions/python_task_2.py:105 | The factor of window w on a day, by definition: the weekday factor of w on Monday to Friday for the three weekday windows, and 0.7 otherwise. This includes the weekend table's all-day window on weekdays, which is a modelling choice (see "Left out"). |
| TimeDiscount.Applied | Submissions/python_task_2.py:92-107 | By definition, the factors of the (window, day) steps before a given step whose mask holds the row, in loop order. |
| TimeDiscount.Compounded | Submissions/python_task_2.py:92-107 | By definition, the product of every factor the double loop applies to the row. |
| TimeDiscount.WeekdayWindowsCoverTheDay | Submissions/python_task_2.py:84-86 | Every second of a day is in some weekday window. Only 10:00:00 and 18:00:00 are in two windows. |
| TimeDiscount.ScaledNextColumn | Submissions/python_task_2.py:106-107 | Multiplying the next vehicle column of a partly scaled row leaves one more column scaled. |
| TimeDiscount.ScaledAllColumns | Submissions/python_task_2.py:106-107 | Multiplying the five vehicle columns one after another scales every vehicle amount of the row. |
| TimeDiscount.ScaleCompose | Submissions/python_task_2.py:107 | Scaling by f and then by g is scaling by f·g. Scaling by 1 changes nothing. |
| TimeDiscount.ApplyDiscountStep | Submissions/python_task_2.py:97-107 | One (day, window, factor) step: each matching row has every vehicle amount multiplied by the factor. Every other row is unchanged, and a step with no match changes nothing. A row matches when its start is at or after the window's start on that day and its end at or before the window's end, both inclusive. |
| TimeDiscount.StepExtendsApplied | Submissions/python_task_2.py:96-107 | A step adds its factor to what a row has received exactly when the row matches that step. |
| TimeDiscount.CalculateTimeBasedTollRates | Submissions/python_task_2.py:82-109 | The 4 windows × 7 days loop leaves each row scaled by `Compounded`: the product of the factors of every (window, day) pair it matches, in loop order. |
| TimeDiscount.OtherDaysDoNotMatch | Submissions/python_task_2.py:97-100 | A row within one day matches no window of any other day. |
| TimeDiscount.DaysApplied | Submissions/python_task_2.py:96-100 | Over the days of one window, only the row's own day can add a factor. |
| TimeDiscount.WindowsApplied | Submissions/python_task_2.py:92-100 | For a row within one day, the factors it receives are those of the windows, taken in order, that hold it on its day. |
| TimeDiscount.CompoundedWithinOneDay | Submissions/python_task_2.py:92-107 | A row within a reference day receives exactly the factors of the four windows on that day, in window order. |
| TimeDiscount.TuesdaySpanAcrossTenGetsAllDayFactorOnly | Submissions/python_task_2.py:92-107 | A Tuesday 09:30–10:30 row is held by no weekday window, so it receives only the all-day window's 0.7. |
| TimeDiscount.WeekdayRowIsDiscountedTwice | Submissions/python_task_2.py:92-107 | A weekday row inside exactly one weekday window w receives [factor w, 0.7]. Its amounts are multiplied by their product. |
| TimeDiscount.TuesdayMorningCompounds | Submissions/python_task_2.py:92-107 | A Tuesday 09:00–09:30 row receives 0.8 and then 0.7, so it is multiplied by 0.56. The 0.7 rests on the model's factor for the all-day window on weekdays. |
| TimeDiscount.SaturdayMorningCompounds | Submissions/python_task_2.py:92-107 | A Saturday 09:00–09:30 row receives 0.7 twice (the morning window and the all-day window), so it is multiplied by 0.49. |
| TimeDiscount.RowOutsideReferenceWeekUnchanged | Submissions/python_task_2.py:94-102 | A row within a day outside the seven reference days matches nothing and stays as it is. |
| TimeDiscount.FirstMatchingFactor | Submissions/python_task_2.py:84-89 | It gives the factor of a window of the day's class that holds the row, or None exactly when no remaining window holds it. |
| TimeDiscount.IntendedFactor | Submissions/python_task_2.py:84-105 | The intended rule: a row gets the factor of a window of its own day class that holds its span, and None exactly when no window of that class holds it. |
| TimeDiscount.IntendedScenarios | Submissions/python_task_2.py:84-105 | Under the intended rule, the Tuesday morning row gets 0.8 and the Saturday morning row gets 0.7. |
| TimeDiscount.CompoundedVersusIntended | Submissions/python_task_2.py:92-107 | For a weekday row in one window, the loop's factor is the intended factor times 0.7. |
| TimeDiscount.ApplyIntendedDiscount | Submissions/python_task_2.py:92-107 | The corrected engine: each row with an intended factor is scaled by it once. The positions of rows that fit no window are returned in ascending order, and those rows are left unchanged. |
| Sorting.Sort | Submissions/python_task_1.py:45 | `list.sort()`: the result is ascending and a permutation of the list. |
| Sorting.SortOfAscending | Submissions/python_task_1.py:58 | Sorting a list that is already ascending leaves it as it is. |
| CarMatrix.Pivot | Submissions/python_task_1.py:12 | The row and column ids are the sorted distinct id_1 and id_2 values. There is a cell for every (row id, column id). |
| CarMatrix.CarAt | Submissions/python_task_1.py:12 | By definition, the car count of the first record with the pair (a, b), or the 0.0 of `fillna(0)` when no record has it. |
| CarMatrix.CarAtPresent | Submissions/python_task_1.py:12 | With unique pairs, the pivot cell of a record's pair holds that record's car count. |
| CarMatrix.CarAtAbsent | Submissions/python_task_1.py:12 | A pair that no record has is filled with 0. |
| CarMatrix.ZeroDiagonal | Submissions/python_task_1.py:15-16 | The loop over the columns sets (c, c) to 0 for every column id c and leaves every other cell and the ids as they were. |
| CarMatrix.GenerateCarMatrix | Submissions/python_task_1.py:5-18 | The ids are sorted and distinct, and there are cells for exactly the id_1 × id_2 pairs. The diagonal is 0 for every column id. A record with id_1 ≠ id_2 has its car count in its cell. Every other off-diagonal cell is 0. |
| TypeCount.BinIndex | Submissions/python_task_1.py:25-26 | The bin of x is the one whose left edge is at or below x and whose right edge is above x (left-closed, right-open). |
| TypeCount.CarTypeOf | Submissions/python_task_1.py:25-26 | low is exactly car < 15, medium is exactly 15 ≤ car < 25, and high is exactly car ≥ 25. |
| TypeCount.Count | Submissions/python_task_1.py:29 | A label's count is at most the number of rows, and it is 0 exactly when no row has that label. |
| TypeCount.CountsSum | Submissions/python_task_1.py:29 | The three counts add up to the number of rows. |
| TypeCount.SortedTypesAreSorted | Submissions/python_task_1.py:32 | The keys high, low, medium are in strictly increasing lexicographic order and name every bin. |
| TypeCount.GetTypeCount | Submissions/python_task_1.py:21-34 | Each row of the caller's table gains its `carType` label, and nothing else changes. The result lists ("high", n), ("low", n), ("medium", n) with each label's count. |
| RowFilters.PositionsAbove | Submissions/python_task_1.py:42 | The selected positions are strictly increasing: exactly the rows below n whose bus count is strictly above the threshold. |
| RowFilters.GetBusIndexes | Submissions/python_task_1.py:37-47 | The result is strictly ascending. It holds exactly the positions whose bus count is strictly above twice the column mean. An empty table gives an empty list. |
| RowFilters.UniformBusesSelectNothing | Submissions/python_task_1.py:39-42 | A bus column holding one non-negative value selects no row. |
| RowFilters.RoutePositions | Submissions/python_task_1.py:52 | The rows of one route's group: strictly increasing positions, exactly those of the records on that route. |
| RowFilters.TrucksOf | Submissions/python_task_1.py:52 | A route's truck column has one value per record of the route, in table order: its i-th value is the truck count of the i-th such record. It is non-empty exactly when the route occurs in the table. |
| RowFilters.HeavyAmong | Submissions/python_task_1.py:52-55 | Filtering the ascending group keys keeps their order. It keeps exactly the routes whose mean truck count is strictly above 7. |
| RowFilters.FilterRoutes | Submissions/python_task_1.py:50-60 | The result is strictly ascending, so each route appears once. It holds exactly the routes that occur and whose mean truck count is strictly above 7. |
| RowFilters.UniformRouteSelectedIff | Submissions/python_task_1.py:52-55 | A route whose trucks all count c is selected exactly when c > 7. |
| MatrixScaling.Copy | Submissions/python_task_1.py:65 | The copy is a new array with the input's shape and values. |
| MatrixScaling.ScaleAbove | Submissions/python_task_1.py:68 | Cells above 20 are multiplied by 0.75, and the others are unchanged. |
| MatrixScaling.ScaleAtOrBelow | Submissions/python_task_1.py:69 | Cells at or below 20, as they now stand, are multiplied by 1.25, and the others are unchanged. |
| MatrixScaling.MultiplyMatrixAsWritten | Submissions/python_task_1.py:63-74 | The result is a new array, and the input is not modified. Each cell is the two statements applied in turn to the input cell. |
| MatrixScaling.FirstPass | Submissions/python_task_1.py:68 | By definition, a value above 20 times 0.75, any other value unchanged. |
| MatrixScaling.SecondPass | Submissions/python_task_1.py:69 | By definition, a value at or below 20 times 1.25, any other value unchanged. |
| MatrixScaling.TwoPassValue | Submissions/python_task_1.py:68-69 | By definition, the second statement applied to the result of the first. |
| MatrixScaling.IntendedValue | Submissions/python_task_1.py:67-69 | By definition, the original value times 0.75 above 20 and times 1.25 otherwise. |
| MatrixScaling.TwoPassPiecewise | Submissions/python_task_1.py:68-69 | As written, v > 80/3 becomes 0.75v, 20 < v ≤ 80/3 becomes 0.9375v, and v ≤ 20 becomes 1.25v. |
| MatrixScaling.TwoPassAgreesWithIntendedIff | Submissions/python_task_1.py:68-69 | The as-written value equals the single intended scaling exactly when v is outside (20, 80/3]. |
| MatrixScaling.TwoPassCounterexample | Submissions/python_task_1.py:68-69 | The cell 24 becomes 22.5 as written, where the intended scaling gives 18. |
| MatrixScaling.IntendedAppliesOneStatement | Submissions/python_task_1.py:67-69 | Under the intended scaling, each cell gets exactly one of the two statements, chosen by its original value. |
| MatrixScaling.MultiplyMatrix | Submissions/python_task_1.py:63-74 | The corrected version: the result is a new array, and the input is not modified. Each cell is multiplied once, by 0.75 above 20 and by 1.25 otherwise. |
| Numeric.Min | Submissions/python_task_1.py:86-87 | The group's earliest start is one of its starts and is at or below all of them. |
| Numeric.Max | Submissions/python_task_1.py:86-88 | The group's latest end is one of its ends and is at or above all of them. |
| Timestamps.Group | Submissions/python_task_1.py:85 | A group holds exactly the records with its (id, id_2) pair. |
| Timestamps.VerifyTimestamps | Submissions/python_task_1.py:77-91 | There is one flag for exactly each (id, id_2) pair that occurs. The flag is the incompleteness of that pair's non-empty group. |
| Timestamps.Incomplete | Submissions/python_task_1.py:85-89 | By definition, the negation of: latest end minus earliest start is 6 days 23:59:59, the earliest start is at 00:00:00, and the latest end is at 23:59:59. |
| Timestamps.CompleteIff | Submissions/python_task_1.py:85-89 | A group is complete exactly when its earliest start is at 00:00:00 and its latest end is 604799 s later. The end's 23:59:59 condition then follows. |
| Timestamps.CompleteGroupSpansSevenDays | Submissions/python_task_1.py:84-89 | A complete group has a record starting at midnight of a day D and one ending at 23:59:59 of day D+6. All its records lie within those seven days. |

## Left out

- Reading the CSV files (`pd.read_csv`) is file I/O. Every operation takes the parsed table as its input.
- The `"A-B"` column names of the measurements table are built as strings. The model keys measurements by the ordered pair itself, and a pair without a column is a key the map lacks.
- NaN is not modelled as a value. An unwritten matrix cell is an absent key, and the columns the table helpers read hold numbers in this model. pandas' NaN-skipping mean is therefore the plain mean.
- IEEE-754 floating point is not modelled; all arithmetic is exact. This includes the `.round(1)` at the end of `multiply_matrix`, which rounds half to even on binary floats.
- Parsing dates and times (`pd.to_datetime`, `datetime.combine`) is left out. Timestamps are whole seconds.
- `DataFrame.append`, used by the unroller, no longer exists in pandas 2. The model appends to a sequence, which is what the code evidently means.
- `calculate_time_based_toll_rates` never imports `time`, `datetime` or `timedelta`, so as written it fails before the loop. The model supplies these names.
- Even with those names supplied, `pd.date_range(datetime.min, ...)` starts in year 1. That is outside the range pandas' nanosecond timestamps can hold (years 1677 to 2262), so the call would raise `OutOfBoundsDatetime`. The model keeps the seven days as plain day numbers 0–6 from a Monday, which is what the code evidently means.
- `calculate_time_based_toll_rates` assigns the whole weekday factor list as the discount on weekdays, which multiplies a column by a list. The model uses the factor of the current window.
- On weekdays, the weekend table's all-day window (window 3) has no weekday factor of its own. The model gives it its own table's factor, 0.7. The resulting double discount is a finding below. The same choice means a weekday span that crosses 10:00:00 or 18:00:00, so that no weekday window holds it, still gets 0.7 from the all-day window (`TuesdaySpanAcrossTenGetsAllDayFactorOnly`).
- The time engine's loop never matches a row whose span crosses midnight, or a row on a day outside the seven-day range starting at `datetime.min`, and leaves it undiscounted (`RowOutsideReferenceWeekUnchanged`). The model keeps this behaviour and adds no error path for such rows to the as-written loop.
- Unroller.UnrollDistanceMatrix: requires every off-diagonal cell to be written. Where the source would emit a NaN-distance edge for an unmeasured pair, the model has no edge value to give.
- DistanceMatrix.CalculateDistanceMatrix: with a repeated id in the index, pandas' label lookups return several rows. The model reads one measurement per ordered pair, so it agrees with the source only when the ids are distinct.
- CarMatrix.GenerateCarMatrix: requires unique (id_1, id_2) pairs, because `pivot` raises on duplicates. It also requires every column id to be a row id; otherwise `.at` would enlarge the table with a new row, which is not modelled.
- RowFilters.GetBusIndexes: the table's index is taken to be the row positions (the default index of a freshly read CSV).
- Sorting.Sort: `list.sort()` sorts in place, and the model computes the sorted list as a value. This loses nothing, because the lists sorted are local to their functions.
- Timestamps.VerifyTimestamps: the result is a map from pairs to flags. The order of pandas' sorted MultiIndex is not kept.
- TypeCount.GetTypeCount: the counts are returned in the fixed key order high, low, medium, which `SortedTypesAreSorted` shows to be the sorted order. The dictionary sort itself is not modelled as a general sort over strings.

## Findings

| source | as written | input that shows it | evidently intended | confidence | as-written member | corrected member |
|---|---|---|---|---|---|---|
| Submissions/python_task_2.py:92-107 | Every window of both tables is tried on every day, so a row inside a weekday window also matches the weekend's all-day window on the same day, and its amounts are multiplied twice. | A Saturday 09:00:00–09:30:00 row matches both the morning window and the all-day window, so its amounts are multiplied by 0.7 twice, 0.49 in all, as the code is written. On a weekday the second factor depends on the model's 0.7 for the all-day window: a Tuesday 09:00:00–09:30:00 row then gets 0.8 · 0.7 = 0.56 (`TuesdayMorningCompounds`). | Each row is discounted once, by the rule of its own day class: 0.7 for the Saturday row and 0.8 for the Tuesday row. | not executed | TimeDiscount.SaturdayMorningCompounds | TimeDiscount.ApplyIntendedDiscount |
| Submissions/python_task_1.py:68-69 | The second mask is computed after the first multiplication, so a cell in (20, 80/3] is first brought down to 20 or less and then multiplied by 1.25 as well. | The cell 24 becomes 24·0.75·1.25 = 22.5. | Cells above 20 are multiplied by 0.75 and the others by 1.25, once each, so 24 becomes 18. | not executed | MatrixScaling.TwoPassCounterexample | MatrixScaling.MultiplyMatrix |
