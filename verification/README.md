# ThePerfectLap lap statistics, modelled in Dafny

ThePerfectLap is a small Formula 1 tool. It loads a session's lap table and
compares a driver's fastest lap with the "optimized" lap, which is the sum of
the best time seen in each of the three sectors. It also draws a ranking of
each driver's best lap time. This project models the three computations
behind those charts and proves what they guarantee.

- `lap_data.dfy` (module `LapData`): the lap table and two table operations.
  - A lap holds a driver code and four nullable durations: lap time, sector 1, sector 2 and sector 3.
  - Durations are integers; a pandas Timedelta counts nanoseconds, but nothing here depends on the unit. `None` stands for NaT.
  - A table also records which sector columns it has, because a column can be missing altogether.
  - The operations are the null-skipping column minimum (`Series.min()`) and the per-driver row filter.
- `optimized.dfy` (module `Optimized`): `compute_optimized_secs`.
  - `OptimizedLap` is the closed form: the sum of the sector minima that exist, or nothing when none exists.
  - `ComputeOptimizedSecs` is the loop of the source: visit the three columns and collect the minima. It is proved equal to the closed form.
  - The lemmas state what the closed form guarantees.
- `analysis.dfy` (module `Analysis`): the "Analyze" action without its widgets.
  - The driver entry is normalised with Python's `strip()` and `upper()`. A blank entry means "no filter".
  - The laps are narrowed to that driver.
  - Three early exits run in their fixed order: no laps, no fastest lap time, no sector optimum. Only then is the pair (actual, optimized) produced.
- `ranking.dfy` (module `Ranking`): the best-lap ranking of the stand-alone script.
  - `groupby("Driver")["LapTime"].min()`, then `.dropna()`, then `.sort_values()`.
  - Then the aligned lists of drivers and times that the bar chart draws.

Two points about what the code does and does not guarantee:

- Every early exit of "Analyze" shows one of three warnings ("No data", "No time", "No sectors") and returns. The model returns `Stopped(NoData)`, `Stopped(NoTime)` or `Stopped(NoSectors)` in the same order.
- The plotted optimum is not always at most the plotted lap time.
  - `Analysis.OptimizedNotSlowerThanActual` proves it under stated conditions: the fastest lap belongs to the selection, has all three sector times, and its lap time is their sum.
  - `Analysis.OptimumCanBeSlowerThanActual` gives a table where the plotted optimum is ten seconds slower than the plotted lap, because the fastest lap recorded no sector time.

No definition depends on the time unit. The worked examples count milliseconds.

## Model

| member | source | states |
|---|---|---|
| LapData.SectorColumn | ThePerfectLap-SeniorProject/f1_gui.py:19-20 | a sector column is absent exactly when the table lacks it; otherwise its values are exactly the laps' values for that sector |
| LapData.LapTimeColumn | ThePerfectLap-SeniorProject/ThePerfectLap_SeniorProject.py:20 | the lap-time column holds exactly the laps' lap-time values |
| LapData.ColumnMin | ThePerfectLap-SeniorProject/f1_gui.py:20-21 | the skip-null minimum is null exactly when every value is null; otherwise it is one of the values and no greater than any non-null value |
| LapData.SelectDriver | ThePerfectLap-SeniorProject/f1_gui.py:35 | the driver filter keeps exactly the laps of that driver, each with its multiplicity in the table |
| LapData.SelectDriverKeepsOwnLaps | ThePerfectLap-SeniorProject/f1_gui.py:35 | filtering a table whose laps all belong to the driver returns the table unchanged |
| Optimized.OptimizedLap | ThePerfectLap-SeniorProject/f1_gui.py:17-23 | the closed form of the optimum: nothing when no sector contributes, otherwise the sum of the contributing sector bests; its properties are stated by Optimized.ComputeOptimizedSecs, Optimized.OptimizedAbsentIff, Optimized.EmptyColumnAddsNothing, Optimized.OptimizedAtMostLapSectorSum and Optimized.OptimizedOrderIndependent |
| Optimized.SectorBest | ThePerfectLap-SeniorProject/f1_gui.py:19-21 | a sector's best is absent exactly when the column is missing or has no time; otherwise it is the time of some lap and no greater than any lap's time in that sector |
| Optimized.AllTerms | ThePerfectLap-SeniorProject/f1_gui.py:18-23 | visiting the three columns in order gives the same sum and the same "some sector contributed" as the closed form |
| Optimized.ComputeOptimizedSecs | ThePerfectLap-SeniorProject/f1_gui.py:15-23 | the loop over the three columns returns exactly the closed-form optimum |
| Optimized.OptimizedAbsentIff | ThePerfectLap-SeniorProject/f1_gui.py:17-23 | the optimum is absent if and only if no sector column is both present and holds a time |
| Optimized.EmptyColumnAddsNothing | ThePerfectLap-SeniorProject/f1_gui.py:19-22 | dropping a missing or all-null sector column leaves the optimum unchanged; a table with no sector column has no optimum, not a zero one |
| Optimized.OptimizedAtMostLapSectorSum | ThePerfectLap-SeniorProject/f1_gui.py:15-23 | for every lap with all three sector times, the optimum exists and is at most that lap's sector sum |
| Optimized.OptimizedOrderIndependent | ThePerfectLap-SeniorProject/f1_gui.py:18-22 | tables with the same laps in any order and the same columns have the same optimum |
| Optimized.SectorBestDeterminedByLaps | ThePerfectLap-SeniorProject/f1_gui.py:20 | a sector's best depends only on which laps are present, not on their order |
| Optimized.SectorBestOfTwoLaps | ThePerfectLap-SeniorProject/f1_gui.py:20-21 | over two laps that both have the sector, the best is the smaller of their two times |
| Optimized.SectorBestOfOnlyTimedLap | ThePerfectLap-SeniorProject/f1_gui.py:20-21 | when only one lap has a time in a sector, that time is the sector's best |
| Optimized.TwoLapExample | ThePerfectLap-SeniorProject/f1_gui.py:15-23 | laps with sectors (30.0, 30.0, 30.123) and (29.5, 30.5, 31.0) give the optimum 89.623 s, combining sectors from different laps |
| Analysis.Strip | ThePerfectLap-SeniorProject/f1_gui.py:29 | `strip()` returns a part of the input that does not start or end with whitespace, and is empty exactly when the input is all whitespace |
| Analysis.StripSplit | ThePerfectLap-SeniorProject/f1_gui.py:29 | what `strip()` removes on either side is whitespace only |
| Analysis.StripKeepsTrimmed | ThePerfectLap-SeniorProject/f1_gui.py:29 | a nonempty string with no whitespace at either end is unchanged by `strip()` |
| Analysis.Upper | ThePerfectLap-SeniorProject/f1_gui.py:29 | `upper()` keeps the length, turns every lower-case ASCII letter into the same letter in upper case, keeps every other character, and keeps whitespace as whitespace |
| Analysis.UpperKeepsUpper | ThePerfectLap-SeniorProject/f1_gui.py:29 | a string with no lower-case ASCII letter is unchanged by `upper()` |
| Analysis.NormalizeDriver | ThePerfectLap-SeniorProject/f1_gui.py:29 | the entry means "no driver" exactly when it is blank; otherwise the code is the stripped entry upper-cased, so it is nonempty, has no whitespace at either end, has no lower-case letter and is no longer than the entry |
| Analysis.NormalizeIdempotent | ThePerfectLap-SeniorProject/f1_gui.py:29 | normalising an already normalised code gives the same code |
| Analysis.NormalizeSpacedCode | ThePerfectLap-SeniorProject/f1_gui.py:29 | the entry " ver " normalises to "VER" |
| Analysis.Selection | ThePerfectLap-SeniorProject/f1_gui.py:35 | a blank entry selects the whole session; otherwise exactly that driver's laps with their multiplicities; the columns are kept and no lap is invented |
| Analysis.Analyze | ThePerfectLap-SeniorProject/f1_gui.py:35-47 | an empty selection stops with NoData whatever else holds; then a null fastest lap time stops with NoTime; then a missing optimum stops with NoSectors (if and only if no sector has a time); a pair is plotted exactly otherwise, holding the fastest lap time and the optimum |
| Analysis.OptimizedNotSlowerThanActual | ThePerfectLap-SeniorProject/f1_gui.py:40-46 | if the fastest lap is in the selection, has all three sectors and its lap time is their sum, a pair is plotted and the optimum is at most the actual time |
| Analysis.OptimumCanBeSlowerThanActual | ThePerfectLap-SeniorProject/f1_gui.py:40-46 | when the fastest lap has no sector times, the plotted optimum (90 s) can be slower than the plotted lap (80 s) |
| Analysis.OnlyTimedLapGivesOptimum | ThePerfectLap-SeniorProject/f1_gui.py:15-23 | beside a lap with no sector times, a lap with all three gives the optimum equal to its own sector sum |
| Ranking.DriverBestIsLeast | ThePerfectLap-SeniorProject/ThePerfectLap_SeniorProject.py:20 | a driver's grouped minimum is null exactly when none of the driver's laps has a time; otherwise it is one of the driver's lap times and no greater than any of them |
| Ranking.DriverCodes | ThePerfectLap-SeniorProject/ThePerfectLap_SeniorProject.py:20 | the group keys are distinct and are exactly the driver codes that occur in the laps |
| Ranking.GroupMins | ThePerfectLap-SeniorProject/ThePerfectLap_SeniorProject.py:20 | the grouped minimum has one entry per driver code occurring in the laps, no driver twice, each entry carrying that driver's minimum |
| Ranking.DropNull | ThePerfectLap-SeniorProject/ThePerfectLap_SeniorProject.py:20 | `dropna()` keeps exactly the groups that have a time |
| Ranking.DropNullDistinct | ThePerfectLap-SeniorProject/ThePerfectLap_SeniorProject.py:20 | groups with distinct drivers stay distinct after `dropna()` |
| Ranking.Insert | ThePerfectLap-SeniorProject/ThePerfectLap_SeniorProject.py:20 | inserting a row adds exactly that row |
| Ranking.InsertSorted | ThePerfectLap-SeniorProject/ThePerfectLap_SeniorProject.py:20 | inserting into a ranking sorted by time keeps it sorted |
| Ranking.InsertDistinct | ThePerfectLap-SeniorProject/ThePerfectLap_SeniorProject.py:20 | inserting a row for a new driver keeps the drivers distinct |
| Ranking.SortByTime | ThePerfectLap-SeniorProject/ThePerfectLap_SeniorProject.py:20 | `sort_values()` returns a permutation of its input |
| Ranking.SortSorted | ThePerfectLap-SeniorProject/ThePerfectLap_SeniorProject.py:20 | `sort_values()` returns rows in non-decreasing order of time |
| Ranking.SortDistinct | ThePerfectLap-SeniorProject/ThePerfectLap_SeniorProject.py:20 | sorting rows with distinct drivers keeps the drivers distinct |
| Ranking.SortKeepsRows | ThePerfectLap-SeniorProject/ThePerfectLap_SeniorProject.py:20 | a row is in the sorted ranking exactly when it was in the unsorted one |
| Ranking.GroupedRowSound | ThePerfectLap-SeniorProject/ThePerfectLap_SeniorProject.py:20 | every row after `dropna()` belongs to a driver with a lap time and carries that driver's minimum |
| Ranking.GroupedRowComplete | ThePerfectLap-SeniorProject/ThePerfectLap_SeniorProject.py:20 | every driver with a lap time has a row after `dropna()` carrying that driver's minimum |
| Ranking.GroupedRows | ThePerfectLap-SeniorProject/ThePerfectLap_SeniorProject.py:20 | the rows after `dropna()` are exactly the drivers with a lap time, each paired with its minimum |
| Ranking.BestLapRanking | ThePerfectLap-SeniorProject/ThePerfectLap_SeniorProject.py:20 | the ranking lists each driver at most once, in non-decreasing order of time, and holds exactly the pairs (driver, minimum) of the drivers with a lap time |
| Ranking.RankingTimesAreBest | ThePerfectLap-SeniorProject/ThePerfectLap_SeniorProject.py:20 | each ranked time is the time of one of that driver's laps, and no greater than any of that driver's lap times |
| Ranking.RankingListsExactlyTimedDrivers | ThePerfectLap-SeniorProject/ThePerfectLap_SeniorProject.py:20 | a driver is listed if and only if one of the driver's laps has a time: all-null drivers are dropped and no absent code appears |
| Ranking.RankedDrivers | ThePerfectLap-SeniorProject/ThePerfectLap_SeniorProject.py:21 | the drivers list has one entry per ranking row, names exactly the listed drivers, and names none twice when the ranking has distinct drivers |
| Ranking.RankedTimes | ThePerfectLap-SeniorProject/ThePerfectLap_SeniorProject.py:22 | the times list has one entry per ranking row, holds exactly the ranked times, and is non-decreasing when the ranking is sorted |
| Ranking.RankingListsAligned | ThePerfectLap-SeniorProject/ThePerfectLap_SeniorProject.py:20-22 | the drivers list and the times list have the ranking's length and line up position by position; the drivers are distinct and the times non-decreasing |

## Left out

- Session loading, cache set-up and telemetry download go through the fastf1 library, the disk and the network. They are not modelled. The "Load error" exit at f1_gui.py:30-33 therefore has no counterpart.
- The `pick_fastest` rule lives in the fastf1 library. `Analysis.Analyze` takes the chosen lap as a parameter. The case where that call finds no lap at all is not modelled.
- Analysis.Selection: `pick_driver` is modelled as equality of the three-letter driver code. The library also accepts a car number, and that form is not modelled.
- Analysis.Upper: only ASCII letters are upper-cased. Python's full Unicode case mapping is not modelled.
- The conversion to float seconds with `total_seconds()` is not modelled, and neither is the float sum of the minima. Durations stay integers, so `Analysis.Analyze` returns integer durations and the sum is exact.
- Ranking.DriverCodes: the group keys are in order of first appearance, whereas `groupby` sorts them. The order is not observable after `sort_values()`, except among equal times.
- Among equal best times, the order of the ranking is left open, because pandas' default sort is not stable.
- Laps whose driver code is null are not modelled; `groupby` would drop them.
- Tkinter widgets, message boxes, the matplotlib charts, the telemetry plots and the plot-embedding smoke test are presentation only. They are not modelled.
- The two-driver comparison and lap-time delta have no code in the repository, so they are not modelled.
