# Indian Railways EDA dashboard: table-selection logic in Dafny

The dashboard (`app.py`, a Streamlit script) loads three cleaned tables
(stations, trains, schedules) and renders charts and maps from them. The only
logic in it that is not rendering or file I/O is how it selects and counts
rows before handing them to the charting and mapping libraries. This project
models that logic over sequences of rows, with every cell that may be missing
(NaN) as an `Option`:

- **Coordinate filtering** (`Geospatial`). `dropna(subset=["latitude", "longitude"])`
  keeps the station rows with both coordinates, in table order. The station map
  and the density heatmap both get one point per surviving row, or a warning when
  no row survives.
- **Distance calculator** (`Geospatial`). The selectors offer the distinct non-missing
  station names in order of first appearance. A selected name resolves to the first
  row carrying it. When no row carries it, the error branch is taken. The
  great-circle formula is a function parameter, and the model states only that it
  is applied to the looked-up pair.
- **Train route** (`Geospatial`). The route takes the distinct station codes of the
  selected train's schedule rows (`unique()`: every repeat removed, first appearance
  kept). It then takes the station rows whose code is among them (`isin`), in
  **station-table order**. Their coordinates are handed to a polyline, with one
  marker per point, only when more than one row results.
- **Count tables** (`Counting`, `Aggregations`). These are the `groupby(...).count()`,
  `groupby(...).size()` and `value_counts()` tables of the Stations and Schedules tabs,
  sorted by decreasing count, and their `head(n)` prefixes.

Modules: `Wrappers` (Option), `Seqs` (selection, `dropna`, `unique`), `Counting`
(generic count tables), `Tables` (row types), `Aggregations` (Stations and
Schedules tabs), `Geospatial` (Geospatial Analysis tab).

The model follows what the code does, which differs in places from what a
route or a lookup would be expected to do:

- The code orders the route by the **station table**, not by schedule order.
- It removes **every** repeated station code, not only consecutive repeats.
- It keeps stations whose coordinates are missing in the route.
- A train with no schedule rows gets the same "Not enough data" warning as a
  one-point route. There is no separate "train not found" outcome.
- The code never checks coordinate ranges. A missing name in the distance
  calculator is an error only because indexing an empty selection raises.
- The heatmap points carry no explicit weight.
- Stops-per-train counts add up to the schedule rows that have both a train number
  and a station code. A row with a missing train number belongs to no group.

Two pandas behaviours are modelled explicitly:

- `groupby(key)[col].count()` lists every present key, with a count of 0 when all
  of that key's `col` cells are missing. `value_counts()` only lists values that
  occur.
- `isin` matches a missing code to a missing code. So a missing code among the
  train's stops selects every station row whose code is missing.

## Model

| member | source | states |
|---|---|---|
| `Seqs.Filter` | app.py:205 | boolean-mask selection keeps exactly the rows satisfying the mask, never more rows than the input |
| `Seqs.FilterAppend` | app.py:241 | selection preserves relative order (commutes with concatenation) |
| `Seqs.FilterCount` | app.py:227-230 | selection keeps every copy of a selected row and no copy of another |
| `Seqs.FilterFirst` | app.py:218 | `.values[0]` of a selection is the first row of the table satisfying the mask |
| `Seqs.Present` | app.py:213 | `dropna()` keeps exactly the present values, each as many times as it occurs |
| `Seqs.PresentAppend` | app.py:213 | `dropna()` keeps the order of the values it keeps (commutes with concatenation) |
| `Seqs.Distinct` | app.py:240 | `unique()` yields each value of the input exactly once and nothing else |
| `Seqs.DistinctFirstAppearance` | app.py:240 | `unique()` lists values in order of first appearance |
| `Counting.GroupCountBy` | app.py:149 | `groupby(k)[c].count()` has one entry per distinct present key, counting that key's rows with a present `c`; counts add up to the rows with both present |
| `Counting.TalliesSum` | app.py:149 | counting under distinct keys covering every present key counts each counted row exactly once |
| `Counting.HitsOfDistinct` | app.py:149 | a row is counted under at most one key of a duplicate-free key list, and exactly one when its key is listed |
| `Counting.Descending` | app.py:60 | `sort_values(ascending=False)` returns a permutation with non-increasing counts and the same total |
| `Counting.DescendingKeepsKeysDistinct` | app.py:60 | sorting never makes two entries share a key |
| `Counting.InsertDescending` | app.py:60 | inserting an entry into a non-increasing table keeps it non-increasing |
| `Counting.GroupCount` | app.py:60 | a sorted `groupby(k)[c].count()` table: every present key once, each with its count, non-increasing, summing to the counted rows |
| `Counting.GroupSize` | app.py:79 | `groupby(k).size()`: one entry per present key, its count the key's occurrences (at least 1), summing to the present keys |
| `Counting.ValueCounts` | app.py:67 | `value_counts()`: each present value once with its number of occurrences (at least 1), non-increasing, summing to the present values |
| `Counting.Top` | app.py:181 | `head(n)` is the prefix of length min(n, size) and dominates the rest of a non-increasing table |
| `Tables.TrainStops` | app.py:240 | the schedule rows of one train are exactly those whose train number equals the selected one |
| `Aggregations.StationsPerState` | app.py:60 | stations per state: every present state once with its count of present station codes, non-increasing |
| `Aggregations.TopStates` | app.py:62 | the chart's states are the first min(15, number of states) entries of the sorted table, and no state left out has a larger count |
| `Aggregations.StationsPerZone` | app.py:67 | zone counts: each present zone once with its number of stations (at least 1), non-increasing, summing to the stations with a zone |
| `Aggregations.StationsPerCity` | app.py:73 | stations per address: every present address once with its count of present codes, non-increasing |
| `Aggregations.TopCities` | app.py:73 | the chart's cities are the first min(20, number of cities) entries of the sorted table and dominate the rest |
| `Aggregations.StateZoneCounts` | app.py:79 | one heatmap cell per (state, zone) pair present, counting the stations with that pair |
| `Aggregations.HaltsPerStation` | app.py:143 | halts per station name: each present name once with its count of rows with a train number, non-increasing |
| `Aggregations.BusiestStations` | app.py:145 | the busiest stations are the first min(20, number of station names) entries of the sorted table and dominate the rest |
| `Aggregations.StopsPerTrain` | app.py:149 | stops per train: each present train number once with its count of rows with a station code, non-increasing |
| `Aggregations.TopTrains` | app.py:181 | the top-10 table is the first min(10, number of trains) entries of stops-per-train, and no other train has more stops |
| `Counting.TopDominates` | app.py:181 | any prefix of a non-increasing table dominates every entry left out of it |
| `Aggregations.StopsOfTrain` | app.py:149 | a train's count is the number of its schedule rows that have a station code |
| `Aggregations.StopsTotal` | app.py:149 | the counted rows are those with both a train number and a station code |
| `Aggregations.StopsPerTrainCounts` | app.py:149 | every entry of stops-per-train equals its train's schedule rows with a station code |
| `Aggregations.StopsPerTrainCovers` | app.py:149 | every train number present in the schedule has an entry |
| `Aggregations.StopsPerTrainSum` | app.py:149 | the entries add up to the schedule rows with both a train number and a station code |
| `Geospatial.MappableStations` | app.py:205 | keeps exactly the station rows with both coordinates, with their multiplicities |
| `Geospatial.MappableStationsInOrder` | app.py:205 | the surviving rows keep table order |
| `Geospatial.HeatPoints` | app.py:227-230 | one point per surviving row, every point with both coordinates present |
| `Geospatial.HeatPointsPerStation` | app.py:227-230 | appending a station appends exactly its point when it has both coordinates, and nothing otherwise: duplicates are not merged |
| `Geospatial.CoordinatePanel` | app.py:205-209 | the map (and, at lines 227-233, the heatmap) is drawn iff some row has both coordinates, with the heat points; otherwise a warning |
| `Geospatial.StationChoices` | app.py:213 | the selector choices are duplicate-free and are exactly the names present in some row |
| `Geospatial.StationChoicesInOrder` | app.py:213 | the choices are listed in order of first appearance |
| `Geospatial.Lookup` | app.py:218 | a name resolves iff some row carries it, and then to the coordinates of the first such row |
| `Geospatial.CalculateDistance` | app.py:217-223 | a distance is reported iff both names resolve and the formula succeeds on the two looked-up pairs, and it is the formula's value |
| `Geospatial.ChoiceResolves` | app.py:213-219 | every name the selectors offer resolves to a row |
| `Geospatial.DistanceOfChoices` | app.py:213-223 | for offered names only the formula can fail, applied to the first rows carrying them |
| `Geospatial.TrainChoices` | app.py:239 | the train selector's choices are each train number once (a missing number included), and nothing else |
| `Geospatial.RouteCodes` | app.py:240 | the route codes are duplicate-free and exactly the codes of the selected train's schedule rows; other trains' codes never appear |
| `Geospatial.RouteCodesInOrder` | app.py:240 | route codes are in order of first appearance in the train's schedule |
| `Geospatial.RouteStations` | app.py:241 | exactly the station rows whose code is a route code, each with its multiplicity: a shared code gives several rows, an unknown code none |
| `Geospatial.RouteStationsInOrder` | app.py:241 | route rows are in station-table order |
| `Geospatial.TrainRoute` | app.py:241-249 | the polyline and markers are handed points iff more than one station row is selected; the polyline gets their coordinates and the markers are the same points, one per point |
| `Geospatial.NoStopsNoRoute` | app.py:240-249 | a train with no schedule rows, or a missing train number, gets the warning |
| `Geospatial.MissingCodeMatchesMissingCodes` | app.py:240-241 | a missing code among the train's stops selects every station row with a missing code |
| `Geospatial.RouteFollowsStationTable` | app.py:240-244 | a train stopping at B then A is drawn A then B when A comes first in the station table |
| `Geospatial.RouteDropsEveryRepeat` | app.py:240 | a train visiting A, B, A has route codes A, B: non-consecutive repeats are removed too |
| `Geospatial.GeospatialTab` | app.py:202-251 | the tab shows panels iff there are stations with coordinate columns; map and heatmap are both the coordinate panel of the stations; the route section is hidden iff the trains or schedules table is empty; otherwise it warns iff a table lacks a train-number column and else shows the train choices and the selected train's route |

## Left out

- Loading the CSV files, `st.cache_data` and the fallback to an empty table (app.py:12-32) are file I/O and framework caching. Tables are parameters.
- Streamlit widgets, layout and the Plotly, `st.map` and Folium objects are rendering. Only the data handed to them is modelled. The selected station names and train number are parameters, and the button press is the call of `CalculateDistance`.
- `geopy.distance.great_circle` (app.py:220) is a foreign call with floating-point trigonometry. It is the `greatCircle` parameter, and `None` stands for it raising.
- Coordinates are `real` values that are only compared and passed on. Floating-point values, NaN as a number and range checks are not modelled.
- The mean halt time (app.py:157), the map centre (app.py:243), the histograms and their binning are floating point or rendering.
- Counting.Descending: ties among equal counts are broken by input order. pandas does not fix that order, so no contract here states it. The contracts say only that counts are non-increasing.
- Counting.GroupSize: groups are listed in order of first appearance, while pandas lists them sorted by key. Its contracts state no order. `Aggregations.StateZoneCounts` feeds an order-insensitive density chart.
- The trains-tab value counts (app.py:98, app.py:107) and the day counts (app.py:168) are the same `value_counts()` shape as `Counting.ValueCounts` and are not instantiated.
- The `.empty` guards of the Stations, Trains and Schedules tabs are not modelled. Neither are the exceptions a missing column raises inside a tab's `try` block (app.py:82-83, 193-194, 252-253). The model assumes every column it reads exists, apart from the two column checks at app.py:202 and app.py:238.
- CSV and report downloads (app.py:258-284) serialise whole tables and read files.
- Geospatial.TrainRoute: route rows with a missing coordinate are handed to the polyline and markers as the code hands them. Folium rejects such a location with an error, which the tab then reports (app.py:252-253) instead of a map; that rejection is not modelled.
- The marker loop (app.py:245-246) adds markers to a Folium map. It is modelled as the marker sequence being the polyline's points.
