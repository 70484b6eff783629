# Country collaboration network and map helpers

This project models two small cores of an EU health-funding dashboard:

- **The collaboration network** (`health/utils/graph_utils.py`): given the
  rows of the project table (a `projectID` and an optional `country_name`),
  `build_country_network` groups the rows by project. It takes the distinct
  non-missing countries of each project and sorts them. For every project with
  at least two countries, it appends every 2-combination to an edge list. It
  counts the edge list with a `Counter`. Then it builds an undirected
  `networkx.Graph` holding every pair whose count reaches `min_weight`
  (default 5). It returns the graph and the counts.
- **The map helpers** (`template/utils/map_utils.py`):
  - `determine_circle_radius` and `determine_circle_color` put a truncated
    value into fixed bins.
  - `filter_data` keeps the rows of one year.
  - `dataframe_to_geojson` puts a 4°×4° square GeoJSON polygon around every
    country.
  - `add_circles` scales each marker's radius by the country's share of the
    largest funding, clamped to [5, 20].

The network builder is imperative Dafny. Every phase is a `method` with
loops: grouping, collecting pairs, counting, and building the graph. Each
phase is proved against ghost specification functions of the input rows:

- `ProjectIds` and `CountriesOf` give the projects and each project's countries.
- `Collaborations(rows, a, b)` is the set of projects that share countries `a`
  and `b`.
- `PairCounts(rows)` maps every ascending pair that shares a project to the
  number of such projects.
- `KeptEdges` is the threshold filter.

The graph is a `class` with a node set and an edge-weight map keyed by the
pair in ascending order. `AddEdge` updates both in place, as
`Graph.add_edge` does. Python's `sorted` on strings and
`itertools.combinations(_, 2)` are functions over sequences in
`Combinatorics`. `SortStrings` uses lexicographic order on code points
(`StringOrder`); `Combinations2` is generic in the element type.

The map helpers are pure functions, except `DataframeToGeojson`, which keeps
the source's append loop. Floating-point numbers are `Float = NaN | Num(real)`.
`Trunc` is Python's `int()` on a float, which truncates toward zero. `PyMin` and
`PyMax` follow Python's `min`/`max` on two arguments, which return the first
argument unless the second is strictly smaller (or larger). A DataFrame is a
`Frame`: the set of optional columns present, and the rows. `Get` models
`row.get(col, 0)`.

The radius clamp treats a missing (`NaN`) funding in a particular way when the
largest funding is positive. `(nan / m) * 20` is `NaN`, `min(20, nan)` returns
`20`, and `max(5, 20)` returns `20`, so the clamp expression gives the largest
radius (`MapUtils.MarkerRadiusOfNaNFunding`). `add_circles` never reaches that
expression for such a row, though. It builds the popup text first, and the
popup's `int()` of a NaN funding raises `ValueError` (see "Left out").

## Model

| member | source | states |
|---|---|---|
| CountryNetwork.BuildCountryNetwork | health/utils/graph_utils.py:53-74 | the returned counts are exactly `PairCounts(rows)`: every ascending pair of countries that share a project, mapped to the number of distinct projects sharing them; the graph's weights are exactly the pairs whose count is at least `minWeight`, with those counts; its nodes are exactly the endpoints of those edges |
| CountryNetwork.GroupCountries | health/utils/graph_utils.py:60-61 | the result lists every project ID that occurs, once each; each project's group holds exactly the countries given for it, with missing countries dropped, and no repetitions |
| CountryNetwork.CollectPairs | health/utils/graph_utils.py:60-64 | for every pair, its multiplicity in the edge list equals the number of listed projects whose group (of two or more countries) contains both countries in ascending order |
| CountryNetwork.CollectProject | health/utils/graph_utils.py:61-64 | one pass of the loop: appending project `p`'s pairs adds exactly `p`'s share to every pair's tally |
| CountryNetwork.AppendAll | health/utils/graph_utils.py:63-64 | appending the combinations one by one yields the old list followed by all of them, in order |
| CountryNetwork.ProjectPairsExactlyOnce | health/utils/graph_utils.py:61-63 | a project with k distinct countries contributes k(k-1)/2 pairs, and each pair `(a, b)` with `a < b` of its countries exactly once, and no other pair |
| CountryNetwork.FewCountriesNoPair | health/utils/graph_utils.py:62 | a project with fewer than two countries has no ascending pair of countries, so skipping it loses nothing |
| CountryNetwork.CountPairs | health/utils/graph_utils.py:66 | `Counter`: a key is present iff it occurs in the edge list, and its count is its multiplicity there |
| CountryNetwork.PairTally | health/utils/graph_utils.py:60-64 | after grouping and collection, a pair occurs in the edge list once per project that lists both its countries, and not at all when it is not an ascending co-occurring pair |
| CountryNetwork.PhasesComputePairCounts | health/utils/graph_utils.py:60-66 | the grouping, collection and counting phases together compute `PairCounts(rows)` |
| CountryNetwork.CoOccurringIffShared | health/utils/graph_utils.py:60-64 | a pair is a key of the counts iff it is ascending and some project lists both countries |
| CountryNetwork.ThresholdGraph | health/utils/graph_utils.py:69-72 | starting from an empty graph and adding an edge for each count at least `minWeight` gives exactly the kept edges with their counts as weights, and exactly their endpoints as nodes |
| CountryNetwork.Graph.constructor | health/utils/graph_utils.py:69 | `nx.Graph()` has no nodes and no edges |
| CountryNetwork.Graph.AddEdge | health/utils/graph_utils.py:72 | `add_edge(u, v, weight=w)` adds both nodes and sets the weight of the undirected edge {u, v}, leaving every other edge unchanged |
| CountryNetwork.EdgeKey | health/utils/graph_utils.py:72 | an undirected edge is stored under its two endpoints in ascending order |
| CountryNetwork.EdgeKeySymmetric | health/utils/graph_utils.py:72 | `{u, v}` and `{v, u}` are the same edge |
| CountryNetwork.Graph.HasEdge | health/utils/graph_utils.py:69-72 | `G.has_edge(u, v)`: whether the undirected edge has a weight, in either orientation, as HasEdgeSymmetric states |
| CountryNetwork.HasEdgeSymmetric | health/utils/graph_utils.py:69-72 | the graph is undirected: `u`–`v` is an edge iff `v`–`u` is |
| CountryNetwork.PairCountsOrdered | health/utils/graph_utils.py:61-66 | every counted pair is ascending (so never a self-pair), and no pair is counted in both orientations |
| CountryNetwork.PairCountIsSharedProjects | health/utils/graph_utils.py:60-66 | for `a < b`: `(a, b)` is counted iff some project lists both, and its count is the number of such projects |
| CountryNetwork.KeptEdgeIsFrequentPair | health/utils/graph_utils.py:69-72 | for `a < b`: `(a, b)` is an edge iff at least one and at least `minWeight` projects list both countries, and its weight is that number of projects |
| CountryNetwork.RaisingThresholdRemovesEdges | health/utils/graph_utils.py:70-72 | a higher `min_weight` keeps a subset of the edges, with the same weights, and a subset of the nodes |
| CountryNetwork.CountryImpliesProject | health/utils/graph_utils.py:60-61 | a country is listed only for a project that occurs in the rows |
| CountryNetwork.SameCountriesSameCounts | health/utils/graph_utils.py:60-66 | the counts depend only on which countries each project lists, not on the number or order of rows |
| CountryNetwork.RedundantRowChangesNothing | health/utils/graph_utils.py:61 | a row with a missing country, or one that repeats a country already listed for its project, changes no count (`dropna().unique()`) |
| CountryNetwork.NewProjectAddsOne | health/utils/graph_utils.py:60-66 | adding the rows of a new project raises a pair's number of collaborations by one iff the new project lists both countries, and otherwise leaves it unchanged |
| CountryNetwork.SmallProjectAddsNothing | health/utils/graph_utils.py:62 | a new project with fewer than two countries changes no count |
| Combinatorics.SortStrings | health/utils/graph_utils.py:63 | `sorted`: a permutation of its input in non-descending order, and strictly ascending when the input has no repetitions |
| Combinatorics.Insert | health/utils/graph_utils.py:63 | inserting one string adds exactly that element to the multiset |
| Combinatorics.InsertSorted | health/utils/graph_utils.py:63 | inserting into a sorted list keeps it sorted |
| Combinatorics.InsertStrictlySorted | health/utils/graph_utils.py:63 | inserting a new string into an ascending list keeps it strictly ascending |
| Combinatorics.PairsWith | health/utils/graph_utils.py:63 | pairs `x` with each later element, in order |
| Combinatorics.Combinations2 | health/utils/graph_utils.py:63 | `itertools.combinations(s, 2)`; which pairs it yields, how many and how often each is stated by CombinationsMembers, CombinationsLength and CombinationsCount |
| Combinatorics.CombinationsMembers | health/utils/graph_utils.py:63 | `combinations(s, 2)` yields a pair iff it is `(s[i], s[j])` for some positions `i < j` |
| Combinatorics.CombinationsLength | health/utils/graph_utils.py:63 | `combinations(s, 2)` has `n(n-1)/2` elements |
| Combinatorics.CombinationsCount | health/utils/graph_utils.py:63 | over a strictly ascending list, `(a, b)` occurs once if both are elements and `a < b`, and otherwise not at all |
| StringOrder.Less | health/utils/graph_utils.py:63 | `<` on `str`, the order `sorted` uses: code point by code point, a proper prefix first; its order properties are stated by LessIrreflexive, LessAsymmetric, LessTransitive and LessTotal |
| StringOrder.LessIrreflexive | health/utils/graph_utils.py:63 | no string precedes itself |
| StringOrder.LessAsymmetric | health/utils/graph_utils.py:63 | the string order is asymmetric |
| StringOrder.LessTransitive | health/utils/graph_utils.py:63 | the string order is transitive |
| StringOrder.LessTotal | health/utils/graph_utils.py:63 | any two strings are equal or ordered one way |
| StringOrder.Trichotomy | health/utils/graph_utils.py:63 | `a < b` iff they differ and not `b < a` |
| Floats.Trunc | template/utils/map_utils.py:15 | `int(x)` truncates toward zero: for `x >= 0`, `n <= x < n + 1`, and for `x < 0`, `n - 1 < x <= n` |
| Floats.TruncOfInt | template/utils/map_utils.py:15 | `int` of a whole number is that number |
| Floats.FloatLess | template/utils/map_utils.py:82-83 | `x < y` on floats, false whenever either side is NaN; PyMin, PyMax and MarkerRadius state its effect on the clamp |
| Floats.PyMin | template/utils/map_utils.py:83 | Python's `min(a, b)`: on numbers, no larger than either; the first argument when the second is NaN; NaN when the first is NaN |
| Floats.PyMax | template/utils/map_utils.py:83 | Python's `max(a, b)`: on numbers, no smaller than either; the first argument when the second is NaN; NaN when the first is NaN |
| MapUtils.Range.Contains | template/utils/map_utils.py:22 | `n in range(start, stop)`: `start <= n < stop`; the colour test on line 53 uses the same membership, and ColorBinsPartition states which integers the colour bins hold |
| MapUtils.FirstBin | template/utils/map_utils.py:21-23 | the index of the first bin containing `n`, or none when no bin contains it |
| MapUtils.FirstBinOfDisjoint | template/utils/map_utils.py:21-23 | when only bin `i` contains `n`, `i` is the bin chosen |
| MapUtils.CircleRadius | template/utils/map_utils.py:8-24 | `determine_circle_radius`: 5 for NaN, and between 0 and the integer part for a value whose integer part is non-negative; the value on every bin is given by CircleRadiusByBin |
| MapUtils.CircleRadiusByBin | template/utils/map_utils.py:12-24 | for `n = int(x)`: radius `int(1.1 n)` for 0..9, `int(0.8 n)` for 10..19, `int(0.75 n)` for 20..24 and `int(0.2 n)` otherwise, including negative values |
| MapUtils.CircleRadiusOfNaN | template/utils/map_utils.py:12-13 | a missing value gets radius 5 |
| MapUtils.CircleRadiusSmallIsIdentity | template/utils/map_utils.py:17-23 | for values whose integer part is 0..9, the radius is that integer part |
| MapUtils.CircleRadiusBounds | template/utils/map_utils.py:15-24 | the radius of a non-negative value is between 0 and its integer part; a negative value gets a radius of at most 0 |
| MapUtils.CircleRadiusDropsAtBinEdges | template/utils/map_utils.py:17-24 | the radius is not monotone: it falls from 9 to 8 between 9 and 10, and from 18 to 5 between 24 and 25 |
| MapUtils.ColorBinsPartition | template/utils/map_utils.py:32-40 | the seven colour bins do not overlap and together cover exactly 0..99 |
| MapUtils.ColorBinOf | template/utils/map_utils.py:32-53 | the bin chosen for each integer: 0, 1, 2..4, 5..9, 10..19, 20..49, 50..99 give bins 0 to 6, and any other integer none |
| MapUtils.BinColorByBin | template/utils/map_utils.py:32-55 | the colour of each bin for an integer, and `#08589E` outside 0..99 |
| MapUtils.CircleColor | template/utils/map_utils.py:27-55 | `determine_circle_color`: grey `#D2D2D2` exactly for NaN; the colour of every bin is given by CircleColorByBin |
| MapUtils.BinColor | template/utils/map_utils.py:30-55 | the colour loop over the integer part always gives a palette colour or `#08589E`, never the missing-data grey; the colour of each bin is given by BinColorByBin |
| MapUtils.CircleColorByBin | template/utils/map_utils.py:27-55 | for `n = int(x)`: the colour of each bin (0, 1, 2..4, 5..9, 10..19, 20..49, 50..99), and `#08589E` for every other `n`, negatives included |
| MapUtils.CircleColorOfNaN | template/utils/map_utils.py:28-29 | a missing value is grey `#D2D2D2` |
| MapUtils.CircleColorIsFixed | template/utils/map_utils.py:27-55 | every colour is one of the nine fixed colours |
| MapUtils.RowCircleColor | template/utils/map_utils.py:91 | a marker's fill colour is the missing-data grey exactly when the frame has a `HealthyLifeYears` column and the row's value is NaN |
| MapUtils.CircleColorWithoutHealthData | template/utils/map_utils.py:27-55 | without a `HealthyLifeYears` column, `row.get` gives 0, so the colour is `#F7FCF0` |
| MapUtils.RowsOfYear | template/utils/map_utils.py:164 | the year mask: no more rows than the input, every one of that year; RowsOfYearCounts and RowsOfYearAppend say which rows and in what order |
| MapUtils.Get | template/utils/map_utils.py:173-182 | `row.get(col, 0)`: the row's cell when the frame has the column, else 0, as RowFeatureDefaults and MarkerRadiusWithoutFunds state |
| MapUtils.RowsOfYearCounts | template/utils/map_utils.py:162-164 | the filter keeps each row of the year as often as it occurs, and no other row |
| MapUtils.FilterData | template/utils/map_utils.py:162-164 | the result has the same columns, and a row is in it iff it is in the frame and has that year |
| MapUtils.RowsOfYearAppend | template/utils/map_utils.py:164 | filtering distributes over concatenation, so the order of the rows is kept |
| MapUtils.RowsOfYearSingle | template/utils/map_utils.py:164 | one row is kept iff it has that year |
| MapUtils.RowsOfYearFixed | template/utils/map_utils.py:164 | rows that all have that year are kept unchanged |
| MapUtils.FilterDataIdempotent | template/utils/map_utils.py:162-164 | filtering twice by the same year changes nothing |
| MapUtils.FilterDataOtherYear | template/utils/map_utils.py:162-164 | filtering by two different years leaves no row |
| MapUtils.SeriesMax | template/utils/map_utils.py:64 | `Series.max()` skips NaN: NaN iff every value is NaN, and otherwise a value of the series at least as large as every number in it |
| MapUtils.MaxFunds | template/utils/map_utils.py:64 | `max_funds`: 0 without a `TotalFunds` column; otherwise NaN iff every row's funding is NaN, and else the funding of some row, at least as large as every numeric funding |
| MapUtils.MarkerRadius | template/utils/map_utils.py:80-83 | the radius is always a number in [5, 20], and 5 when the largest funding is not positive |
| MapUtils.MarkerRadiusClamps | template/utils/map_utils.py:83 | for a positive maximum, the radius is `20·f/m` clamped to [5, 20] |
| MapUtils.MarkerRadiusOfNaNFunding | template/utils/map_utils.py:83 | missing funding gets radius 20 when the maximum is positive |
| MapUtils.MarkerRadiusMonotone | template/utils/map_utils.py:83 | more funding never gives a smaller marker |
| MapUtils.RowMarkerRadius | template/utils/map_utils.py:80-83 | the radius of a row's marker, from `row.get("TotalFunds", 0)` and `max_funds`, is always a number in [5, 20]; its values in full are given by MarkerRadiusClamps, MarkerRadiusOfNaNFunding and MarkerRadiusWithoutFunds |
| MapUtils.MarkerRadiusWithoutFunds | template/utils/map_utils.py:64-83 | without a `TotalFunds` column, every marker has radius 5 |
| MapUtils.BestFundedGetsLargestMarker | template/utils/map_utils.py:64-83 | a row of the frame with the largest positive funding gets radius 20 |
| MapUtils.SquareRing | template/utils/map_utils.py:191-199 | the square ring of half-side 2 around the centre; its shape is stated by SquareRingIsClosedAroundCentre and SquareRingIsCounterclockwiseSquare |
| MapUtils.SquareRingIsClosedAroundCentre | template/utils/map_utils.py:191-199 | the ring has five positions, is closed (first equals last), and is centred on `(lon, lat)` |
| MapUtils.SquareRingIsCounterclockwiseSquare | template/utils/map_utils.py:191-199 | the four corners are distinct, offset by ±2 from the centre, joined by axis-parallel edges, and the shoelace sum is +32, so the ring has area 16 and runs counterclockwise (section 3.1.6 of RFC 7946) |
| MapUtils.RowFeature | template/utils/map_utils.py:171-201 | a Feature with the country's name as `id` and as `name`, a Polygon with one closed linear ring, centred on the row's (longitude, latitude) |
| MapUtils.RowFeatureDefaults | template/utils/map_utils.py:173-182 | a missing coordinate column puts the square's centre at 0 on that axis; a missing value column gives property 0; a present one gives the row's value |
| MapUtils.DataframeToGeojson | template/utils/map_utils.py:167-204 | a `FeatureCollection` with one feature per row, in row order, the i-th built from the i-th row |

## Left out

- The dashboard's reactive web wiring, plot and chart construction, network drawing (`create_network_plot`, node positions) and data loading are not part of this model.
- `add_circles`: clearing and filling the ipyleaflet layer, the popup HTML and the `CircleMarker` options are display side effects. Only the radius computation (lines 64 and 80-83) and the colour lookup are modelled. `add_polygons` and the `merge` of geometry into the frame are not part of this model.
- Floats are exact reals, not IEEE doubles. The coefficients 1.1, 0.8, 0.75 and 0.2 are taken as exact decimals, so a product that lands within one rounding error of a whole number may truncate differently in Python. Infinities, and the `OverflowError` that `int()` raises on them, are not modelled.
- NaN is one value, so datatype equality treats NaN as equal to NaN. "The ring is closed" therefore holds structurally even for NaN coordinates, where Python's `==` would say otherwise.
- A missing `projectID` is not modelled (pandas `groupby` drops such rows). Project IDs are integers.
- `groupby` key order, `Counter` insertion order and the graph's node and edge iteration order are not modelled, because the results are maps and sets.
- The graph keeps only its node set and their edge weights. Node and edge attribute dictionaries other than `weight` are not modelled, and `G.add_edge`'s other keyword arguments are not used by the source.
- `Entity` and `Year` are always present in the modelled frames. The source raises `KeyError` without them, and that error path is not modelled. `Year` is an integer, compared with `==`.
- The GeoJSON `"type"` member is the field `kind`. The result is a record, not a Python dict.
- MapUtils.MarkerRadius: the radius is always a `Float`. The source returns the integer 5 when `max_funds` is not positive and whenever the scaled value is at most 5, and the integer 20 whenever it is at least 20 (or the funding is NaN, a row `add_circles` never reaches this line for), because Python's two-argument `min` and `max` keep their first argument on ties and on NaN; only for a scaled value strictly between 5 and 20 is the result a float. The value is the same.
- MapUtils.RowMarkerRadius: the popup text of `add_circles` is built before the radius. Its `int()` of the row's `GDP` or `TotalFunds` cell (lines 72-73) raises `ValueError` on NaN. That stops `add_circles` after it has cleared the layer, so no circle is drawn for any row. This error path is not modelled: `RowMarkerRadius` gives the value the radius expression would have.
- StringOrder.Less: Python compares strings by code point, and a `char` here is a Unicode scalar value, so the two orders agree on every string the model can hold. A Python string holding a lone surrogate code point cannot be represented.
