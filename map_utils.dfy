/**
 * The helpers behind the funding map: the colour and size of a country's
 * circle, the year filter, the marker radius scaled by funding, and the
 * GeoJSON FeatureCollection of square country polygons.
 */
module MapUtils {
  import opened Wrappers
  import opened Floats

  // ---------------------------------------------------------------------------
  // Bin lookup.

  /** Python's `range(start, stop)`, used only for membership. */
  datatype Range = Range(start: int, stop: int) {
    predicate Contains(n: int)
    {
      start <= n < stop
    }
  }

  /** The loop `for bin, x in zip(bins, xs): if num in bin: return x`:
      the index of the first bin that holds `n`, if any. */
  function FirstBin(n: int, bins: seq<Range>): (r: Option<nat>)
    ensures r.Some? ==> r.value < |bins| && bins[r.value].Contains(n)
    ensures r.Some? ==> forall j :: 0 <= j < r.value ==> !bins[j].Contains(n)
    ensures r.None? <==> forall j :: 0 <= j < |bins| ==> !bins[j].Contains(n)
  {
    if bins == [] then None
    else if bins[0].Contains(n) then Some(0)
    else match FirstBin(n, bins[1..])
      case None => None
      case Some(i) => Some(i + 1)
  }

  /** When bins do not overlap, the first bin that holds `n` is the only one. */
  lemma FirstBinOfDisjoint(n: int, bins: seq<Range>, i: nat)
    requires i < |bins| && bins[i].Contains(n)
    requires forall j :: 0 <= j < |bins| && j != i ==> !bins[j].Contains(n)
    ensures FirstBin(n, bins) == Some(i)
  {
  }

  // ---------------------------------------------------------------------------
  // determine_circle_radius

  const RadiusBins: seq<Range> := [Range(0, 10), Range(10, 20), Range(20, 25)]
  const RadiusCoefficients: seq<real> := [1.1, 0.8, 0.75]
  const FinalRadiusCoefficient: real := 0.2
  const NaNRadius: int := 5

  /** `determine_circle_radius(num)` */
  function CircleRadius(num: Float): (r: int)
    ensures num.NaN? ==> r == NaNRadius
    ensures num.Num? && 0 <= Trunc(num.value) ==> 0 <= r <= Trunc(num.value)
  {
    match num
    case NaN => NaNRadius
    case Num(x) =>
      var n := Trunc(x);
      match FirstBin(n, RadiusBins)
      case Some(i) => Trunc(n as real * RadiusCoefficients[i])
      case None => Trunc(n as real * FinalRadiusCoefficient)
  }

  /** The radius of each bin, for the truncated value `n`. */
  lemma CircleRadiusByBin(x: real)
    ensures var n, r := Trunc(x), CircleRadius(Num(x));
            && (0 <= n < 10 ==> r == Trunc(n as real * 1.1))
            && (10 <= n < 20 ==> r == Trunc(n as real * 0.8))
            && (20 <= n < 25 ==> r == Trunc(n as real * 0.75))
            && (n < 0 || 25 <= n ==> r == Trunc(n as real * 0.2))
  {
    var n := Trunc(x);
    if 0 <= n < 10 {
      FirstBinOfDisjoint(n, RadiusBins, 0);
    } else if 10 <= n < 20 {
      FirstBinOfDisjoint(n, RadiusBins, 1);
    } else if 20 <= n < 25 {
      FirstBinOfDisjoint(n, RadiusBins, 2);
    }
  }

  /** A missing value gets radius 5. */
  lemma CircleRadiusOfNaN()
    ensures CircleRadius(NaN) == 5
  {
  }

  /** On 0..9 the radius is the truncated value itself: `int(n * 1.1) == n`. */
  lemma CircleRadiusSmallIsIdentity(x: real)
    requires 0 <= Trunc(x) <= 9
    ensures CircleRadius(Num(x)) == Trunc(x)
  {
    CircleRadiusByBin(x);
    var n := Trunc(x);
    var r := Trunc(n as real * 1.1);
    assert n as real <= n as real * 1.1 < n as real + 1.0;
    assert r == n;
  }

  /** A non-negative value never gets a negative radius, nor one above its
      truncation; a negative value never gets a positive one. */
  lemma CircleRadiusBounds(x: real)
    ensures 0.0 <= x ==> 0 <= CircleRadius(Num(x)) <= Trunc(x)
    ensures x < 0.0 ==> CircleRadius(Num(x)) <= 0
  {
    CircleRadiusByBin(x);
  }

  /** The radius is not monotone: it drops where a bin ends. */
  lemma CircleRadiusDropsAtBinEdges()
    ensures CircleRadius(Num(9.0)) == 9 && CircleRadius(Num(10.0)) == 8
    ensures CircleRadius(Num(24.0)) == 18 && CircleRadius(Num(25.0)) == 5
  {
    CircleRadiusByBin(9.0);
    CircleRadiusByBin(10.0);
    CircleRadiusByBin(24.0);
    CircleRadiusByBin(25.0);
  }

  // ---------------------------------------------------------------------------
  // determine_circle_color

  const ColorBins: seq<Range> :=
    [Range(0, 1), Range(1, 2), Range(2, 5), Range(5, 10), Range(10, 20), Range(20, 50), Range(50, 100)]
  const ColorPalette: seq<string> :=
    ["#F7FCF0", "#E0F3DB", "#CCEBC5", "#A8DDB5", "#7BCCC4", "#4EB3D3", "#2B8CBE"]
  const FinalColor: string := "#08589E"
  const NaNColor: string := "#D2D2D2"

  /** `determine_circle_color(num)` */
  function CircleColor(num: Float): (r: string)
    ensures r == NaNColor <==> num.NaN?
  {
    match num
    case NaN => NaNColor
    case Num(x) => BinColor(Trunc(x))
  }

  /** The colour loop, on the truncated value. */
  function BinColor(n: int): (r: string)
    ensures r in ColorPalette || r == FinalColor
    ensures r != NaNColor
  {
    assert ColorPalette[0] == "#F7FCF0" && ColorPalette[1] == "#E0F3DB" && ColorPalette[2] == "#CCEBC5";
    assert ColorPalette[3] == "#A8DDB5" && ColorPalette[4] == "#7BCCC4" && ColorPalette[5] == "#4EB3D3";
    assert ColorPalette[6] == "#2B8CBE";
    match FirstBin(n, ColorBins)
    case Some(i) => ColorPalette[i]
    case None => FinalColor
  }

  /** No value lies in two colour bins, and exactly the values 0..99 lie in one. */
  lemma ColorBinsPartition(n: int)
    ensures forall i, j :: 0 <= i < j < |ColorBins| ==> !(ColorBins[i].Contains(n) && ColorBins[j].Contains(n))
    ensures (exists i :: 0 <= i < |ColorBins| && ColorBins[i].Contains(n)) <==> 0 <= n < 100
  {
    if 0 <= n < 100 {
      var i := if n < 1 then 0 else if n < 2 then 1 else if n < 5 then 2 else if n < 10 then 3
               else if n < 20 then 4 else if n < 50 then 5 else 6;
      assert ColorBins[i].Contains(n);
    }
  }

  /** The colour bin the truncated value `n` falls in. */
  lemma ColorBinOf(n: int)
    ensures FirstBin(n, ColorBins)
            == if n < 0 || 100 <= n then None
               else if n < 1 then Some(0) else if n < 2 then Some(1) else if n < 5 then Some(2)
               else if n < 10 then Some(3) else if n < 20 then Some(4) else if n < 50 then Some(5)
               else Some(6)
  {
    if n < 0 || 100 <= n {
      assert FirstBin(n, ColorBins).None?;
    } else {
      var i := if n < 1 then 0 else if n < 2 then 1 else if n < 5 then 2 else if n < 10 then 3
               else if n < 20 then 4 else if n < 50 then 5 else 6;
      FirstBinOfDisjoint(n, ColorBins, i);
    }
  }

  /** The colour of each bin. */
  lemma BinColorByBin(n: int)
    ensures var c := BinColor(n);
            && (n == 0 ==> c == "#F7FCF0")
            && (n == 1 ==> c == "#E0F3DB")
            && (2 <= n < 5 ==> c == "#CCEBC5")
            && (5 <= n < 10 ==> c == "#A8DDB5")
            && (10 <= n < 20 ==> c == "#7BCCC4")
            && (20 <= n < 50 ==> c == "#4EB3D3")
            && (50 <= n < 100 ==> c == "#2B8CBE")
            && (n < 0 || 100 <= n ==> c == "#08589E")
  {
    ColorBinOf(n);
    assert ColorPalette[0] == "#F7FCF0";
    assert ColorPalette[1] == "#E0F3DB";
    assert ColorPalette[2] == "#CCEBC5";
    assert ColorPalette[3] == "#A8DDB5";
    assert ColorPalette[4] == "#7BCCC4";
    assert ColorPalette[5] == "#4EB3D3";
    assert ColorPalette[6] == "#2B8CBE";
  }

  /** The colour of each bin, for the truncated value `n`. */
  lemma CircleColorByBin(x: real)
    ensures var n, c := Trunc(x), CircleColor(Num(x));
            && (n == 0 ==> c == "#F7FCF0")
            && (n == 1 ==> c == "#E0F3DB")
            && (2 <= n < 5 ==> c == "#CCEBC5")
            && (5 <= n < 10 ==> c == "#A8DDB5")
            && (10 <= n < 20 ==> c == "#7BCCC4")
            && (20 <= n < 50 ==> c == "#4EB3D3")
            && (50 <= n < 100 ==> c == "#2B8CBE")
            && (n < 0 || 100 <= n ==> c == "#08589E")
  {
    BinColorByBin(Trunc(x));
  }

  /** A missing value is drawn grey. */
  lemma CircleColorOfNaN()
    ensures CircleColor(NaN) == "#D2D2D2"
  {
  }

  /** Every circle gets one of nine fixed colours. */
  lemma CircleColorIsFixed(num: Float)
    ensures CircleColor(num) in
      {"#D2D2D2", "#F7FCF0", "#E0F3DB", "#CCEBC5", "#A8DDB5", "#7BCCC4", "#4EB3D3", "#2B8CBE", "#08589E"}
  {
    if num.Num? {
      CircleColorByBin(num.value);
    }
  }

  // ---------------------------------------------------------------------------
  // The map data frame.

  /** The optional numeric columns of the map data. */
  datatype Column = Latitude | Longitude | HealthyLifeYears | GDP | TotalFunds

  /** One country-year row. `Entity` and `Year` are always present. */
  datatype Row = Row(entity: string, year: int, latitude: Float, longitude: Float,
                     healthyLifeYears: Float, gdp: Float, totalFunds: Float)

  /** A data frame: the optional columns it has, and its rows in order. */
  datatype Frame = Frame(columns: set<Column>, rows: seq<Row>)

  function Cell(row: Row, column: Column): Float
  {
    match column
    case Latitude => row.latitude
    case Longitude => row.longitude
    case HealthyLifeYears => row.healthyLifeYears
    case GDP => row.gdp
    case TotalFunds => row.totalFunds
  }

  /** `row.get(column, 0)`: the cell, or 0 when the frame has no such column. */
  function Get(frame: Frame, row: Row, column: Column): Float
  {
    if column in frame.columns then Cell(row, column) else Num(0.0)
  }

  // ---------------------------------------------------------------------------
  // filter_data

  /** The rows of year `year`, in their original order. */
  function RowsOfYear(rows: seq<Row>, year: int): (r: seq<Row>)
    ensures |r| <= |rows|
    ensures forall i :: 0 <= i < |r| ==> r[i].year == year
  {
    if rows == [] then []
    else (if rows[0].year == year then [rows[0]] else []) + RowsOfYear(rows[1..], year)
  }

  /** Each row of year `year` is kept as often as it occurs, and no other row. */
  lemma {:induction false} RowsOfYearCounts(rows: seq<Row>, year: int)
    ensures forall x :: multiset(RowsOfYear(rows, year))[x] == if x.year == year then multiset(rows)[x] else 0
  {
    if rows != [] {
      assert rows == [rows[0]] + rows[1..];
      RowsOfYearCounts(rows[1..], year);
    }
  }

  /** `filter_data(data, year)`: the frame restricted to the rows whose year
      equals `year`, with all its columns. */
  function FilterData(frame: Frame, year: int): (r: Frame)
    ensures r.columns == frame.columns
    ensures forall x :: x in r.rows <==> x in frame.rows && x.year == year
  {
    var kept := RowsOfYear(frame.rows, year);
    RowsOfYearCounts(frame.rows, year);
    assert forall x :: x in kept <==> x in multiset(kept);
    Frame(frame.columns, kept)
  }

  /** Filtering keeps order: it filters each part of a concatenation in place. */
  lemma {:induction false} RowsOfYearAppend(a: seq<Row>, b: seq<Row>, year: int)
    ensures RowsOfYear(a + b, year) == RowsOfYear(a, year) + RowsOfYear(b, year)
  {
    if a != [] {
      var head := if a[0].year == year then [a[0]] else [];
      assert (a + b)[0] == a[0] && (a + b)[1..] == a[1..] + b;
      assert RowsOfYear(a + b, year) == head + RowsOfYear(a[1..] + b, year);
      RowsOfYearAppend(a[1..], b, year);
      assert RowsOfYear(a, year) == head + RowsOfYear(a[1..], year);
      assert head + (RowsOfYear(a[1..], year) + RowsOfYear(b, year))
          == (head + RowsOfYear(a[1..], year)) + RowsOfYear(b, year);
    } else {
      assert a + b == b;
    }
  }

  /** A single row is kept exactly when it is of the year asked for. */
  lemma RowsOfYearSingle(x: Row, year: int)
    ensures RowsOfYear([x], year) == if x.year == year then [x] else []
  {
  }

  /** Filtering twice by the same year changes nothing more. */
  lemma {:induction false} FilterDataIdempotent(frame: Frame, year: int)
    ensures FilterData(FilterData(frame, year), year) == FilterData(frame, year)
  {
    var kept := FilterData(frame, year).rows;
    assert forall i :: 0 <= i < |kept| ==> kept[i] in kept;
    RowsOfYearFixed(kept, year);
  }

  lemma {:induction false} RowsOfYearFixed(rows: seq<Row>, year: int)
    requires forall i :: 0 <= i < |rows| ==> rows[i].year == year
    ensures RowsOfYear(rows, year) == rows
  {
    if rows != [] {
      RowsOfYearFixed(rows[1..], year);
    }
  }

  /** Filtering by two different years leaves nothing. */
  lemma FilterDataOtherYear(frame: Frame, year: int, other: int)
    requires year != other
    ensures FilterData(FilterData(frame, year), other).rows == []
  {
    var once := FilterData(frame, year).rows;
    var twice := RowsOfYear(once, other);
    RowsOfYearCounts(once, other);
    forall x: Row ensures multiset(twice)[x] == 0 {
      if x.year == other {
        assert x !in once;
      }
    }
    assert multiset(twice) == multiset{};
  }

  // ---------------------------------------------------------------------------
  // The marker radius of add_circles.

  /** `Series.max()`: the largest non-NaN value, NaN if there is none. */
  function SeriesMax(values: seq<Float>): (r: Float)
    ensures r.NaN? <==> forall i :: 0 <= i < |values| ==> values[i].NaN?
    ensures r.Num? ==> r in values
    ensures r.Num? ==> forall i :: 0 <= i < |values| && values[i].Num? ==> values[i].value <= r.value
  {
    if values == [] then NaN
    else
      var rest := SeriesMax(values[1..]);
      assert forall i :: 0 < i < |values| ==> values[i] == values[1..][i - 1];
      if values[0].NaN? then rest
      else if rest.NaN? || rest.value < values[0].value then values[0]
      else rest
  }

  /** `max_funds`: the largest funding, or 0 when there is no `TotalFunds` column. */
  function MaxFunds(frame: Frame): (r: Float)
    ensures TotalFunds !in frame.columns ==> r == Num(0.0)
    ensures TotalFunds in frame.columns ==>
              && (r.NaN? <==> forall x :: x in frame.rows ==> x.totalFunds.NaN?)
              && (r.Num? ==> exists x :: x in frame.rows && x.totalFunds == r)
              && (r.Num? ==> forall x :: x in frame.rows && x.totalFunds.Num? ==> x.totalFunds.value <= r.value)
  {
    // The `TotalFunds` column as a series.
    var funds := seq(|frame.rows|, i requires 0 <= i < |frame.rows| => frame.rows[i].totalFunds);
    assert forall x :: x in frame.rows ==> x.totalFunds in funds by {
      forall x | x in frame.rows ensures x.totalFunds in funds {
        var i :| 0 <= i < |frame.rows| && frame.rows[i] == x;
        assert funds[i] == x.totalFunds;
      }
    }
    assert forall v :: v in funds ==> exists x :: x in frame.rows && x.totalFunds == v by {
      forall v | v in funds ensures exists x :: x in frame.rows && x.totalFunds == v {
        var i :| 0 <= i < |funds| && funds[i] == v;
        assert frame.rows[i] in frame.rows;
      }
    }
    if TotalFunds in frame.columns then SeriesMax(funds) else Num(0.0)
  }

  const MinMarkerRadius: real := 5.0
  const MaxMarkerRadius: real := 20.0

  /** The marker radius in `add_circles`: 5 unless the largest funding is
      positive; then 20 times the funding's share of it, clamped into [5, 20]
      with Python's two-argument `min` and `max`. */
  function MarkerRadius(funding: Float, maxFunds: Float): (r: Float)
    ensures r.Num? && MinMarkerRadius <= r.value <= MaxMarkerRadius
    ensures !FloatLess(Num(0.0), maxFunds) ==> r == Num(MinMarkerRadius)
  {
    if FloatLess(Num(0.0), maxFunds) then
      PyMax(Num(MinMarkerRadius), PyMin(Num(MaxMarkerRadius), Times(Over(funding, maxFunds.value), 20.0)))
    else
      Num(MinMarkerRadius)
  }

  /** With a positive maximum, the radius is `funding / max_funds * 20` clamped into [5, 20]. */
  lemma MarkerRadiusClamps(f: real, m: real)
    requires 0.0 < m
    ensures var s, r := f / m * 20.0, MarkerRadius(Num(f), Num(m)).value;
            && (5.0 <= s <= 20.0 ==> r == s)
            && (s < 5.0 ==> r == 5.0)
            && (20.0 < s ==> r == 20.0)
  {
  }

  /** A NaN funding compares false with 20, so `min` keeps 20 and the clamp
      expression gives the largest radius (a row `add_circles` stops at before
      this line, when it builds the popup). */
  lemma MarkerRadiusOfNaNFunding(m: real)
    requires 0.0 < m
    ensures MarkerRadius(NaN, Num(m)) == Num(20.0)
  {
  }

  /** More funding never gives a smaller marker. */
  lemma MarkerRadiusMonotone(f1: real, f2: real, m: real)
    requires 0.0 < m && f1 <= f2
    ensures MarkerRadius(Num(f1), Num(m)).value <= MarkerRadius(Num(f2), Num(m)).value
  {
    assert f1 / m <= f2 / m by {
      assert f1 / m * m == f1 && f2 / m * m == f2;
    }
  }

  /** The radius `add_circles` gives to the marker of `row`. */
  function RowMarkerRadius(frame: Frame, row: Row): (r: Float)
    ensures r.Num? && MinMarkerRadius <= r.value <= MaxMarkerRadius
  {
    MarkerRadius(Get(frame, row, TotalFunds), MaxFunds(frame))
  }

  /** Without a `TotalFunds` column every marker has radius 5. */
  lemma MarkerRadiusWithoutFunds(frame: Frame, row: Row)
    requires TotalFunds !in frame.columns
    ensures RowMarkerRadius(frame, row) == Num(5.0)
  {
  }

  /** The best-funded country gets the largest marker, if its funding is positive. */
  lemma BestFundedGetsLargestMarker(frame: Frame, row: Row)
    requires TotalFunds in frame.columns && row in frame.rows
    requires row.totalFunds.Num? && 0.0 < row.totalFunds.value
    requires forall x :: x in frame.rows && x.totalFunds.Num? ==> x.totalFunds.value <= row.totalFunds.value
    ensures RowMarkerRadius(frame, row) == Num(20.0)
  {
    var m := MaxFunds(frame);
    assert m.Num?;
    var x :| x in frame.rows && x.totalFunds == m;
    assert m == row.totalFunds;
  }

  /** The fill colour `add_circles` gives to the marker of `row`. */
  function RowCircleColor(frame: Frame, row: Row): (r: string)
    ensures r == NaNColor <==> HealthyLifeYears in frame.columns && row.healthyLifeYears.NaN?
  {
    CircleColor(Get(frame, row, HealthyLifeYears))
  }

  /** Without a `HealthyLifeYears` column every circle gets the colour of 0. */
  lemma CircleColorWithoutHealthData(frame: Frame, row: Row)
    requires HealthyLifeYears !in frame.columns
    ensures RowCircleColor(frame, row) == "#F7FCF0"
  {
    CircleColorByBin(0.0);
  }

  // ---------------------------------------------------------------------------
  // dataframe_to_geojson (GeoJSON, RFC 7946)

  /** A GeoJSON position `[longitude, latitude]`. */
  datatype Position = Position(lon: Float, lat: Float)

  /** A geometry object; `kind` is its GeoJSON member "type". */
  datatype Geometry = Geometry(kind: string, coordinates: seq<seq<Position>>)

  /** The "properties" member shown in the map's tooltips. */
  datatype Properties = Properties(name: string, hly: Float, gdp: Float, funds: Float)

  /** A feature object; `kind` is its GeoJSON member "type". */
  datatype Feature = Feature(kind: string, id: string, properties: Properties, geometry: Geometry)

  /** A feature collection; `kind` is its GeoJSON member "type". */
  datatype FeatureCollection = FeatureCollection(kind: string, features: seq<Feature>)

  /** Half the side of the square drawn around a country. */
  const HalfSide: real := 2.0

  /** The closed square of half-side 2 around `(lon, lat)`, counterclockwise
      from the south-west corner. */
  function SquareRing(lon: Float, lat: Float): seq<Position>
  {
    [ Position(Plus(lon, -HalfSide), Plus(lat, -HalfSide)),
      Position(Plus(lon, HalfSide), Plus(lat, -HalfSide)),
      Position(Plus(lon, HalfSide), Plus(lat, HalfSide)),
      Position(Plus(lon, -HalfSide), Plus(lat, HalfSide)),
      Position(Plus(lon, -HalfSide), Plus(lat, -HalfSide)) ]
  }

  /** A linear ring in the sense of section 3.1.6 of RFC 7946: four or more
      positions, the last one equal to the first. */
  predicate IsLinearRing(ring: seq<Position>)
  {
    |ring| >= 4 && ring[0] == ring[|ring| - 1]
  }

  predicate Finite(p: Position)
  {
    p.lon.Num? && p.lat.Num?
  }

  /** Twice the signed area enclosed by a ring of finite positions (the
      shoelace sum); it is positive when the ring runs counterclockwise. */
  function TwiceSignedArea(ring: seq<Position>): real
    requires forall i :: 0 <= i < |ring| ==> Finite(ring[i])
  {
    if |ring| < 2 then 0.0
    else
      assert Finite(ring[0]) && Finite(ring[1]);
      ring[0].lon.value * ring[1].lat.value - ring[1].lon.value * ring[0].lat.value
      + TwiceSignedArea(ring[1..])
  }

  /** The centre of a ring's first and third corners. */
  function RingCentre(ring: seq<Position>): Position
    requires |ring| >= 3
  {
    Position(Mid(ring[0].lon, ring[2].lon), Mid(ring[0].lat, ring[2].lat))
  }

  /** The square ring is a closed linear ring centred on its point, so the
      point can be read back from it. */
  lemma SquareRingIsClosedAroundCentre(lon: Float, lat: Float)
    ensures IsLinearRing(SquareRing(lon, lat)) && |SquareRing(lon, lat)| == 5
    ensures RingCentre(SquareRing(lon, lat)) == Position(lon, lat)
  {
  }

  /** For finite coordinates the ring is the axis-aligned square with corners
      `(lon ± 2, lat ± 2)`: four distinct corners, each edge along one axis,
      run counterclockwise around an area of 16, as RFC 7946 asks of exterior rings. */
  lemma SquareRingIsCounterclockwiseSquare(x: real, y: real)
    ensures var ring := SquareRing(Num(x), Num(y));
            && (forall i :: 0 <= i < |ring| ==> Finite(ring[i]))
            && (forall i :: 0 <= i < 4 ==>
                  && (ring[i].lon.value - x == 2.0 || ring[i].lon.value - x == -2.0)
                  && (ring[i].lat.value - y == 2.0 || ring[i].lat.value - y == -2.0))
            && (forall i, j :: 0 <= i < j < 4 ==> ring[i] != ring[j])
            && (forall i :: 0 <= i < 4 ==> (ring[i].lon == ring[i + 1].lon) != (ring[i].lat == ring[i + 1].lat))
            && TwiceSignedArea(ring) == 2.0 * 16.0
  {
    var ring := SquareRing(Num(x), Num(y));
    var a, b := x - 2.0, x + 2.0;
    var c, d := y - 2.0, y + 2.0;
    assert ring[4..][1..] == [] && ring[3..][1..] == ring[4..] && ring[2..][1..] == ring[3..]
        && ring[1..][1..] == ring[2..];
    var a3 := TwiceSignedArea(ring[3..]);
    var a2 := TwiceSignedArea(ring[2..]);
    var a1 := TwiceSignedArea(ring[1..]);
    assert ring == [Position(Num(a), Num(c)), Position(Num(b), Num(c)), Position(Num(b), Num(d)),
                    Position(Num(a), Num(d)), Position(Num(a), Num(c))];
    assert |ring[4..]| == 1 && TwiceSignedArea(ring[4..]) == 0.0;
    assert a3 == a * c - a * d;
    assert a2 == b * d - a * d + a3;
    assert a1 == b * d - b * c + a2;
    assert TwiceSignedArea(ring) == a * c - b * c + a1;
    assert a * c - b * c == -4.0 * c;
    assert b * d - a * d == 4.0 * d;
    assert TwiceSignedArea(ring) == 2.0 * (4.0 * d - 4.0 * c);
  }

  /** The feature `dataframe_to_geojson` builds for one row. */
  function RowFeature(frame: Frame, row: Row): (f: Feature)
    ensures f.kind == "Feature" && f.id == row.entity && f.properties.name == row.entity
    ensures f.geometry.kind == "Polygon" && |f.geometry.coordinates| == 1
    ensures IsLinearRing(f.geometry.coordinates[0])
    ensures RingCentre(f.geometry.coordinates[0])
            == Position(Get(frame, row, Longitude), Get(frame, row, Latitude))
  {
    var lat := Get(frame, row, Latitude);
    var lon := Get(frame, row, Longitude);
    var properties := Properties(row.entity, Get(frame, row, HealthyLifeYears),
                                 Get(frame, row, GDP), Get(frame, row, TotalFunds));
    SquareRingIsClosedAroundCentre(lon, lat);
    Feature("Feature", row.entity, properties, Geometry("Polygon", [SquareRing(lon, lat)]))
  }

  /** A column the frame lacks reads as 0: the square is then centred on
      longitude or latitude 0 and the tooltip shows 0. */
  lemma RowFeatureDefaults(frame: Frame, row: Row)
    ensures var f := RowFeature(frame, row);
            && (Latitude !in frame.columns ==> RingCentre(f.geometry.coordinates[0]).lat == Num(0.0))
            && (Longitude !in frame.columns ==> RingCentre(f.geometry.coordinates[0]).lon == Num(0.0))
            && (HealthyLifeYears !in frame.columns ==> f.properties.hly == Num(0.0))
            && (GDP !in frame.columns ==> f.properties.gdp == Num(0.0))
            && (TotalFunds !in frame.columns ==> f.properties.funds == Num(0.0))
            && (HealthyLifeYears in frame.columns ==> f.properties.hly == row.healthyLifeYears)
            && (GDP in frame.columns ==> f.properties.gdp == row.gdp)
            && (TotalFunds in frame.columns ==> f.properties.funds == row.totalFunds)
  {
  }

  /** `dataframe_to_geojson(df)`: a FeatureCollection with one feature per row,
      in row order. */
  method DataframeToGeojson(frame: Frame) returns (geojson: FeatureCollection)
    ensures geojson.kind == "FeatureCollection"
    ensures |geojson.features| == |frame.rows|
    ensures forall i :: 0 <= i < |frame.rows| ==> geojson.features[i] == RowFeature(frame, frame.rows[i])
  {
    geojson := FeatureCollection("FeatureCollection", []);
    for i := 0 to |frame.rows|
      invariant geojson.kind == "FeatureCollection"
      invariant |geojson.features| == i
      invariant forall k :: 0 <= k < i ==> geojson.features[k] == RowFeature(frame, frame.rows[k])
    {
      var feature := RowFeature(frame, frame.rows[i]);
      geojson := geojson.(features := geojson.features + [feature]);
    }
  }
}
