/**
 * The Geospatial Analysis tab: which rows and which coordinates the station
 * map, the distance calculator, the density heatmap and the train route are
 * given. Rendering (st.map, Folium, Plotly) is not modelled; the data handed
 * to it is.
 */
module Geospatial {
  import opened Wrappers
  import opened Seqs
  import opened Tables

  // ------------------------------------------------ station map and heatmap

  /** `stations.dropna(subset=["latitude", "longitude"])`. */
  function MappableStations(stations: seq<Station>): (r: seq<Station>)
    ensures forall s :: s in r <==> s in stations && HasCoordinates(s)
    ensures forall s :: multiset(r)[s] == if HasCoordinates(s) then multiset(stations)[s] else 0
  {
    FilterCounts(stations, HasCoordinates);
    Filter(stations, HasCoordinates)
  }

  /** The filter keeps the surviving rows in table order. */
  lemma MappableStationsInOrder(a: seq<Station>, b: seq<Station>)
    ensures MappableStations(a + b) == MappableStations(a) + MappableStations(b)
  {
    FilterAppend(a, b, HasCoordinates);
  }

  /** `rows[["latitude", "longitude"]].values`: one coordinate pair per row. */
  function Points(rows: seq<Station>): (r: seq<Coordinates>)
    ensures |r| == |rows|
    ensures forall i :: 0 <= i < |rows| ==> r[i] == CoordinatesOf(rows[i])
  {
    seq(|rows|, i requires 0 <= i < |rows| => CoordinatesOf(rows[i]))
  }

  /** The points given to the station map and, unweighted, to the density heatmap. */
  function HeatPoints(stations: seq<Station>): (r: seq<Coordinates>)
    ensures |r| == |MappableStations(stations)|
    ensures forall p :: p in r ==> p.latitude.Some? && p.longitude.Some?
  {
    var rows := MappableStations(stations);
    assert forall i :: 0 <= i < |rows| ==> rows[i] in rows;
    Points(rows)
  }

  /**
   * Each station row with both coordinates gives exactly one point, in table
   * order, and rows sharing coordinates are not merged.
   */
  lemma {:induction false} HeatPointsPerStation(stations: seq<Station>, s: Station)
    ensures HeatPoints(stations + [s]) ==
              HeatPoints(stations) + (if HasCoordinates(s) then [CoordinatesOf(s)] else [])
  {
    MappableStationsInOrder(stations, [s]);
    var single := MappableStations([s]);
    assert single == if HasCoordinates(s) then [s] else [];
    PointsAppend(MappableStations(stations), single);
  }

  lemma PointsAppend(a: seq<Station>, b: seq<Station>)
    ensures Points(a + b) == Points(a) + Points(b)
  {
  }

  /** What the map or heatmap section shows. */
  datatype Panel = Drawn(points: seq<Coordinates>) | NoCoordinatesWarning

  /**
   * The station map (app.py lines 205-209) and the density heatmap (lines
   * 227-233) alike: drawn from the surviving rows, or a warning when none survive.
   */
  function CoordinatePanel(stations: seq<Station>): (r: Panel)
    ensures r.Drawn? <==> exists i :: 0 <= i < |stations| && HasCoordinates(stations[i])
    ensures r.Drawn? ==> r.points == HeatPoints(stations) && |r.points| > 0
  {
    var rows := MappableStations(stations);
    assert forall i :: 0 <= i < |stations| && HasCoordinates(stations[i]) ==> stations[i] in rows;
    if |rows| > 0 then Drawn(HeatPoints(stations)) else NoCoordinatesWarning
  }

  // ---------------------------------------------------- distance calculator

  /** The `station_name` column. */
  function Names(stations: seq<Station>): seq<Option<string>> {
    seq(|stations|, i requires 0 <= i < |stations| => stations[i].name)
  }

  /** `stations["station_name"].dropna().unique()`: the choices of both selectors. */
  function StationChoices(stations: seq<Station>): (r: seq<string>)
    ensures NoDup(r)
    ensures forall x :: x in r <==> exists i :: 0 <= i < |stations| && stations[i].name == Some(x)
  {
    var names := Names(stations);
    assert forall i :: 0 <= i < |stations| ==> names[i] == stations[i].name;
    Distinct(Present(names))
  }

  /** The choices are listed in order of first appearance among the present names. */
  lemma StationChoicesInOrder(stations: seq<Station>, i: nat, j: nat)
    requires i < j < |StationChoices(stations)|
    ensures FirstIndex(Present(Names(stations)), StationChoices(stations)[i]) <
            FirstIndex(Present(Names(stations)), StationChoices(stations)[j])
  {
    DistinctFirstAppearance(Present(Names(stations)), i, j);
  }

  /** The row is selected by `stations["station_name"] == sel`. */
  predicate Named(s: Station, sel: Option<string>) {
    sel.Some? && s.name == sel
  }

  /**
   * `stations[stations["station_name"] == sel][["latitude", "longitude"]].values[0]`:
   * the coordinates of the first row with that name; None stands for the
   * IndexError raised when no row has it.
   */
  function Lookup(stations: seq<Station>, sel: Option<string>): (r: Option<Coordinates>)
    ensures r.Some? <==> exists i :: 0 <= i < |stations| && Named(stations[i], sel)
    ensures r.Some? ==> exists i :: 0 <= i < |stations| && Named(stations[i], sel) &&
                          r.value == CoordinatesOf(stations[i]) &&
                          forall j :: 0 <= j < i ==> !Named(stations[j], sel)
  {
    var named := (s: Station) => Named(s, sel);
    var matches := Filter(stations, named);
    assert forall i :: 0 <= i < |stations| && Named(stations[i], sel) ==> stations[i] in matches;
    if |matches| == 0 then None
    else
      FilterFirst(stations, named);
      Some(CoordinatesOf(matches[0]))
  }

  /** What pressing "Calculate Distance" shows. */
  datatype DistanceReport = Reported(km: real) | DistanceError

  /**
   * Looks both names up and hands the two coordinate pairs to the great-circle
   * formula, given here as `greatCircle` (None when it raises). Any failure
   * is caught and shown as an error.
   */
  function CalculateDistance(stations: seq<Station>, start: Option<string>, end: Option<string>,
                             greatCircle: (Coordinates, Coordinates) -> Option<real>): (r: DistanceReport)
    ensures r.Reported? <==>
              Lookup(stations, start).Some? && Lookup(stations, end).Some? &&
              greatCircle(Lookup(stations, start).value, Lookup(stations, end).value).Some?
    ensures r.Reported? ==>
              r.km == greatCircle(Lookup(stations, start).value, Lookup(stations, end).value).value
  {
    match Lookup(stations, start)
    case None => DistanceError
    case Some(from) =>
      match Lookup(stations, end)
      case None => DistanceError
      case Some(to) =>
        match greatCircle(from, to)
        case None => DistanceError
        case Some(km) => Reported(km)
  }

  /** A name offered by the selectors always resolves to a row. */
  lemma ChoiceResolves(stations: seq<Station>, x: string)
    requires x in StationChoices(stations)
    ensures Lookup(stations, Some(x)).Some?
  {
  }

  /**
   * With both names taken from the selectors, the result depends only on the
   * formula applied to the first rows carrying those names.
   */
  lemma DistanceOfChoices(stations: seq<Station>, a: string, b: string,
                          greatCircle: (Coordinates, Coordinates) -> Option<real>)
    requires a in StationChoices(stations) && b in StationChoices(stations)
    ensures var from, to := Lookup(stations, Some(a)).value, Lookup(stations, Some(b)).value;
            CalculateDistance(stations, Some(a), Some(b), greatCircle) ==
              if greatCircle(from, to).Some? then Reported(greatCircle(from, to).value) else DistanceError
  {
  }

  // ------------------------------------------------------------ train route

  /** `trains["train_number"].unique()`: the choices of the train selector. */
  function TrainChoices(trains: seq<Train>): (r: seq<Option<string>>)
    ensures NoDup(r)
    ensures forall n :: n in r <==> exists i :: 0 <= i < |trains| && trains[i].number == n
  {
    var numbers := seq(|trains|, i requires 0 <= i < |trains| => trains[i].number);
    assert forall i :: 0 <= i < |trains| ==> numbers[i] == trains[i].number;
    Distinct(numbers)
  }

  /** The `station_code` column of some schedule rows. */
  function Codes(stops: seq<ScheduleStop>): seq<Option<string>> {
    seq(|stops|, i requires 0 <= i < |stops| => stops[i].code)
  }

  /**
   * `schedules[schedules["train_number"] == train]["station_code"].unique()`:
   * the train's station codes, each once, in order of first appearance. A
   * missing code is kept as a value of its own.
   */
  function RouteCodes(schedule: seq<ScheduleStop>, train: Option<string>): (r: seq<Option<string>>)
    ensures NoDup(r)
    ensures forall c :: c in r <==>
              exists i :: 0 <= i < |schedule| && OfTrain(schedule[i], train) && schedule[i].code == c
  {
    var stops := TrainStops(schedule, train);
    var codes := Codes(stops);
    assert forall c :: c in codes <==> exists s :: s in stops && s.code == c by {
      forall c ensures c in codes <==> exists s :: s in stops && s.code == c {
        if c in codes {
          var k :| 0 <= k < |codes| && codes[k] == c;
          assert stops[k] in stops;
        }
        if exists s :: s in stops && s.code == c {
          var s :| s in stops && s.code == c;
          var k :| 0 <= k < |stops| && stops[k] == s;
          assert codes[k] == c;
        }
      }
    }
    Distinct(codes)
  }

  /** The route's codes are listed in the order in which the train's schedule first reaches them. */
  lemma RouteCodesInOrder(schedule: seq<ScheduleStop>, train: Option<string>, i: nat, j: nat)
    requires i < j < |RouteCodes(schedule, train)|
    ensures FirstIndex(Codes(TrainStops(schedule, train)), RouteCodes(schedule, train)[i]) <
            FirstIndex(Codes(TrainStops(schedule, train)), RouteCodes(schedule, train)[j])
  {
    DistinctFirstAppearance(Codes(TrainStops(schedule, train)), i, j);
  }

  /**
   * `stations[stations["station_code"].isin(codes)]`: the station rows whose
   * code is one of `codes`, in station-table order. `isin` matches a missing
   * code to a missing code.
   */
  function RouteStations(stations: seq<Station>, codes: seq<Option<string>>): (r: seq<Station>)
    ensures forall s :: s in r <==> s in stations && s.code in codes
    ensures forall s :: multiset(r)[s] == if s.code in codes then multiset(stations)[s] else 0
  {
    var listed := (s: Station) => s.code in codes;
    FilterCounts(stations, listed);
    Filter(stations, listed)
  }

  /** The route's rows come in station-table order, not schedule order. */
  lemma RouteStationsInOrder(a: seq<Station>, b: seq<Station>, codes: seq<Option<string>>)
    ensures RouteStations(a + b, codes) == RouteStations(a, codes) + RouteStations(b, codes)
  {
    FilterAppend(a, b, (s: Station) => s.code in codes);
  }

  /** What the route section shows: a polyline with one marker per point, or a warning. */
  datatype RouteView = RouteMap(line: seq<Coordinates>, markers: seq<Coordinates>) | NotEnoughData

  /** The route of the selected train (app.py lines 240-249). */
  function TrainRoute(stations: seq<Station>, schedule: seq<ScheduleStop>, train: Option<string>): (r: RouteView)
    ensures r.RouteMap? <==> |RouteStations(stations, RouteCodes(schedule, train))| > 1
    ensures r.RouteMap? ==> r.line == Points(RouteStations(stations, RouteCodes(schedule, train)))
    ensures r.RouteMap? ==> |r.markers| == |r.line| && forall i :: 0 <= i < |r.line| ==> r.markers[i] == r.line[i]
  {
    var coords := Points(RouteStations(stations, RouteCodes(schedule, train)));
    if |coords| > 1 then RouteMap(coords, coords) else NotEnoughData
  }

  /** A train with no schedule rows (or a missing train number) gets the warning, not a route. */
  lemma NoStopsNoRoute(stations: seq<Station>, schedule: seq<ScheduleStop>, train: Option<string>)
    requires forall i :: 0 <= i < |schedule| ==> !OfTrain(schedule[i], train)
    ensures TrainRoute(stations, schedule, train) == NotEnoughData
  {
  }

  /**
   * A missing station code among the train's stops selects every station row
   * whose code is missing, since `isin` matches a missing value to a missing value.
   */
  lemma MissingCodeMatchesMissingCodes(stations: seq<Station>, schedule: seq<ScheduleStop>,
                                       train: Option<string>, i: nat, k: nat)
    requires i < |schedule| && OfTrain(schedule[i], train) && schedule[i].code == None
    requires k < |stations| && stations[k].code == None
    ensures stations[k] in RouteStations(stations, RouteCodes(schedule, train))
  {
  }

  /**
   * A train that stops at B and then at A, with A listed before B in the
   * station table, is drawn from A to B.
   */
  lemma {:induction false} RouteFollowsStationTable(a: Station, b: Station)
    requires a.code == Some("A") && b.code == Some("B")
    ensures TrainRoute([a, b], [ScheduleStop(Some("T"), Some("B"), None), ScheduleStop(Some("T"), Some("A"), None)],
                       Some("T")).line == [CoordinatesOf(a), CoordinatesOf(b)]
  {
    var schedule := [ScheduleStop(Some("T"), Some("B"), None), ScheduleStop(Some("T"), Some("A"), None)];
    var codes := RouteCodes(schedule, Some("T"));
    assert a.code in codes && b.code in codes by {
      assert OfTrain(schedule[0], Some("T")) && OfTrain(schedule[1], Some("T"));
    }
    BothListed(a, b, codes);
    assert Points([a, b]) == [CoordinatesOf(a), CoordinatesOf(b)];
  }

  lemma BothListed(a: Station, b: Station, codes: seq<Option<string>>)
    requires a.code in codes && b.code in codes
    ensures RouteStations([a, b], codes) == [a, b]
  {
    RouteStationsInOrder([a], [b], codes);
    assert [a] + [b] == [a, b];
  }

  /** A train that returns to a station it has already visited is drawn through it once. */
  lemma {:induction false} RouteDropsEveryRepeat()
    ensures RouteCodes([ScheduleStop(Some("T"), Some("A"), None), ScheduleStop(Some("T"), Some("B"), None),
                        ScheduleStop(Some("T"), Some("A"), None)], Some("T")) == [Some("A"), Some("B")]
  {
    var schedule := [ScheduleStop(Some("T"), Some("A"), None), ScheduleStop(Some("T"), Some("B"), None),
                     ScheduleStop(Some("T"), Some("A"), None)];
    FilterAll(schedule, s => OfTrain(s, Some("T")));
    assert TrainStops(schedule, Some("T")) == schedule;
    var x, y := Some("A"), Some("B");
    assert Codes(schedule) == [x, y, x];
    assert [x, y, x][..2] == [x, y] && [x, y][..1] == [x] && [x][..0] == [];
    assert Distinct([x]) == [x];
    assert Distinct([x, y]) == [x, y];
  }

  // ------------------------------------------------------------- the tab

  /** What the route part of the tab shows. */
  datatype RouteSection =
    | RouteHidden                                           // the trains or schedules table is empty
    | TrainColumnWarning                                    // a table lacks `train_number`
    | RouteShown(trainChoices: seq<Option<string>>, view: RouteView)

  /** What the Geospatial Analysis tab shows; the distance result appears only on demand. */
  datatype GeoTab =
    | TabBlank                                              // no stations, or no coordinate columns
    | TabShown(stationMap: Panel, stationChoices: seq<string>, heatmap: Panel, route: RouteSection)

  /**
   * The tab (app.py lines 202-251). `coordinateColumns` says whether the
   * stations table has both coordinate columns, `trainNumberColumns` whether
   * the trains and schedules tables both have `train_number`, and `train` is
   * the selected train number.
   */
  function GeospatialTab(stations: seq<Station>, coordinateColumns: bool, trains: seq<Train>,
                         schedule: seq<ScheduleStop>, trainNumberColumns: bool,
                         train: Option<string>): (r: GeoTab)
    ensures r.TabShown? <==> |stations| > 0 && coordinateColumns
    ensures r.TabShown? ==> r.stationMap == CoordinatePanel(stations) && r.heatmap == r.stationMap
    ensures r.TabShown? ==> (r.stationMap.Drawn? <==> exists i :: 0 <= i < |stations| && HasCoordinates(stations[i]))
    ensures r.TabShown? ==> r.stationChoices == StationChoices(stations)
    ensures r.TabShown? ==> (r.route.RouteHidden? <==> |trains| == 0 || |schedule| == 0)
    ensures r.TabShown? && |trains| > 0 && |schedule| > 0 ==>
              (r.route.TrainColumnWarning? <==> !trainNumberColumns) &&
              (r.route.RouteShown? <==> trainNumberColumns)
    ensures r.TabShown? && r.route.RouteShown? ==>
              trainNumberColumns && r.route.trainChoices == TrainChoices(trains) &&
              r.route.view == TrainRoute(stations, schedule, train)
  {
    if |stations| == 0 || !coordinateColumns then TabBlank
    else
      var route :=
        if |trains| == 0 || |schedule| == 0 then RouteHidden
        else if !trainNumberColumns then TrainColumnWarning
        else RouteShown(TrainChoices(trains), TrainRoute(stations, schedule, train));
      TabShown(CoordinatePanel(stations), StationChoices(stations), CoordinatePanel(stations), route)
  }
}
