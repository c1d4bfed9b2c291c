/**
 * The count tables of the Stations and Schedules tabs, each fed to a bar,
 * pie, histogram or density chart. Each is a pandas count over one table,
 * projected here onto (group key, counted cell present).
 */
module Aggregations {
  import opened Wrappers
  import opened Seqs
  import opened Counting
  import opened Tables

  // ------------------------------------------------------------ Stations tab

  /** `stations.groupby("state")["station_code"]`. */
  function StateRows(stations: seq<Station>): Rows<string> {
    seq(|stations|, i requires 0 <= i < |stations| => (stations[i].state, stations[i].code.Some?))
  }

  /** Stations per state, by decreasing count. */
  function StationsPerState(stations: seq<Station>): (r: seq<Tally<string>>)
    ensures IsGroupCount(r, StateRows(stations)) && IsDescending(r)
    ensures Sum(r) == Counted(StateRows(stations))
  {
    GroupCount(StateRows(stations))
  }

  /** The fifteen states drawn in the "Top States by Station Count" chart. */
  function TopStates(stations: seq<Station>): (r: seq<Tally<string>>)
    ensures |r| == (if |StationsPerState(stations)| < 15 then |StationsPerState(stations)| else 15) && r <= StationsPerState(stations)
    ensures forall t, u :: t in r && u in StationsPerState(stations) && u !in r ==> u.count <= t.count
  {
    var all := StationsPerState(stations);
    var r := Top(all, 15);
    TopDominates(all, r);
    r
  }

  /** The `zone` column of the stations table. */
  function Zones(stations: seq<Station>): seq<Option<string>> {
    seq(|stations|, i requires 0 <= i < |stations| => stations[i].zone)
  }

  /** `stations["zone"].value_counts()`: stations per zone for the pie chart. */
  function StationsPerZone(stations: seq<Station>): (r: seq<Tally<string>>)
    ensures DistinctKeys(r) && IsDescending(r)
    ensures forall t :: t in r ==> t.count == multiset(Zones(stations))[Some(t.key)] && t.count >= 1
    ensures forall i :: 0 <= i < |stations| && stations[i].zone.Some? ==>
              exists t :: t in r && t.key == stations[i].zone.value
    ensures Sum(r) == |Present(Zones(stations))|
  {
    var r := ValueCounts(Zones(stations));
    assert forall i :: 0 <= i < |stations| ==> Zones(stations)[i] == stations[i].zone;
    r
  }

  /** `stations.groupby("address")["station_code"]`. */
  function AddressRows(stations: seq<Station>): Rows<string> {
    seq(|stations|, i requires 0 <= i < |stations| => (stations[i].address, stations[i].code.Some?))
  }

  /** Stations per city (the `address` column), by decreasing count. */
  function StationsPerCity(stations: seq<Station>): (r: seq<Tally<string>>)
    ensures IsGroupCount(r, AddressRows(stations)) && IsDescending(r)
    ensures Sum(r) == Counted(AddressRows(stations))
  {
    GroupCount(AddressRows(stations))
  }

  /** The twenty cities drawn in the "Top 20 Cities with Most Stations" chart. */
  function TopCities(stations: seq<Station>): (r: seq<Tally<string>>)
    ensures |r| == (if |StationsPerCity(stations)| < 20 then |StationsPerCity(stations)| else 20) && r <= StationsPerCity(stations)
    ensures forall t, u :: t in r && u in StationsPerCity(stations) && u !in r ==> u.count <= t.count
  {
    var all := StationsPerCity(stations);
    var r := Top(all, 20);
    TopDominates(all, r);
    r
  }

  /** The (state, zone) key of a station, missing when either part is. */
  function StateZone(s: Station): Option<(string, string)> {
    if s.state.Some? && s.zone.Some? then Some((s.state.value, s.zone.value)) else None
  }

  function StateZoneKeys(stations: seq<Station>): seq<Option<(string, string)>> {
    seq(|stations|, i requires 0 <= i < |stations| => StateZone(stations[i]))
  }

  /** `groupby(["state", "zone"]).size()`: the cells of the state-by-zone heatmap. */
  function StateZoneCounts(stations: seq<Station>): (r: seq<Tally<(string, string)>>)
    ensures DistinctKeys(r)
    ensures forall t :: t in r ==> t.count == multiset(StateZoneKeys(stations))[Some(t.key)] && t.count >= 1
    ensures forall i :: 0 <= i < |stations| && stations[i].state.Some? && stations[i].zone.Some? ==>
              exists t :: t in r && t.key == (stations[i].state.value, stations[i].zone.value)
  {
    var keys := StateZoneKeys(stations);
    assert forall i :: 0 <= i < |stations| ==> keys[i] == StateZone(stations[i]);
    GroupSize(keys)
  }

  // ----------------------------------------------------------- Schedules tab

  /** `schedules.groupby("station_name")["train_number"]`. */
  function HaltRows(schedule: seq<ScheduleStop>): Rows<string> {
    seq(|schedule|, i requires 0 <= i < |schedule| => (schedule[i].name, schedule[i].train.Some?))
  }

  /** Halts per station name, by decreasing count ("Busiest Stations"). */
  function HaltsPerStation(schedule: seq<ScheduleStop>): (r: seq<Tally<string>>)
    ensures IsGroupCount(r, HaltRows(schedule)) && IsDescending(r)
    ensures Sum(r) == Counted(HaltRows(schedule))
  {
    GroupCount(HaltRows(schedule))
  }

  /** The twenty busiest stations drawn in the chart. */
  function BusiestStations(schedule: seq<ScheduleStop>): (r: seq<Tally<string>>)
    ensures |r| == (if |HaltsPerStation(schedule)| < 20 then |HaltsPerStation(schedule)| else 20) && r <= HaltsPerStation(schedule)
    ensures forall t, u :: t in r && u in HaltsPerStation(schedule) && u !in r ==> u.count <= t.count
  {
    var all := HaltsPerStation(schedule);
    var r := Top(all, 20);
    TopDominates(all, r);
    r
  }

  /** `schedules.groupby("train_number")["station_code"]`. */
  function StopRows(schedule: seq<ScheduleStop>): Rows<string> {
    seq(|schedule|, i requires 0 <= i < |schedule| => (schedule[i].train, HasCode(schedule[i])))
  }

  /** Stops per train, by decreasing count. */
  function StopsPerTrain(schedule: seq<ScheduleStop>): (r: seq<Tally<string>>)
    ensures IsGroupCount(r, StopRows(schedule)) && IsDescending(r)
    ensures Sum(r) == Counted(StopRows(schedule))
  {
    GroupCount(StopRows(schedule))
  }

  /** The ten trains of the "Top 10 Trains with Maximum Stops" chart. */
  function TopTrains(schedule: seq<ScheduleStop>): (r: seq<Tally<string>>)
    ensures |r| == (if |StopsPerTrain(schedule)| < 10 then |StopsPerTrain(schedule)| else 10)
    ensures r <= StopsPerTrain(schedule)
    ensures forall t, u :: t in r && u in StopsPerTrain(schedule) && u !in r ==> u.count <= t.count
  {
    var all := StopsPerTrain(schedule);
    var r := Top(all, 10);
    TopDominates(all, r);
    r
  }

  /** A schedule row that `groupby("train_number")["station_code"].count()` counts. */
  predicate CountedStop(stop: ScheduleStop) {
    stop.train.Some? && HasCode(stop)
  }

  /** A train's count is the number of its schedule rows that name a station code. */
  lemma {:induction false} StopsOfTrain(schedule: seq<ScheduleStop>, k: string)
    ensures CountIn(StopRows(schedule), k) == |Filter(TrainStops(schedule, Some(k)), HasCode)|
  {
    if schedule != [] {
      var rest := schedule[1..];
      var head := if OfTrain(schedule[0], Some(k)) then [schedule[0]] else [];
      assert StopRows(schedule)[1..] == StopRows(rest);
      assert TrainStops(schedule, Some(k)) == head + TrainStops(rest, Some(k));
      FilterAppend(head, TrainStops(rest, Some(k)), HasCode);
      StopsOfTrain(rest, k);
    }
  }

  /** Over all trains the counts add up to the schedule rows with a train number and a station code. */
  lemma {:induction false} StopsTotal(schedule: seq<ScheduleStop>)
    ensures Counted(StopRows(schedule)) == |Filter(schedule, CountedStop)|
  {
    if schedule != [] {
      assert StopRows(schedule)[1..] == StopRows(schedule[1..]);
      StopsTotal(schedule[1..]);
    }
  }

  /** Each entry of stops-per-train counts its train's schedule rows that name a station code. */
  lemma StopsPerTrainCounts(schedule: seq<ScheduleStop>)
    ensures forall t :: t in StopsPerTrain(schedule) ==>
              t.count == |Filter(TrainStops(schedule, Some(t.key)), HasCode)|
  {
    forall t | t in StopsPerTrain(schedule)
      ensures t.count == |Filter(TrainStops(schedule, Some(t.key)), HasCode)|
    {
      StopsOfTrain(schedule, t.key);
    }
  }

  /** Every train number present in the schedule has an entry. */
  lemma StopsPerTrainCovers(schedule: seq<ScheduleStop>, i: nat)
    requires i < |schedule| && schedule[i].train.Some?
    ensures exists t :: t in StopsPerTrain(schedule) && t.key == schedule[i].train.value
  {
    var rows := StopRows(schedule);
    assert IsGroupCount(StopsPerTrain(schedule), rows);
    assert rows[i].0 == schedule[i].train;
    assert exists t :: t in StopsPerTrain(schedule) && t.key == rows[i].0.value;
  }

  /** The entries add up to the schedule rows with both a train number and a station code. */
  lemma StopsPerTrainSum(schedule: seq<ScheduleStop>)
    ensures Sum(StopsPerTrain(schedule)) == |Filter(schedule, CountedStop)|
  {
    StopsTotal(schedule);
  }
}
