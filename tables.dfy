/**
 * The rows of the three cleaned tables the dashboard loads (stations, trains,
 * schedules), with every cell that may be missing as an Option. Only the
 * columns the modelled logic reads are kept.
 */
module Tables {
  import opened Wrappers
  import opened Seqs

  /** A row of the stations table. */
  datatype Station = Station(
    code: Option<string>,
    name: Option<string>,
    state: Option<string>,
    zone: Option<string>,
    address: Option<string>,
    latitude: Option<real>,
    longitude: Option<real>)

  /** A row of the trains table; the route selector reads only the train number. */
  datatype Train = Train(number: Option<string>)

  /** A row of the schedules table: one stop of one train. */
  datatype ScheduleStop = ScheduleStop(
    train: Option<string>,
    code: Option<string>,
    name: Option<string>)

  /** The `[["latitude", "longitude"]]` cells of a station row. */
  datatype Coordinates = Coordinates(latitude: Option<real>, longitude: Option<real>)

  function CoordinatesOf(s: Station): Coordinates {
    Coordinates(s.latitude, s.longitude)
  }

  /** The row survives `dropna(subset=["latitude", "longitude"])`. */
  predicate HasCoordinates(s: Station) {
    s.latitude.Some? && s.longitude.Some?
  }

  /**
   * The row is selected by `schedules["train_number"] == train`. A missing
   * cell never compares equal, and neither does a missing selection.
   */
  predicate OfTrain(stop: ScheduleStop, train: Option<string>) {
    train.Some? && stop.train == train
  }

  predicate HasCode(stop: ScheduleStop) {
    stop.code.Some?
  }

  /** The schedule rows of one train, in schedule order. */
  function TrainStops(schedule: seq<ScheduleStop>, train: Option<string>): (r: seq<ScheduleStop>)
    ensures forall s :: s in r <==> s in schedule && OfTrain(s, train)
  {
    Filter(schedule, s => OfTrain(s, train))
  }
}
