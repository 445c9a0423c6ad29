/** The value types exchanged by the statistics service: a stored reading,
    the optional time window of a request, the per-axis summary and the
    device- and user-level analyses built from it, and the three-way outcome
    the HTTP layer distinguishes ("not found", "no data", a result). */
module Schemas {

  datatype Option<T> = None | Some(value: T)

  /** A time window; a missing bound leaves that side unbounded.
      Instants are modelled as integers (for example, microseconds). */
  datatype Window = Window(start: Option<int>, end: Option<int>)

  /** One stored sensor sample, owned by the device whose internal id is deviceRef. */
  datatype Reading = Reading(deviceRef: int, timestamp: int, x: real, y: real, z: real)

  /** The three sensor axes a reading carries. */
  datatype Axis = X | Y | Z

  function Component(rd: Reading, a: Axis): real
  {
    match a
    case X => rd.x
    case Y => rd.y
    case Z => rd.z
  }

  /** Summary of the values of one axis. */
  datatype StatsAnalysis = StatsAnalysis(minValue: real, maxValue: real, count: int, sum: real, median: real)

  /** Summaries of the three axes together with the window that was asked for. */
  datatype CompleteStatsAnalysis = CompleteStatsAnalysis(
    x: StatsAnalysis, y: StatsAnalysis, z: StatsAnalysis,
    periodStart: Option<int>, periodEnd: Option<int>)
  {
    function Get(a: Axis): StatsAnalysis
    {
      match a
      case X => x
      case Y => y
      case Z => z
    }
  }

  datatype DeviceStatsAnalysis = DeviceStatsAnalysis(deviceId: string, stats: CompleteStatsAnalysis)

  datatype UserStatsAnalysis = UserStatsAnalysis(
    userId: int, aggregateStats: CompleteStatsAnalysis, deviceStats: seq<DeviceStatsAnalysis>)

  /** The outcome of an analysis request: the identifier does not resolve,
      it resolves but nothing matched the window, or a result. */
  datatype Outcome<T> = NotFound | NoData | Ok(value: T)
}
