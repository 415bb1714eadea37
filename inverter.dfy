/** Pure specification of one Fronius inverter plugin instance: the status
    classification, the watt-hour estimator and the heartbeat state machine,
    each as a function of the plugin's state and of what the inverter reported.
    Device updates are returned as readings instead of being sent to the host. */
module Inverter {
  import opened Rounding

  /** The plugin polls once a minute, so an average power in watts, divided
      by 60, is the energy of one polling interval in watt-hours. */
  const MinutesPerHour := 60

  /** The status code of an inverter that has no sun (at night). */
  const NightCode := 12

  /** One realtime-data response: `Head.Status.Code`, `Head.Status.Reason`,
      `Body.Data.PAC.Value` (watts) and `Body.Data.TOTAL_ENERGY.Value` (Wh). */
  datatype Report = Report(code: int, reason: string, pac: nat, total: nat)

  /** What one attempt to fetch the realtime data gives the heartbeat. */
  datatype Fetch =
    | Fetched(report: Report)
      // an HTTP or URL error: the fetch logs an error and returns nothing
    | TransportError(message: string)
      // any payload or transport failure on which reading the status raises
      // without the plugin logging an error: not JSON, no status code, no
      // reason, a reason that is not text, or a network error the fetch
      // does not catch
    | Malformed

  /** The icon shown on the power device. */
  datatype Icon = InverterIcon | InverterOffIcon

  /** An update of one of the two host devices: unit 1 shows the current power,
      unit 2 is the meter with the current power and the energy total. */
  datatype DeviceUpdate =
    | PowerReading(watts: nat, icon: Icon)
    | MeterReading(watts: nat, wh: nat)

  /** What one heartbeat did besides changing the state: whether it polled the
      inverter, what it published (in order), whether it logged an error and
      whether it ended by raising an exception. */
  datatype Effect = Effect(polled: bool, published: seq<DeviceUpdate>, errorLogged: bool, aborted: bool)

  /** The fields of a plugin instance. */
  datatype PluginState = PluginState(
    intervalCounter: nat,
    inverterWorking: bool,
    previousTotalWh: nat,
    previousCurrentWatt: nat,
    whFraction: nat)

  /** The state after construction and start: the class defaults, with the
      interval counter at 0. */
  function Initial(): PluginState
  {
    PluginState(0, true, 0, 0, 0)
  }

  /** `isInverterActive`: the inverter produces exactly when its status code is 0. */
  predicate IsInverterActive(r: Report)
  {
    r.code == 0
  }

  /** The decision in `logErrorCode`: every code except the night code is an error. */
  predicate LogsErrorCode(r: Report)
  {
    r.code != NightCode
  }

  /** The estimated energy of one interval: the average of two power readings,
      in watts, divided by 60, rounded as Python's `round` does. */
  function IntervalWh(previousWatt: nat, currentWatt: nat): (wh: nat)
    ensures IsRoundHalfEven(previousWatt + currentWatt, 2 * MinutesPerHour, wh)
  {
    RoundHalfEven(previousWatt + currentWatt, 2 * MinutesPerHour)
  }

  /** `updateDeviceCurrent`: the power device shows the current power. */
  function CurrentReading(pac: nat): DeviceUpdate
  {
    PowerReading(pac, InverterIcon)
  }

  /** `updateDeviceMeter`: take a larger device total as the new baseline, or
      else add the interval's estimate to the fraction; publish the reported
      total plus the fraction. */
  function UpdateMeter(s: PluginState, pac: nat, total: nat): (res: (PluginState, DeviceUpdate))
    ensures res.0.intervalCounter == s.intervalCounter
    ensures res.0.inverterWorking == s.inverterWorking
    ensures res.1.MeterReading? && res.1.watts == pac
  {
    var s1 :=
      if s.previousTotalWh < total then s.(whFraction := 0, previousTotalWh := total)
      else s.(whFraction := s.whFraction + IntervalWh(s.previousCurrentWatt, pac));
    var s2 := s1.(previousCurrentWatt := pac);
    (s2, MeterReading(pac, total + s2.whFraction))
  }

  /** `updateDeviceOff`: zero power with the off icon, and the baseline plus
      the fraction as the energy total. */
  function OffReadings(s: PluginState): (us: seq<DeviceUpdate>)
    ensures |us| == 2 && us[0].PowerReading? && us[1].MeterReading?
    ensures forall u <- us :: u.watts == 0
  {
    [PowerReading(0, InverterOffIcon), MeterReading(0, s.previousTotalWh + s.whFraction)]
  }

  /** The body of a polling heartbeat once a report is in hand. */
  function Poll(s: PluginState, r: Report): (res: (PluginState, Effect))
    ensures res.0.intervalCounter == s.intervalCounter
    ensures res.1.polled && !res.1.aborted
  {
    if IsInverterActive(r) then
      var (s1, meter) := UpdateMeter(s, r.pac, r.total);
      (s1.(inverterWorking := true), Effect(true, [CurrentReading(r.pac), meter], false, false))
    else if s.inverterWorking then
      (s.(inverterWorking := false), Effect(true, OffReadings(s), LogsErrorCode(r), false))
    else
      (s, Effect(true, [], LogsErrorCode(r), false))
  }

  /** `onHeartbeat`: poll on every other heartbeat. A fetch that yields no
      readable report raises before the counter is reset, so nothing changes. */
  function Heartbeat(s: PluginState, f: Fetch): (res: (PluginState, Effect))
    ensures res.1.polled <==> s.intervalCounter == 1
    ensures !res.1.polled ==> res.0 == s.(intervalCounter := 1) && res.1.published == []
    ensures res.1.aborted <==> res.1.polled && !f.Fetched?
    ensures res.1.aborted ==> res.0 == s
  {
    if s.intervalCounter == 1 then
      match f
      case Fetched(r) =>
        var (s1, e) := Poll(s, r);
        (s1.(intervalCounter := 0), e)
      case TransportError(_) => (s, Effect(true, [], true, true))
      case Malformed => (s, Effect(true, [], false, true))
    else
      (s.(intervalCounter := 1), Effect(false, [], false, false))
  }

  /** A run of heartbeats: the states before and after each one, and each
      heartbeat's effect. */
  function Run(s: PluginState, fs: seq<Fetch>): (res: (seq<PluginState>, seq<Effect>))
    ensures |res.0| == |fs| + 1 && |res.1| == |fs| && res.0[0] == s
    ensures forall i :: 0 <= i < |fs| ==> (res.0[i + 1], res.1[i]) == Heartbeat(res.0[i], fs[i])
    decreases |fs|
  {
    if fs == [] then ([s], [])
    else
      var (s1, e) := Heartbeat(s, fs[0]);
      var (ss, es) := Run(s1, fs[1..]);
      ([s] + ss, [e] + es)
  }

  /** A run of polls, without the idle heartbeats in between. */
  function Polls(s: PluginState, rs: seq<Report>): (res: (PluginState, seq<Effect>))
    ensures |res.1| == |rs|
    decreases |rs|
  {
    if rs == [] then (s, [])
    else
      var (s1, e) := Poll(s, rs[0]);
      var (t, es) := Polls(s1, rs[1..]);
      (t, [e] + es)
  }
}
