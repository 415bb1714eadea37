/** The plugin object: its fields change step by step on every heartbeat, as
    in the original class; each method is proved to do what the matching
    function of module Inverter specifies. */
module Plugin {
  import opened Inverter

  class BasePlugin {
    var inverterWorking: bool
    var intervalCounter: nat
    var previousTotalWh: nat
    var previousCurrentWatt: nat
    var whFraction: nat

    /** The fields as a value of the specification's state type. */
    function State(): PluginState
      reads this
    {
      PluginState(intervalCounter, inverterWorking, previousTotalWh, previousCurrentWatt, whFraction)
    }

    /** The class defaults: working, no baseline, no fraction. The counter
        starts as None in the original, which takes the same branch of the
        heartbeat as 0. */
    constructor ()
      ensures State() == Initial()
    {
      inverterWorking := true;
      intervalCounter := 0;
      previousTotalWh := 0;
      previousCurrentWatt := 0;
      whFraction := 0;
    }

    /** The part of `onStart` that touches the state: reset the counter. */
    method OnStart()
      modifies this
      ensures State() == old(State()).(intervalCounter := 0)
    {
      intervalCounter := 0;
    }

    /** `updateDeviceMeter`: move the baseline or accumulate, remember the
        power, and return the meter reading to publish. */
    method UpdateDeviceMeter(r: Report) returns (u: DeviceUpdate)
      modifies this
      ensures (State(), u) == UpdateMeter(old(State()), r.pac, r.total)
    {
      var totalWh := r.total;
      var currentWatts := r.pac;
      if previousTotalWh < totalWh {
        whFraction := 0;
        previousTotalWh := totalWh;
      } else {
        whFraction := whFraction + IntervalWh(previousCurrentWatt, currentWatts);
      }
      previousCurrentWatt := currentWatts;
      var calculatedWh := totalWh + whFraction;
      u := MeterReading(currentWatts, calculatedWh);
    }

    /** `updateDeviceOff`: the readings to publish when the inverter stops. */
    method UpdateDeviceOff() returns (us: seq<DeviceUpdate>)
      ensures us == OffReadings(State())
    {
      var calculatedWh := previousTotalWh + whFraction;
      us := [PowerReading(0, InverterOffIcon), MeterReading(0, calculatedWh)];
    }

    /** `onHeartbeat`, with the fetch's outcome passed in. */
    method OnHeartbeat(fetched: Fetch) returns (e: Effect)
      modifies this
      ensures (State(), e) == Heartbeat(old(State()), fetched)
    {
      if intervalCounter == 1 {
        if !fetched.Fetched? {
          // isInverterActive subscripts the missing report and raises: the
          // counter is not reset and nothing else runs
          return Effect(true, [], fetched.TransportError?, true);
        }
        var r := fetched.report;
        if IsInverterActive(r) {
          var current := CurrentReading(r.pac);
          var meter := UpdateDeviceMeter(r);
          if !inverterWorking {
            inverterWorking := true;
          }
          e := Effect(true, [current, meter], false, false);
        } else {
          var logged := LogsErrorCode(r);
          var published := [];
          if inverterWorking {
            inverterWorking := false;
            published := UpdateDeviceOff();
          }
          e := Effect(true, published, logged, false);
        }
        intervalCounter := 0;
      } else {
        intervalCounter := 1;
        e := Effect(false, [], false, false);
      }
    }
  }
}
