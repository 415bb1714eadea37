# Fronius inverter plugin: heartbeat state machine and energy estimator

A Dafny model of `BasePlugin`, the Domoticz plugin object that polls a
Fronius inverter's realtime-data endpoint and publishes two readings: the
current power (device unit 1) and a meter with power and cumulative energy
(device unit 2). The inverter counts energy in whole watt-hours and updates
its counter rarely. Between counter updates the plugin estimates the energy
delivered in each one-minute polling interval. The estimate is the
trapezoid average of the last two power readings, divided by 60 and rounded.
These estimates are added to a fraction on top of the last accepted counter
value (the baseline). The fraction is dropped as soon as the counter rises.

- `rounding.dfy` (module `Rounding`): Python's `round` on an integer quotient,
  as exact integer round-half-to-even.
- `inverter.dfy` (module `Inverter`): the pure specification. It holds the
  report, fetch outcome, device reading and plugin state types. It defines
  status classification (`IsInverterActive`, `LogsErrorCode`), the meter
  update, the off readings, one poll, one heartbeat, and runs of heartbeats
  (`Run`) and of polls (`Polls`).
- `properties.dfy` (module `Properties`): the properties of one poll, one
  heartbeat and of runs, proved about the specification.
- `plugin.dfy` (module `Plugin`): class `BasePlugin` with the original's
  five state fields. Its methods update those fields step by step, as the
  original does. Each method is proved equal to its specification function.

Device updates are returned as readings (`PowerReading`, `MeterReading`) in
the order the original sends them. Logging is the `errorLogged` flag of a
heartbeat's `Effect`. A heartbeat that ends with an exception is marked
`aborted`.

Behaviour of the code worth knowing:

- A failed fetch does not take the inactive path. `getInverterRealtimeData`
  logs the error and returns `None` (plugin.py:98-100). `isInverterActive` then
  raises while subscripting it (plugin.py:110). The exception leaves
  `onHeartbeat` before the counter is reset (plugin.py:79). So nothing changes,
  and the next heartbeat polls again (`FailedFetchIsRetried`).
- After the off readings, later inactive polls publish nothing
  (`InactiveStretch`, `TransitionScenario`): the test at plugin.py:74 finds
  the working flag already false, so `updateDeviceOff` runs only once.
- The published energy is not monotone, even while the device counter only
  grows. When the counter rises it replaces an estimate that may have
  overshot it (`EnergyCanFallOnBaselineJump`).
- An active poll publishes the reported total plus the fraction
  (plugin.py:147). The off readings publish the baseline plus the fraction
  (plugin.py:156). These differ exactly when the last active report's total
  fell below the baseline (`OffRepeatsActiveEnergy`).

## Model

| member | source | states |
|---|---|---|
| `Rounding.RoundHalfEven` | plugin.py:142 | the result is a nearest integer to n / d, and the even one on an exact tie, as Python's `round` |
| `Rounding.NearestAreTied` | plugin.py:142 | two different integers both nearest to n / d are neighbours with n / d exactly half-way between them |
| `Rounding.RoundHalfEvenUnique` | plugin.py:142 | any integer nearest to n / d, even on a tie, is the one `RoundHalfEven` returns |
| `Rounding.TiesRoundToEven` | plugin.py:142 | 0.5 rounds to 0, 1.5 and 2.5 round to 2, and 1200 / 120 is exactly 10 |
| `Inverter.IntervalWh` | plugin.py:141-142 | the interval estimate is the nearest integer (ties to even) to the average of the two powers divided by 60 |
| `Inverter.UpdateMeter` | plugin.py:131-150 | the meter update leaves the counter and the working flag alone and publishes a meter reading with the reported power |
| `Inverter.OffReadings` | plugin.py:153-157 | the off readings are one power reading and one meter reading, both with zero power |
| `Inverter.Poll` | plugin.py:63-76 | a poll keeps the interval counter, counts as polled and does not raise |
| `Inverter.Initial` | plugin.py:28-33 | the class defaults with the counter reset by `onStart` (plugin.py:45); stated by `BasePlugin.constructor` and used by `StartupScenario` and `TransitionScenario` |
| `Inverter.IsInverterActive` | plugin.py:108-110 | active exactly when the status code is 0; stated for polls by `ActiveIffCodeZero` |
| `Inverter.LogsErrorCode` | plugin.py:113-120 | every code except 12 is logged as an error; stated for polls by `ErrorLoggedIffUnexpectedCode` |
| `Inverter.CurrentReading` | plugin.py:123-129 | the power device shows the reported power with the working icon; stated by `ActivePoll` and `ActiveIffCodeZero` |
| `Inverter.Heartbeat` | plugin.py:55-86 | a heartbeat polls if and only if the counter is 1, an idle one only sets the counter to 1 and publishes nothing, and one raises exactly when it polls without a readable report, leaving the state unchanged; further stated by `HeartbeatAlternates`, `FailedFetchIsRetried` and `OffIffFall` |
| `Inverter.Run` | plugin.py:55-86 | a run has one effect per heartbeat and one state more, and each step is one heartbeat from the state before it |
| `Inverter.Polls` | plugin.py:63-76 | a run of polls has one effect per report |
| `Properties.ActiveIffCodeZero` | plugin.py:108-110 | a poll marks the inverter working, and publishes its power with the working icon, if and only if the status code is 0 |
| `Properties.ErrorLoggedIffUnexpectedCode` | plugin.py:113-120 | an error is logged if and only if the code is neither 0 nor the night code 12 |
| `Properties.BaselineJump` | plugin.py:135-138 | a reported total above the baseline becomes the baseline, the fraction becomes 0 and the published energy is that total |
| `Properties.Interpolation` | plugin.py:140-142 | a reported total not above the baseline keeps the baseline and grows the fraction by exactly the rounded interval estimate |
| `Properties.ActivePoll` | plugin.py:123-150 | an active poll stores its power, marks the inverter working, publishes the power and then the reported total plus the fraction, which is never below the reported total |
| `Properties.InactivePoll` | plugin.py:71-76 | an inactive poll changes only the working flag (to false) and publishes the off readings if and only if the inverter was working |
| `Properties.SameTotalAddsInterval` | plugin.py:131-150 | two active polls with the same device total: the second publishes the first's energy plus the rounded estimate of their interval |
| `Properties.OffRepeatsActiveEnergy` | plugin.py:147 | the off energy after an active poll is at least that poll's energy, and equal if and only if its total was not below the baseline |
| `Properties.EnergyCanFallOnBaselineJump` | plugin.py:135-147 | with a growing device total the published energy can still fall (125 Wh, then 101 Wh) |
| `Properties.HeartbeatAlternates` | plugin.py:57-82 | a heartbeat polls if and only if the counter is 1; one that does not raise flips the counter, and an idle one changes nothing else |
| `Properties.FailedFetchIsRetried` | plugin.py:98-110 | a failed or unreadable fetch changes no state, raises, logs only a transport error, and the next heartbeat polls again |
| `Properties.OffIffFall` | plugin.py:74-76 | a heartbeat publishes the off readings if and only if the inverter goes from working to not working in it |
| `Properties.OffOncePerFall` | plugin.py:68-76 | over any run, the off readings are published exactly as often as the inverter goes from working to not working |
| `Properties.CounterAtBeat` | plugin.py:57-82 | from counter 0, with every poll getting a report, heartbeat i sees counter i mod 2 |
| `Properties.PollsAlternate` | plugin.py:57-82 | in such a run, exactly the odd-numbered heartbeats poll |
| `Properties.PolledReports` | plugin.py:61 | the reports polled in an even-length run are those of its odd heartbeats, in order |
| `Properties.PollsKeepCounter` | plugin.py:63-76 | polls leave the interval counter alone |
| `Properties.RunIsPolls` | plugin.py:55-86 | an even-length run from counter 0 ends in the state reached by polling only its odd heartbeats' reports |
| `Properties.FractionIsInterpolatedSum` | plugin.py:131-146 | between baseline jumps the baseline stays, the fraction grows by exactly the sum of the interval estimates, and the last power is remembered |
| `Properties.SteadyIntervals` | plugin.py:141-142 | n polls at constant power p add n times the estimate for two readings of p |
| `Properties.SteadyFeed` | plugin.py:140-142 | repeating one report, with a total not above the baseline, adds one fixed increment per poll after the first |
| `Properties.InactiveStretch` | plugin.py:71-76 | inactive polls keep the estimator, publish the off readings once if the inverter was working and otherwise nothing |
| `Properties.InactiveStretchQuiet` | plugin.py:74 | inactive polls of an inverter already not working publish nothing |
| `Properties.StartupScenario` | plugin.py:131-150 | from the initial state, totals 10, 10, 15 at powers 600, 600, 0 publish energies 10, 20, 15 |
| `Properties.TransitionScenario` | plugin.py:63-76 | active (500 W, 100 Wh), then error code 1, then code 12: publishes (500, 100), then the off readings (0, 100) with an error, then nothing and no error |
| `Plugin.BasePlugin.constructor` | plugin.py:28-33 | a new plugin is working, with counter, baseline, last power and fraction all 0 |
| `Plugin.BasePlugin.OnStart` | plugin.py:45 | start resets the interval counter and nothing else |
| `Plugin.BasePlugin.UpdateDeviceMeter` | plugin.py:131-150 | the fields and the returned meter reading are those of `UpdateMeter` on the old fields |
| `Plugin.BasePlugin.UpdateDeviceOff` | plugin.py:153-157 | returns the off readings of the current fields and changes nothing |
| `Plugin.BasePlugin.OnHeartbeat` | plugin.py:55-86 | the fields and the returned effect are those of `Heartbeat` on the old fields and the fetch outcome |

## Left out

- Fetching and decoding (plugin.py:89-104): the HTTP request to the Solar API v1 endpoint and the JSON parsing are network I/O. Their outcome is the `Fetch` parameter of a heartbeat: a report, a transport error, or a payload without a readable status.
- A report whose status code is 0 but that lacks `PAC` or `TOTAL_ENERGY`: the original raises part-way through the active path. `Report` always carries both values.
- Host calls in `onStart` (plugin.py:35-52): debugging mode, device and image creation, the 30-second host heartbeat and the initial device refresh belong to the host library. `OnStart` keeps only the counter reset.
- Device updates themselves: readings are returned instead. The `sValue` strings (`"power;energy"`) are represented by the reading's fields. The icon is kept only for the power device.
- Logging (plugin.py:183-197): file appends and host logging. Only whether an error is logged is modelled; debug messages and message texts are left out.
- Module-level dispatch (plugin.py:164-181) and `onStop`: a global-singleton wrapper with no state of its own. `onDisconnect` calls a method the class does not define.
- Floating point: powers and totals are nonnegative integers. The estimate `round(((p1 + p2) / 2) / 60)` is computed exactly as round-half-even of (p1 + p2) / 120. Negative or fractional readings are not modelled.
- The counter's initial `None` before `onStart`: it takes the same branch of `onHeartbeat` as 0, so the model starts it at 0.
