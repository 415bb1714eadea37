/** What the plugin promises, proved about the pure specification in module
    Inverter: one poll, one heartbeat, and runs of them. */
module Properties {
  import opened Rounding
  import opened Inverter

  // ---------------------------------------------------------------------
  // One poll
  // ---------------------------------------------------------------------

  /** The plugin takes the active path exactly when the status code is 0:
      only then does it mark the inverter working and publish the power with
      the working icon. */
  lemma ActiveIffCodeZero(s: PluginState, r: Report)
    ensures Poll(s, r).0.inverterWorking <==> r.code == 0
    ensures (|Poll(s, r).1.published| == 2 && Poll(s, r).1.published[0] == PowerReading(r.pac, InverterIcon))
            <==> r.code == 0
  {
  }

  /** An error is logged on an inactive poll exactly when its code is not the
      night code; never on an active one. */
  lemma ErrorLoggedIffUnexpectedCode(s: PluginState, r: Report)
    ensures Poll(s, r).1.errorLogged <==> r.code != 0 && r.code != NightCode
  {
  }

  /** A device total above the baseline becomes the new baseline, the fraction
      is dropped, and the published energy is that total. */
  lemma BaselineJump(s: PluginState, r: Report)
    requires IsInverterActive(r) && s.previousTotalWh < r.total
    ensures Poll(s, r).0.whFraction == 0
    ensures Poll(s, r).0.previousTotalWh == r.total
    ensures Poll(s, r).1.published[1] == MeterReading(r.pac, r.total)
  {
  }

  /** A device total not above the baseline keeps the baseline and adds the
      interval's rounded trapezoid estimate to the fraction, which therefore
      never shrinks. */
  lemma Interpolation(s: PluginState, r: Report)
    requires IsInverterActive(r) && r.total <= s.previousTotalWh
    ensures Poll(s, r).0.previousTotalWh == s.previousTotalWh
    ensures Poll(s, r).0.whFraction == s.whFraction + IntervalWh(s.previousCurrentWatt, r.pac)
    ensures Poll(s, r).0.whFraction >= s.whFraction
  {
  }

  /** Every active poll remembers its power for the next interpolation and
      publishes that power twice, with the reported total plus the new
      fraction as energy, which is never below the reported total. */
  lemma ActivePoll(s: PluginState, r: Report)
    requires IsInverterActive(r)
    ensures Poll(s, r).0.previousCurrentWatt == r.pac
    ensures Poll(s, r).0.inverterWorking
    ensures Poll(s, r).1.published
            == [PowerReading(r.pac, InverterIcon), MeterReading(r.pac, r.total + Poll(s, r).0.whFraction)]
    ensures Poll(s, r).1.published[1].wh >= r.total
  {
  }

  /** An inactive poll leaves the estimator alone, marks the inverter not
      working, and publishes the off readings only if it was working. */
  lemma InactivePoll(s: PluginState, r: Report)
    requires !IsInverterActive(r)
    ensures Poll(s, r).0 == s.(inverterWorking := false)
    ensures Poll(s, r).1.published == if s.inverterWorking then OffReadings(s) else []
  {
  }

  /** Two consecutive active polls with the same device total: the published
      energy grows by the rounded estimate for the second interval. */
  lemma SameTotalAddsInterval(s: PluginState, r1: Report, r2: Report)
    requires IsInverterActive(r1) && IsInverterActive(r2) && r1.total == r2.total
    ensures Poll(Poll(s, r1).0, r2).1.published[1].wh
            == Poll(s, r1).1.published[1].wh + IntervalWh(r1.pac, r2.pac)
  {
  }

  /** The off readings after an active poll repeat its energy exactly when
      that poll's device total did not drop below the baseline; otherwise
      they show more, because they are based on the baseline. */
  lemma OffRepeatsActiveEnergy(s: PluginState, r: Report, q: Report)
    requires IsInverterActive(r) && !IsInverterActive(q)
    ensures Poll(Poll(s, r).0, q).1.published[1].wh >= Poll(s, r).1.published[1].wh
    ensures Poll(Poll(s, r).0, q).1.published[1].wh == Poll(s, r).1.published[1].wh
            <==> r.total >= s.previousTotalWh
  {
  }

  /** The published energy is not monotone, even while the device total
      grows: a rise of the device total drops an estimate that overshot it. */
  lemma EnergyCanFallOnBaselineJump()
    ensures
      var s := PluginState(1, true, 100, 0, 0);
      var (s1, e1) := Poll(s, Report(0, "", 3000, 100));
      var (s2, e2) := Poll(s1, Report(0, "", 3000, 101));
      e1.published[1].wh == 125 && e2.published[1].wh == 101
  {
  }

  // ---------------------------------------------------------------------
  // One heartbeat
  // ---------------------------------------------------------------------

  /** A heartbeat polls exactly when the counter is 1; a heartbeat that does
      not raise flips the counter between 0 and 1, and an idle heartbeat
      changes nothing but the counter. */
  lemma HeartbeatAlternates(s: PluginState, f: Fetch)
    requires s.intervalCounter <= 1
    ensures Heartbeat(s, f).1.polled <==> s.intervalCounter == 1
    ensures !Heartbeat(s, f).1.aborted ==> Heartbeat(s, f).0.intervalCounter == 1 - s.intervalCounter
    ensures !Heartbeat(s, f).1.polled ==>
              && Heartbeat(s, f).0 == s.(intervalCounter := 1)
              && Heartbeat(s, f).1 == Effect(false, [], false, false)
  {
  }

  /** A fetch that yields no readable report changes nothing, leaves the
      counter at 1, and so the next heartbeat polls again; only a transport
      error is logged. */
  lemma FailedFetchIsRetried(s: PluginState, f: Fetch, g: Fetch)
    requires s.intervalCounter == 1 && !f.Fetched?
    ensures Heartbeat(s, f).0 == s
    ensures Heartbeat(s, f).1.aborted && Heartbeat(s, f).1.published == []
    ensures Heartbeat(s, f).1.errorLogged <==> f.TransportError?
    ensures Heartbeat(Heartbeat(s, f).0, g).1.polled
  {
  }

  /** The off readings are published in a heartbeat exactly when the inverter
      goes from working to not working in it. */
  predicate PublishesOff(e: Effect)
  {
    |e.published| > 0 && e.published[0] == PowerReading(0, InverterOffIcon)
  }

  lemma OffIffFall(s: PluginState, f: Fetch)
    ensures PublishesOff(Heartbeat(s, f).1) <==> s.inverterWorking && !Heartbeat(s, f).0.inverterWorking
  {
  }

  // ---------------------------------------------------------------------
  // Runs of heartbeats
  // ---------------------------------------------------------------------

  /** Number of heartbeats that published the off readings. */
  function CountOff(es: seq<Effect>): nat
  {
    if es == [] then 0 else (if PublishesOff(es[0]) then 1 else 0) + CountOff(es[1..])
  }

  /** Number of working-to-not-working steps in a sequence of states. */
  function Falls(ss: seq<PluginState>): nat
  {
    if |ss| < 2 then 0
    else (if ss[0].inverterWorking && !ss[1].inverterWorking then 1 else 0) + Falls(ss[1..])
  }

  /** Over any run, the off readings are published once per Active to
      Inactive transition, and never otherwise. */
  lemma {:induction false} OffOncePerFall(s: PluginState, fs: seq<Fetch>)
    ensures CountOff(Run(s, fs).1) == Falls(Run(s, fs).0)
    decreases |fs|
  {
    if fs != [] {
      var (s1, e) := Heartbeat(s, fs[0]);
      OffIffFall(s, fs[0]);
      OffOncePerFall(s1, fs[1..]);
      var ss := Run(s, fs).0;
      assert ss[1..] == Run(s1, fs[1..]).0;
      assert Run(s, fs).1[1..] == Run(s1, fs[1..]).1;
    }
  }

  /** Heartbeat `i` of a run that starts with the counter at 0 and whose
      polls all get a report finds the counter at `i % 2`. */
  lemma {:induction false} CounterAtBeat(s: PluginState, fs: seq<Fetch>, i: nat)
    requires s.intervalCounter == 0
    requires forall k :: 0 <= k < |fs| && k % 2 == 1 ==> fs[k].Fetched?
    requires i <= |fs|
    ensures Run(s, fs).0[i].intervalCounter == i % 2
  {
    if i > 0 {
      CounterAtBeat(s, fs, i - 1);
    }
  }

  /** In such a run, polls happen exactly on the odd heartbeats. */
  lemma PollsAlternate(s: PluginState, fs: seq<Fetch>)
    requires s.intervalCounter == 0
    requires forall k :: 0 <= k < |fs| && k % 2 == 1 ==> fs[k].Fetched?
    ensures forall i :: 0 <= i < |fs| ==> (Run(s, fs).1[i].polled <==> i % 2 == 1)
  {
    forall i | 0 <= i < |fs|
      ensures Run(s, fs).1[i].polled <==> i % 2 == 1
    {
      var ss := Run(s, fs).0;
      CounterAtBeat(s, fs, i);
      HeartbeatAlternates(ss[i], fs[i]);
      assert (ss[i + 1], Run(s, fs).1[i]) == Heartbeat(ss[i], fs[i]);
    }
  }

  /** The reports that the odd heartbeats of an even-length run poll. */
  function PolledReports(fs: seq<Fetch>): (rs: seq<Report>)
    requires |fs| % 2 == 0
    requires forall k :: 0 <= k < |fs| && k % 2 == 1 ==> fs[k].Fetched?
    ensures |rs| == |fs| / 2
    ensures forall j :: 0 <= j < |rs| ==> rs[j] == fs[2 * j + 1].report
    decreases |fs|
  {
    if fs == [] then [] else [fs[1].report] + PolledReports(fs[2..])
  }

  /** Polls leave the interval counter alone. */
  lemma {:induction false} PollsKeepCounter(s: PluginState, rs: seq<Report>)
    ensures Polls(s, rs).0.intervalCounter == s.intervalCounter
    decreases |rs|
  {
    if rs != [] {
      PollsKeepCounter(Poll(s, rs[0]).0, rs[1..]);
    }
  }

  /** An even-length run from counter 0 ends where the polls of its odd
      heartbeats end: the idle heartbeats contribute nothing. */
  lemma {:induction false} RunIsPolls(s: PluginState, fs: seq<Fetch>)
    requires s.intervalCounter == 0 && |fs| % 2 == 0
    requires forall k :: 0 <= k < |fs| && k % 2 == 1 ==> fs[k].Fetched?
    ensures Run(s, fs).0[|fs|] == Polls(s, PolledReports(fs)).0
    decreases |fs|
  {
    if fs != [] {
      var s1 := Heartbeat(s, fs[0]).0;
      var s2 := Heartbeat(s1, fs[1]).0;
      assert s2 == Poll(s, fs[1].report).0.(intervalCounter := 0);
      assert s2 == Poll(s, fs[1].report).0;
      RunIsPolls(s2, fs[2..]);
      assert Run(s, fs).0[2..] == Run(s2, fs[2..]).0 by {
        assert Run(s, fs).0[1..] == Run(s1, fs[1..]).0;
        assert Run(s1, fs[1..]).0[1..] == Run(s2, fs[2..]).0;
      }
      assert PolledReports(fs)[1..] == PolledReports(fs[2..]);
    }
  }

  // ---------------------------------------------------------------------
  // Runs of polls
  // ---------------------------------------------------------------------

  /** The sum of the rounded trapezoid estimates of consecutive intervals,
      starting from power `w`. */
  function InterpolatedWh(w: nat, rs: seq<Report>): nat
    decreases |rs|
  {
    if rs == [] then 0 else IntervalWh(w, rs[0].pac) + InterpolatedWh(rs[0].pac, rs[1..])
  }

  /** Between baseline jumps the fraction is exactly the sum of the interval
      estimates: it never decreases and the baseline stays put. */
  lemma {:induction false} FractionIsInterpolatedSum(s: PluginState, rs: seq<Report>)
    requires forall r <- rs :: IsInverterActive(r) && r.total <= s.previousTotalWh
    ensures Polls(s, rs).0.previousTotalWh == s.previousTotalWh
    ensures Polls(s, rs).0.whFraction == s.whFraction + InterpolatedWh(s.previousCurrentWatt, rs)
    ensures Polls(s, rs).0.whFraction >= s.whFraction
    ensures rs != [] ==> Polls(s, rs).0.previousCurrentWatt == rs[|rs| - 1].pac
    decreases |rs|
  {
    if rs != [] {
      var s1 := Poll(s, rs[0]).0;
      Interpolation(s, rs[0]);
      FractionIsInterpolatedSum(s1, rs[1..]);
    }
  }

  function Repeat(r: Report, n: nat): (rs: seq<Report>)
    ensures |rs| == n && forall x <- rs :: x == r
  {
    if n == 0 then [] else [r] + Repeat(r, n - 1)
  }

  lemma {:induction false} SteadyIntervals(r: Report, n: nat)
    ensures InterpolatedWh(r.pac, Repeat(r, n)) == n * IntervalWh(r.pac, r.pac)
  {
    if n > 0 {
      SteadyIntervals(r, n - 1);
      assert Repeat(r, n)[1..] == Repeat(r, n - 1);
    }
  }

  /** Feeding the same report over and over, with a device total that does not
      rise above the baseline, grows the fraction by one fixed increment per
      poll after the first: no drift correction, no saturation. */
  lemma SteadyFeed(s: PluginState, r: Report, n: nat)
    requires IsInverterActive(r) && r.total <= s.previousTotalWh && n >= 1
    ensures Polls(s, Repeat(r, n)).0.whFraction
            == s.whFraction + IntervalWh(s.previousCurrentWatt, r.pac) + (n - 1) * IntervalWh(r.pac, r.pac)
  {
    FractionIsInterpolatedSum(s, Repeat(r, n));
    assert Repeat(r, n)[1..] == Repeat(r, n - 1);
    SteadyIntervals(r, n - 1);
  }

  /** A stretch of inactive polls leaves the estimator alone and publishes the
      off readings once if the inverter was working, and never again. */
  lemma {:induction false} InactiveStretch(s: PluginState, rs: seq<Report>)
    requires forall r <- rs :: !IsInverterActive(r)
    ensures Polls(s, rs).0.previousTotalWh == s.previousTotalWh
    ensures Polls(s, rs).0.previousCurrentWatt == s.previousCurrentWatt
    ensures Polls(s, rs).0.whFraction == s.whFraction
    ensures CountOff(Polls(s, rs).1) == if s.inverterWorking && rs != [] then 1 else 0
    ensures forall e <- Polls(s, rs).1 :: |e.published| == 0 || e.published == OffReadings(s)
    decreases |rs|
  {
    if rs != [] {
      var s1 := Poll(s, rs[0]).0;
      InactivePoll(s, rs[0]);
      InactiveStretch(s1, rs[1..]);
      assert Polls(s, rs).1[1..] == Polls(s1, rs[1..]).1;
      if !s1.inverterWorking {
        InactiveStretchQuiet(s1, rs[1..]);
      }
    }
  }

  /** While the inverter is already marked not working, inactive polls
      publish nothing. */
  lemma {:induction false} InactiveStretchQuiet(s: PluginState, rs: seq<Report>)
    requires !s.inverterWorking
    requires forall r <- rs :: !IsInverterActive(r)
    ensures forall e <- Polls(s, rs).1 :: e.published == []
    decreases |rs|
  {
    if rs != [] {
      InactiveStretchQuiet(Poll(s, rs[0]).0, rs[1..]);
    }
  }

  // ---------------------------------------------------------------------
  // Scenarios
  // ---------------------------------------------------------------------

  /** From the initial state: a first total becomes the baseline, an unchanged
      total adds round((600 + 600) / 2 / 60) = 10 Wh, and a larger total
      replaces the estimate. */
  lemma StartupScenario()
    ensures
      var (t, es) := Polls(Initial(), [Report(0, "", 600, 10), Report(0, "", 600, 10), Report(0, "", 0, 15)]);
      && es[0].published == [PowerReading(600, InverterIcon), MeterReading(600, 10)]
      && es[1].published == [PowerReading(600, InverterIcon), MeterReading(600, 20)]
      && es[2].published == [PowerReading(0, InverterIcon), MeterReading(0, 15)]
      && t.previousTotalWh == 15 && t.whFraction == 0
  {
    var rs := [Report(0, "", 600, 10), Report(0, "", 600, 10), Report(0, "", 0, 15)];
    var (s1, e1) := Poll(Initial(), rs[0]);
    assert s1 == PluginState(0, true, 10, 600, 0);
    var (s2, e2) := Poll(s1, rs[1]);
    assert IntervalWh(600, 600) == 10 by {
      TiesRoundToEven();
    }
    assert s2 == PluginState(0, true, 10, 600, 10) && e2.published[1] == MeterReading(600, 20);
    var (s3, e3) := Poll(s2, rs[2]);
    assert s3 == PluginState(0, true, 15, 0, 0);
    assert rs[1..] == [rs[1], rs[2]] && rs[1..][1..] == [rs[2]] && [rs[2]][1..] == [];
    assert Polls(s3, []) == (s3, []);
    assert Polls(s2, [rs[2]]).1 == [e3];
    assert Polls(s1, rs[1..]).1 == [e2, e3];
  }

  /** A working inverter that reports an error code publishes the off readings
      once and logs the error; a following night code publishes nothing and
      logs nothing. */
  lemma TransitionScenario()
    ensures
      var (t, es) := Polls(Initial(), [Report(0, "", 500, 100), Report(1, "", 0, 0), Report(NightCode, "", 0, 0)]);
      && es[0].published == [PowerReading(500, InverterIcon), MeterReading(500, 100)]
      && es[1].published == [PowerReading(0, InverterOffIcon), MeterReading(0, 100)] && es[1].errorLogged
      && es[2].published == [] && !es[2].errorLogged
      && !t.inverterWorking
  {
    var rs := [Report(0, "", 500, 100), Report(1, "", 0, 0), Report(NightCode, "", 0, 0)];
    var s1 := Poll(Initial(), rs[0]).0;
    var s2 := Poll(s1, rs[1]).0;
    assert s2 == PluginState(0, false, 100, 500, 0);
    assert rs[1..][1..] == [rs[2]];
    assert Poll(s2, rs[2]) == (s2, Effect(true, [], false, false));
    assert [rs[2]][1..] == [];
    assert Polls(s2, [rs[2]]).1 == [Effect(true, [], false, false)];
  }
}
