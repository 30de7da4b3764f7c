/** The edge agent's polling engine (`PiWeatherEngine`): sensors are
    registered in order, then `run` loops until the termination flag is seen.
    Each tick reads every sensor once, drops the sensors that fail or have no
    data, concatenates the rest into one batch and hands it to the
    transmitter; a transmitter error ends `run` with that error.

    Sensors, transmitter and flag are external: what they answer on each loop
    iteration is an `Observation`, and a finite script of observations stands
    in for the unbounded loop. Timing (the busy-wait and the sleep) is left
    out. */
module Engine {
  import opened Wrappers
  import opened Bytes

  /** `piweather_commons::PiWeatherError`, the error of both `Sensor::read` and `send`. */
  datatype PiWeatherError = HttpTransmitterError(status: Option<U16>, reason: Option<string>)

  /** What `PiWeatherSensor::read` returns: `Err`, `Ok(None)` or `Ok(Some(readouts))`. */
  datatype SensorOutcome<R> = Failed(error: PiWeatherError) | NoData | Readouts(items: seq<R>)

  /** What the engine does to the outside world, in order. */
  datatype Event<S, R> = Read(position: nat, sensor: S) | Send(batch: seq<R>)

  /** The engine's polling interval (a `Duration`, here a plain number; only
      the timing that is left out uses it) and its registered sensors. The
      transmitter is not modelled as state: its answers come with each `Observation`. */
  datatype PiWeatherEngine<S> = PiWeatherEngine(interval: nat, sensors: seq<S>)

  /** One iteration of the `while` loop as seen from outside: the flag read at
      the loop head, what the sensor at each position answers, and how the
      transmitter answers a batch. */
  datatype Observation<!R> = Observation(
    terminated: bool,
    answers: nat -> SensorOutcome<R>,
    send: seq<R> -> Result<(), PiWeatherError>)

  /** How `run` ended: `Ok(())` after seeing the flag, `Err` from the
      transmitter, or still looping when the script ran out. */
  datatype Status = Exited | Aborted(error: PiWeatherError) | Running

  datatype RunRecord<S, R> = RunRecord(status: Status, ticks: nat, trace: seq<Event<S, R>>)

  // ---------------------------------------------------------------------
  // Registration
  // ---------------------------------------------------------------------

  /** `PiWeatherEngine::new`: the given interval and no sensors yet. */
  function New<S>(interval: nat): (e: PiWeatherEngine<S>)
    ensures e.interval == interval && |e.sensors| == 0
  {
    PiWeatherEngine(interval, [])
  }

  /** `register_sensor`: the new sensor goes last, the earlier ones keep their order. */
  function RegisterSensor<S>(engine: PiWeatherEngine<S>, sensor: S): (e: PiWeatherEngine<S>)
    ensures |e.sensors| == |engine.sensors| + 1
    ensures e.sensors[..|engine.sensors|] == engine.sensors
    ensures e.sensors[|engine.sensors|] == sensor
    ensures e.interval == engine.interval
  {
    PiWeatherEngine(engine.interval, engine.sensors + [sensor])
  }

  function RegisterAll<S>(engine: PiWeatherEngine<S>, sensors: seq<S>): PiWeatherEngine<S>
    decreases |sensors|
  {
    if |sensors| == 0 then engine
    else RegisterAll(RegisterSensor(engine, sensors[0]), sensors[1..])
  }

  /** Registering sensors one after another appends them in that order. */
  lemma {:induction false} RegisterAllAppends<S>(engine: PiWeatherEngine<S>, sensors: seq<S>)
    ensures RegisterAll(engine, sensors).sensors == engine.sensors + sensors
    decreases |sensors|
  {
    if |sensors| > 0 {
      RegisterAllAppends(RegisterSensor(engine, sensors[0]), sensors[1..]);
      assert engine.sensors + [sensors[0]] + sensors[1..] == engine.sensors + sensors;
    }
  }

  lemma RegisteredInOrder<S>(interval: nat, sensors: seq<S>)
    ensures RegisterAll(New<S>(interval), sensors).sensors == sensors
  {
    RegisterAllAppends(New<S>(interval), sensors);
    assert New<S>(interval).sensors + sensors == sensors;
  }

  // ---------------------------------------------------------------------
  // One tick's batch
  // ---------------------------------------------------------------------

  /** The `filter_map` arm: `Ok(readouts) => readouts`, `Err(_) => None`. */
  function Kept<R>(o: SensorOutcome<R>): (r: Option<seq<R>>)
    ensures r.Some? <==> o.Readouts?
    ensures r.Some? ==> r.value == o.items
  {
    match o
    case Failed(_) => None
    case NoData => None
    case Readouts(items) => Some(items)
  }

  /** `.filter_map(..)`: the readout lists of the sensors that returned `Ok(Some(_))`, in order. */
  function FilterMap<R>(outcomes: seq<SensorOutcome<R>>): (r: seq<seq<R>>)
    ensures |r| <= |outcomes|
    ensures forall k :: 0 <= k < |r| ==> exists i :: 0 <= i < |outcomes| && outcomes[i].Readouts? && outcomes[i].items == r[k]
    ensures forall i :: 0 <= i < |outcomes| && outcomes[i].Readouts? ==> outcomes[i].items in r
    decreases |outcomes|
  {
    if |outcomes| == 0 then []
    else match Kept(outcomes[0])
      case None => FilterMap(outcomes[1..])
      case Some(items) => [items] + FilterMap(outcomes[1..])
  }

  /** `.flatten().collect()`. */
  function Flatten<R>(lists: seq<seq<R>>): (r: seq<R>)
    ensures forall k :: 0 <= k < |r| ==> exists j :: 0 <= j < |lists| && r[k] in lists[j]
    ensures forall j, m :: 0 <= j < |lists| && 0 <= m < |lists[j]| ==> lists[j][m] in r
    decreases |lists|
  {
    if |lists| == 0 then [] else lists[0] + Flatten(lists[1..])
  }

  /** The batch a tick hands to the transmitter. */
  function Batch<R>(outcomes: seq<SensorOutcome<R>>): (r: seq<R>)
    ensures forall i, m :: 0 <= i < |outcomes| && outcomes[i].Readouts? && 0 <= m < |outcomes[i].items| ==> outcomes[i].items[m] in r
  {
    Flatten(FilterMap(outcomes))
  }

  lemma {:induction false} FilterMapConcat<R>(a: seq<SensorOutcome<R>>, b: seq<SensorOutcome<R>>)
    ensures FilterMap(a + b) == FilterMap(a) + FilterMap(b)
    decreases |a|
  {
    if |a| == 0 {
      assert a + b == b;
    } else {
      assert (a + b)[1..] == a[1..] + b;
      FilterMapConcat(a[1..], b);
    }
  }

  lemma {:induction false} FlattenConcat<R>(a: seq<seq<R>>, b: seq<seq<R>>)
    ensures Flatten(a + b) == Flatten(a) + Flatten(b)
    decreases |a|
  {
    if |a| == 0 {
      assert a + b == b;
    } else {
      assert (a + b)[1..] == a[1..] + b;
      FlattenConcat(a[1..], b);
    }
  }

  /** Polling two groups of sensors one after the other batches their readouts one after the other. */
  lemma BatchConcat<R>(a: seq<SensorOutcome<R>>, b: seq<SensorOutcome<R>>)
    ensures Batch(a + b) == Batch(a) + Batch(b)
  {
    FilterMapConcat(a, b);
    FlattenConcat(FilterMap(a), FilterMap(b));
  }

  /** What one sensor adds to the batch: its readouts, or nothing on `Err` and `Ok(None)`. */
  /** A single sensor yields one list on `Ok(Some(_))` and none otherwise; with
      `FilterMapConcat` this fixes both the order and the multiplicity of the lists. */
  lemma FilterMapOfOne<R>(o: SensorOutcome<R>)
    ensures FilterMap([o]) == if o.Readouts? then [o.items] else []
  {
    assert [o][1..] == [];
  }

  lemma BatchOfOne<R>(o: SensorOutcome<R>)
    ensures Batch([o]) == if o.Readouts? then o.items else []
  {
    assert [o][1..] == [];
    if o.Readouts? {
      assert FilterMap([o]) == [o.items];
      assert Flatten([o.items]) == o.items + Flatten([]);
    } else {
      assert FilterMap([o]) == [];
    }
  }

  /** Failure isolation: a sensor that fails or has no data contributes nothing,
      and the sensors before and after it contribute exactly what they would
      without it. */
  lemma SkippedSensorContributesNothing<R>(outcomes: seq<SensorOutcome<R>>, i: nat)
    requires i < |outcomes| && !outcomes[i].Readouts?
    ensures Batch(outcomes) == Batch(outcomes[..i]) + Batch(outcomes[i + 1..])
  {
    assert outcomes == outcomes[..i] + ([outcomes[i]] + outcomes[i + 1..]);
    BatchConcat(outcomes[..i], [outcomes[i]] + outcomes[i + 1..]);
    BatchConcat([outcomes[i]], outcomes[i + 1..]);
    BatchOfOne(outcomes[i]);
  }

  /** A readout is in the batch exactly when some sensor returned it in `Ok(Some(_))`. */
  lemma BatchMembership<R>(outcomes: seq<SensorOutcome<R>>, x: R)
    ensures x in Batch(outcomes) <==>
              exists i :: 0 <= i < |outcomes| && outcomes[i].Readouts? && x in outcomes[i].items
  {
    var lists := FilterMap(outcomes);
    if x in Batch(outcomes) {
      var k :| 0 <= k < |Batch(outcomes)| && Batch(outcomes)[k] == x;
      var j :| 0 <= j < |lists| && x in lists[j];
      var i :| 0 <= i < |outcomes| && outcomes[i].Readouts? && outcomes[i].items == lists[j];
    }
  }

  /** When no sensor returns `Ok(Some(_))` the batch is empty. */
  lemma NothingKeptEmptyBatch<R>(outcomes: seq<SensorOutcome<R>>)
    requires forall i :: 0 <= i < |outcomes| ==> !outcomes[i].Readouts?
    ensures Batch(outcomes) == []
  {
  }

  /** The sensors' answers on one tick, in registration order. */
  function Outcomes<R>(n: nat, answers: nat -> SensorOutcome<R>): (os: seq<SensorOutcome<R>>)
    ensures |os| == n && forall i :: 0 <= i < n ==> os[i] == answers(i)
  {
    seq(n, i requires 0 <= i => answers(i))
  }

  /** The body of one tick before the send, as the iterator chain runs it:
      every sensor is read once, in registration order, and its readouts (if
      any) are appended; an `Err` does not stop the later reads. */
  method PollSensors<S, R>(sensors: seq<S>, answers: nat -> SensorOutcome<R>) returns (batch: seq<R>, events: seq<Event<S, R>>)
    ensures |events| == |sensors|
    ensures forall i :: 0 <= i < |sensors| ==> events[i] == Read(i, sensors[i])
    ensures batch == Batch(Outcomes(|sensors|, answers))
  {
    batch, events := [], [];
    var i := 0;
    while i < |sensors|
      invariant 0 <= i <= |sensors|
      invariant |events| == i
      invariant forall j :: 0 <= j < i ==> events[j] == Read(j, sensors[j])
      invariant batch == Batch(Outcomes(i, answers))
    {
      var outcome := answers(i);
      events := events + [Read(i, sensors[i])];
      match outcome {
        case Failed(_) =>
        case NoData =>
        case Readouts(items) => batch := batch + items;
      }
      assert Outcomes(i + 1, answers) == Outcomes(i, answers) + [outcome];
      BatchConcat(Outcomes(i, answers), [outcome]);
      BatchOfOne(outcome);
      i := i + 1;
    }
  }

  // ---------------------------------------------------------------------
  // The loop
  // ---------------------------------------------------------------------

  function TickBatch<S, R>(sensors: seq<S>, obs: Observation<R>): seq<R>
  {
    Batch(Outcomes(|sensors|, obs.answers))
  }

  /** The events of one tick: one read per sensor, in order, then one send. */
  function TickEvents<S, R>(sensors: seq<S>, obs: Observation<R>): (events: seq<Event<S, R>>)
    ensures |events| == |sensors| + 1
    ensures forall i :: 0 <= i < |sensors| ==> events[i] == Read(i, sensors[i])
    ensures events[|sensors|] == Send(TickBatch(sensors, obs))
  {
    seq(|sensors|, i requires 0 <= i < |sensors| => Read(i, sensors[i])) + [Send(TickBatch(sensors, obs))]
  }

  /** A tick sends even an empty batch: when every sensor fails or has no
      data, the transmitter is still called, with `[]`. */
  lemma SilentTickStillSends<S, R>(sensors: seq<S>, obs: Observation<R>)
    requires forall i :: 0 <= i < |sensors| ==> !obs.answers(i).Readouts?
    ensures TickEvents(sensors, obs)[|sensors|] == Send([])
  {
    NothingKeptEmptyBatch(Outcomes(|sensors|, obs.answers));
  }

  /** The transmitter's answer to a tick's batch. */
  function Sent<S, R>(sensors: seq<S>, obs: Observation<R>): Result<(), PiWeatherError>
  {
    obs.send(TickBatch(sensors, obs))
  }

  /** The events of several complete ticks, back to back. */
  function Ticks<S, R>(sensors: seq<S>, script: seq<Observation<R>>): seq<Event<S, R>>
    decreases |script|
  {
    if |script| == 0 then [] else TickEvents(sensors, script[0]) + Ticks(sensors, script[1..])
  }

  /** `PiWeatherEngine::run` over a script of loop iterations. */
  function Run<S, R>(engine: PiWeatherEngine<S>, script: seq<Observation<R>>): (r: RunRecord<S, R>)
    ensures r.ticks <= |script|
    ensures r.status.Exited? ==> r.ticks < |script| && script[r.ticks].terminated
    ensures r.status.Aborted? ==> r.ticks > 0 && Sent(engine.sensors, script[r.ticks - 1]) == Failure(r.status.error)
    ensures r.status.Running? ==> r.ticks == |script|
    decreases |script|
  {
    if |script| == 0 then RunRecord(Running, 0, [])
    else if script[0].terminated then RunRecord(Exited, 0, [])
    else
      var events := TickEvents(engine.sensors, script[0]);
      match Sent(engine.sensors, script[0])
      case Failure(e) => RunRecord(Aborted(e), 1, events)
      case Success(_) =>
        var rest := Run(engine, script[1..]);
        RunRecord(rest.status, rest.ticks + 1, events + rest.trace)
  }

  /** The flag is checked, and found clear, before every tick that runs; every
      tick but the last sent its batch successfully, and the last one did too
      unless `run` failed with the transmitter's error. */
  lemma {:induction false} RunTicksOnlyWhileFlagClear<S, R>(engine: PiWeatherEngine<S>, script: seq<Observation<R>>)
    ensures var r := Run(engine, script);
      && (forall k :: 0 <= k < r.ticks ==> !script[k].terminated)
      && (forall k :: 0 <= k < r.ticks ==> Sent(engine.sensors, script[k]).Success? || (k == r.ticks - 1 && r.status.Aborted?))
    decreases |script|
  {
    if |script| > 0 && !script[0].terminated && Sent(engine.sensors, script[0]).Success? {
      RunTicksOnlyWhileFlagClear(engine, script[1..]);
      var r, rest := Run(engine, script), Run(engine, script[1..]);
      forall k | 1 <= k < r.ticks
        ensures !script[k].terminated
        ensures Sent(engine.sensors, script[k]).Success? || (k == r.ticks - 1 && r.status.Aborted?)
      {
        assert script[1..][k - 1] == script[k];
      }
    }
  }

  /** `run` returns `Ok(())` only by observing the flag and fails only through
      the transmitter: the status is exactly what the script dictates. */
  lemma {:induction false} RunStatusExact<S, R>(engine: PiWeatherEngine<S>, script: seq<Observation<R>>)
    ensures var r := Run(engine, script);
      && (r.status.Aborted? <==> r.ticks > 0 && Sent(engine.sensors, script[r.ticks - 1]).Failure?)
      && (r.status.Exited? <==> r.ticks < |script| && !r.status.Aborted?)
    decreases |script|
  {
    if |script| > 0 && !script[0].terminated && Sent(engine.sensors, script[0]).Success? {
      RunStatusExact(engine, script[1..]);
      var r, rest := Run(engine, script), Run(engine, script[1..]);
      if rest.ticks > 0 {
        assert script[r.ticks - 1] == script[1..][rest.ticks - 1];
      }
    }
  }

  /** Every event of `run` belongs to a complete tick: the trace is the ticks'
      events back to back, each a read of every sensor in order and one send. */
  lemma {:induction false} RunTraceIsTicks<S, R>(engine: PiWeatherEngine<S>, script: seq<Observation<R>>)
    ensures Run(engine, script).trace == Ticks(engine.sensors, script[..Run(engine, script).ticks])
    decreases |script|
  {
    var r := Run(engine, script);
    if |script| == 0 || script[0].terminated {
      assert script[..r.ticks] == [];
    } else if Sent(engine.sensors, script[0]).Failure? {
      assert script[..r.ticks] == [script[0]];
      assert Ticks(engine.sensors, [script[0]]) == TickEvents(engine.sensors, script[0]) + Ticks(engine.sensors, []);
    } else {
      var rest := Run(engine, script[1..]);
      RunTraceIsTicks(engine, script[1..]);
      assert script[..r.ticks][0] == script[0];
      assert script[..r.ticks][1..] == script[1..][..rest.ticks];
    }
  }

  /** If the flag is already set at the first check, nothing is read or sent and `run` returns `Ok(())`. */
  lemma FlagSetBeforeFirstTick<S, R>(engine: PiWeatherEngine<S>, script: seq<Observation<R>>)
    requires |script| > 0 && script[0].terminated
    ensures Run(engine, script) == RunRecord(Exited, 0, [])
  {
  }

  /** Once `run` has returned, later observations change nothing: after an
      exit or a transmitter error no sensor is read and nothing is sent. */
  lemma {:induction false} RunEndsForGood<S, R>(engine: PiWeatherEngine<S>, script: seq<Observation<R>>, more: seq<Observation<R>>)
    requires !Run(engine, script).status.Running?
    ensures Run(engine, script + more) == Run(engine, script)
    decreases |script|
  {
    assert |script| > 0;
    assert (script + more)[0] == script[0];
    if !script[0].terminated && Sent(engine.sensors, script[0]).Success? {
      assert (script + more)[1..] == script[1..] + more;
      RunEndsForGood(engine, script[1..], more);
    }
  }

  /** A run still going when the script ends saw no flag and had every send succeed. */
  lemma RunningMeansEveryTickSent<S, R>(engine: PiWeatherEngine<S>, script: seq<Observation<R>>)
    requires Run(engine, script).status.Running?
    ensures forall k :: 0 <= k < |script| ==> !script[k].terminated && Sent(engine.sensors, script[k]).Success?
  {
  }

  /** One iteration of the loop, when the flag is clear at its head. */
  lemma RunUnfold<S, R>(engine: PiWeatherEngine<S>, script: seq<Observation<R>>)
    requires |script| > 0 && !script[0].terminated
    ensures Sent(engine.sensors, script[0]).Failure? ==>
              Run(engine, script) == RunRecord(Aborted(Sent(engine.sensors, script[0]).error), 1, TickEvents(engine.sensors, script[0]))
    ensures Sent(engine.sensors, script[0]).Success? ==>
              var rest := Run(engine, script[1..]);
              Run(engine, script) == RunRecord(rest.status, rest.ticks + 1, TickEvents(engine.sensors, script[0]) + rest.trace)
  {
  }

  /** The loop invariant of `RunLoop`: after `k` ticks that produced `trace`,
      running the rest of the script finishes the whole run. */
  ghost predicate Resumes<S, R>(engine: PiWeatherEngine<S>, script: seq<Observation<R>>, k: nat, trace: seq<Event<S, R>>)
    requires k <= |script|
  {
    var rest := Run(engine, script[k..]);
    Run(engine, script) == RunRecord(rest.status, k + rest.ticks, trace + rest.trace)
  }

  /** A tick whose send succeeds keeps the loop invariant. */
  lemma ResumesAfterTick<S, R>(engine: PiWeatherEngine<S>, script: seq<Observation<R>>, k: nat, trace: seq<Event<S, R>>)
    requires k < |script| && !script[k].terminated && Sent(engine.sensors, script[k]).Success?
    requires Resumes(engine, script, k, trace)
    ensures Resumes(engine, script, k + 1, trace + TickEvents(engine.sensors, script[k]))
  {
    assert script[k..][0] == script[k] && script[k..][1..] == script[k + 1..];
    RunUnfold(engine, script[k..]);
    var events := TickEvents(engine.sensors, script[k]);
    assert trace + events + Run(engine, script[k + 1..]).trace == trace + (events + Run(engine, script[k + 1..]).trace);
  }

  /** A tick whose send fails ends the run with that error. */
  lemma AbortsAfterTick<S, R>(engine: PiWeatherEngine<S>, script: seq<Observation<R>>, k: nat, trace: seq<Event<S, R>>)
    requires k < |script| && !script[k].terminated && Sent(engine.sensors, script[k]).Failure?
    requires Resumes(engine, script, k, trace)
    ensures Run(engine, script)
            == RunRecord(Aborted(Sent(engine.sensors, script[k]).error), k + 1, trace + TickEvents(engine.sensors, script[k]))
  {
    assert script[k..][0] == script[k] && script[k..][1..] == script[k + 1..];
    RunUnfold(engine, script[k..]);
  }

  /** Leaving the loop: the run is over, by the flag or the end of the script. */
  lemma ResumesAtExit<S, R>(engine: PiWeatherEngine<S>, script: seq<Observation<R>>, k: nat, trace: seq<Event<S, R>>)
    requires k <= |script| && (k == |script| || script[k].terminated)
    requires Resumes(engine, script, k, trace)
    ensures Run(engine, script) == RunRecord(if k == |script| then Running else Exited, k, trace)
  {
    if k == |script| {
      assert script[k..] == [];
    } else {
      assert script[k..][0] == script[k];
    }
    assert trace + [] == trace;
  }

  /** One tick: poll every sensor, then hand the batch to the transmitter. */
  method Tick<S, R>(sensors: seq<S>, obs: Observation<R>) returns (events: seq<Event<S, R>>, sent: Result<(), PiWeatherError>)
    ensures events == TickEvents(sensors, obs)
    ensures sent == Sent(sensors, obs)
  {
    var batch, polled := PollSensors(sensors, obs.answers);
    events := polled + [Send(batch)];
    sent := obs.send(batch);
  }

  /** `run` as the loop of the source: check the flag, tick, stop on a send error, repeat. */
  method RunLoop<S, R>(engine: PiWeatherEngine<S>, script: seq<Observation<R>>) returns (r: RunRecord<S, R>)
    ensures r == Run(engine, script)
  {
    var k := 0;
    var trace: seq<Event<S, R>> := [];
    assert script[0..] == script;
    while k < |script| && !script[k].terminated
      invariant 0 <= k <= |script|
      invariant Resumes(engine, script, k, trace)
      decreases |script| - k
    {
      var events, sent := Tick(engine.sensors, script[k]);
      if sent.Failure? {
        AbortsAfterTick(engine, script, k, trace);
        return RunRecord(Aborted(sent.error), k + 1, trace + events);
      }
      ResumesAfterTick(engine, script, k, trace);
      trace := trace + events;
      k := k + 1;
    }
    ResumesAtExit(engine, script, k, trace);
    r := RunRecord(if k == |script| then Running else Exited, k, trace);
  }
}
