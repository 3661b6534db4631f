/** The speed-violation check of the tracking pipeline.

    For every confirmed track the camera loop passes one horizontal coordinate
    of the track's box to `CheckSpeed` (`left + right // 2`, from a
    left/top/right/bottom box unpacked as left/top/width/height, so not the box
    centre); the model takes `position` to be any real. The monitor remembers,
    per track id, the last sample it accepted; a later sample is compared with
    it as a first-order displacement-per-second estimate. The wall-clock read of
    the Python `check_speed` becomes the explicit parameter `now`, and
    positions and times are exact reals.
 */
module Violation {

  /** Track identifiers as handed out by the tracker. */
  type TrackId = string

  /** The last accepted observation of a track: where it was and when. */
  datatype Sample = Sample(position: real, time: real)

  /** The per-track memory: every id ever accepted maps to its last sample. */
  type Memory = map<TrackId, Sample>

  /** A speed strictly above this many position units per second is a violation. */
  const Threshold: real := 12.0

  /** What one call reports. `Verdict` is the pair the Python `check_speed`
      returns;
      `ZeroDivision` is the exception its division raises when the new time
      equals the stored one. */
  datatype Outcome = Verdict(violated: bool, speed: real) | ZeroDivision

  /** One call's report together with the memory it leaves behind. */
  datatype Step = Step(outcome: Outcome, memory: Memory)

  /** One observation of a track, as the pipeline feeds it in. */
  datatype Observation = Observation(id: TrackId, position: real, now: real)

  function Abs(x: real): (r: real)
    ensures r >= 0.0 && (r == x || r == -x)
  {
    if x < 0.0 then -x else x
  }

  /** The speed estimate: absolute displacement over elapsed time. The elapsed
      time is not required to be positive; a clock that ran backwards gives a
      speed that is not positive. */
  function Speed(position: real, prevPosition: real, now: real, prevTime: real): (r: real)
    requires now != prevTime
    ensures r * (now - prevTime) == Abs(position - prevPosition)
    ensures now > prevTime ==> r >= 0.0
    ensures now < prevTime ==> r <= 0.0
  {
    Abs(position - prevPosition) / (now - prevTime)
  }

  /** The specification of one call: the report and the new memory. */
  function Observe(memory: Memory, id: TrackId, position: real, now: real): (r: Step)
    ensures memory.Keys <= r.memory.Keys && id in r.memory
    ensures forall other :: other in memory && other != id ==> r.memory[other] == memory[other]
    ensures r.outcome.Verdict? && !r.outcome.violated ==> r.outcome.speed == 0.0
  {
    if id in memory && now == memory[id].time then
      Step(ZeroDivision, memory)
    else if id in memory && Speed(position, memory[id].position, now, memory[id].time) > Threshold then
      Step(Verdict(true, Speed(position, memory[id].position, now, memory[id].time)), memory)
    else
      Step(Verdict(false, 0.0), memory[id := Sample(position, now)])
  }

  /** The monitor; `memory` is the module-level dictionary `speed_memory`. */
  class SpeedMonitor {
    var memory: Memory

    constructor ()
      ensures memory == map[]
    {
      memory := map[];
    }

    method CheckSpeed(id: TrackId, position: real, now: real) returns (outcome: Outcome)
      modifies this
      ensures Step(outcome, memory) == Observe(old(memory), id, position, now)
      ensures outcome.ZeroDivision? || outcome.violated ==> memory == old(memory)
      ensures outcome.Verdict? && !outcome.violated ==> memory == old(memory)[id := Sample(position, now)]
    {
      if id in memory {
        var prev := memory[id];
        if now == prev.time {
          return ZeroDivision;
        }
        var speed := Speed(position, prev.position, now, prev.time);
        if speed > Threshold {
          return Verdict(true, speed);
        }
      }
      memory := memory[id := Sample(position, now)];
      return Verdict(false, 0.0);
    }
  }

  /** The first sighting of a track reports no violation and records the sample. */
  lemma FirstSighting(memory: Memory, id: TrackId, position: real, now: real)
    requires id !in memory
    ensures Observe(memory, id, position, now) == Step(Verdict(false, 0.0), memory[id := Sample(position, now)])
  {
  }

  /** The division fails exactly when the track is known and the new time equals
      the stored one; the memory is then untouched. */
  lemma ZeroDivisionExactly(memory: Memory, id: TrackId, position: real, now: real)
    ensures var r := Observe(memory, id, position, now);
      r.outcome.ZeroDivision? <==> id in memory && now == memory[id].time
    ensures Observe(memory, id, position, now).outcome.ZeroDivision? ==>
      Observe(memory, id, position, now).memory == memory
  {
  }

  /** A violation is reported iff the track is known and its speed since the
      stored sample is strictly above the threshold; the reported speed is that
      speed, and the stored sample is kept. */
  lemma ViolationExactly(memory: Memory, id: TrackId, position: real, now: real)
    ensures var r := Observe(memory, id, position, now);
      r.outcome.Verdict? && r.outcome.violated <==>
        id in memory && now != memory[id].time &&
        Speed(position, memory[id].position, now, memory[id].time) > Threshold
    ensures var r := Observe(memory, id, position, now);
      r.outcome.Verdict? && r.outcome.violated ==>
        r.outcome.speed == Speed(position, memory[id].position, now, memory[id].time) &&
        r.outcome.speed > Threshold &&
        r.memory == memory
  {
  }

  /** Every report without a violation carries speed 0 and overwrites the
      track's sample with the new one. */
  lemma NoViolationRecords(memory: Memory, id: TrackId, position: real, now: real)
    ensures var r := Observe(memory, id, position, now);
      r.outcome.Verdict? && !r.outcome.violated ==>
        r.outcome.speed == 0.0 && r.memory == memory[id := Sample(position, now)]
  {
  }

  /** A timestamp earlier than the stored one is not rejected: its speed is not
      positive, so no violation fires and the earlier sample replaces the stored one. */
  lemma ClockBackwards(memory: Memory, id: TrackId, position: real, now: real)
    requires id in memory && now < memory[id].time
    ensures Observe(memory, id, position, now) == Step(Verdict(false, 0.0), memory[id := Sample(position, now)])
  {
    assert Speed(position, memory[id].position, now, memory[id].time) <= 0.0;
  }

  /** There is no cooldown: after a violation the stored sample is unchanged, so
      the same observation again reports the same violation. */
  lemma ViolationRepeats(memory: Memory, id: TrackId, position: real, now: real)
    requires Observe(memory, id, position, now).outcome.Verdict? && Observe(memory, id, position, now).outcome.violated
    ensures Observe(Observe(memory, id, position, now).memory, id, position, now) == Observe(memory, id, position, now)
  {
  }

  /** The memory after feeding a sequence of observations in order. An
      observation that raises leaves the memory as it was. */
  function Replay(memory: Memory, obs: seq<Observation>): Memory
    decreases |obs|
  {
    if obs == [] then memory
    else Replay(Observe(memory, obs[0].id, obs[0].position, obs[0].now).memory, obs[1..])
  }

  /** Nothing is ever evicted: after any sequence of observations the memory
      holds exactly the ids it held before plus every id observed. */
  lemma {:induction false} ReplayKeys(memory: Memory, obs: seq<Observation>)
    ensures Replay(memory, obs).Keys == memory.Keys + set i | 0 <= i < |obs| :: obs[i].id
    decreases |obs|
  {
    if obs != [] {
      var next := Observe(memory, obs[0].id, obs[0].position, obs[0].now).memory;
      ReplayKeys(next, obs[1..]);
      var rest := set i | 0 <= i < |obs[1..]| :: obs[1..][i].id;
      var all := set i | 0 <= i < |obs| :: obs[i].id;
      assert next.Keys == memory.Keys + {obs[0].id};
      assert all == {obs[0].id} + rest by {
        forall x | x in all ensures x in {obs[0].id} + rest {
          var i :| 0 <= i < |obs| && obs[i].id == x;
          if i > 0 { assert obs[1..][i - 1].id == x; }
        }
        forall x | x in rest ensures x in all {
          var i :| 0 <= i < |obs[1..]| && obs[1..][i].id == x;
          assert obs[i + 1].id == x;
        }
      }
    }
  }

  /** The sample of a track that is not observed stays as it was. */
  lemma {:induction false} ReplayUntouched(memory: Memory, obs: seq<Observation>, id: TrackId)
    requires id in memory
    requires forall i :: 0 <= i < |obs| ==> obs[i].id != id
    ensures id in Replay(memory, obs) && Replay(memory, obs)[id] == memory[id]
    decreases |obs|
  {
    if obs != [] {
      var next := Observe(memory, obs[0].id, obs[0].position, obs[0].now).memory;
      assert obs[0].id != id;
      forall i | 0 <= i < |obs[1..]| ensures obs[1..][i].id != id {
        assert obs[1..][i] == obs[i + 1];
      }
      ReplayUntouched(next, obs[1..], id);
    }
  }

  /** Track 7 at 100 at t = 0, then at 220 at t = 0.5: 240 units per second, a
      violation, and the t = 0 sample is kept. At 230 at t = 1.0 the speed is
      therefore measured from t = 0 again (130 units per second) and a second
      violation is reported, since nothing suppresses it. */
  lemma RepeatedViolationScenario()
    ensures var s1 := Observe(map[], "7", 100.0, 0.0);
      var s2 := Observe(s1.memory, "7", 220.0, 0.5);
      var s3 := Observe(s2.memory, "7", 230.0, 1.0);
      s1.outcome == Verdict(false, 0.0) &&
      s2.outcome == Verdict(true, 240.0) && s2.memory == map["7" := Sample(100.0, 0.0)] &&
      s3.outcome == Verdict(true, 130.0)
  {
  }
}
