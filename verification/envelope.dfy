/**
 * The attack/decay envelope of a `button` variable: a linear ramp from `min` up to
 * `max` over the attack time, then back down to `min` over the decay time.
 *
 * The host clock and frame scheduling are not modelled: each animation frame is
 * given as the whole number of milliseconds elapsed since the trigger, and a run is
 * driven by the sequence of those frame times.
 */
module Envelope {
  import opened Options
  import opened Variables

  /** A sweep with its times converted from the declared seconds to milliseconds. */
  datatype Sweep = Sweep(min: real, max: real, attackMs: real, decayMs: real)

  /** The value written at one frame, and whether the run stops after it. */
  datatype Tick = Tick(value: real, done: bool)

  /** The sweep captured when a variable is triggered. */
  function SweepOf(v: Variable): Sweep {
    Sweep(v.min, v.max, v.attack * 1000.0, v.decay * 1000.0)
  }

  /**
   * One frame of `animate`: during attack the value climbs linearly from `min`, during
   * decay it falls linearly from `max`, and afterwards it is pinned at `min` and the run stops.
   */
  function Advance(e: Sweep, elapsed: nat): (t: Tick)
    ensures t.done <==> elapsed as real >= e.attackMs && elapsed as real >= e.attackMs + e.decayMs
    ensures t.done ==> t.value == e.min
  {
    var x := elapsed as real;
    if x < e.attackMs then
      Tick(e.min + (e.max - e.min) * (x / e.attackMs), false)
    else if x < e.attackMs + e.decayMs then
      Tick(e.max - (e.max - e.min) * ((x - e.attackMs) / e.decayMs), false)
    else
      Tick(e.min, true)
  }

  /** The sweep of a variable with positive times ends exactly when its attack plus decay seconds have passed. */
  lemma SweepEndsAfterDeclaredTime(v: Variable, elapsed: nat)
    requires v.attack > 0.0 && v.decay > 0.0
    ensures Advance(SweepOf(v), elapsed).done <==> elapsed as real >= 1000.0 * (v.attack + v.decay)
  {
  }

  /** At the trigger instant the value is `min`. */
  lemma SweepStartsAtMin(e: Sweep)
    requires e.attackMs > 0.0
    ensures Advance(e, 0) == Tick(e.min, false)
  {
  }

  /** When the decay phase begins the value is `max`. */
  lemma DecayStartsAtMax(e: Sweep, elapsed: nat)
    requires elapsed as real == e.attackMs && e.decayMs > 0.0
    ensures Advance(e, elapsed) == Tick(e.max, false)
  {
  }

  lemma UnitFraction(x: real, a: real)
    requires 0.0 <= x < a
    ensures 0.0 <= x / a < 1.0
  {
    var t := x / a;
    assert t * a == x;
  }

  lemma ScaledFractionInRange(d: real, t: real)
    requires d >= 0.0 && 0.0 <= t <= 1.0
    ensures 0.0 <= d * t <= d
  {
    assert d * (1.0 - t) >= 0.0;
  }

  lemma ScaledFractionMonotone(d: real, t1: real, t2: real)
    requires t1 <= t2
    ensures d >= 0.0 ==> d * t1 <= d * t2
    ensures d > 0.0 && t1 < t2 ==> d * t1 < d * t2
  {
    assert d * t2 - d * t1 == d * (t2 - t1);
  }

  /** With `min <= max`, every frame's value lies between `min` and `max`. */
  lemma SweepStaysInRange(e: Sweep, elapsed: nat)
    requires e.min <= e.max
    ensures e.min <= Advance(e, elapsed).value <= e.max
  {
    var x := elapsed as real;
    var d := e.max - e.min;
    if x < e.attackMs {
      var t := x / e.attackMs;
      UnitFraction(x, e.attackMs);
      ScaledFractionInRange(d, t);
      assert Advance(e, elapsed).value == e.min + d * t;
    } else if x < e.attackMs + e.decayMs {
      var u := (x - e.attackMs) / e.decayMs;
      UnitFraction(x - e.attackMs, e.decayMs);
      ScaledFractionInRange(d, u);
      assert Advance(e, elapsed).value == e.max - d * u;
    }
  }

  /** The value never falls during the attack phase, and rises strictly when `min < max`. */
  lemma AttackRises(e: Sweep, t1: nat, t2: nat)
    requires t1 <= t2 && (t2 as real) < e.attackMs && e.min <= e.max
    ensures Advance(e, t1).value <= Advance(e, t2).value
    ensures e.min < e.max && t1 < t2 ==> Advance(e, t1).value < Advance(e, t2).value
  {
    var a := e.attackMs;
    assert (t1 as real) / a <= (t2 as real) / a;
    assert t1 < t2 ==> (t1 as real) / a < (t2 as real) / a;
    ScaledFractionMonotone(e.max - e.min, (t1 as real) / a, (t2 as real) / a);
  }

  /** The value never rises during the decay phase, and falls strictly when `min < max`. */
  lemma DecayFalls(e: Sweep, t1: nat, t2: nat)
    requires e.attackMs <= t1 as real && t1 <= t2 && (t2 as real) < e.attackMs + e.decayMs
    requires e.min <= e.max
    ensures Advance(e, t1).value >= Advance(e, t2).value
    ensures e.min < e.max && t1 < t2 ==> Advance(e, t1).value > Advance(e, t2).value
  {
    var a, d := e.attackMs, e.decayMs;
    var u1, u2 := (t1 as real - a) / d, (t2 as real - a) / d;
    assert u1 <= u2;
    assert t1 < t2 ==> u1 < u2;
    ScaledFractionMonotone(e.max - e.min, u1, u2);
  }

  /** The trigger with `min=5, max=30, attack=0.1, decay=0.8`: 17.5 mid-attack and mid-decay, 5 once over. */
  lemma StrokeTriggerExample()
    ensures Advance(Sweep(5.0, 30.0, 100.0, 800.0), 50) == Tick(17.5, false)
    ensures Advance(Sweep(5.0, 30.0, 100.0, 800.0), 500) == Tick(17.5, false)
    ensures Advance(Sweep(5.0, 30.0, 100.0, 800.0), 1000) == Tick(5.0, true)
  {
  }

  /**
   * `triggerAttackDecay` on the variable at `k`, driven by the elapsed times of the frames
   * the host grants. Each frame writes the variable's current value and renders once;
   * frames are taken until the first one at or past the end of the sweep, which pins the
   * value at `min` and schedules nothing more. Nothing else in the live state changes.
   */
  method RunTrigger(state: seq<Variable>, k: nat, frames: seq<nat>)
    returns (rendered: seq<real>, finished: bool, after: seq<Variable>)
    requires k < |state|
    ensures |rendered| <= |frames|
    ensures forall i :: 0 <= i < |rendered| ==> rendered[i] == Advance(SweepOf(state[k]), frames[i]).value
    ensures forall i :: 0 <= i < |rendered| - 1 ==> !Advance(SweepOf(state[k]), frames[i]).done
    ensures finished <==> 0 < |rendered| && Advance(SweepOf(state[k]), frames[|rendered| - 1]).done
    ensures !finished ==> |rendered| == |frames|
    ensures (exists i :: 0 <= i < |frames| && Advance(SweepOf(state[k]), frames[i]).done) ==> finished
    ensures |after| == |state| && after[k].(currentValue := state[k].currentValue) == state[k]
    ensures finished ==> after[k].currentValue == Some(state[k].min)
    ensures forall j :: 0 <= j < |state| && j != k ==> after[j] == state[j]
    ensures 0 < |rendered| ==> after[k].currentValue == Some(rendered[|rendered| - 1])
  {
    var e := SweepOf(state[k]);
    rendered, finished, after := [], false, state;
    var n := 0;
    while n < |frames| && !finished
      invariant n <= |frames| && |rendered| == n
      invariant forall i :: 0 <= i < n ==> rendered[i] == Advance(e, frames[i]).value
      invariant finished <==> 0 < n && Advance(e, frames[n - 1]).done
      invariant forall i :: 0 <= i < n - 1 ==> !Advance(e, frames[i]).done
      invariant |after| == |state| && after[k].(currentValue := state[k].currentValue) == state[k]
      invariant forall j :: 0 <= j < |state| && j != k ==> after[j] == state[j]
      invariant 0 < n ==> after[k].currentValue == Some(rendered[n - 1])
    {
      var t := Advance(e, frames[n]);
      after := after[k := after[k].(currentValue := Some(t.value))];
      rendered := rendered + [t.value];
      finished := t.done;
      n := n + 1;
    }
  }
}
