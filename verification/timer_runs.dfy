/**
 * Sequences of frames: the clock after calling `tick` once per frame time in
 * `deltas`, and the loss signal each of those calls raises.
 */
module TimerRuns {
  import opened TimerSystem

  datatype Run = Run(clock: Clock, signals: seq<bool>)

  function Sum(xs: seq<real>): real
  {
    if |xs| == 0 then 0.0 else xs[0] + Sum(xs[1..])
  }

  function Max(a: real, b: real): real
  {
    if a >= b then a else b
  }

  predicate NonNegative(xs: seq<real>)
  {
    forall i :: 0 <= i < |xs| ==> xs[i] >= 0.0
  }

  /** One `tick` per frame time, in order; one loss signal per frame. */
  function Frames(c: Clock, deltas: seq<real>): (r: Run)
    ensures |r.signals| == |deltas|
    decreases |deltas|
  {
    if |deltas| == 0 then Run(c, [])
    else
      var step := Tick(c, deltas[0]);
      var rest := Frames(step.clock, deltas[1..]);
      Run(rest.clock, [step.lose] + rest.signals)
  }

  /** No time is created or lost: the pool and the elapsed time together grow by the total frame time. */
  lemma {:induction false} FramesConserveTime(c: Clock, deltas: seq<real>)
    ensures Frames(c, deltas).clock.elapsed + Frames(c, deltas).clock.pending
            == c.elapsed + c.pending + Sum(deltas)
    decreases |deltas|
  {
    if |deltas| > 0 {
      FramesConserveTime(Tick(c, deltas[0]).clock, deltas[1..]);
    }
  }

  /**
   * A non-negative pool drains at 25 seconds per second of frame time until
   * empty: what is left is exactly `max(0, pending - 25 * total frame time)`.
   */
  lemma {:induction false} FramesDrainPool(c: Clock, deltas: seq<real>)
    requires c.pending >= 0.0 && NonNegative(deltas)
    ensures Frames(c, deltas).clock.pending == Max(0.0, c.pending - DrainRate * Sum(deltas))
    decreases |deltas|
  {
    if |deltas| > 0 {
      var next := Tick(c, deltas[0]).clock;
      assert next.pending == Max(0.0, c.pending - DrainRate * deltas[0]);
      FramesDrainPool(next, deltas[1..]);
      SumNonNegative(deltas[1..]);
    }
  }

  lemma {:induction false} SumNonNegative(xs: seq<real>)
    requires NonNegative(xs)
    ensures Sum(xs) >= 0.0
    decreases |xs|
  {
    if |xs| > 0 {
      SumNonNegative(xs[1..]);
    }
  }

  /**
   * A gradual addition ends up exactly like an instantaneous one once the
   * frames have had time to drain it: from a non-negative pool p,
   * `addGradually(x)` followed by frames lasting at least (p + x) / 25 seconds
   * leaves the same clock as `add(x)` followed by the same frames.
   */
  lemma GradualMatchesInstant(c: Clock, amount: real, deltas: seq<real>)
    requires c.pending >= 0.0 && amount >= 0.0 && NonNegative(deltas)
    requires DrainRate * Sum(deltas) >= c.pending + amount
    ensures Frames(AddGradually(c, amount), deltas).clock == Frames(Add(c, amount), deltas).clock
  {
    FramesDrainPool(AddGradually(c, amount), deltas);
    FramesDrainPool(Add(c, amount), deltas);
    FramesConserveTime(AddGradually(c, amount), deltas);
    FramesConserveTime(Add(c, amount), deltas);
    SumNonNegative(deltas);
  }

  /** Elapsed time never runs backwards over frames of non-negative length. */
  lemma {:induction false} FramesElapsedGrows(c: Clock, deltas: seq<real>)
    requires NonNegative(deltas)
    ensures c.elapsed <= Frames(c, deltas).clock.elapsed
    decreases |deltas|
  {
    if |deltas| > 0 {
      FramesElapsedGrows(Tick(c, deltas[0]).clock, deltas[1..]);
    }
  }

  /** Once past 299 elapsed seconds, every later frame calls the loss handler again. */
  lemma {:induction false} LostClockKeepsSignalling(c: Clock, deltas: seq<real>)
    requires c.elapsed > StartValue - 1.0 && NonNegative(deltas)
    ensures forall k :: 0 <= k < |deltas| ==> Frames(c, deltas).signals[k]
    decreases |deltas|
  {
    if |deltas| > 0 {
      var step := Tick(c, deltas[0]);
      assert step.lose;
      LostClockKeepsSignalling(step.clock, deltas[1..]);
    }
  }

  /**
   * The loss signal is level-triggered: there is no "already lost" guard, so
   * after the first frame that signals, every later frame signals too.
   */
  lemma {:induction false} LossSignalPersists(c: Clock, deltas: seq<real>, i: nat, j: nat)
    requires NonNegative(deltas)
    requires i <= j < |deltas|
    requires Frames(c, deltas).signals[i]
    ensures Frames(c, deltas).signals[j]
    decreases |deltas|
  {
    var step := Tick(c, deltas[0]);
    var rest := Frames(step.clock, deltas[1..]);
    if i == 0 {
      assert step.lose;
      if j > 0 {
        LostClockKeepsSignalling(step.clock, deltas[1..]);
        assert rest.signals[j - 1];
      }
    } else {
      assert rest.signals[i - 1];
      LossSignalPersists(step.clock, deltas[1..], i - 1, j - 1);
    }
  }
}
