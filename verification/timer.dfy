/**
 * The countdown clock of the maze game. The source keeps the elapsed seconds
 * in a process-wide static float and the pool of time still to be added
 * "gradually" in an instance float; here both live in one immutable record and
 * every operation returns the next record. Floats are modelled as reals.
 */
module TimerSystem {

  /** Seconds on the clock when a game starts. */
  const StartValue: real := 300.0

  /** Seconds of gradual time drained per second of frame time, at most. */
  const DrainRate: real := 25.0

  /**
   * `elapsed` is the time passed in seconds (it grows as time runs out);
   * `pending` is the pool that `AddGradually` fills and `Tick` drains.
   */
  datatype Clock = Clock(elapsed: real, pending: real)

  /** What one frame's drain of the gradual pool yields: the seconds taken and the pool left. */
  datatype Drain = Drain(extra: real, pending: real)

  /** The clock after one frame, and whether that frame calls the game's loss handler. */
  datatype Step = Step(clock: Clock, lose: bool)

  function Min(a: real, b: real): (m: real)
    ensures m <= a && m <= b
    ensures m == a || m == b
  {
    if a <= b then a else b
  }

  /** Truncation toward zero, as Java's `(int)` cast of a finite value. */
  function Trunc(x: real): (n: int)
    ensures x >= 0.0 ==> 0 <= n && n as real <= x < n as real + 1.0
    ensures x < 0.0 ==> n <= 0 && n as real - 1.0 < x <= n as real
  {
    if x >= 0.0 then x.Floor else -((-x).Floor)
  }

  /** A freshly constructed timer: nothing elapsed, nothing pending. */
  function New(): (c: Clock)
    ensures c.elapsed == 0.0 && c.pending == 0.0
    ensures TimeLeft(c) == 300
  {
    Clock(0.0, 0.0)
  }

  /** `add`: elapsed time moves by exactly `amount`, either sign, without clamping. */
  function Add(c: Clock, amount: real): (r: Clock)
    ensures r.elapsed - c.elapsed == amount
    ensures r.pending == c.pending
  {
    c.(elapsed := c.elapsed + amount)
  }

  /** `addGradually`: only the pending pool grows; the visible clock is untouched. */
  function AddGradually(c: Clock, amount: real): (r: Clock)
    ensures r.pending - c.pending == amount
    ensures r.elapsed == c.elapsed
    ensures TimeLeft(r) == TimeLeft(c)
  {
    c.(pending := c.pending + amount)
  }

  /**
   * `getExtraTime`: a non-positive pool yields nothing and stays as it is;
   * otherwise the frame takes `min(pool, 25 * delta)` out of the pool.
   */
  function ExtraTime(pending: real, delta: real): (r: Drain)
    ensures r.extra + r.pending == pending
    ensures pending <= 0.0 ==> r.extra == 0.0 && r.pending == pending
    ensures pending > 0.0 ==> r.extra <= pending && r.extra <= DrainRate * delta
    ensures pending > 0.0 ==> r.extra == pending || r.extra == DrainRate * delta
    ensures pending > 0.0 && delta >= 0.0 ==> 0.0 <= r.extra && 0.0 <= r.pending
  {
    if pending <= 0.0 then Drain(0.0, pending)
    else
      var change := Min(pending, DrainRate * delta);
      Drain(change, pending - change)
  }

  /** `getTimeLeft`: whole seconds left, `300 - elapsed` truncated toward zero. */
  function TimeLeft(c: Clock): (t: int)
    ensures c.elapsed <= StartValue ==> 0 <= t && t as real <= StartValue - c.elapsed < t as real + 1.0
    ensures c.elapsed > StartValue ==> t <= 0 && t as real - 1.0 < StartValue - c.elapsed <= t as real
  {
    Trunc(StartValue - c.elapsed)
  }

  /**
   * `tick`, with the frame time passed in: elapsed time advances by the frame
   * time plus whatever the gradual pool yields, and the loss handler is called
   * whenever the time left is not positive afterwards.
   */
  function Tick(c: Clock, delta: real): (r: Step)
    ensures r.clock.elapsed + r.clock.pending == c.elapsed + c.pending + delta
    ensures c.pending <= 0.0 ==> r.clock.elapsed == c.elapsed + delta && r.clock.pending == c.pending
    ensures delta >= 0.0 ==> c.elapsed + delta <= r.clock.elapsed <= c.elapsed + delta + DrainRate * delta
    ensures delta >= 0.0 && c.pending >= 0.0 ==> 0.0 <= r.clock.pending <= c.pending
    ensures r.lose <==> TimeLeft(r.clock) <= 0
    ensures r.lose <==> r.clock.elapsed > StartValue - 1.0
  {
    var drain := ExtraTime(c.pending, delta);
    var next := Clock(c.elapsed + (delta + drain.extra), drain.pending);
    Step(next, TimeLeft(next) <= 0)
  }
}
