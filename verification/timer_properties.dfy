/**
 * Properties of single clock operations, and the concrete values the
 * repository's timer tests pin down.
 */
module TimerProperties {
  import opened TimerSystem
  import opened ClockDisplay
  import opened Decimal

  /** Two instantaneous additions are one addition of their sum, in either order. */
  lemma AddsCombine(c: Clock, a: real, b: real)
    ensures Add(Add(c, a), b) == Add(c, a + b)
    ensures Add(Add(c, a), b) == Add(Add(c, b), a)
  {
  }

  /** Adding 10, 20 and 30 to a fresh timer is adding 60, leaving 240 seconds. */
  lemma SequentialAdds()
    ensures Add(Add(Add(New(), 10.0), 20.0), 30.0) == Add(New(), 60.0)
    ensures TimeLeft(Add(New(), 60.0)) == 240
  {
  }

  /** A gradual addition of any size shows nowhere until a later tick. */
  lemma GradualAddIsDeferred(amount: real)
    ensures AddGradually(New(), amount).elapsed == 0.0
    ensures TimeLeft(AddGradually(New(), amount)) == 300
  {
  }

  /** Truncation agrees with floor on non-negative or whole values and is one above it otherwise. */
  lemma TruncVersusFloor(x: real)
    ensures x >= 0.0 || x == x.Floor as real ==> Trunc(x) == x.Floor
    ensures x < 0.0 && x != x.Floor as real ==> Trunc(x) == x.Floor + 1
  {
  }

  /**
   * The loss condition `getTimeLeft() <= 0` holds exactly once more than 299
   * seconds have elapsed: truncation reports 0 while under a second is left.
   */
  lemma LossThreshold(c: Clock)
    ensures TimeLeft(c) <= 0 <==> c.elapsed > StartValue - 1.0
  {
  }

  /** Time left never goes up as elapsed time grows. */
  lemma TimeLeftAntitone(c: Clock, d: Clock)
    requires c.elapsed <= d.elapsed
    ensures TimeLeft(d) <= TimeLeft(c)
  {
  }

  /** `getTimeLeft` at the elapsed times the tests use. */
  lemma TimeLeftExamples()
    ensures TimeLeft(New()) == 300
    ensures TimeLeft(Add(New(), 50.0)) == 250
    ensures TimeLeft(Add(Add(New(), 50.0), 100.0)) == 150
    ensures TimeLeft(Add(New(), 300.0)) == 0
    ensures TimeLeft(Add(New(), 350.0)) == -50
    ensures TimeLeft(Clock(350.7, 0.0)) == -50
  {
  }

  /** Ten seconds added to a new timer leave 290. */
  lemma TimeLeftAfterTen()
    ensures TimeLeft(Add(New(), 10.0)) == 290
  {
  }

  /** Floor division is the only split with a remainder in 0..59. */
  lemma MinsUnique(t: int, m: int)
    ensures 60 * m <= t < 60 * m + 60 <==> m == Mins(t)
  {
  }

  /** Negative time splits into a negative minute count and a positive remainder. */
  lemma NegativeSplit()
    ensures Mins(-50) == -1 && Secs(-50) == 10
    ensures Mins(-60) == -1 && Secs(-60) == 0
    ensures Mins(-61) == -2 && Secs(-61) == 59
  {
  }

  // The display texts the tests expect, one elapsed time each.

  lemma StartDisplay()
    ensures Display(New()) == "Time Left: 5:00"
  {
    assert TimeLeft(New()) == 300;
    RenderExample(300, 5, 0, "5", "00");
  }

  lemma DisplayAfterMinute()
    ensures Display(Add(New(), 60.0)) == "Time Left: 4:00"
  {
    assert TimeLeft(Add(New(), 60.0)) == 240;
    RenderExample(240, 4, 0, "4", "00");
  }

  lemma DisplayThreeTwenty()
    ensures Display(Clock(100.0, 0.0)) == "Time Left: 3:20"
  {
    assert TimeLeft(Clock(100.0, 0.0)) == 200;
    RenderExample(200, 3, 20, "3", "20");
  }

  lemma DisplayTwoThirtyFive()
    ensures Display(Clock(145.0, 0.0)) == "Time Left: 2:35"
  {
    assert TimeLeft(Clock(145.0, 0.0)) == 155;
    RenderExample(155, 2, 35, "2", "35");
  }

  lemma DisplayLeadingZero()
    ensures Display(Clock(294.0, 0.0)) == "Time Left: 0:06"
  {
    assert TimeLeft(Clock(294.0, 0.0)) == 6;
    RenderExample(6, 0, 6, "0", "06");
  }

  lemma DisplayNegative()
    ensures Display(Clock(350.0, 0.0)) == "Time Left: -1:10"
  {
    assert TimeLeft(Clock(350.0, 0.0)) == -50;
    RenderExample(-50, -1, 10, "-1", "10");
  }

  lemma RenderExample(t: int, m: int, sec: int, mins: string, secs: string)
    requires 60 * m + sec == t && 0 <= sec < 60
    requires IntToString(m) == mins
    requires [DigitChar(sec / 10), DigitChar(sec % 10)] == secs
    ensures Render(t) == Prefix + mins + ":" + secs
  {
    MinsUnique(t, m);
  }
}
