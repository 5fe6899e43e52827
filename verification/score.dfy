/**
 * The end-of-game score as the repository's tests state it:
 * `getTimeLeft() * 1000 + longboiBonus`, where the bonus is either absent (0)
 * or the fixed Longboi award. Only this formula is modelled.
 */
module Score {
  import opened TimerSystem

  const LongboiBonusAmount: int := 201823

  /** The two legal bonus values. */
  datatype Bonus = NoBonus | Longboi {
    function Value(): (v: int)
      ensures v == 0 || v == LongboiBonusAmount
    {
      if Longboi? then LongboiBonusAmount else 0
    }
  }

  datatype Parts = Parts(timeLeft: int, bonus: Bonus)

  /**
   * Score for a clock and a bonus. A thousand points per whole second left,
   * so the last three digits carry only the bonus and the score can be taken
   * apart again.
   */
  function Score(c: Clock, b: Bonus): (s: int)
    ensures Decompose(s) == Parts(TimeLeft(c), b)
    ensures b == NoBonus <==> s % 1000 == 0
  {
    var t := TimeLeft(c);
    ScoreSplits(t, b);
    t * 1000 + b.Value()
  }

  /** Recovers the time left and the bonus from a score. */
  function Decompose(s: int): (p: Parts)
    ensures p.timeLeft * 1000 + p.bonus.Value() == s <==> s % 1000 == 0 || s % 1000 == LongboiBonusAmount % 1000
  {
    if s % 1000 == LongboiBonusAmount % 1000 then Parts((s - LongboiBonusAmount) / 1000, Longboi)
    else Parts(s / 1000, NoBonus)
  }

  lemma ScoreSplits(t: int, b: Bonus)
    ensures Decompose(t * 1000 + b.Value()) == Parts(t, b)
    ensures (t * 1000 + b.Value()) % 1000 == b.Value() % 1000
  {
    var s := t * 1000 + b.Value();
    if b == Longboi {
      assert s == (t + 201) * 1000 + 823;
      assert s % 1000 == 823;
      assert (s - LongboiBonusAmount) / 1000 == t;
    } else {
      assert s % 1000 == 0;
      assert s / 1000 == t;
    }
  }

  /** Same bonus, more time elapsed: never a higher score. */
  lemma ScoreAntitone(c: Clock, d: Clock, b: Bonus)
    requires c.elapsed <= d.elapsed
    ensures Score(d, b) <= Score(c, b)
  {
  }

  /** With no time added back, the score never exceeds a full clock plus the bonus. */
  lemma ScoreCeiling(c: Clock, b: Bonus)
    requires c.elapsed >= 0.0
    ensures Score(c, b) <= 300 * 1000 + LongboiBonusAmount
  {
  }

  /** The values the score tests expect with a few seconds left. */
  lemma ScoreExamples()
    ensures Score(Clock(295.0, 0.0), NoBonus) == 5000
    ensures Score(Clock(299.0, 0.0), Longboi) == 202823
  {
    assert TimeLeft(Clock(295.0, 0.0)) == 5;
    assert TimeLeft(Clock(299.0, 0.0)) == 1;
  }

  /**
   * The score once the time has run out: 0 at exactly 300 seconds elapsed, and
   * negative past it, since the formula has no floor.
   */
  lemma ScoreAtAndPastExpiry()
    ensures Score(Clock(300.0, 0.0), NoBonus) == 0
    ensures Score(Clock(350.0, 0.0), NoBonus) == -50000
  {
    assert TimeLeft(Clock(300.0, 0.0)) == 0;
    assert TimeLeft(Clock(350.0, 0.0)) == -50;
  }
}
