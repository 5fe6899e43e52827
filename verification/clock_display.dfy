/**
 * The `M:SS` rendering of the time left: minutes by floor division, seconds as
 * the non-negative remainder, always shown as two digits. A parser for the
 * rendered text shows that the rendering loses nothing.
 */
module ClockDisplay {
  import opened Wrappers
  import opened Decimal
  import opened TimerSystem

  const Prefix: string := "Time Left: "

  /** `getMins`: `Math.floorDiv(seconds, 60)`, the largest m with 60 * m <= seconds. */
  function Mins(seconds: int): (m: int)
    ensures 60 * m <= seconds < 60 * m + 60
  {
    // Dafny's `/` is Euclidean, which coincides with floor division for a positive divisor.
    seconds / 60
  }

  /** `getSecs`: what is left after taking the minutes out; never negative. */
  function Secs(timeLeft: int): (s: int)
    ensures 0 <= s < 60
    ensures 60 * Mins(timeLeft) + s == timeLeft
  {
    timeLeft - Mins(timeLeft) * 60
  }

  /** `getMinsDisplay`: the minutes in decimal, with a '-' sign when negative. */
  function MinsDisplay(seconds: int): (s: string)
    ensures ParseInt(s) == Some(Mins(seconds))
    ensures s[0] == '-' <==> Mins(seconds) < 0
    ensures Mins(seconds) < 0 ==> s[1] != '0'
    ensures Mins(seconds) >= 0 && |s| > 1 ==> s[0] != '0'
  {
    ParseIntToString(Mins(seconds));
    IntToString(Mins(seconds))
  }

  /** `getSecsDisplay`: the seconds as exactly two digits, zero-padded below ten. */
  function SecsDisplay(timeLeft: int): (s: string)
    ensures |s| == 2 && AllDigits(s)
    ensures s[0] == DigitChar(Secs(timeLeft) / 10) && s[1] == DigitChar(Secs(timeLeft) % 10)
    ensures ParseNat(s) == Some(Secs(timeLeft))
  {
    var secsValue := Secs(timeLeft);
    ParseNatToString(secsValue);
    if secsValue < 10 then "0" + IntToString(secsValue) else IntToString(secsValue)
  }

  /** The text for a given number of seconds left. */
  function Render(timeLeft: int): (s: string)
    ensures |Prefix| + 4 <= |s|
    ensures s[..|Prefix|] == Prefix
    ensures s[|s| - 3] == ':'
  {
    Prefix + MinsDisplay(timeLeft) + ":" + SecsDisplay(timeLeft)
  }

  /** `getClockDisplay`: the text shown for the clock's time left. */
  function Display(c: Clock): (s: string)
    ensures ParseDisplay(s) == Some(TimeLeft(c))
  {
    RenderRoundTrip(TimeLeft(c));
    Render(TimeLeft(c))
  }

  /**
   * Reads back the seconds left from a display text: the prefix, a signed
   * minute count, ':' and two digits of seconds below sixty.
   */
  function ParseDisplay(s: string): (r: Option<int>)
    ensures r.Some? ==> |Prefix| + 4 <= |s| && s[..|Prefix|] == Prefix && s[|s| - 3] == ':'
    ensures r.Some? ==> AllDigits(s[|s| - 2..])
  {
    if |s| < |Prefix| + 4 || s[..|Prefix|] != Prefix || s[|s| - 3] != ':' then None
    else
      var mins := ParseInt(s[|Prefix|..|s| - 3]);
      var secs := ParseNat(s[|s| - 2..]);
      if mins.None? || secs.None? || secs.value >= 60 then None
      else Some(60 * mins.value + secs.value)
  }

  /** Every rendering reads back as the number of seconds it was made from. */
  lemma RenderRoundTrip(timeLeft: int)
    ensures ParseDisplay(Render(timeLeft)) == Some(timeLeft)
  {
    var s := Render(timeLeft);
    var m := MinsDisplay(timeLeft);
    var sec := SecsDisplay(timeLeft);
    assert s == Prefix + m + ":" + sec;
    assert s[|Prefix|..|s| - 3] == m;
    assert s[|s| - 2..] == sec;
  }

  /** Two clocks show the same text exactly when they have the same whole seconds left. */
  lemma DisplayDeterminesTimeLeft(c: Clock, d: Clock)
    ensures Display(c) == Display(d) <==> TimeLeft(c) == TimeLeft(d)
  {
  }
}
