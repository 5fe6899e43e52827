# Maze game countdown clock

A Dafny model of the maze game's `TimerSystem`. This is the countdown clock that gives the player five minutes to escape. The model covers these operations:

- `add`: instant bonus or penalty time.
- `addGradually`: adds to a pool of pending time, which each frame drains at no more than 25 seconds per second of frame time.
- `tick`: the per-frame update, which calls the game's loss handler when no whole second is left.
- `getTimeLeft`: the remaining seconds, truncated toward zero.
- `getClockDisplay`: the `Time Left: M:SS` text.

It also covers the score formula `getTimeLeft() * 1000 + bonus` that the game's tests assert.

The source keeps elapsed time in a static float and the gradual pool in an instance float. The model keeps both in one immutable record, `TimerSystem.Clock(elapsed, pending)`, and every operation returns the next record. `tick` takes the frame time as a parameter. Instead of calling `Main.LoseGame()`, it returns a flag that says whether it would have done so.

Modules:

- `Wrappers`: `Option`.
- `Decimal`: Java's `Integer.toString` and a parser that inverts it.
- `TimerSystem`: the clock state and its operations.
- `ClockDisplay`: minutes and seconds, and the display text with its parser.
- `TimerProperties`: properties of single operations, plus the values the tests pin.
- `TimerRuns`: sequences of frames, with conservation, draining and the loss signal.
- `Score`: the score formula.

Behaviour of the code worth knowing:

- The loss signal is level-triggered. `tick` calls the loss handler on every frame whose time left is `<= 0`. Nothing in `TimerSystem` guards against a game that has already been lost (`TimerRuns.LossSignalPersists`).
- Nothing keeps the pending pool non-negative. `addGradually` accepts any amount, and `getExtraTime` leaves a pool of zero or less untouched. The bounds on draining are therefore stated under the condition that the pool is non-negative.
- The loss condition holds once more than 299 seconds have elapsed, not 300. Truncation reports 0 while less than one second is left (`TimerProperties.LossThreshold`).
- When less than zero time is left, the display shows floor-division minutes and a remainder in 0..59. For example, -50 seconds is shown as `Time Left: -1:10` (`TimerProperties.DisplayNegative`).
- A comment in `GameInvarianceTest.java` says the score is never negative. The formula those same tests assert gives -50000 at 350 seconds elapsed (`Score.ScoreAtAndPastExpiry`). `Main` is not part of this model, so no corrected score is proposed.

## Model

| member | source | states |
|---|---|---|
| TimerSystem.New | maze-game_diff_name_test/core/src/main/java/io/github/eng1group9/systems/TimerSystem.java:13-19 | a new timer has nothing elapsed and nothing pending, and reports 300 seconds left |
| TimerSystem.Add | maze-game_diff_name_test/core/src/main/java/io/github/eng1group9/systems/TimerSystem.java:21-23 | elapsed time moves by exactly the amount, with any sign and no clamping; the pending pool is untouched |
| TimerSystem.AddGradually | maze-game_diff_name_test/core/src/main/java/io/github/eng1group9/systems/TimerSystem.java:25-31 | only the pending pool grows, by exactly the amount; elapsed time and time left are unchanged |
| TimerSystem.ExtraTime | maze-game_diff_name_test/core/src/main/java/io/github/eng1group9/systems/TimerSystem.java:44-53 | a pool of zero or less yields 0 and stays as it is; otherwise the frame takes the smaller of the pool and 25*delta; what is taken plus what is left equals the old pool; with delta >= 0 a positive pool never goes negative |
| TimerSystem.Tick | maze-game_diff_name_test/core/src/main/java/io/github/eng1group9/systems/TimerSystem.java:33-42 | elapsed plus pending grows by exactly delta; for delta >= 0 elapsed grows by between delta and 26*delta; a non-negative pool stays non-negative and never grows; the loss flag is set iff time left after the update is <= 0, that is iff more than 299 seconds have elapsed |
| TimerSystem.Trunc | maze-game_diff_name_test/core/src/main/java/io/github/eng1group9/systems/TimerSystem.java:58-60 | the int cast rounds toward zero: the result never has a larger magnitude than the input and lies within one of it, on the same side of zero |
| TimerSystem.TimeLeft | maze-game_diff_name_test/core/src/main/java/io/github/eng1group9/systems/TimerSystem.java:55-60 | while elapsed <= 300, time left is the whole seconds of 300 - elapsed, rounded down; past 300 it is the negative value rounded up toward zero |
| ClockDisplay.Mins | maze-game_diff_name_test/core/src/main/java/io/github/eng1group9/systems/TimerSystem.java:74-76 | floorDiv by 60: the unique m with 60*m <= t < 60*m + 60, including for negative t |
| ClockDisplay.Secs | maze-game_diff_name_test/core/src/main/java/io/github/eng1group9/systems/TimerSystem.java:84-86 | seconds lie in 0..59, and 60*minutes + seconds == t |
| ClockDisplay.MinsDisplay | maze-game_diff_name_test/core/src/main/java/io/github/eng1group9/systems/TimerSystem.java:70-72 | the minutes text reads back as the minute count; it starts with '-' iff the count is negative, and its digits have no leading zero |
| ClockDisplay.SecsDisplay | maze-game_diff_name_test/core/src/main/java/io/github/eng1group9/systems/TimerSystem.java:78-82 | the seconds text is always exactly two digits, tens then units, zero-padded under ten, and reads back as the seconds value |
| ClockDisplay.Render | maze-game_diff_name_test/core/src/main/java/io/github/eng1group9/systems/TimerSystem.java:62-68 | the text starts with "Time Left: " and has ':' third from the end |
| ClockDisplay.Display | maze-game_diff_name_test/core/src/main/java/io/github/eng1group9/systems/TimerSystem.java:62-68 | the display text parses back to the clock's time left |
| ClockDisplay.RenderRoundTrip | maze-game_diff_name_test/core/src/main/java/io/github/eng1group9/systems/TimerSystem.java:62-86 | for every integer number of seconds, parsing the rendered text gives that number back |
| ClockDisplay.DisplayDeterminesTimeLeft | maze-game_diff_name_test/core/src/main/java/io/github/eng1group9/systems/TimerSystem.java:62-68 | two clocks show the same text iff they have the same whole seconds left |
| Decimal.NatToString | maze-game_diff_name_test/core/src/main/java/io/github/eng1group9/systems/TimerSystem.java:70-72 | Integer.toString of a non-negative value: non-empty digits with no leading zero; one digit below 10, two digits from 10 to 99 |
| Decimal.IntToString | maze-game_diff_name_test/core/src/main/java/io/github/eng1group9/systems/TimerSystem.java:70-72 | a leading '-' appears iff the value is negative, followed by digits with no leading zero, so "-0" and "05" never appear |
| Decimal.ParseNatToString | maze-game_diff_name_test/core/src/main/java/io/github/eng1group9/systems/TimerSystem.java:78-82 | parsing the digits of n gives n back |
| Decimal.ParseIntToString | maze-game_diff_name_test/core/src/main/java/io/github/eng1group9/systems/TimerSystem.java:70-72 | parsing the text of any integer gives that integer back |
| Decimal.IntToStringInjective | maze-game_diff_name_test/core/src/main/java/io/github/eng1group9/systems/TimerSystem.java:70-72 | distinct integers render differently |
| TimerProperties.AddsCombine | maze-game_diff_name_test/core/src/main/java/io/github/eng1group9/systems/TimerSystem.java:21-23 | two additions equal one addition of their sum, in either order |
| TimerProperties.SequentialAdds | maze_game_A2-maze-game-timer-tests/core/src/test/java/io/github/eng1group9/systems/TimerSystemTest.java:136-146 | adding 10, 20 and 30 equals adding 60, which leaves 240 seconds |
| TimerProperties.GradualAddIsDeferred | maze_game_A2-maze-game-timer-tests/core/src/test/java/io/github/eng1group9/systems/TimerSystemTest.java:49-53 | after addGradually on a new timer, elapsed is still 0 and 300 seconds are left |
| TimerProperties.TruncVersusFloor | maze-game_diff_name_test/core/src/main/java/io/github/eng1group9/systems/TimerSystem.java:58-60 | truncation equals floor for non-negative or whole values, and is floor + 1 for negative fractions |
| TimerProperties.LossThreshold | maze-game_diff_name_test/core/src/main/java/io/github/eng1group9/systems/TimerSystem.java:39-41 | time left is <= 0 exactly when more than 299 seconds have elapsed |
| TimerProperties.TimeLeftAntitone | maze-game_diff_name_test/core/src/main/java/io/github/eng1group9/systems/TimerSystem.java:58-60 | more elapsed time never gives more time left |
| TimerProperties.TimeLeftExamples | maze_game_A2-maze-game-timer-tests/core/src/test/java/io/github/eng1group9/systems/TimerSystemTest.java:60-94 | 300 at the start, 250 and 150 after the tests' additions, 0 at 300 elapsed and -50 at 350 elapsed; also -50 at 350.7 elapsed, a truncation case no test uses |
| TimerProperties.TimeLeftAfterTen | core/src/test/java/io/github/eng1group9/systems/TimerSystemTest.java:27-35 | adding 10 seconds to a new timer leaves 290 |
| TimerProperties.MinsUnique | maze-game_diff_name_test/core/src/main/java/io/github/eng1group9/systems/TimerSystem.java:74-76 | m satisfies 60*m <= t < 60*m + 60 iff m is the floorDiv result |
| TimerProperties.NegativeSplit | maze-game_diff_name_test/core/src/main/java/io/github/eng1group9/systems/TimerSystem.java:74-86 | -50 splits into -1 and 10, -60 into -1 and 0, and -61 into -2 and 59 |
| TimerProperties.StartDisplay | core/src/test/java/io/github/eng1group9/systems/TimerSystemTest.java:17-25 | a new timer displays "Time Left: 5:00" |
| TimerProperties.DisplayAfterMinute | maze_game_A2-maze-game-timer-tests/core/src/test/java/io/github/eng1group9/systems/TimerSystemTest.java:104-110 | 60 seconds elapsed displays "Time Left: 4:00" |
| TimerProperties.DisplayThreeTwenty | core/src/test/java/io/github/eng1group9/systems/TimerSystemTest.java:61-69 | 100 seconds elapsed displays "Time Left: 3:20" |
| TimerProperties.DisplayTwoThirtyFive | maze_game_A2-maze-game-timer-tests/core/src/test/java/io/github/eng1group9/systems/TimerSystemTest.java:112-115 | 145 seconds elapsed displays "Time Left: 2:35" |
| TimerProperties.DisplayLeadingZero | maze_game_A2-maze-game-timer-tests/core/src/test/java/io/github/eng1group9/systems/TimerSystemTest.java:118-128 | 294 seconds elapsed displays "Time Left: 0:06", keeping the leading zero |
| TimerProperties.DisplayNegative | maze-game_diff_name_test/core/src/main/java/io/github/eng1group9/systems/TimerSystem.java:62-86 | 350 seconds elapsed displays "Time Left: -1:10" |
| TimerRuns.Frames | maze-game_diff_name_test/core/src/main/java/io/github/eng1group9/systems/TimerSystem.java:33-42 | one tick per frame gives one loss signal per frame |
| TimerRuns.FramesConserveTime | maze-game_diff_name_test/core/src/main/java/io/github/eng1group9/systems/TimerSystem.java:36-53 | over any frames, elapsed plus pending grows by exactly the total frame time |
| TimerRuns.FramesDrainPool | maze-game_diff_name_test/core/src/main/java/io/github/eng1group9/systems/TimerSystem.java:47-53 | a non-negative pool left after frames of non-negative length is exactly max(0, pool - 25 * total frame time) |
| TimerRuns.GradualMatchesInstant | maze-game_diff_name_test/core/src/main/java/io/github/eng1group9/systems/TimerSystem.java:21-31 | from a non-negative pool p, addGradually(x) followed by frames lasting at least (p + x)/25 seconds ends on the same clock as add(x) followed by the same frames |
| TimerRuns.FramesElapsedGrows | maze-game_diff_name_test/core/src/main/java/io/github/eng1group9/systems/TimerSystem.java:36-38 | elapsed time never decreases over frames of non-negative length |
| TimerRuns.LostClockKeepsSignalling | maze-game_diff_name_test/core/src/main/java/io/github/eng1group9/systems/TimerSystem.java:39-41 | once more than 299 seconds have elapsed, every later frame calls the loss handler |
| TimerRuns.LossSignalPersists | maze-game_diff_name_test/core/src/main/java/io/github/eng1group9/systems/TimerSystem.java:39-41 | after the first frame that signals loss, every later frame signals again; there is no "already lost" guard |
| Score.Score | maze-game/core/src/test/java/io/github/eng1group9/GameInvarianceTest.java:96-100 | the score decomposes uniquely into time left and bonus; its last three digits are 000 iff no bonus was found |
| Score.ScoreSplits | maze-game/core/src/test/java/io/github/eng1group9/GameInvarianceTest.java:80-100 | time left * 1000 + bonus decomposes back into the same time left and bonus |
| Score.ScoreAntitone | maze-game/core/src/test/java/io/github/eng1group9/GameInvarianceTest.java:96-100 | with the same bonus, more elapsed time never scores higher |
| Score.ScoreCeiling | maze-game/core/src/test/java/io/github/eng1group9/GameInvarianceTest.java:86-100 | with no time added back, the score is at most 300000 + 201823 |
| Score.ScoreExamples | maze-game/core/src/test/java/io/github/eng1group9/MainScoreTest.java:47-74 | 5000 at 295 elapsed with no bonus, and 202823 at 299 elapsed with the bonus |
| Score.ScoreAtAndPastExpiry | maze-game/core/src/test/java/io/github/eng1group9/GameInvarianceTest.java:88-155 | 0 at 300 elapsed with no bonus, the minimum the test expects, and -50000 at 350 elapsed, which the asserted formula gives |

## Left out

- Frame time and the loss handler: `Gdx.graphics.getDeltaTime()` and `Main.LoseGame()` are calls into libGDX and into the game, which is not part of this model. `tick` takes delta as a parameter and returns a loss flag.
- Float arithmetic: rounding, NaN, infinities and the saturation of the `(int)` cast are not modelled. Elapsed time and the pool are reals, and time left and the score are unbounded integers, so `int` overflow of `getTimeLeft() * 1000` is not modelled either.
- Static versus instance state: in the source, constructing a second timer resets the shared elapsed time but not another instance's pool. The model has one clock record, and `New` resets both fields.
- The unused `java.sql.Date` import has no behaviour.
- `isTimeUp`: one test calls it, but `TimerSystem.java` does not define it.
- `CollisionSystem`, `Dean`, `Player`, `InputSystem`, `Main.gameState` and the item flags (`Main.chestDoorOpen`, `Main.exitOpen`, `Main.spikesLowered`, `Main.scrollUsed`): their implementations are not part of this model.
- `Main.calculateScore`: its source is not part of this model. `Score.Score` states only the formula the tests assert, and the bonus can hold only the two values those tests allow.
