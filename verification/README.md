# Mobile Arena Targeting: the game session

The page `pages/index.js` is a target-tapping reaction test. A round lasts thirty
seconds. Every tap on the target while the round runs scores a point, records a hit
(arena position and clock reading) and moves the target. The header shows the score,
the seconds left and an accuracy percentage. The arena shows markers for the last ten
hits. Once a round is over the start button appears, and, if anything was scored, a
game-over panel.

This project models that session state and its three transitions:

- `session_state.dfy`, module `SessionState`: the session as a value (`Session`), the
  transitions `Start`, `Tick` and `Hit`, runs of events (`Run`, `Ticks`), and the
  properties of reachable sessions. The central one is that the score always equals
  the number of recorded hits.
- `display.dfy`, module `Display`: the values derived for display. These are the
  accuracy figure, the window of recent hit markers (`slice(-10)`), the start button's
  label and the game-over panel.
- `arena.dfy`, module `Arena`: class `GameSession`, with one mutable field per piece of
  component state. Its methods update those fields in place, and each method's
  contract ties the new state to the matching `SessionState` transition.

One `Tick` is one second of the countdown effect. The pending timer fires and lowers
`timeLeft` when a round runs with time left. The effect re-runs after that change, and
when `timeLeft` reads 0 it sets `gameActive` to false. Both steps form one atomic
update, so "the clock reads 0 only outside a round" is an invariant. Thirty ticks after
a start, the round is over.

## Model

| member | source | states |
|---|---|---|
| SessionState.Initial | pages/index.js:5-10 | the first render has no round running, score 0, no hits, the full 30-second clock and the target at (0, 0), and satisfies the session invariant |
| SessionState.Start | pages/index.js:35-41 | whatever the previous session held, a start gives score 0, 30 seconds, an empty hit list, a running round and the new target; the result satisfies the invariant |
| SessionState.Tick | pages/index.js:26-33 | a second never touches score, hits or target; from a valid session it changes the state exactly when a round runs, and then lowers the clock by exactly one and ends the round when the clock reaches 0; the invariant is preserved |
| SessionState.Hit | pages/index.js:50-60 | outside a round a tap changes nothing; during a round it adds exactly 1 to the score, keeps every earlier hit, appends exactly one record (target position plus tap offset, with the clock reading), leaves the clock and round flag alone and moves the target; the invariant is preserved |
| SessionState.RunKeepsInv | pages/index.js:26-60 | any sequence of starts, seconds and taps from a valid session ends in a valid session |
| SessionState.ReachableScoreIsHitCount | pages/index.js:35-60 | in every session reachable from the first render, score equals the number of recorded hits and the clock is within 0..30 |
| SessionState.Countdown | pages/index.js:26-33 | during a round, k seconds (k up to the time left) lower the clock by exactly k, keep score and hits, and the round still runs exactly when k is below the time left |
| SessionState.RoundEndsAfterThirtySeconds | pages/index.js:26-41 | 30 seconds after any start the clock reads 0 and the round is over, and after 29 seconds it still runs |
| SessionState.IdleTicksChangeNothing | pages/index.js:26-33 | outside a round, any number of further seconds leaves the session unchanged |
| SessionState.ClockIgnoresTaps | pages/index.js:26-60 | during a round and without a restart, taps interleaved anywhere do not affect the clock: it reads the time left minus the elapsed seconds (floored at 0), and the round runs exactly while fewer seconds than the time left have elapsed |
| SessionState.NoEventRestartsIdle | pages/index.js:26-60 | outside a round, seconds and taps without a start leave the session unchanged |
| SessionState.HitsAreAppendOnly | pages/index.js:58 | a tap during a round, the first one included, keeps each earlier hit at its index and stores the tap's clock reading in the new last record |
| Display.SliceFrom | pages/index.js:118 | array `slice(start)`: a suffix of the input, of length min(-start, n) for a negative start and max(n - start, 0) otherwise |
| Display.RecentHits | pages/index.js:118 | the markers are the last min(10, n) hits, in their original order |
| Display.RecentHitsShowsShortHistory | pages/index.js:118 | with at most ten hits, every hit is shown |
| Display.RecentHitsSlide | pages/index.js:118 | after one more hit, the markers are the previous markers (minus the oldest when there were ten) followed by the new hit |
| Display.Accuracy | pages/index.js:91 | 0 without hits, with no division; otherwise 100 * score / hits rounded to the nearest integer, halves up |
| Display.AccuracyAtMostHundred | pages/index.js:91 | a score no larger than the hit count never shows more than 100 percent |
| Display.AccuracyOfFullScore | pages/index.js:91 | a score equal to a positive hit count shows exactly 100 percent |
| Display.ReachableAccuracy | pages/index.js:91 | in every reachable session, accuracy shows 0 before the first hit and 100 after it |
| Display.StartButton | pages/index.js:96-100 | the button exists exactly outside a round; it reads "Play Again" exactly when, in addition, the score is positive, and "Start Game" exactly when the score is 0 |
| Display.GameOverShown | pages/index.js:132 | the game-over panel shows exactly when the start button reads "Play Again", that is outside a round with a positive score |
| Display.ReachableGameOver | pages/index.js:132-138 | in every reachable session the game-over panel shows exactly when no round runs and at least one hit is recorded, and exactly when the button reads "Play Again" |
| Display.ScenarioThreeHits | pages/index.js:26-98 | start, three taps, thirty seconds: score 3, three hits, round over with the clock at 0, 100 percent, the game-over panel and "Play Again" |
| Display.ScenarioNoHits | pages/index.js:26-98 | start and thirty seconds without a tap: 0 percent, no game-over panel, "Start Game" |
| Arena.GameSession.constructor | pages/index.js:5-10 | the fields hold the initial session, which satisfies the invariant |
| Arena.GameSession.StartGame | pages/index.js:35-41 | the fields are updated in place to `SessionState.Start` of the old state, and the invariant holds afterwards |
| Arena.GameSession.Tick | pages/index.js:26-33 | the fields are updated in place to `SessionState.Tick` of the old state; the invariant is preserved |
| Arena.GameSession.HandleTargetHit | pages/index.js:50-60 | the fields are updated in place to `SessionState.Hit` of the old state; the invariant is preserved |

## Left out

- Device probing through `navigator` and `window` (pages/index.js:13-24). It is display only, and no game logic reads it.
- Timer scheduling and cancellation (`setTimeout`/`clearTimeout`, effect cleanup). The countdown is the explicit `Tick` instead.
- The render between the clock reaching 0 and the effect ending the round. In the page, a tap in that render could still count. `Tick` performs both steps as one update.
- `spawnTarget` (pages/index.js:43-48): it draws the position with `Math.random()` from the window size, in floating point. Each new target position is a parameter, and its bounds are not modelled.
- Pointer arithmetic: `getBoundingClientRect`, the touch/mouse coordinate choice and `Date.now()` (pages/index.js:53-55, 58). The tap's offset inside the target and the clock reading are parameters. Coordinates are exact `real`s, not IEEE doubles.
- Display.Accuracy: the page divides and multiplies in floating point before `toFixed(0)`; the model rounds the exact ratio, so it can differ from the page where a floating-point result lies next to a .5 boundary. For the values reachable sessions produce (0 and exactly 100), the two agree.
- Marker opacity (`1 - i * 0.1`, pages/index.js:125), the JSX layout and the `styles` object. These are presentation only.
- pages/_document.js: a static document shell with injected CSS and no logic.
- React's batching of setters and stale closures (`setScore(score + 1)`). Each transition is one atomic, sequential update.
- `startGame` has no guard of its own. Its button is rendered only outside a round, but the model lets `Start` run in any state, as the function itself does.
