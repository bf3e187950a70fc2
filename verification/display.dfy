/**
 Values the page derives from the session for display: the accuracy figure, the
 window of recent hit markers, the label of the start button and whether the
 game-over panel is shown.
 */
module Display {
  import opened SessionState

  function Min(a: int, b: int): int { if a <= b then a else b }

  /**
   JavaScript's `Array.prototype.slice(start)` with an integer `start`: a negative
   start counts from the end, and both kinds are clamped to the array's bounds.
   */
  function SliceFrom<T>(s: seq<T>, start: int): (r: seq<T>)
    ensures start < 0 ==> |r| == Min(-start, |s|)
    ensures 0 <= start ==> |r| == if start <= |s| then |s| - start else 0
    ensures r == s[|s| - |r|..]
  {
    var from := if start < 0 then (if |s| + start < 0 then 0 else |s| + start)
                else Min(start, |s|);
    s[from..]
  }

  /** How many hit markers the arena shows at most. */
  const MarkerWindow: nat := 10

  /** The hits drawn as markers: `hits.slice(-10)`. */
  function RecentHits(hits: seq<HitRecord>): (r: seq<HitRecord>)
    ensures |r| == Min(MarkerWindow, |hits|)
    ensures forall i :: 0 <= i < |r| ==> r[i] == hits[|hits| - |r| + i]
  {
    SliceFrom(hits, -(MarkerWindow as int))
  }

  /** With at most ten hits, every hit is shown, in order. */
  lemma RecentHitsShowsShortHistory(hits: seq<HitRecord>)
    requires |hits| <= MarkerWindow
    ensures RecentHits(hits) == hits
  {
  }

  /**
   The marker window slides: after one more hit it holds the new hit last, preceded
   by the previous window, minus its oldest marker when the window was full.
   */
  lemma RecentHitsSlide(hits: seq<HitRecord>, h: HitRecord)
    ensures RecentHits(hits + [h]) ==
            (if |hits| >= MarkerWindow then RecentHits(hits)[1..] else RecentHits(hits)) + [h]
  {
  }

  /**
   The accuracy figure: `score / hits.length * 100` printed with no decimals, or 0
   without any hit. Printing with no decimals picks the nearest integer and, on a
   tie, the larger one; here that rounding is taken on the exact ratio.
   */
  function Accuracy(score: nat, count: nat): (r: nat)
    ensures count == 0 ==> r == 0
    ensures count > 0 ==> 2 * count * r <= 200 * score + count < 2 * count * (r + 1)
  {
    if count > 0 then DivFloor(200 * score + count, 2 * count) else 0
  }

  /** Integer division of naturals, with its defining bounds. */
  function DivFloor(a: nat, d: nat): (q: nat)
    requires d > 0
    ensures q * d <= a < (q + 1) * d
  {
    if a < d then 0 else DivFloor(a - d, d) + 1
  }

  /** A score that never exceeds the hit count gives at most 100 percent. */
  lemma AccuracyAtMostHundred(score: nat, count: nat)
    requires score <= count
    ensures Accuracy(score, count) <= 100
  {
    if count > 0 {
      var r := Accuracy(score, count);
      if r >= 101 {
        // then 202 * count <= 2 * count * r, above the 201 * count the rounding bound allows
        MulMono(2 * count, 101, r);
        assert false;
      }
    }
  }

  lemma MulMono(a: nat, b: nat, c: nat)
    requires b <= c
    ensures a * b <= a * c
  {
  }

  /** When every hit counts toward the score, accuracy is exactly 100 percent. */
  lemma AccuracyOfFullScore(n: nat)
    requires n > 0
    ensures Accuracy(n, n) == 100
  {
    var r := Accuracy(n, n);
    AccuracyAtMostHundred(n, n);
    if r < 100 {
      // then 2n(r + 1) <= 200n, below the 201n the rounding bound demands
      MulMono(2 * n, r + 1, 100);
      assert false;
    }
  }

  /**
   In every reachable session the accuracy shown is 0 before the first hit and 100
   afterwards, although the page computes it as a ratio.
   */
  lemma ReachableAccuracy(evs: seq<Event>)
    ensures var s := Run(Initial(), evs);
            Accuracy(s.score, |s.hits|) == if |s.hits| == 0 then 0 else 100
  {
    var s := Run(Initial(), evs);
    RunKeepsInv(Initial(), evs);
    if |s.hits| > 0 {
      AccuracyOfFullScore(|s.hits|);
    }
  }

  /**
   The start button: absent during a round; otherwise it reads "Play Again" once
   something was scored, and "Start Game" before that.
   */
  function StartButton(s: Session): (button: Option<string>)
    ensures button.Some? <==> !s.active
    ensures button == Some("Play Again") <==> !s.active && s.score > 0
    ensures button == Some("Start Game") <==> !s.active && s.score == 0
  {
    if s.active then None
    else if s.score > 0 then Some("Play Again") else Some("Start Game")
  }

  datatype Option<T> = None | Some(value: T)

  /**
   The game-over panel shows outside a round once something was scored, which is
   exactly when the start button reads "Play Again".
   */
  predicate GameOverShown(s: Session): (shown: bool)
    ensures shown <==> StartButton(s) == Some("Play Again")
  {
    !s.active && s.score > 0
  }

  /**
   In a reachable session the game-over panel and the "Play Again" label come and go
   together, exactly when no round runs and at least one hit was recorded.
   */
  lemma ReachableGameOver(evs: seq<Event>)
    ensures var s := Run(Initial(), evs);
            && (GameOverShown(s) <==> !s.active && |s.hits| > 0)
            && (GameOverShown(s) <==> StartButton(s) == Some("Play Again"))
  {
    RunKeepsInv(Initial(), evs);
  }

  /**
   A round with three hits that then runs out of time ends with score 3, three
   recorded hits, 100 percent, the game-over panel and a "Play Again" button.
   */
  lemma ScenarioThreeHits(s: Session, t0: Point, t1: Point, t2: Point, t3: Point,
                          tap1: HitRecord, tap2: HitRecord, tap3: HitRecord)
    ensures var played := Hit(Hit(Hit(Start(s, t0), tap1.x, tap1.y, tap1.time, t1),
                                      tap2.x, tap2.y, tap2.time, t2),
                              tap3.x, tap3.y, tap3.time, t3);
            var over := Ticks(played, RoundSeconds);
            && over.score == 3 && |over.hits| == 3 && !over.active && over.timeLeft == 0
            && Accuracy(over.score, |over.hits|) == 100
            && GameOverShown(over) && StartButton(over) == Some("Play Again")
  {
    var played := Hit(Hit(Hit(Start(s, t0), tap1.x, tap1.y, tap1.time, t1),
                          tap2.x, tap2.y, tap2.time, t2),
                      tap3.x, tap3.y, tap3.time, t3);
    Countdown(played, RoundSeconds);
    AccuracyOfFullScore(3);
  }

  /**
   A round without hits that runs out of time shows 0 percent (no division takes
   place), no game-over panel, and a "Start Game" button.
   */
  lemma ScenarioNoHits(s: Session, t0: Point)
    ensures var over := Ticks(Start(s, t0), RoundSeconds);
            && over.score == 0 && over.hits == [] && !over.active
            && Accuracy(over.score, |over.hits|) == 0
            && !GameOverShown(over) && StartButton(over) == Some("Start Game")
  {
    Countdown(Start(s, t0), RoundSeconds);
  }
}
