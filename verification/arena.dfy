/**
 The page component's session state as a mutable object: one field per piece of
 component state, updated in place by the start button, the countdown and taps on
 the target. Each method is specified by the corresponding transition of
 SessionState, whose properties are proved there.
 */
module Arena {
  import SessionState

  class GameSession {
    var targetX: real
    var targetY: real
    var score: nat
    var timeLeft: nat
    var gameActive: bool
    var hits: seq<SessionState.HitRecord>

    /** The session these fields hold. */
    function Model(): SessionState.Session
      reads this
    {
      SessionState.Session(SessionState.Point(targetX, targetY), score, timeLeft, gameActive, hits)
    }

    ghost predicate Valid()
      reads this
    {
      SessionState.Inv(Model())
    }

    /** The component's first render: every piece of state at its initial value. */
    constructor ()
      ensures Valid() && Model() == SessionState.Initial()
    {
      targetX, targetY := 0.0, 0.0;
      score := 0;
      timeLeft := SessionState.RoundSeconds;
      gameActive := false;
      hits := [];
    }

    /** The start button: reset the round and place the target at (`nextX`, `nextY`). */
    method StartGame(nextX: real, nextY: real)
      modifies this
      ensures Valid()
      ensures Model() == SessionState.Start(old(Model()), SessionState.Point(nextX, nextY))
    {
      score := 0;
      timeLeft := SessionState.RoundSeconds;
      gameActive := true;
      hits := [];
      targetX, targetY := nextX, nextY;
    }

    /** One second of the countdown, followed by the end-of-round check. */
    method Tick()
      requires Valid()
      modifies this
      ensures Valid()
      ensures Model() == SessionState.Tick(old(Model()))
    {
      if gameActive && timeLeft > 0 {
        timeLeft := timeLeft - 1;
      }
      if timeLeft == 0 {
        gameActive := false;
      }
    }

    /**
     A tap at offset (`dx`, `dy`) inside the target at clock reading `time`; the
     target then moves to (`nextX`, `nextY`). Ignored outside a round.
     */
    method HandleTargetHit(dx: real, dy: real, time: int, nextX: real, nextY: real)
      requires Valid()
      modifies this
      ensures Valid()
      ensures Model() == SessionState.Hit(old(Model()), dx, dy, time, SessionState.Point(nextX, nextY))
    {
      if !gameActive {
        return;
      }
      score := score + 1;
      hits := hits + [SessionState.HitRecord(targetX + dx, targetY + dy, time)];
      targetX, targetY := nextX, nextY;
    }
  }
}
