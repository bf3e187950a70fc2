/**
 The game session of the target-tapping arena as a value: the state held by the
 page component (score, seconds left, whether a round is running, the target's
 position and the list of recorded hits) and the three transitions that change it.
 Each transition is one atomic update; the framework's batching of setters is not
 modelled.
 */
module SessionState {

  /** Length of a round in seconds: `timeLeft` starts here on mount and on every start. */
  const RoundSeconds: nat := 30

  /** A position in the arena, in pixels. */
  datatype Point = Point(x: real, y: real)

  /** One recorded hit: where in the arena the tap landed, and the clock reading at that moment. */
  datatype HitRecord = HitRecord(x: real, y: real, time: int)

  datatype Session = Session(
    target: Point,
    score: nat,
    timeLeft: nat,
    active: bool,
    hits: seq<HitRecord>)

  /** What every reachable session satisfies. */
  ghost predicate Inv(s: Session) {
    && s.timeLeft <= RoundSeconds
    && s.score == |s.hits|
    && (s.timeLeft == 0 ==> !s.active)
  }

  /** The state when the page is first shown: no round running, a full clock, no hits. */
  function Initial(): (r: Session)
    ensures Inv(r) && !r.active && r.score == 0 && r.hits == []
    ensures r.timeLeft == RoundSeconds && r.target == Point(0.0, 0.0)
  {
    Session(Point(0.0, 0.0), 0, RoundSeconds, false, [])
  }

  /**
   Start a round. `next` is the freshly drawn target position (the random draw
   itself is outside the model). Nothing of the previous session survives except
   what `next` replaces.
   */
  function Start(s: Session, next: Point): (r: Session)
    ensures Inv(r)
    ensures r.active && r.score == 0 && r.timeLeft == RoundSeconds && r.hits == []
    ensures r.target == next
  {
    s.(score := 0, timeLeft := RoundSeconds, active := true, hits := [], target := next)
  }

  /**
   One second of the countdown: the pending timer fires and lowers the clock when a
   round is running with time left; the effect that then re-runs ends the round as
   soon as the clock reads zero.
   */
  function Tick(s: Session): (r: Session)
    ensures r.score == s.score && r.hits == s.hits && r.target == s.target
    ensures Inv(s) ==> Inv(r)
    ensures Inv(s) ==> (r != s <==> s.active)
    ensures Inv(s) && s.active ==> r.timeLeft + 1 == s.timeLeft && r.active == (r.timeLeft > 0)
  {
    var lowered := if s.active && s.timeLeft > 0 then s.(timeLeft := s.timeLeft - 1) else s;
    if lowered.timeLeft == 0 then lowered.(active := false) else lowered
  }

  /**
   A tap on the target. `dx`, `dy` is the tap's offset inside the target, `time` the
   clock reading, `next` the target position drawn afterwards. Outside a round the
   tap is ignored.
   */
  function Hit(s: Session, dx: real, dy: real, time: int, next: Point): (r: Session)
    ensures !s.active ==> r == s
    ensures s.active ==> && r.score == s.score + 1
                         && |r.hits| == |s.hits| + 1
                         && r.hits[..|s.hits|] == s.hits
                         && r.hits[|s.hits|] == HitRecord(s.target.x + dx, s.target.y + dy, time)
                         && r.timeLeft == s.timeLeft && r.active
                         && r.target == next
    ensures Inv(s) ==> Inv(r)
  {
    if !s.active then s
    else s.(score := s.score + 1,
            hits := s.hits + [HitRecord(s.target.x + dx, s.target.y + dy, time)],
            target := next)
  }

  /** What the outside world can do to a session. */
  datatype Event =
    | StartPressed(next: Point)
    | SecondElapsed
    | TargetTapped(dx: real, dy: real, time: int, next: Point)

  function Step(s: Session, e: Event): Session {
    match e
    case StartPressed(next) => Start(s, next)
    case SecondElapsed => Tick(s)
    case TargetTapped(dx, dy, time, next) => Hit(s, dx, dy, time, next)
  }

  /** The session after the events `evs`, in order. */
  function Run(s: Session, evs: seq<Event>): Session
    decreases |evs|
  {
    if evs == [] then s else Run(Step(s, evs[0]), evs[1..])
  }

  /** The session after `n` seconds with no other event. */
  function Ticks(s: Session, n: nat): Session {
    if n == 0 then s else Tick(Ticks(s, n - 1))
  }

  /** Number of elapsed seconds among `evs`. */
  function SecondsIn(evs: seq<Event>): nat {
    if evs == [] then 0 else (if evs[0].SecondElapsed? then 1 else 0) + SecondsIn(evs[1..])
  }

  /** No event in `evs` starts a new round. */
  predicate NoRestart(evs: seq<Event>) {
    forall i :: 0 <= i < |evs| ==> !evs[i].StartPressed?
  }

  // ---------------------------------------------------------------------------
  // Properties of runs
  // ---------------------------------------------------------------------------

  /** Every event keeps the invariant, so any run from a good state ends in one. */
  lemma {:induction false} RunKeepsInv(s: Session, evs: seq<Event>)
    requires Inv(s)
    ensures Inv(Run(s, evs))
    decreases |evs|
  {
    if evs != [] {
      RunKeepsInv(Step(s, evs[0]), evs[1..]);
    }
  }

  /**
   In every state reachable from the page's first render, the score equals the
   number of recorded hits, and the clock lies within the round length.
   */
  lemma ReachableScoreIsHitCount(evs: seq<Event>)
    ensures Run(Initial(), evs).score == |Run(Initial(), evs).hits|
    ensures Run(Initial(), evs).timeLeft <= RoundSeconds
  {
    RunKeepsInv(Initial(), evs);
  }

  /** While a round runs, each second lowers the clock by one until it ends at zero. */
  lemma {:induction false} Countdown(s: Session, k: nat)
    requires Inv(s) && s.active && k <= s.timeLeft
    ensures Inv(Ticks(s, k))
    ensures Ticks(s, k).timeLeft == s.timeLeft - k
    ensures Ticks(s, k).active == (k < s.timeLeft)
    ensures Ticks(s, k).score == s.score && Ticks(s, k).hits == s.hits
  {
    if k > 0 {
      Countdown(s, k - 1);
    }
  }

  /** Exactly `RoundSeconds` seconds after a start the round is over, with the clock at zero. */
  lemma RoundEndsAfterThirtySeconds(s: Session, next: Point)
    ensures Ticks(Start(s, next), RoundSeconds).timeLeft == 0
    ensures !Ticks(Start(s, next), RoundSeconds).active
    ensures Ticks(Start(s, next), RoundSeconds - 1).active
  {
    Countdown(Start(s, next), RoundSeconds);
    Countdown(Start(s, next), RoundSeconds - 1);
  }

  /** Outside a round, further seconds change nothing. */
  lemma {:induction false} IdleTicksChangeNothing(s: Session, n: nat)
    requires Inv(s) && !s.active
    ensures Ticks(s, n) == s
  {
    if n > 0 {
      IdleTicksChangeNothing(s, n - 1);
    }
  }

  /**
   Taps do not touch the clock: during a round without restarts, the clock only
   depends on how many seconds have elapsed, and the round ends exactly when that
   count reaches the time that was left.
   */
  lemma {:induction false} ClockIgnoresTaps(s: Session, evs: seq<Event>)
    requires Inv(s) && s.active && NoRestart(evs)
    ensures Run(s, evs).timeLeft == if SecondsIn(evs) < s.timeLeft then s.timeLeft - SecondsIn(evs) else 0
    ensures Run(s, evs).active == (SecondsIn(evs) < s.timeLeft)
    decreases |evs|
  {
    if evs != [] {
      var t := Step(s, evs[0]);
      assert NoRestart(evs[1..]) by {
        forall i | 0 <= i < |evs[1..]| ensures !evs[1..][i].StartPressed? {
          assert evs[1..][i] == evs[i + 1];
        }
      }
      assert !evs[0].StartPressed?;
      if t.active {
        ClockIgnoresTaps(t, evs[1..]);
      } else {
        assert evs[0].SecondElapsed? && s.timeLeft == 1;
        NoEventRestartsIdle(t, evs[1..]);
      }
    }
  }

  /** Without a restart, an ended round stays ended with its clock unchanged. */
  lemma {:induction false} NoEventRestartsIdle(s: Session, evs: seq<Event>)
    requires Inv(s) && !s.active && NoRestart(evs)
    ensures Run(s, evs) == s
    decreases |evs|
  {
    if evs != [] {
      assert !evs[0].StartPressed?;
      assert NoRestart(evs[1..]) by {
        forall i | 0 <= i < |evs[1..]| ensures !evs[1..][i].StartPressed? {
          assert evs[1..][i] == evs[i + 1];
        }
      }
      NoEventRestartsIdle(Step(s, evs[0]), evs[1..]);
    }
  }

  /** A tap during a round keeps every earlier hit at its place and records its clock reading last. */
  lemma HitsAreAppendOnly(s: Session, dx: real, dy: real, time: int, next: Point)
    requires s.active
    ensures var r := Hit(s, dx, dy, time, next);
            && (forall i :: 0 <= i < |s.hits| ==> r.hits[i] == s.hits[i])
            && r.hits[|r.hits| - 1].time == time
  {
    var r := Hit(s, dx, dy, time, next);
    forall i | 0 <= i < |s.hits| ensures r.hits[i] == s.hits[i] {
      assert r.hits[i] == r.hits[..|s.hits|][i];
    }
  }
}
