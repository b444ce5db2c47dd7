/** The arithmetic of one timer update: how many whole seconds have passed
    since the poll started, and how many remain of its time limit.
    Timestamps are integer milliseconds; the clock reading `now` is a
    parameter. */
module Countdown {

  const MillisPerSecond: int := 1000

  /** Whole seconds elapsed from `startTime` to `now`, rounded down. When the
      clock reads earlier than the start time this is negative. */
  function ElapsedSeconds(startTime: int, now: int): (e: int)
    ensures e * MillisPerSecond <= now - startTime < (e + 1) * MillisPerSecond
  {
    (now - startTime) / MillisPerSecond
  }

  /** The value one timer update stores: the time limit minus the elapsed
      seconds, never below zero. */
  function Remaining(timeLimit: int, startTime: int, now: int): (r: int)
    ensures r >= 0
    ensures r == 0 <==> timeLimit * MillisPerSecond <= now - startTime
    ensures r > 0 ==> (timeLimit - r) * MillisPerSecond <= now - startTime
                      < (timeLimit - r + 1) * MillisPerSecond
  {
    var remaining := timeLimit - ElapsedSeconds(startTime, now);
    if remaining < 0 then 0 else remaining
  }

  /** Once the clock has reached the start time, a non-negative limit bounds
      the result from above. */
  lemma RemainingBounded(timeLimit: int, startTime: int, now: int)
    requires timeLimit >= 0 && now >= startTime
    ensures 0 <= Remaining(timeLimit, startTime, now) <= timeLimit
  {
  }

  /** At the start time itself the full limit remains. */
  lemma RemainingAtStart(timeLimit: int, startTime: int)
    requires timeLimit >= 0
    ensures Remaining(timeLimit, startTime, startTime) == timeLimit
  {
  }

  /** A later clock reading never leaves more time. */
  lemma RemainingMonotonic(timeLimit: int, startTime: int, now: int, later: int)
    requires now <= later
    ensures Remaining(timeLimit, startTime, later) <= Remaining(timeLimit, startTime, now)
  {
  }

  /** Once the countdown has reached zero it stays at zero. */
  lemma RemainingStaysZero(timeLimit: int, startTime: int, now: int, later: int)
    requires now <= later && Remaining(timeLimit, startTime, now) == 0
    ensures Remaining(timeLimit, startTime, later) == 0
  {
    RemainingMonotonic(timeLimit, startTime, now, later);
  }

  /** The result is not capped at the limit: a clock that reads before the
      start time yields more than the limit, by the whole seconds (rounded
      up) still to go until the start. */
  lemma RemainingBeforeStart(timeLimit: int, startTime: int, now: int)
    requires timeLimit >= 0 && now < startTime
    ensures Remaining(timeLimit, startTime, now) > timeLimit
    ensures Remaining(timeLimit, startTime, now) == timeLimit - ElapsedSeconds(startTime, now)
  {
  }

  /** A poll of 30 seconds: the full 30 at the start, 15 after fifteen
      seconds, and 0 once 31 seconds have passed. */
  lemma ThirtySecondPoll(startTime: int)
    ensures Remaining(30, startTime, startTime) == 30
    ensures Remaining(30, startTime, startTime + 15000) == 15
    ensures Remaining(30, startTime, startTime + 31000) == 0
  {
  }
}
