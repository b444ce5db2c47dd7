/** The state the hook keeps between renders: the stored `timeRemaining`
    and the interval, if any, that updates it once a second. The two
    effects of the hook and the interval's callback are methods; the clock
    reading each one would take is a parameter. */
module StudentPollTimer {
  import opened PollTypes
  import opened Countdown
  import opened TimeFormat

  /** What a running interval's update callback has captured from the poll
      when the effect armed it. */
  datatype Interval = Interval(startTime: int, timeLimit: int)

  class TimerState {
    /** The stored remaining seconds. */
    var timeRemaining: int
    /** The interval armed by the countdown effect; None when none runs. */
    var interval: Option<Interval>
    /** The clock reading of the last write made by the update callback,
        None once anything else has written `timeRemaining`. */
    ghost var lastUpdate: Option<int>

    /** A value written by the update callback is the remaining time at the
        clock reading it was computed for. */
    ghost predicate Valid()
      reads this
    {
      lastUpdate.Some? ==>
        && interval.Some?
        && timeRemaining == Remaining(interval.value.timeLimit, interval.value.startTime, lastUpdate.value)
    }

    /** The stored value starts at the poll's limit, with no interval. */
    constructor (poll: Poll)
      ensures Valid()
      ensures timeRemaining == poll.timeLimit && interval == None && lastUpdate == None
    {
      timeRemaining := poll.timeLimit;
      interval := None;
      lastUpdate := None;
    }

    /** One firing of the update callback. With an interval armed it stores
        the remaining time at `now`; with none, nothing fires and nothing
        changes. A clock that has not gone back never raises the value the
        callback last stored. */
    method Tick(now: int)
      requires Valid()
      modifies this`timeRemaining, this`lastUpdate
      ensures Valid()
      ensures old(interval).Some? ==>
                && timeRemaining == Remaining(interval.value.timeLimit, interval.value.startTime, now)
                && lastUpdate == Some(now)
      ensures old(interval).None? ==>
                timeRemaining == old(timeRemaining) && lastUpdate == old(lastUpdate)
      ensures old(lastUpdate).Some? && old(lastUpdate).value <= now ==>
                timeRemaining <= old(timeRemaining)
      ensures interval.Some? && interval.value.timeLimit >= 0 && now >= interval.value.startTime ==>
                0 <= timeRemaining <= interval.value.timeLimit
    {
      if interval.Some? {
        var iv := interval.value;
        if lastUpdate.Some? && lastUpdate.value <= now {
          RemainingMonotonic(iv.timeLimit, iv.startTime, lastUpdate.value, now);
        }
        if iv.timeLimit >= 0 && now >= iv.startTime {
          RemainingBounded(iv.timeLimit, iv.startTime, now);
        }
        timeRemaining := Remaining(iv.timeLimit, iv.startTime, now);
        lastUpdate := Some(now);
      }
    }

    /** The countdown effect. Whatever interval ran before is cleared. When
        the gate fails the stored value is pinned to the poll's limit and no
        interval is armed; when it holds, the value is updated at once for
        `now` and an interval capturing the poll's start time and limit is
        armed. */
    method RunEffect(poll: Poll, hasSubmitted: bool, showResults: bool, now: int)
      requires Valid()
      modifies this
      ensures Valid()
      ensures !Gate(poll, hasSubmitted, showResults) ==>
                && timeRemaining == poll.timeLimit
                && interval == None
                && lastUpdate == None
      ensures Gate(poll, hasSubmitted, showResults) ==>
                && interval == Some(Interval(poll.startTime.value, poll.timeLimit))
                && timeRemaining == Remaining(poll.timeLimit, poll.startTime.value, now)
                && lastUpdate == Some(now)
    {
      interval := None;
      lastUpdate := None;
      if !Gate(poll, hasSubmitted, showResults) {
        timeRemaining := poll.timeLimit;
        return;
      }
      interval := Some(Interval(poll.startTime.value, poll.timeLimit));
      Tick(now);
    }

    /** The reset effect, run when the poll's id or limit changes: the stored
        value goes back to the new limit whatever it held. */
    method ResetOnPollChange(poll: Poll)
      requires Valid()
      modifies this`timeRemaining, this`lastUpdate
      ensures Valid()
      ensures timeRemaining == poll.timeLimit && lastUpdate == None
    {
      timeRemaining := poll.timeLimit;
      lastUpdate := None;
    }

    /** What the hook returns for the current state: the stored value, its
        `MM:SS` text, time up exactly when nothing is left and the warning
        exactly in the last ten seconds. */
    function Output(): (v: TimerView)
      reads this
      ensures v.timeRemaining == timeRemaining
      ensures timeRemaining >= 0 ==> ParseClock(v.formattedTime) == Some(timeRemaining)
      ensures v.isTimeUp <==> timeRemaining <= 0
      ensures v.isTimeWarning <==> 0 < timeRemaining <= 10
      ensures !(v.isTimeUp && v.isTimeWarning)
      ensures Valid() && lastUpdate.Some? ==> v.timeRemaining >= 0
    {
      Present(timeRemaining)
    }
  }

  /** A viewer who submits mid-countdown: the stored value is pinned to the
      limit at once, and a later firing of the callback changes nothing,
      since the interval was cleared. */
  method SubmitDuringCountdown(poll: Poll, started: int, submitted: int, later: int)
    returns (beforeSubmit: int, afterSubmit: int, afterLaterTick: int)
    requires Gate(poll, false, false)
    ensures poll.timeLimit >= 0 && poll.startTime.value <= started ==>
              0 <= beforeSubmit <= poll.timeLimit
    ensures afterSubmit == poll.timeLimit
    ensures afterLaterTick == poll.timeLimit
  {
    var timer := new TimerState(poll);
    timer.RunEffect(poll, false, false, started);
    if poll.timeLimit >= 0 && poll.startTime.value <= started {
      RemainingBounded(poll.timeLimit, poll.startTime.value, started);
    }
    beforeSubmit := timer.timeRemaining;
    timer.RunEffect(poll, true, false, submitted);
    afterSubmit := timer.timeRemaining;
    timer.Tick(later);
    afterLaterTick := timer.timeRemaining;
  }
}
