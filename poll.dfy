/** The poll record the timer hook receives from its caller, and the optional
    values it carries. */
module PollTypes {

  datatype Option<+T> = None | Some(value: T)

  /** The life-cycle states a poll can report. */
  datatype Status = Waiting | Active | Ended

  /** A poll as the hook sees it. `startTime` is a millisecond timestamp and
      may be missing; `status` may be missing too. */
  datatype Poll = Poll(
    pollId: string,
    timeLimit: int,
    startTime: Option<int>,
    status: Option<Status>)

  /** The start time is "truthy": present and not 0 (a start time of 0 is
      treated exactly like a missing one). */
  predicate HasStartTime(poll: Poll): (started: bool)
    ensures poll.startTime == None ==> !started
    ensures poll.startTime == Some(0) ==> !started
    ensures forall t :: poll.startTime == Some(t) && t != 0 ==> started
  {
    poll.startTime.Some? && poll.startTime.value != 0
  }

  /** The condition under which the countdown runs: the poll has started,
      the viewer has not submitted, results are not shown and the poll is
      active. A missing status is not "active". */
  predicate Gate(poll: Poll, hasSubmitted: bool, showResults: bool): (running: bool)
    ensures !HasStartTime(poll) ==> !running
    ensures hasSubmitted ==> !running
    ensures showResults ==> !running
    ensures poll.status != Some(Active) ==> !running
    ensures HasStartTime(poll) && !hasSubmitted && !showResults && poll.status == Some(Active) ==> running
  {
    HasStartTime(poll) && !hasSubmitted && !showResults && poll.status == Some(Active)
  }
}
