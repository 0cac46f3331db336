/**
 * The mapping from a Maven execution event type to the status a project's
 * cell shows, and the event types the logger reacts to.
 */
module BuildEvents {
  import opened Wrappers
  import opened Display

  /** Maven's ExecutionEvent.Type, in declaration order. */
  datatype EventType =
    | ProjectDiscoveryStarted
    | SessionStarted
    | SessionEnded
    | ProjectSkipped
    | ProjectStarted
    | ProjectSucceeded
    | ProjectFailed
    | MojoSkipped
    | MojoStarted
    | MojoSucceeded
    | MojoFailed
    | ForkStarted
    | ForkSucceeded
    | ForkFailed
    | ForkedProjectStarted
    | ForkedProjectSucceeded
    | ForkedProjectFailed

  /** Events that begin the build of a project or of a forked lifecycle. */
  predicate IsStart(t: EventType) {
    t.ProjectStarted? || t.ForkStarted? || t.ForkedProjectStarted?
  }

  /** Events that end a project or forked lifecycle in failure. */
  predicate IsFailure(t: EventType) {
    t.ProjectFailed? || t.ForkFailed? || t.ForkedProjectFailed?
  }

  /** Events that end a project or forked lifecycle successfully. */
  predicate IsSuccess(t: EventType) {
    t.ProjectSucceeded? || t.ForkSucceeded? || t.ForkedProjectSucceeded?
  }

  /**
   * SuccinctBuildLogger.convert(ExecutionEvent.Type): a start shows as
   * Building, a failure as Failed, a skip as Skipped, a success as Success;
   * every other type throws (None). No event type shows as Waiting.
   */
  function Convert(t: EventType): (r: Option<Status>)
    ensures r == Some(Building) <==> IsStart(t)
    ensures r == Some(Failed) <==> IsFailure(t)
    ensures r == Some(Skipped) <==> t.ProjectSkipped?
    ensures r == Some(Success) <==> IsSuccess(t)
    ensures r != Some(Waiting)
  {
    match t
    case ProjectStarted | ForkStarted | ForkedProjectStarted => Some(Building)
    case ProjectFailed | ForkFailed | ForkedProjectFailed => Some(Failed)
    case ProjectSkipped => Some(Skipped)
    case ProjectSucceeded | ForkSucceeded | ForkedProjectSucceeded => Some(Success)
    case _ => None
  }

  /** The event types onEvent turns into a status update of the event's project. */
  predicate UpdatesStatus(t: EventType) {
    t.ProjectStarted? || t.ProjectSkipped? || t.ProjectFailed? || t.ProjectSucceeded?
  }

  /**
   * onEvent only converts the four project events, so its conversion never
   * throws; the types that do throw are exactly those outside the project and
   * fork lifecycles.
   */
  lemma ConvertNeverThrowsOnStatusEvents(t: EventType)
    ensures UpdatesStatus(t) ==> Convert(t).Some?
    ensures Convert(t).None? <==> !(IsStart(t) || IsFailure(t) || IsSuccess(t) || t.ProjectSkipped?)
  {
  }
}
