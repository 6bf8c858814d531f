/** `stubTaskEvent` and the two constants beside it (src/bg/library.js): the calendar event
    written for a task placed at a start time. */
module EventStub {
  import opened Time
  import opened Entities

  /** Marks an event description as written for the task whose id follows it. */
  const ID_PREFIX: string := "todoist.id="
  /** A check mark and a space, put in front of the task's title. */
  const SUMMARY_PREFIX: string := "\U{2705} "
  /** What line 85 places between the task's description and the marker. */
  const ATTRIBUTION: string := "\n\n\nCreated by todo5-scheduler\n"
  const PRIVATE: string := "private"

  /** The outbound event record; `start` and `end` stand for `{dateTime: ...}`. */
  datatype EventStub = EventStub(summary: string, description: string, start: Instant, end: Instant, visibility: string)

  /** The event for `task` at `startTime`, lasting `duration` minutes. */
  function StubTaskEvent(startTime: Instant, duration: int, task: Task): (e: EventStub)
    ensures e.start == startTime && e.end - e.start == duration * MS_PER_MINUTE
    ensures |e.summary| == |SUMMARY_PREFIX| + |task.content|
    ensures e.summary[..|SUMMARY_PREFIX|] == SUMMARY_PREFIX && e.summary[|SUMMARY_PREFIX|..] == task.content
    ensures |e.description| == |task.description| + |ATTRIBUTION| + |ID_PREFIX| + |task.id|
    ensures e.description[..|task.description|] == task.description
    ensures e.description[|task.description|..|task.description| + |ATTRIBUTION|] == ATTRIBUTION
    ensures e.description[|e.description| - |task.id| - |ID_PREFIX|..] == ID_PREFIX + task.id
    ensures e.visibility == PRIVATE
  {
    EventStub(
      SUMMARY_PREFIX + task.content,
      task.description + ATTRIBUTION + ID_PREFIX + task.id,
      startTime,
      startTime + duration * MS_PER_MINUTE,
      PRIVATE)
  }
}
