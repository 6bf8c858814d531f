/** The records the scheduler reads and derives. Only the fields it uses are modelled. */
module Entities {
  import opened Wrappers
  import opened Time

  /** A free period `{start, end}` (the source keeps both as ISO strings). */
  datatype Period = Period(start: Instant, end: Instant)

  /** A calendar event: `start.dateTime`, `end.dateTime` and the optional `description`. */
  datatype Event = Event(start: Instant, end: Instant, description: Option<string>)

  /** A to-do item: `id`, `content` (its title) and `description`. */
  datatype Task = Task(id: string, content: string, description: string)

  /** `start <= t < end`: the instant lies in the half-open interval. */
  predicate InPeriod(t: Instant, p: Period)
  {
    p.start <= t < p.end
  }

  predicate InEvent(t: Instant, e: Event)
  {
    e.start <= t < e.end
  }
}
