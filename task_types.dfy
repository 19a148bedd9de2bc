/** The records of src/types/task.ts: a task, the draft a caller hands to the
    store, the partial record an update merges in, and the calendar event that
    a sync sends. Timestamps are milliseconds since the epoch. */
module TaskTypes {

  datatype Option<T> = None | Some(value: T)

  /** JavaScript truthiness of an optional string: `undefined` and `""` are falsy. */
  predicate Truthy(o: Option<string>) {
    o.Some? && o.value != ""
  }

  datatype Priority = Low | Medium | High

  /** A task. `dueDate` is `None` for the source's `null`; `googleCalendarEventId`
      is `None` when the optional property is absent or `undefined`. */
  datatype Task = Task(
    id: string,
    title: string,
    description: string,
    completed: bool,
    createdAt: int,
    dueDate: Option<int>,
    priority: Priority,
    labels: seq<string>,
    googleCalendarEventId: Option<string>)

  /** `Omit<Task, 'id' | 'createdAt'>`: the payload of ADD_TASK and of a form submit. */
  datatype Draft = Draft(
    title: string,
    description: string,
    completed: bool,
    dueDate: Option<int>,
    priority: Priority,
    labels: seq<string>,
    googleCalendarEventId: Option<string>)

  /** `Partial<Task>`: a field is `Some` when its key is present in the object.
      For the two nullable fields the inner option is the value carried under
      the key, so a present key whose value is `undefined` or `null` is
      `Some(None)` and still overrides when spread. */
  datatype Patch = Patch(
    id: Option<string>,
    title: Option<string>,
    description: Option<string>,
    completed: Option<bool>,
    createdAt: Option<int>,
    dueDate: Option<Option<int>>,
    priority: Option<Priority>,
    labels: Option<seq<string>>,
    googleCalendarEventId: Option<Option<string>>)

  const EmptyPatch := Patch(None, None, None, None, None, None, None, None, None)

  /** One end of a Google Calendar event: an instant and a time-zone name. */
  datatype EventTime = EventTime(dateTime: int, timeZone: string)

  datatype CalendarEvent = CalendarEvent(
    summary: string,
    description: string,
    start: EventTime,
    end: EventTime)

  /** The fields of a task other than `id` and `createdAt`. */
  function ToDraft(t: Task): Draft {
    Draft(t.title, t.description, t.completed, t.dueDate, t.priority, t.labels, t.googleCalendarEventId)
  }

  /** `{ ...payload, id, createdAt }`: a draft completed with the two fields the
      store assigns. */
  function FromDraft(d: Draft, id: string, createdAt: int): Task {
    Task(id, d.title, d.description, d.completed, createdAt, d.dueDate, d.priority, d.labels, d.googleCalendarEventId)
  }

  /** A draft and a task agree on every draft field exactly when the task is the
      draft completed with the task's own id and creation time. */
  lemma DraftRoundTrip(d: Draft, t: Task)
    ensures ToDraft(FromDraft(d, t.id, t.createdAt)) == d
    ensures FromDraft(ToDraft(t), t.id, t.createdAt) == t
    ensures ToDraft(t) == d <==> FromDraft(d, t.id, t.createdAt) == t
  {
  }

  /** A draft object used where a `Partial<Task>` is expected: all seven of its
      keys are present (the calendar id possibly as `undefined`), `id` and
      `createdAt` are absent. */
  function DraftPatch(d: Draft): (p: Patch)
    ensures p.id.None? && p.createdAt.None?
    ensures p.googleCalendarEventId == Some(d.googleCalendarEventId)
  {
    Patch(None, Some(d.title), Some(d.description), Some(d.completed), None,
          Some(d.dueDate), Some(d.priority), Some(d.labels), Some(d.googleCalendarEventId))
  }

  /** `{ ...task, ...patch }`: every key present in the patch overrides. */
  function Merge(t: Task, p: Patch): Task {
    Task(
      if p.id.Some? then p.id.value else t.id,
      if p.title.Some? then p.title.value else t.title,
      if p.description.Some? then p.description.value else t.description,
      if p.completed.Some? then p.completed.value else t.completed,
      if p.createdAt.Some? then p.createdAt.value else t.createdAt,
      if p.dueDate.Some? then p.dueDate.value else t.dueDate,
      if p.priority.Some? then p.priority.value else t.priority,
      if p.labels.Some? then p.labels.value else t.labels,
      if p.googleCalendarEventId.Some? then p.googleCalendarEventId.value else t.googleCalendarEventId)
  }

  /** Merging an empty patch changes nothing, and merging a draft's patch sets
      every draft field while keeping the task's identity and creation time. */
  lemma MergeProperties(t: Task, d: Draft)
    ensures Merge(t, EmptyPatch) == t
    ensures Merge(t, DraftPatch(d)) == FromDraft(d, t.id, t.createdAt)
  {
  }
}
