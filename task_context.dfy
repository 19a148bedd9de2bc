/** src/context/TaskContext.tsx: the reducer over the ordered task list, the
    guard and event of the calendar sync, and the provider that holds the list
    and mirrors it into its storage slot after every change. */
module TaskContext {
  import opened TaskTypes
  import opened Seqs

  /** `TaskAction`. The id and creation time that ADD_TASK draws from
      `generateId()` and `new Date()` travel in the action here. */
  datatype Action =
    | AddTask(payload: Draft, id: string, createdAt: int)
    | UpdateTask(id: string, task: Patch)
    | DeleteTask(id: string)
    | ToggleComplete(id: string)
    | SyncCalendar(id: string, eventId: Option<string>)

  /** One hour in milliseconds, the length of a synced calendar event. */
  const HourMs := 3_600_000

  function Ids(s: seq<Task>): set<string> {
    set t | t in s :: t.id
  }

  predicate UniqueIds(s: seq<Task>) {
    forall i, j :: 0 <= i < j < |s| ==> s[i].id != s[j].id
  }

  /** ADD_TASK: `[...state, { ...payload, id, createdAt }]`. */
  function Add(state: seq<Task>, payload: Draft, id: string, createdAt: int): (r: seq<Task>)
    ensures |r| == |state| + 1 && r[..|state|] == state
    ensures ToDraft(r[|state|]) == payload
    ensures r[|state|].id == id && r[|state|].createdAt == createdAt
  {
    state + [FromDraft(payload, id, createdAt)]
  }

  /** UPDATE_TASK: every task with the id gets the patch merged in. */
  function Update(state: seq<Task>, id: string, patch: Patch): (r: seq<Task>)
    ensures |r| == |state|
    ensures forall i :: 0 <= i < |state| ==>
      r[i] == if state[i].id == id then Merge(state[i], patch) else state[i]
  {
    Map((t: Task) => if t.id == id then Merge(t, patch) else t, state)
  }

  /** DELETE_TASK: the tasks with another id, in their order. */
  function Delete(state: seq<Task>, id: string): (r: seq<Task>)
    ensures forall t :: t in r <==> t in state && t.id != id
    ensures id !in Ids(r)
  {
    Filter((t: Task) => t.id != id, state)
  }

  /** TOGGLE_COMPLETE: flips `completed` on every task with the id. */
  function Toggle(state: seq<Task>, id: string): (r: seq<Task>)
    ensures |r| == |state|
    ensures forall i :: 0 <= i < |state| ==>
      r[i] == if state[i].id == id then state[i].(completed := !state[i].completed) else state[i]
  {
    Map((t: Task) => if t.id == id then t.(completed := !t.completed) else t, state)
  }

  /** SYNC_CALENDAR: sets `googleCalendarEventId` on every task with the id. */
  function RecordSync(state: seq<Task>, id: string, eventId: Option<string>): (r: seq<Task>)
    ensures |r| == |state|
    ensures forall i :: 0 <= i < |state| ==>
      r[i] == if state[i].id == id then state[i].(googleCalendarEventId := eventId) else state[i]
  {
    Map((t: Task) => if t.id == id then t.(googleCalendarEventId := eventId) else t, state)
  }

  /** `reducer(state, action)`. */
  function Reduce(state: seq<Task>, action: Action): seq<Task> {
    match action
    case AddTask(payload, id, createdAt) => Add(state, payload, id, createdAt)
    case UpdateTask(id, patch) => Update(state, id, patch)
    case DeleteTask(id) => Delete(state, id)
    case ToggleComplete(id) => Toggle(state, id)
    case SyncCalendar(id, eventId) => RecordSync(state, id, eventId)
  }

  /** DELETE_TASK keeps the order of what it keeps: deleting from a
      concatenation deletes from each part. */
  lemma DeleteKeepsOrder(a: seq<Task>, b: seq<Task>, id: string)
    ensures Delete(a + b, id) == Delete(a, id) + Delete(b, id)
  {
    FilterConcat((t: Task) => t.id != id, a, b);
  }

  /** Every action except ADD_TASK leaves the list as it is when no task has
      the action's id. */
  lemma UnknownIdIsNoOp(state: seq<Task>, action: Action)
    requires !action.AddTask? && action.id !in Ids(state)
    ensures Reduce(state, action) == state
  {
    assert forall i :: 0 <= i < |state| ==> state[i].id != action.id by {
      forall i | 0 <= i < |state| ensures state[i].id != action.id {
        assert state[i] in state;
      }
    }
    if action.DeleteTask? {
      FilterKeepsAll((t: Task) => t.id != action.id, state);
    }
  }

  /** TOGGLE_COMPLETE twice with the same id restores the list. */
  lemma ToggleInvolution(state: seq<Task>, id: string)
    ensures Toggle(Toggle(state, id), id) == state
  {
    var r := Toggle(Toggle(state, id), id);
    assert forall i :: 0 <= i < |state| ==> r[i] == state[i];
  }

  /** UPDATE_TASK on the matching task overwrites exactly the fields present in
      the patch; the other tasks are untouched. */
  lemma UpdateMergesFields(state: seq<Task>, id: string, patch: Patch, i: nat)
    requires i < |state|
    ensures var t, u := state[i], Update(state, id, patch)[i];
      && (t.id != id ==> u == t)
      && (t.id == id ==>
           && (patch.id.None? ==> u.id == t.id)
           && (patch.id.Some? ==> u.id == patch.id.value)
           && (patch.title.None? ==> u.title == t.title)
           && (patch.title.Some? ==> u.title == patch.title.value)
           && (patch.description.None? ==> u.description == t.description)
           && (patch.description.Some? ==> u.description == patch.description.value)
           && (patch.completed.None? ==> u.completed == t.completed)
           && (patch.completed.Some? ==> u.completed == patch.completed.value)
           && (patch.dueDate.None? ==> u.dueDate == t.dueDate)
           && (patch.dueDate.Some? ==> u.dueDate == patch.dueDate.value)
           && (patch.priority.None? ==> u.priority == t.priority)
           && (patch.priority.Some? ==> u.priority == patch.priority.value)
           && (patch.labels.None? ==> u.labels == t.labels)
           && (patch.labels.Some? ==> u.labels == patch.labels.value)
           && (patch.createdAt.None? ==> u.createdAt == t.createdAt)
           && (patch.createdAt.Some? ==> u.createdAt == patch.createdAt.value)
           && (patch.googleCalendarEventId.None? ==> u.googleCalendarEventId == t.googleCalendarEventId)
           && (patch.googleCalendarEventId.Some? ==> u.googleCalendarEventId == patch.googleCalendarEventId.value))
  {
  }

  /** The store keeps ids unique when every id ADD_TASK draws is fresh and no
      UPDATE_TASK patch gives a task the id of another. */
  predicate KeepsIdsFresh(state: seq<Task>, action: Action) {
    match action
    case AddTask(_, id, _) => id !in Ids(state)
    case UpdateTask(id, patch) => patch.id.Some? ==> patch.id.value == id || patch.id.value !in Ids(state)
    case _ => true
  }

  lemma ReducePreservesUniqueIds(state: seq<Task>, action: Action)
    requires UniqueIds(state) && KeepsIdsFresh(state, action)
    ensures UniqueIds(Reduce(state, action))
  {
    var r := Reduce(state, action);
    match action
    case AddTask(payload, id, createdAt) =>
      forall i, j | 0 <= i < j < |r| ensures r[i].id != r[j].id {
        if j == |state| {
          assert r[i] == state[i] && state[i] in state;
        } else {
          assert r[i] == state[i] && r[j] == state[j];
        }
      }
    case UpdateTask(id, patch) =>
      forall i, j | 0 <= i < j < |r| ensures r[i].id != r[j].id {
        assert state[i] in state && state[j] in state;
      }
    case DeleteTask(id) =>
      DeleteKeepsIdsUnique(state, id);
    case ToggleComplete(id) =>
    case SyncCalendar(id, eventId) =>
  }

  /** The ids of the list that DELETE_TASK returns stay unique. */
  lemma {:induction false} DeleteKeepsIdsUnique(state: seq<Task>, id: string)
    requires UniqueIds(state)
    ensures UniqueIds(Delete(state, id))
  {
    if state != [] {
      var tail := state[1..];
      assert UniqueIds(tail) by {
        forall i, j | 0 <= i < j < |tail| ensures tail[i].id != tail[j].id {
          assert tail[i] == state[i + 1] && tail[j] == state[j + 1];
        }
      }
      DeleteKeepsIdsUnique(tail, id);
      assert state == [state[0]] + tail;
      DeleteKeepsOrder([state[0]], tail, id);
      if state[0].id != id {
        assert Delete([state[0]], id) == [state[0]];
        var r := Delete(state, id);
        forall j | 0 < j < |r| ensures r[0].id != r[j].id {
          assert r[j] in Delete(tail, id);
          var k :| 0 <= k < |tail| && tail[k] == r[j];
          assert tail[k] == state[k + 1];
        }
      } else {
        assert Delete([state[0]], id) == [];
      }
    }
  }

  /** UPDATE_TASK with a patch that names neither `id` nor `createdAt`, and
      TOGGLE_COMPLETE and SYNC_CALENDAR, keep every task's id and creation
      time in place. */
  lemma EditsKeepIdentity(state: seq<Task>, action: Action)
    requires action.UpdateTask? ==> action.task.id.None? && action.task.createdAt.None?
    requires !action.AddTask? && !action.DeleteTask?
    ensures var r := Reduce(state, action);
      && |r| == |state|
      && forall i :: 0 <= i < |state| ==> r[i].id == state[i].id && r[i].createdAt == state[i].createdAt
  {
  }

  /** `i` is the position of the first task with the id. */
  predicate FirstWithId(s: seq<Task>, id: string, i: int) {
    0 <= i < |s| && s[i].id == id && forall k :: 0 <= k < i ==> s[k].id != id
  }

  /** `tasks.find(t => t.id === id)`: the first task with the id. */
  function Find(s: seq<Task>, id: string): (r: Option<Task>)
    ensures r.None? <==> id !in Ids(s)
    ensures r.Some? ==> r.value.id == id && exists i :: FirstWithId(s, id, i) && s[i] == r.value
  {
    if s == [] then None
    else if s[0].id == id then
      assert FirstWithId(s, id, 0) && s[0] in s;
      Some(s[0])
    else
      var r := Find(s[1..], id);
      assert id in Ids(s) <==> id in Ids(s[1..]) by {
        assert s == [s[0]] + s[1..];
        assert forall t :: t in s <==> t == s[0] || t in s[1..];
      }
      assert r.Some? ==> exists i :: FirstWithId(s, id, i) && s[i] == r.value by {
        if r.Some? {
          var i :| FirstWithId(s[1..], id, i) && s[1..][i] == r.value;
          assert FirstWithId(s, id, i + 1);
        }
      }
      r
  }

  /** The guard and event of `syncWithGoogleCalendar`: nothing when the task is
      missing or has no due date; otherwise an event from the due date to one
      hour later in the caller's time zone, titled and described as the task. */
  function SyncEvent(s: seq<Task>, taskId: string, timeZone: string): (r: Option<CalendarEvent>)
    ensures r.Some? <==> taskId in Ids(s) && Find(s, taskId).value.dueDate.Some?
    ensures r.Some? ==>
      var t := Find(s, taskId).value;
      && r.value.summary == t.title && r.value.description == t.description
      && r.value.start == EventTime(t.dueDate.value, timeZone)
      && r.value.end == EventTime(t.dueDate.value + HourMs, timeZone)
  {
    match Find(s, taskId)
    case None => None
    case Some(t) =>
      if t.dueDate.None? then None
      else Some(CalendarEvent(t.title, t.description,
                              EventTime(t.dueDate.value, timeZone),
                              EventTime(t.dueDate.value + HourMs, timeZone)))
  }

  /** `TaskProvider`: the reducer's state and the storage slot it is written to. */
  class TaskProvider {
    var tasks: seq<Task>
    /** The list stored in the `taskmanager-tasks` slot, as the effect last
        wrote it. */
    var persisted: seq<Task>

    predicate Valid()
      reads this
    {
      persisted == tasks
    }

    /** Starts from the stored list when the slot holds one, else from `[]`. */
    constructor (stored: Option<seq<Task>>)
      ensures Valid()
      ensures tasks == if stored.Some? then stored.value else []
    {
      tasks := if stored.Some? then stored.value else [];
      persisted := tasks;
    }

    /** `dispatch(action)`, followed by the effect that writes the new list to
        storage. */
    method Dispatch(action: Action)
      modifies this
      ensures Valid()
      ensures tasks == Reduce(old(tasks), action)
    {
      tasks := Reduce(tasks, action);
      persisted := tasks;
    }

    method AddTask(payload: Draft, id: string, createdAt: int)
      modifies this
      ensures Valid()
      ensures tasks == Add(old(tasks), payload, id, createdAt)
      ensures UniqueIds(old(tasks)) && id !in Ids(old(tasks)) ==> UniqueIds(tasks)
    {
      if UniqueIds(tasks) && id !in Ids(tasks) {
        ReducePreservesUniqueIds(tasks, Action.AddTask(payload, id, createdAt));
      }
      Dispatch(Action.AddTask(payload, id, createdAt));
    }

    method UpdateTask(id: string, patch: Patch)
      modifies this
      ensures Valid()
      ensures tasks == Update(old(tasks), id, patch)
    {
      Dispatch(Action.UpdateTask(id, patch));
    }

    method DeleteTask(id: string)
      modifies this
      ensures Valid()
      ensures tasks == Delete(old(tasks), id)
    {
      Dispatch(Action.DeleteTask(id));
    }

    method ToggleComplete(id: string)
      modifies this
      ensures Valid()
      ensures tasks == Toggle(old(tasks), id)
    {
      Dispatch(Action.ToggleComplete(id));
    }

    /** `syncWithGoogleCalendar(taskId)`. The consent step and the HTTP round
        trip are parameters: `granted` says whether an access token came back,
        `replied` whether both `fetch` and reading the response body resolved,
        and `eventId` is the `id` of that body (absent when it carried none).
        Returns the event that was posted, if any; the id is recorded only
        after a post that got a reply. */
    method SyncWithGoogleCalendar(taskId: string, timeZone: string, granted: bool, replied: bool,
                                  eventId: Option<string>)
      returns (posted: Option<CalendarEvent>)
      requires Valid()
      modifies this
      ensures Valid()
      ensures posted == if granted then SyncEvent(old(tasks), taskId, timeZone) else None
      ensures tasks == if posted.Some? && replied then RecordSync(old(tasks), taskId, eventId) else old(tasks)
    {
      var event := SyncEvent(tasks, taskId, timeZone);
      if event.None? || !granted {
        return None;
      }
      posted := event;
      if replied {
        Dispatch(SyncCalendar(taskId, eventId));
      }
    }
  }
}
