/** src/App.tsx: the controller that switches between the task list and the
    task form and routes a submitted form to the store. */
module App {
  import opened TaskTypes
  import opened TaskContext
  import TaskForm
  import Text

  /** What the page shows: the form, opened on the task being edited if any,
      or the list of the store's tasks under the current search. */
  datatype Screen =
    | FormScreen(initialTask: Option<Task>, isEditing: bool)
    | ListScreen(tasks: seq<Task>, searchQuery: string)

  /** `TaskApp`: the modal state over the store it was given. */
  class TaskApp {
    const store: TaskProvider
    var isFormOpen: bool
    var taskToEdit: Option<Task>
    var searchQuery: string

    predicate Valid()
      reads this, store
    {
      store.Valid()
    }

    constructor (store: TaskProvider)
      requires store.Valid()
      ensures this.store == store && Valid()
      ensures !isFormOpen && taskToEdit.None? && searchQuery == ""
    {
      this.store := store;
      isFormOpen := false;
      taskToEdit := None;
      searchQuery := "";
    }

    /** The form-or-list choice: the list exactly when the form is closed;
        the form is in editing mode exactly when it has a task to edit. */
    function View(): (r: Screen)
      reads this, store
      ensures r.ListScreen? <==> !isFormOpen
      ensures r.FormScreen? ==> r.initialTask == taskToEdit && (r.isEditing <==> taskToEdit.Some?)
      ensures r.ListScreen? ==> r.tasks == store.tasks && r.searchQuery == searchQuery
    {
      if isFormOpen then FormScreen(taskToEdit, taskToEdit.Some?)
      else ListScreen(store.tasks, searchQuery)
    }

    /** `handleAddTask`: opens an empty form. */
    method HandleAddTask()
      modifies this
      ensures isFormOpen && taskToEdit.None? && searchQuery == old(searchQuery)
    {
      taskToEdit := None;
      isFormOpen := true;
    }

    /** `handleEditTask(task)`: opens the form on `task`. */
    method HandleEditTask(task: Task)
      modifies this
      ensures isFormOpen && taskToEdit == Some(task) && searchQuery == old(searchQuery)
    {
      taskToEdit := Some(task);
      isFormOpen := true;
    }

    /** `handleFormSubmit(taskData)`: an update of the task being edited, or an
        addition with the fresh id and creation time the store draws; then the
        form closes. */
    method HandleFormSubmit(taskData: Draft, newId: string, now: int)
      requires Valid()
      modifies this, store
      ensures Valid()
      ensures store.tasks == if old(taskToEdit).Some?
        then Update(old(store.tasks), old(taskToEdit).value.id, DraftPatch(taskData))
        else Add(old(store.tasks), taskData, newId, now)
      ensures !isFormOpen && taskToEdit.None? && searchQuery == old(searchQuery)
    {
      if taskToEdit.Some? {
        store.UpdateTask(taskToEdit.value.id, DraftPatch(taskData));
      } else {
        store.AddTask(taskData, newId, now);
      }
      isFormOpen := false;
      taskToEdit := None;
    }

    /** `handleFormCancel`: closes the form and leaves the store alone. */
    method HandleFormCancel()
      modifies this
      ensures !isFormOpen && taskToEdit.None? && searchQuery == old(searchQuery)
    {
      isFormOpen := false;
      taskToEdit := None;
    }

    /** The header's search box. */
    method SetSearchQuery(query: string)
      modifies this
      ensures searchQuery == query && isFormOpen == old(isFormOpen) && taskToEdit == old(taskToEdit)
    {
      searchQuery := query;
    }
  }

  /** An edit sets every field the form carries and keeps each edited task's
      id and creation time; the other tasks are untouched. */
  lemma EditKeepsIdentity(s: seq<Task>, id: string, data: Draft)
    ensures var r := Update(s, id, DraftPatch(data));
      && |r| == |s|
      && forall i :: 0 <= i < |s| ==>
        r[i] == if s[i].id == id then FromDraft(data, s[i].id, s[i].createdAt) else s[i]
  {
    forall i | 0 <= i < |s| && s[i].id == id
      ensures Merge(s[i], DraftPatch(data)) == FromDraft(data, s[i].id, s[i].createdAt)
    {
      MergeProperties(s[i], data);
    }
  }

  /** Updating a task with its own fields changes nothing, when ids are
      unique. */
  lemma UpdateWithOwnFields(s: seq<Task>, i: nat)
    requires i < |s| && UniqueIds(s)
    ensures Update(s, s[i].id, DraftPatch(ToDraft(s[i]))) == s
  {
    var t := s[i];
    EditKeepsIdentity(s, t.id, ToDraft(t));
    var r := Update(s, t.id, DraftPatch(ToDraft(t)));
    forall k | 0 <= k < |s| ensures r[k] == s[k] {
      if s[k].id == t.id {
        assert k == i;
        DraftRoundTrip(ToDraft(t), t);
      }
    }
  }

  /** A submit that hands back a task's own fields leaves the list as it was,
      when ids are unique. */
  lemma OwnDraftIsNoOp(s: seq<Task>, i: nat, outcome: TaskForm.Outcome)
    requires i < |s| && UniqueIds(s) && outcome == TaskForm.Submitted(ToDraft(s[i]))
    ensures outcome.Submitted? && Update(s, s[i].id, DraftPatch(outcome.draft)) == s
  {
    UpdateWithOwnFields(s, i);
  }

  /** Opening a task of the list in the form and submitting it unchanged
      leaves the list as it was, when ids are unique, the title is not blank
      and the due date falls on a whole local minute. */
  lemma UnchangedEditIsNoOp(s: seq<Task>, i: nat, off: int)
    requires i < |s| && UniqueIds(s)
    requires !Text.IsBlank(s[i].title)
    requires s[i].dueDate.Some? ==> (s[i].dueDate.value + off) % TaskForm.MinuteMs == 0
    ensures var outcome := TaskForm.Submit(TaskForm.Opened(Some(s[i]), off), Some(s[i]), off);
      && outcome.Submitted?
      && Update(s, s[i].id, DraftPatch(outcome.draft)) == s
  {
    TaskForm.EditRoundTrip(s[i], off);
    OwnDraftIsNoOp(s, i, TaskForm.Submit(TaskForm.Opened(Some(s[i]), off), Some(s[i]), off));
  }

  /** The same with the form's loading effect as written: the unchanged edit
      leaves the list as it was when the due date, if any, falls on the same
      calendar day in UTC as in the local zone. */
  lemma UnchangedEditAsWrittenIsNoOp(s: seq<Task>, i: nat, off: int)
    requires i < |s| && UniqueIds(s)
    requires !Text.IsBlank(s[i].title)
    requires s[i].dueDate.Some? ==> (s[i].dueDate.value + off) % TaskForm.MinuteMs == 0
    requires s[i].dueDate.Some? ==>
      TaskForm.IsoDatePart(s[i].dueDate.value) == TaskForm.LocalDatePart(s[i].dueDate.value, off)
    ensures var outcome := TaskForm.Submit(TaskForm.LoadAsWritten(TaskForm.Initial, s[i], off), Some(s[i]), off);
      && outcome.Submitted?
      && Update(s, s[i].id, DraftPatch(outcome.draft)) == s
  {
    TaskForm.EditAsWrittenRoundTrip(s[i], off);
    OwnDraftIsNoOp(s, i, TaskForm.Submit(TaskForm.LoadAsWritten(TaskForm.Initial, s[i], off), Some(s[i]), off));
  }

  /** An edit can clear the due date of a task that was synced to the
      calendar: the form keeps the event id, so the task ends up with an
      event id and no due date. */
  lemma EditCanUnsetDueDateOfSyncedTask(t: Task, data: Draft)
    requires Truthy(t.googleCalendarEventId) && t.dueDate.Some?
    requires data.dueDate.None? && data.googleCalendarEventId == t.googleCalendarEventId
    ensures var r := Update([t], t.id, DraftPatch(data))[0];
      r.dueDate.None? && Truthy(r.googleCalendarEventId) && r.id == t.id
  {
  }
}
