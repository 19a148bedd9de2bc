/** src/components/tasks/TaskForm.tsx: the form's fields, their loading from
    the task being edited, the label list, title validation and the payload a
    submit hands on.

    The date input holds a calendar day and the time input a minute of the
    day; an empty input is `None`. A day is counted from 1970-01-01 and the
    browser's time zone is a fixed offset `off` in milliseconds, so the local
    wall-clock time of an instant `ts` is `ts + off`. */
module TaskForm {
  import opened TaskTypes
  import opened Seqs
  import opened Text

  const MinuteMs := 60_000
  const DayMs := 86_400_000

  /** The UTC calendar day of an instant: what `toISOString().split('T')[0]`
      reads. */
  function IsoDatePart(ts: int): int {
    ts / DayMs
  }

  /** The local calendar day of an instant. */
  function LocalDatePart(ts: int, off: int): int {
    (ts + off) / DayMs
  }

  /** The local time of day of an instant, to the minute: what
      `toTimeString().slice(0, 5)` reads. */
  function LocalMinuteOfDay(ts: int, off: int): (m: int)
    ensures 0 <= m < 1440
  {
    ((ts + off) % DayMs) / MinuteMs
  }

  /** `new Date(`${date}T${time}`)`: a date-time without an offset is read as
      local time. */
  function LocalInstant(day: int, minute: int, off: int): int {
    day * DayMs + minute * MinuteMs - off
  }

  /** Splitting an instant into its local day and local minute and reading the
      pair back gives the instant cut down to its minute. */
  lemma LocalSplitRoundTrip(ts: int, off: int)
    ensures LocalInstant(LocalDatePart(ts, off), LocalMinuteOfDay(ts, off), off) == ts - (ts + off) % MinuteMs
  {
    var u := ts + off;
    var q, r := u / DayMs, u % DayMs;
    var k, r2 := r / MinuteMs, r % MinuteMs;
    assert u == q * DayMs + r;
    assert r == k * MinuteMs + r2;
    MinuteRemainder(u, q * 1440 + k, r2);
  }

  lemma MinuteRemainder(u: int, a: int, b: int)
    requires u == a * MinuteMs + b && 0 <= b < MinuteMs
    ensures u % MinuteMs == b
  {
  }

  /** Reading the UTC day with the local time back as local time lands a whole
      number of days away: exactly by the difference between the UTC and the
      local calendar day. */
  lemma IsoSplitShift(ts: int, off: int)
    requires (ts + off) % MinuteMs == 0
    ensures LocalInstant(IsoDatePart(ts), LocalMinuteOfDay(ts, off), off)
      == ts + (IsoDatePart(ts) - LocalDatePart(ts, off)) * DayMs
  {
    LocalSplitRoundTrip(ts, off);
  }

  /** At UTC+05:30, 20:00 UTC on 1970-01-01 is 01:30 on 1970-01-02 locally:
      the UTC date with the local time reads back one day early. */
  lemma IsoSplitShiftsDueDate()
    ensures IsoDatePart(72_000_000) == 0 && LocalDatePart(72_000_000, 19_800_000) == 1
    ensures LocalInstant(IsoDatePart(72_000_000), LocalMinuteOfDay(72_000_000, 19_800_000), 19_800_000)
      == 72_000_000 - DayMs
  {
    IsoSplitShift(72_000_000, 19_800_000);
  }

  /** The form's fields. */
  datatype Fields = Fields(
    title: string,
    description: string,
    dueDate: Option<int>,
    dueTime: Option<int>,
    priority: Priority,
    labelInput: string,
    labels: seq<string>,
    titleError: string)

  /** The `useState` initial values. */
  const Initial := Fields("", "", None, None, Medium, "", [], "")

  /** The `useEffect` that loads the task being edited. The date input is
      filled with the local day of the due date, the evidently intended value
      (see `LoadAsWritten`). A task without a due date leaves both date inputs
      as they were. */
  function Load(f: Fields, t: Task, off: int): (r: Fields)
    ensures r.title == t.title && r.description == t.description
    ensures r.priority == t.priority && r.labels == t.labels
    ensures r.labelInput == f.labelInput && r.titleError == f.titleError
    ensures t.dueDate.Some? ==> (r.dueDate.Some? && r.dueTime.Some?
      && LocalInstant(r.dueDate.value, r.dueTime.value, off) == t.dueDate.value - (t.dueDate.value + off) % MinuteMs)
    ensures t.dueDate.Some? ==> 0 <= r.dueTime.value < 1440
    ensures t.dueDate.None? ==> r.dueDate == f.dueDate && r.dueTime == f.dueTime
  {
    var r := f.(title := t.title, description := t.description, priority := t.priority, labels := t.labels);
    match t.dueDate
    case None => r
    case Some(ts) =>
      LocalSplitRoundTrip(ts, off);
      r.(dueDate := Some(LocalDatePart(ts, off)), dueTime := Some(LocalMinuteOfDay(ts, off)))
  }

  /** The effect as the source writes it: the date input gets the UTC day. */
  function LoadAsWritten(f: Fields, t: Task, off: int): (r: Fields)
    ensures t.dueDate.Some? ==> r.dueDate == Some(IsoDatePart(t.dueDate.value))
    ensures r == Load(f, t, off).(dueDate := r.dueDate)
    ensures t.dueDate.None? ==> r == Load(f, t, off)
  {
    var r := Load(f, t, off);
    if t.dueDate.Some? then r.(dueDate := Some(IsoDatePart(t.dueDate.value))) else r
  }

  /** The form as first shown: loaded from the task being edited, if any,
      with the corrected loading effect. */
  function Opened(initialTask: Option<Task>, off: int): Fields {
    if initialTask.Some? then Load(Initial, initialTask.value, off) else Initial
  }

  /** Whether `addLabel` takes the label input: its trimmed text is not empty
      and not already a label. */
  predicate AcceptsLabel(labels: seq<string>, input: string) {
    Trim(input) != "" && Trim(input) !in labels
  }

  /** The label list after `addLabel`: the trimmed input appended when it is
      accepted, otherwise unchanged. It never gains a duplicate. */
  function WithLabel(labels: seq<string>, input: string): (r: seq<string>)
    ensures AcceptsLabel(labels, input) ==> r == labels + [Trim(input)]
    ensures !AcceptsLabel(labels, input) ==> r == labels
    ensures forall x :: x in r <==> x in labels || (x == Trim(input) && Trim(input) != "")
    ensures NoDuplicates(labels) ==> NoDuplicates(r)
  {
    if AcceptsLabel(labels, input) then labels + [Trim(input)] else labels
  }

  function IsNot(l: string): string -> bool {
    (x: string) => x != l
  }

  /** The label list after `removeLabel(l)`: every `l` gone, the others kept in
      order. */
  function WithoutLabel(labels: seq<string>, l: string): (r: seq<string>)
    ensures forall x :: x in r <==> x in labels && x != l
    ensures l !in labels ==> r == labels
    ensures NoDuplicates(labels) ==> NoDuplicates(r)
  {
    var r := Filter(IsNot(l), labels);
    assert NoDuplicates(labels) ==> NoDuplicates(r) by {
      if NoDuplicates(labels) {
        FilterNoDuplicates(IsNot(l), labels);
      }
    }
    assert l !in labels ==> r == labels by {
      if l !in labels {
        FilterKeepsAll(IsNot(l), labels);
      }
    }
    r
  }

  /** Removing a label takes out exactly its occurrences: as multisets, the
      result is the input with the count of `l` set to zero. */
  lemma {:induction false} WithoutLabelExact(labels: seq<string>, l: string)
    ensures multiset(WithoutLabel(labels, l)) == multiset(labels)[l := 0]
  {
    if labels != [] {
      WithoutLabelExact(labels[1..], l);
      assert labels == [labels[0]] + labels[1..];
    }
  }

  /** What a submit produces: an error message, or the draft passed to
      `onSubmit`. */
  datatype Outcome = Rejected(error: string) | Submitted(draft: Draft)

  /** `handleSubmit`. A blank title is refused. Otherwise the title goes out
      untrimmed, the due date is present only when both the date and the time
      are filled in and is read as local time, and `completed` and the
      calendar event id come from the task being edited. */
  function Submit(f: Fields, initialTask: Option<Task>, off: int): (r: Outcome)
    ensures r.Rejected? <==> IsBlank(f.title)
    ensures r.Rejected? ==> r.error == "Title is required"
    ensures r.Submitted? ==>
      (r.draft.title == f.title && r.draft.description == f.description
       && r.draft.priority == f.priority && r.draft.labels == f.labels)
    ensures r.Submitted? ==> (r.draft.dueDate.Some? <==> f.dueDate.Some? && f.dueTime.Some?)
    ensures r.Submitted? && r.draft.dueDate.Some? ==>
      r.draft.dueDate.value == LocalInstant(f.dueDate.value, f.dueTime.value, off)
    ensures r.Submitted? ==> r.draft.completed == (initialTask.Some? && initialTask.value.completed)
    ensures r.Submitted? ==>
      r.draft.googleCalendarEventId == (if initialTask.Some? then initialTask.value.googleCalendarEventId else None)
  {
    if IsBlank(f.title) then Rejected("Title is required")
    else
      var due := if f.dueDate.Some? && f.dueTime.Some?
        then Some(LocalInstant(f.dueDate.value, f.dueTime.value, off)) else None;
      Submitted(Draft(
        f.title, f.description,
        initialTask.Some? && initialTask.value.completed,
        due, f.priority, f.labels,
        if initialTask.Some? then initialTask.value.googleCalendarEventId else None))
  }

  /** Opening a task for editing and submitting without a change hands back
      the task's own fields, provided its title is not blank and its due date
      falls on a whole local minute. */
  lemma EditRoundTrip(t: Task, off: int)
    requires !IsBlank(t.title)
    requires t.dueDate.Some? ==> (t.dueDate.value + off) % MinuteMs == 0
    ensures Submit(Opened(Some(t), off), Some(t), off) == Submitted(ToDraft(t))
  {
    var f := Load(Initial, t, off);
    assert Opened(Some(t), off) == f;
    assert f.title == t.title && f.description == t.description;
    assert f.priority == t.priority && f.labels == t.labels;
    var r := Submit(f, Some(t), off);
    assert r.Submitted?;
    assert r == Submitted(ToDraft(t)) <==> r.draft.dueDate == t.dueDate;
    if t.dueDate.Some? {
      assert LocalInstant(f.dueDate.value, f.dueTime.value, off) == t.dueDate.value;
    }
  }

  /** With the effect as written, opening a task and submitting it unchanged
      hands back its own fields exactly when its due date, if any, falls on the
      same calendar day in UTC as in the local zone. */
  lemma EditAsWrittenRoundTrip(t: Task, off: int)
    requires !IsBlank(t.title)
    requires t.dueDate.Some? ==> (t.dueDate.value + off) % MinuteMs == 0
    ensures Submit(LoadAsWritten(Initial, t, off), Some(t), off) == Submitted(ToDraft(t))
      <==> (t.dueDate.Some? ==> IsoDatePart(t.dueDate.value) == LocalDatePart(t.dueDate.value, off))
  {
    var r := Submit(LoadAsWritten(Initial, t, off), Some(t), off);
    AsWrittenSubmitFields(t, off);
    assert r == Submitted(ToDraft(t)) <==> r.draft.dueDate == t.dueDate;
    if t.dueDate.Some? {
      IsoSplitReadsBack(t.dueDate.value, off);
    }
  }

  /** The as-written form submitted unchanged: the task's own fields, with
      the due date read back from the UTC day and the local minute. */
  lemma AsWrittenSubmitFields(t: Task, off: int)
    requires !IsBlank(t.title)
    ensures var r := Submit(LoadAsWritten(Initial, t, off), Some(t), off);
      && r.Submitted?
      && r.draft == ToDraft(t).(dueDate := r.draft.dueDate)
      && r.draft.dueDate == if t.dueDate.None? then None
           else Some(LocalInstant(IsoDatePart(t.dueDate.value), LocalMinuteOfDay(t.dueDate.value, off), off))
  {
    var f := LoadAsWritten(Initial, t, off);
    assert f.title == t.title && f.description == t.description;
    assert f.priority == t.priority && f.labels == t.labels;
    if t.dueDate.Some? {
      assert f.dueTime == Some(LocalMinuteOfDay(t.dueDate.value, off));
    }
  }

  /** The UTC day with the local minute reads back to the instant itself
      exactly when the UTC and the local calendar day agree. */
  lemma IsoSplitReadsBack(d: int, off: int)
    requires (d + off) % MinuteMs == 0
    ensures LocalInstant(IsoDatePart(d), LocalMinuteOfDay(d, off), off) == d
      <==> IsoDatePart(d) == LocalDatePart(d, off)
  {
    IsoSplitShift(d, off);
    var k := IsoDatePart(d) - LocalDatePart(d, off);
    assert k * DayMs == 0 <==> k == 0;
  }

  /** The same with the effect as written: in a zone east of UTC, a task due
      in the evening UTC comes back due a day earlier. */
  lemma EditAsWrittenShiftsDueDate(t: Task)
    requires !IsBlank(t.title) && t.dueDate == Some(72_000_000)
    ensures Submit(LoadAsWritten(Initial, t, 19_800_000), Some(t), 19_800_000).draft.dueDate
      == Some(72_000_000 - DayMs)
  {
    IsoSplitShiftsDueDate();
  }

  /** The component's state. `initialTask` and the zone offset are fixed for
      as long as the form is open. */
  class Form {
    var title: string
    var description: string
    var dueDate: Option<int>
    var dueTime: Option<int>
    var priority: Priority
    var labelInput: string
    var labels: seq<string>
    var titleError: string
    const initialTask: Option<Task>
    const off: int

    function Current(): Fields
      reads this
    {
      Fields(title, description, dueDate, dueTime, priority, labelInput, labels, titleError)
    }

    /** Mounting the form: the initial state, then the loading effect with
        the corrected date input (`Load`; the source's is `LoadAsWritten`). */
    constructor (initialTask: Option<Task>, off: int)
      ensures this.initialTask == initialTask && this.off == off
      ensures Current() == Opened(initialTask, off)
    {
      this.initialTask := initialTask;
      this.off := off;
      title, description, dueDate, dueTime := "", "", None, None;
      priority, labelInput, labels, titleError := Medium, "", [], "";
      if initialTask.Some? {
        var t := initialTask.value;
        title := t.title;
        description := t.description;
        if t.dueDate.Some? {
          dueDate := Some(LocalDatePart(t.dueDate.value, off));
          dueTime := Some(LocalMinuteOfDay(t.dueDate.value, off));
        }
        priority := t.priority;
        labels := t.labels;
      }
    }

    /** The title input's `onChange`: a title that is not blank clears the
        error. */
    method ChangeTitle(value: string)
      modifies this
      ensures Current() == old(Current()).(title := value,
        titleError := if IsBlank(value) then old(titleError) else "")
    {
      title := value;
      if !IsBlank(value) {
        titleError := "";
      }
    }

    method ChangeDescription(value: string)
      modifies this
      ensures Current() == old(Current()).(description := value)
    {
      description := value;
    }

    method ChangeDueDate(value: Option<int>)
      modifies this
      ensures Current() == old(Current()).(dueDate := value)
    {
      dueDate := value;
    }

    method ChangeDueTime(value: Option<int>)
      modifies this
      ensures Current() == old(Current()).(dueTime := value)
    {
      dueTime := value;
    }

    method ChangePriority(value: Priority)
      modifies this
      ensures Current() == old(Current()).(priority := value)
    {
      priority := value;
    }

    method ChangeLabel(value: string)
      modifies this
      ensures Current() == old(Current()).(labelInput := value)
    {
      labelInput := value;
    }

    /** `addLabel`: appends the trimmed input and clears the input when it is
        accepted; otherwise nothing changes. */
    method AddLabel()
      modifies this
      ensures labels == WithLabel(old(labels), old(labelInput))
      ensures Current() == old(Current()).(labels := labels,
        labelInput := if AcceptsLabel(old(labels), old(labelInput)) then "" else old(labelInput))
    {
      var trimmed := Trim(labelInput);
      if trimmed != "" && trimmed !in labels {
        labels := labels + [trimmed];
        labelInput := "";
      }
    }

    /** `removeLabel(l)`. */
    method RemoveLabel(l: string)
      modifies this
      ensures Current() == old(Current()).(labels := WithoutLabel(old(labels), l))
    {
      labels := Filter(IsNot(l), labels);
    }

    /** `handleSubmit`: a refused submit shows the error and hands nothing on;
        an accepted one hands on the draft and changes no field. */
    method HandleSubmit() returns (outcome: Outcome)
      modifies this
      ensures outcome == Submit(old(Current()), initialTask, off)
      ensures Current() == if outcome.Rejected? then old(Current()).(titleError := outcome.error) else old(Current())
    {
      if IsBlank(title) {
        titleError := "Title is required";
        return Rejected("Title is required");
      }
      var due := None;
      if dueDate.Some? && dueTime.Some? {
        due := Some(LocalInstant(dueDate.value, dueTime.value, off));
      }
      var completed := initialTask.Some? && initialTask.value.completed;
      var eventId := if initialTask.Some? then initialTask.value.googleCalendarEventId else None;
      outcome := Submitted(Draft(title, description, completed, due, priority, labels, eventId));
    }
  }
}
