/** src/components/tasks/TaskItem.tsx: the decisions one task card makes. The
    current time `now` and whether the card is expanded are parameters. */
module TaskItem {
  import opened TaskTypes
  import opened Text
  import opened TaskContext

  /** `isOverdue()`: due strictly before now and not completed. */
  predicate IsOverdue(t: Task, now: int) {
    t.dueDate.Some? && t.dueDate.value < now && !t.completed
  }

  /** A task without a due date is never overdue, a completed one never is,
      and an overdue task stays overdue as time goes on. */
  lemma OverdueFacts(t: Task, now: int, later: int)
    ensures t.dueDate.None? ==> !IsOverdue(t, now)
    ensures t.completed ==> !IsOverdue(t, now)
    ensures now <= later && IsOverdue(t, now) ==> IsOverdue(t, later)
    ensures t.dueDate.Some? && !t.completed ==> (IsOverdue(t, now) <==> t.dueDate.value < now)
  {
  }

  /** Toggling an overdue task's completion takes it off the overdue list. */
  lemma ToggleClearsOverdue(s: seq<Task>, id: string, now: int, i: nat)
    requires i < |s| && s[i].id == id && IsOverdue(s[i], now)
    ensures !IsOverdue(Toggle(s, id)[i], now)
  {
  }

  /** The card's border: completed, overdue or plain. */
  datatype CardState = CompletedCard | OverdueCard | PlainCard

  function CardStateOf(t: Task, now: int): (r: CardState)
    ensures r == CompletedCard <==> t.completed
    ensures r == OverdueCard <==> IsOverdue(t, now)
    ensures r == PlainCard <==> !t.completed && !IsOverdue(t, now)
  {
    if t.completed then CompletedCard
    else if IsOverdue(t, now) then OverdueCard
    else PlainCard
  }

  /** The label chip: none without labels, the label itself when there is one,
      and "N labels" when there are more. */
  function LabelChip(labels: seq<string>): (r: Option<string>)
    ensures r.None? <==> labels == []
    ensures |labels| == 1 ==> r == Some(labels[0])
    ensures |labels| > 1 ==> r == Some(NatToString(|labels|) + " labels")
    ensures |labels| > 1 ==>
      (r.Some? && |r.value| > 7
       && r.value[|r.value| - 7..] == " labels"
       && DecimalValue(r.value[..|r.value| - 7]) == |labels|)
  {
    if labels == [] then None
    else if |labels| > 1 then
      var digits := NatToString(|labels|);
      var text := digits + " labels";
      assert text[..|text| - 7] == digits;
      Some(text)
    else Some(labels[0])
  }

  /** The "Synced" badge: shown when the task has a calendar event id. */
  predicate ShowsSyncedBadge(t: Task) {
    Truthy(t.googleCalendarEventId)
  }

  /** The "Add to Calendar" button, in the expanded card: only for a task with
      a due date and no calendar event id. */
  predicate OffersAddToCalendar(t: Task, expanded: bool) {
    expanded && t.dueDate.Some? && !Truthy(t.googleCalendarEventId)
  }

  /** The button is offered only where the badge is not, and a task it is
      offered for is one the sync will post an event for: the first task of
      the list with its id. */
  lemma AddToCalendarLeadsToEvent(s: seq<Task>, i: nat, timeZone: string)
    requires i < |s| && UniqueIds(s) && OffersAddToCalendar(s[i], true)
    ensures !ShowsSyncedBadge(s[i])
    ensures SyncEvent(s, s[i].id, timeZone).Some?
    ensures SyncEvent(s, s[i].id, timeZone).value.start.dateTime == s[i].dueDate.value
  {
    assert s[i] in s && s[i].id in Ids(s);
    var r := Find(s, s[i].id);
    assert r.Some? && r.value.id == s[i].id;
    var j :| FirstWithId(s, s[i].id, j) && s[j] == r.value;
    assert j == i;
  }

  /** Once a sync records a non-empty event id, the card shows the badge and
      no longer offers the button. */
  lemma SyncShowsBadge(s: seq<Task>, id: string, eventId: string, i: nat, expanded: bool)
    requires i < |s| && s[i].id == id && eventId != ""
    ensures ShowsSyncedBadge(RecordSync(s, id, Some(eventId))[i])
    ensures !OffersAddToCalendar(RecordSync(s, id, Some(eventId))[i], expanded)
  {
  }

  function PriorityName(p: Priority): string {
    match p
    case Low => "low"
    case Medium => "medium"
    case High => "high"
  }

  /** The priority chip's text: the name with its first letter upper-cased.
      Lower-casing it gives the name back. */
  function PriorityText(p: Priority): (r: string)
    ensures r == [UpperChar(PriorityName(p)[0])] + PriorityName(p)[1..]
    ensures |r| == |PriorityName(p)| && 'A' <= r[0] <= 'Z'
    ensures Lower(r) == PriorityName(p)
  {
    var name := PriorityName(p);
    [UpperChar(name[0])] + name[1..]
  }

  lemma PriorityTextInjective(p: Priority, q: Priority)
    ensures PriorityText(p) == PriorityText(q) <==> p == q
  {
    if PriorityText(p) == PriorityText(q) {
      assert Lower(PriorityText(p)) == Lower(PriorityText(q));
    }
  }
}
