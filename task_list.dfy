/** src/components/tasks/TaskList.tsx: the displayed list (search, then status
    filter, then sort), the completion statistics and the empty-list message. */
module TaskList {
  import opened TaskTypes
  import opened Seqs
  import opened Text
  import opened Sorting

  datatype StatusFilter = All | Active | Completed

  datatype SortKey = Newest | Oldest | DueDate | ByPriority

  /** The search test of one task against a query that is already lower case. */
  predicate MatchesQuery(t: Task, query: string) {
    || Includes(Lower(t.title), query)
    || Includes(Lower(t.description), query)
    || exists l :: l in t.labels && Includes(Lower(l), query)
  }

  /** The callback given to `result.filter` for a lower-cased query. */
  function QueryTest(query: string): Task -> bool {
    (t: Task) => MatchesQuery(t, query)
  }

  /** The search step: all tasks for an empty query, otherwise those whose
      title, description or some label contains the query, ignoring case. */
  function Search(tasks: seq<Task>, searchQuery: string): (r: seq<Task>)
    ensures searchQuery == "" ==> r == tasks
    ensures searchQuery != "" ==> forall t :: t in r <==> t in tasks && MatchesQuery(t, Lower(searchQuery))
  {
    if searchQuery == "" then tasks else Filter(QueryTest(Lower(searchQuery)), tasks)
  }

  predicate IsActive(t: Task) {
    !t.completed
  }

  predicate IsDone(t: Task) {
    t.completed
  }

  predicate PassesStatus(filter: StatusFilter, t: Task) {
    match filter
    case All => true
    case Active => IsActive(t)
    case Completed => IsDone(t)
  }

  /** The status step: `all` keeps everything, the other two keep the tasks
      whose `completed` flag matches. */
  function ApplyStatus(filter: StatusFilter, s: seq<Task>): (r: seq<Task>)
    ensures forall t :: t in r <==> t in s && PassesStatus(filter, t)
    ensures filter == All ==> r == s
  {
    match filter
    case All => s
    case Active => Filter(IsActive, s)
    case Completed => Filter(IsDone, s)
  }

  /** `active` and `completed` split the list: each task lands in exactly one
      of the two, and together they hold the whole of `all`. */
  lemma StatusPartition(s: seq<Task>)
    ensures multiset(ApplyStatus(Active, s)) + multiset(ApplyStatus(Completed, s)) == multiset(ApplyStatus(All, s))
    ensures |ApplyStatus(Active, s)| + |ApplyStatus(Completed, s)| == |s|
    ensures forall t :: t in s ==> (t in ApplyStatus(Active, s) <==> t !in ApplyStatus(Completed, s))
  {
    FilterPartition(IsActive, IsDone, s);
  }

  /** `priorityOrder`. */
  function PriorityRank(p: Priority): int {
    match p
    case High => 0
    case Medium => 1
    case Low => 2
  }

  /** The comparator handed to `result.sort`, with the `dueDate` case as the
      source has it. It is not a consistent comparator (see
      `DueDateComparatorInconsistent`). */
  function CompareAsWritten(key: SortKey, a: Task, b: Task): int {
    match key
    case Newest => b.createdAt - a.createdAt
    case Oldest => a.createdAt - b.createdAt
    case DueDate =>
      if a.dueDate.None? then 1
      else if b.dueDate.None? then -1
      else a.dueDate.value - b.dueDate.value
    case ByPriority => PriorityRank(a.priority) - PriorityRank(b.priority)
  }

  /** Two undated tasks each compare greater than the other, so ECMAScript
      leaves the order `sort` produces implementation-defined. */
  lemma DueDateComparatorInconsistent(a: Task, b: Task)
    requires a.dueDate.None? && b.dueDate.None?
    ensures CompareAsWritten(DueDate, a, b) > 0 && CompareAsWritten(DueDate, b, a) > 0
  {
  }

  /** The comparator with two undated tasks comparing equal: the evidently
      intended one. It answers `< 0` exactly when the source's does. */
  function Compare(key: SortKey, a: Task, b: Task): (r: int)
    ensures (r < 0) == (CompareAsWritten(key, a, b) < 0)
    ensures key == DueDate && a.dueDate.None? && b.dueDate.None? ==> r == 0
  {
    if key == DueDate && a.dueDate.None? && b.dueDate.None? then 0
    else CompareAsWritten(key, a, b)
  }

  /** The corrected comparator is antisymmetric for every key, which the
      source's is not for two undated tasks. */
  lemma CompareIsAntisymmetric(key: SortKey, a: Task, b: Task)
    ensures Compare(key, a, b) == -Compare(key, b, a)
    ensures Compare(key, a, a) == 0
  {
  }

  /** `a` goes strictly before `b`: the only question the engine's stable
      sort asks of the comparator. */
  predicate Before(key: SortKey, a: Task, b: Task) {
    Compare(key, a, b) < 0
  }

  function Less(key: SortKey): (Task, Task) -> bool {
    (a: Task, b: Task) => Before(key, a, b)
  }

  /** `Before` is a strict weak order for every key: irreflexive, asymmetric
      and negatively transitive, so the sort it drives is well defined. */
  lemma LessIsStrictWeakOrder(key: SortKey)
    ensures StrictWeakOrder(Less(key))
  {
    forall a: Task, b: Task, c: Task | Less(key)(a, c) ensures Less(key)(a, b) || Less(key)(b, c) {
      assert Before(key, a, c);
    }
  }

  /** What a list ordered by each key looks like: newest first, oldest first,
      dated tasks by ascending due date ahead of every undated task, and
      high before medium before low. */
  lemma SortedMeaning(key: SortKey, s: seq<Task>)
    requires Sorted(Less(key), s)
    ensures key == Newest ==> forall i, j :: 0 <= i < j < |s| ==> s[i].createdAt >= s[j].createdAt
    ensures key == Oldest ==> forall i, j :: 0 <= i < j < |s| ==> s[i].createdAt <= s[j].createdAt
    ensures key == DueDate ==> forall i, j :: 0 <= i < j < |s| && s[j].dueDate.Some? ==>
      (s[i].dueDate.Some? && s[i].dueDate.value <= s[j].dueDate.value)
    ensures key == ByPriority ==> forall i, j :: 0 <= i < j < |s| ==>
      PriorityRank(s[i].priority) <= PriorityRank(s[j].priority)
  {
    forall i, j | 0 <= i < j < |s| ensures !Before(key, s[j], s[i]) {
      assert !Less(key)(s[j], s[i]);
    }
  }

  /** `filteredTasks` as a value: search, then status, then sort. */
  function View(tasks: seq<Task>, searchQuery: string, filter: StatusFilter, sort: SortKey): seq<Task> {
    SortBy(Less(sort), ApplyStatus(filter, Search(tasks, searchQuery)))
  }

  /** What the displayed list is: a permutation of the searched and filtered
      tasks, ordered by the chosen key. */
  lemma ViewIsSortedPermutation(tasks: seq<Task>, searchQuery: string, filter: StatusFilter, sort: SortKey)
    ensures multiset(View(tasks, searchQuery, filter, sort)) == multiset(ApplyStatus(filter, Search(tasks, searchQuery)))
    ensures forall t :: t in View(tasks, searchQuery, filter, sort) <==>
      t in tasks && PassesStatus(filter, t) && (searchQuery == "" || MatchesQuery(t, Lower(searchQuery)))
    ensures Sorted(Less(sort), View(tasks, searchQuery, filter, sort))
  {
    var kept := ApplyStatus(filter, Search(tasks, searchQuery));
    var v := View(tasks, searchQuery, filter, sort);
    SortByPermutation(Less(sort), kept);
    LessIsStrictWeakOrder(sort);
    SortBySorted(Less(sort), kept);
    forall t ensures t in v <==> t in kept {
      assert t in v <==> t in multiset(v);
      assert t in kept <==> t in multiset(kept);
    }
  }

  function HasPriority(p: Priority): Task -> bool {
    (t: Task) => t.priority == p
  }

  function CreatedAt(at: int): Task -> bool {
    (t: Task) => t.createdAt == at
  }

  /** Sorting by priority keeps tasks of equal priority in their prior order. */
  lemma PrioritySortIsStable(s: seq<Task>, p: Priority)
    ensures Filter(HasPriority(p), SortBy(Less(ByPriority), s)) == Filter(HasPriority(p), s)
  {
    SortByStable(Less(ByPriority), s, HasPriority(p));
  }

  /** Sorting newest or oldest first keeps tasks created at the same instant
      in their prior order. */
  lemma CreationSortIsStable(s: seq<Task>, key: SortKey, at: int)
    requires key == Newest || key == Oldest
    ensures Filter(CreatedAt(at), SortBy(Less(key), s)) == Filter(CreatedAt(at), s)
  {
    SortByStable(Less(key), s, CreatedAt(at));
  }

  /** Sorting by due date keeps the undated tasks in their prior order. */
  lemma UndatedStayInOrder(s: seq<Task>)
    ensures Filter(IsUndated, SortBy(Less(DueDate), s)) == Filter(IsUndated, s)
  {
    SortByStable(Less(DueDate), s, IsUndated);
  }

  predicate IsUndated(t: Task) {
    t.dueDate.None?
  }

  /** `filteredTasks`: copies the list, narrows it by the search and the
      status filter, and sorts the copy in place. */
  method FilteredTasks(tasks: seq<Task>, searchQuery: string, filter: StatusFilter, sort: SortKey)
    returns (result: seq<Task>)
    ensures result == View(tasks, searchQuery, filter, sort)
  {
    var current := tasks;
    if searchQuery != "" {
      var query := Lower(searchQuery);
      current := Filter(QueryTest(query), current);
    }
    if filter == Active {
      current := Filter(IsActive, current);
    } else if filter == Completed {
      current := Filter(IsDone, current);
    }
    var copy := new Task[|current|](i requires 0 <= i < |current| => current[i]);
    assert copy[..] == current;
    SortInPlace(copy, Less(sort));
    result := copy[..];
  }

  datatype Stats = Stats(completed: nat, total: nat, percentage: nat)

  /** `getCompletionStats`, over all tasks. The percentage is the ratio rounded
      to the nearest integer, halves up (`Math.round`). */
  function CompletionStats(tasks: seq<Task>): (r: Stats)
    ensures r.completed == |Filter(IsDone, tasks)| && r.total == |tasks|
    ensures r.completed + |Filter(IsActive, tasks)| == r.total
    ensures r.percentage <= 100
    ensures r.total == 0 ==> r.percentage == 0
    ensures r.total > 0 ==> -(r.total as int) <= 200 * r.completed - 2 * r.percentage * r.total < r.total
  {
    FilterPartition(IsDone, IsActive, tasks);
    var c, t := |Filter(IsDone, tasks)|, |tasks|;
    if t == 0 then Stats(c, t, 0)
    else
      RoundedPercentage(c, t);
      Stats(c, t, (200 * c + t) / (2 * t))
  }

  lemma RoundedPercentage(c: nat, t: nat)
    requires c <= t && t > 0
    ensures var p := (200 * c + t) / (2 * t);
      0 <= p <= 100 && -(t as int) <= 200 * c - 2 * p * t < t
  {
    var n, d := 200 * c + t, 2 * t;
    var p, rem := n / d, n % d;
    assert n == d * p + rem && 0 <= rem < d;
    assert 2 * p * t == d * p;
    if p > 100 {
      MulMono(d, 101, p);
    }
    if p < 0 {
      MulMono(d, p, -1);
    }
  }

  lemma MulMono(d: int, a: int, b: int)
    requires d >= 0 && a <= b
    ensures d * a <= d * b
  {
    assert d * b - d * a == d * (b - a);
  }

  /** The message shown when the list comes out empty. */
  function EmptyStateMessage(searchQuery: string, filter: StatusFilter): string {
    if searchQuery != "" then "No tasks match your search"
    else if filter == Completed then "No completed tasks yet"
    else if filter == Active then "No active tasks - time to add some!"
    else "No tasks - add your first one!"
  }

  /** The empty-list message tells the truth about why the list is empty: a
      search that nothing matched, no completed task, no active task, or no
      task at all. */
  lemma EmptyStateMessageIsTruthful(tasks: seq<Task>, searchQuery: string, filter: StatusFilter, sort: SortKey)
    requires View(tasks, searchQuery, filter, sort) == []
    ensures var m := EmptyStateMessage(searchQuery, filter);
      && (searchQuery != "" ==>
            (m == "No tasks match your search"
             && forall t :: t in tasks && PassesStatus(filter, t) ==> !MatchesQuery(t, Lower(searchQuery))))
      && (searchQuery == "" && filter == Completed ==>
            (m == "No completed tasks yet" && forall t :: t in tasks ==> !t.completed))
      && (searchQuery == "" && filter == Active ==>
            (m == "No active tasks - time to add some!" && forall t :: t in tasks ==> t.completed))
      && (searchQuery == "" && filter == All ==> (m == "No tasks - add your first one!" && tasks == []))
  {
    ViewIsSortedPermutation(tasks, searchQuery, filter, sort);
  }

  /** The due-date example: an undated task created first and a dated task
      created later come out dated first. */
  lemma DueDateExample(a: Task, b: Task)
    requires a.dueDate.None? && b.dueDate.Some?
    ensures View([a, b], "", All, DueDate) == [b, a]
  {
    var lt := Less(DueDate);
    assert ApplyStatus(All, Search([a, b], "")) == [a, b];
    assert [a, b][..1] == [a] && [a][..0] == [];
    assert SortBy(lt, [a]) == Insert(lt, [], a) == [a];
    assert lt(b, a);
    assert Insert(lt, [a], b) == Insert(lt, [], b) + [a];
  }
}
