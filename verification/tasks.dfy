/** The todo list: tasks with a priority, an optional category and due date,
    a completed flag, and the four list filters. */
module Tasks {
  import opened Seqs
  import opened Text

  /** Priorities are the strings the form offers ("low", "medium", "high");
      a stored task may carry any string. */
  const HighPriority: string := "high"

  datatype Task = Task(
    id: int,
    title: string,
    description: string,
    priority: string,
    category: string,
    dueDate: Option<int>,
    completed: bool,
    createdAt: int)

  datatype TaskForm = TaskForm(
    title: string,
    description: string,
    priority: string,
    category: string,
    dueDate: Option<int>)

  function TaskId(t: Task): int {
    t.id
  }

  /** `addTask`: a blank title is ignored; otherwise the form's fields, the
      trimmed title and `completed = false` make a task appended at the end. */
  function AddTask(ts: seq<Task>, form: TaskForm, id: int, now: int): (r: seq<Task>)
    ensures IsBlank(form.title) ==> r == ts
    ensures !IsBlank(form.title) ==>
      && |r| == |ts| + 1
      && r[..|ts|] == ts
      && r[|ts|] == Task(id, Trim(form.title), form.description, form.priority, form.category, form.dueDate, false, now)
      && r[|ts|].title != []
  {
    var title := Trim(form.title);
    if title == "" then ts
    else ts + [Task(id, title, form.description, form.priority, form.category, form.dueDate, false, now)]
  }

  /** `toggleTask`: flips `completed` on the tasks with the given id. */
  function ToggleTask(ts: seq<Task>, id: int): (r: seq<Task>)
    ensures |r| == |ts|
    ensures forall i :: 0 <= i < |ts| && ts[i].id != id ==> r[i] == ts[i]
    ensures forall i :: 0 <= i < |ts| && ts[i].id == id ==>
      r[i] == ts[i].(completed := !ts[i].completed)
  {
    seq(|ts|, i requires 0 <= i < |ts| =>
      if ts[i].id == id then ts[i].(completed := !ts[i].completed) else ts[i])
  }

  /** Toggling the same task twice restores the list. */
  lemma ToggleTaskTwice(ts: seq<Task>, id: int)
    ensures ToggleTask(ToggleTask(ts, id), id) == ts
  {
    var r := ToggleTask(ToggleTask(ts, id), id);
    forall i | 0 <= i < |ts| ensures r[i] == ts[i] {
    }
  }

  /** `deleteTask`. */
  function DeleteTask(ts: seq<Task>, id: int): (r: seq<Task>)
    ensures forall t :: t in r <==> t in ts && t.id != id
    ensures forall t :: multiset(r)[t] == if t.id != id then multiset(ts)[t] else 0
    ensures IsSubsequence(r, ts)
  {
    WithoutId(ts, TaskId, id)
  }

  lemma DeleteTaskIdempotent(ts: seq<Task>, id: int)
    ensures DeleteTask(DeleteTask(ts, id), id) == DeleteTask(ts, id)
  {
    WithoutIdIdempotent(ts, TaskId, id);
  }

  // ---------------------------------------------------------------------
  // Filters.

  datatype TaskFilter = All | CompletedOnly | Pending | HighPriorityPending

  /** Whether the list shows task `t` under filter `f`. */
  predicate Shown(f: TaskFilter, t: Task) {
    match f
    case All => true
    case CompletedOnly => t.completed
    case Pending => !t.completed
    case HighPriorityPending => t.priority == HighPriority && !t.completed
  }

  function ShownBy(f: TaskFilter): Task -> bool {
    t => Shown(f, t)
  }

  /** `filteredTasks`: the tasks the filter shows, in list order. */
  function FilterTasks(ts: seq<Task>, f: TaskFilter): (r: seq<Task>)
    ensures forall t :: t in r <==> t in ts && Shown(f, t)
    ensures forall t :: multiset(r)[t] == if Shown(f, t) then multiset(ts)[t] else 0
    ensures IsSubsequence(r, ts)
  {
    FilterIsSubsequence(ts, ShownBy(f));
    FilterMultiset(ts, ShownBy(f));
    Filter(ts, ShownBy(f))
  }

  /** 'all' shows the list unchanged. */
  lemma FilterAllIsIdentity(ts: seq<Task>)
    ensures FilterTasks(ts, All) == ts
  {
    FilterKeepsAll(ts, ShownBy(All));
  }

  /** 'completed' and 'pending' split the list: together they hold every
      task exactly as often as the list does. */
  lemma CompletedPendingPartition(ts: seq<Task>)
    ensures |FilterTasks(ts, CompletedOnly)| + |FilterTasks(ts, Pending)| == |ts|
    ensures multiset(FilterTasks(ts, CompletedOnly)) + multiset(FilterTasks(ts, Pending)) == multiset(ts)
  {
    FilterPartition(ts, ShownBy(CompletedOnly), ShownBy(Pending));
  }

  /** 'high' is 'pending' narrowed to high priority. */
  lemma HighWithinPending(ts: seq<Task>)
    ensures FilterTasks(ts, HighPriorityPending) == Filter(FilterTasks(ts, Pending), ShownBy(HighPriorityPending))
    ensures |FilterTasks(ts, HighPriorityPending)| <= |FilterTasks(ts, Pending)|
    ensures forall t :: t in FilterTasks(ts, HighPriorityPending) ==> t in FilterTasks(ts, Pending) && t.priority == HighPriority
  {
    FilterMonotone(ts, ShownBy(HighPriorityPending), ShownBy(Pending));
  }

  /** The header's "completed of total" count. */
  function CompletedCount(ts: seq<Task>): (n: nat)
    ensures n <= |ts|
    ensures n == |ts| <==> forall t :: t in ts ==> t.completed
    ensures n == 0 <==> forall t :: t in ts ==> !t.completed
  {
    CompletedPendingPartition(ts);
    NonEmptyHasMember(FilterTasks(ts, Pending));
    NonEmptyHasMember(FilterTasks(ts, CompletedOnly));
    |FilterTasks(ts, CompletedOnly)|
  }
}
