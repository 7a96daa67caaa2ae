/** The analytics view: it mirrors the tasks, habits and links collections
    from local storage (refreshing one of them when another tab writes its
    key) and derives task statistics, habit statistics, a seven-day
    productivity trend, a per-category breakdown and completion rates. */
module Reports {
  import opened Seqs
  import opened Text
  import Tasks
  import Habits
  import Links
  import Values
  import Elapsed
  import opened Storage

  // ---------------------------------------------------------------------
  // Loading and cross-tab refresh.

  /** The outcome of `JSON.parse` followed by `Array.isArray` on a stored
      text; turning array elements into records is the decoder's business. */
  datatype Decoded<T> = ParseError | NotArray | Items(items: seq<T>)

  datatype Decoders = Decoders(
    tasks: string -> Decoded<Tasks.Task>,
    habits: string -> Decoded<Habits.Habit>,
    links: string -> Decoded<Links.Link>)

  datatype Collections = Collections(
    tasks: seq<Tasks.Task>,
    habits: seq<Habits.Habit>,
    links: seq<Links.Link>)

  const NoCollections := Collections([], [], [])

  /** A `storage` event: the key written (absent when storage was cleared)
      and its new text (absent when the key was removed). */
  datatype StorageEvent = StorageEvent(key: Option<string>, newValue: Option<string>)

  /** A text that `if (text)` accepts: present and non-empty. */
  predicate Present(v: Option<string>) {
    v.Some? && v.value != ""
  }

  /** `handleStorageChange`: the collection named by the event's key is
      replaced when the new text is present and decodes to an array; in
      every other case, a parse error included, nothing changes. */
  function HandleStorageChange(c: Collections, e: StorageEvent, d: Decoders): (r: Collections)
    ensures r.tasks != c.tasks ==>
      e.key == Some(TasksKey) && Present(e.newValue) && d.tasks(e.newValue.value) == Items(r.tasks)
    ensures r.habits != c.habits ==>
      e.key == Some(HabitsKey) && Present(e.newValue) && d.habits(e.newValue.value) == Items(r.habits)
    ensures r.links != c.links ==>
      e.key == Some(LinksKey) && Present(e.newValue) && d.links(e.newValue.value) == Items(r.links)
    ensures Present(e.newValue) && e.key == Some(TasksKey) && d.tasks(e.newValue.value).Items? ==>
      r == c.(tasks := d.tasks(e.newValue.value).items)
    ensures Present(e.newValue) && e.key == Some(HabitsKey) && d.habits(e.newValue.value).Items? ==>
      r == c.(habits := d.habits(e.newValue.value).items)
    ensures Present(e.newValue) && e.key == Some(LinksKey) && d.links(e.newValue.value).Items? ==>
      r == c.(links := d.links(e.newValue.value).items)
  {
    if !Present(e.newValue) || e.key.None? then c
    else
      var text := e.newValue.value;
      if e.key.value == TasksKey then
        (match d.tasks(text) case Items(ts) => c.(tasks := ts) case _ => c)
      else if e.key.value == HabitsKey then
        (match d.habits(text) case Items(hs) => c.(habits := hs) case _ => c)
      else if e.key.value == LinksKey then
        (match d.links(text) case Items(ls) => c.(links := ls) case _ => c)
      else c
  }

  /** The stored text under `key`, when `if (saved)` accepts it. */
  function Saved(store: map<string, string>, key: string): Option<string> {
    if key in store && store[key] != "" then Some(store[key]) else None
  }

  predicate FailsToParse<T>(text: Option<string>, decode: string -> Decoded<T>) {
    text.Some? && decode(text.value).ParseError?
  }

  /** Some stored collection text fails to parse. */
  predicate AnyParseError(store: map<string, string>, d: Decoders) {
    || FailsToParse(Saved(store, TasksKey), d.tasks)
    || FailsToParse(Saved(store, HabitsKey), d.habits)
    || FailsToParse(Saved(store, LinksKey), d.links)
  }

  /** The text is present and parses to an array. */
  predicate HoldsArray<T>(text: Option<string>, decode: string -> Decoded<T>) {
    text.Some? && decode(text.value).Items?
  }

  function ItemsOrEmpty<T>(text: Option<string>, decode: string -> Decoded<T>): seq<T> {
    if text.Some? && decode(text.value).Items? then decode(text.value).items else []
  }

  /** The mount-time load: each collection takes its stored array, keeps
      its initial `[]` when the key is missing, empty or not an array, and
      a parse error in any of the three empties all three (the handler's
      `catch` sets all of them). */
  function LoadCollections(store: map<string, string>, d: Decoders): (r: Collections)
    ensures AnyParseError(store, d) ==> r == NoCollections
    ensures !AnyParseError(store, d) ==>
      && (HoldsArray(Saved(store, TasksKey), d.tasks) ==> r.tasks == d.tasks(store[TasksKey]).items)
      && (HoldsArray(Saved(store, HabitsKey), d.habits) ==> r.habits == d.habits(store[HabitsKey]).items)
      && (HoldsArray(Saved(store, LinksKey), d.links) ==> r.links == d.links(store[LinksKey]).items)
    ensures !HoldsArray(Saved(store, TasksKey), d.tasks) ==> r.tasks == []
    ensures !HoldsArray(Saved(store, HabitsKey), d.habits) ==> r.habits == []
    ensures !HoldsArray(Saved(store, LinksKey), d.links) ==> r.links == []
  {
    var tasks, habits, links := Saved(store, TasksKey), Saved(store, HabitsKey), Saved(store, LinksKey);
    if FailsToParse(tasks, d.tasks) || FailsToParse(habits, d.habits) || FailsToParse(links, d.links) then
      NoCollections
    else
      Collections(ItemsOrEmpty(tasks, d.tasks), ItemsOrEmpty(habits, d.habits), ItemsOrEmpty(links, d.links))
  }

  /** Another tab writing a collection that parses to an array leaves this
      view exactly as reloading the page after the write would, provided
      no stored collection fails to parse before or after. */
  lemma StorageEventMatchesReload(store: map<string, string>, d: Decoders, key: string, text: string)
    requires key == TasksKey || key == HabitsKey || key == LinksKey
    requires text != ""
    requires !AnyParseError(store, d) && !AnyParseError(store[key := text], d)
    requires key == TasksKey ==> d.tasks(text).Items?
    requires key == HabitsKey ==> d.habits(text).Items?
    requires key == LinksKey ==> d.links(text).Items?
    ensures HandleStorageChange(LoadCollections(store, d), StorageEvent(Some(key), Some(text)), d)
         == LoadCollections(store[key := text], d)
  {
    var after := store[key := text];
    assert Saved(after, key) == Some(text);
    assert forall k :: k != key ==> Saved(after, k) == Saved(store, k);
  }

  // ---------------------------------------------------------------------
  // Rounding.

  /** `Math.round(a / b)` for `a >= 0`, `b > 0`: the nearest integer,
      halves rounding up. */
  function RoundDiv(a: nat, b: nat): (r: nat)
    requires b > 0
    ensures b * (2 * r - 1) <= 2 * a < b * (2 * r + 1)
  {
    var r := (2 * a + b) / (2 * b);
    assert 2 * b * r <= 2 * a + b < 2 * b * r + 2 * b;
    r
  }

  /** A quotient no larger than `k` rounds to at most `k`. */
  lemma RoundDivAtMost(a: nat, b: nat, k: nat)
    requires b > 0 && a <= b * k
    ensures RoundDiv(a, b) <= k
  {
    var r := RoundDiv(a, b);
    if r > k {
      MulMonotone(b, 2 * k + 1, 2 * r - 1);
    }
  }

  lemma MulMonotone(b: nat, x: int, y: int)
    requires x <= y
    ensures b * x <= b * y
  {
  }

  /** `total > 0 ? Math.round((part / total) * 100) : 0`. */
  function Percentage(part: nat, total: nat): (r: nat)
    ensures total == 0 ==> r == 0
    ensures total > 0 ==> total * (2 * r - 1) <= 200 * part < total * (2 * r + 1)
    ensures part <= total ==> r <= 100
    ensures part == 0 ==> r == 0
  {
    if total > 0 then
      PercentageAtMostHundred(part, total);
      RoundDiv(100 * part, total)
    else 0
  }

  lemma PercentageAtMostHundred(part: nat, total: nat)
    requires total > 0
    ensures part <= total ==> RoundDiv(100 * part, total) <= 100
  {
    if part <= total {
      RoundDivAtMost(100 * part, total, 100);
    }
  }

  // ---------------------------------------------------------------------
  // Task statistics.

  datatype TaskStats = TaskStats(total: nat, completed: nat, highPriority: nat, overdue: nat)

  /** Due strictly before now and not completed (no due date: not overdue). */
  predicate IsOverdue(t: Tasks.Task, now: int) {
    t.dueDate.Some? && t.dueDate.value < now && !t.completed
  }

  function Overdue(now: int): Tasks.Task -> bool {
    t => IsOverdue(t, now)
  }

  function IsHighPriority(): Tasks.Task -> bool {
    (t: Tasks.Task) => t.priority == Tasks.HighPriority
  }

  /** `getTaskStats`: the completed count is the one the todo list shows,
      and an overdue task is never completed, so overdue and completed
      tasks together are at most all tasks. */
  function GetTaskStats(ts: seq<Tasks.Task>, now: int): (s: TaskStats)
    ensures s.total == |ts|
    ensures s.completed == Tasks.CompletedCount(ts)
    ensures s.highPriority == |Filter(ts, IsHighPriority())|
    ensures s.overdue == |Filter(ts, Overdue(now))|
    ensures s.completed <= s.total && s.highPriority <= s.total
    ensures s.overdue + s.completed <= s.total
    ensures s.overdue <= |Tasks.FilterTasks(ts, Tasks.Pending)|
  {
    var completed := |Tasks.FilterTasks(ts, Tasks.CompletedOnly)|;
    FilterDisjoint(ts, Overdue(now), Tasks.ShownBy(Tasks.CompletedOnly));
    FilterMonotone(ts, Overdue(now), Tasks.ShownBy(Tasks.Pending));
    TaskStats(|ts|, completed, Count(ts, IsHighPriority()), Count(ts, Overdue(now)))
  }

  /** The statistics agree with the todo list's own filters: the total
      splits into the 'completed' and 'pending' lists, the high-priority
      count covers at least the 'high' list, and the overdue tasks are the
      'pending' tasks due before now. */
  lemma TaskStatsMatchFilters(ts: seq<Tasks.Task>, now: int)
    ensures var s := GetTaskStats(ts, now);
      && s.total == s.completed + |Tasks.FilterTasks(ts, Tasks.Pending)|
      && |Tasks.FilterTasks(ts, Tasks.HighPriorityPending)| <= s.highPriority
      && Filter(ts, Overdue(now)) == Filter(Tasks.FilterTasks(ts, Tasks.Pending), Overdue(now))
  {
    Tasks.CompletedPendingPartition(ts);
    FilterMonotone(ts, Tasks.ShownBy(Tasks.HighPriorityPending), IsHighPriority());
    FilterMonotone(ts, Overdue(now), Tasks.ShownBy(Tasks.Pending));
  }

  // ---------------------------------------------------------------------
  // Habit statistics.

  predicate PositiveTargets(hs: seq<Habits.Habit>) {
    forall h :: h in hs ==> h.target >= 1
  }

  function MetOn(day: Habits.Day): Habits.Habit -> bool {
    h => Habits.Met(h, day)
  }

  /** The `reduce` adding up the streaks, in list order. */
  function StreakSum(hs: seq<Habits.Habit>, today: Habits.Day): nat
    requires PositiveTargets(hs)
  {
    if hs == [] then 0
    else
      assert hs[|hs| - 1] in hs;
      StreakSum(hs[..|hs| - 1], today) + Habits.Streak(hs[|hs| - 1], today)
  }

  datatype HabitStats = HabitStats(total: nat, completedToday: nat, averageStreak: nat)

  /** `getHabitStats`: the per-habit streak is the habit tracker's streak
      (the loop is the same, so it needs every target to be positive); the
      average rounds the mean streak and is 0 without habits. */
  function GetHabitStats(hs: seq<Habits.Habit>, today: Habits.Day): (s: HabitStats)
    requires PositiveTargets(hs)
    ensures s.total == |hs|
    ensures s.completedToday <= s.total
    ensures s.completedToday == Count(hs, MetOn(today))
    ensures s.total == 0 ==> s.averageStreak == 0
    ensures s.total > 0 ==>
      s.total * (2 * s.averageStreak - 1) <= 2 * StreakSum(hs, today) < s.total * (2 * s.averageStreak + 1)
  {
    var avg := if |hs| > 0 then RoundDiv(StreakSum(hs, today), |hs|) else 0;
    HabitStats(|hs|, Count(hs, MetOn(today)), avg)
  }

  /** A habit is met today exactly when its streak is running, so
      "completed today" counts the habits with a non-zero streak. */
  lemma CompletedTodayCountsRunningStreaks(hs: seq<Habits.Habit>, today: Habits.Day)
    requires PositiveTargets(hs)
    ensures GetHabitStats(hs, today).completedToday == Count(hs, Streaking(today))
  {
    FilterCongruent(hs, MetOn(today), Streaking(today));
  }

  function Streaking(today: Habits.Day): Habits.Habit -> bool {
    (h: Habits.Habit) => h.target >= 1 && Habits.Streak(h, today) > 0
  }

  lemma {:induction false} StreakSumAtMost(hs: seq<Habits.Habit>, today: Habits.Day, m: nat)
    requires PositiveTargets(hs)
    requires forall h :: h in hs ==> Habits.Streak(h, today) <= m
    ensures StreakSum(hs, today) <= |hs| * m
  {
    if hs != [] {
      assert forall h :: h in hs[..|hs| - 1] ==> h in hs;
      assert hs[|hs| - 1] in hs;
      StreakSumAtMost(hs[..|hs| - 1], today, m);
      assert (|hs| - 1) * m + m == |hs| * m;
    }
  }

  /** The average streak never exceeds the longest streak. */
  lemma AverageStreakAtMostLongest(hs: seq<Habits.Habit>, today: Habits.Day, m: nat)
    requires PositiveTargets(hs)
    requires forall h :: h in hs ==> Habits.Streak(h, today) <= m
    ensures GetHabitStats(hs, today).averageStreak <= m
  {
    if |hs| > 0 {
      StreakSumAtMost(hs, today, m);
      RoundDivAtMost(StreakSum(hs, today), |hs|, m);
    }
  }

  // ---------------------------------------------------------------------
  // Productivity trend.

  /** The calendar day of a millisecond timestamp (local offset folded into
      the timestamp); floor division, so times before the epoch fall on
      earlier days. */
  function DayOf(ms: int): Habits.Day {
    ms / Elapsed.DayMs
  }

  predicate CompletedOnDay(t: Tasks.Task, day: Habits.Day) {
    t.completed && DayOf(t.createdAt) == day
  }

  function CompletedOn(day: Habits.Day): Tasks.Task -> bool {
    t => CompletedOnDay(t, day)
  }

  datatype TrendDay = TrendDay(day: Habits.Day, tasks: nat, habits: nat, total: nat)

  /** One day of the trend: completed tasks created that day, habits met
      that day, and their sum. */
  function TrendFor(ts: seq<Tasks.Task>, hs: seq<Habits.Habit>, date: Habits.Day): (d: TrendDay)
    ensures d.day == date
    ensures d.tasks == Count(ts, CompletedOn(date)) && d.tasks <= Tasks.CompletedCount(ts)
    ensures d.habits == Count(hs, MetOn(date)) && d.habits <= |hs|
    ensures d.total == d.tasks + d.habits
  {
    FilterMonotone(ts, CompletedOn(date), Tasks.ShownBy(Tasks.CompletedOnly));
    var completedTasks := Count(ts, CompletedOn(date));
    var completedHabits := Count(hs, MetOn(date));
    TrendDay(date, completedTasks, completedHabits, completedTasks + completedHabits)
  }

  function TaskSum(days: seq<TrendDay>): nat {
    if days == [] then 0 else TaskSum(days[..|days| - 1]) + days[|days| - 1].tasks
  }

  /** `getProductivityTrend`: the seven days ending today, oldest first;
      each counts the completed tasks created that day and the habits met
      that day. A completed task falls on one day only, so the task counts
      of the week add up to at most the completed tasks. */
  method ProductivityTrend(ts: seq<Tasks.Task>, hs: seq<Habits.Habit>, today: Habits.Day)
    returns (days: seq<TrendDay>)
    ensures |days| == 7
    ensures forall k :: 0 <= k < 7 ==> days[k].day == today - 6 + k
    ensures forall k :: 0 <= k < 7 ==>
      && days[k].tasks == Count(ts, CompletedOn(days[k].day))
      && days[k].habits == Count(hs, MetOn(days[k].day))
      && days[k].total == days[k].tasks + days[k].habits
      && days[k].habits <= |hs|
    ensures TaskSum(days) <= Tasks.CompletedCount(ts)
  {
    days := [];
    var i := 6;
    while i >= 0
      invariant -1 <= i <= 6
      invariant |days| == 6 - i
      invariant forall k :: 0 <= k < |days| ==> days[k] == TrendFor(ts, hs, today - 6 + k)
    {
      var prev := days;
      days := days + [TrendFor(ts, hs, today - i)];
      assert forall k :: 0 <= k < |prev| ==> days[k] == prev[k];
      i := i - 1;
    }
    TrendDays(ts, hs, today, days);
    TrendTaskSum(ts, hs, today, days);
  }

  lemma TrendDays(ts: seq<Tasks.Task>, hs: seq<Habits.Habit>, today: Habits.Day, days: seq<TrendDay>)
    requires |days| == 7
    requires forall k :: 0 <= k < |days| ==> days[k] == TrendFor(ts, hs, today - 6 + k)
    ensures forall k :: 0 <= k < 7 ==> days[k].day == today - 6 + k
    ensures forall k :: 0 <= k < 7 ==>
      && days[k].tasks == Count(ts, CompletedOn(days[k].day))
      && days[k].habits == Count(hs, MetOn(days[k].day))
      && days[k].total == days[k].tasks + days[k].habits
      && days[k].habits <= |hs|
  {
    forall k | 0 <= k < 7 ensures
      && days[k].day == today - 6 + k
      && days[k].tasks == Count(ts, CompletedOn(days[k].day))
      && days[k].habits == Count(hs, MetOn(days[k].day))
      && days[k].total == days[k].tasks + days[k].habits
      && days[k].habits <= |hs|
    {
      var d := TrendFor(ts, hs, today - 6 + k);
      assert days[k] == d;
    }
  }

  /** The task counts of seven consecutive trend days add up to at most
      the number of completed tasks. */
  lemma TrendTaskSum(ts: seq<Tasks.Task>, hs: seq<Habits.Habit>, today: Habits.Day, days: seq<TrendDay>)
    requires |days| == 7
    requires forall k :: 0 <= k < |days| ==> days[k] == TrendFor(ts, hs, today - 6 + k)
    ensures TaskSum(days) <= Tasks.CompletedCount(ts)
  {
    TrendDays(ts, hs, today, days);
    TaskSumByDay(ts, days);
    ConsecutiveDaysDistinct(days, today);
    CompletedTasksOnDistinctDays(ts, DaysOf(days));
  }

  lemma ConsecutiveDaysDistinct(days: seq<TrendDay>, today: Habits.Day)
    requires forall k :: 0 <= k < |days| ==> days[k].day == today - 6 + k
    ensures NoDuplicates(DaysOf(days))
  {
    forall a, b | 0 <= a < b < |days| ensures DaysOf(days)[a] != DaysOf(days)[b] {
      assert DaysOf(days)[a] == today - 6 + a;
    }
  }

  lemma {:induction false} TaskSumByDay(ts: seq<Tasks.Task>, days: seq<TrendDay>)
    requires forall k :: 0 <= k < |days| ==> days[k].tasks == Count(ts, CompletedOn(days[k].day))
    ensures TaskSum(days) == DaysTaskSum(ts, DaysOf(days))
  {
    if days != [] {
      var prefix := days[..|days| - 1];
      assert DaysOf(days)[..|days| - 1] == DaysOf(prefix);
      TaskSumByDay(ts, prefix);
    }
  }

  function DaysOf(days: seq<TrendDay>): (ds: seq<Habits.Day>)
    ensures |ds| == |days|
    ensures forall k :: 0 <= k < |days| ==> ds[k] == days[k].day
  {
    seq(|days|, k requires 0 <= k < |days| => days[k].day)
  }

  /** The completed-task counts of the days `ds`, summed. */
  function DaysTaskSum(ts: seq<Tasks.Task>, ds: seq<Habits.Day>): nat {
    if ds == [] then 0 else DaysTaskSum(ts, ds[..|ds| - 1]) + Count(ts, CompletedOn(ds[|ds| - 1]))
  }

  /** How many of the days `ds` count task `t`. */
  function DaysCounting(ds: seq<Habits.Day>, t: Tasks.Task): nat {
    if ds == [] then 0
    else DaysCounting(ds[..|ds| - 1], t) + if CompletedOnDay(t, ds[|ds| - 1]) then 1 else 0
  }

  lemma {:induction false} DaysCountingAbsent(ds: seq<Habits.Day>, t: Tasks.Task)
    requires !t.completed || DayOf(t.createdAt) !in ds
    ensures DaysCounting(ds, t) == 0
  {
    if ds != [] {
      assert forall d :: d in ds[..|ds| - 1] ==> d in ds;
      assert ds[|ds| - 1] in ds;
      DaysCountingAbsent(ds[..|ds| - 1], t);
    }
  }

  /** Distinct days count a task at most once, and only when completed. */
  lemma {:induction false} DaysCountingAtMostOnce(ds: seq<Habits.Day>, t: Tasks.Task)
    requires NoDuplicates(ds)
    ensures DaysCounting(ds, t) <= if t.completed then 1 else 0
  {
    if ds != [] {
      var rest := ds[..|ds| - 1];
      assert NoDuplicates(rest) by {
        forall a, b | 0 <= a < b < |rest| ensures rest[a] != rest[b] {
          assert rest[a] == ds[a] && rest[b] == ds[b];
        }
      }
      if CompletedOnDay(t, ds[|ds| - 1]) {
        assert DayOf(t.createdAt) !in rest by {
          forall k | 0 <= k < |rest| ensures rest[k] != ds[|ds| - 1] {
            assert rest[k] == ds[k];
          }
        }
        DaysCountingAbsent(rest, t);
      } else {
        DaysCountingAtMostOnce(rest, t);
      }
    }
  }

  /** Summing day by day equals summing task by task. */
  lemma {:induction false} DaysTaskSumByTask(ts: seq<Tasks.Task>, ds: seq<Habits.Day>)
    ensures ts == [] ==> DaysTaskSum(ts, ds) == 0
    ensures ts != [] ==> DaysTaskSum(ts, ds) == DaysCounting(ds, ts[0]) + DaysTaskSum(ts[1..], ds)
  {
    if ds != [] {
      DaysTaskSumByTask(ts, ds[..|ds| - 1]);
      if ts != [] {
        assert ts == [ts[0]] + ts[1..];
      }
    }
  }

  lemma {:induction false} CompletedTasksOnDistinctDays(ts: seq<Tasks.Task>, ds: seq<Habits.Day>)
    requires NoDuplicates(ds)
    ensures DaysTaskSum(ts, ds) <= Tasks.CompletedCount(ts)
  {
    DaysTaskSumByTask(ts, ds);
    if ts != [] {
      CompletedTasksOnDistinctDays(ts[1..], ds);
      DaysCountingAtMostOnce(ds, ts[0]);
      CompletedCountHead(ts);
    }
  }

  lemma CompletedCountHead(ts: seq<Tasks.Task>)
    requires ts != []
    ensures Tasks.CompletedCount(ts) == (if ts[0].completed then 1 else 0) + Tasks.CompletedCount(ts[1..])
  {
  }

  // ---------------------------------------------------------------------
  // Category breakdown.

  const UncategorizedName: string := "Uncategorized"

  /** `task.category || 'Uncategorized'`. */
  function CategoryName(t: Tasks.Task): string {
    if t.category == "" then UncategorizedName else t.category
  }

  /** One accumulator entry of the `categories` object. */
  datatype Group = Group(name: string, total: nat, completed: nat)

  function Names(gs: seq<Group>): (ns: seq<string>)
    ensures |ns| == |gs|
    ensures forall i :: 0 <= i < |gs| ==> ns[i] == gs[i].name
  {
    seq(|gs|, i requires 0 <= i < |gs| => gs[i].name)
  }

  function GroupTotal(gs: seq<Group>): nat {
    if gs == [] then 0 else GroupTotal(gs[..|gs| - 1]) + gs[|gs| - 1].total
  }

  predicate WellFormedGroups(gs: seq<Group>) {
    && NoDuplicates(Names(gs))
    && forall i :: 0 <= i < |gs| ==> 1 <= gs[i].total && gs[i].completed <= gs[i].total
  }

  function Counted(g: Group, done: bool): Group {
    g.(total := g.total + 1, completed := g.completed + if done then 1 else 0)
  }

  /** One step of the `forEach`: the task's group is counted up, or created
      at the end of the key order when new. */
  function Bump(gs: seq<Group>, name: string, done: bool): (r: seq<Group>)
    requires WellFormedGroups(gs)
    ensures WellFormedGroups(r)
    ensures name in Names(gs) ==> |r| == |gs| && forall i :: 0 <= i < |gs| ==>
      r[i] == if gs[i].name == name then Counted(gs[i], done) else gs[i]
    ensures name !in Names(gs) ==> r == gs + [Group(name, 1, if done then 1 else 0)]
  {
    if name in Names(gs) then
      var r := seq(|gs|, i requires 0 <= i < |gs| => if gs[i].name == name then Counted(gs[i], done) else gs[i]);
      assert Names(r) == Names(gs);
      r
    else
      var r := gs + [Group(name, 1, if done then 1 else 0)];
      assert Names(r) == Names(gs) + [name];
      r
  }

  /** A bump adds one to the total of all groups. */
  lemma BumpTotal(gs: seq<Group>, name: string, done: bool)
    requires WellFormedGroups(gs)
    ensures GroupTotal(Bump(gs, name, done)) == GroupTotal(gs) + 1
  {
    var r := Bump(gs, name, done);
    if name in Names(gs) {
      var k :| 0 <= k < |gs| && Names(gs)[k] == name;
      forall i | 0 <= i < |gs| && i != k ensures r[i].total == gs[i].total {
        assert Names(gs)[i] != Names(gs)[k];
      }
      GroupTotalOneMore(gs, r, k);
    } else {
      assert r[..|r| - 1] == gs;
    }
  }

  lemma {:induction false} GroupTotalOneMore(gs: seq<Group>, r: seq<Group>, k: nat)
    requires |r| == |gs| && k < |gs|
    requires r[k].total == gs[k].total + 1
    requires forall i :: 0 <= i < |gs| && i != k ==> r[i].total == gs[i].total
    ensures GroupTotal(r) == GroupTotal(gs) + 1
  {
    var n := |gs|;
    if n - 1 == k {
      GroupTotalSame(gs[..n - 1], r[..n - 1]);
    } else {
      GroupTotalOneMore(gs[..n - 1], r[..n - 1], k);
    }
  }

  lemma {:induction false} GroupTotalSame(gs: seq<Group>, r: seq<Group>)
    requires |r| == |gs|
    requires forall i :: 0 <= i < |gs| ==> r[i].total == gs[i].total
    ensures GroupTotal(r) == GroupTotal(gs)
  {
    if gs != [] {
      GroupTotalSame(gs[..|gs| - 1], r[..|r| - 1]);
    }
  }

  /** The `categories` object after the `forEach`, in key order. */
  function Tally(ts: seq<Tasks.Task>): (gs: seq<Group>)
    ensures WellFormedGroups(gs)
    ensures GroupTotal(gs) == |ts|
  {
    if ts == [] then []
    else
      var last := ts[|ts| - 1];
      var prior := Tally(ts[..|ts| - 1]);
      BumpTotal(prior, CategoryName(last), last.completed);
      Bump(prior, CategoryName(last), last.completed)
  }

  function InGroup(name: string): Tasks.Task -> bool {
    t => CategoryName(t) == name
  }

  function DoneInGroup(name: string): Tasks.Task -> bool {
    t => CategoryName(t) == name && t.completed
  }

  /** Every task's category name has a group, and every group is the
      category name of some task. */
  lemma {:induction false} TallyNames(ts: seq<Tasks.Task>)
    ensures forall t :: t in ts ==> CategoryName(t) in Names(Tally(ts))
    ensures forall n :: n in Names(Tally(ts)) ==> exists t :: t in ts && CategoryName(t) == n
  {
    if ts != [] {
      var prefix, last := ts[..|ts| - 1], ts[|ts| - 1];
      assert ts == prefix + [last];
      TallyNames(prefix);
      var gs := Tally(prefix);
      var name := CategoryName(last);
      var r := Tally(ts);
      assert r == Bump(gs, name, last.completed);
      assert Names(r) == Names(gs) || Names(r) == Names(gs) + [name];
      assert name in Names(r);
      forall n | n in Names(r) ensures exists t :: t in ts && CategoryName(t) == n {
        if n in Names(gs) {
          var t :| t in prefix && CategoryName(t) == n;
          assert t in ts;
        } else {
          assert CategoryName(last) == n;
        }
      }
    }
  }

  /** Each group counts exactly the tasks of its category, and the
      completed ones among them. */
  lemma {:induction false} TallyCounts(ts: seq<Tasks.Task>)
    ensures forall i :: 0 <= i < |Tally(ts)| ==>
      && Tally(ts)[i].total == Count(ts, InGroup(Tally(ts)[i].name))
      && Tally(ts)[i].completed == Count(ts, DoneInGroup(Tally(ts)[i].name))
  {
    if ts != [] {
      var prefix, last := ts[..|ts| - 1], ts[|ts| - 1];
      assert ts == prefix + [last];
      TallyCounts(prefix);
      TallyNames(prefix);
      var gs := Tally(prefix);
      var name := CategoryName(last);
      var r := Tally(ts);
      assert r == Bump(gs, name, last.completed);
      forall i | 0 <= i < |r| ensures
        && r[i].total == Count(ts, InGroup(r[i].name))
        && r[i].completed == Count(ts, DoneInGroup(r[i].name))
      {
        TallyCountsStep(prefix, last, gs, r, i);
      }
    }
  }

  lemma TallyCountsStep(prefix: seq<Tasks.Task>, last: Tasks.Task, gs: seq<Group>, r: seq<Group>, i: nat)
    requires WellFormedGroups(gs)
    requires r == Bump(gs, CategoryName(last), last.completed)
    requires forall t :: t in prefix ==> CategoryName(t) in Names(gs)
    requires forall j :: 0 <= j < |gs| ==>
      && gs[j].total == Count(prefix, InGroup(gs[j].name))
      && gs[j].completed == Count(prefix, DoneInGroup(gs[j].name))
    requires i < |r|
    ensures r[i].total == Count(prefix + [last], InGroup(r[i].name))
    ensures r[i].completed == Count(prefix + [last], DoneInGroup(r[i].name))
  {
    var name := CategoryName(last);
    CountSnoc(prefix, last, InGroup(r[i].name));
    CountSnoc(prefix, last, DoneInGroup(r[i].name));
    if i < |gs| {
      assert r[i].name == gs[i].name;
    } else {
      assert r[i] == Group(name, 1, if last.completed then 1 else 0);
      CountNone(prefix, InGroup(name));
      CountNone(prefix, DoneInGroup(name));
    }
  }

  datatype CategoryRow = CategoryRow(name: string, total: nat, completed: nat, percentage: nat)

  /** `getCategoryBreakdown`: one row per distinct category name, in key
      order, with the completed share rounded to a whole percentage. */
  function CategoryBreakdown(ts: seq<Tasks.Task>): (rows: seq<CategoryRow>)
    ensures |rows| == |Tally(ts)|
    ensures forall i :: 0 <= i < |rows| ==>
      && rows[i].name == Tally(ts)[i].name
      && rows[i].total == Tally(ts)[i].total
      && rows[i].completed == Tally(ts)[i].completed
      && rows[i].percentage == Percentage(rows[i].completed, rows[i].total)
      && 1 <= rows[i].total && rows[i].completed <= rows[i].total && rows[i].percentage <= 100
  {
    Rows(Tally(ts))
  }

  /** The `map` over `Object.entries`: one row per group, in key order. */
  function Rows(gs: seq<Group>): (rows: seq<CategoryRow>)
    requires WellFormedGroups(gs)
    ensures |rows| == |gs|
    ensures forall i :: 0 <= i < |rows| ==>
      && rows[i].name == gs[i].name
      && rows[i].total == gs[i].total
      && rows[i].completed == gs[i].completed
      && rows[i].percentage == Percentage(rows[i].completed, rows[i].total)
      && 1 <= rows[i].total && rows[i].completed <= rows[i].total && rows[i].percentage <= 100
  {
    seq(|gs|, i requires 0 <= i < |gs| =>
      CategoryRow(gs[i].name, gs[i].total, gs[i].completed, Percentage(gs[i].completed, gs[i].total)))
  }

  /** The breakdown as a whole: distinct names, exactly the tasks' category
      names, per-row counts of that category, totals adding up to the
      number of tasks. */
  lemma CategoryBreakdownSummary(ts: seq<Tasks.Task>)
    ensures NoDuplicates(Names(Tally(ts)))
    ensures forall t :: t in ts ==> CategoryName(t) in Names(Tally(ts))
    ensures forall i :: 0 <= i < |CategoryBreakdown(ts)| ==>
      && CategoryBreakdown(ts)[i].total == Count(ts, InGroup(CategoryBreakdown(ts)[i].name))
      && CategoryBreakdown(ts)[i].completed == Count(ts, DoneInGroup(CategoryBreakdown(ts)[i].name))
    ensures GroupTotal(Tally(ts)) == |ts|
  {
    TallyCounts(ts);
    TallyNames(ts);
  }

  // ---------------------------------------------------------------------
  // The accumulator as written: a plain `{}`, which inherits the names of
  // `Object.prototype`.

  /** The task's category name is not one a plain object inherits. */
  predicate OwnCategory(t: Tasks.Task) {
    CategoryName(t) !in Values.ObjectPrototypeNames
  }

  function OwnCategories(): Tasks.Task -> bool {
    t => OwnCategory(t)
  }

  function InheritedCategories(): Tasks.Task -> bool {
    t => !OwnCategory(t)
  }

  /** The `categories` object after the `forEach` as the source builds it:
      for an inherited name (`constructor`, `toString`, ...)
      `!categories[category]` reads a truthy inherited value, so no group is
      created, the increments land on that inherited value, and
      `Object.entries` never lists the name. */
  function TallyAsWritten(ts: seq<Tasks.Task>): (gs: seq<Group>)
    ensures WellFormedGroups(gs)
  {
    if ts == [] then []
    else
      var last := ts[|ts| - 1];
      var prior := TallyAsWritten(ts[..|ts| - 1]);
      if CategoryName(last) in Values.ObjectPrototypeNames then prior
      else Bump(prior, CategoryName(last), last.completed)
  }

  /** The tally as written is the corrected tally of the tasks whose
      category name is not inherited: the other tasks drop out. */
  lemma {:induction false} TallyAsWrittenDropsInherited(ts: seq<Tasks.Task>)
    ensures TallyAsWritten(ts) == Tally(Filter(ts, OwnCategories()))
  {
    if ts != [] {
      var prefix, last := ts[..|ts| - 1], ts[|ts| - 1];
      assert ts == prefix + [last];
      TallyAsWrittenDropsInherited(prefix);
      FilterAppend(prefix, [last], OwnCategories());
      var kept := Filter(prefix, OwnCategories());
      if OwnCategory(last) {
        assert Filter(ts, OwnCategories()) == kept + [last];
        assert (kept + [last])[..|kept|] == kept;
      } else {
        assert Filter(ts, OwnCategories()) == kept;
      }
    }
  }

  /** As written, the group totals count only the tasks whose category name
      is not inherited, and fall short of the task count by the others. */
  lemma TallyAsWrittenTotal(ts: seq<Tasks.Task>)
    ensures GroupTotal(TallyAsWritten(ts)) == Count(ts, OwnCategories())
    ensures GroupTotal(TallyAsWritten(ts)) + Count(ts, InheritedCategories()) == |ts|
  {
    TallyAsWrittenDropsInherited(ts);
    FilterPartition(ts, OwnCategories(), InheritedCategories());
  }

  /** A single task filed under "constructor" leaves no group as written,
      where the corrected tally counts it. */
  lemma InheritedCategoryVanishes(t: Tasks.Task)
    requires t.category == "constructor"
    ensures TallyAsWritten([t]) == []
    ensures Tally([t]) == [Group("constructor", 1, if t.completed then 1 else 0)]
  {
    assert [t][..0] == [];
  }

  /** `getCategoryBreakdown` as written: the corrected breakdown of the
      tasks whose category name is not inherited. */
  function CategoryBreakdownAsWritten(ts: seq<Tasks.Task>): (rows: seq<CategoryRow>)
    ensures rows == CategoryBreakdown(Filter(ts, OwnCategories()))
  {
    TallyAsWrittenDropsInherited(ts);
    Rows(TallyAsWritten(ts))
  }

  /** An empty category is grouped under "Uncategorized". */
  lemma EmptyCategoryIsUncategorized(ts: seq<Tasks.Task>, t: Tasks.Task)
    requires t in ts && t.category == ""
    ensures UncategorizedName in Names(Tally(ts))
  {
    TallyNames(ts);
  }

  // ---------------------------------------------------------------------
  // Headline rates.

  /** `completionRate`: completed tasks as a rounded percentage. */
  function CompletionRate(s: TaskStats): (r: nat)
    ensures s.total == 0 ==> r == 0
    ensures s.completed <= s.total ==> r <= 100
    ensures s.total > 0 ==> s.total * (2 * r - 1) <= 200 * s.completed < s.total * (2 * r + 1)
  {
    Percentage(s.completed, s.total)
  }

  /** `habitCompletionRate`: habits met today as a rounded percentage. */
  function HabitCompletionRate(s: HabitStats): (r: nat)
    ensures s.total == 0 ==> r == 0
    ensures s.completedToday <= s.total ==> r <= 100
    ensures s.total > 0 ==> s.total * (2 * r - 1) <= 200 * s.completedToday < s.total * (2 * r + 1)
  {
    Percentage(s.completedToday, s.total)
  }

  /** Both rates stay within 0..100 for stats computed from collections. */
  lemma RatesWithinRange(ts: seq<Tasks.Task>, hs: seq<Habits.Habit>, now: int, today: Habits.Day)
    requires PositiveTargets(hs)
    ensures CompletionRate(GetTaskStats(ts, now)) <= 100
    ensures HabitCompletionRate(GetHabitStats(hs, today)) <= 100
  {
  }
}
