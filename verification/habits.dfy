/** The habit tracker: habits with a daily target, a per-day completion count
    keyed by calendar day, the toggle that counts up to the target and wraps
    to zero, the streak of met days ending today, and the seven-day grid.

    A day is an integer day number; the source keys completions by
    `toDateString()`, which is one-to-one on calendar days, so a map keyed
    by day number carries the same information. */
module Habits {
  import opened Seqs
  import opened Text

  type Day = int

  datatype Habit = Habit(
    id: int,
    name: string,
    target: int,
    emoji: string,
    completions: map<Day, nat>,
    createdAt: int)

  /** The add-habit form: name, parsed target, emoji. */
  datatype HabitForm = HabitForm(name: string, target: int, emoji: string)

  function HabitId(h: Habit): int {
    h.id
  }

  /** `habit.completions[day] || 0`: a day without an entry counts zero. */
  function CountOn(h: Habit, d: Day): nat {
    if d in h.completions then h.completions[d] else 0
  }

  /** The habit's target is met on day `d`. */
  predicate Met(h: Habit, d: Day) {
    CountOn(h, d) >= h.target
  }

  /** `addHabit`: a blank name (after trimming) is ignored; otherwise a habit
      with the trimmed name and no completions is appended. */
  function AddHabit(hs: seq<Habit>, form: HabitForm, id: int, now: int): (r: seq<Habit>)
    ensures IsBlank(form.name) ==> r == hs
    ensures !IsBlank(form.name) ==>
      && |r| == |hs| + 1
      && r[..|hs|] == hs
      && r[|hs|] == Habit(id, Trim(form.name), form.target, form.emoji, map[], now)
      && r[|hs|].name != [] && !IsSpace(r[|hs|].name[0]) && !IsSpace(r[|hs|].name[|r[|hs|].name| - 1])
      && forall d :: CountOn(r[|hs|], d) == 0
  {
    var name := Trim(form.name);
    if name == "" then hs else hs + [Habit(id, name, form.target, form.emoji, map[], now)]
  }

  // ---------------------------------------------------------------------
  // Toggling today's completion.

  /** One press of the completion button on a count `c`. */
  function NextCount(c: nat, target: int): nat {
    if c < target then c + 1 else 0
  }

  function Toggled(h: Habit, today: Day): Habit {
    h.(completions := h.completions[today := NextCount(CountOn(h, today), h.target)])
  }

  /** `toggleHabitCompletion`: today's count of the habit with the given id
      goes up by one below the target and back to zero at or above it;
      nothing else changes. */
  function ToggleCompletion(hs: seq<Habit>, id: int, today: Day): (r: seq<Habit>)
    ensures |r| == |hs|
    ensures forall i :: 0 <= i < |hs| && hs[i].id != id ==> r[i] == hs[i]
    ensures forall i :: 0 <= i < |hs| && hs[i].id == id ==>
      && r[i] == hs[i].(completions := r[i].completions)
      && (forall d :: d != today ==> CountOn(r[i], d) == CountOn(hs[i], d))
      && (CountOn(hs[i], today) < hs[i].target ==> CountOn(r[i], today) == CountOn(hs[i], today) + 1)
      && (CountOn(hs[i], today) >= hs[i].target ==> CountOn(r[i], today) == 0)
      && (CountOn(hs[i], today) <= hs[i].target ==> CountOn(r[i], today) <= hs[i].target)
  {
    seq(|hs|, i requires 0 <= i < |hs| => if hs[i].id == id then Toggled(hs[i], today) else hs[i])
  }

  /** Today's count after `k` presses starting from `c`. */
  function PressTimes(c: nat, target: int, k: nat): nat {
    if k == 0 then c else NextCount(PressTimes(c, target, k - 1), target)
  }

  /** Pressing `a` times and then `b` times is pressing `a + b` times. */
  lemma {:induction false} PressTimesAdd(c: nat, target: int, a: nat, b: nat)
    ensures PressTimes(PressTimes(c, target, a), target, b) == PressTimes(c, target, a + b)
  {
    if b > 0 {
      PressTimesAdd(c, target, a, b - 1);
    }
  }

  /** From zero, the first `target` presses count up one at a time. */
  lemma {:induction false} PressClimbs(target: nat, k: nat)
    requires k <= target
    ensures PressTimes(0, target, k) == k
  {
    if k > 0 {
      PressClimbs(target, k - 1);
    }
  }

  /** The count cycles with period `target + 1`: it climbs to the target and
      the next press wraps it to zero. */
  lemma PressCycle(target: nat, k: nat)
    ensures PressTimes(0, target, target + 1) == 0
    ensures PressTimes(0, target, k + target + 1) == PressTimes(0, target, k)
  {
    PressClimbs(target, target);
    PressTimesAdd(0, target, target + 1, k);
  }

  function ToggleRepeatedly(hs: seq<Habit>, id: int, today: Day, k: nat): (r: seq<Habit>)
    ensures |r| == |hs|
  {
    if k == 0 then hs else ToggleCompletion(ToggleRepeatedly(hs, id, today, k - 1), id, today)
  }

  /** Pressing `k` times through the collection acts on today's count of the
      matching habit exactly as `k` presses of one counter, leaving its
      target and every other habit alone. */
  lemma {:induction false} ToggleRepeatedlyCounts(hs: seq<Habit>, id: int, today: Day, k: nat)
    ensures |ToggleRepeatedly(hs, id, today, k)| == |hs|
    ensures forall i :: 0 <= i < |hs| && hs[i].id != id ==> ToggleRepeatedly(hs, id, today, k)[i] == hs[i]
    ensures forall i :: 0 <= i < |hs| && hs[i].id == id ==>
      && ToggleRepeatedly(hs, id, today, k)[i].id == id
      && ToggleRepeatedly(hs, id, today, k)[i].target == hs[i].target
      && CountOn(ToggleRepeatedly(hs, id, today, k)[i], today) == PressTimes(CountOn(hs[i], today), hs[i].target, k)
  {
    if k > 0 {
      ToggleRepeatedlyCounts(hs, id, today, k - 1);
    }
  }

  /** A habit with target 2 pressed through the day counts 1, 2, 0, 1. */
  lemma PressesWithTargetTwo(hs: seq<Habit>, id: int, today: Day, i: int)
    requires 0 <= i < |hs| && hs[i].id == id && hs[i].target == 2 && CountOn(hs[i], today) == 0
    ensures CountOn(ToggleRepeatedly(hs, id, today, 2)[i], today) == 2
    ensures CountOn(ToggleRepeatedly(hs, id, today, 3)[i], today) == 0
    ensures CountOn(ToggleRepeatedly(hs, id, today, 4)[i], today) == 1
  {
    ToggleRepeatedlyCounts(hs, id, today, 2);
    ToggleRepeatedlyCounts(hs, id, today, 3);
    ToggleRepeatedlyCounts(hs, id, today, 4);
    PressClimbs(2, 2);
    PressCycle(2, 1);
  }

  // ---------------------------------------------------------------------

  /** `deleteHabit`: the habits with that id are gone, the others keep their order. */
  function DeleteHabit(hs: seq<Habit>, id: int): (r: seq<Habit>)
    ensures forall h :: h in r <==> h in hs && h.id != id
    ensures forall h :: multiset(r)[h] == if h.id != id then multiset(hs)[h] else 0
    ensures IsSubsequence(r, hs)
  {
    WithoutId(hs, HabitId, id)
  }

  lemma DeleteHabitIdempotent(hs: seq<Habit>, id: int)
    ensures DeleteHabit(DeleteHabit(hs, id), id) == DeleteHabit(hs, id)
  {
    WithoutIdIdempotent(hs, HabitId, id);
  }

  // ---------------------------------------------------------------------
  // Streak.

  /** The days up to `d` that meet the target and have an entry. */
  function MetDaysUpTo(h: Habit, d: Day): set<Day> {
    set k | k in h.completions && k <= d && h.completions[k] >= h.target
  }

  /** `getStreak`: the number of consecutive met days ending today. With a
      positive target a met day must have an entry, so the walk backwards
      ends; the `while (true)` loop of the source has no exit when the
      target is zero or negative (see `StreakLoop`). */
  function Streak(h: Habit, today: Day): (n: nat)
    requires h.target >= 1
    ensures forall d :: today - n < d <= today ==> Met(h, d)
    ensures !Met(h, today - n)
    ensures n <= |MetDaysUpTo(h, today)|
    decreases MetDaysUpTo(h, today)
  {
    if Met(h, today) then
      assert today in MetDaysUpTo(h, today);
      assert MetDaysUpTo(h, today) == MetDaysUpTo(h, today - 1) + {today};
      assert today !in MetDaysUpTo(h, today - 1);
      1 + Streak(h, today - 1)
    else 0
  }

  /** The streak is `n` exactly when the `n` days ending today all meet the
      target and the day before them does not. */
  lemma StreakCharacterization(h: Habit, today: Day, n: nat)
    requires h.target >= 1
    ensures Streak(h, today) == n <==> (forall d :: today - n < d <= today ==> Met(h, d)) && !Met(h, today - n)
  {
  }

  /** A miss today zeroes the streak, however long the run before it. */
  lemma StreakZeroOnMissedToday(h: Habit, today: Day)
    requires h.target >= 1
    requires CountOn(h, today) < h.target
    ensures Streak(h, today) == 0
  {
  }

  /** The source's loop with an iteration budget: `None` means the loop was
      still running when the budget ran out. */
  function StreakLoop(h: Habit, day: Day, fuel: nat): Option<nat>
    decreases fuel
  {
    if fuel == 0 then None
    else if CountOn(h, day) >= h.target then
      match StreakLoop(h, day - 1, fuel - 1)
      case None => None
      case Some(n) => Some(n + 1)
    else Some(0)
  }

  /** With a target of zero or less every day, recorded or not, counts as
      met, so the loop never exits whatever the budget. */
  lemma {:induction false} StreakLoopDiverges(h: Habit, day: Day, fuel: nat)
    requires h.target <= 0
    ensures StreakLoop(h, day, fuel) == None
    decreases fuel
  {
    if fuel > 0 {
      StreakLoopDiverges(h, day - 1, fuel - 1);
    }
  }

  /** With a positive target the loop exits after `Streak + 1` rounds with
      the streak. */
  lemma {:induction false} StreakLoopAgrees(h: Habit, day: Day, fuel: nat)
    requires h.target >= 1
    requires fuel > Streak(h, day)
    ensures StreakLoop(h, day, fuel) == Some(Streak(h, day))
    decreases fuel
  {
    if Met(h, day) {
      StreakLoopAgrees(h, day - 1, fuel - 1);
    }
  }

  // ---------------------------------------------------------------------

  /** `getTodayCompletion`. */
  function TodayCompletion(h: Habit, today: Day): (c: nat)
    ensures c >= h.target <==> Met(h, today)
    ensures today !in h.completions ==> c == 0
  {
    CountOn(h, today)
  }

  /** One cell of the weekly grid (the weekday label and day of month are
      display formatting of `day`). */
  datatype DayProgress = DayProgress(day: Day, completed: bool)

  /** `getWeeklyProgress`: the seven days ending today, oldest first, each
      marked completed exactly when its target is met. */
  method WeeklyProgress(h: Habit, today: Day) returns (week: seq<DayProgress>)
    ensures |week| == 7
    ensures week[6].day == today
    ensures forall k :: 0 <= k < 7 ==> week[k].day == today - 6 + k
    ensures forall k :: 0 <= k < 7 ==> (week[k].completed <==> Met(h, week[k].day))
  {
    week := [];
    var i := 6;
    while i >= 0
      invariant -1 <= i <= 6
      invariant |week| == 6 - i
      invariant forall k :: 0 <= k < |week| ==> week[k].day == today - 6 + k
      invariant forall k :: 0 <= k < |week| ==> (week[k].completed <==> Met(h, week[k].day))
    {
      var date := today - i;
      var completion := CountOn(h, date);
      week := week + [DayProgress(date, completion >= h.target)];
      i := i - 1;
    }
  }
}
