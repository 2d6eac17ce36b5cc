/** The statistics of src/hooks/useTaskStats.ts, and the due-date badge of
    src/components/TaskItem.tsx that classifies a single task the same way.
    "Now" is a parameter. */
module Stats {
  import opened TaskModel
  import opened Seqs
  import Tasks

  datatype TaskStats = TaskStats(total: nat, completed: nat, overdue: nat, dueToday: nat)

  /** Incomplete, with a due instant strictly before now. A completed task or
      one without a due date is never overdue. */
  predicate IsOverdue(t: Task, now: Instant): (r: bool)
    ensures t.completed || t.dueDate.None? ==> !r
    ensures r ==> t.dueDate.value < now
  {
    !t.completed && t.dueDate.Some? && t.dueDate.value < now
  }

  /** An open task that is overdue stays overdue at every later instant. */
  lemma OverdueStaysOverdue(t: Task, now: Instant, later: Instant)
    requires IsOverdue(t, now) && now <= later
    ensures IsOverdue(t, later)
  {
  }

  /** Incomplete, due on the calendar day of now (at any time of that day):
      the due instant lies in the 24-hour window that starts at the midnight
      (UTC) beginning the day of now. */
  predicate IsDueToday(t: Task, now: Instant): (r: bool)
    ensures t.completed || t.dueDate.None? ==> !r
    ensures !t.completed && t.dueDate.Some? ==>
      (r <==> DayOf(now) * MillisPerDay <= t.dueDate.value < DayOf(now) * MillisPerDay + MillisPerDay)
  {
    !t.completed && t.dueDate.Some? && DayOf(t.dueDate.value) == DayOf(now)
  }

  /** `useTaskStats`: four counts, each the length of a filtered list. A
      completed task is never overdue nor due today, so neither of those
      counts can push the completed count past the total. */
  function ComputeStats(tasks: seq<Task>, now: Instant): (s: TaskStats)
    ensures s.total == |tasks|
    ensures s.completed + s.overdue <= s.total
    ensures s.completed + s.dueToday <= s.total
  {
    FilterDisjoint(tasks, (t: Task) => t.completed, (t: Task) => IsOverdue(t, now));
    FilterDisjoint(tasks, (t: Task) => t.completed, (t: Task) => IsDueToday(t, now));
    TaskStats(
      |tasks|,
      |Filter(tasks, (t: Task) => t.completed)|,
      |Filter(tasks, (t: Task) => IsOverdue(t, now))|,
      |Filter(tasks, (t: Task) => IsDueToday(t, now))|)
  }

  /** With no tasks every count is zero. */
  lemma StatsOfEmpty(now: Instant)
    ensures ComputeStats([], now) == TaskStats(0, 0, 0, 0)
  {
  }

  /** Appending one task raises the total by one and each other count by one
      exactly when the task satisfies that count's condition. With the empty
      case this pins down every count as "the number of tasks that ...". */
  lemma StatsSnoc(tasks: seq<Task>, t: Task, now: Instant)
    ensures var s, s' := ComputeStats(tasks, now), ComputeStats(tasks + [t], now);
      && s'.total == s.total + 1
      && s'.completed == s.completed + (if t.completed then 1 else 0)
      && s'.overdue == s.overdue + (if IsOverdue(t, now) then 1 else 0)
      && s'.dueToday == s.dueToday + (if IsDueToday(t, now) then 1 else 0)
  {
    FilterSnoc(tasks, t, (t: Task) => t.completed);
    FilterSnoc(tasks, t, (t: Task) => IsOverdue(t, now));
    FilterSnoc(tasks, t, (t: Task) => IsDueToday(t, now));
  }

  /** When every task is completed, completed equals total and nothing is
      overdue or due today. */
  lemma StatsAllCompleted(tasks: seq<Task>, now: Instant)
    requires forall t :: t in tasks ==> t.completed
    ensures var s := ComputeStats(tasks, now);
      s.completed == s.total && s.overdue == 0 && s.dueToday == 0
  {
    FilterAllKept(tasks, (t: Task) => t.completed);
    var today := Filter(tasks, (t: Task) => IsDueToday(t, now));
    if today != [] {
      assert today[0] in today;
    }
  }

  /** The state after `completeAllTasks`, at any later time. */
  lemma StatsAfterAllCompleted(tasks: seq<Task>, stamp: Instant, now: Instant)
    ensures ComputeStats(Tasks.AllCompleted(tasks, stamp), now) == TaskStats(|tasks|, |tasks|, 0, 0)
  {
    var r := Tasks.AllCompleted(tasks, stamp);
    forall t | t in r
      ensures t.completed
    {
      var i :| 0 <= i < |r| && r[i] == t;
    }
    StatsAllCompleted(r, now);
  }

  /** Two open tasks due on 1 January and 31 December 2024, seen at noon UTC
      on 15 June 2024: one is overdue and neither is due today. */
  lemma StatsMidYearScenario(a: Task, b: Task)
    requires !a.completed && a.dueDate == Some(1_704_067_200_000)
    requires !b.completed && b.dueDate == Some(1_735_603_200_000)
    ensures ComputeStats([a, b], 1_718_452_800_000) == TaskStats(2, 0, 1, 0)
  {
    var now := 1_718_452_800_000;
    assert DayOf(now) == 19889 by {
      assert now == 19889 * MillisPerDay + 43_200_000;
    }
    assert DayOf(a.dueDate.value) == 19723 by {
      assert a.dueDate.value == 19723 * MillisPerDay;
    }
    assert DayOf(b.dueDate.value) == 20088 by {
      assert b.dueDate.value == 20088 * MillisPerDay;
    }
    assert IsOverdue(a, now) && !IsDueToday(a, now);
    assert !IsOverdue(b, now) && !IsDueToday(b, now);
    assert [a, b] == [a] + [b];
    StatsSnoc([a], b, now);
    StatsSnoc([], a, now);
    assert [] + [a] == [a];
  }

  /** "Overdue" and "due today" overlap: an open task due at the first
      instant of the current day is both once that instant has passed, so
      the two counts together can exceed the total. */
  lemma OverdueAndDueTodayOverlap(t: Task, now: Instant)
    requires now % MillisPerDay != 0
    requires !t.completed && t.dueDate == Some(now - now % MillisPerDay)
    ensures IsOverdue(t, now) && IsDueToday(t, now)
    ensures ComputeStats([t], now) == TaskStats(1, 0, 1, 1)
  {
    var start := now - now % MillisPerDay;
    assert start == DayOf(now) * MillisPerDay;
    assert DayOf(start) == DayOf(now);
    StatsSnoc([], t, now);
    assert [] + [t] == [t];
  }

  // ---------------------------------------------------------------------
  // The badge a single task shows (TaskItem)

  datatype DueBadge = OverdueBadge | TodayBadge | NoBadge

  /** The item view shows "Overdue" for an overdue task and "Today" only for
      a task that is due today and not overdue. */
  function BadgeOf(t: Task, now: Instant): (b: DueBadge)
    ensures b == OverdueBadge <==> IsOverdue(t, now)
    ensures b == TodayBadge <==> IsDueToday(t, now) && !IsOverdue(t, now)
  {
    if IsOverdue(t, now) then OverdueBadge
    else if IsDueToday(t, now) then TodayBadge
    else NoBadge
  }
}
