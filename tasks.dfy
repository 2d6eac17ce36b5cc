/** The task-list operations of src/App.tsx. Each operation of the app is a
    `prev => next` transformation handed to `setTasks`; here each is a pure
    function on the list, and `TaskStore` is the persisted state slot whose
    methods replace the list with those results. Fresh ids and "now" come in
    as parameters. */
module Tasks {
  import opened TaskModel
  import opened Seqs

  /** `addTask`: appends one new, incomplete task created at `now`. The title
      is taken as given: the blank-title check belongs to the form. */
  function Added(prev: seq<Task>, id: string, title: string, description: Option<string>,
                 dueDate: Option<Instant>, priority: Priority, category: string,
                 tags: seq<string>, now: Instant): (r: seq<Task>)
    ensures |r| == |prev| + 1 && r[..|prev|] == prev
    ensures r[|prev|].id == id && r[|prev|].title == title
    ensures r[|prev|].description == description && r[|prev|].dueDate == dueDate
    ensures r[|prev|].priority == priority && r[|prev|].category == category
    ensures r[|prev|].tags == tags
    ensures !r[|prev|].completed && r[|prev|].completedAt == None && r[|prev|].createdAt == now
  {
    prev + [Task(id, title, description, dueDate, priority, category, false, now, None, tags)]
  }

  /** The callback `toggleTaskComplete` maps over the list: a task with
      another id is returned as it is; a task with the id flips `completed`,
      carries `now` as its completion time exactly when it becomes completed,
      and keeps every other field. */
  function ToggleIfMatching(t: Task, id: string, now: Instant): (r: Task)
    ensures t.id != id ==> r == t
    ensures t.id == id ==>
      && r.completed == !t.completed
      && r.completedAt == (if r.completed then Some(now) else None)
      && SameExceptCompletion(r, t)
  {
    if t.id == id then
      t.(completed := !t.completed, completedAt := if !t.completed then Some(now) else None)
    else t
  }

  /** `toggleTaskComplete`: every task carrying `id` flips its completion and
      gets `completedAt` exactly when it becomes completed; all other tasks,
      and the order, stay as they were. */
  function Toggled(prev: seq<Task>, id: string, now: Instant): (r: seq<Task>)
    ensures |r| == |prev|
    ensures forall i :: 0 <= i < |prev| && prev[i].id != id ==> r[i] == prev[i]
    ensures forall i :: 0 <= i < |prev| && prev[i].id == id ==>
      && r[i].completed == !prev[i].completed
      && r[i].completedAt == (if r[i].completed then Some(now) else None)
      && SameExceptCompletion(r[i], prev[i])
  {
    if prev == [] then []
    else [ToggleIfMatching(prev[0], id, now)] + Toggled(prev[1..], id, now)
  }

  /** `deleteTask`: exactly the tasks whose id differs from `id`, in order. */
  function Deleted(prev: seq<Task>, id: string): (r: seq<Task>)
    ensures IsSubsequence(r, prev)
    ensures forall t :: multiset(r)[t] == if t.id == id then 0 else multiset(prev)[t]
    ensures !HasId(r, id)
  {
    Filter(prev, (t: Task) => t.id != id)
  }

  /** The callback `completeAllTasks` maps over the list: the result is
      completed; a task that already was is returned as it is, any other is
      stamped with `now` and otherwise unchanged. */
  function CompleteIfOpen(t: Task, now: Instant): (r: Task)
    ensures r.completed
    ensures t.completed ==> r == t
    ensures !t.completed ==> r.completedAt == Some(now) && SameExceptCompletion(r, t)
  {
    if t.completed then t else t.(completed := true, completedAt := Some(now))
  }

  /** `completeAllTasks`: every task ends completed; tasks that already were
      are returned untouched, the others are stamped with `now`. */
  function AllCompleted(prev: seq<Task>, now: Instant): (r: seq<Task>)
    ensures |r| == |prev|
    ensures forall i :: 0 <= i < |r| ==> r[i].completed
    ensures forall i :: 0 <= i < |prev| && prev[i].completed ==> r[i] == prev[i]
    ensures forall i :: 0 <= i < |prev| && !prev[i].completed ==>
      r[i].completedAt == Some(now) && SameExceptCompletion(r[i], prev[i])
  {
    if prev == [] then []
    else [CompleteIfOpen(prev[0], now)] + AllCompleted(prev[1..], now)
  }

  /** `activeTasks`, and the list `deleteCompletedTasks` keeps: the incomplete
      tasks in their original order. */
  function ActiveTasks(tasks: seq<Task>): (r: seq<Task>)
    ensures IsSubsequence(r, tasks)
    ensures forall t :: multiset(r)[t] == if t.completed then 0 else multiset(tasks)[t]
  {
    Filter(tasks, (t: Task) => !t.completed)
  }

  /** `completedTasks`: the completed tasks in their original order. */
  function CompletedTasks(tasks: seq<Task>): (r: seq<Task>)
    ensures IsSubsequence(r, tasks)
    ensures forall t :: multiset(r)[t] == if t.completed then multiset(tasks)[t] else 0
  {
    Filter(tasks, (t: Task) => t.completed)
  }

  /** `importTasks`: the imported records go after the existing ones, as they
      are: nothing is validated, deduplicated or reordered. */
  function Imported(prev: seq<Task>, incoming: seq<Task>): (r: seq<Task>)
    ensures |r| == |prev| + |incoming|
    ensures r[..|prev|] == prev && r[|prev|..] == incoming
  {
    prev + incoming
  }

  /** `getGreeting` on the hour of the current time. */
  function Greeting(hour: int): (g: string)
    ensures hour < 12 <==> g == "Good Morning"
    ensures 12 <= hour < 17 <==> g == "Good Afternoon"
    ensures 17 <= hour <==> g == "Good Evening"
  {
    if hour < 12 then "Good Morning"
    else if hour < 17 then "Good Afternoon"
    else "Good Evening"
  }

  // ---------------------------------------------------------------------
  // Properties of the operations

  /** Adding a task under an id the list does not use keeps ids unique, and a
      new task is consistent: it is incomplete and has no completion time. */
  lemma AddedKeepsInvariants(prev: seq<Task>, id: string, title: string, description: Option<string>,
                             dueDate: Option<Instant>, priority: Priority, category: string,
                             tags: seq<string>, now: Instant)
    requires UniqueIds(prev) && !HasId(prev, id)
    requires AllConsistent(prev)
    ensures var r := Added(prev, id, title, description, dueDate, priority, category, tags, now);
      UniqueIds(r) && AllConsistent(r)
  {
    var r := Added(prev, id, title, description, dueDate, priority, category, tags, now);
    forall i, j | 0 <= i < j < |r|
      ensures r[i].id != r[j].id
    {
      if j == |prev| {
        assert r[i] == prev[i];
      }
    }
  }

  /** Toggling an id that no task carries changes nothing. */
  lemma ToggledAbsentIsIdentity(prev: seq<Task>, id: string, now: Instant)
    requires !HasId(prev, id)
    ensures Toggled(prev, id, now) == prev
  {
    var r := Toggled(prev, id, now);
    forall i | 0 <= i < |prev|
      ensures r[i] == prev[i]
    {
      assert prev[i] in prev;
    }
  }

  /** Toggling the same id twice restores every task's `completed` flag. A
      task that started incomplete (and therefore without a completion time)
      comes back identical; one that started completed is completed again,
      stamped with the second toggle's time. */
  lemma ToggledTwice(prev: seq<Task>, id: string, now1: Instant, now2: Instant)
    ensures var r := Toggled(Toggled(prev, id, now1), id, now2);
      && |r| == |prev|
      && (forall i :: 0 <= i < |prev| ==> r[i].completed == prev[i].completed)
      && (forall i :: 0 <= i < |prev| && prev[i].id == id && prev[i].completed ==>
            r[i].completedAt == Some(now2) && SameExceptCompletion(r[i], prev[i]))
      && (forall i :: 0 <= i < |prev| && CompletionConsistent(prev[i]) && !prev[i].completed ==>
            r[i] == prev[i])
  {
    var mid := Toggled(prev, id, now1);
    var r := Toggled(mid, id, now2);
    forall i | 0 <= i < |prev| && prev[i].id == id
      ensures mid[i].id == id
    {
      assert SameExceptCompletion(mid[i], prev[i]);
    }
  }

  /** Toggling keeps "completion time present exactly when completed". */
  lemma ToggledKeepsConsistency(prev: seq<Task>, id: string, now: Instant)
    requires AllConsistent(prev)
    ensures AllConsistent(Toggled(prev, id, now))
  {
    var r := Toggled(prev, id, now);
    forall t | t in r
      ensures CompletionConsistent(t)
    {
      var i :| 0 <= i < |r| && r[i] == t;
      assert prev[i] in prev;
    }
  }

  /** Toggling changes no task's id, so unique ids stay unique. */
  lemma ToggledKeepsUniqueIds(prev: seq<Task>, id: string, now: Instant)
    requires UniqueIds(prev)
    ensures UniqueIds(Toggled(prev, id, now))
  {
    var r := Toggled(prev, id, now);
    forall i | 0 <= i < |prev|
      ensures r[i].id == prev[i].id
    {
      if prev[i].id == id {
        assert SameExceptCompletion(r[i], prev[i]);
      }
    }
  }

  /** Keeping some of the tasks, in order, keeps ids unique. */
  lemma {:induction false} SubsequenceKeepsUniqueIds(r: seq<Task>, s: seq<Task>)
    requires IsSubsequence(r, s) && UniqueIds(s)
    ensures UniqueIds(r)
    decreases |s|
  {
    if r != [] && s != [] {
      assert UniqueIds(s[1..]) by {
        forall i, j | 0 <= i < j < |s| - 1
          ensures s[1..][i].id != s[1..][j].id
        {
          assert s[1..][i] == s[i + 1] && s[1..][j] == s[j + 1];
        }
      }
      if r[0] == s[0] {
        SubsequenceKeepsUniqueIds(r[1..], s[1..]);
        SubsequenceMembers(r[1..], s[1..]);
        forall i, j | 0 <= i < j < |r|
          ensures r[i].id != r[j].id
        {
          if i == 0 {
            assert r[j] == r[1..][j - 1];
            assert r[j] in r[1..];
            assert r[j] in s[1..];
            var k :| 0 <= k < |s| - 1 && s[1..][k] == r[j];
            assert s[k + 1] == r[j];
          } else {
            assert r[i] == r[1..][i - 1] && r[j] == r[1..][j - 1];
          }
        }
      } else {
        SubsequenceKeepsUniqueIds(r, s[1..]);
      }
    }
  }

  /** Deleting tasks keeps ids unique. */
  lemma DeletedKeepsUniqueIds(prev: seq<Task>, id: string)
    requires UniqueIds(prev)
    ensures UniqueIds(Deleted(prev, id))
  {
    SubsequenceKeepsUniqueIds(Deleted(prev, id), prev);
  }

  /** Deleting the completed tasks keeps ids unique. */
  lemma ActiveTasksKeepUniqueIds(tasks: seq<Task>)
    requires UniqueIds(tasks)
    ensures UniqueIds(ActiveTasks(tasks))
  {
    SubsequenceKeepsUniqueIds(ActiveTasks(tasks), tasks);
  }

  /** Deleting an id that no task carries changes nothing. */
  lemma DeletedAbsentIsIdentity(prev: seq<Task>, id: string)
    requires !HasId(prev, id)
    ensures Deleted(prev, id) == prev
  {
    FilterAllKept(prev, (t: Task) => t.id != id);
  }

  /** Completing all tasks keeps the consistency invariant. */
  lemma AllCompletedKeepsConsistency(prev: seq<Task>, now: Instant)
    requires AllConsistent(prev)
    ensures AllConsistent(AllCompleted(prev, now))
  {
    var r := AllCompleted(prev, now);
    forall t | t in r
      ensures CompletionConsistent(t)
    {
      var i :| 0 <= i < |r| && r[i] == t;
      assert prev[i] in prev;
    }
  }

  /** Completing all tasks changes no task's id, so unique ids stay unique. */
  lemma AllCompletedKeepsUniqueIds(prev: seq<Task>, now: Instant)
    requires UniqueIds(prev)
    ensures UniqueIds(AllCompleted(prev, now))
  {
    var r := AllCompleted(prev, now);
    forall i | 0 <= i < |prev|
      ensures r[i].id == prev[i].id
    {
      if !prev[i].completed {
        assert SameExceptCompletion(r[i], prev[i]);
      }
    }
  }

  /** `deleteCompletedTasks` is idempotent. */
  lemma ActiveTasksIdempotent(tasks: seq<Task>)
    ensures ActiveTasks(ActiveTasks(tasks)) == ActiveTasks(tasks)
  {
    FilterIdempotent(tasks, (t: Task) => !t.completed);
  }

  /** Deleting the completed tasks right after completing all of them empties
      the list. */
  lemma ActiveAfterAllCompletedIsEmpty(prev: seq<Task>, now: Instant)
    ensures ActiveTasks(AllCompleted(prev, now)) == []
  {
  }

  /** The active and completed views split the list: every task is in exactly
      one of them, so their lengths add up to the list's. */
  lemma ActiveCompletedPartition(tasks: seq<Task>)
    ensures multiset(ActiveTasks(tasks)) + multiset(CompletedTasks(tasks)) == multiset(tasks)
    ensures |ActiveTasks(tasks)| + |CompletedTasks(tasks)| == |tasks|
  {
    FilterPartition(tasks, (t: Task) => !t.completed, (t: Task) => t.completed);
  }

  /** Importing records whose ids are unique and unused keeps ids unique. */
  lemma ImportedFreshKeepsUniqueIds(prev: seq<Task>, incoming: seq<Task>)
    requires UniqueIds(prev) && UniqueIds(incoming)
    requires forall t :: t in incoming ==> !HasId(prev, t.id)
    ensures UniqueIds(Imported(prev, incoming))
  {
    var r := Imported(prev, incoming);
    forall i, j | 0 <= i < j < |r|
      ensures r[i].id != r[j].id
    {
      if i < |prev| <= j {
        assert r[j] == incoming[j - |prev|];
        assert r[j] in incoming;
        assert r[i] == prev[i];
        assert prev[i] in prev;
      } else if |prev| <= i {
        assert r[i] == incoming[i - |prev|] && r[j] == incoming[j - |prev|];
      }
    }
  }

  /** Import does not deduplicate: importing a task already in the list
      yields two tasks with the same id, and a toggle of that id then flips
      both of them. */
  lemma ImportedDuplicateIsToggledTwice(t: Task, now: Instant)
    requires !t.completed
    ensures var r := Imported([t], [t]);
      && !UniqueIds(r)
      && Toggled(r, t.id, now)[0].completed && Toggled(r, t.id, now)[1].completed
  {
    var r := Imported([t], [t]);
    assert r[0] == t && r[1] == t;
  }

  // ---------------------------------------------------------------------
  // The state slot

  /** The `tasks` state of `App`, bound to the persisted slot `todo-tasks`.
      Each method replaces the list with the result of one operation above,
      as the corresponding `setTasks(prev => ...)` call does. */
  class TaskStore {
    var tasks: seq<Task>

    /** The slot starts from the stored list, or from the empty list when
        nothing usable is stored. */
    constructor (stored: Option<seq<Task>>)
      ensures tasks == if stored.Some? then stored.value else []
    {
      tasks := if stored.Some? then stored.value else [];
    }

    method AddTask(id: string, title: string, description: Option<string>,
                   dueDate: Option<Instant>, priority: Priority, category: string,
                   tags: seq<string>, now: Instant)
      modifies this
      ensures tasks == Added(old(tasks), id, title, description, dueDate, priority, category, tags, now)
      ensures UniqueIds(old(tasks)) && !HasId(old(tasks), id) && AllConsistent(old(tasks)) ==>
        UniqueIds(tasks) && AllConsistent(tasks)
    {
      if UniqueIds(tasks) && !HasId(tasks, id) && AllConsistent(tasks) {
        AddedKeepsInvariants(tasks, id, title, description, dueDate, priority, category, tags, now);
      }
      tasks := Added(tasks, id, title, description, dueDate, priority, category, tags, now);
    }

    method ToggleTaskComplete(id: string, now: Instant)
      modifies this
      ensures tasks == Toggled(old(tasks), id, now)
      ensures AllConsistent(old(tasks)) ==> AllConsistent(tasks)
      ensures UniqueIds(old(tasks)) ==> UniqueIds(tasks)
    {
      if AllConsistent(tasks) {
        ToggledKeepsConsistency(tasks, id, now);
      }
      if UniqueIds(tasks) {
        ToggledKeepsUniqueIds(tasks, id, now);
      }
      tasks := Toggled(tasks, id, now);
    }

    method DeleteTask(id: string)
      modifies this
      ensures tasks == Deleted(old(tasks), id)
      ensures AllConsistent(old(tasks)) ==> AllConsistent(tasks)
      ensures UniqueIds(old(tasks)) ==> UniqueIds(tasks)
    {
      if UniqueIds(tasks) {
        DeletedKeepsUniqueIds(tasks, id);
      }
      tasks := Deleted(tasks, id);
    }

    method CompleteAllTasks(now: Instant)
      modifies this
      ensures tasks == AllCompleted(old(tasks), now)
      ensures AllConsistent(old(tasks)) ==> AllConsistent(tasks)
      ensures UniqueIds(old(tasks)) ==> UniqueIds(tasks)
    {
      if AllConsistent(tasks) {
        AllCompletedKeepsConsistency(tasks, now);
      }
      if UniqueIds(tasks) {
        AllCompletedKeepsUniqueIds(tasks, now);
      }
      tasks := AllCompleted(tasks, now);
    }

    method DeleteCompletedTasks()
      modifies this
      ensures tasks == ActiveTasks(old(tasks))
      ensures AllConsistent(old(tasks)) ==> AllConsistent(tasks)
      ensures UniqueIds(old(tasks)) ==> UniqueIds(tasks)
    {
      if UniqueIds(tasks) {
        ActiveTasksKeepUniqueIds(tasks);
      }
      tasks := ActiveTasks(tasks);
    }

    /** `importTasks` with the records the file held. A file that did not
        parse arrives as `None`: the list is then left as it was. */
    method ImportTasks(parsed: Option<seq<Task>>)
      modifies this
      ensures tasks == if parsed.Some? then Imported(old(tasks), parsed.value) else old(tasks)
    {
      if parsed.Some? {
        tasks := Imported(tasks, parsed.value);
      }
    }
  }
}
