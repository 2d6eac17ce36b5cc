/** The task record (`Task` in src/types/Task.ts) and the facts about a single
    task that several components share. Dates are instants in milliseconds
    since the epoch; the ISO-8601 strings the application stores are not
    modelled. */
module TaskModel {

  datatype Option<+T> = None | Some(value: T)

  /** Milliseconds since the epoch, as `Date.prototype.getTime` reports them. */
  type Instant = int

  const MillisPerDay: int := 86_400_000

  /** The calendar day an instant falls on (days since the epoch, UTC).
      Euclidean division rounds towards minus infinity here, as calendar
      days do. */
  function DayOf(t: Instant): int
  {
    t / MillisPerDay
  }

  datatype Priority = Low | Medium | High

  /** The weight the priority sort uses: high 3, medium 2, low 1. */
  function Rank(p: Priority): int
  {
    match p
    case High => 3
    case Medium => 2
    case Low => 1
  }

  /** The string a priority is stored and filtered as. */
  function PriorityName(p: Priority): string
  {
    match p
    case Low => "low"
    case Medium => "medium"
    case High => "high"
  }

  datatype Task = Task(
    id: string,
    title: string,
    description: Option<string>,
    dueDate: Option<Instant>,
    priority: Priority,
    category: string,
    completed: bool,
    createdAt: Instant,
    completedAt: Option<Instant>,
    tags: seq<string>)

  /** A completion timestamp is present exactly when the task is completed. */
  predicate CompletionConsistent(t: Task)
  {
    t.completedAt.Some? == t.completed
  }

  predicate AllConsistent(tasks: seq<Task>)
  {
    forall t :: t in tasks ==> CompletionConsistent(t)
  }

  predicate HasId(tasks: seq<Task>, id: string)
  {
    exists t :: t in tasks && t.id == id
  }

  predicate UniqueIds(tasks: seq<Task>)
  {
    forall i, j :: 0 <= i < j < |tasks| ==> tasks[i].id != tasks[j].id
  }

  /** `a` and `b` agree on every field except `completed` and `completedAt`. */
  predicate SameExceptCompletion(a: Task, b: Task)
  {
    a.(completed := b.completed, completedAt := b.completedAt) == b
  }
}
