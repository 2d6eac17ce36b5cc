/** The derived view of src/components/TaskSection.tsx: the tasks a section
    shows (search, category and priority filters, then a sort in one of three
    modes) and the distinct categories offered in its filter. */
module TaskView {
  import opened TaskModel
  import opened Seqs
  import opened Text

  /** The filter controls of a section: a free-text search term and the
      selected category and priority, each of which may be "all". */
  datatype Query = Query(searchTerm: string, category: string, priority: string)

  const AllOption: string := "all"

  /** The texts the search looks at: the title, the description when there
      is one, and every tag. */
  function SearchableTexts(t: Task): seq<string>
  {
    [t.title] + (if t.description.Some? then [t.description.value] else []) + t.tags
  }

  /** The search term, lower-cased, occurs in the lower-cased title, in the
      description when there is one, or in some tag: in some searchable text,
      ignoring case. Every task matches the empty term. */
  predicate MatchesSearch(t: Task, term: string): (b: bool)
    ensures b <==> exists f :: f in SearchableTexts(t) && Contains(Lower(f), Lower(term))
    ensures term == [] ==> b
  {
    ContainsEmpty(Lower(t.title));
    assert t.title in SearchableTexts(t);
    assert t.description.Some? ==> t.description.value in SearchableTexts(t);
    assert forall tag :: tag in t.tags ==> tag in SearchableTexts(t);
    
    var q := Lower(term);
    || Contains(Lower(t.title), q)
    || (t.description.Some? && Contains(Lower(t.description.value), q))
    || (exists tag :: tag in t.tags && Contains(Lower(tag), q))
  }

  /** The filter callback: the search matches, and each of the category and
      priority selections is "all" or equal to the task's (case-sensitively).
      A selection other than "all" rejects every task of another category or
      priority; with both at "all" only the search decides, and with an empty
      term as well every task passes. */
  predicate Matches(t: Task, q: Query): (b: bool)
    ensures q.category != AllOption && t.category != q.category ==> !b
    ensures q.priority != AllOption && PriorityName(t.priority) != q.priority ==> !b
    ensures q.category == AllOption && q.priority == AllOption ==> (b <==> MatchesSearch(t, q.searchTerm))
    ensures q.searchTerm == [] && q.category == AllOption && q.priority == AllOption ==> b
  {
    && MatchesSearch(t, q.searchTerm)
    && (q.category == AllOption || t.category == q.category)
    && (q.priority == AllOption || PriorityName(t.priority) == q.priority)
  }

  /** The `filtered` array: exactly the tasks that match, each as often as
      it occurs, in the section's order. */
  function Filtered(tasks: seq<Task>, q: Query): (r: seq<Task>)
    ensures forall t :: t in r ==> Matches(t, q)
    ensures forall t :: multiset(r)[t] == if Matches(t, q) then multiset(tasks)[t] else 0
    ensures IsSubsequence(r, tasks)
  {
    Filter(tasks, (t: Task) => Matches(t, q))
  }

  /** With an empty search term and both selections at "all" every task is
      shown, because every string includes the empty string. */
  lemma EmptyQueryKeepsAll(tasks: seq<Task>)
    ensures Filtered(tasks, Query("", AllOption, AllOption)) == tasks
  {
    var q := Query("", AllOption, AllOption);
    forall t | t in tasks
      ensures Matches(t, q)
    {
      ContainsEmpty(Lower(t.title));
    }
    FilterAllKept(tasks, (t: Task) => Matches(t, q));
  }

  // ---------------------------------------------------------------------
  // Sorting

  datatype SortMode = ByDueDate | ByPriority | ByCreated

  /** The comparator handed to `sort`: negative puts `a` first, positive puts
      `b` first, zero keeps their order. Due dates ascend with undated tasks
      last; priorities descend; creation times descend (newest first). */
  function Compare(mode: SortMode, a: Task, b: Task): (r: int)
    ensures mode == ByDueDate ==>
      && (a.dueDate.None? && b.dueDate.None? ==> r == 0)
      && (a.dueDate.None? && b.dueDate.Some? ==> r > 0)
      && (a.dueDate.Some? && b.dueDate.None? ==> r < 0)
      && (a.dueDate.Some? && b.dueDate.Some? ==>
            (r > 0 <==> a.dueDate.value > b.dueDate.value) && (r == 0 <==> a.dueDate.value == b.dueDate.value))
    ensures mode == ByPriority ==>
      (r > 0 <==> Rank(a.priority) < Rank(b.priority)) && (r == 0 <==> a.priority == b.priority)
    ensures mode == ByCreated ==>
      (r > 0 <==> a.createdAt < b.createdAt) && (r == 0 <==> a.createdAt == b.createdAt)
  {
    match mode
    case ByDueDate =>
      if a.dueDate.None? && b.dueDate.None? then 0
      else if a.dueDate.None? then 1
      else if b.dueDate.None? then -1
      else a.dueDate.value - b.dueDate.value
    case ByPriority => Rank(b.priority) - Rank(a.priority)
    case ByCreated => b.createdAt - a.createdAt
  }

  /** `a` must be placed after `b`. */
  predicate GoesAfter(mode: SortMode, a: Task, b: Task)
  {
    Compare(mode, a, b) > 0
  }

  /** Every earlier element may stand before every later one. */
  predicate Sorted(mode: SortMode, s: seq<Task>)
  {
    forall i, j :: 0 <= i < j < |s| ==> Compare(mode, s[i], s[j]) <= 0
  }

  lemma CompareAntisymmetric(mode: SortMode, a: Task, b: Task)
    ensures Compare(mode, a, b) == -Compare(mode, b, a)
  {
  }

  lemma CompareTransitive(mode: SortMode, a: Task, b: Task, c: Task)
    requires Compare(mode, a, b) <= 0 && Compare(mode, b, c) <= 0
    ensures Compare(mode, a, c) <= 0
  {
  }

  lemma SameKeyTransitive(mode: SortMode, a: Task, b: Task, c: Task)
    requires Compare(mode, a, b) == 0 && Compare(mode, b, c) == 0
    ensures Compare(mode, a, c) == 0
  {
  }

  /** Two tasks with the same key as a third never have to be swapped. */
  lemma SameKeyNotAfter(mode: SortMode, x: Task, y: Task, t: Task)
    requires Compare(mode, x, y) == 0 && Compare(mode, t, y) == 0
    ensures !GoesAfter(mode, t, x)
  {
    CompareAntisymmetric(mode, x, y);
    SameKeyTransitive(mode, t, y, x);
  }

  /** Inserts `x` into `s` behind every element it may follow: scanning from
      the end, it passes exactly the elements that must go after it. */
  function Insert(mode: SortMode, s: seq<Task>, x: Task): (r: seq<Task>)
    ensures |r| == |s| + 1
  {
    if s == [] || !GoesAfter(mode, s[|s| - 1], x) then s + [x]
    else Insert(mode, s[..|s| - 1], x) + [s[|s| - 1]]
  }

  /** Inserting adds `x` and loses nothing. */
  lemma {:induction false} InsertPermutes(mode: SortMode, s: seq<Task>, x: Task)
    ensures multiset(Insert(mode, s, x)) == multiset(s) + multiset{x}
  {
    if s != [] && GoesAfter(mode, s[|s| - 1], x) {
      InsertPermutes(mode, s[..|s| - 1], x);
      assert s == s[..|s| - 1] + [s[|s| - 1]];
    }
  }

  /** The order `filtered.sort(compare)` leaves: a stable sort, here insertion
      sort over the elements in their original order. Because the comparator
      is a total preorder, every stable sort yields this same order. */
  function SortBy(mode: SortMode, s: seq<Task>): (r: seq<Task>)
    ensures |r| == |s|
  {
    if s == [] then []
    else Insert(mode, SortBy(mode, s[..|s| - 1]), s[|s| - 1])
  }

  /** The sorted view is a permutation of its input. */
  lemma {:induction false} SortByPermutes(mode: SortMode, s: seq<Task>)
    ensures multiset(SortBy(mode, s)) == multiset(s)
  {
    if s != [] {
      SortByPermutes(mode, s[..|s| - 1]);
      InsertPermutes(mode, SortBy(mode, s[..|s| - 1]), s[|s| - 1]);
      assert s == s[..|s| - 1] + [s[|s| - 1]];
    }
  }

  /** A sorted sequence stays sorted when an element that every element
      may precede is appended. */
  lemma SortedSnoc(mode: SortMode, s: seq<Task>, x: Task)
    requires Sorted(mode, s)
    requires forall k :: 0 <= k < |s| ==> Compare(mode, s[k], x) <= 0
    ensures Sorted(mode, s + [x])
  {
    var r := s + [x];
    forall i, j | 0 <= i < j < |r|
      ensures Compare(mode, r[i], r[j]) <= 0
    {
      if j < |s| {
        assert r[i] == s[i] && r[j] == s[j];
      } else {
        assert r[i] == s[i] && r[j] == x;
      }
    }
  }

  lemma {:induction false} InsertKeepsSorted(mode: SortMode, s: seq<Task>, x: Task)
    requires Sorted(mode, s)
    ensures Sorted(mode, Insert(mode, s, x))
  {
    if s == [] || !GoesAfter(mode, s[|s| - 1], x) {
      forall k | 0 <= k < |s|
        ensures Compare(mode, s[k], x) <= 0
      {
        if k < |s| - 1 {
          CompareTransitive(mode, s[k], s[|s| - 1], x);
        }
      }
      SortedSnoc(mode, s, x);
    } else {
      var init, last := s[..|s| - 1], s[|s| - 1];
      var m := Insert(mode, init, x);
      assert Sorted(mode, init) by {
        forall i, j | 0 <= i < j < |init|
          ensures Compare(mode, init[i], init[j]) <= 0
        {
          assert init[i] == s[i] && init[j] == s[j];
        }
      }
      InsertKeepsSorted(mode, init, x);
      InsertPermutes(mode, init, x);
      forall k | 0 <= k < |m|
        ensures Compare(mode, m[k], last) <= 0
      {
        assert m[k] in multiset(m);
        if m[k] == x {
          CompareAntisymmetric(mode, last, x);
        } else {
          assert m[k] in init;
          var n :| 0 <= n < |init| && init[n] == m[k];
          assert s[n] == m[k];
        }
      }
      SortedSnoc(mode, m, last);
    }
  }

  /** The sorted view respects the comparator throughout. */
  lemma {:induction false} SortBySorted(mode: SortMode, s: seq<Task>)
    ensures Sorted(mode, SortBy(mode, s))
  {
    if s != [] {
      SortBySorted(mode, s[..|s| - 1]);
      InsertKeepsSorted(mode, SortBy(mode, s[..|s| - 1]), s[|s| - 1]);
    }
  }

  /** The tasks of `s` the comparator ranks equal to `y`, in their order in
      `s`: the tasks whose relative order a stable sort must keep. */
  function EqualKeys(mode: SortMode, s: seq<Task>, y: Task): (r: seq<Task>)
    ensures forall t :: t in r ==> t in s && Compare(mode, t, y) == 0
  {
    if s == [] then []
    else
      var last := s[|s| - 1];
      EqualKeys(mode, s[..|s| - 1], y) + (if Compare(mode, last, y) == 0 then [last] else [])
  }

  lemma EqualKeysSnoc(mode: SortMode, s: seq<Task>, x: Task, y: Task)
    ensures EqualKeys(mode, s + [x], y) == EqualKeys(mode, s, y) + (if Compare(mode, x, y) == 0 then [x] else [])
  {
    assert (s + [x])[..|s|] == s;
  }

  /** Inserting `x` keeps the relative order of the tasks of each key class,
      with `x` behind those of its own class. */
  lemma {:induction false} InsertStable(mode: SortMode, s: seq<Task>, x: Task, y: Task)
    ensures EqualKeys(mode, Insert(mode, s, x), y) == EqualKeys(mode, s + [x], y)
  {
    if s != [] && GoesAfter(mode, s[|s| - 1], x) {
      var init, last := s[..|s| - 1], s[|s| - 1];
      assert s == init + [last];
      var ex := if Compare(mode, x, y) == 0 then [x] else [];
      var el := if Compare(mode, last, y) == 0 then [last] else [];
      InsertStable(mode, init, x, y);
      EqualKeysSnoc(mode, Insert(mode, init, x), last, y);
      EqualKeysSnoc(mode, init, x, y);
      EqualKeysSnoc(mode, s, x, y);
      EqualKeysSnoc(mode, init, last, y);
      assert EqualKeys(mode, Insert(mode, s, x), y) == EqualKeys(mode, init, y) + ex + el;
      assert EqualKeys(mode, s + [x], y) == EqualKeys(mode, init, y) + el + ex;
      if Compare(mode, x, y) == 0 && Compare(mode, last, y) == 0 {
        SameKeyNotAfter(mode, x, y, last);
      }
      var e := EqualKeys(mode, init, y);
      if ex == [] {
        assert e + ex == e;
        assert e + ex + el == e + el == e + el + ex;
      } else {
        assert el == [];
        assert e + el == e;
        assert e + ex + el == e + ex == e + el + ex;
      }
    }
  }

  /** Stability: among the tasks the comparator ranks equal to `y`, the sorted
      view keeps the order they had before sorting. */
  lemma {:induction false} SortByStable(mode: SortMode, s: seq<Task>, y: Task)
    ensures EqualKeys(mode, SortBy(mode, s), y) == EqualKeys(mode, s, y)
  {
    if s != [] {
      var init, last := s[..|s| - 1], s[|s| - 1];
      var sorted := SortBy(mode, init);
      var el := if Compare(mode, last, y) == 0 then [last] else [];
      assert SortBy(mode, s) == Insert(mode, sorted, last);
      InsertStable(mode, sorted, last, y);
      EqualKeysSnoc(mode, sorted, last, y);
      SortByStable(mode, init, y);
      assert EqualKeys(mode, SortBy(mode, s), y) == EqualKeys(mode, init, y) + el;
      assert EqualKeys(mode, s, y) == EqualKeys(mode, init, y) + el;
    }
  }

  /** Sorting one more element of `s` inserts it into the sorted prefix. */
  lemma SortBySnoc(mode: SortMode, s: seq<Task>, i: int)
    requires 0 <= i < |s|
    ensures SortBy(mode, s[..i + 1]) == Insert(mode, SortBy(mode, s[..i]), s[i])
  {
    assert s[..i + 1][..i] == s[..i];
  }

  /** Where `Insert` puts `x`: behind the longest suffix of `s` whose elements
      must all go after `x`. */
  function InsertPos(mode: SortMode, s: seq<Task>, x: Task): (p: nat)
    ensures p <= |s|
    ensures p == 0 || !GoesAfter(mode, s[p - 1], x)
  {
    if s == [] || !GoesAfter(mode, s[|s| - 1], x) then |s|
    else
      var p := InsertPos(mode, s[..|s| - 1], x);
      assert p == 0 || s[p - 1] == s[..|s| - 1][p - 1];
      p
  }

  /** `Insert` places `x` at `InsertPos`. */
  lemma {:induction false} InsertAtPos(mode: SortMode, s: seq<Task>, x: Task)
    ensures var p := InsertPos(mode, s, x); Insert(mode, s, x) == s[..p] + [x] + s[p..]
  {
    if s != [] && GoesAfter(mode, s[|s| - 1], x) {
      var init, last := s[..|s| - 1], s[|s| - 1];
      var p := InsertPos(mode, init, x);
      InsertAtPos(mode, init, x);
      assert s[..p] == init[..p];
      assert s[p..] == init[p..] + [last] by {
        assert s == init + [last];
      }
      calc {
        Insert(mode, s, x);
        Insert(mode, init, x) + [last];
        (init[..p] + [x] + init[p..]) + [last];
        init[..p] + [x] + (init[p..] + [last]);
        s[..p] + [x] + s[p..];
      }
    }
  }

  /** A backward scan from the end that passes only elements going after `x`
      and stops at the first one that does not, stops at `InsertPos`. */
  lemma {:induction false} ScanStop(mode: SortMode, s: seq<Task>, x: Task, j: int)
    requires 0 <= j <= |s|
    requires j == 0 || !GoesAfter(mode, s[j - 1], x)
    requires forall k :: j <= k < |s| ==> GoesAfter(mode, s[k], x)
    ensures InsertPos(mode, s, x) == j
  {
    if j < |s| {
      var init := s[..|s| - 1];
      assert GoesAfter(mode, s[|s| - 1], x);
      assert j == 0 || init[j - 1] == s[j - 1];
      assert forall k :: j <= k < |init| ==> init[k] == s[k];
      ScanStop(mode, init, x, j);
    }
  }

  /** Due-date mode: every dated task precedes every undated one, and dated
      tasks appear in non-decreasing due order. */
  lemma DueDateOrder(s: seq<Task>)
    ensures var r := SortBy(ByDueDate, s);
      forall i, j :: 0 <= i < j < |r| && r[j].dueDate.Some? ==>
        r[i].dueDate.Some? && r[i].dueDate.value <= r[j].dueDate.value
  {
    SortBySorted(ByDueDate, s);
  }

  /** Priority mode: ranks never increase (high 3, medium 2, low 1). */
  lemma PriorityOrder(s: seq<Task>)
    ensures var r := SortBy(ByPriority, s);
      forall i, j :: 0 <= i < j < |r| ==> Rank(r[i].priority) >= Rank(r[j].priority)
  {
    SortBySorted(ByPriority, s);
  }

  /** Creation mode: creation times never increase, newest first. */
  lemma CreatedOrder(s: seq<Task>)
    ensures var r := SortBy(ByCreated, s);
      forall i, j :: 0 <= i < j < |r| ==> r[i].createdAt >= r[j].createdAt
  {
    SortBySorted(ByCreated, s);
  }

  /** A sequence that agrees with `s` before `j`, holds `x` at `j` and agrees
      with `s` shifted by one after `j`. */
  lemma Splice(r: seq<Task>, s: seq<Task>, j: int, x: Task)
    requires |r| == |s| + 1 && 0 <= j <= |s|
    requires forall k :: 0 <= k < j ==> r[k] == s[k]
    requires r[j] == x
    requires forall k :: j < k < |r| ==> r[k] == s[k - 1]
    ensures r == s[..j] + [x] + s[j..]
  {
  }

  /** The scan of one pass: moves each element of the prefix `a[..i]` (which
      holds `sorted`) that must go after `x` one place to the right, and
      returns the slot left free for `x`. */
  method ShiftPast(a: array<Task>, i: int, x: Task, mode: SortMode, ghost sorted: seq<Task>) returns (j: int)
    requires 0 <= i < a.Length && a[..i] == sorted
    modifies a
    ensures j == InsertPos(mode, sorted, x)
    ensures forall k :: 0 <= k < j ==> a[k] == sorted[k]
    ensures forall k :: j < k <= i ==> a[k] == sorted[k - 1]
    ensures a[i + 1..] == old(a[i + 1..])
  {
    j := i;
    while j > 0 && GoesAfter(mode, a[j - 1], x)
      invariant 0 <= j <= i
      invariant forall k :: 0 <= k < j ==> a[k] == sorted[k]
      invariant forall k :: j < k <= i ==> a[k] == sorted[k - 1]
      invariant forall k :: j <= k < i ==> GoesAfter(mode, sorted[k], x)
      invariant a[i + 1..] == old(a[i + 1..])
    {
      a[j] := a[j - 1];
      j := j - 1;
    }
    ScanStop(mode, sorted, x, j);
  }

  /** One pass of the sort: inserts `a[i]` into the sorted prefix `a[..i]`. */
  method InsertAt(a: array<Task>, i: int, mode: SortMode)
    requires 0 <= i < a.Length
    modifies a
    ensures a[..i + 1] == Insert(mode, old(a[..i]), old(a[i]))
    ensures a[i + 1..] == old(a[i + 1..])
  {
    var x := a[i];
    ghost var sorted := a[..i];
    var j := ShiftPast(a, i, x, mode, sorted);
    a[j] := x;
    InsertAtPos(mode, sorted, x);
    Splice(a[..i + 1], sorted, j, x);
  }

  /** `filtered.sort(...)`: sorts the array in place, stably. */
  method SortInPlace(a: array<Task>, mode: SortMode)
    modifies a
    ensures a[..] == SortBy(mode, old(a[..]))
  {
    ghost var input := a[..];
    var i := 0;
    while i < a.Length
      invariant 0 <= i <= a.Length
      invariant a[..i] == SortBy(mode, input[..i])
      invariant a[i..] == input[i..]
    {
      ghost var prefix, rest := a[..i], a[i..];
      assert a[i] == rest[0] == input[i];
      assert a[i + 1..] == rest[1..] == input[i + 1..];
      InsertAt(a, i, mode);
      assert a[..i + 1] == Insert(mode, prefix, input[i]);
      SortBySnoc(mode, input, i);
      i := i + 1;
    }
    assert input[..a.Length] == input;
  }

  /** The section's list: the matching tasks, sorted. The section's own
      `tasks` sequence is untouched; only a fresh array is reordered. */
  method FilteredAndSorted(tasks: seq<Task>, q: Query, mode: SortMode) returns (view: seq<Task>)
    ensures view == SortBy(mode, Filtered(tasks, q))
    ensures forall t :: multiset(view)[t] == if Matches(t, q) then multiset(tasks)[t] else 0
    ensures Sorted(mode, view)
  {
    var filtered := Filtered(tasks, q);
    var a := new Task[|filtered|](i requires 0 <= i < |filtered| => filtered[i]);
    assert a[..] == filtered;
    SortInPlace(a, mode);
    view := a[..];
    SortBySorted(mode, filtered);
    SortByPermutes(mode, filtered);
  }

  // ---------------------------------------------------------------------
  // Categories

  /** `tasks.map(task => task.category)`. */
  function CategoryList(tasks: seq<Task>): (r: seq<string>)
    ensures |r| == |tasks|
    ensures forall i :: 0 <= i < |tasks| ==> r[i] == tasks[i].category
  {
    seq(|tasks|, i requires 0 <= i < |tasks| => tasks[i].category)
  }

  /** `Array.from(new Set(...))` of the categories: each category of some
      task exactly once, in the order of first appearance. */
  function Categories(tasks: seq<Task>): (r: seq<string>)
    ensures forall c :: c in r <==> c in CategoryList(tasks)
    ensures forall c :: c in r <==> exists t :: t in tasks && t.category == c
    ensures forall i, j :: 0 <= i < j < |r| ==> r[i] != r[j]
    ensures forall i, j :: 0 <= i < j < |r| ==>
      FirstIndex(CategoryList(tasks), r[i]) < FirstIndex(CategoryList(tasks), r[j])
  {
    var cats := CategoryList(tasks);
    assert forall c :: c in cats <==> exists t :: t in tasks && t.category == c by {
      forall c
        ensures c in cats <==> exists t :: t in tasks && t.category == c
      {
        if c in cats {
          var i :| 0 <= i < |cats| && cats[i] == c;
          assert tasks[i] in tasks;
        }
        if t :| t in tasks && t.category == c {
          var i :| 0 <= i < |tasks| && tasks[i] == t;
          assert cats[i] == c;
        }
      }
    }
    Distinct(cats)
  }
}
