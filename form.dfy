/** The submit rule of src/components/TaskForm.tsx: when the trimmed title is
    not empty, the form hands the trimmed title, the trimmed description (or
    nothing when it is blank), the date text (or nothing when it is empty),
    the priority, the category and the parsed tags to `addTask`, then clears
    itself; otherwise nothing happens. */
module Form {
  import opened TaskModel
  import opened Seqs
  import opened Text
  import Tasks

  const DefaultCategory: string := "Personal"

  /** `parts.map(tag => tag.trim())`. */
  function TrimAll(parts: seq<string>): (r: seq<string>)
    ensures |r| == |parts|
    ensures forall k :: 0 <= k < |parts| ==> r[k] == Trim(parts[k])
  {
    seq(|parts|, k requires 0 <= k < |parts| => Trim(parts[k]))
  }

  /** A tag as the form produces it: not empty, no comma, no white space at
      either end. */
  predicate CleanTag(t: string)
  {
    t != [] && ',' !in t && !IsWhiteSpace(t[0]) && !IsWhiteSpace(t[|t| - 1])
  }

  /** Trimming comma-free pieces leaves clean tags and empty strings. */
  lemma TrimmedPiecesClean(pieces: seq<string>)
    requires forall k :: 0 <= k < |pieces| ==> ',' !in pieces[k]
    ensures forall t :: t in TrimAll(pieces) && t != [] ==> CleanTag(t)
  {
    var trimmed := TrimAll(pieces);
    forall t | t in trimmed && t != []
      ensures CleanTag(t)
    {
      var k :| 0 <= k < |trimmed| && trimmed[k] == t;
      TrimKeepsOut(pieces[k], ',');
    }
  }

  /** `tags.split(',').map(tag => tag.trim()).filter(tag => tag)`: clean tags,
      at most one per comma-separated piece. */
  function ParseTags(s: string): (r: seq<string>)
    ensures forall t :: t in r ==> CleanTag(t)
    ensures |r| <= Occurrences(s, ',') + 1
  {
    var pieces := Split(s, ',');
    TrimmedPiecesClean(pieces);
    Filter(TrimAll(pieces), (t: string) => t != [])
  }

  /** The parsed tags are the trimmed pieces in their left-to-right order,
      the empty ones dropped and every other one kept as often as it occurs. */
  lemma ParseTagsKeepsPieces(s: string)
    ensures var pieces := TrimAll(Split(s, ','));
      && IsSubsequence(ParseTags(s), pieces)
      && forall t :: t != [] ==> multiset(ParseTags(s))[t] == multiset(pieces)[t]
  {
  }

  /** Blank tag text yields no tags (the one piece trims to nothing). */
  lemma ParseTagsBlank(s: string)
    requires IsBlank(s)
    ensures ParseTags(s) == []
  {
    var pieces := Split(s, ',');
    assert ',' !in s;
    SplitNoSeparator(s, ',');
    var trimmed := TrimAll(pieces);
    assert trimmed == [Trim(s)] == [[]];
    FilterSingleton([], (t: string) => t != []);
  }

  /** Text without a comma is a single tag, trimmed. */
  lemma ParseTagsSingle(s: string)
    requires ',' !in s && !IsBlank(s)
    ensures ParseTags(s) == [Trim(s)]
  {
    SplitNoSeparator(s, ',');
    var trimmed := TrimAll(Split(s, ','));
    assert trimmed == [Trim(s)];
    FilterSingleton(Trim(s), (t: string) => t != []);
  }

  /** Trimming clean tags changes nothing. */
  lemma TrimAllClean(tags: seq<string>)
    requires forall k :: 0 <= k < |tags| ==> CleanTag(tags[k])
    ensures TrimAll(tags) == tags
  {
    var trimmed := TrimAll(tags);
    forall k | 0 <= k < |tags|
      ensures trimmed[k] == tags[k]
    {
      TrimClean(tags[k]);
    }
  }

  /** Writing clean tags separated by commas and parsing the text gives the
      tags back. */
  lemma ParseJoinedTags(tags: seq<string>)
    requires tags != []
    requires forall k :: 0 <= k < |tags| ==> CleanTag(tags[k])
    ensures ParseTags(Join(tags, ',')) == tags
  {
    SplitJoin(tags, ',');
    var trimmed := TrimAll(tags);
    TrimAllClean(tags);
    forall t | t in tags
      ensures t != []
    {
      var k :| 0 <= k < |tags| && tags[k] == t;
    }
    FilterAllKept(tags, (t: string) => t != []);
    assert ParseTags(Join(tags, ',')) == Filter(trimmed, (t: string) => t != []);
  }

  /** What `handleSubmit` passes to `onAddTask`. The date stays text here;
      `addTask` stores it as given. */
  datatype Submission = Submission(
    title: string,
    description: Option<string>,
    dueDate: Option<string>,
    priority: Priority,
    category: string,
    tags: seq<string>)

  /** The decision `handleSubmit` makes on the field values: nothing is
      submitted exactly when the title is blank; otherwise the date text is
      passed on when it is not empty, and the priority and category as they
      are. */
  function Submit(title: string, description: string, dueDate: string,
                  priority: Priority, category: string, tags: string): (r: Option<Submission>)
    ensures r.None? <==> IsBlank(title)
    ensures r.Some? ==> (r.value.dueDate.None? <==> dueDate == [])
    ensures r.Some? && r.value.dueDate.Some? ==> r.value.dueDate.value == dueDate
    ensures r.Some? ==> r.value.priority == priority && r.value.category == category
  {
    var t := Trim(title);
    if t == [] then None
    else
      var d := Trim(description);
      Some(Submission(
        t,
        if d == [] then None else Some(d),
        if dueDate == [] then None else Some(dueDate),
        priority,
        category,
        ParseTags(tags)))
  }

  /** A submitted title is the entered title with the white space around it
      cut away: not empty, and neither starting nor ending with white space. */
  lemma SubmittedTitleTrimmed(title: string, description: string, dueDate: string,
                              priority: Priority, category: string, tags: string)
    requires !IsBlank(title)
    ensures var t := Submit(title, description, dueDate, priority, category, tags).value.title;
      && t != [] && !IsWhiteSpace(t[0]) && !IsWhiteSpace(t[|t| - 1])
      && exists i :: Strips(title, t, i)
  {
    TrimStrips(title);
  }

  /** A blank description is left out; any other is submitted with the white
      space around it cut away. */
  lemma SubmittedDescriptionTrimmed(title: string, description: string, dueDate: string,
                                    priority: Priority, category: string, tags: string)
    requires !IsBlank(title)
    ensures var d := Submit(title, description, dueDate, priority, category, tags).value.description;
      && (d.None? <==> IsBlank(description))
      && (d.Some? ==> !IsWhiteSpace(d.value[0]) && !IsWhiteSpace(d.value[|d.value| - 1]))
      && (d.Some? ==> exists i :: Strips(description, d.value, i))
  {
    TrimStrips(description);
  }

  /** The submitted tags are the parsed tag text, all of them clean. */
  lemma SubmittedTagsClean(title: string, description: string, dueDate: string,
                           priority: Priority, category: string, tags: string)
    requires !IsBlank(title)
    ensures var ts := Submit(title, description, dueDate, priority, category, tags).value.tags;
      && ts == ParseTags(tags)
      && forall t :: t in ts ==> CleanTag(t)
  {
  }

  /** A task added from the form never has a blank title. */
  lemma SubmittedTitleNotBlank(prev: seq<Task>, id: string, title: string, description: string,
                               dueText: string, due: Option<Instant>, priority: Priority,
                               category: string, tags: string, now: Instant)
    requires !IsBlank(title)
    ensures var sub := Submit(title, description, dueText, priority, category, tags).value;
      var r := Tasks.Added(prev, id, sub.title, sub.description, due, sub.priority, sub.category, sub.tags, now);
      !IsBlank(r[|prev|].title) && Trim(r[|prev|].title) == r[|prev|].title
  {
    var sub := Submit(title, description, dueText, priority, category, tags).value;
    SubmittedTitleTrimmed(title, description, dueText, priority, category, tags);
    TrimClean(sub.title);
  }

  /** The form's controlled fields. */
  class TaskForm {
    var title: string
    var description: string
    var dueDate: string
    var priority: Priority
    var category: string
    var tags: string
    var isExpanded: bool

    /** Every field at its initial value: empty texts, medium priority, the
        "Personal" category, the details collapsed. */
    predicate IsCleared()
      reads this
    {
      && title == [] && description == [] && dueDate == []
      && priority == Medium && category == DefaultCategory && tags == []
      && !isExpanded
    }

    constructor ()
      ensures IsCleared()
    {
      title, description, dueDate := [], [], [];
      priority, category, tags := Medium, DefaultCategory, [];
      isExpanded := false;
    }

    /** The seven setters `handleSubmit` calls after a submission. */
    method Clear()
      modifies this
      ensures IsCleared()
    {
      title, description, dueDate := [], [], [];
      priority, category, tags := Medium, DefaultCategory, [];
      isExpanded := false;
    }

    /** `handleSubmit`: with a non-blank title the submission is added to the
        store (`due` is the instant the date text denotes, absent exactly when
        the text is empty) and the form is cleared; with a blank title neither
        the form nor the store changes. */
    method HandleSubmit(store: Tasks.TaskStore, id: string, due: Option<Instant>, now: Instant)
      returns (submitted: Option<Submission>)
      requires due.None? <==> dueDate == []
      modifies this, store
      ensures submitted == Submit(old(title), old(description), old(dueDate), old(priority), old(category), old(tags))
      ensures submitted.None? ==> unchanged(this) && unchanged(store)
      ensures submitted.Some? ==>
        && IsCleared()
        && store.tasks == Tasks.Added(old(store.tasks), id, submitted.value.title, submitted.value.description,
                                      due, submitted.value.priority, submitted.value.category,
                                      submitted.value.tags, now)
    {
      submitted := Submit(title, description, dueDate, priority, category, tags);
      if submitted.Some? {
        var sub := submitted.value;
        store.AddTask(id, sub.title, sub.description, due, sub.priority, sub.category, sub.tags, now);
        Clear();
      }
    }
  }
}
