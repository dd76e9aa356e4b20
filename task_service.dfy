/** The task service: create a task with its defaults, list a course's tasks
    (status filter, then LIMIT/OFFSET, then the time view, then an in-place
    sort), update a task with the pending/completed state machine, delete. */
module TaskService {
  import opened Common
  import opened Tables
  import opened TaskModel
  import opened LinkModel
  import opened DateFilters
  import opened TaskSchema
  import Store
  import CourseModel

  /** Every task has a completion time exactly when it is completed. */
  ghost predicate AllCompletionConsistent(tasks: seq<Task>)
  {
    forall t :: t in tasks ==> CompletionConsistent(t)
  }

  method CreateTask(db: Store.Database, courseId: int, title: string, description: Option<string> := None,
                    dueDate: Option<DateTime> := None, priority: string := DefaultPriority)
    returns (r: Result<Task, ServiceError>)
    requires db.Valid()
    modifies db
    ensures db.Valid()
    ensures r.Ok? <==> courseId in Ids(db.courses, CourseModel.CourseKey)
    ensures r.Err? ==>
      && r.error == IntegrityError
      && db.tasks == old(db.tasks)
      && db.nextTaskId == old(db.nextTaskId)
      && db.clock == old(db.clock)
    ensures r.Ok? ==> db.tasks == old(db.tasks) + [r.value] && r.value.id !in Ids(old(db.tasks), TaskKey)
    ensures r.Ok? ==>
      && r.value.courseId == courseId && r.value.title == title && r.value.description == description
      && r.value.dueDate == dueDate && r.value.priority == priority
      && r.value.status == Pending && r.value.completedAt == None
      && r.value.createdAt == r.value.updatedAt == db.clock > old(db.clock)
    ensures db.courses == old(db.courses) && db.notes == old(db.notes) && db.links == old(db.links)
    ensures AllCompletionConsistent(old(db.tasks)) ==> AllCompletionConsistent(db.tasks)
  {
    r := db.InsertTask(courseId, title, description, dueDate, priority, Pending);
  }

  /** The `completed` filter as the status it selects. */
  function StatusFilter(completed: Option<bool>): (r: Option<TaskStatus>)
    ensures completed == Some(true) <==> r == Some(Completed)
    ensures completed == Some(false) <==> r == Some(Pending)
  {
    match completed
    case None => None
    case Some(b) => Some(if b then Completed else Pending)
  }

  /** The rows the SQL query selects, before LIMIT/OFFSET: the course's
      tasks, of the requested status, in table order. */
  function TaskRows(tasks: seq<Task>, courseId: int, status: Option<TaskStatus>): (r: seq<Task>)
    ensures |r| <= |tasks|
    ensures forall t :: t in r <==> t in tasks && t.courseId == courseId && (status.Some? ==> t.status == status.value)
  {
    if tasks == [] then []
    else if tasks[0].courseId == courseId && (status.Some? ==> tasks[0].status == status.value) then
      [tasks[0]] + TaskRows(tasks[1..], courseId, status)
    else TaskRows(tasks[1..], courseId, status)
  }

  /** A task belongs to a time view: it has a due date, and the day of that
      due date satisfies the view's predicate. */
  predicate InView(t: Task, view: Option<string>, today: Date)
  {
    t.dueDate.Some? &&
    var day := Some(DateValue(DayOf(t.dueDate.value)));
    || (view == Some("today") && IsToday(day, today))
    || (view == Some("week") && IsThisWeek(day, today))
    || (view == Some("upcoming") && IsUpcoming(day, today))
  }

  /** The tasks of a time view, in order. */
  function KeepInView(tasks: seq<Task>, view: Option<string>, today: Date): (r: seq<Task>)
    ensures |r| <= |tasks|
    ensures forall t :: t in r <==> t in tasks && InView(t, view, today)
  {
    if tasks == [] then []
    else
      var init, last := tasks[..|tasks| - 1], tasks[|tasks| - 1];
      assert tasks == init + [last];
      KeepInView(init, view, today) + (if InView(last, view, today) then [last] else [])
  }

  /** The view filter: the view "all" keeps every task; any other value,
      `None` included, keeps the dated tasks its predicate accepts. */
  function ViewFilter(tasks: seq<Task>, view: Option<string>, today: Date): seq<Task>
  {
    if view == Some("all") then tasks else KeepInView(tasks, view, today)
  }

  /** What the view filter keeps: tasks of its input, all in the view
      unless the view is "all", and none at all for a missing view. */
  lemma ViewFilterKeeps(tasks: seq<Task>, view: Option<string>, today: Date)
    ensures |ViewFilter(tasks, view, today)| <= |tasks|
    ensures forall t :: t in ViewFilter(tasks, view, today) ==> t in tasks
    ensures view != Some("all") ==> forall t :: t in ViewFilter(tasks, view, today) ==> InView(t, view, today)
    ensures view.None? ==> ViewFilter(tasks, view, today) == []
  {
    var r := ViewFilter(tasks, view, today);
    if view.None? && r != [] {
      assert r[0] in r;
    }
  }

  /** The `priority_order` mapping, with 3 for a priority it does not list. */
  function PriorityRank(p: string): int
  {
    if p == "high" then 0 else if p == "medium" then 1 else if p == "low" then 2 else 3
  }

  /** The sort key: the due date (`datetime.max` when there is none), the
      priority rank, or the creation time for any other `sort_by`. */
  function SortKeyOf(t: Task, sortBy: string): int
  {
    if sortBy == "due_date" then (if t.dueDate.Some? then t.dueDate.value else DateTimeMax)
    else if sortBy == "priority" then PriorityRank(t.priority)
    else t.createdAt
  }

  /** `reverse=True` keeps a stable sort stable, which is sorting ascending
      on the negated key. */
  function DirectedKey(t: Task, sortBy: string, desc: bool): int
  {
    if desc then -SortKeyOf(t, sortBy) else SortKeyOf(t, sortBy)
  }

  /** The key `sort` uses for a column and a direction. */
  function KeyFn(sortBy: string, desc: bool): Task -> int
  {
    t => DirectedKey(t, sortBy, desc)
  }

  /** Non-decreasing under a key. */
  ghost predicate SortedOn(s: seq<Task>, key: Task -> int)
  {
    forall i, j :: 0 <= i < j < |s| ==> key(s[i]) <= key(s[j])
  }

  ghost predicate SortedTasks(s: seq<Task>, sortBy: string, desc: bool)
  {
    SortedOn(s, KeyFn(sortBy, desc))
  }

  /** Exchanges two neighbouring tasks. */
  method SwapDown(a: array<Task>, j: int)
    requires 0 < j < a.Length
    modifies a
    ensures a[j - 1] == old(a[j]) && a[j] == old(a[j - 1])
    ensures forall m :: 0 <= m < a.Length && m != j - 1 && m != j ==> a[m] == old(a[m])
    ensures multiset(a[..]) == old(multiset(a[..]))
  {
    a[j - 1], a[j] := a[j], a[j - 1];
  }

  /** One pass of the insertion sort: the task at `i` moves left past the
      tasks with a strictly larger key, so equal keys keep their order. */
  method InsertAt(a: array<Task>, i: int, key: Task -> int)
    requires 0 <= i < a.Length
    requires forall k, l :: 0 <= k < l < i ==> key(a[k]) <= key(a[l])
    modifies a
    ensures forall k, l :: 0 <= k < l <= i ==> key(a[k]) <= key(a[l])
    ensures multiset(a[..]) == old(multiset(a[..]))
  {
    var j := i;
    while j > 0 && key(a[j - 1]) > key(a[j])
      invariant 0 <= j <= i
      invariant forall k, l :: 0 <= k < l <= i && k != j && l != j ==> key(a[k]) <= key(a[l])
      invariant forall l :: j < l <= i ==> key(a[j]) <= key(a[l])
      invariant multiset(a[..]) == old(multiset(a[..]))
    {
      SwapDown(a, j);
      j := j - 1;
    }
  }

  /** `tasks.sort(key=...)`: a stable insertion sort in place. */
  method SortTasks(a: array<Task>, key: Task -> int)
    modifies a
    ensures SortedOn(a[..], key)
    ensures multiset(a[..]) == old(multiset(a[..]))
  {
    var i := 0;
    while i < a.Length
      invariant 0 <= i <= a.Length
      invariant forall k, l :: 0 <= k < l < i ==> key(a[k]) <= key(a[l])
      invariant multiset(a[..]) == old(multiset(a[..]))
    {
      InsertAt(a, i, key);
      i := i + 1;
    }
  }

  /** The view loop of `get_tasks_by_course`: walk the page and append each
      dated task whose due day the view accepts. */
  method FilterByView(tasks: seq<Task>, view: Option<string>, today: Date) returns (filtered: seq<Task>)
    requires view != Some("all")
    ensures filtered == ViewFilter(tasks, view, today)
  {
    filtered := [];
    var i := 0;
    while i < |tasks|
      invariant 0 <= i <= |tasks|
      invariant filtered == KeepInView(tasks[..i], view, today)
    {
      var task := tasks[i];
      assert tasks[..i + 1][..i] == tasks[..i];
      if task.dueDate.None? {
        i := i + 1;
        continue;
      }
      var taskDate := Some(DateValue(DayOf(task.dueDate.value)));
      if view == Some("today") && IsToday(taskDate, today) {
        filtered := filtered + [task];
      } else if view == Some("week") && IsThisWeek(taskDate, today) {
        filtered := filtered + [task];
      } else if view == Some("upcoming") && IsUpcoming(taskDate, today) {
        filtered := filtered + [task];
      }
      i := i + 1;
    }
    assert tasks[..i] == tasks;
  }

  method GetTasksByCourse(db: Store.Database, today: Date, courseId: int, completed: Option<bool> := None,
                          sortBy: string := "created_at", order: string := "asc", limit: nat := 50, offset: nat := 0,
                          view: Option<string> := Some("all"))
    returns (r: seq<Task>)
    ensures multiset(r) == multiset(ViewFilter(Page(TaskRows(db.tasks, courseId, StatusFilter(completed)), limit, offset), view, today))
    ensures SortedTasks(r, sortBy, order == "desc")
    ensures |r| <= limit
    ensures forall t :: t in r ==> t in db.tasks && t.courseId == courseId
    ensures completed.Some? ==> forall t :: t in r ==> t.status == (if completed.value then Completed else Pending)
    ensures view != Some("all") ==> forall t :: t in r ==> t.dueDate.Some? && InView(t, view, today)
    ensures view.None? ==> r == []
  {
    var rows := TaskRows(db.tasks, courseId, StatusFilter(completed));
    var page := Page(rows, limit, offset);
    PageElements(rows, limit, offset);
    ViewFilterKeeps(page, view, today);
    var tasks := page;
    if view != Some("all") {
      tasks := FilterByView(page, view, today);
    }
    assert tasks == ViewFilter(page, view, today);
    var a := new Task[|tasks|](k requires 0 <= k < |tasks| => tasks[k]);
    assert a[..] == tasks;
    SortTasks(a, KeyFn(sortBy, order == "desc"));
    r := a[..];
    SameElements(r, tasks);
  }

  /** Two sequences with the same multiset have the same elements and the
      same length. */
  lemma SameElements(r: seq<Task>, s: seq<Task>)
    requires multiset(r) == multiset(s)
    ensures |r| == |s|
    ensures forall t :: t in r ==> t in s
  {
    assert |multiset(r)| == |multiset(s)|;
    forall t | t in r ensures t in s {
      assert t in multiset(r);
    }
  }

  /** Pagination happens before the view filter: a page can come back empty
      although a task of that view exists, because the page was filled by a
      task the view drops. */
  lemma PageBeforeViewCanHideTasks()
    ensures var today := 20000;
            var undated := Task(1, 1, "A", None, None, "medium", Pending, None, 0, 0);
            var dueToday := Task(2, 1, "B", None, Some(today * SecondsPerDay), "medium", Pending, None, 0, 0);
            var rows := TaskRows([undated, dueToday], 1, None);
            && ViewFilter(Page(rows, 1, 0), Some("today"), today) == []
            && ViewFilter(Page(rows, 2, 0), Some("today"), today) == [dueToday]
  {
    var today := 20000;
    var undated := Task(1, 1, "A", None, None, "medium", Pending, None, 0, 0);
    var dueToday := Task(2, 1, "B", None, Some(today * SecondsPerDay), "medium", Pending, None, 0, 0);
    var rows := TaskRows([undated, dueToday], 1, None);
    assert [undated, dueToday][1..] == [dueToday];
    assert rows == [undated, dueToday];
    assert Page(rows, 1, 0) == [undated];
    assert Page(rows, 2, 0) == rows;
    assert [undated][..0] == [];
    assert [undated, dueToday][..1] == [undated];
    assert DayOf(today * SecondsPerDay) == today;
    assert InView(dueToday, Some("today"), today);
  }

  /** Sorted by due date ascending, a task without a due date comes after
      every task due before `datetime.max`. */
  lemma UndatedLastByDueDate(s: seq<Task>, i: nat, j: nat)
    requires SortedTasks(s, "due_date", false)
    requires i < |s| && j < |s| && s[i].dueDate.None? && s[j].dueDate.Some? && s[j].dueDate.value < DateTimeMax
    ensures j < i
  {
  }

  /** The ranks of `priority_order`: high, then medium, then low, then any
      value the mapping does not list. */
  lemma PriorityRanks()
    ensures PriorityRank(PriorityName(High)) < PriorityRank(PriorityName(Medium)) < PriorityRank(PriorityName(Low))
    ensures forall p :: ParsePriority(p).None? ==> PriorityRank(PriorityName(Low)) < PriorityRank(p)
  {
  }

  /** Sorted by priority ascending, a task of lower rank comes first. */
  lemma PriorityRankOrder(s: seq<Task>, i: nat, j: nat)
    requires SortedTasks(s, "priority", false)
    requires i < |s| && j < |s|
    requires PriorityRank(s[j].priority) < PriorityRank(s[i].priority)
    ensures j < i
  {
  }

  /** Sorted by priority ascending, a high-priority task comes before every
      task whose priority is not high. */
  lemma PriorityOrder(s: seq<Task>, i: nat, j: nat)
    requires SortedTasks(s, "priority", false)
    requires i < |s| && j < |s|
    requires ParsePriority(s[j].priority).Some? && ParsePriority(s[j].priority).value == High
    requires s[i].priority != "high"
    ensures j < i
  {
  }

  /** The task after `update_task`, at time `now`: the given fields replaced,
      the completion state moved, and `updated_at` stamped when a column
      changed. */
  function ApplyTaskUpdate(t: Task, p: TaskUpdate, now: DateTime): Task
  {
    var t1 := t.(
      title := if p.title.Some? then p.title.value else t.title,
      description := if p.description.Some? then p.description else t.description,
      dueDate := if p.dueDate.Some? then p.dueDate else t.dueDate,
      priority := if p.priority.Some? then p.priority.value else t.priority);
    var t2 := match p.isCompleted
      case None => t1
      case Some(true) => t1.(status := Completed, completedAt := Some(now))
      case Some(false) => t1.(status := Pending, completedAt := None);
    if t2 != t then t2.(updatedAt := now) else t2
  }

  /** A field whose argument is `None` keeps its value; the key columns and
      the creation time never change. */
  lemma UpdateKeepsUnsetFields(t: Task, p: TaskUpdate, now: DateTime)
    ensures var r := ApplyTaskUpdate(t, p, now);
      && r.id == t.id && r.courseId == t.courseId && r.createdAt == t.createdAt
      && (p.title.None? ==> r.title == t.title)
      && (p.description.None? ==> r.description == t.description)
      && (p.dueDate.None? ==> r.dueDate == t.dueDate)
      && (p.priority.None? ==> r.priority == t.priority)
      && (p.isCompleted.None? ==> r.status == t.status && r.completedAt == t.completedAt)
  {
  }

  /** A field whose argument is given takes it. */
  lemma UpdateSetsGivenFields(t: Task, p: TaskUpdate, now: DateTime)
    ensures var r := ApplyTaskUpdate(t, p, now);
      && (p.title.Some? ==> r.title == p.title.value)
      && (p.description.Some? ==> r.description == p.description)
      && (p.dueDate.Some? ==> r.dueDate == p.dueDate)
      && (p.priority.Some? ==> r.priority == p.priority.value)
  {
  }

  /** Completing sets the status and the completion time; reopening sets
      pending and clears it. */
  lemma UpdateCompletion(t: Task, p: TaskUpdate, now: DateTime)
    ensures p.isCompleted == Some(true) ==>
      ApplyTaskUpdate(t, p, now).status == Completed && ApplyTaskUpdate(t, p, now).completedAt == Some(now)
    ensures p.isCompleted == Some(false) ==>
      ApplyTaskUpdate(t, p, now).status == Pending && ApplyTaskUpdate(t, p, now).completedAt == None
  {
  }

  lemma UpdateKeepsCompletionConsistent(t: Task, p: TaskUpdate, now: DateTime)
    requires CompletionConsistent(t)
    ensures CompletionConsistent(ApplyTaskUpdate(t, p, now))
  {
  }

  /** An update without arguments changes nothing, not even `updated_at`. */
  lemma EmptyUpdateChangesNothing(t: Task, now: DateTime)
    ensures ApplyTaskUpdate(t, TaskUpdate(None, None, None, None, None), now) == t
  {
  }

  /** `updated_at` moves forward exactly when some column changed. */
  lemma UpdateStampsChanges(t: Task, p: TaskUpdate, now: DateTime)
    requires t.updatedAt < now
    ensures var r := ApplyTaskUpdate(t, p, now);
      (r != t <==> r.updatedAt > t.updatedAt) && (r != t ==> r.updatedAt == now)
  {
  }

  /** The assignments of `update_task`: each given field is set, completion
      moves the state, and the row is stamped if a column changed. */
  method AssignFields(before: Task, title: Option<string>, description: Option<string>, dueDate: Option<DateTime>,
                     priority: Option<string>, isCompleted: Option<bool>, now: DateTime)
    returns (task: Task)
    ensures task == ApplyTaskUpdate(before, TaskUpdate(title, description, dueDate, priority, isCompleted), now)
  {
    task := before;
    if title.Some? {
      task := task.(title := title.value);
    }
    if description.Some? {
      task := task.(description := description);
    }
    if dueDate.Some? {
      task := task.(dueDate := dueDate);
    }
    if priority.Some? {
      task := task.(priority := priority.value);
    }
    if isCompleted.Some? {
      if isCompleted.value {
        task := task.(status := Completed, completedAt := Some(now));
      } else {
        task := task.(status := Pending, completedAt := None);
      }
    }
    if task != before {
      task := task.(updatedAt := now);
    }
  }

  method UpdateTask(db: Store.Database, taskId: int, title: Option<string> := None, description: Option<string> := None,
                    dueDate: Option<DateTime> := None, priority: Option<string> := None, isCompleted: Option<bool> := None)
    returns (r: Result<Task, ServiceError>)
    requires db.Valid()
    modifies db
    ensures db.Valid()
    ensures r.Err? <==> taskId !in Ids(old(db.tasks), TaskKey)
    ensures r.Err? ==> r.error == NotFound && db.tasks == old(db.tasks) && db.clock == old(db.clock)
    ensures r.Ok? ==>
      var i := Find(old(db.tasks), TaskKey, taskId).value;
      && r.value == ApplyTaskUpdate(old(db.tasks)[i], TaskUpdate(title, description, dueDate, priority, isCompleted), db.clock)
      && db.tasks == old(db.tasks)[i := r.value]
      && db.clock > old(db.clock)
      && (r.value != old(db.tasks)[i] <==> r.value.updatedAt > old(db.tasks)[i].updatedAt)
    ensures db.courses == old(db.courses) && db.notes == old(db.notes) && db.links == old(db.links)
    ensures AllCompletionConsistent(old(db.tasks)) ==> AllCompletionConsistent(db.tasks)
  {
    var found := Find(db.tasks, TaskKey, taskId);
    FindIds(db.tasks, TaskKey, taskId);
    if found.None? {
      return Err(NotFound);
    }
    var i := found.value;
    var now := db.Now();
    var before := db.tasks[i];
    var task := AssignFields(before, title, description, dueDate, priority, isCompleted, now);
    UpdateStampsChanges(before, TaskUpdate(title, description, dueDate, priority, isCompleted), now);
    ghost var old0 := db.tasks;
    db.StoreTask(i, task);
    if AllCompletionConsistent(old0) {
      UpdateKeepsCompletionConsistent(before, TaskUpdate(title, description, dueDate, priority, isCompleted), now);
      ReplaceKeepsKeys(old0, TaskKey, i, task);
    }
    r := Ok(task);
  }

  method DeleteTask(db: Store.Database, taskId: int) returns (r: Result<Unit, ServiceError>)
    requires db.Valid()
    modifies db
    ensures db.Valid()
    ensures r.Err? <==> taskId !in Ids(old(db.tasks), TaskKey)
    ensures r.Err? ==>
      && r.error == NotFound
      && db.tasks == old(db.tasks)
      && db.links == old(db.links)
      && db.clock == old(db.clock)
    ensures r.Ok? ==>
      && db.tasks == Exclude(old(db.tasks), TaskKey, {taskId})
      && taskId !in Ids(db.tasks, TaskKey)
      && db.links == Unlinked(old(db.links), {}, {taskId})
      && LinkedNotes(db.links, taskId) == {}
    ensures db.courses == old(db.courses) && db.notes == old(db.notes)
    ensures AllCompletionConsistent(old(db.tasks)) ==> AllCompletionConsistent(db.tasks)
  {
    var found := Find(db.tasks, TaskKey, taskId);
    FindIds(db.tasks, TaskKey, taskId);
    if found.None? {
      return Err(NotFound);
    }
    ExcludeIds(db.tasks, TaskKey, {taskId});
    db.DeleteTaskRow(taskId);
    UnlinkTask(old(db.links), taskId, taskId);
    r := Ok(Unit);
  }
}
