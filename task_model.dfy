/** The task record: its priority and status enumerations, its column defaults
    and bounds. */
module TaskModel {
  import opened Common

  datatype TaskPriority = Low | Medium | High

  function PriorityName(p: TaskPriority): string
  {
    match p
    case Low => "low"
    case Medium => "medium"
    case High => "high"
  }

  /** The enumeration member a stored string names, if any. */
  function ParsePriority(s: string): (r: Option<TaskPriority>)
    ensures r.Some? ==> PriorityName(r.value) == s
  {
    if s == "low" then Some(Low)
    else if s == "medium" then Some(Medium)
    else if s == "high" then Some(High)
    else None
  }

  lemma PriorityRoundTrip(p: TaskPriority)
    ensures ParsePriority(PriorityName(p)) == Some(p)
  {
  }

  /** Exactly three strings name a priority. */
  lemma PriorityNames(s: string)
    ensures ParsePriority(s).Some? <==> s in {"low", "medium", "high"}
  {
  }

  datatype TaskStatus = Pending | Completed

  function StatusName(st: TaskStatus): string
  {
    match st
    case Pending => "pending"
    case Completed => "completed"
  }

  function ParseStatus(s: string): (r: Option<TaskStatus>)
    ensures r.Some? ==> StatusName(r.value) == s
  {
    if s == "pending" then Some(Pending)
    else if s == "completed" then Some(Completed)
    else None
  }

  lemma StatusRoundTrip(st: TaskStatus)
    ensures ParseStatus(StatusName(st)) == Some(st)
  {
  }

  lemma StatusNames(s: string)
    ensures ParseStatus(s).Some? <==> s in {"pending", "completed"}
  {
  }

  const TitleLength: nat := 300
  const PriorityLength: nat := 10
  const StatusLength: nat := 20
  const DefaultPriority: string := "medium"
  const DefaultStatus: TaskStatus := Pending

  /** Every priority and status name fits its column. */
  lemma NamesFitColumns(p: TaskPriority, st: TaskStatus)
    ensures |PriorityName(p)| <= PriorityLength && |StatusName(st)| <= StatusLength
    ensures ParsePriority(DefaultPriority) == Some(Medium)
  {
  }

  /** A row of the tasks table. The status column only ever receives the
      two status names, so it is kept as the enumeration; the priority column
      receives whatever string the caller passed. */
  datatype Task = Task(
    id: int,
    courseId: int,
    title: string,
    description: Option<string>,
    dueDate: Option<DateTime>,
    priority: string,
    status: TaskStatus,
    completedAt: Option<DateTime>,
    createdAt: DateTime,
    updatedAt: DateTime)

  function TaskKey(t: Task): int { t.id }
  function TaskCourse(t: Task): int { t.courseId }

  /** The title column is required and holds at most 300 characters. */
  predicate FitsColumns(t: Task)
  {
    |t.title| <= TitleLength && |t.priority| <= PriorityLength && |StatusName(t.status)| <= StatusLength
  }

  /** A task has a completion time exactly when it is completed. */
  predicate CompletionConsistent(t: Task)
  {
    t.completedAt.Some? <==> t.status == Completed
  }
}
