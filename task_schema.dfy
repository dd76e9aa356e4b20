/** The request schemas for tasks: a blank title becomes a timestamped
    placeholder, the priority must be one of the three names, and the title
    holds at most 300 characters. A validation failure names every field
    that failed, in field order. */
module TaskSchema {
  import opened Common
  import opened TaskModel

  /** The characters Python's `str.strip()` removes (those for which
      `str.isspace` holds). */
  predicate IsSpace(c: char)
  {
    || ('\t' <= c <= '\r')
    || ('\U{001C}' <= c <= '\U{001F}')
    || c == ' ' || c == '\U{0085}' || c == '\U{00A0}' || c == '\U{1680}'
    || ('\U{2000}' <= c <= '\U{200A}')
    || c == '\U{2028}' || c == '\U{2029}' || c == '\U{202F}' || c == '\U{205F}' || c == '\U{3000}'
  }

  /** A string made of whitespace only (the empty string included). */
  predicate IsBlank(s: string)
  {
    forall i :: 0 <= i < |s| ==> IsSpace(s[i])
  }

  /** The string without its leading whitespace. */
  function TrimStart(s: string): (r: string)
    ensures |r| <= |s| && r == s[|s| - |r|..]
    ensures r != [] ==> !IsSpace(r[0])
    ensures forall i :: 0 <= i < |s| - |r| ==> IsSpace(s[i])
  {
    if s != [] && IsSpace(s[0]) then TrimStart(s[1..]) else s
  }

  /** The string without its trailing whitespace. */
  function TrimEnd(s: string): (r: string)
    ensures |r| <= |s| && r == s[..|r|]
    ensures r != [] ==> !IsSpace(r[|r| - 1])
    ensures forall i :: |r| <= i < |s| ==> IsSpace(s[i])
  {
    if s != [] && IsSpace(s[|s| - 1]) then TrimEnd(s[..|s| - 1]) else s
  }

  /** `str.strip()`. */
  function Strip(s: string): string
  {
    TrimEnd(TrimStart(s))
  }

  /** Stripping leaves nothing exactly when the string is blank. */
  lemma StripEmptyIffBlank(s: string)
    ensures Strip(s) == [] <==> IsBlank(s)
  {
  }

  /** What TrimStart cuts off is whitespace. */
  lemma TrimStartCutIsBlank(s: string)
    ensures IsBlank(s[..|s| - |TrimStart(s)|])
  {
    var c := s[..|s| - |TrimStart(s)|];
    forall k | 0 <= k < |c| ensures IsSpace(c[k]) {
      assert c[k] == s[k];
    }
  }

  /** What TrimEnd cuts off is whitespace. */
  lemma TrimEndCutIsBlank(u: string)
    ensures IsBlank(u[|TrimEnd(u)|..])
  {
    var c := u[|TrimEnd(u)|..];
    forall k | 0 <= k < |c| ensures IsSpace(c[k]) {
      assert c[k] == u[|TrimEnd(u)| + k];
    }
  }

  /** A slice with whitespace on both sides is an inner slice. */
  lemma InnerSliceWitness(s: string, v: string, i: nat, j: nat)
    requires i <= j <= |s| && v == s[i..j] && IsBlank(s[..i]) && IsBlank(s[j..])
    ensures exists i', j' :: 0 <= i' <= j' <= |s| && v == s[i'..j'] && IsBlank(s[..i']) && IsBlank(s[j'..])
  {
  }

  /** Cutting a suffix of a string again is cutting the string. */
  lemma SliceOfSuffix(s: string, i: nat, k: nat)
    requires i + k <= |s|
    ensures s[i..][..k] == s[i..i + k] && s[i..][k..] == s[i + k..]
  {
  }

  /** Stripping removes only outer whitespace: what remains is a slice of
      the string, and everything cut off before and after it is whitespace. */
  lemma StripIsInnerSlice(s: string)
    ensures exists i, j :: 0 <= i <= j <= |s| && Strip(s) == s[i..j] && IsBlank(s[..i]) && IsBlank(s[j..])
  {
    var u := TrimStart(s);
    var v := TrimEnd(u);
    var i := |s| - |u|;
    SliceOfSuffix(s, i, |v|);
    TrimStartCutIsBlank(s);
    TrimEndCutIsBlank(u);
    InnerSliceWitness(s, v, i, i + |v|);
  }

  /** A stripped string that is not empty starts and ends with a visible
      character. */
  lemma StripHasVisibleEnds(s: string)
    ensures Strip(s) != [] ==> !IsSpace(Strip(s)[0]) && !IsSpace(Strip(s)[|Strip(s)| - 1])
  {
    var u := TrimStart(s);
    var v := TrimEnd(u);
    if v != [] {
      assert v == u[..|v|];
      assert v[0] == u[0];
    }
  }

  const PlaceholderPrefix: string := "Untitled Task - "

  /** `generate_auto_title`: a blank title is replaced by
      "Untitled Task - " and the formatted creation time; any other title is
      kept. The formatted time is a parameter, since reading the clock is
      not part of this model. */
  function GenerateAutoTitle(v: string, timestamp: string): (r: string)
    ensures IsBlank(v) ==> r == PlaceholderPrefix + timestamp
    ensures !IsBlank(v) ==> r == v
    ensures !IsBlank(r)
  {
    StripEmptyIffBlank(v);
    assert (PlaceholderPrefix + timestamp)[0] == 'U';
    if v == [] || Strip(v) == [] then PlaceholderPrefix + timestamp else v
  }

  /** `validate_priority`: the value is kept when it names a priority. */
  function ValidatePriority(v: string): (r: Result<string, string>)
    ensures r.Ok? <==> ParsePriority(v).Some?
    ensures r.Ok? ==> r.value == v && |v| <= PriorityLength
  {
    PriorityNames(v);
    if v !in ["low", "medium", "high"] then Err("Priority must be 'low', 'medium', or 'high'")
    else Ok(v)
  }

  /** The update schema's `validate_priority`: a missing value passes. */
  function ValidateOptionalPriority(v: Option<string>): (r: Result<Option<string>, string>)
    ensures r.Ok? <==> (v.Some? ==> ParsePriority(v.value).Some?)
    ensures r.Ok? ==> r.value == v
  {
    PriorityNames(if v.Some? then v.value else "");
    if v.Some? && v.value !in ["low", "medium", "high"] then Err("Priority must be 'low', 'medium', or 'high'")
    else Ok(v)
  }

  /** A create request as received: `None` marks an omitted field. */
  datatype TaskCreateInput = TaskCreateInput(courseId: Option<int>, title: Option<string>, description: Option<string>,
                                             dueDate: Option<DateTime>, priority: Option<string>)

  /** A validated create request. */
  datatype TaskCreate = TaskCreate(courseId: int, title: string, description: Option<string>,
                                   dueDate: Option<DateTime>, priority: string)

  /** The fields of an update request; `None` leaves a field unchanged. */
  datatype TaskUpdate = TaskUpdate(title: Option<string>, description: Option<string>, dueDate: Option<DateTime>,
                                   priority: Option<string>, isCompleted: Option<bool>)

  predicate TitleTooLong(title: Option<string>)
  {
    title.Some? && |title.value| > TitleLength
  }

  predicate PriorityRejected(priority: Option<string>)
  {
    priority.Some? && ParsePriority(priority.value).None?
  }

  /** The fields of a create request that fail, in field order. */
  function CreateErrors(input: TaskCreateInput): (r: seq<string>)
    ensures "course_id" in r <==> input.courseId.None?
    ensures "title" in r <==> TitleTooLong(input.title)
    ensures "priority" in r <==> PriorityRejected(input.priority)
    ensures forall f :: f in r ==> f in ["course_id", "title", "priority"]
  {
    (if input.courseId.None? then ["course_id"] else [])
    + (if TitleTooLong(input.title) then ["title"] else [])
    + (if input.priority.Some? && ValidatePriority(input.priority.value).Err? then ["priority"] else [])
  }

  /** `TaskCreate` as written: the title validator sees only a title that was
      sent, so an omitted title keeps its default "". */
  function ValidateTaskCreateAsWritten(input: TaskCreateInput, timestamp: string): (r: Result<TaskCreate, seq<string>>)
    ensures r.Err? <==> input.courseId.None? || TitleTooLong(input.title) || PriorityRejected(input.priority)
    ensures r.Err? ==> r.error == CreateErrors(input)
    ensures r.Ok? ==> r.value.courseId == input.courseId.value && r.value.description == input.description
                      && r.value.dueDate == input.dueDate
    ensures r.Ok? ==> ParsePriority(r.value.priority).Some?
    ensures r.Ok? && input.title.Some? ==> r.value.title == GenerateAutoTitle(input.title.value, timestamp)
    ensures r.Ok? && input.title.None? ==> r.value.title == ""
  {
    var errors := CreateErrors(input);
    if errors != [] then Err(errors)
    else
      Ok(TaskCreate(input.courseId.value,
                    if input.title.Some? then GenerateAutoTitle(input.title.value, timestamp) else "",
                    input.description, input.dueDate,
                    if input.priority.Some? then input.priority.value else DefaultPriority))
  }

  /** `TaskCreate` as its validator intends: every accepted request, the
      title omitted or not, has a title that is not blank. */
  function ValidateTaskCreate(input: TaskCreateInput, timestamp: string): (r: Result<TaskCreate, seq<string>>)
    ensures r.Err? <==> input.courseId.None? || TitleTooLong(input.title) || PriorityRejected(input.priority)
    ensures r.Err? ==> r.error == CreateErrors(input)
    ensures r.Ok? ==> r.value.courseId == input.courseId.value && r.value.description == input.description
                      && r.value.dueDate == input.dueDate
    ensures r.Ok? ==> ParsePriority(r.value.priority).Some?
    ensures r.Ok? ==> !IsBlank(r.value.title)
    ensures r.Ok? && input.title.Some? && !IsBlank(input.title.value) ==> r.value.title == input.title.value
    ensures r.Ok? && (input.title.None? || IsBlank(input.title.value)) ==> r.value.title == PlaceholderPrefix + timestamp
  {
    var errors := CreateErrors(input);
    if errors != [] then Err(errors)
    else
      Ok(TaskCreate(input.courseId.value,
                    GenerateAutoTitle(if input.title.Some? then input.title.value else "", timestamp),
                    input.description, input.dueDate,
                    if input.priority.Some? then input.priority.value else DefaultPriority))
  }

  /** An omitted title is stored as the blank title "" by the schema as
      written, and as the placeholder by the intended one. */
  lemma OmittedTitleStaysBlank(timestamp: string)
    ensures var input := TaskCreateInput(Some(1), None, None, None, None);
      && ValidateTaskCreateAsWritten(input, timestamp) == Ok(TaskCreate(1, "", None, None, "medium"))
      && IsBlank(ValidateTaskCreateAsWritten(input, timestamp).value.title)
      && ValidateTaskCreate(input, timestamp) == Ok(TaskCreate(1, PlaceholderPrefix + timestamp, None, None, "medium"))
  {
  }

  /** Both versions agree whenever a title is sent. */
  lemma SentTitleBothAgree(input: TaskCreateInput, timestamp: string)
    requires input.title.Some?
    ensures ValidateTaskCreateAsWritten(input, timestamp) == ValidateTaskCreate(input, timestamp)
  {
  }

  /** The fields of an update request that fail, in field order. */
  function UpdateErrors(input: TaskUpdate): (r: seq<string>)
    ensures "title" in r <==> TitleTooLong(input.title)
    ensures "priority" in r <==> PriorityRejected(input.priority)
    ensures forall f :: f in r ==> f in ["title", "priority"]
  {
    (if TitleTooLong(input.title) then ["title"] else [])
    + (if ValidateOptionalPriority(input.priority).Err? then ["priority"] else [])
  }

  /** `TaskUpdate`: every field optional; a sent title must fit the column
      and a sent priority must name a priority. Nothing is rewritten. */
  function ValidateTaskUpdate(input: TaskUpdate): (r: Result<TaskUpdate, seq<string>>)
    ensures r.Err? <==> TitleTooLong(input.title) || PriorityRejected(input.priority)
    ensures r.Err? ==> r.error == UpdateErrors(input)
    ensures r.Ok? ==> r.value == input
  {
    var errors := UpdateErrors(input);
    if errors != [] then Err(errors) else Ok(input)
  }

  /** An empty update request is always accepted. */
  lemma EmptyUpdateAccepted()
    ensures ValidateTaskUpdate(TaskUpdate(None, None, None, None, None)).Ok?
  {
  }
}
