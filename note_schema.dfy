/** The request and response schemas for notes: title at most 300
    characters, content at most 50000, tags at most 500. */
module NoteSchema {
  import opened Common
  import opened NoteModel

  const ContentLength: nat := 50000

  predicate TooLong(v: Option<string>, bound: nat)
  {
    v.Some? && |v.value| > bound
  }

  /** A create request as received: `None` marks an omitted field; course,
      title and content are required. */
  datatype NoteCreateInput = NoteCreateInput(courseId: Option<int>, title: Option<string>, content: Option<string>,
                                             tags: Option<string>)

  datatype NoteCreate = NoteCreate(courseId: int, title: string, content: string, tags: Option<string>)

  /** The fields of an update request; `None` leaves a field unchanged. */
  datatype NoteUpdate = NoteUpdate(title: Option<string>, content: Option<string>, tags: Option<string>)

  /** The fields of a create request that fail, in field order. */
  function CreateErrors(input: NoteCreateInput): (r: seq<string>)
    ensures "course_id" in r <==> input.courseId.None?
    ensures "title" in r <==> input.title.None? || TooLong(input.title, TitleLength)
    ensures "content" in r <==> input.content.None? || TooLong(input.content, ContentLength)
    ensures "tags" in r <==> TooLong(input.tags, TagsLength)
    ensures forall f :: f in r ==> f in ["course_id", "title", "content", "tags"]
  {
    (if input.courseId.None? then ["course_id"] else [])
    + (if input.title.None? || TooLong(input.title, TitleLength) then ["title"] else [])
    + (if input.content.None? || TooLong(input.content, ContentLength) then ["content"] else [])
    + (if TooLong(input.tags, TagsLength) then ["tags"] else [])
  }

  /** `NoteCreate`: an accepted request carries every required field within
      its bound. */
  function ValidateNoteCreate(input: NoteCreateInput): (r: Result<NoteCreate, seq<string>>)
    ensures r.Err? <==> input.courseId.None? || input.title.None? || input.content.None?
                        || TooLong(input.title, TitleLength) || TooLong(input.content, ContentLength)
                        || TooLong(input.tags, TagsLength)
    ensures r.Err? ==> r.error == CreateErrors(input)
    ensures r.Ok? ==> |r.value.title| <= TitleLength && |r.value.content| <= ContentLength
                      && (r.value.tags.Some? ==> |r.value.tags.value| <= TagsLength)
    ensures r.Ok? ==> r.value == NoteCreate(input.courseId.value, input.title.value, input.content.value, input.tags)
  {
    var errors := CreateErrors(input);
    if errors != [] then Err(errors)
    else Ok(NoteCreate(input.courseId.value, input.title.value, input.content.value, input.tags))
  }

  /** The fields of an update request that fail, in field order. */
  function UpdateErrors(input: NoteUpdate): (r: seq<string>)
    ensures "title" in r <==> TooLong(input.title, TitleLength)
    ensures "content" in r <==> TooLong(input.content, ContentLength)
    ensures "tags" in r <==> TooLong(input.tags, TagsLength)
    ensures forall f :: f in r ==> f in ["title", "content", "tags"]
  {
    (if TooLong(input.title, TitleLength) then ["title"] else [])
    + (if TooLong(input.content, ContentLength) then ["content"] else [])
    + (if TooLong(input.tags, TagsLength) then ["tags"] else [])
  }

  /** `NoteUpdate`: every field optional, every sent field within its bound. */
  function ValidateNoteUpdate(input: NoteUpdate): (r: Result<NoteUpdate, seq<string>>)
    ensures r.Err? <==> TooLong(input.title, TitleLength) || TooLong(input.content, ContentLength)
                        || TooLong(input.tags, TagsLength)
    ensures r.Err? ==> r.error == UpdateErrors(input)
    ensures r.Ok? ==> r.value == input
  {
    var errors := UpdateErrors(input);
    if errors != [] then Err(errors) else Ok(input)
  }

  /** The response for a note: its columns and the ids of its linked tasks,
      empty unless the caller fills them in. */
  datatype NoteResponse = NoteResponse(note: Note, linkedTasks: seq<int>)

  function ToResponse(n: Note, linkedTasks: seq<int> := []): NoteResponse
  {
    NoteResponse(n, linkedTasks)
  }

  /** Without linked tasks, the response lists none and carries the note's
      columns unchanged. */
  lemma ResponseDefaultsToNoLinks(n: Note)
    ensures ToResponse(n).linkedTasks == [] && ToResponse(n).note == n
  {
  }
}
