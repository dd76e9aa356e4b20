/** The note record: Markdown content with comma-separated tags. */
module NoteModel {
  import opened Common

  const TitleLength: nat := 300
  const TagsLength: nat := 500

  datatype Note = Note(
    id: int,
    courseId: int,
    title: string,
    content: string,
    tags: Option<string>,
    createdAt: DateTime,
    updatedAt: DateTime)

  function NoteKey(n: Note): int { n.id }
  function NoteCourse(n: Note): int { n.courseId }

  /** The title column holds at most 300 characters and the tags column at
      most 500; the content column is unbounded text. */
  predicate FitsColumns(n: Note)
  {
    |n.title| <= TitleLength && (n.tags.Some? ==> |n.tags.value| <= TagsLength)
  }
}
