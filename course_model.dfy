/** The course record: an owner's container for notes and tasks. */
module CourseModel {
  import opened Common

  const NameLength: nat := 200
  const ColorLength: nat := 7
  const DefaultColor: string := "#3B82F6"

  datatype Course = Course(
    id: int,
    userId: int,
    name: string,
    description: Option<string>,
    color: string,
    isArchived: bool,
    createdAt: DateTime,
    updatedAt: DateTime)

  function CourseKey(c: Course): int { c.id }
  function CourseOwner(c: Course): int { c.userId }

  /** The name column is required and holds at most 200 characters; the
      colour column holds at most 7. */
  predicate FitsColumns(c: Course)
  {
    |c.name| <= NameLength && |c.color| <= ColorLength
  }
}
