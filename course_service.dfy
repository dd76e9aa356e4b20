/** The course service: create a course, list a user's courses newest
    first, and update, delete or count a course after checking that it
    exists (404) and that the caller owns it (403). */
module CourseService {
  import opened Common
  import opened Tables
  import opened Ordering
  import opened CourseModel
  import opened CourseSchema
  import opened LinkModel
  import NoteModel
  import TaskModel
  import Store

  method CreateCourse(db: Store.Database, userId: int, name: string, description: Option<string> := None,
                      color: string := DefaultColor)
    returns (c: Course)
    requires db.Valid()
    modifies db
    ensures db.Valid()
    ensures c.userId == userId && c.name == name && c.description == description && c.color == color
    ensures !c.isArchived
    ensures c.createdAt == c.updatedAt == db.clock > old(db.clock)
    ensures db.courses == old(db.courses) + [c] && c.id !in Ids(old(db.courses), CourseKey)
    ensures db.notes == old(db.notes) && db.tasks == old(db.tasks) && db.links == old(db.links)
  {
    c := db.InsertCourse(userId, name, description, color, false);
  }

  /** The rows `get_courses` selects: the user's courses, archived or not as
      requested, in table order. */
  function CourseRows(courses: seq<Course>, userId: int, isArchived: Option<bool>): (r: seq<Course>)
    ensures forall c :: c in r <==> c in courses && c.userId == userId && (isArchived.Some? ==> c.isArchived == isArchived.value)
  {
    if courses == [] then []
    else
      var c := courses[0];
      (if c.userId == userId && (isArchived.Some? ==> c.isArchived == isArchived.value) then [c] else [])
      + CourseRows(courses[1..], userId, isArchived)
  }

  function CreatedKey(c: Course): SortKey
  {
    IntKey(c.createdAt)
  }

  /** `get_courses`: the selected rows ordered by creation time, newest
      first; courses created at the same time keep their table order. */
  function GetCourses(courses: seq<Course>, userId: int, isArchived: Option<bool> := None): (r: seq<Course>)
    ensures multiset(r) == multiset(CourseRows(courses, userId, isArchived))
    ensures SortedBy(r, CreatedKey, false)
  {
    SortByKey(CourseRows(courses, userId, isArchived), CreatedKey, false)
  }

  /** The listing holds exactly the user's courses with the requested
      archived flag, newest first. */
  lemma GetCoursesSelects(courses: seq<Course>, userId: int, isArchived: Option<bool>)
    ensures var r := GetCourses(courses, userId, isArchived);
      && (forall c :: c in r <==> c in courses && c.userId == userId && (isArchived.Some? ==> c.isArchived == isArchived.value))
      && (forall i, j :: 0 <= i < j < |r| ==> r[i].createdAt >= r[j].createdAt)
  {
    var r := GetCourses(courses, userId, isArchived);
    var rows := CourseRows(courses, userId, isArchived);
    forall c ensures c in r <==> c in rows {
      assert c in r <==> c in multiset(r);
      assert c in rows <==> c in multiset(rows);
    }
    forall i, j | 0 <= i < j < |r| ensures r[i].createdAt >= r[j].createdAt {
      assert InOrder(CreatedKey(r[i]), CreatedKey(r[j]), false);
    }
  }

  /** The lookup and ownership check the update, delete and count
      operations share: a missing course is reported before a course of
      another user. */
  function CourseAccess(courses: seq<Course>, courseId: int, userId: int): (r: Result<nat, ServiceError>)
    ensures r == Err(NotFound) <==> courseId !in Ids(courses, CourseKey)
    ensures r.Err? ==> r.error == NotFound || r.error == Forbidden
    ensures r == Err(Forbidden) ==> exists c :: c in courses && c.id == courseId && c.userId != userId
    ensures r.Ok? ==> r.value < |courses| && courses[r.value].id == courseId && courses[r.value].userId == userId
  {
    FindIds(courses, CourseKey, courseId);
    match Find(courses, CourseKey, courseId)
    case None => Err(NotFound)
    case Some(i) => if courses[i].userId != userId then Err(Forbidden) else Ok(i)
  }

  /** With unique course ids, access is granted exactly to the course's
      owner. */
  lemma AccessOnlyForOwner(courses: seq<Course>, courseId: int, userId: int, i: nat)
    requires Ascending(courses, CourseKey)
    requires i < |courses| && courses[i].id == courseId
    ensures CourseAccess(courses, courseId, userId) == (if courses[i].userId == userId then Ok(i) else Err(Forbidden))
  {
    FindUnique(courses, CourseKey, courseId, i);
  }

  /** The course after `update_course`, at time `now`: the given fields
      replaced, and `updated_at` stamped when a column changed. */
  function ApplyCourseUpdate(c: Course, u: CourseUpdate, now: DateTime): Course
  {
    var c1 := c.(
      name := if u.name.Some? then u.name.value else c.name,
      description := if u.description.Some? then u.description else c.description,
      color := if u.color.Some? then u.color.value else c.color,
      isArchived := if u.isArchived.Some? then u.isArchived.value else c.isArchived);
    if c1 != c then c1.(updatedAt := now) else c1
  }

  /** A field whose argument is `None` keeps its value, a given one takes
      it; the key columns and the creation time never change. */
  lemma CourseUpdateFields(c: Course, u: CourseUpdate, now: DateTime)
    ensures var r := ApplyCourseUpdate(c, u, now);
      && r.id == c.id && r.userId == c.userId && r.createdAt == c.createdAt
      && r.name == (if u.name.Some? then u.name.value else c.name)
      && r.description == (if u.description.Some? then u.description else c.description)
      && r.color == (if u.color.Some? then u.color.value else c.color)
      && r.isArchived == (if u.isArchived.Some? then u.isArchived.value else c.isArchived)
  {
  }

  /** An update without arguments changes nothing. */
  lemma EmptyCourseUpdateChangesNothing(c: Course, now: DateTime)
    ensures ApplyCourseUpdate(c, CourseUpdate(None, None, None, None), now) == c
  {
  }

  /** `updated_at` moves forward exactly when some column changed. */
  lemma CourseUpdateStampsChanges(c: Course, u: CourseUpdate, now: DateTime)
    requires c.updatedAt < now
    ensures var r := ApplyCourseUpdate(c, u, now);
      (r != c <==> r.updatedAt > c.updatedAt) && (r != c ==> r.updatedAt == now)
  {
  }

  /** An update the schema accepted keeps a course within its columns, and
      keeps a valid colour valid. */
  lemma ValidatedCourseUpdateFits(c: Course, u: CourseUpdate, now: DateTime)
    requires FitsColumns(c)
    requires ValidateCourseUpdate(u).Ok?
    ensures FitsColumns(ApplyCourseUpdate(c, u, now))
    ensures IsHexColor(c.color) ==> IsHexColor(ApplyCourseUpdate(c, u, now).color)
  {
  }

  /** The assignments of `update_course`. */
  method AssignCourseFields(before: Course, name: Option<string>, description: Option<string>, color: Option<string>,
                            isArchived: Option<bool>, now: DateTime)
    returns (course: Course)
    ensures course == ApplyCourseUpdate(before, CourseUpdate(name, description, color, isArchived), now)
  {
    course := before;
    if name.Some? {
      course := course.(name := name.value);
    }
    if description.Some? {
      course := course.(description := description);
    }
    if color.Some? {
      course := course.(color := color.value);
    }
    if isArchived.Some? {
      course := course.(isArchived := isArchived.value);
    }
    if course != before {
      course := course.(updatedAt := now);
    }
  }

  method UpdateCourse(db: Store.Database, courseId: int, userId: int, name: Option<string> := None,
                      description: Option<string> := None, color: Option<string> := None,
                      isArchived: Option<bool> := None)
    returns (r: Result<Course, ServiceError>)
    requires db.Valid()
    modifies db
    ensures db.Valid()
    ensures r.Err? <==> CourseAccess(old(db.courses), courseId, userId).Err?
    ensures r.Err? ==>
      && r.error == CourseAccess(old(db.courses), courseId, userId).error
      && db.courses == old(db.courses)
      && db.clock == old(db.clock)
    ensures r.Ok? ==>
      var i := CourseAccess(old(db.courses), courseId, userId).value;
      && r.value == ApplyCourseUpdate(old(db.courses)[i], CourseUpdate(name, description, color, isArchived), db.clock)
      && db.courses == old(db.courses)[i := r.value]
      && db.clock > old(db.clock)
      && (r.value != old(db.courses)[i] <==> r.value.updatedAt > old(db.courses)[i].updatedAt)
    ensures db.notes == old(db.notes) && db.tasks == old(db.tasks) && db.links == old(db.links)
  {
    var access := CourseAccess(db.courses, courseId, userId);
    if access.Err? {
      return Err(access.error);
    }
    var i := access.value;
    var now := db.Now();
    var before := db.courses[i];
    var course := AssignCourseFields(before, name, description, color, isArchived, now);
    CourseUpdateStampsChanges(before, CourseUpdate(name, description, color, isArchived), now);
    db.StoreCourse(i, course);
    r := Ok(course);
  }

  method DeleteCourse(db: Store.Database, courseId: int, userId: int) returns (r: Result<Unit, ServiceError>)
    requires db.Valid()
    modifies db
    ensures db.Valid()
    ensures r.Err? <==> CourseAccess(old(db.courses), courseId, userId).Err?
    ensures r.Err? ==>
      && r.error == CourseAccess(old(db.courses), courseId, userId).error
      && db.courses == old(db.courses) && db.notes == old(db.notes) && db.tasks == old(db.tasks) && db.links == old(db.links)
      && db.clock == old(db.clock)
    ensures r.Ok? ==>
      && db.courses == Exclude(old(db.courses), CourseKey, {courseId})
      && db.notes == Exclude(old(db.notes), NoteModel.NoteCourse, {courseId})
      && db.tasks == Exclude(old(db.tasks), TaskModel.TaskCourse, {courseId})
      && db.links == Unlinked(old(db.links), Store.NotesOf(old(db.notes), {courseId}), Store.TasksOf(old(db.tasks), {courseId}))
  {
    var access := CourseAccess(db.courses, courseId, userId);
    if access.Err? {
      return Err(access.error);
    }
    db.DeleteCourses({courseId});
    r := Ok(Unit);
  }

  /** After the cascade the deleted course is gone, and no note or task
      refers to it any more. */
  lemma CascadeLeavesNothing(courses: seq<Course>, notes: seq<NoteModel.Note>, tasks: seq<TaskModel.Task>, courseId: int)
    ensures courseId !in Ids(Exclude(courses, CourseKey, {courseId}), CourseKey)
    ensures Select(Exclude(notes, NoteModel.NoteCourse, {courseId}), NoteModel.NoteCourse, courseId) == []
    ensures Select(Exclude(tasks, TaskModel.TaskCourse, {courseId}), TaskModel.TaskCourse, courseId) == []
  {
    SelectNone(Exclude(notes, NoteModel.NoteCourse, {courseId}), NoteModel.NoteCourse, courseId);
    SelectNone(Exclude(tasks, TaskModel.TaskCourse, {courseId}), TaskModel.TaskCourse, courseId);
  }

  /** A course with the number of its notes and of its tasks. */
  datatype CourseWithCounts = CourseWithCounts(course: Course, notesCount: nat, tasksCount: nat)

  /** `get_course_with_counts`: the course after the access check, with
      `COUNT(id)` over its notes and over its tasks. */
  function GetCourseWithCounts(courses: seq<Course>, notes: seq<NoteModel.Note>, tasks: seq<TaskModel.Task>,
                               courseId: int, userId: int): (r: Result<CourseWithCounts, ServiceError>)
    ensures r.Err? <==> CourseAccess(courses, courseId, userId).Err?
    ensures r.Err? ==> r.error == CourseAccess(courses, courseId, userId).error
    ensures r.Ok? ==> r.value.course in courses && r.value.course.id == courseId && r.value.course.userId == userId
  {
    match CourseAccess(courses, courseId, userId)
    case Err(e) => Err(e)
    case Ok(i) =>
      Ok(CourseWithCounts(courses[i],
                          |Select(notes, NoteModel.NoteCourse, courseId)|,
                          |Select(tasks, TaskModel.TaskCourse, courseId)|))
  }

  /** With unique note and task ids, the counts are the numbers of distinct
      notes and tasks that belong to the course. */
  lemma CountsAreDistinctRows(courses: seq<Course>, notes: seq<NoteModel.Note>, tasks: seq<TaskModel.Task>,
                              courseId: int, userId: int)
    requires Ascending(notes, NoteModel.NoteKey) && Ascending(tasks, TaskModel.TaskKey)
    requires GetCourseWithCounts(courses, notes, tasks, courseId, userId).Ok?
    ensures GetCourseWithCounts(courses, notes, tasks, courseId, userId).value.notesCount == |Store.NotesOf(notes, {courseId})|
    ensures GetCourseWithCounts(courses, notes, tasks, courseId, userId).value.tasksCount == |Store.TasksOf(tasks, {courseId})|
  {
    var ns := Select(notes, NoteModel.NoteCourse, courseId);
    SelectAscending(notes, NoteModel.NoteCourse, courseId, NoteModel.NoteKey);
    KeysCountRows(ns, NoteModel.NoteKey);
    assert Ids(ns, NoteModel.NoteKey) == Store.NotesOf(notes, {courseId});
    var ts := Select(tasks, TaskModel.TaskCourse, courseId);
    SelectAscending(tasks, TaskModel.TaskCourse, courseId, TaskModel.TaskKey);
    KeysCountRows(ts, TaskModel.TaskKey);
    assert Ids(ts, TaskModel.TaskKey) == Store.TasksOf(tasks, {courseId});
  }
}
