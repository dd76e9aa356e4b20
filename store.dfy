/** The database the services talk to: the courses, notes, tasks and
    note–task links tables, their identifier sequences, and the clock that
    stamps rows. The database enforces the foreign keys the records declare
    and their ON DELETE CASCADE rules. */
module Store {
  import opened Common
  import opened Tables
  import opened CourseModel
  import opened NoteModel
  import opened TaskModel
  import opened LinkModel

  /** The integrity rules of the tables: primary keys ascend and come from
      their sequence, every note and task belongs to a course that exists,
      every link joins a note and a task that exist, and no row was stamped
      later than the clock. */
  ghost predicate Consistent(courses: seq<Course>, notes: seq<Note>, tasks: seq<Task>, links: set<Link>,
                             nextCourseId: int, nextNoteId: int, nextTaskId: int, clock: DateTime)
  {
    && Ascending(courses, CourseKey)
    && Ascending(notes, NoteKey)
    && Ascending(tasks, TaskKey)
    && (forall c :: c in courses ==> c.id < nextCourseId && c.updatedAt <= clock)
    && (forall n :: n in notes ==> n.id < nextNoteId && n.updatedAt <= clock && n.courseId in Ids(courses, CourseKey))
    && (forall t :: t in tasks ==> t.id < nextTaskId && t.updatedAt <= clock && t.courseId in Ids(courses, CourseKey))
    && (forall l :: l in links ==> l.noteId in Ids(notes, NoteKey) && l.taskId in Ids(tasks, TaskKey))
  }

  /** The identifiers of the notes (or tasks) that belong to the given courses. */
  function NotesOf(notes: seq<Note>, courseIds: set<int>): set<int>
  {
    set n | n in notes && n.courseId in courseIds :: n.id
  }

  function TasksOf(tasks: seq<Task>, courseIds: set<int>): set<int>
  {
    set t | t in tasks && t.courseId in courseIds :: t.id
  }

  /** The courses a user owns. */
  function CoursesOwnedBy(courses: seq<Course>, userId: int): set<int>
  {
    set c | c in courses && c.userId == userId :: c.id
  }

  /** Deleting courses, with their notes, their tasks and the links of those,
      keeps the tables consistent: nothing is left pointing at a deleted row. */
  lemma {:induction false} CascadeKeepsConsistent(courses: seq<Course>, notes: seq<Note>, tasks: seq<Task>, links: set<Link>,
                                                  nc: int, nn: int, nt: int, clock: DateTime, ids: set<int>)
    requires Consistent(courses, notes, tasks, links, nc, nn, nt, clock)
    ensures Consistent(Exclude(courses, CourseKey, ids), Exclude(notes, NoteCourse, ids), Exclude(tasks, TaskCourse, ids),
                       Unlinked(links, NotesOf(notes, ids), TasksOf(tasks, ids)), nc, nn, nt, clock)
  {
    var courses', notes', tasks' := Exclude(courses, CourseKey, ids), Exclude(notes, NoteCourse, ids), Exclude(tasks, TaskCourse, ids);
    var links' := Unlinked(links, NotesOf(notes, ids), TasksOf(tasks, ids));
    ExcludeAscending(courses, CourseKey, ids, CourseKey);
    ExcludeAscending(notes, NoteCourse, ids, NoteKey);
    ExcludeAscending(tasks, TaskCourse, ids, TaskKey);
    ExcludeIds(courses, CourseKey, ids);
    forall l | l in links' ensures l.noteId in Ids(notes', NoteKey) && l.taskId in Ids(tasks', TaskKey) {
      var n :| n in notes && n.id == l.noteId;
      assert n in notes';
      var t :| t in tasks && t.id == l.taskId;
      assert t in tasks';
    }
  }

  class Database {
    var courses: seq<Course>
    var notes: seq<Note>
    var tasks: seq<Task>
    var links: set<Link>
    var nextCourseId: int
    var nextNoteId: int
    var nextTaskId: int
    var clock: DateTime

    ghost predicate Valid()
      reads this
    {
      Consistent(courses, notes, tasks, links, nextCourseId, nextNoteId, nextTaskId, clock)
    }

    /** An empty database. */
    constructor ()
      ensures Valid()
      ensures courses == [] && notes == [] && tasks == [] && links == {}
    {
      courses, notes, tasks, links := [], [], [], {};
      nextCourseId, nextNoteId, nextTaskId := 1, 1, 1;
      clock := 0;
    }

    /** `datetime.utcnow()`: every reading is later than every earlier one. */
    method Now() returns (now: DateTime)
      requires Valid()
      modifies this`clock
      ensures Valid()
      ensures clock == old(clock) + 1 && now == clock
    {
      clock := clock + 1;
      now := clock;
    }

    /** Add a course row; its identifier and both timestamps are assigned here. */
    method InsertCourse(userId: int, name: string, description: Option<string>, color: string, isArchived: bool)
      returns (c: Course)
      requires Valid()
      modifies this`courses, this`nextCourseId, this`clock
      ensures Valid()
      ensures c == Course(old(nextCourseId), userId, name, description, color, isArchived, clock, clock)
      ensures clock == old(clock) + 1
      ensures courses == old(courses) + [c]
      ensures c.id !in Ids(old(courses), CourseKey)
    {
      var now := Now();
      c := Course(nextCourseId, userId, name, description, color, isArchived, now, now);
      AppendRow(courses, CourseKey, c);
      courses := courses + [c];
      nextCourseId := nextCourseId + 1;
    }

    /** Add a note row, refused when its course does not exist. */
    method InsertNote(courseId: int, title: string, content: string, tags: Option<string>)
      returns (r: Result<Note, ServiceError>)
      requires Valid()
      modifies this`notes, this`nextNoteId, this`clock
      ensures Valid()
      ensures courseId !in Ids(courses, CourseKey) ==>
        r == Err(IntegrityError) && notes == old(notes) && nextNoteId == old(nextNoteId) && clock == old(clock)
      ensures courseId in Ids(courses, CourseKey) ==>
        && r == Ok(Note(old(nextNoteId), courseId, title, content, tags, clock, clock))
        && clock == old(clock) + 1
        && notes == old(notes) + [r.value]
        && r.value.id !in Ids(old(notes), NoteKey)
    {
      if courseId !in Ids(courses, CourseKey) {
        return Err(IntegrityError);
      }
      var now := Now();
      var n := Note(nextNoteId, courseId, title, content, tags, now, now);
      AppendRow(notes, NoteKey, n);
      notes := notes + [n];
      nextNoteId := nextNoteId + 1;
      r := Ok(n);
    }

    /** Add a task row without a completion time, refused when its course
        does not exist. */
    method InsertTask(courseId: int, title: string, description: Option<string>, dueDate: Option<DateTime>,
                      priority: string, status: TaskStatus)
      returns (r: Result<Task, ServiceError>)
      requires Valid()
      modifies this`tasks, this`nextTaskId, this`clock
      ensures Valid()
      ensures courseId !in Ids(courses, CourseKey) ==>
        r == Err(IntegrityError) && tasks == old(tasks) && nextTaskId == old(nextTaskId) && clock == old(clock)
      ensures courseId in Ids(courses, CourseKey) ==>
        && r == Ok(Task(old(nextTaskId), courseId, title, description, dueDate, priority, status, None, clock, clock))
        && clock == old(clock) + 1
        && tasks == old(tasks) + [r.value]
        && r.value.id !in Ids(old(tasks), TaskKey)
    {
      if courseId !in Ids(courses, CourseKey) {
        return Err(IntegrityError);
      }
      var now := Now();
      var t := Task(nextTaskId, courseId, title, description, dueDate, priority, status, None, now, now);
      AppendRow(tasks, TaskKey, t);
      tasks := tasks + [t];
      nextTaskId := nextTaskId + 1;
      r := Ok(t);
    }

    /** Write back a course whose key columns did not change. */
    method StoreCourse(i: nat, c: Course)
      requires Valid()
      requires i < |courses| && c.id == courses[i].id && c.updatedAt <= clock
      modifies this`courses
      ensures Valid()
      ensures courses == old(courses)[i := c]
    {
      ReplaceKeepsKeys(courses, CourseKey, i, c);
      courses := courses[i := c];
    }

    /** Write back a note whose key columns did not change. */
    method StoreNote(i: nat, n: Note)
      requires Valid()
      requires i < |notes| && n.id == notes[i].id && n.courseId == notes[i].courseId && n.updatedAt <= clock
      modifies this`notes
      ensures Valid()
      ensures notes == old(notes)[i := n]
    {
      ReplaceKeepsKeys(notes, NoteKey, i, n);
      notes := notes[i := n];
    }

    /** Write back a task whose key columns did not change. */
    method StoreTask(i: nat, t: Task)
      requires Valid()
      requires i < |tasks| && t.id == tasks[i].id && t.courseId == tasks[i].courseId && t.updatedAt <= clock
      modifies this`tasks
      ensures Valid()
      ensures tasks == old(tasks)[i := t]
    {
      ReplaceKeepsKeys(tasks, TaskKey, i, t);
      tasks := tasks[i := t];
    }

    /** Delete courses. Their notes and tasks go with them (the relationships
        cascade), and so do the links of those notes and tasks. */
    method DeleteCourses(ids: set<int>)
      requires Valid()
      modifies this`courses, this`notes, this`tasks, this`links
      ensures Valid()
      ensures courses == Exclude(old(courses), CourseKey, ids)
      ensures notes == Exclude(old(notes), NoteCourse, ids)
      ensures tasks == Exclude(old(tasks), TaskCourse, ids)
      ensures links == Unlinked(old(links), NotesOf(old(notes), ids), TasksOf(old(tasks), ids))
    {
      CascadeKeepsConsistent(courses, notes, tasks, links, nextCourseId, nextNoteId, nextTaskId, clock, ids);
      links := Unlinked(links, NotesOf(notes, ids), TasksOf(tasks, ids));
      courses := Exclude(courses, CourseKey, ids);
      notes := Exclude(notes, NoteCourse, ids);
      tasks := Exclude(tasks, TaskCourse, ids);
    }

    /** Deleting a user (the users table is not part of this model) deletes
        the user's courses, through ON DELETE CASCADE. */
    method DeleteUser(userId: int)
      requires Valid()
      modifies this`courses, this`notes, this`tasks, this`links
      ensures Valid()
      ensures forall c :: c in courses <==> c in old(courses) && c.userId != userId
      ensures courses == Exclude(old(courses), CourseKey, CoursesOwnedBy(old(courses), userId))
      ensures notes == Exclude(old(notes), NoteCourse, CoursesOwnedBy(old(courses), userId))
      ensures tasks == Exclude(old(tasks), TaskCourse, CoursesOwnedBy(old(courses), userId))
      ensures links == Unlinked(old(links), NotesOf(old(notes), CoursesOwnedBy(old(courses), userId)),
                                TasksOf(old(tasks), CoursesOwnedBy(old(courses), userId)))
    {
      DeleteCourses(CoursesOwnedBy(courses, userId));
      forall c | c in old(courses) && c.userId != userId ensures c.id !in CoursesOwnedBy(old(courses), userId) {
      }
    }

    /** Delete a note; its links go with it and its tasks stay. */
    method DeleteNoteRow(id: int)
      requires Valid()
      modifies this`notes, this`links
      ensures Valid()
      ensures notes == Exclude(old(notes), NoteKey, {id})
      ensures links == Unlinked(old(links), {id}, {})
    {
      ExcludeAscending(notes, NoteKey, {id}, NoteKey);
      ExcludeIds(notes, NoteKey, {id});
      links := Unlinked(links, {id}, {});
      notes := Exclude(notes, NoteKey, {id});
    }

    /** Delete a task; its links go with it. */
    method DeleteTaskRow(id: int)
      requires Valid()
      modifies this`tasks, this`links
      ensures Valid()
      ensures tasks == Exclude(old(tasks), TaskKey, {id})
      ensures links == Unlinked(old(links), {}, {id})
    {
      ExcludeAscending(tasks, TaskKey, {id}, TaskKey);
      ExcludeIds(tasks, TaskKey, {id});
      links := Unlinked(links, {}, {id});
      tasks := Exclude(tasks, TaskKey, {id});
    }

    /** Add a link; the primary key refuses a second link for the same pair,
        and the foreign keys refuse a missing note or task. */
    method InsertLink(noteId: int, taskId: int) returns (r: Result<Link, ServiceError>)
      requires Valid()
      modifies this`links
      ensures Valid()
      ensures r.Err? <==> Link(noteId, taskId) in old(links) || noteId !in Ids(notes, NoteKey) || taskId !in Ids(tasks, TaskKey)
      ensures r.Err? ==> r.error == IntegrityError && links == old(links)
      ensures r.Ok? ==> r.value == Link(noteId, taskId) && links == old(links) + {r.value}
    {
      var l := Link(noteId, taskId);
      if l in links || noteId !in Ids(notes, NoteKey) || taskId !in Ids(tasks, TaskKey) {
        return Err(IntegrityError);
      }
      links := links + {l};
      r := Ok(l);
    }
  }
}
