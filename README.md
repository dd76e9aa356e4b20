# Study planner backend: a verified model of its business rules

This project models the core of a study-planner web backend written in
Python with FastAPI, Pydantic and SQLAlchemy, and proves properties of the
model. Users own **courses**, and a course holds Markdown **notes** and
dated **tasks**. Notes and tasks can be linked many-to-many. The model covers
the following parts:

- **Date classification for the task views** (module `DateFilters`). A due
  date is put into one of these categories, against a `today` that is passed
  in: overdue, today, this week (today plus the seven days after it),
  upcoming, or no due date.
- **The store** (modules `Tables`, `Store`, and `Ordering` for SQL ordering).
  The database is a class. Its tables are sequences in primary-key order,
  the links are a set of (note, task) pairs, the id counters are fields, and
  a logical clock stands in for `datetime.utcnow()`. Its invariant `Valid()`
  holds:
  - primary keys ascend;
  - every note and task points at an existing course;
  - every link points at an existing note and an existing task;
  - no row was stamped after the clock.

  Every store operation preserves this invariant, including the ON DELETE
  CASCADE deletes of courses, users, notes and tasks.
- **The records** (modules `TaskModel`, `CourseModel`, `NoteModel`,
  `LinkModel`): the priority and status enumerations, column bounds and
  defaults, and the link relation keyed by its pair.
- **The request schemas** (modules `TaskSchema`, `CourseSchema`,
  `NoteSchema`):
  - the placeholder title for a blank task title, with Python's `str.strip`
    whitespace set written out;
  - the priority check;
  - the hex-colour pattern;
  - every length bound.

  A rejected request reports exactly the fields that failed, in field order.
- **The services** (modules `TaskService`, `CourseService`, `NoteService`):
  - `get_tasks_by_course`, as the source does it: the status filter and
    LIMIT/OFFSET in the query, then the view filter as an append loop, then
    an in-place sort of an array;
  - partial updates, with the pending/completed state machine for tasks. The
    `updated_at` column moves strictly forward exactly when a column
    changed;
  - the not-found-before-forbidden ownership check;
  - the archived filter and newest-first order of `get_courses`;
  - the column-or-`created_at` sort of `get_notes_by_course`;
  - the course cascade and the per-course counts.

Modelling conventions:

- Missing rows come back as `Result` errors: `NotFound` for 404, `Forbidden`
  for 403, and `IntegrityError` for a database refusal, such as a foreign
  key to a missing course or a duplicate link. The declared foreign keys
  are taken to be enforced (see "Left out").
- Optional arguments are `Option` values, and `None` means "leave as is".
- Datetimes are whole seconds and dates are day numbers. `DayOf` is
  `datetime.date()`.

## Model

| member | source | states |
|---|---|---|
| DateFilters.IsToday | backend/src/study_helper/utils/date_filters.py:10-28 | a missing date is never today; a date, or a datetime reduced to its date, is today exactly when it equals `today` |
| DateFilters.IsThisWeek | backend/src/study_helper/utils/date_filters.py:31-53 | a missing date is never this week; a date is this week exactly when it lies from `today` through seven days later |
| DateFilters.IsUpcoming | backend/src/study_helper/utils/date_filters.py:56-78 | a missing date is never upcoming; a date is upcoming exactly when it lies more than seven days after `today` |
| DateFilters.GetDateCategory | backend/src/study_helper/utils/date_filters.py:81-110 | always one of the five labels; "no_due_date" iff there is no date, "overdue" iff before today, "today" iff today, "week" iff after today and at most seven days ahead, "upcoming" iff more than seven days ahead |
| DateFilters.NoDateMatchesNoView | backend/src/study_helper/utils/date_filters.py:20-69 | a missing date is neither today, this week nor upcoming |
| DateFilters.TodayIsInThisWeek | backend/src/study_helper/utils/date_filters.py:27-53 | a date that is today is also this week |
| DateFilters.WeekOrUpcoming | backend/src/study_helper/utils/date_filters.py:50-78 | from today on, a date is exactly one of this week or upcoming |
| DateFilters.UpcomingIsLaterThanAWeek | backend/src/study_helper/utils/date_filters.py:75-78 | a date at most seven days ahead (so every past date and today) is not upcoming |
| DateFilters.DateTimeClassifiedByDay | backend/src/study_helper/utils/date_filters.py:23-25 | a datetime is classified exactly as the date it falls on |
| DateFilters.ThisWeekIsEightDays | backend/src/study_helper/utils/date_filters.py:50-53 | "this week" holds for exactly eight days: today through today + 7 |
| TaskModel.ParsePriority | backend/src/study_helper/models/task.py:15-19 | a string is parsed as a priority only when it is that priority's name |
| TaskModel.PriorityRoundTrip | backend/src/study_helper/models/task.py:15-19 | parsing a priority's name gives back that priority |
| TaskModel.PriorityNames | backend/src/study_helper/models/task.py:15-19 | exactly "low", "medium" and "high" name a priority |
| TaskModel.ParseStatus | backend/src/study_helper/models/task.py:22-25 | a string is parsed as a status only when it is that status's name |
| TaskModel.StatusRoundTrip | backend/src/study_helper/models/task.py:22-25 | parsing a status's name gives back that status |
| TaskModel.StatusNames | backend/src/study_helper/models/task.py:22-25 | exactly "pending" and "completed" name a status |
| TaskModel.NamesFitColumns | backend/src/study_helper/models/task.py:47-48 | every priority name fits the 10-character column, every status name fits the 20-character column, and the default priority "medium" is a priority |
| LinkModel.LinkIdentifiedByPair | backend/src/study_helper/models/note_task_link.py:26-34 | two links are equal exactly when their note and task are equal |
| LinkModel.UnlinkedComposes | backend/src/study_helper/models/note_task_link.py:27-34 | deleting the links of some notes and tasks and then of others leaves the same links as deleting them all at once, in either order |
| LinkModel.UnlinkedIdempotent | backend/src/study_helper/models/note_task_link.py:27-34 | deleting the same notes' and tasks' links a second time removes nothing more |
| LinkModel.UnlinkNote | backend/src/study_helper/models/note_task_link.py:21-30 | after a note's deletion it has no linked tasks, and every other note keeps exactly its linked tasks |
| LinkModel.UnlinkTask | backend/src/study_helper/models/note_task_link.py:31-34 | after a task's deletion it has no linked notes, and every other task keeps exactly its linked notes |
| Tables.Find | backend/src/study_helper/services/task.py:164-167 | the lookup by id returns a row with that id, or reports that no row has it |
| Tables.FindUnique | backend/src/study_helper/services/task.py:164-167 | with unique keys the lookup returns the one row with that id |
| Tables.Select | backend/src/study_helper/services/note.py:68 | the WHERE keeps exactly the rows with the value, and no more rows than it had |
| Tables.Exclude | backend/src/study_helper/services/course.py:176-178 | the DELETE keeps exactly the rows whose column is not in the deleted set |
| Tables.Page | backend/src/study_helper/services/task.py:97 | LIMIT/OFFSET returns at most `limit` rows: the rows from position `offset` on, as many as fit |
| Tables.PagesAdjoin | backend/src/study_helper/services/note.py:78 | the page at `offset + a` starts where the page of `a` rows at `offset` ends: the two join into the page of `a + b` rows |
| Tables.PageMultiset | backend/src/study_helper/services/note.py:78 | a LIMIT/OFFSET window holds no row more often than the table it is cut from |
| Tables.KeysCountRows | backend/src/study_helper/services/course.py:221-229 | with unique ids, `COUNT(id)` equals the number of rows |
| Ordering.SortByKey | backend/src/study_helper/services/course.py:69 | ORDER BY returns a permutation of its input, ordered by the key in the chosen direction (NULL before numbers before text) |
| Store.CascadeKeepsConsistent | backend/src/study_helper/models/course.py:51-58 | deleting courses together with their notes, tasks and those rows' links leaves the tables consistent |
| Store.Database.Now | backend/src/study_helper/models/task.py:52-62 | each clock reading is later than the one before |
| Store.Database.InsertCourse | backend/src/study_helper/models/course.py:21-47 | the new row gets a fresh id and both timestamps set to the current time, and is appended |
| Store.Database.InsertNote | backend/src/study_helper/models/note.py:19-44 | a note for a missing course is refused by the foreign key; otherwise it gets a fresh id and both timestamps, and is appended |
| Store.Database.InsertTask | backend/src/study_helper/models/task.py:34-62 | a task for a missing course is refused by the foreign key; otherwise it gets a fresh id, no completion time and both timestamps, and is appended |
| Store.Database.StoreCourse | backend/src/study_helper/services/course.py:134 | the commit of an updated course replaces exactly that row and keeps the tables consistent |
| Store.Database.StoreNote | backend/src/study_helper/services/note.py:131 | the commit of an updated note replaces exactly that row and keeps the tables consistent |
| Store.Database.StoreTask | backend/src/study_helper/services/task.py:194 | the commit of an updated task replaces exactly that row and keeps the tables consistent |
| Store.Database.DeleteCourses | backend/src/study_helper/models/course.py:51-58 | the courses go, and so do their notes, their tasks and the links of those notes and tasks |
| Store.Database.DeleteUser | backend/src/study_helper/models/course.py:24-28 | deleting a user deletes exactly the courses whose owner is that user, their notes and tasks, and exactly the links of those notes and tasks |
| Store.Database.DeleteNoteRow | backend/src/study_helper/models/note_task_link.py:27-30 | the note and its links go |
| Store.Database.DeleteTaskRow | backend/src/study_helper/models/task.py:66-70 | the task and its links go |
| Store.Database.InsertLink | backend/src/study_helper/models/note_task_link.py:36-39 | a link is refused iff the pair is already linked or its note or task is missing; otherwise it is added |
| TaskSchema.Strip | backend/src/study_helper/schemas/task.py:20 | `str.strip()`: the string without its leading and trailing Python whitespace |
| TaskSchema.StripEmptyIffBlank | backend/src/study_helper/schemas/task.py:20 | `v.strip() == ""` holds exactly when every character of `v` is whitespace |
| TaskSchema.StripIsInnerSlice | backend/src/study_helper/schemas/task.py:20 | strip returns a slice of the string, and everything it cuts off before and after that slice is whitespace |
| TaskSchema.StripHasVisibleEnds | backend/src/study_helper/schemas/task.py:20 | a non-empty stripped string begins and ends with a character that is not whitespace |
| TaskSchema.GenerateAutoTitle | backend/src/study_helper/schemas/task.py:16-23 | a blank title becomes "Untitled Task - " followed by the timestamp; any other title is kept; the result is never blank |
| TaskSchema.ValidatePriority | backend/src/study_helper/schemas/task.py:25-31 | a priority is accepted iff it names one of the three priorities, and it is kept unchanged |
| TaskSchema.ValidateOptionalPriority | backend/src/study_helper/schemas/task.py:43-49 | a missing priority is accepted; a given one iff it names a priority |
| TaskSchema.CreateErrors | backend/src/study_helper/schemas/task.py:10-31 | the failures of a create request are exactly a missing course, a title over 300 characters and an unknown priority |
| TaskSchema.ValidateTaskCreateAsWritten | backend/src/study_helper/schemas/task.py:7-31 | a create request is rejected iff a field fails, and the error lists those fields; once accepted, a given title goes through the placeholder rule, an omitted one stays "", and the priority is valid |
| TaskSchema.ValidateTaskCreate | backend/src/study_helper/schemas/task.py:16-23 | the same checks, but an accepted request never has a blank title: a blank or omitted title becomes the placeholder |
| TaskSchema.OmittedTitleStaysBlank | backend/src/study_helper/schemas/task.py:11-23 | with the title omitted, the schema as written stores the blank title "" and the intended one stores the placeholder |
| TaskSchema.SentTitleBothAgree | backend/src/study_helper/schemas/task.py:16-23 | whenever a title is sent, both versions give the same result |
| TaskSchema.UpdateErrors | backend/src/study_helper/schemas/task.py:37-49 | the failures of an update request are exactly a title over 300 characters and a given unknown priority |
| TaskSchema.ValidateTaskUpdate | backend/src/study_helper/schemas/task.py:34-49 | an update request is rejected iff a field fails; an accepted one is passed on unchanged |
| TaskSchema.EmptyUpdateAccepted | backend/src/study_helper/schemas/task.py:37-41 | an update with every field omitted is accepted |
| CourseSchema.ValidateColor | backend/src/study_helper/schemas/course.py:13-21 | a colour is accepted iff it is "#" and six hex digits, and is then 7 characters long |
| CourseSchema.ValidatorAddsNothing | backend/src/study_helper/schemas/course.py:13-21 | the `re.match` validator accepts everything the field pattern accepted; on its own it would also accept "#3B82F6\n", which the pattern rejects |
| CourseSchema.DefaultColorValid | backend/src/study_helper/schemas/course.py:13 | the default "#3B82F6" passes the colour check and fits the column |
| CourseSchema.CreateErrors | backend/src/study_helper/schemas/course.py:11-13 | the failures of a create request are exactly a missing or out-of-bounds name, a description over 2000 characters and a bad colour |
| CourseSchema.ValidateCourseCreate | backend/src/study_helper/schemas/course.py:8-21 | a create request is rejected iff a field fails; an accepted one has a name of 1–200 characters, a description of at most 2000 and a valid colour, the default when omitted |
| CourseSchema.UpdateErrors | backend/src/study_helper/schemas/course.py:27-29 | the failures of an update request are exactly the given fields that break the create bounds |
| CourseSchema.ValidateCourseUpdate | backend/src/study_helper/schemas/course.py:24-38 | an update request is rejected iff a given field fails; an accepted one is passed on unchanged |
| CourseSchema.EmptyUpdateAccepted | backend/src/study_helper/schemas/course.py:27-30 | an update with every field omitted is accepted |
| NoteSchema.CreateErrors | backend/src/study_helper/schemas/note.py:10-13 | the failures of a create request are exactly a missing course, title or content, and a title, content or tags over 300, 50000 or 500 characters |
| NoteSchema.ValidateNoteCreate | backend/src/study_helper/schemas/note.py:7-13 | a create request is rejected iff a field fails; an accepted one carries the sent fields, each within its bound |
| NoteSchema.UpdateErrors | backend/src/study_helper/schemas/note.py:19-21 | the failures of an update request are exactly the given fields over their bounds |
| NoteSchema.ValidateNoteUpdate | backend/src/study_helper/schemas/note.py:16-21 | an update request is rejected iff a given field is too long; an accepted one is passed on unchanged |
| NoteSchema.ToResponse | backend/src/study_helper/schemas/note.py:24-36 | the response of a note: its columns and the ids of its linked tasks |
| NoteSchema.ResponseDefaultsToNoLinks | backend/src/study_helper/schemas/note.py:36 | a note response built without linked tasks lists none |
| TaskService.CreateTask | backend/src/study_helper/services/task.py:14-53 | a task for an existing course is stored with the given fields, status pending, priority "medium" unless given, no completion time and fresh timestamps; a missing course is refused and nothing is stored |
| TaskService.StatusFilter | backend/src/study_helper/services/task.py:92-94 | `completed=True` selects completed tasks, `False` pending ones, `None` no status |
| TaskService.TaskRows | backend/src/study_helper/services/task.py:85-94 | the query selects exactly the course's tasks of the requested status |
| TaskService.KeepInView | backend/src/study_helper/services/task.py:104-118 | the view filter keeps exactly the dated tasks whose due day the view accepts |
| TaskService.InView | backend/src/study_helper/services/task.py:106-117 | a task is in a view exactly when it has a due date and the day of that date passes the view's predicate; an unknown view accepts nothing |
| TaskService.ViewFilter | backend/src/study_helper/services/task.py:103-119 | the view "all" keeps the page as it is; any other view, a missing one included, keeps exactly the tasks in that view, in page order |
| TaskService.ViewFilterKeeps | backend/src/study_helper/services/task.py:103-119 | the filtered list is no longer than its input and holds only its tasks; unless the view is "all" each is in the view; with no view the list is empty |
| TaskService.FilterByView | backend/src/study_helper/services/task.py:103-119 | the append loop computes the view filter |
| TaskService.SortTasks | backend/src/study_helper/services/task.py:122-128 | the in-place sort leaves a permutation of the tasks, ordered by the key |
| TaskService.InsertAt | backend/src/study_helper/services/task.py:122-128 | one pass of the stable sort: the sorted prefix grows by one task and the tasks are a permutation of the old ones |
| TaskService.GetTasksByCourse | backend/src/study_helper/services/task.py:56-130 | the result is a permutation of the view filter applied to the page of the selected rows, sorted by the chosen key and direction; it has at most `limit` tasks, all of the course and of the requested status; outside "all" each is dated and in the view; with no view it is empty |
| TaskService.PageBeforeViewCanHideTasks | backend/src/study_helper/services/task.py:96-119 | because the page is cut before the view filter, a one-task page can come back empty while a task of that view exists |
| TaskService.UndatedLastByDueDate | backend/src/study_helper/services/task.py:123 | sorted ascending by due date, an undated task comes after every task due before `datetime.max` |
| TaskService.PriorityRank | backend/src/study_helper/services/task.py:125-126 | `priority_order.get(p, 3)`: high 0, medium 1, low 2, anything else 3 |
| TaskService.SortKeyOf | backend/src/study_helper/services/task.py:122-128 | the sort key: the due date or `datetime.max` when there is none, the priority rank, or the creation time for any other `sort_by` |
| TaskService.PriorityOrder | backend/src/study_helper/services/task.py:125-126 | sorted ascending by priority, a high-priority task comes before every task that is not high |
| TaskService.PriorityRanks | backend/src/study_helper/services/task.py:125-126 | the ranks order high before medium before low, and low before any value the mapping does not list |
| TaskService.PriorityRankOrder | backend/src/study_helper/services/task.py:124-126 | sorted ascending by priority, a task of lower rank always comes before one of higher rank |
| TaskService.ApplyTaskUpdate | backend/src/study_helper/services/task.py:175-194 | the task after the update: given fields replaced, the completion state moved, `updated_at` set to now when some column changed |
| TaskService.UpdateKeepsUnsetFields | backend/src/study_helper/services/task.py:176-183 | every field whose argument is `None` keeps its value; the id, course and creation time never change |
| TaskService.UpdateSetsGivenFields | backend/src/study_helper/services/task.py:176-183 | every field whose argument is given takes it |
| TaskService.UpdateCompletion | backend/src/study_helper/services/task.py:186-192 | completing sets status completed and the completion time to now; reopening sets status pending and clears it |
| TaskService.UpdateKeepsCompletionConsistent | backend/src/study_helper/services/task.py:186-192 | an update keeps "has a completion time iff completed" |
| TaskService.EmptyUpdateChangesNothing | backend/src/study_helper/services/task.py:175-194 | an update without arguments leaves the task as it was, `updated_at` included |
| TaskService.UpdateStampsChanges | backend/src/study_helper/models/task.py:57-62 | `updated_at` moves strictly forward exactly when some column changed |
| TaskService.AssignFields | backend/src/study_helper/services/task.py:175-192 | the step-by-step assignments compute the updated task |
| TaskService.UpdateTask | backend/src/study_helper/services/task.py:133-197 | a missing id gives NotFound and changes nothing; otherwise the row is replaced by the updated task, whose `updated_at` grows iff it changed, and completion consistency is kept |
| TaskService.DeleteTask | backend/src/study_helper/services/task.py:200-229 | a missing id gives NotFound and changes nothing; otherwise the task and its links are gone |
| CourseService.CreateCourse | backend/src/study_helper/services/course.py:13-45 | the course is stored with the given fields, colour "#3B82F6" unless given, not archived, with fresh timestamps |
| CourseService.CourseRows | backend/src/study_helper/services/course.py:64-67 | the query selects exactly the user's courses with the requested archived flag |
| CourseService.GetCourses | backend/src/study_helper/services/course.py:48-74 | the listing is a permutation of the selected rows, ordered by creation time descending |
| CourseService.GetCoursesSelects | backend/src/study_helper/services/course.py:64-69 | the listing holds exactly the user's courses with the requested archived flag, newest first |
| CourseService.CourseAccess | backend/src/study_helper/services/course.py:105-122 | NotFound iff no course has the id; otherwise Forbidden when its owner differs; otherwise the owner's course |
| CourseService.AccessOnlyForOwner | backend/src/study_helper/services/course.py:117-122 | a course that exists is granted exactly to its owner and forbidden to everyone else |
| CourseService.ApplyCourseUpdate | backend/src/study_helper/services/course.py:124-134 | the course after the update: given fields replaced, `updated_at` set to now when some column changed |
| CourseService.CourseUpdateFields | backend/src/study_helper/services/course.py:124-132 | the given fields take the argument, the others keep their value; id, owner and creation time never change |
| CourseService.EmptyCourseUpdateChangesNothing | backend/src/study_helper/services/course.py:124-134 | an update without arguments leaves the course as it was |
| CourseService.CourseUpdateStampsChanges | backend/src/study_helper/models/course.py:42-47 | `updated_at` moves strictly forward exactly when some column changed |
| CourseService.ValidatedCourseUpdateFits | backend/src/study_helper/schemas/course.py:27-29 | an update the schema accepted keeps the course within its columns and a valid colour valid |
| CourseService.AssignCourseFields | backend/src/study_helper/services/course.py:124-132 | the step-by-step assignments compute the updated course |
| CourseService.UpdateCourse | backend/src/study_helper/services/course.py:77-137 | NotFound, then Forbidden, with nothing changed; otherwise the row is replaced by the updated course, whose `updated_at` grows iff it changed |
| CourseService.DeleteCourse | backend/src/study_helper/services/course.py:140-178 | NotFound, then Forbidden, with nothing changed; otherwise the course, its notes, its tasks and their links are gone |
| CourseService.CascadeLeavesNothing | backend/src/study_helper/services/course.py:176-177 | after the cascade, no course has the id and no note or task refers to it |
| CourseService.GetCourseWithCounts | backend/src/study_helper/services/course.py:181-231 | the same NotFound/Forbidden checks; otherwise the owner's course with the counts |
| CourseService.CountsAreDistinctRows | backend/src/study_helper/services/course.py:220-229 | the counts are the numbers of distinct notes and tasks that belong to the course |
| NoteService.CreateNote | backend/src/study_helper/services/note.py:11-42 | a note for an existing course is stored with exactly the given course, title, content and tags and fresh timestamps; a missing course is refused |
| NoteService.NoteColumn | backend/src/study_helper/services/note.py:71 | the value a note sorts by: the named column (missing tags are NULL), and the creation time for a name that is not a column |
| NoteService.UnknownColumnFallsBack | backend/src/study_helper/services/note.py:71 | a `sort_by` that names no column orders like `created_at` |
| NoteService.SortedWindow | backend/src/study_helper/services/note.py:70-78 | the ordered, paginated window of a row set: as many rows as the set has past the offset, up to the limit, none more often than in the set, and sorted by the key |
| NoteService.GetNotesByCourse | backend/src/study_helper/services/note.py:45-83 | at most `limit` notes, as many as the course has past the offset; every note is the course's, and none appears more often than in the course's rows; sorted by the column, ascending for "asc" and descending otherwise |
| NoteService.ListingCompleteWithoutPaging | backend/src/study_helper/services/note.py:68-81 | when the course has at most 50 notes, the default listing is exactly the course's notes, reordered, so every note of the course is listed |
| NoteService.DefaultNewestFirst | backend/src/study_helper/services/note.py:48-75 | by default notes come newest first |
| NoteService.ListingIsWindow | backend/src/study_helper/services/note.py:45-83 | every page is the LIMIT/OFFSET window of one sorted permutation of all the course's notes |
| NoteService.ListingPagesAdjoin | backend/src/study_helper/services/note.py:45-83 | consecutive pages of the listing join into one larger page |
| NoteService.NewestFirstAcrossPages | backend/src/study_helper/services/note.py:48-83 | by default every note of a page is at least as new as every note of the next page |
| NoteService.ApplyNoteUpdate | backend/src/study_helper/services/note.py:123-131 | the note after the update: given fields replaced, `updated_at` set to now when some column changed |
| NoteService.NoteUpdateFields | backend/src/study_helper/services/note.py:123-129 | the given fields take the argument, the others keep their value; id, course and creation time never change |
| NoteService.EmptyNoteUpdateChangesNothing | backend/src/study_helper/services/note.py:123-131 | an update without arguments leaves the note as it was |
| NoteService.NoteUpdateStampsChanges | backend/src/study_helper/services/note.py:96 | `updated_at` moves strictly forward exactly when some column changed |
| NoteService.ValidatedNoteUpdateFits | backend/src/study_helper/schemas/note.py:19-21 | an update the schema accepted keeps the note within its columns |
| NoteService.AssignNoteFields | backend/src/study_helper/services/note.py:123-129 | the step-by-step assignments compute the updated note |
| NoteService.UpdateNote | backend/src/study_helper/services/note.py:86-134 | a missing id gives NotFound and changes nothing; otherwise the row is replaced by the updated note, whose `updated_at` grows iff it changed |
| NoteService.DeleteNote | backend/src/study_helper/services/note.py:137-166 | a missing id gives NotFound and changes nothing; otherwise the note and its links are gone and every task stays |

## Left out

- The HTTP layer, authentication and the user records. This covers FastAPI routing and status mapping, JWT and bcrypt, and the user schema and service. What remains is glue and foreign libraries. A user's deletion appears only through its cascade (`Store.Database.DeleteUser`).
- SQLAlchemy session mechanics (`execute`, `commit`, `refresh`, eager loading), async execution, concurrency and transaction rollback. The store is one object changed one call at a time.
- Store.Database.InsertNote, Store.Database.InsertTask, Store.Database.InsertLink, Store.Database.DeleteNoteRow, Store.Database.DeleteCourses, Store.Database.DeleteUser, TaskService.CreateTask, NoteService.CreateNote, NoteService.DeleteNote and CourseService.DeleteCourse: the declared foreign keys and their ON DELETE CASCADE are assumed to be enforced by the database. SQLite enforces them only after `PRAGMA foreign_keys=ON`, and the connection setup visible in the repository never sets it. Without that, a task or note for a missing course would be stored, and deleting a note, or a course or user whose notes cascade, would leave the note's links behind (the note has no ORM relationship to them, so the ORM cascade from the course stops at the note). The model does not capture those outcomes.
- TaskService.TaskRows and TaskService.GetTasksByCourse: the task query has no ORDER BY before LIMIT/OFFSET, so SQL leaves open which rows a page holds. The model assumes primary-key order. TaskService.PageBeforeViewCanHideTasks depends on that assumption too.
- ORM mapper configuration. `models/note_task_link.py:42` declares `back_populates="task_links"`, but the note class declares no `task_links` attribute, so SQLAlchemy would refuse to configure that pair. The model assumes the mappers configure and keeps only the table-level behaviour.
- Clock reads are not modelled. `datetime.utcnow()` is a logical clock that ticks once per write. The `today` of the date filters is a parameter. The placeholder's `strftime` timestamp is an opaque string parameter.
- TaskService.UpdateTask: the completion time and `updated_at` come from one clock tick. In the source they are two `utcnow()` readings microseconds apart.
- Datetimes are whole seconds and dates are day numbers. Fractional seconds and time zones are not modelled; `today` is local time in the source while stored stamps are UTC.
- Tables.Page: `limit` and `offset` are natural numbers. SQLite's treatment of negative values is not modelled.
- Ordering.SortByKey: SQL leaves the order of rows with equal keys unspecified; the model keeps table order. Text compares by code point (SQLite's default collation).
- NoteService.NoteColumn: a `sort_by` naming a non-column attribute of the note class (a relationship, `metadata`) is treated like an unknown name and falls back to `created_at`. The source would fail or sort by something else.
- TaskService.UndatedLastByDueDate: stated only for tasks due before `datetime.max`. A task due exactly at `datetime.max` has the same key as an undated one.
- Pydantic type coercion and type errors (such as an explicit `null` for a required string) are not modelled. Only "omitted" and "given" are. Errors carry field names, not messages.
- The response decorations (`subtasks`, `linked_notes_count`, the default counts of the course response) are not modelled. They are built by the HTTP layer.

## Findings

| source | as written | input that shows it | evidently intended | confidence | as-written member | corrected member |
|---|---|---|---|---|---|---|
| backend/src/study_helper/schemas/task.py:11-23 | the placeholder validator does not run on the field's default, so a create request without a title keeps the default "" and the task is stored with an empty title | a create request `{"course_id": 1}` | an omitted title is replaced by "Untitled Task - <timestamp>", like an empty one | medium, not executed | TaskSchema.ValidateTaskCreateAsWritten (shown by TaskSchema.OmittedTitleStaysBlank) | TaskSchema.ValidateTaskCreate |
