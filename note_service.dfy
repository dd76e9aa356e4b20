/** The note service: create a note, list a course's notes ordered by a
    column and paginated, update a note, delete a note (its links go, its
    tasks stay). */
module NoteService {
  import opened Common
  import opened Tables
  import opened Ordering
  import opened NoteModel
  import opened NoteSchema
  import opened LinkModel
  import CourseModel
  import Store

  method CreateNote(db: Store.Database, courseId: int, title: string, content: string, tags: Option<string> := None)
    returns (r: Result<Note, ServiceError>)
    requires db.Valid()
    modifies db
    ensures db.Valid()
    ensures r.Ok? <==> courseId in Ids(db.courses, CourseModel.CourseKey)
    ensures r.Err? ==>
      && r.error == IntegrityError
      && db.notes == old(db.notes)
      && db.nextNoteId == old(db.nextNoteId)
      && db.clock == old(db.clock)
    ensures r.Ok? ==> db.notes == old(db.notes) + [r.value] && r.value.id !in Ids(old(db.notes), NoteKey)
    ensures r.Ok? ==>
      && r.value.courseId == courseId && r.value.title == title && r.value.content == content && r.value.tags == tags
      && r.value.createdAt == r.value.updatedAt == db.clock > old(db.clock)
    ensures db.courses == old(db.courses) && db.tasks == old(db.tasks) && db.links == old(db.links)
  {
    r := db.InsertNote(courseId, title, content, tags);
  }

  /** The column names a note has. */
  const Columns: seq<string> := ["id", "course_id", "title", "content", "tags", "created_at", "updated_at"]

  /** `getattr(Note, sort_by, Note.created_at)`: the value of the named
      column, and the creation time for a name that is not a column. A
      missing tags value is NULL. */
  function NoteColumn(n: Note, sortBy: string): SortKey
  {
    if sortBy == "id" then IntKey(n.id)
    else if sortBy == "course_id" then IntKey(n.courseId)
    else if sortBy == "title" then TextKey(n.title)
    else if sortBy == "content" then TextKey(n.content)
    else if sortBy == "tags" then (if n.tags.Some? then TextKey(n.tags.value) else NullKey)
    else if sortBy == "updated_at" then IntKey(n.updatedAt)
    else IntKey(n.createdAt)
  }

  /** An unknown sort column orders like `created_at`. */
  lemma UnknownColumnFallsBack(n: Note, sortBy: string)
    requires sortBy !in Columns
    ensures NoteColumn(n, sortBy) == NoteColumn(n, "created_at")
  {
  }

  function NoteSortKey(sortBy: string): Note -> SortKey
  {
    n => NoteColumn(n, sortBy)
  }

  /** A window of a sorted sequence is sorted. */
  lemma PageKeepsOrder<T(!new)>(s: seq<T>, key: T -> SortKey, asc: bool, limit: nat, offset: nat)
    requires SortedBy(s, key, asc)
    ensures SortedBy(Page(s, limit, offset), key, asc)
  {
    var r := Page(s, limit, offset);
    forall i, j | 0 <= i < j < |r| ensures InOrder(key(r[i]), key(r[j]), asc) {
      assert r[i] == s[offset + i] && r[j] == s[offset + j];
    }
  }

  /** A sequence whose multiset is included in another's holds only that
      sequence's elements. */
  lemma SubMultisetMembers<T>(r: seq<T>, s: seq<T>)
    requires multiset(r) <= multiset(s)
    ensures forall x :: x in r ==> x in s
  {
    forall x | x in r ensures x in s {
      assert x in multiset(r);
    }
  }

  /** In a sorted join of two sequences, every element of the first comes
      in order before every element of the second. */
  lemma JoinedOrder<T>(p: seq<T>, q: seq<T>, key: T -> SortKey, asc: bool, x: T, y: T)
    requires SortedBy(p + q, key, asc)
    requires x in p && y in q
    ensures InOrder(key(x), key(y), asc)
  {
    var i :| 0 <= i < |p| && p[i] == x;
    var j :| 0 <= j < |q| && q[j] == y;
    assert (p + q)[i] == x && (p + q)[|p| + j] == y;
  }

  /** The LIMIT/OFFSET window of `rows` sorted by the key: as many rows as
      `rows` has past the offset, up to the limit, none more often than in
      `rows`, and sorted. */
  function SortedWindow<T(!new)>(rows: seq<T>, key: T -> SortKey, asc: bool, limit: nat, offset: nat): (r: seq<T>)
    ensures |r| == if offset >= |rows| then 0 else Min(limit, |rows| - offset)
    ensures multiset(r) <= multiset(rows)
    ensures forall x :: x in r ==> x in rows
    ensures SortedBy(r, key, asc)
  {
    var ordered := SortByKey(rows, key, asc);
    PageKeepsOrder(ordered, key, asc, limit, offset);
    PageMultiset(ordered, limit, offset);
    SubMultisetMembers(Page(ordered, limit, offset), rows);
    Page(ordered, limit, offset)
  }

  /** `get_notes_by_course`: the course's notes, ordered by the column,
      ascending for "asc" and descending for any other order, then the
      LIMIT/OFFSET window. Rows with equal keys keep their table order. */
  function GetNotesByCourse(notes: seq<Note>, courseId: int, sortBy: string := "created_at", order: string := "desc",
                            limit: nat := 50, offset: nat := 0): (r: seq<Note>)
    ensures |r| <= limit
    ensures |r| == if offset >= |Select(notes, NoteCourse, courseId)| then 0
                   else Min(limit, |Select(notes, NoteCourse, courseId)| - offset)
    ensures forall n :: n in r ==> n in notes && n.courseId == courseId
    ensures multiset(r) <= multiset(Select(notes, NoteCourse, courseId))
    ensures SortedBy(r, NoteSortKey(sortBy), order == "asc")
  {
    SortedWindow(Select(notes, NoteCourse, courseId), NoteSortKey(sortBy), order == "asc", limit, offset)
  }

  /** When the course has no more notes than the default window holds, the
      listing is exactly the course's notes, reordered. */
  lemma ListingCompleteWithoutPaging(notes: seq<Note>, courseId: int, sortBy: string, order: string)
    requires |Select(notes, NoteCourse, courseId)| <= 50
    ensures multiset(GetNotesByCourse(notes, courseId, sortBy, order)) == multiset(Select(notes, NoteCourse, courseId))
    ensures forall n :: n in notes && n.courseId == courseId ==> n in GetNotesByCourse(notes, courseId, sortBy, order)
  {
    var rows := Select(notes, NoteCourse, courseId);
    var ordered := SortByKey(rows, NoteSortKey(sortBy), order == "asc");
    var r := GetNotesByCourse(notes, courseId, sortBy, order);
    assert r == ordered[0..|ordered|];
    assert ordered[0..|ordered|] == ordered;
    forall n | n in notes && n.courseId == courseId ensures n in r {
      assert n in rows;
      assert n in multiset(rows);
    }
  }

  /** Descending order by `created_at` puts the newer note first. */
  lemma CreatedAtDescending(x: Note, y: Note)
    requires InOrder(NoteSortKey("created_at")(x), NoteSortKey("created_at")(y), false)
    ensures x.createdAt >= y.createdAt
  {
    assert NoteSortKey("created_at")(x) == IntKey(x.createdAt);
    assert NoteSortKey("created_at")(y) == IntKey(y.createdAt);
  }

  /** By default the newest note comes first. */
  lemma DefaultNewestFirst(notes: seq<Note>, courseId: int, i: nat, j: nat)
    requires i < j < |GetNotesByCourse(notes, courseId)|
    ensures GetNotesByCourse(notes, courseId)[i].createdAt >= GetNotesByCourse(notes, courseId)[j].createdAt
  {
    var r := GetNotesByCourse(notes, courseId);
    assert InOrder(NoteSortKey("created_at")(r[i]), NoteSortKey("created_at")(r[j]), false);
    CreatedAtDescending(r[i], r[j]);
  }

  /** A page of the listing is the LIMIT/OFFSET window of one ordering of
      all the course's notes: the same window of a sorted permutation. */
  lemma ListingIsWindow(notes: seq<Note>, courseId: int, sortBy: string, order: string, limit: nat, offset: nat)
    ensures exists s ::
      && multiset(s) == multiset(Select(notes, NoteCourse, courseId))
      && SortedBy(s, NoteSortKey(sortBy), order == "asc")
      && GetNotesByCourse(notes, courseId, sortBy, order, limit, offset) == Page(s, limit, offset)
  {
    var s := SortByKey(Select(notes, NoteCourse, courseId), NoteSortKey(sortBy), order == "asc");
    assert GetNotesByCourse(notes, courseId, sortBy, order, limit, offset) == Page(s, limit, offset);
  }

  /** Consecutive pages of the listing join into one larger page. */
  lemma ListingPagesAdjoin(notes: seq<Note>, courseId: int, sortBy: string, order: string, a: nat, b: nat, offset: nat)
    ensures GetNotesByCourse(notes, courseId, sortBy, order, a, offset)
            + GetNotesByCourse(notes, courseId, sortBy, order, b, offset + a)
            == GetNotesByCourse(notes, courseId, sortBy, order, a + b, offset)
  {
    PagesAdjoin(SortByKey(Select(notes, NoteCourse, courseId), NoteSortKey(sortBy), order == "asc"), a, b, offset);
  }

  /** By default, every note of one page is at least as new as every note
      of the next page. */
  lemma NewestFirstAcrossPages(notes: seq<Note>, courseId: int, limit: nat, offset: nat, x: Note, y: Note)
    requires x in GetNotesByCourse(notes, courseId, "created_at", "desc", limit, offset)
    requires y in GetNotesByCourse(notes, courseId, "created_at", "desc", limit, offset + limit)
    ensures x.createdAt >= y.createdAt
  {
    var p := GetNotesByCourse(notes, courseId, "created_at", "desc", limit, offset);
    var q := GetNotesByCourse(notes, courseId, "created_at", "desc", limit, offset + limit);
    ListingPagesAdjoin(notes, courseId, "created_at", "desc", limit, limit, offset);
    JoinedOrder(p, q, NoteSortKey("created_at"), false, x, y);
    CreatedAtDescending(x, y);
  }

  /** The note after `update_note`, at time `now`: the given fields replaced,
      and `updated_at` stamped when a column changed. */
  function ApplyNoteUpdate(n: Note, u: NoteUpdate, now: DateTime): Note
  {
    var n1 := n.(
      title := if u.title.Some? then u.title.value else n.title,
      content := if u.content.Some? then u.content.value else n.content,
      tags := if u.tags.Some? then u.tags else n.tags);
    if n1 != n then n1.(updatedAt := now) else n1
  }

  /** A field whose argument is `None` keeps its value, a given one takes it;
      the key columns and the creation time never change. */
  lemma NoteUpdateFields(n: Note, u: NoteUpdate, now: DateTime)
    ensures var r := ApplyNoteUpdate(n, u, now);
      && r.id == n.id && r.courseId == n.courseId && r.createdAt == n.createdAt
      && r.title == (if u.title.Some? then u.title.value else n.title)
      && r.content == (if u.content.Some? then u.content.value else n.content)
      && r.tags == (if u.tags.Some? then u.tags else n.tags)
  {
  }

  /** An update without arguments changes nothing. */
  lemma EmptyNoteUpdateChangesNothing(n: Note, now: DateTime)
    ensures ApplyNoteUpdate(n, NoteUpdate(None, None, None), now) == n
  {
  }

  /** `updated_at` moves strictly forward exactly when some column changed. */
  lemma NoteUpdateStampsChanges(n: Note, u: NoteUpdate, now: DateTime)
    requires n.updatedAt < now
    ensures var r := ApplyNoteUpdate(n, u, now);
      (r != n <==> r.updatedAt > n.updatedAt) && (r != n ==> r.updatedAt == now)
  {
  }

  /** An update the schema accepted keeps a note within its columns. */
  lemma ValidatedNoteUpdateFits(n: Note, u: NoteUpdate, now: DateTime)
    requires FitsColumns(n)
    requires ValidateNoteUpdate(u).Ok?
    ensures FitsColumns(ApplyNoteUpdate(n, u, now))
  {
  }

  /** The assignments of `update_note`. */
  method AssignNoteFields(before: Note, title: Option<string>, content: Option<string>, tags: Option<string>, now: DateTime)
    returns (note: Note)
    ensures note == ApplyNoteUpdate(before, NoteUpdate(title, content, tags), now)
  {
    note := before;
    if title.Some? {
      note := note.(title := title.value);
    }
    if content.Some? {
      note := note.(content := content.value);
    }
    if tags.Some? {
      note := note.(tags := tags);
    }
    if note != before {
      note := note.(updatedAt := now);
    }
  }

  method UpdateNote(db: Store.Database, noteId: int, title: Option<string> := None, content: Option<string> := None,
                    tags: Option<string> := None)
    returns (r: Result<Note, ServiceError>)
    requires db.Valid()
    modifies db
    ensures db.Valid()
    ensures r.Err? <==> noteId !in Ids(old(db.notes), NoteKey)
    ensures r.Err? ==> r.error == NotFound && db.notes == old(db.notes) && db.clock == old(db.clock)
    ensures r.Ok? ==>
      var i := Find(old(db.notes), NoteKey, noteId).value;
      && r.value == ApplyNoteUpdate(old(db.notes)[i], NoteUpdate(title, content, tags), db.clock)
      && db.notes == old(db.notes)[i := r.value]
      && (r.value != old(db.notes)[i] <==> r.value.updatedAt > old(db.notes)[i].updatedAt)
    ensures db.courses == old(db.courses) && db.tasks == old(db.tasks) && db.links == old(db.links)
  {
    var found := Find(db.notes, NoteKey, noteId);
    FindIds(db.notes, NoteKey, noteId);
    if found.None? {
      return Err(NotFound);
    }
    var i := found.value;
    var before := db.notes[i];
    var now := db.Now();
    var note := AssignNoteFields(before, title, content, tags, now);
    NoteUpdateStampsChanges(before, NoteUpdate(title, content, tags), now);
    db.StoreNote(i, note);
    r := Ok(note);
  }

  method DeleteNote(db: Store.Database, noteId: int) returns (r: Result<Unit, ServiceError>)
    requires db.Valid()
    modifies db
    ensures db.Valid()
    ensures r.Err? <==> noteId !in Ids(old(db.notes), NoteKey)
    ensures r.Err? ==>
      && r.error == NotFound
      && db.notes == old(db.notes)
      && db.links == old(db.links)
      && db.clock == old(db.clock)
    ensures r.Ok? ==>
      && db.notes == Exclude(old(db.notes), NoteKey, {noteId})
      && noteId !in Ids(db.notes, NoteKey)
      && db.links == Unlinked(old(db.links), {noteId}, {})
      && LinkedTasks(db.links, noteId) == {}
    ensures db.courses == old(db.courses) && db.tasks == old(db.tasks)
  {
    var found := Find(db.notes, NoteKey, noteId);
    FindIds(db.notes, NoteKey, noteId);
    if found.None? {
      return Err(NotFound);
    }
    ExcludeIds(db.notes, NoteKey, {noteId});
    db.DeleteNoteRow(noteId);
    UnlinkNote(old(db.links), noteId, noteId);
    r := Ok(Unit);
  }
}
