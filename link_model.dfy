/** The note–task link relation. Its primary key is the pair (note, task), so
    a set of links holds at most one link per pair; both columns are foreign
    keys declared ON DELETE CASCADE. */
module LinkModel {

  /** A link connects exactly one note to exactly one task. */
  datatype Link = Link(noteId: int, taskId: int)

  /** Links are identified by their pair: two links with the same note and
      task are the same link. */
  lemma LinkIdentifiedByPair(a: Link, b: Link)
    ensures a == b <==> a.noteId == b.noteId && a.taskId == b.taskId
  {
  }

  /** The links that survive deleting the given notes and tasks. */
  function Unlinked(links: set<Link>, noteIds: set<int>, taskIds: set<int>): set<Link>
  {
    set l | l in links && l.noteId !in noteIds && l.taskId !in taskIds
  }

  /** Deletes compose: removing the links of some notes and tasks, then of
      others, leaves what removing them all at once leaves, in either order. */
  lemma UnlinkedComposes(links: set<Link>, notesA: set<int>, tasksA: set<int>, notesB: set<int>, tasksB: set<int>)
    ensures Unlinked(Unlinked(links, notesA, tasksA), notesB, tasksB) == Unlinked(links, notesA + notesB, tasksA + tasksB)
    ensures Unlinked(Unlinked(links, notesA, tasksA), notesB, tasksB)
            == Unlinked(Unlinked(links, notesB, tasksB), notesA, tasksA)
  {
  }

  /** Deleting the same notes and tasks twice removes nothing more. */
  lemma UnlinkedIdempotent(links: set<Link>, noteIds: set<int>, taskIds: set<int>)
    ensures Unlinked(Unlinked(links, noteIds, taskIds), noteIds, taskIds) == Unlinked(links, noteIds, taskIds)
  {
  }

  /** The tasks linked to a note. */
  function LinkedTasks(links: set<Link>, noteId: int): set<int>
  {
    set l | l in links && l.noteId == noteId :: l.taskId
  }

  /** The notes linked to a task. */
  function LinkedNotes(links: set<Link>, taskId: int): set<int>
  {
    set l | l in links && l.taskId == taskId :: l.noteId
  }

  /** Deleting a note drops its links and no others: every other note keeps
      the tasks it was linked to. */
  lemma UnlinkNote(links: set<Link>, noteId: int, other: int)
    ensures LinkedTasks(Unlinked(links, {noteId}, {}), noteId) == {}
    ensures other != noteId ==> LinkedTasks(Unlinked(links, {noteId}, {}), other) == LinkedTasks(links, other)
  {
    var r := Unlinked(links, {noteId}, {});
    if other != noteId {
      forall t | t in LinkedTasks(links, other) ensures t in LinkedTasks(r, other) {
        var l :| l in links && l.noteId == other && l.taskId == t;
        assert l in r;
      }
    }
  }

  /** Deleting a task drops its links and no others. */
  lemma UnlinkTask(links: set<Link>, taskId: int, other: int)
    ensures LinkedNotes(Unlinked(links, {}, {taskId}), taskId) == {}
    ensures other != taskId ==> LinkedNotes(Unlinked(links, {}, {taskId}), other) == LinkedNotes(links, other)
  {
    var r := Unlinked(links, {}, {taskId});
    if other != taskId {
      forall n | n in LinkedNotes(links, other) ensures n in LinkedNotes(r, other) {
        var l :| l in links && l.taskId == other && l.noteId == n;
        assert l in r;
      }
    }
  }
}
