/**
 * Moderation: the queue of pending adventures and the approve / reject transitions.
 * Approve moves one adventure from pending (0) to approved (1) and tells its author;
 * reject deletes the adventure with its tags, ratings and reviews and tells its author.
 * A database error at any statement rolls the whole action back.
 */
module Moderate {
  import opened Wrappers
  import opened Tables
  import opened Schema
  import opened Utils
  import opened Submission

  // ---------------------------------------------------------------- moderate_list

  /** One line of the moderation queue (the columns the page shows). */
  datatype PendingEntry = PendingEntry(id: int, name: string, author: string, fileSize: int,
                                       gameVersion: Option<string>, versionCompat: string)

  /** `SELECT ... FROM adventures a JOIN users u ON a.author_id = u.id WHERE a.approved = 0`:
      pending adventures whose author exists, in rowid order. */
  function PendingList(adventures: seq<Row<Adventure>>, users: seq<Row<User>>): (list: seq<PendingEntry>)
    ensures |list| <= |adventures|
  {
    if adventures == [] then []
    else
      var rest := PendingList(adventures[1..], users);
      var a := adventures[0].val;
      var k := Find(users, a.authorId);
      if IsPending(a) && k >= 0 then
        [PendingEntry(adventures[0].id, a.name, users[k].val.username, a.fileSize, a.gameVersion, a.versionCompat)] + rest
      else rest
  }

  /** What the JOIN keeps: a pending adventure whose author row exists. */
  predicate Queued(a: Row<Adventure>, users: seq<Row<User>>)
  {
    IsPending(a.val) && Find(users, a.val.authorId) >= 0
  }

  /** Every queue entry is a pending adventure with an existing author, under its own
      name and its author's username. */
  lemma {:induction false} PendingListSound(adventures: seq<Row<Adventure>>, users: seq<Row<User>>, e: PendingEntry)
    requires e in PendingList(adventures, users)
    ensures exists i :: (0 <= i < |adventures| && adventures[i].id == e.id && Queued(adventures[i], users) &&
      adventures[i].val.name == e.name &&
      e.author == users[Find(users, adventures[i].val.authorId)].val.username)
  {
    var rest := PendingList(adventures[1..], users);
    if e in rest {
      PendingListSound(adventures[1..], users, e);
      var i :| 0 <= i < |adventures[1..]| && adventures[1..][i].id == e.id && Queued(adventures[1..][i], users) &&
        adventures[1..][i].val.name == e.name &&
        e.author == users[Find(users, adventures[1..][i].val.authorId)].val.username;
      assert adventures[i + 1] == adventures[1..][i];
    } else {
      assert adventures[0].id == e.id;
    }
  }

  /** Every pending adventure with an existing author is in the queue. */
  lemma {:induction false} PendingListComplete(adventures: seq<Row<Adventure>>, users: seq<Row<User>>, i: nat)
    requires i < |adventures| && Queued(adventures[i], users)
    ensures exists e :: e in PendingList(adventures, users) && e.id == adventures[i].id
    decreases i
  {
    if i > 0 {
      assert adventures[1..][i - 1] == adventures[i];
      PendingListComplete(adventures[1..], users, i - 1);
      var e :| e in PendingList(adventures[1..], users) && e.id == adventures[i].id;
      assert e in PendingList(adventures, users);
    } else {
      assert PendingList(adventures, users)[0].id == adventures[0].id;
    }
  }

  /** The queue is exactly as long as the staff badge count when every pending
      adventure's author still exists, and never longer. */
  lemma {:induction false} PendingListMatchesBadge(adventures: seq<Row<Adventure>>, users: seq<Row<User>>)
    ensures |PendingList(adventures, users)| <= Count(adventures, IsPending)
    ensures (forall i :: 0 <= i < |adventures| && IsPending(adventures[i].val) ==> Find(users, adventures[i].val.authorId) >= 0) ==>
      |PendingList(adventures, users)| == Count(adventures, IsPending)
  {
    if adventures != [] {
      PendingListMatchesBadge(adventures[1..], users);
      if forall i :: 0 <= i < |adventures| && IsPending(adventures[i].val) ==> Find(users, adventures[i].val.authorId) >= 0 {
        forall i | 0 <= i < |adventures[1..]| && IsPending(adventures[1..][i].val)
          ensures Find(users, adventures[1..][i].val.authorId) >= 0
        {
          assert adventures[1..][i] == adventures[i + 1];
        }
      }
    }
  }

  /** `moderate_list` with the timestamps read as intended (`Utils.ParseCell`): the
      queue, then the viewer's unread 'moderation' notifications are marked read. An
      error in the SELECT (`readFault`) yields an empty queue; one in the UPDATE or COMMIT
      (`updateFault`) still shows the queue already built. Neither changes anything. */
  method ModerateList(db: Database, sessionUser: Option<int>, readFault: bool, updateFault: bool)
    returns (pending: seq<PendingEntry>)
    requires db.Valid()
    modifies db
    ensures db.Valid()
    ensures readFault ==> pending == []
    ensures !readFault ==> pending == PendingList(old(db.adventures.rows), old(db.users.rows))
    ensures readFault || updateFault ==> db.State() == old(db.State())
    ensures !readFault && !updateFault ==> db.State() == old(db.State()).(notifications :=
      if sessionUser.Some? then MarkRead(old(db.notifications), sessionUser.value, Some(Moderation))
      else old(db.notifications))
  {
    if readFault {
      return [];
    }
    pending := PendingList(db.adventures.rows, db.users.rows);
    if sessionUser.Some? && !updateFault {
      db.notifications := MarkRead(db.notifications, sessionUser.value, Some(Moderation));
    }
  }

  /** The columns of `adventures` the queue's SELECT names. */
  const QueueColumns: set<string> := {"id", "name", "description", "author_id", "creation_date", "file_size",
    "game_version", "version_compat", "approved"}

  /** `moderate_list` as written, on an `adventures` table with `columns`, where
      `created` gives the value fetched for each adventure's `creation_date`. The first
      component is the queue shown, or None for the exception `parse_datetime` lets
      escape (a 500); the second is the database afterwards. */
  function ModerateListAsWritten(s: Store, columns: set<string>, sessionUser: Option<int>, created: int -> Cell,
                                 readFault: bool, updateFault: bool): (r: (Option<seq<PendingEntry>>, Store))
    ensures Raises(QueueColumns, columns, readFault) ==> r == (Some([]), s)
    ensures r.0.None? <==> (!Raises(QueueColumns, columns, readFault) &&
      exists i :: 0 <= i < |PendingList(s.adventures.rows, s.users.rows)| &&
        created(PendingList(s.adventures.rows, s.users.rows)[i].id).DateTimeCell?)
    ensures r.0.None? ==> r.1 == s
    ensures r.0.Some? && !Raises(QueueColumns, columns, readFault) ==>
      r.0.value == PendingList(s.adventures.rows, s.users.rows)
  {
    if Raises(QueueColumns, columns, readFault) then (Some([]), s)
    else
      var pending := PendingList(s.adventures.rows, s.users.rows);
      var ids := seq(|pending|, i requires 0 <= i < |pending| => pending[i].id);
      var cells := FetchedCells(ids, created);
      match ParseEachAsWritten(cells)
      case None =>
        assert exists i :: 0 <= i < |pending| && cells[i].DateTimeCell?;
        assert exists i :: (0 <= i < |PendingList(s.adventures.rows, s.users.rows)| &&
          created(PendingList(s.adventures.rows, s.users.rows)[i].id).DateTimeCell?);
        (None, s)
      case Some(_) =>
        assert forall i :: 0 <= i < |pending| ==> cells[i] == created(pending[i].id);
        (Some(pending), if sessionUser.Some? && !updateFault
                        then s.(notifications := MarkRead(s.notifications, sessionUser.value, Some(Moderation)))
                        else s)
  }

  /** On the table `init_db.py` creates, the queue's SELECT always raises: the page is
      always empty and nothing is marked read. */
  lemma QueueAsCreated(s: Store, sessionUser: Option<int>, created: int -> Cell, readFault: bool, updateFault: bool)
    ensures ModerateListAsWritten(s, CreatedAdventureColumns, sessionUser, created, readFault, updateFault) == (Some([]), s)
  {
    GameVersionStatements(QueueColumns, readFault);
  }

  /** With the `game_version` column, a queue holding any adventure crashes: every
      `creation_date` arrives as a `datetime`, so the request ends in a 500 before the
      UPDATE, while the intended page lists the queue. */
  lemma QueueCrashAsWritten(s: Store, sessionUser: Option<int>, created: int -> Cell, updateFault: bool)
    requires forall id :: created(id).DateTimeCell?
    requires PendingList(s.adventures.rows, s.users.rows) != []
    ensures ModerateListAsWritten(s, AdventureColumns, sessionUser, created, false, updateFault) == (None, s)
  {
    GameVersionStatements(QueueColumns, false);
    assert created(PendingList(s.adventures.rows, s.users.rows)[0].id).DateTimeCell?;
  }

  // ---------------------------------------------------------------- moderate_adventure

  /** `SELECT ... FROM adventures WHERE id = ? AND approved = 0` finds a row. */
  predicate PendingAt(s: Store, id: int)
  {
    var k := Find(s.adventures.rows, id);
    k >= 0 && IsPending(s.adventures.rows[k].val)
  }

  function ApprovalNotice(a: Adventure, id: int): Notification
  {
    Notification(a.authorId, "Your adventure '" + a.name + "' has been approved", Approval, Some(id), false)
  }

  function RejectionNotice(a: Adventure): Notification
  {
    Notification(a.authorId, "Your adventure '" + a.name + "' has been rejected", Rejection, None, false)
  }

  /** The database after a committed approval. */
  function Approve(s: Store, id: int): Store
    requires Find(s.adventures.rows, id) >= 0
  {
    var k := Find(s.adventures.rows, id);
    var a := s.adventures.rows[k].val;
    s.(adventures := SetVal(s.adventures, k, a.(approved := Approved)),
       notifications := Insert(s.notifications, ApprovalNotice(a, id)))
  }

  function LinksWithout(links: set<TagLink>, id: int): (r: set<TagLink>)
    ensures forall l :: l in r <==> l in links && l.adventureId != id
  {
    set l | l in links && l.adventureId != id
  }

  function RatingsWithout(t: Table<Rating>, id: int): (r: Table<Rating>)
    ensures r.lastId == t.lastId
    ensures forall x :: x in r.rows <==> x in t.rows && x.val.adventureId != id
  {
    DeleteWhere(t, (x: Rating) => x.adventureId == id)
  }

  function ReviewsWithout(t: Table<Review>, id: int): (r: Table<Review>)
    ensures r.lastId == t.lastId
    ensures forall x :: x in r.rows <==> x in t.rows && x.val.adventureId != id
  {
    DeleteWhere(t, (x: Review) => x.adventureId == id)
  }

  /** The database after a committed rejection. */
  function Reject(s: Store, id: int): Store
    requires Find(s.adventures.rows, id) >= 0
  {
    var a := s.adventures.rows[Find(s.adventures.rows, id)].val;
    s.(adventureTags := LinksWithout(s.adventureTags, id),
       ratings := RatingsWithout(s.ratings, id),
       reviews := ReviewsWithout(s.reviews, id),
       adventures := DeleteRow(s.adventures, id),
       notifications := Insert(s.notifications, RejectionNotice(a)))
  }

  /** Approval changes that one adventure, and only its `approved` column, adds exactly
      one 'approval' notification for its author pointing at it, and shortens the
      moderation queue by one. */
  lemma ApproveEffect(s: Store, id: int)
    requires PendingAt(s, id)
    ensures var k := Find(s.adventures.rows, id);
      var r := Approve(s, id);
      && |r.adventures.rows| == |s.adventures.rows|
      && r.adventures.rows[k] == Row(id, s.adventures.rows[k].val.(approved := Approved))
      && (forall i :: 0 <= i < |s.adventures.rows| && i != k ==> r.adventures.rows[i] == s.adventures.rows[i])
      && r.notifications.rows == s.notifications.rows +
           [Row(s.notifications.lastId + 1, Notification(s.adventures.rows[k].val.authorId,
                "Your adventure '" + s.adventures.rows[k].val.name + "' has been approved", Approval, Some(id), false))]
      && Count(r.adventures.rows, IsPending) == Count(s.adventures.rows, IsPending) - 1
  {
    var k := Find(s.adventures.rows, id);
    CountSet(s.adventures.rows, k, Row(id, s.adventures.rows[k].val.(approved := Approved)), IsPending);
  }

  /** After a rejection nothing refers to the adventure any more: no tag link, rating,
      review or adventure row carries its id, while every row that did not refer to it
      is kept. */
  lemma RejectRemovesReferences(s: Store, id: int)
    requires Consistent(s) && PendingAt(s, id)
    ensures var r := Reject(s, id);
      && (forall l :: l in r.adventureTags <==> l in s.adventureTags && l.adventureId != id)
      && (forall x :: x in r.ratings.rows <==> x in s.ratings.rows && x.val.adventureId != id)
      && (forall x :: x in r.reviews.rows <==> x in s.reviews.rows && x.val.adventureId != id)
      && (forall x :: x in r.adventures.rows <==> x in s.adventures.rows && x.id != id)
  {
    assert WellKeyed(s.adventures);
  }

  /** A rejection sends the author one 'rejection' notification with no related id and
      shortens the moderation queue by one. */
  lemma RejectNotifies(s: Store, id: int)
    requires PendingAt(s, id)
    ensures var r := Reject(s, id);
      && r.notifications.rows == s.notifications.rows +
           [Row(s.notifications.lastId + 1, RejectionNotice(s.adventures.rows[Find(s.adventures.rows, id)].val))]
      && Count(r.adventures.rows, IsPending) == Count(s.adventures.rows, IsPending) - 1
  {
    CountDeleteRow(s.adventures, id, IsPending);
  }

  lemma ApprovePreserves(s: Store, id: int)
    requires Consistent(s) && PendingAt(s, id)
    ensures Consistent(Approve(s, id))
  {
    var k := Find(s.adventures.rows, id);
    var r := Approve(s, id);
    forall i | 0 <= i < |r.adventures.rows|
      ensures r.adventures.rows[i].val.approved == Pending || r.adventures.rows[i].val.approved == Approved
      ensures r.adventures.rows[i].val.downloads >= 0
    {
      if i != k {
        assert r.adventures.rows[i] == s.adventures.rows[i];
      }
    }
  }

  lemma RejectPreserves(s: Store, id: int)
    requires Consistent(s) && PendingAt(s, id)
    ensures Consistent(Reject(s, id))
  {
    var r := Reject(s, id);
    UniqueAfterDelete(s.ratings, (x: Rating) => x.adventureId == id, RatingKey);
    DeleteKeepsKeyed(s.ratings, (x: Rating) => x.adventureId == id);
    DeleteKeepsKeyed(s.reviews, (x: Review) => x.adventureId == id);
    assert RatingsOk(r.ratings) by {
      forall i | 0 <= i < |r.ratings.rows|
        ensures 1 <= r.ratings.rows[i].val.rating <= 5
      {
        assert r.ratings.rows[i] in s.ratings.rows;
      }
    }
    assert AdventuresOk(r.adventures) by {
      forall i | 0 <= i < |r.adventures.rows|
        ensures IsPending(r.adventures.rows[i].val) || r.adventures.rows[i].val.approved == Approved
        ensures r.adventures.rows[i].val.downloads >= 0
      {
        assert r.adventures.rows[i] in s.adventures.rows;
      }
    }
  }

  /** `request.form.get('action')` values that are acted on. */
  predicate KnownAction(action: Option<string>)
  {
    action == Some("approve") || action == Some("reject")
  }

  /** `os.path.exists` / `os.remove` on the stored file: missing, removed, or OSError. */
  datatype FileState = NoFile | Removable | Unremovable

  datatype Verdict = InvalidAction | NotFoundOrModerated | Published | Deleted(fileWarning: bool) | DatabaseError

  /** `moderate_adventure`. `failAt` is the position, counting the SELECT as 0, of the
      statement at which SQLite raises an error (COMMIT included); on such an error every
      write of the action is rolled back. */
  method ModerateAdventure(db: Database, id: int, action: Option<string>, file: FileState,
                           failAt: Option<nat>) returns (verdict: Verdict)
    requires db.Valid()
    modifies db
    ensures db.Valid()
    ensures !KnownAction(action) ==> verdict == InvalidAction
    ensures verdict == NotFoundOrModerated <==>
      KnownAction(action) && failAt != Some(0) && !PendingAt(old(db.State()), id)
    ensures verdict == DatabaseError ==> failAt.Some?
    ensures KnownAction(action) && failAt == Some(0) ==> verdict == DatabaseError
    ensures verdict.Published? || verdict.Deleted? ==> PendingAt(old(db.State()), id)
    ensures verdict.Published? ==> action == Some("approve") && db.State() == Approve(old(db.State()), id)
    ensures verdict.Deleted? ==> action == Some("reject") && db.State() == Reject(old(db.State()), id)
    ensures verdict.Deleted? ==> (verdict.fileWarning <==>
      old(db.adventures.rows[Find(db.adventures.rows, id)].val.filePath) != "" && file == Unremovable)
    ensures !verdict.Published? && !verdict.Deleted? ==> db.State() == old(db.State())
    ensures failAt.None? && KnownAction(action) && PendingAt(old(db.State()), id) ==>
      verdict.Published? || verdict.Deleted?
  {
    if !KnownAction(action) {
      return InvalidAction;
    }
    if failAt == Some(0) {
      return DatabaseError;
    }
    var k := Find(db.adventures.rows, id);
    if k < 0 || !IsPending(db.adventures.rows[k].val) {
      return NotFoundOrModerated;
    }
    if action == Some("approve") {
      verdict := RunApprove(db, id, failAt);
    } else {
      verdict := RunReject(db, id, file, failAt);
    }
  }

  /** The columns of `adventures` the moderation lookup names. */
  const LookupColumns: set<string> := {"id", "name", "author_id", "file_path", "game_version", "version_compat",
    "approved"}

  /** The first failing statement of `moderate_adventure` on a table with `columns`:
      the lookup (statement 0) also raises when it names a missing column. */
  function FailAtOn(columns: set<string>, failAt: Option<nat>): (r: Option<nat>)
    ensures r == Some(0) <==> failAt == Some(0) || !(LookupColumns <= columns)
    ensures LookupColumns <= columns ==> r == failAt
  {
    if Raises(LookupColumns, columns, failAt == Some(0)) then Some(0) else failAt
  }

  /** On the table `init_db.py` creates, the lookup always fails first, so every
      approve or reject ends in a database error and changes nothing
      (`ModerateAdventure` with statement 0 failing); with `game_version` the statements
      fail only on their own errors. */
  lemma ModerationAsCreated(failAt: Option<nat>)
    ensures FailAtOn(CreatedAdventureColumns, failAt) == Some(0)
    ensures FailAtOn(AdventureColumns, failAt) == failAt
  {
    GameVersionStatements(LookupColumns, failAt == Some(0));
  }

  /** The approve branch: UPDATE (statement 1), INSERT (2), COMMIT (3). */
  method RunApprove(db: Database, id: int, failAt: Option<nat>) returns (verdict: Verdict)
    requires db.Valid() && PendingAt(db.State(), id)
    modifies db
    ensures db.Valid()
    ensures verdict == Published || verdict == DatabaseError
    ensures verdict == Published <==> failAt !in {Some(1), Some(2), Some(3)}
    ensures verdict == Published ==> db.State() == Approve(old(db.State()), id)
    ensures verdict == DatabaseError ==> db.State() == old(db.State())
  {
    var snapshot := db.State();
    ApprovePreserves(snapshot, id);
    var k := Find(db.adventures.rows, id);
    var adventure := db.adventures.rows[k].val;
    db.adventures := SetVal(db.adventures, k, adventure.(approved := Approved));
    if failAt == Some(1) {
      db.Load(snapshot);
      return DatabaseError;
    }
    db.notifications := Insert(db.notifications, ApprovalNotice(adventure, id));
    if failAt == Some(2) || failAt == Some(3) {
      db.Load(snapshot);
      return DatabaseError;
    }
    return Published;
  }

  /** Statements 1-4 of the reject branch: the DELETEs from `adventure_tags`, `ratings`,
      `reviews` and `adventures`, stopping at the one that fails. After a failure the
      tables hold whatever the earlier DELETEs left; the caller rolls them back. */
  method DeleteReferences(db: Database, id: int, failAt: Option<nat>) returns (ok: bool)
    modifies db
    ensures ok <==> failAt !in {Some(1), Some(2), Some(3), Some(4)}
    ensures ok ==> db.State() == old(db.State()).(
      adventureTags := LinksWithout(old(db.adventureTags), id),
      ratings := RatingsWithout(old(db.ratings), id),
      reviews := ReviewsWithout(old(db.reviews), id),
      adventures := DeleteRow(old(db.adventures), id))
  {
    db.adventureTags := LinksWithout(db.adventureTags, id);
    if failAt == Some(1) {
      return false;
    }
    db.ratings := RatingsWithout(db.ratings, id);
    if failAt == Some(2) {
      return false;
    }
    db.reviews := ReviewsWithout(db.reviews, id);
    if failAt == Some(3) {
      return false;
    }
    db.adventures := DeleteRow(db.adventures, id);
    return failAt != Some(4);
  }

  /** The reject branch: four DELETEs (statements 1-4), the INSERT (5), the file
      removal, and COMMIT (6). */
  method RunReject(db: Database, id: int, file: FileState, failAt: Option<nat>) returns (verdict: Verdict)
    requires db.Valid() && PendingAt(db.State(), id)
    modifies db
    ensures db.Valid()
    ensures verdict.Deleted? || verdict == DatabaseError
    ensures verdict.Deleted? <==> failAt !in {Some(1), Some(2), Some(3), Some(4), Some(5), Some(6)}
    ensures verdict.Deleted? ==> db.State() == Reject(old(db.State()), id)
    ensures verdict.Deleted? ==> (verdict.fileWarning <==>
      old(db.adventures.rows[Find(db.adventures.rows, id)].val.filePath) != "" && file == Unremovable)
    ensures verdict == DatabaseError ==> db.State() == old(db.State())
  {
    var snapshot := db.State();
    RejectPreserves(snapshot, id);
    var adventure := db.adventures.rows[Find(db.adventures.rows, id)].val;
    var ok := DeleteReferences(db, id, failAt);
    if !ok {
      db.Load(snapshot);
      return DatabaseError;
    }
    db.notifications := Insert(db.notifications, RejectionNotice(adventure));
    assert db.State() == Reject(snapshot, id);
    if failAt == Some(5) {
      db.Load(snapshot);
      return DatabaseError;
    }
    // The file goes before the commit; an OSError only produces a warning.
    var warning := adventure.filePath != "" && file == Unremovable;
    if failAt == Some(6) {
      db.Load(snapshot);
      return DatabaseError;
    }
    return Deleted(warning);
  }
}
