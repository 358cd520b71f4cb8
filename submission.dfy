/**
 * The writes both upload paths (the API submission and the web form) make after
 * inserting a pending adventure: one `adventure_tags` row per submitted tag and one
 * 'moderation' notification per admin or moderator. Also the bulk "mark as read"
 * update that the notification and moderation pages run.
 */
module Submission {
  import opened Wrappers
  import opened Tables
  import opened Schema
  import opened Utils

  /** `SELECT id FROM users WHERE role IN ('admin', 'moderator')`, in rowid order. */
  function StaffIds(rows: seq<Row<User>>): (ids: seq<int>)
    ensures |ids| <= |rows|
    ensures forall id :: id in ids <==> exists i :: 0 <= i < |rows| && rows[i].id == id && IsStaff(rows[i].val.role)
  {
    if rows == [] then []
    else
      var rest := StaffIds(rows[1..]);
      assert forall i :: 1 <= i < |rows| ==> rows[1..][i - 1] == rows[i];
      if IsStaff(rows[0].val.role) then [rows[0].id] + rest else rest
  }

  /** The notifications a submission sends, one per staff id, in the same order. */
  function StaffNotices(staff: seq<int>, content: string, related: int): (ns: seq<Notification>)
    ensures |ns| == |staff|
    ensures forall i :: 0 <= i < |staff| ==> ns[i] == Notification(staff[i], content, Moderation, Some(related), false)
  {
    if staff == [] then []
    else [Notification(staff[0], content, Moderation, Some(related), false)] + StaffNotices(staff[1..], content, related)
  }

  lemma StaffNoticesSnoc(staff: seq<int>, id: int, content: string, related: int)
    ensures StaffNotices(staff + [id], content, related) ==
      StaffNotices(staff, content, related) + [Notification(id, content, Moderation, Some(related), false)]
  {
    var a := StaffNotices(staff + [id], content, related);
    var b := StaffNotices(staff, content, related) + [Notification(id, content, Moderation, Some(related), false)];
    assert |a| == |b|;
    forall i | 0 <= i < |a|
      ensures a[i] == b[i]
    {
      if i < |staff| {
        assert (staff + [id])[i] == staff[i];
      }
    }
  }

  /** The loop over the moderators: each gets an unread 'moderation' notification
      whose related id is the new adventure. */
  method NotifyStaff(db: Database, content: string, related: int)
    requires db.Valid()
    modifies db
    ensures db.Valid()
    ensures db.State() == old(db.State()).(notifications := db.notifications)
    ensures db.notifications ==
      InsertAll(old(db.notifications), StaffNotices(StaffIds(db.users.rows), content, related))
  {
    var moderators := StaffIds(db.users.rows);
    for i := 0 to |moderators|
      invariant db.Valid()
      invariant db.State() == old(db.State()).(notifications := db.notifications)
      invariant db.notifications == InsertAll(old(db.notifications), StaffNotices(moderators[..i], content, related))
    {
      assert moderators[..i + 1] == moderators[..i] + [moderators[i]];
      StaffNoticesSnoc(moderators[..i], moderators[i], content, related);
      InsertAllSnoc(old(db.notifications), StaffNotices(moderators[..i], content, related),
                    Notification(moderators[i], content, Moderation, Some(related), false));
      db.notifications := Insert(db.notifications, Notification(moderators[i], content, Moderation, Some(related), false));
    }
    assert moderators[..|moderators|] == moderators;
  }

  predicate Distinct(ids: seq<int>)
  {
    forall i, j :: 0 <= i < j < |ids| ==> ids[i] != ids[j]
  }

  function LinkSet(adventureId: int, tagIds: seq<int>): set<TagLink>
  {
    set t | t in tagIds :: TagLink(adventureId, t)
  }

  /** The loop over the tag ids: each adds one `adventure_tags` row. A row that is
      already there violates the primary key; the loop stops there and reports
      failure, leaving the caller to discard the transaction. */
  method LinkTags(db: Database, adventureId: int, tagIds: seq<int>) returns (ok: bool)
    requires db.Valid()
    requires adventureId <= db.adventures.lastId
    modifies db
    ensures db.Valid()
    ensures db.State() == old(db.State()).(adventureTags := db.adventureTags)
    ensures ok <==> Distinct(tagIds) && forall t :: t in tagIds ==> TagLink(adventureId, t) !in old(db.adventureTags)
    ensures ok ==> db.adventureTags == old(db.adventureTags) + LinkSet(adventureId, tagIds)
  {
    for i := 0 to |tagIds|
      invariant db.Valid()
      invariant db.State() == old(db.State()).(adventureTags := db.adventureTags)
      invariant db.adventureTags == old(db.adventureTags) + LinkSet(adventureId, tagIds[..i])
      invariant Distinct(tagIds[..i])
      invariant forall t :: t in tagIds[..i] ==> TagLink(adventureId, t) !in old(db.adventureTags)
    {
      var link := TagLink(adventureId, tagIds[i]);
      assert tagIds[..i + 1] == tagIds[..i] + [tagIds[i]];
      if link in db.adventureTags {
        if link !in old(db.adventureTags) {
          var j :| 0 <= j < i && tagIds[j] == tagIds[i];
          assert !Distinct(tagIds);
        } else {
          assert tagIds[i] in tagIds;
        }
        return false;
      }
      forall j | 0 <= j < i
        ensures tagIds[j] != tagIds[i]
      {
        assert TagLink(adventureId, tagIds[j]) in db.adventureTags;
      }
      db.adventureTags := db.adventureTags + {link};
    }
    assert tagIds[..|tagIds|] == tagIds;
    return true;
  }

  // ---------------------------------------------------------------- the staged writes

  /** The database after a submission's writes: the pending adventure `a` under the next
      id, one link per tag id, and one notification per staff member. */
  function Submitted(s: Store, a: Adventure, tagIds: seq<int>, content: string): Store
  {
    var id := s.adventures.lastId + 1;
    s.(adventures := Insert(s.adventures, a),
       adventureTags := s.adventureTags + LinkSet(id, tagIds),
       notifications := InsertAll(s.notifications, StaffNotices(StaffIds(s.users.rows), content, id)))
  }

  /** A submission adds exactly one adventure row, under a fresh id that no earlier link
      names; the new links are exactly one per submitted tag id on that adventure; and
      each staff member, in rowid order, gets one unread 'moderation' notification about
      it. Every other table is untouched. */
  lemma SubmittedEffect(s: Store, a: Adventure, tagIds: seq<int>, content: string)
    requires Consistent(s)
    ensures var r := Submitted(s, a, tagIds, content);
      var id := s.adventures.lastId + 1;
      var staff := StaffIds(s.users.rows);
      && r.adventures.rows == s.adventures.rows + [Row(id, a)]
      && (forall l :: l in s.adventureTags ==> l.adventureId != id)
      && (forall l :: l in r.adventureTags <==> l in s.adventureTags || (l.adventureId == id && l.tagId in tagIds))
      && |r.notifications.rows| == |s.notifications.rows| + |staff|
      && r.notifications.rows[..|s.notifications.rows|] == s.notifications.rows
      && (forall i :: 0 <= i < |staff| ==> (r.notifications.rows[|s.notifications.rows| + i] ==
            Row(s.notifications.lastId + 1 + i, Notification(staff[i], content, Moderation, Some(id), false))))
      && r == s.(adventures := r.adventures, adventureTags := r.adventureTags, notifications := r.notifications)
  {
    var id := s.adventures.lastId + 1;
    var staff := StaffIds(s.users.rows);
    var ns := StaffNotices(staff, content, id);
    var notes := InsertAll(s.notifications, ns);
    assert Submitted(s, a, tagIds, content).notifications == notes;
    forall i | 0 <= i < |staff|
      ensures notes.rows[|s.notifications.rows| + i] ==
        Row(s.notifications.lastId + 1 + i, Notification(staff[i], content, Moderation, Some(id), false))
    {
      assert ns[i] == Notification(staff[i], content, Moderation, Some(id), false);
    }
  }

  /** The writes keep every schema invariant when the new row is a fresh, pending one. */
  lemma SubmittedPreserves(s: Store, a: Adventure, tagIds: seq<int>, content: string)
    requires Consistent(s) && a.approved == Pending && a.downloads == 0
    ensures Consistent(Submitted(s, a, tagIds, content))
  {
    var r := Submitted(s, a, tagIds, content);
    assert r.adventures.rows[|s.adventures.rows|].val == a;
  }

  /** Inserting a fresh, pending adventure on its own keeps every schema invariant. */
  lemma PendingInsertPreserves(s: Store, a: Adventure)
    requires Consistent(s) && a.approved == Pending && a.downloads == 0
    ensures Consistent(s.(adventures := Insert(s.adventures, a)))
  {
    var r := Insert(s.adventures, a);
    assert r.rows[|s.adventures.rows|].val == a;
  }

  /** The INSERT of the adventure, the loop over the tag ids and the loop over the staff,
      uncommitted. A repeated tag id violates the link's primary key and stops the
      writes; since the adventure id is fresh, nothing else can. */
  method RecordSubmission(db: Database, a: Adventure, tagIds: seq<int>, content: string) returns (ok: bool)
    requires db.Valid() && a.approved == Pending && a.downloads == 0
    modifies db
    ensures ok <==> Distinct(tagIds)
    ensures ok ==> db.Valid() && db.State() == Submitted(old(db.State()), a, tagIds, content)
  {
    var before := db.State();
    SubmittedPreserves(before, a, tagIds, content);
    PendingInsertPreserves(before, a);
    db.Load(before.(adventures := Insert(before.adventures, a)));
    var id := db.adventures.lastId;
    ok := LinkTags(db, id, tagIds);
    assert forall t :: TagLink(id, t) !in before.adventureTags;
    if !ok {
      return;
    }
    NotifyStaff(db, content, id);
  }

  // ---------------------------------------------------------------- mark as read

  /** Which notifications an `UPDATE notifications SET is_read = 1 WHERE user_id = ?
      [AND type = ?] AND is_read = 0` touches. */
  predicate Unread(n: Notification, userId: int, kind: Option<NoticeKind>)
  {
    n.userId == userId && (kind.None? || n.kind == kind.value) && !n.isRead
  }

  function MarkReadRows(rows: seq<Row<Notification>>, userId: int, kind: Option<NoticeKind>): (r: seq<Row<Notification>>)
    ensures |r| == |rows|
    ensures forall i :: 0 <= i < |rows| ==>
      r[i] == if Unread(rows[i].val, userId, kind) then Row(rows[i].id, rows[i].val.(isRead := true)) else rows[i]
  {
    if rows == [] then []
    else
      var head := if Unread(rows[0].val, userId, kind) then Row(rows[0].id, rows[0].val.(isRead := true)) else rows[0];
      [head] + MarkReadRows(rows[1..], userId, kind)
  }

  /** The UPDATE itself: only the selected rows change, and only their `is_read`. */
  function MarkRead(t: Table<Notification>, userId: int, kind: Option<NoticeKind>): (r: Table<Notification>)
    ensures r.lastId == t.lastId
    ensures WellKeyed(t) ==> WellKeyed(r)
  {
    Table(MarkReadRows(t.rows, userId, kind), t.lastId)
  }

  /** Afterwards none of that user's notifications (of that kind) is unread, and every
      other user's notifications are exactly as before. */
  lemma MarkReadEffect(t: Table<Notification>, userId: int, kind: Option<NoticeKind>)
    ensures forall i :: 0 <= i < |t.rows| ==> !Unread(MarkRead(t, userId, kind).rows[i].val, userId, kind)
    ensures forall i :: 0 <= i < |t.rows| && t.rows[i].val.userId != userId ==>
      MarkRead(t, userId, kind).rows[i] == t.rows[i]
    ensures Count(MarkRead(t, userId, kind).rows, (n: Notification) => Unread(n, userId, kind)) == 0
  {
  }

  /** Marking as read a second time changes nothing. */
  lemma MarkReadIdempotent(t: Table<Notification>, userId: int, kind: Option<NoticeKind>)
    ensures MarkRead(MarkRead(t, userId, kind), userId, kind) == MarkRead(t, userId, kind)
  {
    var once := MarkRead(t, userId, kind);
    var twice := MarkRead(once, userId, kind);
    assert twice.rows == once.rows;
  }
}
