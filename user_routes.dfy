/**
 * The signed-in user's routes: rating an adventure (an upsert on `ratings`), adding a
 * review, uploading an adventure through the web form, and opening the notifications
 * page, which marks every notification of the user as read.
 *
 * A database error in these routes is logged and the route returns without committing;
 * the connection is closed when the request ends, so the uncommitted writes are
 * discarded. Each route therefore either commits all its writes or none.
 */
module UserRoutes {
  import opened Wrappers
  import opened Strings
  import opened Tables
  import opened Schema
  import opened Utils
  import opened Submission
  import opened Archives

  // ---------------------------------------------------------------- rate_adventure

  /** `request.form.get('rating', type=int)` is None for a missing or non-integer value;
      zero is falsy and also refused. */
  predicate ValidRating(rating: Option<int>)
  {
    rating.Some? && 1 <= rating.value <= 5
  }

  /** The upsert: the user's existing row for the adventure gets the new value and the
      current time; otherwise a row is inserted and `created_at` takes its default. */
  function Rate(t: Table<Rating>, adventureId: int, userId: int, rating: int, clock: Clock): Table<Rating>
  {
    var k := IndexOf(t.rows, RatingKey, (adventureId, userId));
    if k >= 0 then SetVal(t, k, t.rows[k].val.(rating := rating, createdAt := clock.now))
    else Insert(t, Rating(adventureId, userId, rating, clock.sqlNow))
  }

  /** After rating, exactly one row holds the (adventure, user) pair, and it holds the
      new value; the table grows only when the pair was new; the table invariants
      still hold. */
  lemma RateUpsert(t: Table<Rating>, adventureId: int, userId: int, rating: int, clock: Clock)
    requires RatingsOk(t) && 1 <= rating <= 5
    ensures var r := Rate(t, adventureId, userId, rating, clock);
      && RatingsOk(r)
      && HasKey(r.rows, RatingKey, (adventureId, userId))
      && (forall i :: 0 <= i < |r.rows| && RatingKey(r.rows[i].val) == (adventureId, userId) ==>
            r.rows[i].val.rating == rating)
      && |r.rows| == |t.rows| + (if HasKey(t.rows, RatingKey, (adventureId, userId)) then 0 else 1)
  {
    var key := (adventureId, userId);
    var k := IndexOf(t.rows, RatingKey, key);
    var r := Rate(t, adventureId, userId, rating, clock);
    if k >= 0 {
      UniqueAfterSet(t, k, t.rows[k].val.(rating := rating, createdAt := clock.now), RatingKey);
      assert RatingKey(r.rows[k].val) == key;
    } else {
      FreshKeyInsert(t, Rating(adventureId, userId, rating, clock.sqlNow), RatingKey);
      assert RatingKey(r.rows[|t.rows|].val) == key;
    }
  }

  /** Rating touches the user's own row for the adventure only: every row for another
      (adventure, user) pair is kept, and no such row appears. */
  lemma RateKeepsOthers(t: Table<Rating>, adventureId: int, userId: int, rating: int, clock: Clock)
    ensures var r := Rate(t, adventureId, userId, rating, clock);
      && (forall x :: x in t.rows && RatingKey(x.val) != (adventureId, userId) ==> x in r.rows)
      && (forall x :: x in r.rows && RatingKey(x.val) != (adventureId, userId) ==> x in t.rows)
  {
    var key := (adventureId, userId);
    var k := IndexOf(t.rows, RatingKey, key);
    var r := Rate(t, adventureId, userId, rating, clock);
    if k >= 0 {
      forall x | x in t.rows && RatingKey(x.val) != key
        ensures x in r.rows
      {
        var i :| 0 <= i < |t.rows| && t.rows[i] == x;
        assert r.rows[i] == x;
      }
      forall x | x in r.rows && RatingKey(x.val) != key
        ensures x in t.rows
      {
        var i :| 0 <= i < |r.rows| && r.rows[i] == x;
        assert t.rows[i] == x;
      }
    }
  }

  datatype RateOutcome = InvalidRating | NotApproved | Rated | RateDatabaseError

  /** `rate_adventure`; `fault` says whether any of its statements raises. */
  method RateAdventure(db: Database, adventureId: int, userId: int, rating: Option<int>,
                       clock: Clock, fault: bool) returns (outcome: RateOutcome)
    requires db.Valid()
    modifies db
    ensures db.Valid()
    ensures outcome == InvalidRating <==> !ValidRating(rating)
    ensures outcome == NotApproved <==> ValidRating(rating) && !fault && !ApprovedAt(old(db.State()), adventureId)
    ensures outcome == Rated <==> ValidRating(rating) && !fault && ApprovedAt(old(db.State()), adventureId)
    ensures outcome == Rated ==> db.State() == old(db.State()).(ratings :=
      Rate(old(db.ratings), adventureId, userId, rating.value, clock))
    ensures outcome != Rated ==> db.State() == old(db.State())
  {
    if !ValidRating(rating) {
      return InvalidRating;
    }
    if fault {
      return RateDatabaseError;
    }
    if !ApprovedAt(db.State(), adventureId) {
      return NotApproved;
    }
    RateUpsert(db.ratings, adventureId, userId, rating.value, clock);
    var k := IndexOf(db.ratings.rows, RatingKey, (adventureId, userId));
    if k >= 0 {
      var row := db.ratings.rows[k].val;
      db.ratings := SetVal(db.ratings, k, row.(rating := rating.value, createdAt := clock.now));
    } else {
      db.ratings := Insert(db.ratings, Rating(adventureId, userId, rating.value, clock.sqlNow));
    }
    return Rated;
  }

  // ---------------------------------------------------------------- add_review

  datatype ReviewOutcome = EmptyReview | ReviewNotApproved | Reviewed | ReviewDatabaseError

  /** `add_review`: a review is always a new row, after all existing ones. */
  method AddReview(db: Database, adventureId: int, userId: int, content: Option<string>,
                   fault: bool) returns (outcome: ReviewOutcome)
    requires db.Valid()
    modifies db
    ensures db.Valid()
    ensures outcome == EmptyReview <==> !Present(content)
    ensures outcome == ReviewNotApproved <==> Present(content) && !fault && !ApprovedAt(old(db.State()), adventureId)
    ensures outcome == Reviewed <==> Present(content) && !fault && ApprovedAt(old(db.State()), adventureId)
    ensures outcome == Reviewed ==> db.State() == old(db.State()).(reviews :=
      Insert(old(db.reviews), Review(adventureId, userId, content.value)))
    ensures outcome == Reviewed ==> db.reviews.rows[..|old(db.reviews.rows)|] == old(db.reviews.rows)
    ensures outcome != Reviewed ==> db.State() == old(db.State())
  {
    if !Present(content) {
      return EmptyReview;
    }
    if fault {
      return ReviewDatabaseError;
    }
    if !ApprovedAt(db.State(), adventureId) {
      return ReviewNotApproved;
    }
    db.reviews := Insert(db.reviews, Review(adventureId, userId, content.value));
    return Reviewed;
  }

  // ---------------------------------------------------------------- upload_adventure

  /** The form: `name`, `description`, the list of selected tag ids, and the file's
      name when a file part is present. */
  datatype UploadForm = UploadForm(name: Option<string>, description: Option<string>,
                                   tags: seq<int>, filename: Option<string>)

  datatype UploadOutcome = MissingFields | NotZip | Uploaded(adventureId: int) | UploadDatabaseError

  /** The first check: every field present, at least one tag, a named file. */
  predicate FieldsPresent(form: UploadForm)
  {
    Present(form.name) && Present(form.description) && form.tags != [] && Present(form.filename)
  }

  /** The pending row the form produces, stored at `filePath` with `fileSize` bytes;
      the web form never sets `game_version`. */
  function UploadedRow(form: UploadForm, userId: int, filePath: string, fileSize: int, compat: string): (a: Adventure)
    requires FieldsPresent(form)
    ensures a.approved == Pending && a.downloads == 0 && a.gameVersion.None?
  {
    Adventure(form.name.value, form.description.value, userId, filePath, fileSize, compat, None, Pending, 0)
  }

  function UploadNotice(name: string): string
  {
    "New adventure '" + name + "' needs approval"
  }

  /** `upload_adventure` (POST). The saved file's path and size and the archive's
      contents are parameters; `writeFault` is a database error in the INSERTs or the
      COMMIT, `statFault` one inside `log_statistic`. A `version` field that is not a
      string cannot be bound as a parameter and fails like a database error. */
  method UploadAdventure(db: Database, form: UploadForm, userId: int, filePath: string, fileSize: int,
                         archive: Archive, clock: Clock, writeFault: bool, statFault: bool)
    returns (outcome: UploadOutcome)
    requires db.Valid()
    modifies db
    ensures db.Valid()
    ensures outcome == MissingFields <==> !FieldsPresent(form)
    ensures outcome == NotZip <==> FieldsPresent(form) && !IsZipName(form.filename.value)
    ensures outcome.Uploaded? <==>
      FieldsPresent(form) && IsZipName(form.filename.value) && !writeFault &&
      VersionCompat(archive).Text? && Distinct(form.tags)
    ensures outcome.Uploaded? ==> outcome.adventureId == old(db.adventures.lastId) + 1
    ensures outcome.Uploaded? ==> (db.State() ==
      Submitted(old(db.State()), UploadedRow(form, userId, filePath, fileSize, VersionCompat(archive).s),
                form.tags, UploadNotice(form.name.value)).(statistics := db.statistics))
    ensures outcome.Uploaded? ==>
      db.statistics == if statFault then old(db.statistics) else Logged(old(db.statistics), "uploads", 1, clock)
    ensures !outcome.Uploaded? ==> db.State() == old(db.State())
  {
    if !FieldsPresent(form) {
      return MissingFields;
    }
    if !IsZipName(form.filename.value) {
      return NotZip;
    }
    var compat := VersionCompat(archive);
    if writeFault || !compat.Text? {
      return UploadDatabaseError;
    }
    var snapshot := db.State();
    var row := UploadedRow(form, userId, filePath, fileSize, compat.s);
    var ok := RecordSubmission(db, row, form.tags, UploadNotice(form.name.value));
    if !ok {
      // IntegrityError on a repeated tag: nothing is committed.
      db.Load(snapshot);
      return UploadDatabaseError;
    }
    var committed := db.State();
    LogStatistic(db, "uploads", 1, clock, statFault);
    assert db.State() == committed.(statistics := db.statistics);
    return Uploaded(snapshot.adventures.lastId + 1);
  }

  // ---------------------------------------------------------------- notifications

  /** The user's notifications, in rowid order. */
  function NotificationsOf(rows: seq<Row<Notification>>, userId: int): (r: seq<Row<Notification>>)
    ensures forall x :: x in r <==> x in rows && x.val.userId == userId
  {
    if rows == [] then []
    else (if rows[0].val.userId == userId then [rows[0]] else []) + NotificationsOf(rows[1..], userId)
  }

  /** `notifications` with the timestamps read as intended (`Utils.ParseCell`): the list
      is read first, so it shows the read flags from before the UPDATE; then all of the
      user's unread notifications are marked read. An error in the SELECT (`readFault`)
      yields an empty list; one in the UPDATE or COMMIT (`updateFault`) still shows the
      list already built. Neither changes anything. */
  method ViewNotifications(db: Database, userId: int, readFault: bool, updateFault: bool)
    returns (list: seq<Row<Notification>>)
    requires db.Valid()
    modifies db
    ensures db.Valid()
    ensures readFault ==> list == []
    ensures !readFault ==> list == NotificationsOf(old(db.notifications.rows), userId)
    ensures readFault || updateFault ==> db.State() == old(db.State())
    ensures !readFault && !updateFault ==>
      db.State() == old(db.State()).(notifications := MarkRead(old(db.notifications), userId, None))
  {
    if readFault {
      return [];
    }
    list := NotificationsOf(db.notifications.rows, userId);
    if !updateFault {
      db.notifications := MarkRead(db.notifications, userId, None);
    }
  }

  /** `notifications` as written, where `created` gives the value fetched for each
      notification's `created_at`. The first component is the list shown, or None for
      the exception `parse_datetime` lets escape (a 500); the second is the database
      afterwards. */
  function ViewNotificationsAsWritten(s: Store, userId: int, created: int -> Cell, readFault: bool,
                                      updateFault: bool): (r: (Option<seq<Row<Notification>>>, Store))
    ensures readFault ==> r == (Some([]), s)
    ensures r.0.None? <==> (!readFault &&
      exists i :: 0 <= i < |NotificationsOf(s.notifications.rows, userId)| &&
        created(NotificationsOf(s.notifications.rows, userId)[i].id).DateTimeCell?)
    ensures r.0.None? ==> r.1 == s
    ensures r.0.Some? && !readFault ==> r.0.value == NotificationsOf(s.notifications.rows, userId)
  {
    if readFault then (Some([]), s)
    else
      var list := NotificationsOf(s.notifications.rows, userId);
      var ids := seq(|list|, i requires 0 <= i < |list| => list[i].id);
      var cells := FetchedCells(ids, created);
      match ParseEachAsWritten(cells)
      case None =>
        assert exists i :: 0 <= i < |list| && created(list[i].id).DateTimeCell?;
        assert exists i :: (0 <= i < |NotificationsOf(s.notifications.rows, userId)| &&
          created(NotificationsOf(s.notifications.rows, userId)[i].id).DateTimeCell?);
        (None, s)
      case Some(_) =>
        assert forall i :: 0 <= i < |list| ==> cells[i] == created(list[i].id);
        (Some(list), if updateFault then s else s.(notifications := MarkRead(s.notifications, userId, None)))
  }

  /** Every `created_at` arrives as a `datetime`, so a user with any notification gets a
      500 and nothing is marked read, while the intended page lists them. */
  lemma NotificationsCrashAsWritten(s: Store, userId: int, created: int -> Cell, updateFault: bool, i: nat)
    requires forall id :: created(id).DateTimeCell?
    requires i < |s.notifications.rows| && s.notifications.rows[i].val.userId == userId
    ensures ViewNotificationsAsWritten(s, userId, created, false, updateFault) == (None, s)
  {
    assert s.notifications.rows[i] in NotificationsOf(s.notifications.rows, userId);
    assert created(NotificationsOf(s.notifications.rows, userId)[0].id).DateTimeCell?;
  }
}
