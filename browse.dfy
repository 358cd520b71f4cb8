/**
 * The public catalogue: the listing query built from the `tag`, `search` and `sort`
 * arguments, the detail page of an approved adventure, and the download route, which
 * counts the download and serves the archive from the upload folder.
 */
module Browse {
  import opened Wrappers
  import opened Strings
  import opened Tables
  import opened Schema
  import opened Utils

  // ---------------------------------------------------------------- the listing query

  /** SQL text as the code assembles it: literal text and `?` placeholders. */
  datatype Piece = Text(s: string) | Mark

  /** A value bound to a placeholder. */
  datatype SqlParam = IntParam(i: int) | TextParam(s: string)

  const ListingSelect: seq<Piece> := [Text(
    "SELECT a.id, a.name, a.description, u.username as author, a.creation_date, a.file_size, "
    + "a.game_version, a.version_compat, a.downloads, COALESCE(AVG(r.rating), 0) as avg_rating, "
    + "COUNT(DISTINCT r.id) as rating_count FROM adventures a JOIN users u ON a.author_id = u.id "
    + "LEFT JOIN ratings r ON a.id = r.adventure_id")]
  const TagJoin: seq<Piece> := [Text(" JOIN adventure_tags at ON a.id = at.adventure_id")]
  const Where: seq<Piece> := [Text(" WHERE ")]
  const And: seq<Piece> := [Text(" AND ")]
  const ApprovedClause: seq<Piece> := [Text("a.approved = 1")]
  const TagClause: seq<Piece> := [Text("at.tag_id = "), Mark]
  const SearchClause: seq<Piece> := [Text("(a.name LIKE "), Mark, Text(" OR a.description LIKE "), Mark, Text(")")]
  const GroupBy: seq<Piece> := [Text(" GROUP BY a.id")]
  const DefaultOrder := " ORDER BY a.creation_date DESC"

  /** The number of placeholders. */
  function Marks(q: seq<Piece>): nat
  {
    if q == [] then 0 else (if q[0] == Mark then 1 else 0) + Marks(q[1..])
  }

  lemma {:induction false} MarksConcat(a: seq<Piece>, b: seq<Piece>)
    ensures Marks(a + b) == Marks(a) + Marks(b)
  {
    if a == [] {
      assert a + b == b;
    } else {
      assert (a + b)[1..] == a[1..] + b;
      MarksConcat(a[1..], b);
    }
  }

  /** `' AND '.join(clauses)` */
  function JoinClauses(clauses: seq<seq<Piece>>): seq<Piece>
  {
    if clauses == [] then []
    else if |clauses| == 1 then clauses[0]
    else clauses[0] + And + JoinClauses(clauses[1..])
  }

  /** The placeholders of a list of clauses. */
  function ClauseMarks(clauses: seq<seq<Piece>>): nat
  {
    if clauses == [] then 0 else Marks(clauses[0]) + ClauseMarks(clauses[1..])
  }

  lemma {:induction false} JoinMarks(clauses: seq<seq<Piece>>)
    ensures Marks(JoinClauses(clauses)) == ClauseMarks(clauses)
  {
    if |clauses| == 1 {
      assert clauses[1..] == [];
    } else if |clauses| > 1 {
      JoinMarks(clauses[1..]);
      MarksConcat(clauses[0] + And, JoinClauses(clauses[1..]));
      MarksConcat(clauses[0], And);
      assert And[1..] == [];
    }
  }

  /** `request.args.get('tag', type=int)` followed by `if tag_id:`: a missing or
      non-integer argument is None, and 0 is falsy. */
  predicate TagFilter(tagId: Option<int>)
  {
    tagId.Some? && tagId.value != 0
  }

  /** The LIKE pattern of a search: the text between two `%` wildcards. */
  function SearchPattern(search: string): string
  {
    "%" + search + "%"
  }

  /** `order_map.get(sort, ' ORDER BY a.creation_date DESC')` */
  function OrderClause(sort: string): (clause: string)
    ensures sort == "oldest" ==> clause == " ORDER BY a.creation_date ASC"
    ensures sort == "highest_rated" ==> clause == " ORDER BY avg_rating DESC"
    ensures sort == "most_downloaded" ==> clause == " ORDER BY a.downloads DESC"
    ensures sort !in {"oldest", "highest_rated", "most_downloaded"} ==> clause == DefaultOrder
  {
    if sort == "newest" then " ORDER BY a.creation_date DESC"
    else if sort == "oldest" then " ORDER BY a.creation_date ASC"
    else if sort == "highest_rated" then " ORDER BY avg_rating DESC"
    else if sort == "most_downloaded" then " ORDER BY a.downloads DESC"
    else DefaultOrder
  }

  /** The WHERE conditions: approval always first, then the tag filter, then the search. */
  function WhereClauses(tagId: Option<int>, search: string): (clauses: seq<seq<Piece>>)
    ensures |clauses| == 1 + (if TagFilter(tagId) then 1 else 0) + (if search != "" then 1 else 0)
    ensures clauses[0] == ApprovedClause
  {
    [ApprovedClause] + (if TagFilter(tagId) then [TagClause] else []) + (if search != "" then [SearchClause] else [])
  }

  /** The bound values, in placeholder order: the tag id, then the search pattern twice. */
  function ListingParams(tagId: Option<int>, search: string): (params: seq<SqlParam>)
    ensures |params| == (if TagFilter(tagId) then 1 else 0) + (if search != "" then 2 else 0)
    ensures TagFilter(tagId) ==> params[0] == IntParam(tagId.value)
    ensures search != "" ==>
      params[|params| - 2..] == [TextParam(SearchPattern(search)), TextParam(SearchPattern(search))]
  {
    (if TagFilter(tagId) then [IntParam(tagId.value)] else [])
      + (if search != "" then [TextParam(SearchPattern(search)), TextParam(SearchPattern(search))] else [])
  }

  /** The statement the listing runs. */
  function ListingSql(tagId: Option<int>, search: string, sort: string): seq<Piece>
  {
    ListingSelect + (if TagFilter(tagId) then TagJoin else []) + Where
      + JoinClauses(WhereClauses(tagId, search)) + GroupBy + [Text(OrderClause(sort))]
  }

  lemma {:induction false} ClauseMarksConcat(a: seq<seq<Piece>>, b: seq<seq<Piece>>)
    ensures ClauseMarks(a + b) == ClauseMarks(a) + ClauseMarks(b)
  {
    if a == [] {
      assert a + b == b;
    } else {
      assert (a + b)[1..] == a[1..] + b;
      ClauseMarksConcat(a[1..], b);
    }
  }

  lemma ClauseMarksOne(c: seq<Piece>)
    ensures ClauseMarks([c]) == Marks(c)
  {
    assert [c][1..] == [];
  }

  /** The WHERE conditions carry exactly as many placeholders as there are values. */
  lemma WhereMarks(tagId: Option<int>, search: string)
    ensures ClauseMarks(WhereClauses(tagId, search)) == |ListingParams(tagId, search)|
  {
    assert Marks(ApprovedClause) == 0;
    assert Marks(TagClause) == 1 by {
      assert TagClause[1..][1..] == [];
    }
    assert Marks(SearchClause) == 2 by {
      assert SearchClause[1..][1..][1..][1..][1..] == [];
    }
    var t: seq<seq<Piece>> := if TagFilter(tagId) then [TagClause] else [];
    var q: seq<seq<Piece>> := if search != "" then [SearchClause] else [];
    ClauseMarksConcat([ApprovedClause] + t, q);
    ClauseMarksConcat([ApprovedClause], t);
    ClauseMarksOne(ApprovedClause);
    ClauseMarksOne(TagClause);
    ClauseMarksOne(SearchClause);
  }

  /** The statement binds every value it is given and no more: it has exactly as many
      placeholders as there are parameters. */
  lemma ListingPlaceholders(tagId: Option<int>, search: string, sort: string)
    ensures Marks(ListingSql(tagId, search, sort)) == |ListingParams(tagId, search)|
  {
    WhereMarks(tagId, search);
    JoinMarks(WhereClauses(tagId, search));
    var join := if TagFilter(tagId) then TagJoin else [];
    var head := ListingSelect + join;
    var where := JoinClauses(WhereClauses(tagId, search));
    var order := [Text(OrderClause(sort))];
    assert Marks(ListingSelect) == 0 && Marks(join) == 0 && Marks(Where) == 0;
    assert Marks(GroupBy) == 0 && Marks(order) == 0;
    MarksConcat(ListingSelect, join);
    MarksConcat(head, Where);
    MarksConcat(head + Where, where);
    MarksConcat(head + Where + where, GroupBy);
    MarksConcat(head + Where + where + GroupBy, order);
  }

  /** Whatever the arguments, the statement filters on approval: its WHERE part opens
      with `a.approved = 1`. */
  lemma ListingOnlyApproved(tagId: Option<int>, search: string, sort: string)
    ensures exists head, tail :: ListingSql(tagId, search, sort) == head + Where + ApprovedClause + tail
  {
    var cs := WhereClauses(tagId, search);
    var head := ListingSelect + (if TagFilter(tagId) then TagJoin else []);
    var rest := if |cs| == 1 then [] else And + JoinClauses(cs[1..]);
    assert JoinClauses(cs) == ApprovedClause + rest;
    var tail := rest + GroupBy + [Text(OrderClause(sort))];
    assert ListingSql(tagId, search, sort) == head + Where + ApprovedClause + tail;
  }

  /** The query building of `adventures`: the WHERE list and the parameter list grow by
      appending, then the pieces are concatenated. */
  method BuildListingQuery(tagId: Option<int>, search: string, sort: string)
    returns (query: seq<Piece>, params: seq<SqlParam>)
    ensures query == ListingSql(tagId, search, sort)
    ensures params == ListingParams(tagId, search)
    ensures Marks(query) == |params|
  {
    query := ListingSelect;
    params := [];
    var whereClauses := [ApprovedClause];
    if TagFilter(tagId) {
      query := query + TagJoin;
      whereClauses := whereClauses + [TagClause];
      params := params + [IntParam(tagId.value)];
    }
    if search != "" {
      whereClauses := whereClauses + [SearchClause];
      var pattern := SearchPattern(search);
      params := params + [TextParam(pattern), TextParam(pattern)];
    }
    assert whereClauses == WhereClauses(tagId, search);
    assert params == ListingParams(tagId, search);
    if whereClauses != [] {
      query := query + Where + JoinClauses(whereClauses);
    }
    query := query + GroupBy;
    query := query + [Text(OrderClause(sort))];
    ListingPlaceholders(tagId, search, sort);
  }

  // ---------------------------------------------------------------- adventure_detail

  datatype DetailOutcome =
    | Shown(adventure: Row<Adventure>, tagIds: set<int>, userRating: Option<int>)
    | NotListed
    | DetailError

  /** The tags of an adventure as `tags JOIN adventure_tags` returns them: a link whose
      tag id has no `tags` row is not shown. */
  function TagsOf(tags: Table<Tag>, links: set<TagLink>, adventureId: int): (ids: set<int>)
    ensures forall t :: t in ids <==> TagLink(adventureId, t) in links && Find(tags.rows, t) >= 0
  {
    set l | l in links && l.adventureId == adventureId && Find(tags.rows, l.tagId) >= 0 :: l.tagId
  }

  /** The detail SELECT finds the adventure: it is approved and, through `JOIN users`,
      its author's row exists. */
  predicate Listed(s: Store, adventureId: int)
  {
    var k := Find(s.adventures.rows, adventureId);
    k >= 0 && s.adventures.rows[k].val.approved == Approved && Find(s.users.rows, s.adventures.rows[k].val.authorId) >= 0
  }

  /** The signed-in user's own rating of the adventure, if any. */
  function RatingBy(t: Table<Rating>, adventureId: int, userId: Option<int>): (r: Option<int>)
    ensures r.Some? <==> userId.Some? && HasKey(t.rows, RatingKey, (adventureId, userId.value))
    ensures r.Some? ==> exists i :: (0 <= i < |t.rows| &&
      RatingKey(t.rows[i].val) == (adventureId, userId.value) && t.rows[i].val.rating == r.value)
  {
    if userId.None? then None
    else
      var k := IndexOf(t.rows, RatingKey, (adventureId, userId.value));
      if k < 0 then None else Some(t.rows[k].val.rating)
  }

  /** `adventure_detail` with the timestamps read as intended (`Utils.ParseCell`): the
      view is counted first; then only an approved adventure whose author exists is
      shown, and anything else (or a database error) redirects to the listing. */
  method AdventureDetail(db: Database, adventureId: int, sessionUser: Option<int>, clock: Clock,
                         statFault: bool, fault: bool) returns (outcome: DetailOutcome)
    requires db.Valid()
    modifies db
    ensures db.Valid()
    ensures db.State() == old(db.State()).(statistics := db.statistics)
    ensures db.statistics == if statFault then old(db.statistics) else Logged(old(db.statistics), "page_views", 1, clock)
    ensures outcome == DetailError <==> fault
    ensures outcome.Shown? <==> !fault && Listed(old(db.State()), adventureId)
    ensures outcome.Shown? ==> ApprovedAt(old(db.State()), adventureId)
    ensures outcome.Shown? ==>
      && outcome.adventure.id == adventureId
      && outcome.adventure in old(db.adventures.rows)
      && outcome.adventure.val.approved == Approved
      && Find(old(db.users.rows), outcome.adventure.val.authorId) >= 0
      && outcome.tagIds == TagsOf(old(db.tags), old(db.adventureTags), adventureId)
      && outcome.userRating == RatingBy(old(db.ratings), adventureId, sessionUser)
  {
    LogStatistic(db, "page_views", 1, clock, statFault);
    if fault {
      return DetailError;
    }
    if !Listed(db.State(), adventureId) {
      return NotListed;
    }
    var k := Find(db.adventures.rows, adventureId);
    outcome := Shown(db.adventures.rows[k], TagsOf(db.tags, db.adventureTags, adventureId),
                     RatingBy(db.ratings, adventureId, sessionUser));
  }

  /** The columns of `adventures` the detail SELECT names. */
  const DetailColumns: set<string> := {"id", "name", "description", "author_id", "creation_date", "file_path",
    "file_size", "game_version", "version_compat", "downloads", "approved"}

  /** The `created_at` values fetched for the adventure's reviews: `reviews JOIN users`
      drops a review whose writer has no row. */
  function ReviewCells(users: Table<User>, rows: seq<Row<Review>>, adventureId: int, reviewCreated: int -> Cell): (cells: seq<Cell>)
    ensures |cells| <= |rows|
    ensures forall c :: c in cells ==> exists i :: (0 <= i < |rows| && rows[i].val.adventureId == adventureId &&
      Find(users.rows, rows[i].val.userId) >= 0 && c == reviewCreated(rows[i].id))
  {
    if rows == [] then []
    else
      var rest := ReviewCells(users, rows[1..], adventureId, reviewCreated);
      if rows[0].val.adventureId == adventureId && Find(users.rows, rows[0].val.userId) >= 0 then
        [reviewCreated(rows[0].id)] + rest
      else rest
  }

  /** The timestamps the detail page passes to `parse_datetime`: the adventure's
      `creation_date`, then each review's `created_at`. */
  function DetailCells(s: Store, adventureId: int, created: int -> Cell, reviewCreated: int -> Cell): (cells: seq<Cell>)
    ensures |cells| >= 1 && cells[0] == created(adventureId)
  {
    [created(adventureId)] + ReviewCells(s.users, s.reviews.rows, adventureId, reviewCreated)
  }

  /** `adventure_detail` as written, on an `adventures` table with `columns`, where
      `created` and `reviewCreated` give the values fetched for `creation_date` and the
      reviews' `created_at`. The first component is the outcome, or None for the
      exception `parse_datetime` lets escape (a 500); the second is the database
      afterwards, which keeps the view counted before anything else. */
  function AdventureDetailAsWritten(s: Store, columns: set<string>, adventureId: int, sessionUser: Option<int>,
                                    clock: Clock, created: int -> Cell, reviewCreated: int -> Cell,
                                    statFault: bool, fault: bool): (r: (Option<DetailOutcome>, Store))
    ensures r.1 == s.(statistics := if statFault then s.statistics else Logged(s.statistics, "page_views", 1, clock))
    ensures r.0 == Some(DetailError) <==> Raises(DetailColumns, columns, fault)
    ensures r.0 == Some(NotListed) <==> !Raises(DetailColumns, columns, fault) && !Listed(s, adventureId)
    ensures r.0.None? <==> (!Raises(DetailColumns, columns, fault) && Listed(s, adventureId) &&
      exists i :: 0 <= i < |DetailCells(s, adventureId, created, reviewCreated)| &&
        DetailCells(s, adventureId, created, reviewCreated)[i].DateTimeCell?)
  {
    var after := s.(statistics := if statFault then s.statistics else Logged(s.statistics, "page_views", 1, clock));
    if Raises(DetailColumns, columns, fault) then (Some(DetailError), after)
    else if !Listed(s, adventureId) then (Some(NotListed), after)
    else if ParseEachAsWritten(DetailCells(s, adventureId, created, reviewCreated)).None? then (None, after)
    else
      var k := Find(s.adventures.rows, adventureId);
      (Some(Shown(s.adventures.rows[k], TagsOf(s.tags, s.adventureTags, adventureId),
                  RatingBy(s.ratings, adventureId, sessionUser))), after)
  }

  /** On the table `init_db.py` creates, the detail SELECT always raises: after the view
      is counted, every request is sent back to the listing. */
  lemma DetailAsCreated(s: Store, adventureId: int, sessionUser: Option<int>, clock: Clock, created: int -> Cell,
                        reviewCreated: int -> Cell, statFault: bool, fault: bool)
    ensures AdventureDetailAsWritten(s, CreatedAdventureColumns, adventureId, sessionUser, clock, created,
                                     reviewCreated, statFault, fault).0 == Some(DetailError)
  {
    GameVersionStatements(DetailColumns, fault);
  }

  /** With the `game_version` column, every listed adventure's page crashes: its
      `creation_date` arrives as a `datetime`, so the request ends in a 500 with only the
      view counted, while the intended page shows the adventure. */
  lemma DetailCrashAsWritten(s: Store, adventureId: int, sessionUser: Option<int>, clock: Clock,
                             created: int -> Cell, reviewCreated: int -> Cell, statFault: bool)
    requires forall id :: created(id).DateTimeCell?
    requires Listed(s, adventureId)
    ensures AdventureDetailAsWritten(s, AdventureColumns, adventureId, sessionUser, clock, created,
                                     reviewCreated, statFault, false).0.None?
  {
    GameVersionStatements(DetailColumns, false);
    assert DetailCells(s, adventureId, created, reviewCreated)[0].DateTimeCell?;
  }

  // ---------------------------------------------------------------- download_adventure

  /** The position of the last '/' in `p`, or -1 when there is none. */
  function LastSlash(p: string): (i: int)
    ensures -1 <= i < |p|
    ensures i >= 0 ==> p[i] == '/'
    ensures forall j :: i < j < |p| ==> p[j] != '/'
  {
    if p == [] then -1
    else if p[|p| - 1] == '/' then |p| - 1
    else LastSlash(p[..|p| - 1])
  }

  /** `os.path.basename`: the text after the last '/'. */
  function Basename(p: string): (b: string)
    ensures '/' !in b
    ensures EndsWith(p, b)
    ensures |b| < |p| ==> p[|p| - |b| - 1] == '/'
  {
    var i := LastSlash(p);
    p[i + 1..]
  }

  /** `os.path.dirname` of a normalised absolute path: everything before the last
      '/', or the root. */
  function Parent(p: string): (d: string)
    ensures |d| <= |p| || d == "/"
  {
    var b := Basename(p);
    if |b| == |p| then ""
    else
      var d := p[..|p| - |b| - 1];
      if d == "" then "/" else d
  }

  /** `os.path.abspath(os.path.join(absDir, name))` for a name without '/', where
      `absDir` is already absolute and normalised: "" and "." name the folder itself,
      ".." its parent, anything else an entry inside it. */
  function AbsJoin(absDir: string, name: string): string
  {
    if name == "" || name == "." then absDir
    else if name == ".." then Parent(absDir)
    else if absDir == "/" then "/" + name
    else absDir + "/" + name
  }

  /** `safe_path.startswith(os.path.abspath(directory))` */
  predicate PathGuard(absDir: string, name: string)
  {
    StartsWith(AbsJoin(absDir, name), absDir)
  }

  /** An absolute, normalised folder other than the root. */
  predicate FolderPath(absDir: string)
  {
    |absDir| >= 2 && absDir[0] == '/' && absDir[|absDir| - 1] != '/'
  }

  /** Since the stored path is first cut to its basename, the guard can only refuse
      the name "..": every other name resolves inside the upload folder. */
  lemma PathGuardRefusesOnlyParent(absDir: string, name: string)
    requires FolderPath(absDir) && '/' !in name
    ensures PathGuard(absDir, name) <==> name != ".."
  {
    if name == ".." {
      var b := Basename(absDir);
      assert absDir[0] !in b;
      assert |b| < |absDir|;
    } else if name != "" && name != "." {
      assert (absDir + "/" + name)[..|absDir|] == absDir;
    }
  }

  datatype DownloadOutcome =
    | NotAvailable
    | DownloadError
    | Served(filename: string, downloadName: string)
    | PathRefused
    | ServeError
    | NoFilePath

  /** The counter update: the row at position `k` gets one more download. */
  function Bumped(t: Table<Adventure>, k: nat): (r: Table<Adventure>)
    requires k < |t.rows|
    ensures AdventuresOk(t) ==> AdventuresOk(r)
  {
    SetVal(t, k, t.rows[k].val.(downloads := t.rows[k].val.downloads + 1))
  }

  /** A download adds exactly one to that adventure's counter and changes nothing
      else in the table. */
  lemma BumpedEffect(t: Table<Adventure>, k: nat)
    requires k < |t.rows|
    ensures |Bumped(t, k).rows| == |t.rows| && Bumped(t, k).lastId == t.lastId
    ensures Bumped(t, k).rows[k].id == t.rows[k].id
    ensures Bumped(t, k).rows[k].val.downloads == t.rows[k].val.downloads + 1
    ensures Bumped(t, k).rows[k].val.(downloads := 0) == t.rows[k].val.(downloads := 0)
    ensures forall i :: 0 <= i < |t.rows| && i != k ==> Bumped(t, k).rows[i] == t.rows[i]
  {
  }

  /** `download_adventure` behind `login_required`. `absDir` is the absolute upload
      folder and `fileMissing` says whether `send_from_directory` finds no such file;
      `fault` is a database error in the SELECT, the UPDATE or the COMMIT, `statFault`
      one inside `log_statistic`. The counter is committed before the file is looked
      at, so a download the path guard refuses is still counted. */
  method DownloadAdventure(db: Database, adventureId: int, absDir: string, fileMissing: bool,
                           clock: Clock, fault: bool, statFault: bool) returns (outcome: DownloadOutcome)
    requires db.Valid()
    modifies db
    ensures db.Valid()
    ensures outcome == DownloadError <==> fault
    ensures outcome == NotAvailable <==> !fault && !ApprovedAt(old(db.State()), adventureId)
    ensures outcome in {DownloadError, NotAvailable} ==> db.State() == old(db.State())
    ensures outcome !in {DownloadError, NotAvailable} ==>
      var k := Find(old(db.adventures.rows), adventureId);
      && 0 <= k
      && db.State() == old(db.State()).(adventures := Bumped(old(db.adventures), k), statistics := db.statistics)
      && db.statistics == (if statFault then old(db.statistics) else Logged(old(db.statistics), "downloads", 1, clock))
      && var row := old(db.adventures.rows)[k].val;
      && (outcome == NoFilePath <==> row.filePath == "")
      && (outcome == PathRefused <==> row.filePath != "" && !PathGuard(absDir, Basename(row.filePath)))
      && (outcome.Served? <==> row.filePath != "" && PathGuard(absDir, Basename(row.filePath)) && !fileMissing)
      && (outcome.Served? ==> outcome == Served(Basename(row.filePath), row.name + ".zip"))
  {
    if fault {
      return DownloadError;
    }
    if !ApprovedAt(db.State(), adventureId) {
      return NotAvailable;
    }
    var k := Find(db.adventures.rows, adventureId);
    var row := db.adventures.rows[k].val;
    db.adventures := Bumped(db.adventures, k);
    LogStatistic(db, "downloads", 1, clock, statFault);
    if row.filePath == "" {
      return NoFilePath;
    }
    var filename := Basename(row.filePath);
    if !PathGuard(absDir, filename) {
      return PathRefused;
    }
    if fileMissing {
      return ServeError;
    }
    return Served(filename, row.name + ".zip");
  }
}
