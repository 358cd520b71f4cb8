# Adventure store: a verified model of its record keeping

This project is a Dafny model of the Flask application `adventure_store`. The
application is a catalogue of text adventures. Authors upload adventures as ZIP
archives, either through a web form or through a JSON API. Moderators approve or
reject them. Signed-in users rate, review and download the approved ones.

The model covers the application's SQLite database and the routes that read and
write it:

- `Schema` holds one record type per table (`users`, `adventures`, `tags`,
  `adventure_tags`, `ratings`, `reviews`, `notifications`, `site_settings`,
  `statistics`, `api_keys`). It states the schema's PRIMARY KEY, UNIQUE and CHECK
  constraints as the invariant `Consistent`. It also holds the `Database` class, with
  one field per table, and the `INSERT OR IGNORE` seeding.
- `Tables` models a table as its rows in rowid order, together with the last
  AUTOINCREMENT id handed out. A `fetchone()` over a scan is the first matching row.
- Each route is a module-level method that takes the `Database` object (for example
  `Moderate.ModerateAdventure(db, ...)`), checks and then writes. The checks are
  pure functions, so their contracts can be stated and reused. A database error is
  a boolean (or, in moderation, the position of the failing statement). The method
  then proves that the transaction is rolled back or discarded.
- Modules follow the source files:
  - `Api` (`adventure_store/api.py`)
  - `Moderate` (`moderate.py`)
  - `UserRoutes` (`user.py`)
  - `Browse` (`main.py`)
  - `Admin` (`admin.py`)
  - `Auth` (`auth.py`)
  - `Utils` (`utils.py`)
  - `Decorators` (`decorators.py`)
  - `Schema` (`init_db.py`)
- Helper modules:
  - `Strings`: Python string operations and SQLite `LOWER`.
  - `Versions`: the PEP 440 release-segment order used by `packaging.version`.
  - `Archives`: what the code reads out of an uploaded ZIP.
  - `Submission`: the writes the two upload paths share.
  - `Wrappers`: `Option` and `Result`.

Password hashing, the clock, the saved upload and its archive contents, and the
file system's answers are parameters of the methods. Hashing is a function value
`hash`. The clock is `Clock`, which holds today's date, `datetime.now()` and SQLite's
`CURRENT_TIMESTAMP`.

### Behaviour of the code the model keeps

- **No superseded state.** Approval updates only the one row (`adventure_store/moderate.py:58`).
  No statement writes an `approved` value other than 0 or 1, although a comment in the
  title check speaks of superseded versions with `approved = 2`
  (`adventure_store/api.py:289`). After an owner's second version is approved, two
  approved rows share the name, and the ownership check reads the first of them in
  rowid order (`Api.FirstClaim`).
- **Reject keeps notifications.** Reject deletes the adventure's tag links, ratings and
  reviews, then the adventure (`adventure_store/moderate.py:66-70`). Notifications that
  point at it stay, and `Moderate.Reject` keeps them.
- **File removal on reject.** The stored file is removed before `conn.commit()`
  (`adventure_store/moderate.py:79-89`), and `Moderate.RunReject` follows that order. A
  failed removal is only a warning.
- **`game_version`.** `init_db.py:31-45` creates `adventures` without a `game_version`
  column, yet the API, the moderation routes and the catalogue pages name it. `Adventure`
  has the field `gameVersion: Option<string>`, and the route methods assume a table with
  the column. What the statements do on the table as created is the `init_db.py:31-45` row
  under "Findings". The web upload leaves the field `None`.
- **Timestamps.** The connection is opened with PARSE_DECLTYPES
  (`adventure_store/db.py:16-19`), so `parse_datetime` is handed `datetime` values and
  raises on them (the `adventure_store/utils.py:11-24` row under "Findings"). The route methods read timestamps as
  intended; the functions ending in `AsWritten` model the crash.

## Model

| member | source | states |
|---|---|---|
| Tables.Insert | init_db.py:20 | AUTOINCREMENT: the row is appended under the id after the last one handed out, and every existing id stays smaller. |
| Tables.SetVal | adventure_store/user.py:33 | `UPDATE ... WHERE id = ?` changes that one row's value only. Length, ids and `lastId` are kept. |
| Tables.DeleteWhere | adventure_store/moderate.py:66-68 | `DELETE ... WHERE`: a row survives exactly when it does not match. `lastId` is kept. |
| Tables.DeleteRow | adventure_store/moderate.py:70 | `DELETE FROM adventures WHERE id = ?`: exactly the row with that id goes. With no such row nothing changes. |
| Tables.Find | adventure_store/moderate.py:52 | Lookup by primary key: the position of the row with that id, or -1 when there is none. |
| Tables.IndexOf | adventure_store/user.py:31 | `fetchone()` on a column match: the first matching row in rowid order, or -1 when none matches. |
| Tables.FirstWhere | adventure_store/api.py:172-175 | The first row satisfying a condition, or -1 when no row does. |
| Tables.InsertOrIgnore | init_db.py:160-163 | `INSERT OR IGNORE` on a UNIQUE column: nothing changes when the key exists, otherwise one insert. Afterwards the key is present and uniqueness still holds. |
| Tables.InsertOrIgnoreKeys | init_db.py:166-168 | Insert-or-ignore adds no key but its own and loses none. |
| Tables.UniqueAfterInsert | init_db.py:51 | Inserting a value whose key is absent keeps the UNIQUE column unique. |
| Tables.FreshKeyInsert | init_db.py:21-22 | Inserting a value whose key is absent keeps the UNIQUE column unique. |
| Tables.UniqueAfterSet | init_db.py:76 | Updating a row without changing its key keeps the UNIQUE column unique. |
| Tables.UniqueAfterDelete | init_db.py:76 | Deleting rows keeps a UNIQUE column unique. |
| Tables.DeleteKeepsKeyed | init_db.py:69 | Deleting rows keeps the primary keys increasing. |
| Tables.Count | adventure_store/utils.py:48 | `COUNT(*)` is at most the number of rows, and is 0 exactly when no row matches. |
| Tables.CountSet | adventure_store/admin.py:89 | Replacing one row changes the count by the difference of that row's membership. |
| Tables.CountDeleteRow | adventure_store/moderate.py:70 | Deleting a row by id lowers the count by one exactly when that row matched. |
| Tables.InsertAll | adventure_store/api.py:212-216 | Inserting values in a loop appends them in order under consecutive ids, keeping the earlier rows. |
| Strings.LowerAll | adventure_store/api.py:173 | SQLite `LOWER()`: the same length, each character folded. |
| Strings.Split | adventure_store/api.py:99 | `str.split` returns at least one piece. |
| Strings.SplitJoin | adventure_store/api.py:99 | Splitting undoes joining when no piece holds the separator. |
| Strings.ParseInt | adventure_store/api.py:99 | `int()` succeeds exactly when the stripped text is an optional '+' or '-' followed by one or more ASCII digits, and then gives their value with that sign. Everything else is refused. |
| Strings.ParseIntRoundTrip | adventure_store/api.py:99 | `int(str(i)) == i` for every integer. |
| Utils.ParseWhole | adventure_store/utils.py:21 | `'%Y-%m-%d %H:%M:%S'` yields only valid datetimes without microseconds. |
| Utils.ParseWithFraction | adventure_store/utils.py:17 | `'%Y-%m-%d %H:%M:%S.%f'` yields only valid datetimes. |
| Utils.ParseDatetime | adventure_store/utils.py:11-24 | `parse_datetime`: None exactly for empty input. An unparsed result is the input unchanged, and a parsed one is a valid datetime. |
| Utils.ParseFormatRoundTrip | adventure_store/utils.py:13-21 | Every valid datetime, stored as `str(datetime)`, is parsed back to itself, with or without microseconds. |
| Utils.ParseDatetimeAsWritten | adventure_store/utils.py:11-24 | As written, on a fetched value: it raises exactly on a `datetime`, and NULL gives None. |
| Utils.ParseCell | adventure_store/utils.py:11-24 | As intended: a `datetime` is kept as it is and NULL gives None. |
| Utils.ParseCellRefinesAsWritten | adventure_store/utils.py:11-24 | The two readings differ exactly on `datetime` values; on NULL and text they agree. |
| Utils.ParseEachAsWritten | adventure_store/moderate.py:25-27 | A route's parse loop raises exactly when one value is a `datetime`. Otherwise each value is read as intended. |
| Utils.GetSiteSettings | adventure_store/utils.py:26-36 | The dictionary has exactly the setting names as keys, each mapped to its row's value. It is empty after a database error. |
| Utils.PendingModerationCount | adventure_store/utils.py:38-54 | The count is 0 unless the session user exists and is admin or moderator. For staff it is the number of adventures with `approved = 0`. |
| Utils.LogStatistic | adventure_store/utils.py:56-82 | Only `statistics` changes, to `Logged`. A database error is swallowed and changes nothing. |
| Utils.LoggedTotals | adventure_store/utils.py:63-77 | Logging adds exactly `increment` to today's total for that statistic. Every other (statistic, day) total is unchanged. |
| Utils.LoggedOnePerDay | adventure_store/utils.py:63-77 | Logging keeps at most one row per statistic per day. |
| Schema.EmptyStore | init_db.py:17-150 | The freshly created tables are empty and satisfy every constraint. |
| Schema.Database.constructor | init_db.py:17-150 | A new database holds the empty store and is valid. |
| Schema.Database.Load | adventure_store/moderate.py:91-92 | `rollback()`: loading the snapshot taken at the start of the transaction returns every table to that state. |
| Schema.InsertUserOrIgnore | init_db.py:154-157 | The admin insert is ignored when the username or email is taken, and is one insert otherwise. Both UNIQUE columns stay unique. |
| Schema.InsertFreshUser | init_db.py:21-22 | After a user passes the "username or email exists" check, the insert keeps both columns unique. The new row is the only one holding its username or email. |
| Schema.InsertTags | init_db.py:165-168 | Every default tag exists afterwards, no other tag name appears or disappears, and a fully seeded table is unchanged. |
| Schema.Seed | init_db.py:152-168 | Seeding leaves the admin account, the theme setting and all eight tags. Only those three tables change, and seeding an already seeded database changes nothing. |
| Schema.GameVersionStatements | init_db.py:31-45 | A statement naming `game_version` fails on the table as created. With the column, a statement fails exactly on its own error. |
| Decorators.LookupRole | adventure_store/decorators.py:22-29 | The role lookup fails exactly on a database error, finds no user exactly when the id is absent, and otherwise returns that user's role. |
| Decorators.LoginRequired | adventure_store/decorators.py:6-14 | Access is granted exactly when the session has a user id. Otherwise the redirect goes to login, carrying the URL as `next`. |
| Decorators.CheckRole | adventure_store/decorators.py:16-36 | No session user goes to login. Access is granted exactly when the lookup succeeds, the user exists and the role is required. Every other case goes to the index. |
| Decorators.AdminRequired | adventure_store/decorators.py:38-46 | Access is granted exactly to an existing user whose role is 'admin'. |
| Decorators.ModeratorRequired | adventure_store/decorators.py:48-56 | Access is granted exactly to an existing admin or moderator. |
| Decorators.AdminPassesModeratorGate | adventure_store/decorators.py:38-56 | Whoever passes the admin gate passes the moderator gate. Both gates send a logged-out visitor to the same place. |
| Decorators.BadgeOnlyForModerators | adventure_store/utils.py:40-50 | A non-zero pending badge is shown only to users the moderator gate admits. |
| Decorators.Decorated | adventure_store/decorators.py:40-45 | The view runs, on its original arguments, exactly when the gate grants access. Otherwise the gate's redirect is returned. |
| Versions.ParseVersion | adventure_store/api.py:186-187 | A version is accepted exactly when its text, stripped and without one leading 'v' or 'V', is one or more non-empty digit runs joined by '.'. Its components are the values of those runs, so there is at least one. |
| Versions.Compare | adventure_store/api.py:188 | The comparison is -1, 0 or 1. |
| Versions.CompareZeroIff | adventure_store/api.py:188 | Two releases are equal exactly when they agree on every zero-padded component. |
| Versions.CompareLessIff | adventure_store/api.py:188 | Older-than is lexicographic order on the zero-padded components. |
| Versions.CompareAntisymmetric | adventure_store/api.py:188 | Swapping the arguments negates the verdict. |
| Versions.CompareTransitive | adventure_store/api.py:188 | Newer-than is transitive. |
| Versions.ZeroPaddingEqual | adventure_store/api.py:188 | Trailing zero components do not change a version. |
| Versions.CheckHigher | adventure_store/api.py:185-196 | The result is unparseable exactly when either version is invalid or the stored one is NULL. It is higher exactly when the submitted release compares greater. |
| Versions.SameVersionNotHigher | adventure_store/api.py:188-191 | Resubmitting the live version is refused. |
| Versions.ParseDotted | adventure_store/api.py:186-187 | A dot-joined list of digit runs parses to their values. |
| Versions.CheckHigherExamples | adventure_store/api.py:185-196 | "2.0.0" beats "1.9.9", "1.0.0" does not beat "1.0", and "abc" is unparseable. |
| Archives.FieldOf | adventure_store/api.py:147-154 | `dict.get` on a descriptor object: missing exactly when the key is absent, and text exactly when the value is a JSON string. Any other value keeps its Python truth value (an empty object is false). |
| Archives.GameInfo | adventure_store/api.py:147 | `game_data.get('game_info', {})` is usable exactly when the document and its `game_info` are objects. |
| Archives.VersionCompat | adventure_store/user.py:103-112 | The web upload's `version_compat` is never missing. Anything but "Unknown" is the descriptor's own `version`. |
| Archives.VersionCompatOfPackage | adventure_store/user.py:107-110 | A string `version` yields that string, and an absent one yields "Unknown". |
| Archives.VersionCompatFallbacks | adventure_store/user.py:104-112 | A corrupt archive, a missing or undecodable descriptor, or a non-object descriptor all yield "Unknown". |
| Archives.ReadDescriptor | adventure_store/api.py:136-169 | Refusals: a bad archive or bad JSON, or a missing descriptor. 'Name not found' is given exactly when the name is falsy, whatever the other fields hold. On success the name is non-empty, and the description is the form's when one was given. |
| Archives.ReadPackage | adventure_store/api.py:136-163 | With string fields, the name is required and the versions default to "1.0.0" and "Unknown". The description is taken from the form, else the descriptor, else "No description provided.". |
| Archives.ReadDescriptorShapes | adventure_store/api.py:146-163 | Without `game_info` the name is missing. A non-object document or `game_info` fails. |
| Archives.FalsyFields | adventure_store/api.py:152-163 | A falsy name (empty, false, null, `{}`) is 'name not found', and a falsy descriptor description falls back to the default. |
| Submission.StaffIds | adventure_store/api.py:211 | The ids returned are exactly those of users whose role is admin or moderator. |
| Submission.StaffNotices | adventure_store/api.py:212-216 | There is one unread 'moderation' notification per staff id, in order, each pointing at the adventure. |
| Submission.NotifyStaff | adventure_store/api.py:211-216 | The loop appends exactly those notifications, and no other table changes. |
| Submission.LinkTags | adventure_store/api.py:206-208 | The loop succeeds exactly when the tag ids are distinct and not yet linked. It then adds exactly one link per id, and no other table changes. |
| Submission.SubmittedEffect | adventure_store/api.py:199-216 | A submission adds one adventure under a fresh id. Its links are exactly one per tag id, each staff member gets one notification about it, and every other table is untouched. |
| Submission.SubmittedPreserves | adventure_store/api.py:200-216 | The submission's writes keep every schema invariant. |
| Submission.RecordSubmission | adventure_store/user.py:115-131 | The staged writes succeed exactly when the tag ids are distinct, and then produce `Submitted`. |
| Submission.MarkReadRows | adventure_store/user.py:210 | Only the selected unread rows get `is_read = 1`, and nothing else about them changes. |
| Submission.MarkRead | adventure_store/user.py:210 | The UPDATE keeps `lastId` and the primary keys. |
| Submission.MarkReadEffect | adventure_store/user.py:210 | Afterwards none of the user's notifications is unread, and every other user's notifications are as before. |
| Submission.MarkReadIdempotent | adventure_store/user.py:210 | Marking as read twice is the same as once. |
| Moderate.PendingList | adventure_store/moderate.py:18-23 | The queue is no longer than the adventures table. |
| Moderate.PendingListSound | adventure_store/moderate.py:18-23 | Every queue entry is a pending adventure whose author exists, shown with its name and its author's username. |
| Moderate.PendingListComplete | adventure_store/moderate.py:18-23 | Every pending adventure whose author exists is in the queue. |
| Moderate.PendingListMatchesBadge | adventure_store/moderate.py:18-23 | The queue is never longer than the pending badge count, and equals it when every author exists. |
| Moderate.ModerateList | adventure_store/moderate.py:12-40 | With timestamps read as intended: a SELECT error gives an empty queue, otherwise the queue is the pending list. An UPDATE or COMMIT error still shows it. Only without an error are the viewer's 'moderation' notifications marked read. |
| Utils.FetchedCells | adventure_store/moderate.py:25-27 | One fetched timestamp per fetched row, in row order. The queue's `creation_date` values and the notifications' `created_at` values (`adventure_store/user.py:204-207`) are both read this way. |
| Moderate.ModerateListAsWritten | adventure_store/moderate.py:12-40 | As written: a failing SELECT (its own error or a missing column) shows an empty queue. Otherwise the request crashes exactly when some listed `creation_date` arrives as a `datetime`, and a crash changes nothing. |
| Moderate.QueueAsCreated | adventure_store/moderate.py:18-22 | On the table as created the queue is always empty and nothing is marked read. |
| Moderate.QueueCrashAsWritten | adventure_store/moderate.py:25-27 | With `game_version` and PARSE_DECLTYPES values, a non-empty queue ends in a 500 before the UPDATE and changes nothing. |
| Moderate.LinksWithout | adventure_store/moderate.py:66 | Exactly the links of other adventures remain. |
| Moderate.RatingsWithout | adventure_store/moderate.py:67 | Exactly the ratings of other adventures remain. |
| Moderate.ReviewsWithout | adventure_store/moderate.py:68 | Exactly the reviews of other adventures remain. |
| Moderate.ApproveEffect | adventure_store/moderate.py:57-62 | Approval changes only that adventure's `approved` to 1, and appends one 'approval' notification to its author with related id equal to the adventure. The pending count drops by one. |
| Moderate.RejectRemovesReferences | adventure_store/moderate.py:64-70 | After a rejection no tag link, rating, review or adventure row carries the id, and every other row is kept. |
| Moderate.RejectNotifies | adventure_store/moderate.py:72-76 | A rejection appends one 'rejection' notification to the author with no related id. The pending count drops by one. |
| Moderate.ApprovePreserves | adventure_store/moderate.py:58-62 | Approval keeps every schema invariant. |
| Moderate.RejectPreserves | adventure_store/moderate.py:66-76 | Rejection keeps every schema invariant. |
| Moderate.ModerateAdventure | adventure_store/moderate.py:42-101 | An unknown action, or an adventure that is not pending, changes nothing. A failing lookup gives a database error. Approve yields `Approve` and reject yields `Reject`. Any database error rolls everything back. Without an error a pending adventure is always moderated. A file that cannot be removed only sets a warning. |
| Moderate.FailAtOn | adventure_store/moderate.py:52 | The lookup fails first exactly when it fails on its own or names a missing column; otherwise the failing statement is unchanged. |
| Moderate.ModerationAsCreated | init_db.py:31-45 | On the table as created the lookup always fails, so no adventure can be approved or rejected. With `game_version` statements fail only on their own errors. |
| Moderate.RunApprove | adventure_store/moderate.py:57-63 | It publishes exactly when none of its three statements fails, and otherwise restores the old state. |
| Moderate.DeleteReferences | adventure_store/moderate.py:65-70 | The four DELETEs run in order. Success means all four took effect. |
| Moderate.RunReject | adventure_store/moderate.py:64-89 | It deletes exactly when none of its six statements fails, and otherwise restores the old state. The warning is raised exactly for a stored file that cannot be removed. |
| UserRoutes.RateUpsert | adventure_store/user.py:31-35 | Afterwards exactly one row holds (adventure, user), with the new value. The rating bounds and uniqueness still hold, and the table grows only when the pair was new. |
| UserRoutes.RateKeepsOthers | adventure_store/user.py:31-35 | Every row for another (adventure, user) pair is kept, and no new row for another pair appears. |
| UserRoutes.RateAdventure | adventure_store/user.py:16-42 | An invalid rating or an unapproved adventure changes nothing. Otherwise only `ratings` changes, by the upsert, and a database error changes nothing. |
| UserRoutes.AddReview | adventure_store/user.py:45-67 | An empty review or an unapproved adventure changes nothing. An accepted review appends one row and never replaces one. |
| UserRoutes.UploadedRow | adventure_store/user.py:115-118 | The uploaded row is pending, has no downloads and no game version. |
| UserRoutes.UploadAdventure | adventure_store/user.py:70-151 | Missing fields or a non-`.zip` name change nothing. On success there is one pending adventure, its tag links and staff notifications, and the 'uploads' counter. A repeated tag discards everything. |
| UserRoutes.NotificationsOf | adventure_store/user.py:197-202 | The list holds exactly the user's notifications. |
| UserRoutes.ViewNotifications | adventure_store/user.py:191-217 | With timestamps read as intended: the list is read before the update. A SELECT error gives an empty list; an UPDATE or COMMIT error still shows it. Only without an error are the user's unread notifications marked read. |
| UserRoutes.ViewNotificationsAsWritten | adventure_store/user.py:191-217 | As written: a SELECT error shows an empty list. Otherwise the request crashes exactly when some listed `created_at` arrives as a `datetime`, and a crash changes nothing. |
| UserRoutes.NotificationsCrashAsWritten | adventure_store/user.py:204-207 | With PARSE_DECLTYPES values, a user with any notification gets a 500 and nothing is marked read. |
| Api.Status | adventure_store/api.py:31-244 | 401 exactly for a missing key; 403 exactly for a bad key or another author's name. 500 for database errors and uncaught exceptions, 400 otherwise. |
| Api.Authenticate | adventure_store/api.py:31-57 | No key gives 401 and a database error gives 500. Success means the key exists and is active; with unique keys that holds exactly when the request is authenticated. |
| Api.ParseSegments | adventure_store/api.py:99 | Parsing fails exactly when some non-blank piece is not an integer. The result is empty exactly when every piece is blank. It is never longer than the list of pieces. |
| Api.TagIdsOf | adventure_store/api.py:99-103 | The `tags` string is refused with `InvalidTags` exactly when a non-blank piece is not an integer, or when no piece is non-blank. A success is the non-empty list of parsed pieces. |
| Api.ParseTagIdsAsWritten | adventure_store/api.py:97-103 | As written: a missing `tags` field is `TagsFieldMissing`, which is a 500. |
| Api.ParseTagIds | adventure_store/api.py:97-103 | As intended: every refusal is a 400, and a success is a non-empty list from a present field. |
| Api.MissingTagsFinding | adventure_store/api.py:97-103 | The two differ only on the missing field: 500 as written, 400 as intended. |
| Api.TagIdsRoundTrip | adventure_store/api.py:99 | `','.join(map(str, ids))` parses back to exactly `ids`. |
| Api.BlankPieceIgnored | adventure_store/api.py:99 | Blank pieces are skipped. |
| Api.CountTagsIn | adventure_store/api.py:110 | The count never exceeds the number of tag rows. |
| Api.TagCheckIff | adventure_store/api.py:108-113 | The count check passes exactly when the ids are distinct and every id names an existing tag. |
| Api.FirstClaim | adventure_store/api.py:172-175 | The row found is the first, in rowid order, whose name matches ignoring ASCII case and whose state is one of those asked for. -1 means none matches. |
| Api.Ownership | adventure_store/api.py:171-196 | With no approved row of that name the check passes. The 403 is given exactly when the first approved row of the name (the one `fetchone` returns) belongs to another author. For the owner, 'not higher' and 'invalid version' each answer exactly their `CheckHigher` verdict, and a pass means a parseable, strictly higher version. |
| Api.ResubmissionRefused | adventure_store/api.py:185-191 | The owner resubmitting the live version is refused. |
| Api.Front | adventure_store/api.py:68-118 | Each early refusal has exactly its condition: missing file, empty name, not `.zip`, unreadable size setting, over the ceiling. A size equal to the ceiling passes. Past those, a tag list that does not parse gives its own error, a count fault gives the 500, and unknown ids are refused exactly when the count falls short. Success means the tag ids parsed and all exist. |
| Api.Validate | adventure_store/api.py:68-196 | The checks apply in source order. An earlier refusal is passed on unchanged, a descriptor failure becomes its mapped error, a lookup fault gives 'Database error', and an ownership refusal is returned as it is. With those passed it accepts exactly when ownership passes, and the accepted row is the pending, undownloaded adventure built from the descriptor. |
| Api.AcceptedSubmission | adventure_store/api.py:77-203 | An accepted submission is a `.zip` within `max_upload_size` × 1024 × 1024 bytes. It has distinct, existing tag ids, a non-empty name, `approved = 0` and no downloads. |
| Api.CheckSubmission | adventure_store/api.py:82-196 | The reads of the pipeline compute `Decide` on the current database, and an accepted row is pending with distinct tags. |
| Api.SettingFromMap | adventure_store/api.py:82-83 | The settings dictionary answers `max_upload_size` as the table does. |
| Api.Persist | adventure_store/api.py:199-235 | A write error changes nothing and gives 500. Otherwise the staged writes are committed, the new id is returned, and 'uploads' is counted. |
| Api.SubmitAdventure | adventure_store/api.py:61-244 | A refused request changes nothing. An accepted one yields `Created(next id)` with exactly the `Submitted` writes and the upload statistic. |
| Api.FaultsOn | adventure_store/api.py:172-175 | On a table without one of the columns they name, the ownership SELECT and the INSERT fail; every other fault is kept. |
| Api.SubmissionAsCreated | init_db.py:31-45 | On the table as created no submission is accepted: each one the intended schema accepts gets 'Database error' instead. With `game_version` nothing changes. |
| Api.TitleAvailability | adventure_store/api.py:272-317 | The result is "Available" exactly when no pending or approved adventure has the title, ignoring ASCII case. The first pending or approved row with the title decides the rest. "In use by another author" is given exactly when that row is approved and by another author. "In use or pending" is given exactly when it is pending or the querier's own. |
| Api.AvailableTitleHasNoOwner | adventure_store/api.py:291-308 | A title reported available passes the ownership rule for any submitter and version. |
| Browse.OrderClause | adventure_store/main.py:109-115 | The known sort keys map to their ORDER BY clause, and every other key gets `creation_date DESC`. |
| Browse.WhereClauses | adventure_store/main.py:93-103 | `a.approved = 1` always comes first. A tag filter and a search add one clause each. |
| Browse.ListingParams | adventure_store/main.py:96-103 | The tag id comes first when filtering. A search adds `%search%` twice, last. |
| Browse.WhereMarks | adventure_store/main.py:94-103 | The WHERE clauses hold as many placeholders as there are parameters. |
| Browse.ListingPlaceholders | adventure_store/main.py:85-115 | The whole statement has exactly `len(params)` placeholders. |
| Browse.ListingOnlyApproved | adventure_store/main.py:94-105 | Whatever the arguments, the WHERE part opens with `a.approved = 1`. |
| Browse.BuildListingQuery | adventure_store/main.py:85-115 | The appended query and parameters are the listing statement and its parameters, with placeholders matching parameters. |
| Browse.TagsOf | adventure_store/main.py:161 | A tag id is shown exactly when the adventure links to it and the `tags` table has that id. A link to a missing tag is not shown. |
| Browse.RatingBy | adventure_store/main.py:168-171 | There is a rating exactly when the signed-in user rated the adventure, and it is that row's value. |
| Browse.AdventureDetail | adventure_store/main.py:133-179 | With timestamps read as intended: the view is counted first. The page is shown exactly for an approved adventure whose author's row exists, without a database error. It carries the adventure's tags that exist and the user's rating. |
| Browse.ReviewCells | adventure_store/main.py:162-166 | There is at most one fetched `created_at` per review row. Each belongs to a review of this adventure whose writer's row exists. |
| Browse.DetailCells | adventure_store/main.py:158-166 | The adventure's `creation_date` is parsed first, then the reviews'. |
| Browse.AdventureDetailAsWritten | adventure_store/main.py:133-179 | As written: the view is always counted. A failing SELECT (its own error or a missing column) redirects. An adventure that is unapproved, or whose author's row is missing, is not listed. Otherwise the request crashes exactly when one of its timestamps arrives as a `datetime`. |
| Browse.DetailAsCreated | adventure_store/main.py:143-153 | On the table as created every detail request is a database error. |
| Browse.DetailCrashAsWritten | adventure_store/main.py:158-159 | With `game_version` and PARSE_DECLTYPES values, every listed adventure's page (approved, with its author's row) ends in a 500. |
| Browse.Basename | adventure_store/main.py:209 | `os.path.basename` contains no '/', is a suffix of the path, and follows its last '/'. |
| Browse.Parent | adventure_store/main.py:211 | The parent of a path is no longer than the path, or is the root. |
| Browse.PathGuardRefusesOnlyParent | adventure_store/main.py:208-213 | After `basename`, the traversal guard refuses exactly the name "..". |
| Browse.Bumped | adventure_store/main.py:195 | Bumping the counter keeps the adventures invariant. |
| Browse.BumpedEffect | adventure_store/main.py:195 | A download adds exactly one to that adventure's counter and changes nothing else in the table. |
| Browse.DownloadAdventure | adventure_store/main.py:182-224 | Only an approved adventure is counted, and a database error changes nothing. The counter and statistic are committed before the path checks. The file served is the path's basename, under the name `<name>.zip`. |
| Admin.CheckNewUser | adventure_store/admin.py:44-52 | The form is refused in source order (a missing field, mismatched passwords, an unknown role). It passes exactly when all five fields are filled, the passwords match and the role is known. |
| Admin.AdminAddUser | adventure_store/admin.py:35-70 | A refused form or a taken username or email changes nothing. Otherwise exactly one user with the given role is inserted and 'registrations' is counted. |
| Admin.WithRole | adventure_store/admin.py:94 | A role update keeps usernames and emails unique. |
| Admin.WithRoleEffect | adventure_store/admin.py:94 | It changes one user's role and nothing else. |
| Admin.AdminUpdateUser | adventure_store/admin.py:72-101 | A bad role, an unknown id or the last-admin guard changes nothing. A permitted update changes only that user's role. |
| Admin.AdminNameKeepsAnAdmin | adventure_store/admin.py:87-92 | A permitted change to the account named 'admin' never leaves the store without an admin. |
| Admin.LastAdminByOtherName | adventure_store/admin.py:87-92 | The guard checks the username only: a sole admin named otherwise can be demoted, leaving no admin. |
| Admin.TrendFromZero | adventure_store/admin.py:155-156 | From a zero base, the trend is 100 exactly when today's value is positive, and 0 otherwise. |
| Admin.TrendAfterFirstLog | adventure_store/admin.py:145-156 | From a zero base, one positive `log_statistic` shows as a 100 trend. |
| Auth.CheckRegistration | adventure_store/auth.py:14-24 | A missing form key is a 400. The form passes exactly when username, email and password are non-empty and the confirmation matches. |
| Auth.Register | adventure_store/auth.py:11-57 | A taken username or email changes nothing. Success inserts one user with role 'user', counts 'registrations', and puts the new id in the session. Every failure leaves the database and session unchanged. |
| Auth.NextTargetAsWritten | adventure_store/auth.py:91-95 | As written: any non-empty `next` starting with '/' is followed. |
| Auth.OpenRedirectAsWritten | adventure_store/auth.py:91-94 | As written, `//evil.example` is followed although it names another host. |
| Auth.NextTarget | adventure_store/auth.py:91-95 | As intended: only a path on this site is followed, and everything else goes to the index. |
| Auth.NextTargetRefinesAsWritten | adventure_store/auth.py:91-95 | The two differ exactly on off-site targets. |
| Auth.MatchLogin | adventure_store/auth.py:72-76 | The row found matches both email and password hash. -1 means no row does. |
| Auth.MatchLoginUnique | adventure_store/auth.py:72-76 | With unique emails, the matched account is the only one holding that email. |
| Auth.Stamped | adventure_store/auth.py:79-82 | The UPDATE sets `last_login` on the one row found and keeps its id and other columns. Every other row is unchanged, and unique usernames and emails still hold. |
| Auth.Login | adventure_store/auth.py:60-105 | Login succeeds exactly when both email and hash match. Success stamps only that user's `last_login`, counts 'logins' and fills the session. Every failure leaves the database and session unchanged. |

## Left out

- Connections, the app factory and blueprints (`adventure_store/db.py`, `adventure_store/__init__.py`, `run.py`) are not modelled. Neither is the legacy `app.py`, which the entry point does not run, nor the browser script `static/js/main.js`.
- Templates, flash messages, application logging and the index page's display queries are not modelled. The same goes for `my_adventures`, `admin_users`, the `/api/tags` listing and `logout`. They only read and display.
- The `api_logs` writes of `log_api_request` are best-effort logging. Their failure never changes a verdict, so they are not modelled.
- `admin_settings` is left out. It only updates the theme value, with a two-value check.
- The dashboard's floating-point trend (`round(change)` for a non-zero base), its totals and its chart series are left out. Only the integer branch is modelled.
- Concurrency and SQLite isolation are not modelled: each request is one atomic step.
- File I/O is not modelled: `file.save`, `os.remove`, `os.path.getsize`, `send_from_directory`. Their results are parameters (`fileSize`, `FileState`, `fileMissing`).
- ZIP and JSON decoding are not modelled byte by byte. An archive is an entry map, and a JSON value is a string, an object or "other" with its Python truth value.
- SHA-256 hashing is the parameter `hash`.
- The saved file's name (`secure_filename` of username and timestamp) is a parameter `filePath`. The lookup of the username for it is left out.
- Ordering by `created_at` / `creation_date` is not modelled. The model returns rows in rowid order, which is insertion order.
- The listing's execution is not modelled, including its LIKE matching, the AVG rating and the GROUP BY. Only the statement and its parameters are built.
- SQL text is a sequence of literal text pieces and `?` placeholders (`Browse.Piece`). It is not a character string.
- Web-form tag values are not parsed: `upload_adventure` binds them as text, and the model takes them as integers already.
- Browse.AdventureDetail: does not return the reviews list or the average rating, which only feed the template.
- Strings.ParseInt: Python's `int()` also accepts underscores between digits and non-ASCII digits. These are not modelled.
- Archives.IsZipName: uses ASCII lower-casing, while Python's `str.lower()` folds all of Unicode. The `.zip` suffix test differs only for names whose non-ASCII letters lower-case to ASCII.
- Archives.ReadDescriptor: a truthy name or description that is not a JSON string is modelled as a 500. So is a non-string, non-null version or builder version, including 0 and false. When no approved row has the title, the code stores a number or boolean, since SQLite binds it (a boolean as 1 or 0). When the title has a live owner, `parse_version` raises TypeError on a number or boolean version (`adventure_store/api.py:186-187`), and the `except Exception` at `adventure_store/api.py:192` answers 400 'Invalid version format'. An array or object fails to bind, which is a 500 as modelled. A null version or builder version is also a 500 here. The code stores a null version, or refuses it as an invalid version when the title has a live owner. It refuses a null builder version through the NOT NULL `version_compat` column.
- UserRoutes.UploadAdventure: a descriptor `version` that is a JSON number or boolean is modelled as a failed upload, while SQLite would store it (a boolean as 1 or 0). Null fails through the NOT NULL `version_compat` column (`init_db.py:40`), and arrays and objects fail to bind, as modelled.
- Utils.ParseDatetime: models `parse_datetime` on text only, and reads only the zero-padded form `str(datetime)` writes, while `strptime` also accepts unpadded fields. On the application's connections timestamps arrive as `datetime` values, which `Utils.ParseDatetimeAsWritten` covers (see "Findings").
- Versions.ParseVersion: reads only the release segment (dot-separated digits) of PEP 440. Pre-, post- and dev-releases, epochs and local labels (`1.0rc1`, `1.0.post1`, `1!2.0`, `1.0+x`) are parsed and ordered by `packaging.version.parse`, but here they are invalid versions. An owner who submits "2.0rc1" over a live "1.0.0" is accepted by the code and refused with 'invalid version' by the model.
- Api.Front: ids are unbounded integers. A Python int outside SQLite's signed 64-bit INTEGER range raises OverflowError when it is bound as a parameter. That is not a `sqlite3.Error`, so the request ends in an uncaught 500. This applies to a tag id bound by the count check (`adventure_store/api.py:110`, caught only for `sqlite3.Error` at `adventure_store/api.py:115`), and it ends without an `api_logs` row. It also applies to the `<int:...>` ids of `adventure_detail` (`adventure_store/main.py:133-173`), `download_adventure` (`adventure_store/main.py:182-199`), `rate_adventure` (`adventure_store/user.py:16-38`), `add_review` (`adventure_store/user.py:45-63`) and `update_user` (`adventure_store/admin.py:72-97`). The model answers an unknown tag (400) for such a tag id. For such a route id it treats the row as absent: a redirect with nothing changed. `moderate_adventure` (`adventure_store/moderate.py:42-97`) catches every Exception at `adventure_store/moderate.py:95`. There such an id gives the flash 'An unexpected error occurred during moderation.', and the model answers `NotFoundOrModerated` instead. Neither changes the state.
- Strings.Strip: `IsSpace` and `Strip` know only the ASCII whitespace, which includes the separators 0x1C-0x1F. Python's `str.strip()`, `int()` and the `\s` of `packaging` also treat non-ASCII whitespace (0x85, 0xA0 and the Unicode spaces) as space. Text carrying those at either end is refused here where the code accepts it.
- The `index` and `adventures` pages also name `game_version` and pass `creation_date` to `parse_datetime` (`adventure_store/main.py:24-53`, `:85-125`). Their execution is not modelled, so neither effect appears for them.
- Auth.Login: follows `next` through the corrected `Auth.NextTarget`, not the written check (see Findings).
- Api.Front: a missing `tags` field is refused with 400 through the corrected `Api.ParseTagIds`, not with the written 500 (see Findings).

## Findings

| source | as written | input that shows it | evidently intended | confidence | as-written member | corrected member |
|---|---|---|---|---|---|---|
| adventure_store/api.py:97-103 | `tags_str.split(',')` on a missing field raises AttributeError, which `except (ValueError, TypeError)` does not catch, so the request ends in a 500 | a submission without a `tags` form field | a 400 "Invalid or missing 'tags'", as the handler's comment says | not executed | Api.ParseTagIdsAsWritten (with Api.MissingTagsFinding) | Api.ParseTagIds |
| adventure_store/auth.py:91-95 | `next_page.startswith('/')` accepts `//evil.example`, which browsers read as another host, so login redirects off-site | `POST /login?next=//evil.example` with valid credentials | follow only paths on this site | not executed | Auth.NextTargetAsWritten (with Auth.OpenRedirectAsWritten) | Auth.NextTarget (with Auth.NextTargetRefinesAsWritten) |
| init_db.py:31-45 | `adventures` is created without a `game_version` column, yet the API's ownership SELECT and INSERT (`adventure_store/api.py:172-175`, `:201`), the moderation queue and lookup (`adventure_store/moderate.py:18-22`, `:52`) and the detail SELECT (`adventure_store/main.py:143-153`) name it. SQLite raises OperationalError ("no such column"), which each route handles as a database error | an API submission that passes the upload checks gets the 500 'Database error'; `/moderate/` always shows an empty queue; approve and reject always report a database error; every detail page redirects | the table has a `game_version` column | not executed | Api.SubmissionAsCreated (with Moderate.QueueAsCreated, Moderate.ModerationAsCreated, Browse.DetailAsCreated) | Schema.GameVersionStatements (with Api.SubmitAdventure, Moderate.ModerateAdventure) |
| adventure_store/utils.py:11-24 | the connection uses PARSE_DECLTYPES (`adventure_store/db.py:16-19`), so a TIMESTAMP value arrives as a `datetime`. `strptime` raises TypeError on it, the first handler catches only ValueError, and the routes catch only `sqlite3.Error`, so the request ends in a 500 | `/notifications` for a user with one notification; `/moderate/` with one pending adventure (once the table has `game_version`); the page of any approved adventure, after its view is counted | keep a value that already is a `datetime`, and show the page | not executed | Utils.ParseDatetimeAsWritten (with UserRoutes.NotificationsCrashAsWritten, Moderate.QueueCrashAsWritten, Browse.DetailCrashAsWritten) | Utils.ParseCell (with Utils.ParseCellRefinesAsWritten, UserRoutes.ViewNotifications, Moderate.ModerateList, Browse.AdventureDetail) |
