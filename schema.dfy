/**
 * The store's SQLite database: one record type per table, the constraints the
 * schema declares (PRIMARY KEY, UNIQUE, CHECK, DEFAULT) as an invariant, and the
 * `INSERT OR IGNORE` seeding that installs the admin account, the theme setting and
 * the default tags.
 */
module Schema {
  import opened Wrappers
  import opened Tables

  /** `users`: username and email are each UNIQUE; `password` holds the hash. */
  datatype User = User(username: string, email: string, password: string, role: string,
                       lastLogin: Option<string>)

  /** `adventures`, with the `game_version` column (`gameVersion`) that the API writes
      and the queue, moderation and detail queries read. `init_db.py` does not create
      that column: see `CreatedAdventureColumns`. */
  datatype Adventure = Adventure(name: string, description: string, authorId: int,
                                 filePath: string, fileSize: int, versionCompat: string,
                                 gameVersion: Option<string>, approved: int, downloads: int)

  /** The columns `init_db.py` creates for `adventures`. */
  const CreatedAdventureColumns: set<string> := {"id", "name", "description", "author_id", "creation_date",
    "file_path", "file_size", "version_compat", "approved", "downloads"}

  /** The columns the application's statements name: the created ones and `game_version`. */
  const AdventureColumns: set<string> := CreatedAdventureColumns + {"game_version"}

  /** A statement naming the columns `named` of a table that has `columns` raises
      sqlite3.OperationalError ("no such column") when one of them is missing; `fault`
      is any other error SQLite raises for it. */
  predicate Raises(named: set<string>, columns: set<string>, fault: bool)
  {
    fault || !(named <= columns)
  }

  /** Every statement that names `game_version` raises on the table as created, and a
      statement naming only the intended columns raises there exactly on its own
      fault. */
  lemma GameVersionStatements(named: set<string>, fault: bool)
    ensures "game_version" in named ==> Raises(named, CreatedAdventureColumns, fault)
    ensures named <= AdventureColumns ==> (Raises(named, AdventureColumns, fault) <==> fault)
  {
    assert "game_version" !in CreatedAdventureColumns;
  }

  datatype Tag = Tag(name: string)

  /** A row of `adventure_tags`, whose PRIMARY KEY is the whole row. */
  datatype TagLink = TagLink(adventureId: int, tagId: int)

  datatype Rating = Rating(adventureId: int, userId: int, rating: int, createdAt: string)

  datatype Review = Review(adventureId: int, userId: int, content: string)

  /** `notifications.type` */
  datatype NoticeKind = Moderation | Approval | Rejection

  datatype Notification = Notification(userId: int, content: string, kind: NoticeKind,
                                       relatedId: Option<int>, isRead: bool)

  datatype Setting = Setting(name: string, value: string)

  /** `statistics`; `stamp` is the timestamp stored in the `date` column. */
  datatype Statistic = Statistic(name: string, value: int, stamp: string)

  datatype ApiKey = ApiKey(key: string, name: string, userId: int, isActive: bool)

  /** `approved` values the code writes: 0 pending, 1 approved. */
  const Pending := 0
  const Approved := 1

  // The UNIQUE columns, as key functions.
  function UserName(u: User): string { u.username }
  function UserEmail(u: User): string { u.email }
  function TagName(t: Tag): string { t.name }
  function RatingKey(r: Rating): (int, int) { (r.adventureId, r.userId) }
  function SettingName(s: Setting): string { s.name }
  function KeyText(k: ApiKey): string { k.key }

  /** The contents of every table at one moment. */
  datatype Store = Store(users: Table<User>, adventures: Table<Adventure>, tags: Table<Tag>,
                         adventureTags: set<TagLink>, ratings: Table<Rating>,
                         reviews: Table<Review>, notifications: Table<Notification>,
                         settings: Table<Setting>, statistics: Table<Statistic>,
                         apiKeys: Table<ApiKey>)

  ghost predicate UsersOk(t: Table<User>)
  {
    WellKeyed(t) && UniqueBy(t.rows, UserName) && UniqueBy(t.rows, UserEmail)
  }

  /** Beyond the schema: every write the code makes keeps `approved` at 0 or 1 and the
      download counter non-negative. */
  ghost predicate AdventuresOk(t: Table<Adventure>)
  {
    && WellKeyed(t)
    && forall i :: 0 <= i < |t.rows| ==>
         (t.rows[i].val.approved == Pending || t.rows[i].val.approved == Approved) &&
         t.rows[i].val.downloads >= 0
  }

  ghost predicate TagsOk(t: Table<Tag>)
  {
    WellKeyed(t) && UniqueBy(t.rows, TagName)
  }

  /** `CHECK (rating BETWEEN 1 AND 5)` and `UNIQUE(adventure_id, user_id)`. */
  ghost predicate RatingsOk(t: Table<Rating>)
  {
    && WellKeyed(t) && UniqueBy(t.rows, RatingKey)
    && forall i :: 0 <= i < |t.rows| ==> 1 <= t.rows[i].val.rating <= 5
  }

  ghost predicate SettingsOk(t: Table<Setting>)
  {
    WellKeyed(t) && UniqueBy(t.rows, SettingName)
  }

  ghost predicate ApiKeysOk(t: Table<ApiKey>)
  {
    WellKeyed(t) && UniqueBy(t.rows, KeyText)
  }

  /** Links only name adventure ids that have been handed out, so a freshly inserted
      adventure has no links yet. */
  ghost predicate LinksOk(links: set<TagLink>, adventures: Table<Adventure>)
  {
    forall l :: l in links ==> l.adventureId <= adventures.lastId
  }

  ghost predicate Consistent(s: Store)
  {
    && UsersOk(s.users)
    && LinksOk(s.adventureTags, s.adventures)
    && AdventuresOk(s.adventures)
    && TagsOk(s.tags)
    && RatingsOk(s.ratings)
    && WellKeyed(s.reviews)
    && WellKeyed(s.notifications)
    && SettingsOk(s.settings)
    && WellKeyed(s.statistics)
    && ApiKeysOk(s.apiKeys)
  }

  /** `SELECT id FROM adventures WHERE id = ? AND approved = 1` finds a row. */
  predicate ApprovedAt(s: Store, id: int)
  {
    var k := Find(s.adventures.rows, id);
    k >= 0 && s.adventures.rows[k].val.approved == Approved
  }

  function EmptyStore(): (s: Store)
    ensures Consistent(s)
    ensures s.users.rows == [] && s.adventures.rows == [] && s.adventureTags == {}
  {
    Store(Table([], 0), Table([], 0), Table([], 0), {}, Table([], 0), Table([], 0), Table([], 0),
          Table([], 0), Table([], 0), Table([], 0))
  }

  /** The connection: one field per table. */
  class Database {
    var users: Table<User>
    var adventures: Table<Adventure>
    var tags: Table<Tag>
    var adventureTags: set<TagLink>
    var ratings: Table<Rating>
    var reviews: Table<Review>
    var notifications: Table<Notification>
    var settings: Table<Setting>
    var statistics: Table<Statistic>
    var apiKeys: Table<ApiKey>

    function State(): Store
      reads this
    {
      Store(users, adventures, tags, adventureTags, ratings, reviews, notifications,
            settings, statistics, apiKeys)
    }

    ghost predicate Valid()
      reads this
    {
      Consistent(State())
    }

    /** A new database file after the `CREATE TABLE IF NOT EXISTS` statements. */
    constructor ()
      ensures State() == EmptyStore() && Valid()
    {
      var s := EmptyStore();
      users, adventures, tags, adventureTags := s.users, s.adventures, s.tags, s.adventureTags;
      ratings, reviews, notifications := s.ratings, s.reviews, s.notifications;
      settings, statistics, apiKeys := s.settings, s.statistics, s.apiKeys;
    }

    /** Every table takes its contents from `s`. `conn.rollback()` (or closing the
        connection with the transaction open) loads the state the tables had when the
        transaction began; a route that staged its writes loads the staged tables. */
    method Load(s: Store)
      modifies this
      ensures State() == s
    {
      users, adventures, tags, adventureTags := s.users, s.adventures, s.tags, s.adventureTags;
      ratings, reviews, notifications := s.ratings, s.reviews, s.notifications;
      settings, statistics, apiKeys := s.settings, s.statistics, s.apiKeys;
    }
  }

  const AdminName := "admin"
  const AdminEmail := "admin@textadventurebuilder.com"
  const AdminPassword := "Roll14me!"
  const DefaultTags: seq<string> :=
    ["Fantasy", "Sci-Fi", "Horror", "Mystery", "Comedy", "Adventure", "Historical", "Educational"]

  /** `INSERT OR IGNORE INTO users`: ignored when the username or the email is taken. */
  function InsertUserOrIgnore(t: Table<User>, u: User): (r: Table<User>)
    ensures HasKey(t.rows, UserName, u.username) || HasKey(t.rows, UserEmail, u.email) ==> r == t
    ensures !HasKey(t.rows, UserName, u.username) && !HasKey(t.rows, UserEmail, u.email) ==>
      r == Insert(t, u)
    ensures HasKey(r.rows, UserName, u.username) || HasKey(r.rows, UserEmail, u.email)
    ensures UsersOk(t) ==> UsersOk(r)
  {
    if IndexOf(t.rows, UserName, u.username) >= 0 || IndexOf(t.rows, UserEmail, u.email) >= 0 then t
    else
      var r := Insert(t, u);
      assert UserName(r.rows[|t.rows|].val) == u.username;
      FreshKeyInsert(t, u, UserName);
      FreshKeyInsert(t, u, UserEmail);
      r
  }

  /** `SELECT id FROM users WHERE username = ? OR email = ?` finds a row. */
  predicate UserTaken(t: Table<User>, username: string, email: string)
  {
    IndexOf(t.rows, UserName, username) >= 0 || IndexOf(t.rows, UserEmail, email) >= 0
  }

  /** A user insert that passed the `UserTaken` check keeps both UNIQUE columns unique,
      and afterwards exactly one row holds the new username and one the new email. */
  lemma InsertFreshUser(t: Table<User>, u: User)
    requires UsersOk(t) && !UserTaken(t, u.username, u.email)
    ensures UsersOk(Insert(t, u))
    ensures var r := Insert(t, u).rows;
      forall i :: 0 <= i < |r| ==> (r[i].val.username == u.username || r[i].val.email == u.email) ==> i == |t.rows|
  {
    assert InsertUserOrIgnore(t, u) == Insert(t, u);
  }

  /** What seeding leaves behind: an account holding the admin username or email, a
      theme setting, and every default tag. */
  ghost predicate Seeded(s: Store)
  {
    && (HasKey(s.users.rows, UserName, AdminName) || HasKey(s.users.rows, UserEmail, AdminEmail))
    && HasKey(s.settings.rows, SettingName, "theme")
    && forall n :: n in DefaultTags ==> HasKey(s.tags.rows, TagName, n)
  }

  /** The loop over the default tags: each name is inserted unless a tag of that name
      exists. */
  method InsertTags(t: Table<Tag>, names: seq<string>) returns (r: Table<Tag>)
    requires TagsOk(t)
    ensures TagsOk(r)
    ensures forall n :: n in names ==> HasKey(r.rows, TagName, n)
    ensures forall n :: n !in names ==> (HasKey(r.rows, TagName, n) <==> HasKey(t.rows, TagName, n))
    ensures (forall n :: n in names ==> HasKey(t.rows, TagName, n)) ==> r == t
  {
    r := t;
    for k := 0 to |names|
      invariant TagsOk(r)
      invariant forall n :: n in names[..k] ==> HasKey(r.rows, TagName, n)
      invariant forall n :: n !in names[..k] ==> (HasKey(r.rows, TagName, n) <==> HasKey(t.rows, TagName, n))
      invariant (forall n :: n in names ==> HasKey(t.rows, TagName, n)) ==> r == t
    {
      var next := InsertOrIgnore(r, Tag(names[k]), TagName);
      forall n
        ensures HasKey(r.rows, TagName, n) ==> HasKey(next.rows, TagName, n)
        ensures n != names[k] ==> (HasKey(next.rows, TagName, n) <==> HasKey(r.rows, TagName, n))
      {
        InsertOrIgnoreKeys(r, Tag(names[k]), TagName, n);
      }
      assert names[..k + 1] == names[..k] + [names[k]];
      r := next;
    }
    assert names[..|names|] == names;
  }

  /** The effect of seeding on the store: the admin account and the theme setting
      are inserted unless their keys exist, and tags other than the default ones are
      neither added nor lost. */
  ghost predicate SeedEffect(s: Store, s': Store, adminHash: string)
  {
    && s' == s.(users := s'.users, settings := s'.settings, tags := s'.tags)
    && s'.users == InsertUserOrIgnore(s.users, User(AdminName, AdminEmail, adminHash, "admin", None))
    && s'.settings == InsertOrIgnore(s.settings, Setting("theme", "light"), SettingName)
    && forall n :: n !in DefaultTags ==> (HasKey(s'.tags.rows, TagName, n) <==> HasKey(s.tags.rows, TagName, n))
  }

  /** The seeding part of the initialisation script. `hash` is the password hash
      function. Every insert is ignored on a clash, so a second run changes nothing. */
  method Seed(db: Database, hash: string -> string)
    requires db.Valid()
    modifies db
    ensures db.Valid() && Seeded(db.State())
    ensures old(Seeded(db.State())) ==> db.State() == old(db.State())
    ensures SeedEffect(old(db.State()), db.State(), hash(AdminPassword))
  {
    var users := InsertUserOrIgnore(db.users, User(AdminName, AdminEmail, hash(AdminPassword), "admin", None));
    var settings := InsertOrIgnore(db.settings, Setting("theme", "light"), SettingName);
    var tags := InsertTags(db.tags, DefaultTags);
    var s := db.State();
    SeedStore(s, users, settings, tags, hash(AdminPassword));
    db.Load(s.(users := users, settings := settings, tags := tags));
  }

  /** The three seeded tables put back into the store keep it consistent and seeded,
      and change nothing when it was seeded already. */
  lemma SeedStore(s: Store, users: Table<User>, settings: Table<Setting>, tags: Table<Tag>, adminHash: string)
    requires Consistent(s)
    requires users == InsertUserOrIgnore(s.users, User(AdminName, AdminEmail, adminHash, "admin", None))
    requires settings == InsertOrIgnore(s.settings, Setting("theme", "light"), SettingName)
    requires TagsOk(tags) && forall n :: n in DefaultTags ==> HasKey(tags.rows, TagName, n)
    requires forall n :: n !in DefaultTags ==> (HasKey(tags.rows, TagName, n) <==> HasKey(s.tags.rows, TagName, n))
    requires (forall n :: n in DefaultTags ==> HasKey(s.tags.rows, TagName, n)) ==> tags == s.tags
    ensures var s' := s.(users := users, settings := settings, tags := tags);
      && Consistent(s') && Seeded(s') && (Seeded(s) ==> s' == s)
      && SeedEffect(s, s', adminHash)
  {
  }
}
