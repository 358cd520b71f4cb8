/**
 * The admin panel's account management: adding a user with a chosen role, changing a
 * user's role (with the guard that keeps the account named 'admin' from losing the
 * last admin role), and the day-over-day trend of the dashboard counters.
 */
module Admin {
  import opened Wrappers
  import opened Strings
  import opened Tables
  import opened Schema
  import opened Utils

  /** The roles an account may hold. */
  const Roles: seq<string> := ["user", "moderator", "admin"]

  predicate IsAdmin(u: User)
  {
    u.role == "admin"
  }

  // ---------------------------------------------------------------- admin_add_user

  datatype NewUserForm = NewUserForm(username: Option<string>, email: Option<string>, password: Option<string>,
                                     confirm: Option<string>, role: Option<string>)

  datatype AddOutcome = MissingField | PasswordMismatch | InvalidRole | AlreadyTaken | UserAdded(userId: int)
                      | AddDatabaseError

  /** The form checks, in order: every field non-empty, the two passwords equal, and a
      known role. */
  function CheckNewUser(form: NewUserForm): (r: Option<AddOutcome>)
    ensures r == Some(MissingField) <==>
      !(Present(form.username) && Present(form.email) && Present(form.password) &&
        Present(form.confirm) && Present(form.role))
    ensures r == Some(PasswordMismatch) <==>
      Present(form.username) && Present(form.email) && Present(form.password) && Present(form.confirm) &&
      Present(form.role) && form.password != form.confirm
    ensures r.None? <==>
      Present(form.username) && Present(form.email) && Present(form.password) &&
      form.password == form.confirm && Present(form.role) && form.role.value in Roles
    ensures r.Some? ==> r.value in {MissingField, PasswordMismatch, InvalidRole}
  {
    if !(Present(form.username) && Present(form.email) && Present(form.password) &&
         Present(form.confirm) && Present(form.role)) then Some(MissingField)
    else if form.password != form.confirm then Some(PasswordMismatch)
    else if form.role.value !in Roles then Some(InvalidRole)
    else None
  }

  /** `admin_add_user`: `hash` is the password hash; `fault` is a database error in the
      lookup, the INSERT or the COMMIT, `statFault` one inside `log_statistic`. */
  method AdminAddUser(db: Database, form: NewUserForm, hash: string -> string, clock: Clock,
                      fault: bool, statFault: bool) returns (outcome: AddOutcome)
    requires db.Valid()
    modifies db
    ensures db.Valid()
    ensures CheckNewUser(form).Some? ==> outcome == CheckNewUser(form).value
    ensures CheckNewUser(form).None? && fault ==> outcome == AddDatabaseError
    ensures CheckNewUser(form).None? && !fault ==>
      (outcome == AlreadyTaken <==> UserTaken(old(db.users), form.username.value, form.email.value))
    ensures outcome.UserAdded? <==>
      CheckNewUser(form).None? && !fault && !UserTaken(old(db.users), form.username.value, form.email.value)
    ensures outcome.UserAdded? ==>
      && outcome.userId == old(db.users.lastId) + 1
      && db.State() == old(db.State()).(users := db.users, statistics := db.statistics)
      && db.users == Insert(old(db.users), User(form.username.value, form.email.value,
                                                hash(form.password.value), form.role.value, None))
      && db.statistics == if statFault then old(db.statistics)
                          else Logged(old(db.statistics), "registrations", 1, clock)
    ensures !outcome.UserAdded? ==> db.State() == old(db.State())
  {
    var check := CheckNewUser(form);
    if check.Some? {
      return check.value;
    }
    if fault {
      return AddDatabaseError;
    }
    if UserTaken(db.users, form.username.value, form.email.value) {
      return AlreadyTaken;
    }
    var user := User(form.username.value, form.email.value, hash(form.password.value), form.role.value, None);
    InsertFreshUser(db.users, user);
    db.users := Insert(db.users, user);
    var id := db.users.lastId;
    LogStatistic(db, "registrations", 1, clock, statFault);
    return UserAdded(id);
  }

  // ---------------------------------------------------------------- admin_update_user

  datatype UpdateOutcome = BadRole | UserNotFound | LastAdmin | RoleUpdated | UpdateDatabaseError

  /** The guard: the account named 'admin' keeps its admin role while it holds the
      only one (or none is left). */
  predicate GuardRefuses(users: Table<User>, k: nat, newRole: string)
    requires k < |users.rows|
  {
    users.rows[k].val.username == AdminName && newRole != "admin" && Count(users.rows, IsAdmin) <= 1
  }

  /** The UPDATE: only the role of the row at position `k` changes. */
  function WithRole(t: Table<User>, k: nat, role: string): (r: Table<User>)
    requires k < |t.rows|
    ensures UsersOk(t) ==> UsersOk(r)
  {
    var r := SetVal(t, k, t.rows[k].val.(role := role));
    assert UsersOk(t) ==> UsersOk(r) by {
      if UsersOk(t) {
        UniqueAfterSet(t, k, t.rows[k].val.(role := role), UserName);
        UniqueAfterSet(t, k, t.rows[k].val.(role := role), UserEmail);
      }
    }
    r
  }

  /** `admin_update_user`: `fault` is a database error in any of its statements. */
  method AdminUpdateUser(db: Database, userId: int, newRole: Option<string>, fault: bool)
    returns (outcome: UpdateOutcome)
    requires db.Valid()
    modifies db
    ensures db.Valid()
    ensures outcome == BadRole <==> newRole.None? || newRole.value !in Roles
    ensures outcome == UpdateDatabaseError <==> newRole.Some? && newRole.value in Roles && fault
    ensures outcome == UserNotFound <==>
      newRole.Some? && newRole.value in Roles && !fault && Find(old(db.users.rows), userId) < 0
    ensures outcome == LastAdmin <==>
      newRole.Some? && newRole.value in Roles && !fault && Find(old(db.users.rows), userId) >= 0 &&
      GuardRefuses(old(db.users), Find(old(db.users.rows), userId), newRole.value)
    ensures outcome == RoleUpdated ==>
      db.State() == old(db.State()).(users := WithRole(old(db.users), Find(old(db.users.rows), userId), newRole.value))
    ensures outcome != RoleUpdated ==> db.State() == old(db.State())
  {
    if newRole.None? || newRole.value !in Roles {
      return BadRole;
    }
    if fault {
      return UpdateDatabaseError;
    }
    var k := Find(db.users.rows, userId);
    if k < 0 {
      return UserNotFound;
    }
    if GuardRefuses(db.users, k, newRole.value) {
      return LastAdmin;
    }
    db.users := WithRole(db.users, k, newRole.value);
    return RoleUpdated;
  }

  /** A role change touches one account and only its role: every other row, the
      username and the email are as before. */
  lemma WithRoleEffect(t: Table<User>, k: nat, role: string)
    requires k < |t.rows|
    ensures var r := WithRole(t, k, role);
      && |r.rows| == |t.rows| && r.lastId == t.lastId
      && r.rows[k] == Row(t.rows[k].id, t.rows[k].val.(role := role))
      && forall i :: 0 <= i < |t.rows| && i != k ==> r.rows[i] == t.rows[i]
  {
  }

  /** Changing the role of the account named 'admin' never leaves the store without an
      admin when it had one: the guard refuses exactly the change that would remove
      the last one. */
  lemma {:induction false} AdminNameKeepsAnAdmin(t: Table<User>, k: nat, role: string)
    requires k < |t.rows| && t.rows[k].val.username == AdminName
    requires Count(t.rows, IsAdmin) >= 1
    requires !GuardRefuses(t, k, role)
    ensures Count(WithRole(t, k, role).rows, IsAdmin) >= 1
  {
    var r := WithRole(t, k, role);
    CountSet(t.rows, k, r.rows[k], IsAdmin);
    assert r.rows == t.rows[k := r.rows[k]];
  }

  /** The guard looks at the username only: an admin with any other name who holds the
      only admin role can still be demoted, leaving no admin at all. */
  lemma LastAdminByOtherName()
    ensures var t := Table([Row(1, User("root", "r@example.org", "h", "admin", None))], 1);
      && Count(t.rows, IsAdmin) == 1
      && !GuardRefuses(t, 0, "user")
      && Count(WithRole(t, 0, "user").rows, IsAdmin) == 0
  {
    var t := Table([Row(1, User("root", "r@example.org", "h", "admin", None))], 1);
    assert t.rows[1..] == [];
    var r := WithRole(t, 0, "user");
    assert r.rows[1..] == [];
  }

  // ---------------------------------------------------------------- the dashboard trend

  /** The trend of a counter when yesterday's total is zero: 100 after any activity
      today, 0 otherwise. A non-zero base takes the floating-point branch, which is not
      part of this model. */
  function TrendFromZero(today: int): (trend: int)
    ensures trend == 100 <==> today > 0
    ensures trend == 0 <==> today <= 0
  {
    if today > 0 then 100 else 0
  }

  /** From a zero base, any logged activity shows as a 100 trend: one `log_statistic`
      call with a positive increment on a day with no earlier total. */
  lemma TrendAfterFirstLog(t: Table<Statistic>, name: string, increment: int, clock: Clock)
    requires DayOf(clock.now) == Some(clock.today)
    requires DayTotal(t.rows, name, clock.today) == 0 && increment > 0
    ensures TrendFromZero(DayTotal(Logged(t, name, increment, clock).rows, name, clock.today)) == 100
  {
    LoggedTotals(t, name, increment, clock, name, clock.today);
  }
}
