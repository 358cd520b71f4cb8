/**
 * Registration and login. Both write the signed-in user into the session; login also
 * stamps `last_login` and follows the `next` argument back to the page that asked for
 * the login.
 */
module Auth {
  import opened Wrappers
  import opened Strings
  import opened Tables
  import opened Schema
  import opened Utils

  /** The keys the routes keep in Flask's session. `session.clear()` empties it. */
  datatype Session = Session(userId: Option<int>, username: Option<string>, role: Option<string>)

  // ---------------------------------------------------------------- register

  /** `request.form[...]`: None stands for a field missing from the form, which Flask
      answers with 400 Bad Request before the view's own checks. */
  datatype RegisterForm = RegisterForm(username: Option<string>, email: Option<string>,
                                       password: Option<string>, confirm: Option<string>)

  datatype RegisterOutcome = RegisterBadRequest | RegisterMissingField | RegisterMismatch | RegisterTaken
                           | Registered(userId: int) | RegisterDatabaseError

  /** The form checks of `register`: all four fields sent, username, email and password
      non-empty, and the confirmation equal to the password. */
  function CheckRegistration(form: RegisterForm): (r: Option<RegisterOutcome>)
    ensures r == Some(RegisterBadRequest) <==>
      form.username.None? || form.email.None? || form.password.None? || form.confirm.None?
    ensures r.None? <==>
      Present(form.username) && Present(form.email) && Present(form.password) &&
      form.confirm == form.password
    ensures r.Some? ==> r.value in {RegisterBadRequest, RegisterMissingField, RegisterMismatch}
  {
    if form.username.None? || form.email.None? || form.password.None? || form.confirm.None? then
      Some(RegisterBadRequest)
    else if !Present(form.username) || !Present(form.email) || !Present(form.password) then
      Some(RegisterMissingField)
    else if form.password != form.confirm then Some(RegisterMismatch)
    else None
  }

  /** `register` (POST): `hash` is the password hash; `fault` is a database error in
      the lookup, the INSERT or the COMMIT, `statFault` one inside `log_statistic`. A
      new account always gets the role 'user' and is signed in at once. */
  method Register(db: Database, form: RegisterForm, session: Session, hash: string -> string, clock: Clock,
                  fault: bool, statFault: bool) returns (outcome: RegisterOutcome, session': Session)
    requires db.Valid()
    modifies db
    ensures db.Valid()
    ensures CheckRegistration(form).Some? ==> outcome == CheckRegistration(form).value
    ensures CheckRegistration(form).None? && fault ==> outcome == RegisterDatabaseError
    ensures CheckRegistration(form).None? && !fault ==>
      (outcome == RegisterTaken <==> UserTaken(old(db.users), form.username.value, form.email.value))
    ensures outcome.Registered? <==>
      CheckRegistration(form).None? && !fault && !UserTaken(old(db.users), form.username.value, form.email.value)
    ensures outcome.Registered? ==>
      && outcome.userId == old(db.users.lastId) + 1
      && db.State() == old(db.State()).(users := db.users, statistics := db.statistics)
      && db.users == Insert(old(db.users), User(form.username.value, form.email.value,
                                                hash(form.password.value), "user", None))
      && db.statistics == (if statFault then old(db.statistics)
                           else Logged(old(db.statistics), "registrations", 1, clock))
      && session' == Session(Some(outcome.userId), form.username, Some("user"))
    ensures !outcome.Registered? ==> db.State() == old(db.State()) && session' == session
  {
    session' := session;
    var check := CheckRegistration(form);
    if check.Some? {
      return check.value, session';
    }
    if fault {
      return RegisterDatabaseError, session';
    }
    if UserTaken(db.users, form.username.value, form.email.value) {
      return RegisterTaken, session';
    }
    var user := User(form.username.value, form.email.value, hash(form.password.value), "user", None);
    InsertFreshUser(db.users, user);
    db.users := Insert(db.users, user);
    var id := db.users.lastId;
    LogStatistic(db, "registrations", 1, clock, statFault);
    session' := Session(Some(id), form.username, Some("user"));
    return Registered(id), session';
  }

  // ---------------------------------------------------------------- the `next` redirect

  /** Where a successful login sends the browser. */
  datatype Target = ToNext(path: string) | ToHome

  /** A target that starts like a path but names another host: browsers read "//host"
      as a scheme-relative URL and also accept a backslash for the second slash. */
  predicate OffSite(path: string)
  {
    StartsWith(path, "//") || StartsWith(path, "/\\")
  }

  /** The redirect as written: any non-empty `next` that starts with '/' is followed. */
  function NextTargetAsWritten(next: Option<string>): (t: Target)
    ensures t.ToNext? <==> Present(next) && StartsWith(next.value, "/")
    ensures t.ToNext? ==> t.path == next.value
  {
    if Present(next) && StartsWith(next.value, "/") then ToNext(next.value) else ToHome
  }

  /** The check as written lets a scheme-relative URL through, so a crafted login link
      sends the signed-in user to another site. */
  lemma OpenRedirectAsWritten()
    ensures NextTargetAsWritten(Some("//evil.example")) == ToNext("//evil.example")
    ensures OffSite("//evil.example")
  {
    assert "//evil.example"[..1] == "/";
    assert "//evil.example"[..2] == "//";
  }

  /** The redirect the check is meant to allow: a path on this site only. */
  function NextTarget(next: Option<string>): (t: Target)
    ensures t.ToNext? ==> Present(next) && t.path == next.value && StartsWith(t.path, "/") && !OffSite(t.path)
    ensures Present(next) && StartsWith(next.value, "/") && !OffSite(next.value) ==> t == ToNext(next.value)
    ensures t.ToHome? <==> !Present(next) || !StartsWith(next.value, "/") || OffSite(next.value)
  {
    if Present(next) && StartsWith(next.value, "/") && !OffSite(next.value) then ToNext(next.value) else ToHome
  }

  /** The corrected check differs from the written one on off-site targets only. */
  lemma NextTargetRefinesAsWritten(next: Option<string>)
    ensures NextTarget(next) != NextTargetAsWritten(next) <==>
      Present(next) && OffSite(next.value)
  {
    if Present(next) && OffSite(next.value) {
      assert next.value[..1] == next.value[..2][..1];
    }
  }

  // ---------------------------------------------------------------- login

  /** `request.form[...]`: None stands for a missing field (400 Bad Request). */
  datatype LoginForm = LoginForm(email: Option<string>, password: Option<string>)

  datatype LoginOutcome = LoginBadRequest | LoginMissingField | InvalidCredentials | LoggedIn(target: Target)
                        | LoginDatabaseError

  /** The columns the login query matches on. */
  function Credentials(u: User): (string, string)
  {
    (u.email, u.password)
  }

  /** `SELECT ... FROM users WHERE email = ? AND password = ?`, first row in rowid order. */
  function MatchLogin(t: Table<User>, email: string, hashed: string): (k: int)
    ensures -1 <= k < |t.rows|
    ensures k >= 0 ==> t.rows[k].val.email == email && t.rows[k].val.password == hashed
    ensures k < 0 ==> forall i :: 0 <= i < |t.rows| ==> !(t.rows[i].val.email == email && t.rows[i].val.password == hashed)
  {
    IndexOf(t.rows, Credentials, (email, hashed))
  }

  /** Emails are unique, so the matching account, when there is one, is the one that
      holds the email. */
  lemma MatchLoginUnique(t: Table<User>, email: string, hashed: string)
    requires UsersOk(t)
    ensures MatchLogin(t, email, hashed) >= 0 ==>
      forall i :: 0 <= i < |t.rows| && t.rows[i].val.email == email ==> i == MatchLogin(t, email, hashed)
  {
    var k := MatchLogin(t, email, hashed);
    if k >= 0 {
      forall i | 0 <= i < |t.rows| && t.rows[i].val.email == email
        ensures i == k
      {
        assert UserEmail(t.rows[i].val) == UserEmail(t.rows[k].val);
      }
    }
  }

  /** `UPDATE users SET last_login = ? WHERE id = ?`: the row at position `k` gets the
      login time and keeps its id, username, email, password and role. */
  function Stamped(t: Table<User>, k: nat, now: string): (r: Table<User>)
    requires k < |t.rows|
    ensures |r.rows| == |t.rows| && r.lastId == t.lastId
    ensures r.rows[k] == Row(t.rows[k].id, t.rows[k].val.(lastLogin := Some(now)))
    ensures forall i :: 0 <= i < |t.rows| && i != k ==> r.rows[i] == t.rows[i]
    ensures UsersOk(t) ==> UsersOk(r)
  {
    var r := SetVal(t, k, t.rows[k].val.(lastLogin := Some(now)));
    assert UsersOk(t) ==> UsersOk(r) by {
      if UsersOk(t) {
        UniqueAfterSet(t, k, t.rows[k].val.(lastLogin := Some(now)), UserName);
        UniqueAfterSet(t, k, t.rows[k].val.(lastLogin := Some(now)), UserEmail);
      }
    }
    r
  }

  /** `login` (POST): `fault` is a database error in the SELECT, the UPDATE or the
      COMMIT, `statFault` one inside `log_statistic`. Only a matching email and
      password hash signs the user in; that stamps `last_login` with the current time
      and nothing else in the store changes except the 'logins' counter. */
  method Login(db: Database, form: LoginForm, next: Option<string>, session: Session, hash: string -> string,
               clock: Clock, fault: bool, statFault: bool) returns (outcome: LoginOutcome, session': Session)
    requires db.Valid()
    modifies db
    ensures db.Valid()
    ensures outcome == LoginBadRequest <==> form.email.None? || form.password.None?
    ensures outcome == LoginMissingField <==>
      form.email.Some? && form.password.Some? && (!Present(form.email) || !Present(form.password))
    ensures outcome == LoginDatabaseError <==> Present(form.email) && Present(form.password) && fault
    ensures outcome.LoggedIn? <==>
      Present(form.email) && Present(form.password) && !fault &&
      MatchLogin(old(db.users), form.email.value, hash(form.password.value)) >= 0
    ensures outcome.LoggedIn? ==>
      var k := MatchLogin(old(db.users), form.email.value, hash(form.password.value));
      var u := old(db.users.rows)[k];
      && db.State() == old(db.State()).(users := Stamped(old(db.users), k, clock.now), statistics := db.statistics)
      && db.statistics == (if statFault then old(db.statistics) else Logged(old(db.statistics), "logins", 1, clock))
      && session' == Session(Some(u.id), Some(u.val.username), Some(u.val.role))
      && outcome.target == NextTarget(next)
    ensures !outcome.LoggedIn? ==> db.State() == old(db.State()) && session' == session
  {
    session' := session;
    if form.email.None? || form.password.None? {
      return LoginBadRequest, session';
    }
    if !Present(form.email) || !Present(form.password) {
      return LoginMissingField, session';
    }
    if fault {
      return LoginDatabaseError, session';
    }
    var hashed := hash(form.password.value);
    var k := MatchLogin(db.users, form.email.value, hashed);
    if k < 0 {
      return InvalidCredentials, session';
    }
    var u := db.users.rows[k];
    db.users := Stamped(db.users, k, clock.now);
    session' := Session(Some(u.id), Some(u.val.username), Some(u.val.role));
    LogStatistic(db, "logins", 1, clock, statFault);
    return LoggedIn(NextTarget(next)), session';
  }
}
