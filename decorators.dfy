/**
 * The access decorators: a login gate and a role gate that looks the session user's
 * role up in `users`. A gate either grants (the view runs with its own arguments) or
 * answers with a redirect.
 */
module Decorators {
  import opened Wrappers
  import opened Tables
  import opened Schema
  import opened Utils

  /** The outcome of a gate: go ahead, redirect to the login page carrying the
      requested URL as `next`, or redirect to the index page. */
  datatype Gate = Granted | ToLogin(next: string) | ToIndex

  /** The outcome of `SELECT role FROM users WHERE id = ?`. */
  datatype Lookup = LookupFailed | NoSuchUser | HasRole(role: string)

  function LookupRole(users: Table<User>, id: int, fault: bool): (l: Lookup)
    ensures l.LookupFailed? <==> fault
    ensures l.NoSuchUser? <==> !fault && Find(users.rows, id) < 0
    ensures l.HasRole? ==> l.role == users.rows[Find(users.rows, id)].val.role
  {
    if fault then LookupFailed
    else
      var k := Find(users.rows, id);
      if k < 0 then NoSuchUser else HasRole(users.rows[k].val.role)
  }

  /** `login_required`: only a session without a user id is turned away. */
  function LoginRequired(sessionUser: Option<int>, url: string): (g: Gate)
    ensures g == Granted <==> sessionUser.Some?
    ensures g != Granted ==> g == ToLogin(url)
  {
    if sessionUser.None? then ToLogin(url) else Granted
  }

  /** `_check_role`: no session user goes to login; a failed lookup, a missing user or
      a role outside `required` goes to the index; otherwise access is granted. */
  function CheckRole(users: Table<User>, sessionUser: Option<int>, url: string, fault: bool,
                     required: seq<string>): (g: Gate)
    ensures sessionUser.None? ==> g == ToLogin(url)
    ensures sessionUser.Some? ==> g == Granted || g == ToIndex
    ensures g == Granted <==>
      sessionUser.Some? && !fault && Find(users.rows, sessionUser.value) >= 0 &&
      users.rows[Find(users.rows, sessionUser.value)].val.role in required
  {
    if sessionUser.None? then ToLogin(url)
    else
      match LookupRole(users, sessionUser.value, fault)
      case LookupFailed => ToIndex
      case NoSuchUser => ToIndex
      case HasRole(role) => if role in required then Granted else ToIndex
  }

  const AdminRoles: seq<string> := ["admin"]
  const StaffRoles: seq<string> := ["admin", "moderator"]

  /** `admin_required` */
  function AdminRequired(users: Table<User>, sessionUser: Option<int>, url: string, fault: bool): (g: Gate)
    ensures g == Granted <==>
      sessionUser.Some? && !fault && Find(users.rows, sessionUser.value) >= 0 &&
      users.rows[Find(users.rows, sessionUser.value)].val.role == "admin"
  {
    CheckRole(users, sessionUser, url, fault, AdminRoles)
  }

  /** `moderator_required` */
  function ModeratorRequired(users: Table<User>, sessionUser: Option<int>, url: string, fault: bool): (g: Gate)
    ensures g == Granted <==> sessionUser.Some? && !fault && StaffUser(users, sessionUser.value)
  {
    CheckRole(users, sessionUser, url, fault, StaffRoles)
  }

  /** Every page open to admins only is also open to them as moderators. */
  lemma AdminPassesModeratorGate(users: Table<User>, sessionUser: Option<int>, url: string, fault: bool)
    ensures AdminRequired(users, sessionUser, url, fault) == Granted ==>
      ModeratorRequired(users, sessionUser, url, fault) == Granted
    ensures LoginRequired(sessionUser, url) != Granted ==>
      AdminRequired(users, sessionUser, url, fault) == ModeratorRequired(users, sessionUser, url, fault)
  {
  }

  /** The pending-moderation badge is non-zero only for users the moderator gate admits. */
  lemma BadgeOnlyForModerators(s: Store, sessionUser: Option<int>, url: string, fault: bool)
    ensures PendingModerationCount(s, sessionUser, fault) > 0 ==>
      ModeratorRequired(s.users, sessionUser, url, fault) == Granted
  {
  }

  /** What a decorated view answers: the view's own response, or a redirect. */
  datatype Response<R> = Rendered(page: R) | Redirected(to: Gate)

  /** The wrapper the decorators return: on `Granted` the view runs on the arguments
      it was called with; otherwise the gate's redirect is returned and the view never
      runs. */
  function Decorated<A, R>(gate: Gate, view: A -> R, args: A): (r: Response<R>)
    ensures r.Rendered? <==> gate == Granted
    ensures r.Rendered? ==> r.page == view(args)
    ensures r.Redirected? ==> r.to == gate
  {
    if gate == Granted then Rendered(view(args)) else Redirected(gate)
  }
}
