/**
 * The administrator side (routes/admin.py): admin login with its ordered checks,
 * the admin guard, the user-search query of the dashboard, role updates,
 * user deletion with the self-delete guard, and admin logout.
 */
module Admin {
  import opened Wrappers
  import opened Text
  import opened Tables
  import opened Web
  import Auth

  /** `require_admin`. */
  predicate RequireAdmin(session: Option<SessionUser>) {
    HasRole(session, AdminRole)
  }

  /**
   * `admin_login` once the account is fetched. The failures are reported in a fixed
   * order: no such account, then a wrong password, then a role other than admin.
   */
  function AdminLoginDecision(found: Option<Account>, password: string, checkPassword: (string, string) -> bool): (d: Decision)
    ensures d.signIn.Some? <==>
      && found.Some?
      && checkPassword(found.value.user.passwordHash, password)
      && found.value.user.role == AdminRole
    ensures d.signIn.Some? ==>
      d.signIn == Some(SessionFor(found.value)) && d.outcome == Redirect(AdminDashboard, WelcomeAdmin(found.value.user.name))
    ensures found.None? ==> d.outcome == Render(AdminLoginPage, NoAccountWithEmail)
    // a wrong password is reported as such whatever the account's role
    ensures found.Some? && !checkPassword(found.value.user.passwordHash, password) ==>
      d.outcome == Render(AdminLoginPage, IncorrectPassword)
    ensures found.Some? && checkPassword(found.value.user.passwordHash, password) && found.value.user.role != AdminRole ==>
      d.outcome == Render(AdminLoginPage, AdminsOnly)
  {
    match found
    case None => Decision(Render(AdminLoginPage, NoAccountWithEmail), None)
    case Some(account) =>
      var u := account.user;
      if !checkPassword(u.passwordHash, password) then
        Decision(Render(AdminLoginPage, IncorrectPassword), None)
      else if u.role != AdminRole then
        Decision(Render(AdminLoginPage, AdminsOnly), None)
      else
        Decision(Redirect(AdminDashboard, WelcomeAdmin(u.name)), Some(SessionFor(account)))
  }

  /**
   * The two login paths never both admit the same account, and an admin session
   * can only come from the admin path.
   */
  lemma LoginPathsDisjoint(found: Option<Account>, password: string, checkPassword: (string, string) -> bool)
    ensures !(Auth.LoginDecision(found, password, checkPassword).signIn.Some? &&
              AdminLoginDecision(found, password, checkPassword).signIn.Some?)
    ensures HasRole(Auth.LoginDecision(found, password, checkPassword).signIn, AdminRole) == false
  {
  }

  /** `admin_login` (POST). */
  method AdminLoginHandler(db: Database, session: Session, email: string, password: string, checkPassword: (string, string) -> bool)
    returns (out: Outcome, ghost found: Option<Account>)
    modifies session
    ensures Auth.NormaliseEmail(email) == "" || password == "" ==>
      out == Render(AdminLoginPage, EnterEmailAndPassword) && session.user == old(session.user)
    ensures Auth.NormaliseEmail(email) != "" && password != "" ==>
      var d := AdminLoginDecision(found, password, checkPassword);
      && FetchedByEmail(db.users, Auth.NormaliseEmail(email), found)
      && out == d.outcome
      && session.user == if d.signIn.Some? then d.signIn else old(session.user)
  {
    found := None;
    var e := Auth.NormaliseEmail(email);
    if e == "" || password == "" {
      return Render(AdminLoginPage, EnterEmailAndPassword), found;
    }
    var row := db.FindUserByEmail(e);
    found := row;
    var d := AdminLoginDecision(row, password, checkPassword);
    if d.signIn.Some? {
      session.SignIn(d.signIn.value);
    }
    out := d.outcome;
  }

  /** The three user-list queries of the dashboard. `keyword` is the lower-cased search text bound inside `%...%`. */
  datatype UserQuery =
    | AllUsers                               // no WHERE clause
    | ByIdOrText(id: int, keyword: string)   // user_id = :1 OR LOWER(name) LIKE :2 OR LOWER(email) LIKE :3
    | ByText(keyword: string)                // LOWER(name) LIKE :1 OR LOWER(email) LIKE :2

  /** The WHERE clause `admin_dashboard` chooses for `request.args.get("search", "")`. */
  function DashboardQuery(search: string): (q: UserQuery)
    ensures q.AllUsers? <==> Strip(search) == ""
    ensures q.ByIdOrText? <==> IsDigits(Strip(search))
    ensures q.ByIdOrText? ==> ParseInt(Strip(search)) == Some(q.id)
    ensures !q.AllUsers? ==> LikePattern(Strip(search)) == "%" + q.keyword + "%"
  {
    var s := Strip(search);
    if s == "" then AllUsers
    else if IsDigits(s) then
      ParseIntOfDigits(s);
      ByIdOrText(ParseInt(s).value, Lower(s))
    else ByText(Lower(s))
  }

  /** Whether a query's WHERE clause keeps the user row with this id. */
  predicate Selects(q: UserQuery, id: int, u: User) {
    match q
    case AllUsers => true
    case ByIdOrText(n, k) => id == n || Contains(Lower(u.name), k) || Contains(Lower(u.email), k)
    case ByText(k) => Contains(Lower(u.name), k) || Contains(Lower(u.email), k)
  }

  /** An empty search lists every user. */
  lemma EmptySearchListsAll(search: string, id: int, u: User)
    requires Strip(search) == ""
    ensures Selects(DashboardQuery(search), id, u)
  {
  }

  /** Searching for a user's id, written as `str(id)`, always lists that user. */
  lemma IdSearchFindsUser(id: nat, u: User)
    ensures Selects(DashboardQuery(NatToString(id)), id, u)
  {
    var s := NatToString(id);
    DigitNotSpace(s[0]);
    DigitNotSpace(s[|s| - 1]);
    assert Strip(s) == s;
    ParseIntOfIntToString(id);
    assert IntToString(id) == s;
  }

  /** A search that is not all digits never matches on the id column. */
  lemma TextSearchIgnoresId(search: string, id1: int, id2: int, u: User)
    requires !IsDigits(Strip(search))
    ensures Selects(DashboardQuery(search), id1, u) == Selects(DashboardQuery(search), id2, u)
  {
  }

  /** `admin_dashboard`: the query it runs, if the guard lets it run one. */
  method Dashboard(session: Session, search: string) returns (out: Outcome, query: Option<UserQuery>)
    ensures !RequireAdmin(session.user) ==> out == Redirect(AdminLogin, AdminsOnly) && query == None
    ensures RequireAdmin(session.user) ==> out == Render(AdminDashboardPage, NoNotice) && query == Some(DashboardQuery(search))
  {
    if !RequireAdmin(session.user) {
      return Redirect(AdminLogin, AdminsOnly), None;
    }
    query := Some(DashboardQuery(search));
    out := Render(AdminDashboardPage, NoNotice);
  }

  /** The roles `update_role` accepts. */
  predicate IsAssignableRole(role: Option<string>) {
    role.Some? && role.value in {AdminRole, MemberRole, LibrarianRole}
  }

  /** `update_role` (POST). An unknown user id matches no row but still reports success. */
  method UpdateRole(db: Database, session: Session, userId: int, newRole: Option<string>) returns (out: Outcome)
    requires db.Valid()
    modifies db
    ensures db.Valid()
    ensures db.books == old(db.books) && db.library == old(db.library)
    ensures db.users.Keys == old(db.users).Keys
    ensures forall id :: id in old(db.users) && id != userId ==> db.users[id] == old(db.users)[id]
    ensures !RequireAdmin(session.user) ==> out == Redirect(AdminLogin, AdminsOnly) && db.users == old(db.users)
    ensures RequireAdmin(session.user) && !IsAssignableRole(newRole) ==>
      out == Redirect(AdminDashboard, InvalidRole) && db.users == old(db.users)
    ensures RequireAdmin(session.user) && IsAssignableRole(newRole) ==>
      && out == Redirect(AdminDashboard, RoleUpdated)
      && (userId in db.users ==> db.users[userId] == old(db.users)[userId].(role := newRole.value))
  {
    if !RequireAdmin(session.user) {
      return Redirect(AdminLogin, AdminsOnly);
    }
    if !IsAssignableRole(newRole) {
      return Redirect(AdminDashboard, InvalidRole);
    }
    db.UpdateRole(userId, newRole.value);
    out := Redirect(AdminDashboard, RoleUpdated);
  }

  /** `delete_user` (POST): an admin may delete anyone but themselves. */
  method DeleteUser(db: Database, session: Session, userId: int) returns (out: Outcome)
    requires db.Valid()
    modifies db
    ensures db.Valid()
    ensures db.books == old(db.books) && db.library == old(db.library)
    ensures !RequireAdmin(session.user) ==> out == Redirect(AdminLogin, AdminsOnly) && db.users == old(db.users)
    ensures RequireAdmin(session.user) && session.user.value.userId == userId ==>
      out == Redirect(AdminDashboard, CannotDeleteSelf) && db.users == old(db.users)
    ensures RequireAdmin(session.user) && session.user.value.userId != userId ==>
      out == Redirect(AdminDashboard, UserDeleted) && db.users == old(db.users) - {userId}
    // the signed-in account survives whatever the request asked for
    ensures session.user.Some? && session.user.value.userId in old(db.users) ==> session.user.value.userId in db.users
  {
    if !RequireAdmin(session.user) {
      return Redirect(AdminLogin, AdminsOnly);
    }
    if session.user.value.userId == userId {
      return Redirect(AdminDashboard, CannotDeleteSelf);
    }
    db.DeleteUser(userId);
    out := Redirect(AdminDashboard, UserDeleted);
  }

  /** `admin_logout`: the session is emptied. */
  method AdminLogout(session: Session) returns (out: Outcome)
    modifies session
    ensures session.user == None && !RequireAdmin(session.user)
    ensures out == Redirect(AuthLogin, LoggedOut)
  {
    session.Clear();
    out := Redirect(AuthLogin, LoggedOut);
  }
}
