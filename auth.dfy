/**
 * Registration, member login and logout (routes/auth.py). Password hashing and
 * checking are a foreign library: hashing is a function parameter and the check
 * an uninterpreted predicate passed in by the caller.
 */
module Auth {
  import opened Wrappers
  import opened Text
  import opened Tables
  import opened Web

  /** What the database driver hands back for a LOB column. */
  datatype LobValue =
    | NullLob                 // SQL NULL
    | Locator(content: Bytes) // a LOB object; `read()` yields its content
    | InMemory(data: Bytes)   // a value the driver already fetched

  /** `_lob_to_bytes`: NULL stays absent, a LOB is read, anything else is passed through. */
  function LobToBytes(lob: LobValue): (r: Option<Bytes>)
    ensures r.None? <==> lob.NullLob?
    ensures lob.Locator? ==> r == Some(lob.content)
    ensures lob.InMemory? ==> r == Some(lob.data)
  {
    match lob
    case NullLob => None
    case Locator(content) => Some(content)
    case InMemory(data) => Some(data)
  }

  /** Converting a value that was already converted changes nothing: the conversion is a single boundary. */
  lemma LobToBytesOnce(lob: LobValue)
    requires !lob.NullLob?
    ensures LobToBytes(InMemory(LobToBytes(lob).value)) == LobToBytes(lob)
  {
  }

  /** `request.form.get("email", "").strip().lower()`. */
  function NormaliseEmail(raw: string): (e: string)
    ensures NoSpaceAtEnds(e)
    ensures forall i :: 0 <= i < |e| ==> !('A' <= e[i] <= 'Z')
    ensures e == "" <==> forall i :: 0 <= i < |raw| ==> IsSpace(raw[i])
    // the stripped text, character by character, lower-cased
    ensures |e| == |Strip(raw)| && forall i :: 0 <= i < |e| ==> e[i] == LowerChar(Strip(raw)[i])
  {
    var s := Strip(raw);
    StripEmpty(raw);
    LowerKeepsEnds(s);
    Lower(s)
  }

  /** Two emails that differ only in letter case normalise to the same stored value. */
  lemma NormaliseEmailIgnoresCase(a: string, b: string)
    requires Lower(a) == Lower(b)
    ensures NormaliseEmail(a) == NormaliseEmail(b)
  {
    LowerStrip(a);
    LowerStrip(b);
  }

  /** Normalising a normalised email changes nothing. */
  lemma NormaliseEmailIdempotent(raw: string)
    ensures NormaliseEmail(NormaliseEmail(raw)) == NormaliseEmail(raw)
  {
    var e := NormaliseEmail(raw);
    assert Strip(e) == e;
    assert Lower(e) == e;
  }

  /** `not (name and email and password)` after normalisation. */
  predicate RegisterFieldsMissing(name: string, email: string, password: string) {
    Strip(name) == "" || NormaliseEmail(email) == "" || password == ""
  }

  /** The row `register` inserts: stripped name, normalised email, hashed password, role forced to `member`. */
  function NewMember(name: string, email: string, password: string, profileImage: Option<Upload>,
                     hash: string -> string, now: Timestamp): (u: User)
    ensures u.role == MemberRole
    ensures u.email == NormaliseEmail(email) && u.name == Strip(name)
    ensures u.passwordHash == hash(password) && u.createdAt == now
    ensures u.profileImage == UploadedBytes(profileImage)
    ensures u.profileImage.Some? <==> profileImage.Some? && profileImage.value.filename != ""
  {
    User(Strip(name), NormaliseEmail(email), hash(password), MemberRole, UploadedBytes(profileImage), now)
  }

  /** `register` (POST). */
  method Register(db: Database, name: string, email: string, password: string, profileImage: Option<Upload>,
                  hash: string -> string, now: Timestamp) returns (out: Outcome)
    requires db.Valid()
    modifies db
    ensures db.Valid()
    ensures db.books == old(db.books) && db.library == old(db.library)
    ensures RegisterFieldsMissing(name, email, password) ==>
      out == Render(RegisterPage, FillRequiredFields) && db.users == old(db.users)
    ensures !RegisterFieldsMissing(name, email, password) && EmailTaken(old(db.users), NormaliseEmail(email)) ==>
      out == Render(RegisterPage, EmailExists) && db.users == old(db.users)
    ensures !RegisterFieldsMissing(name, email, password) && !EmailTaken(old(db.users), NormaliseEmail(email)) ==>
      && out == Redirect(AuthLogin, AccountCreated)
      && db.users == old(db.users)[old(db.nextUserId) := NewMember(name, email, password, profileImage, hash, now)]
    // existing rows are never touched, and any row that appears is a member with the normalised email
    ensures forall id :: id in old(db.users) ==> id in db.users && db.users[id] == old(db.users)[id]
    ensures forall id :: id in db.users && id !in old(db.users) ==>
      db.users[id].role == MemberRole && db.users[id].email == NormaliseEmail(email)
  {
    if RegisterFieldsMissing(name, email, password) {
      return Render(RegisterPage, FillRequiredFields);
    }
    var e := NormaliseEmail(email);
    if EmailTaken(db.users, e) {
      return Render(RegisterPage, EmailExists);
    }
    var _ := db.InsertUser(NewMember(name, email, password, profileImage, hash, now));
    out := Redirect(AuthLogin, AccountCreated);
  }

  /** A stored email blocks every later registration whose email differs from it only in case. */
  lemma DuplicateCheckIgnoresCase(users: map<int, User>, id: int, registered: string, attempted: string)
    requires id in users && users[id].email == NormaliseEmail(registered)
    requires Lower(registered) == Lower(attempted)
    ensures EmailTaken(users, NormaliseEmail(attempted))
  {
    NormaliseEmailIgnoresCase(registered, attempted);
  }

  /**
   * The role-ordered part of `login` once the account is fetched: admins are sent to the
   * admin login, librarians are admitted without a password check, everyone else must
   * pass the password check.
   */
  function LoginDecision(found: Option<Account>, password: string, checkPassword: (string, string) -> bool): (d: Decision)
    ensures d.signIn.Some? <==>
      && found.Some?
      && found.value.user.role != AdminRole
      && (found.value.user.role == LibrarianRole || checkPassword(found.value.user.passwordHash, password))
    ensures d.signIn.Some? ==> d.signIn == Some(SessionFor(found.value)) && d.signIn.value.role != AdminRole
    ensures found.None? ==> d.outcome == Render(LoginPage, NoAccountWithEmail)
    ensures found.Some? && found.value.user.role == AdminRole ==> d.outcome == Redirect(AdminLogin, AdminMustUseAdminLogin)
    ensures found.Some? && found.value.user.role == LibrarianRole ==>
      d.outcome == Redirect(LibrarianDashboard, WelcomeLibrarian(found.value.user.name))
    ensures found.Some? && found.value.user.role !in {AdminRole, LibrarianRole} ==>
      d.outcome == if d.signIn.Some? then Redirect(ProfilePage, Welcome(found.value.user.name)) else Render(LoginPage, IncorrectPassword)
  {
    match found
    case None => Decision(Render(LoginPage, NoAccountWithEmail), None)
    case Some(account) =>
      var u := account.user;
      if u.role == AdminRole then
        Decision(Redirect(AdminLogin, AdminMustUseAdminLogin), None)
      else if u.role == LibrarianRole then
        Decision(Redirect(LibrarianDashboard, WelcomeLibrarian(u.name)), Some(SessionFor(account)))
      else if checkPassword(u.passwordHash, password) then
        Decision(Redirect(ProfilePage, Welcome(u.name)), Some(SessionFor(account)))
      else
        Decision(Render(LoginPage, IncorrectPassword), None)
  }

  /** `login` (POST). A refused attempt leaves whatever session there was. */
  method Login(db: Database, session: Session, email: string, password: string, checkPassword: (string, string) -> bool)
    returns (out: Outcome, ghost found: Option<Account>)
    modifies session
    ensures NormaliseEmail(email) == "" || password == "" ==>
      out == Render(LoginPage, EnterEmailAndPassword) && session.user == old(session.user)
    ensures NormaliseEmail(email) != "" && password != "" ==>
      var d := LoginDecision(found, password, checkPassword);
      && FetchedByEmail(db.users, NormaliseEmail(email), found)
      && out == d.outcome
      && session.user == if d.signIn.Some? then d.signIn else old(session.user)
  {
    found := None;
    var e := NormaliseEmail(email);
    if e == "" || password == "" {
      return Render(LoginPage, EnterEmailAndPassword), found;
    }
    var row := db.FindUserByEmail(e);
    found := row;
    var d := LoginDecision(row, password, checkPassword);
    if d.signIn.Some? {
      session.SignIn(d.signIn.value);
    }
    out := d.outcome;
  }

  /** `logout`: the session is emptied. */
  method Logout(session: Session) returns (out: Outcome)
    modifies session
    ensures session.user == None
    ensures out == Redirect(AuthLogin, LoggedOut)
  {
    session.Clear();
    out := Redirect(AuthLogin, LoggedOut);
  }
}
