/**
 * What the route handlers see of the web framework: the session, uploaded files,
 * and the response each handler returns (a redirect to a named endpoint, a
 * re-rendered template, or a streamed file), together with the flashed notice.
 */
module Web {
  import opened Wrappers
  import opened Tables

  /** The four keys a successful login writes into the session. */
  datatype SessionUser = SessionUser(userId: int, name: string, email: string, role: string)

  /** The session a login establishes for an account: `user_id`, `name`, `email` and `role` of that row. */
  function SessionFor(a: Account): (s: SessionUser)
    ensures s.userId == a.id && s.name == a.user.name && s.email == a.user.email && s.role == a.user.role
  {
    SessionUser(a.id, a.user.name, a.user.email, a.user.role)
  }

  /**
   * The per-client session dictionary. The handlers always write its four keys
   * together and only ever clear it whole, so it is either empty or one user.
   */
  class Session {
    var user: Option<SessionUser>

    constructor ()
      ensures user == None
    {
      user := None;
    }

    /** `session.clear()`. */
    method Clear()
      modifies this
      ensures user == None
    {
      user := None;
    }

    /** Writing `user_id`, `name`, `email` and `role` after a successful login. */
    method SignIn(u: SessionUser)
      modifies this
      ensures user == Some(u)
    {
      user := Some(u);
    }
  }

  /** `session.get("role") == role`: false for an empty session. */
  predicate HasRole(s: Option<SessionUser>, role: string) {
    s.Some? && s.value.role == role
  }

  /** An uploaded file as `request.files.get(...)` returns it. */
  datatype Upload = Upload(filename: string, data: Bytes)

  /** `f.read() if f and f.filename else None`: a file counts only when it has a filename. */
  function UploadedBytes(f: Option<Upload>): (b: Option<Bytes>)
    ensures b.Some? <==> f.Some? && f.value.filename != ""
    ensures b.Some? ==> b.value == f.value.data
  {
    if f.Some? && f.value.filename != "" then Some(f.value.data) else None
  }

  /** Python truthiness of a byte string that may be `None`. */
  predicate HasBytes(b: Option<Bytes>) {
    b.Some? && b.value != []
  }

  /** The endpoints handlers redirect to (`url_for` names). */
  datatype Endpoint =
    | AuthLogin
    | AdminLogin
    | AdminDashboard
    | LibrarianDashboard
    | LibrarianEdit(bookId: int)
    | ProfilePage
    | BooksIndex
    | MyLibrary

  /** The templates handlers render. */
  datatype Template =
    | RegisterPage
    | LoginPage
    | AdminLoginPage
    | InsertPage
    | EditPage
    | IndexPage
    | LibrarianDashboardPage
    | AdminDashboardPage
    | SavedPage
    | RemoteSavedPage

  /** The message a handler flashes before responding. */
  datatype Notice =
    | NoNotice
    | FillRequiredFields
    | EmailExists
    | AccountCreated
    | EnterEmailAndPassword
    | NoAccountWithEmail
    | AdminMustUseAdminLogin
    | WelcomeLibrarian(name: string)
    | Welcome(name: string)
    | WelcomeAdmin(name: string)
    | IncorrectPassword
    | LoggedOut
    | AdminsOnly
    | LibrariansOnly
    | InvalidRole
    | RoleUpdated
    | CannotDeleteSelf
    | UserDeleted
    | AllFieldsAndPdfRequired
    | YearNotNumber
    | BookAdded
    | BookPdfNotFound
    | BookDeleted
    | BookUpdated
    | BookNotFound
    | LoginFirst
    | NotInSourceDatabase(source: string)
    | AddedToLibrary(source: string)
    | RemovedFromLibrary
    | NotInYourLibrary
    | NoPdfAvailable

  /** A handler's response. `BadRequest` and `ServerError` are the framework's answers to an uncaught error. */
  datatype Outcome =
    | Redirect(to: Endpoint, notice: Notice)
    | Render(page: Template, notice: Notice)
    | SendFile(data: Bytes, downloadName: string, mimetype: string)
    | BadRequest
    | ServerError

  /** A login handler's decision: the response, and the session it establishes if any. */
  datatype Decision = Decision(outcome: Outcome, signIn: Option<SessionUser>)

  const PdfMimetype := "application/pdf"
}
