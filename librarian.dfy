/**
 * The librarian side (routes/librarian.py): the librarian guard, adding a book with
 * its required-field and numeric-year checks, viewing a book's PDF, deleting a book,
 * the catalogue search with its filter allow-list, and editing a book while keeping
 * its stored PDF unless a new one is uploaded.
 */
module Librarian {
  import opened Wrappers
  import opened Text
  import opened Tables
  import opened Web

  /** `require_librarian`. */
  predicate RequireLibrarian(session: Option<SessionUser>) {
    HasRole(session, LibrarianRole)
  }

  /** The add and edit forms as submitted: each text field is `request.form.get(..., "")`. */
  datatype BookForm = BookForm(
    title: string,
    author: string,
    university: string,
    department: string,
    year: string,
    pdfFile: Option<Upload>)

  /** `not (title and author and university and department and year and pdf_bytes)` after stripping. */
  predicate FieldsMissing(f: BookForm) {
    || Strip(f.title) == "" || Strip(f.author) == "" || Strip(f.university) == ""
    || Strip(f.department) == "" || Strip(f.year) == ""
    || !HasBytes(UploadedBytes(f.pdfFile))
  }

  /**
   * The row `add_book` inserts for a form, or the notice it re-renders the insert page with.
   * Missing fields are reported before a year that is not a number.
   */
  function NewBook(f: BookForm, uploader: Option<int>): (r: Result<Book, Notice>)
    ensures r.Success? <==> !FieldsMissing(f) && ParseInt(Strip(f.year)).Some?
    ensures FieldsMissing(f) ==> r == Failure(AllFieldsAndPdfRequired)
    ensures !FieldsMissing(f) && ParseInt(Strip(f.year)).None? ==> r == Failure(YearNotNumber)
    ensures r.Success? ==>
      && r.value.title == Strip(f.title) && r.value.author == Strip(f.author)
      && r.value.university == Strip(f.university) && r.value.department == Strip(f.department)
      && r.value.year == YearNumber(ParseInt(Strip(f.year)).value)
      && r.value.pdf == UploadedBytes(f.pdfFile) && HasBytes(r.value.pdf)
      && r.value.uploadedBy == uploader
  {
    if FieldsMissing(f) then Failure(AllFieldsAndPdfRequired)
    else match ParseInt(Strip(f.year))
      case None => Failure(YearNotNumber)
      case Some(y) =>
        Success(Book(Strip(f.title), Strip(f.author), Strip(f.university), Strip(f.department),
                     YearNumber(y), UploadedBytes(f.pdfFile), uploader))
  }

  /** A year written as `str(n)` is always accepted, and stored as `n`. */
  lemma NewBookYearRoundTrip(f: BookForm, n: int, uploader: Option<int>)
    requires !FieldsMissing(f)
    ensures NewBook(f.(year := IntToString(n)), uploader).Success?
    ensures NewBook(f.(year := IntToString(n)), uploader).value.year == YearNumber(n)
  {
    var t := IntToString(n);
    DigitNotSpace(t[0]);
    DigitNotSpace(t[|t| - 1]);
    assert Strip(t) == t;
    ParseIntOfIntToString(n);
    assert !FieldsMissing(f.(year := t));
  }

  /** `add_book` (POST). The uploader is the session's `user_id`. */
  method AddBook(db: Database, session: Session, f: BookForm) returns (out: Outcome)
    requires db.Valid()
    modifies db
    ensures db.Valid()
    ensures db.users == old(db.users) && db.library == old(db.library)
    ensures !RequireLibrarian(session.user) ==> out == Redirect(AuthLogin, LibrariansOnly) && db.books == old(db.books)
    ensures RequireLibrarian(session.user) ==>
      var r := NewBook(f, Some(session.user.value.userId));
      && (r.Failure? ==> out == Render(InsertPage, r.error) && db.books == old(db.books))
      && (r.Success? ==> out == Redirect(LibrarianDashboard, BookAdded) && db.books == old(db.books)[old(db.nextBookId) := r.value])
    // whatever happens, no existing catalogue row changes
    ensures forall id :: id in old(db.books) ==> id in db.books && db.books[id] == old(db.books)[id]
  {
    if !RequireLibrarian(session.user) {
      return Redirect(AuthLogin, LibrariansOnly);
    }
    var r := NewBook(f, Some(session.user.value.userId));
    if r.Failure? {
      return Render(InsertPage, r.error);
    }
    var _ := db.InsertBook(r.value);
    out := Redirect(LibrarianDashboard, BookAdded);
  }

  /**
   * `view_book`: the PDF is streamed under the book's title only when the book exists and
   * holds a PDF. A zero-length value is stored by the database as NULL, so "no PDF" and
   * "empty PDF" are one case.
   */
  function ViewBook(session: Option<SessionUser>, books: map<int, Book>, id: int): (out: Outcome)
    ensures !RequireLibrarian(session) ==> out == Redirect(AuthLogin, LibrariansOnly)
    ensures out.SendFile? <==> RequireLibrarian(session) && id in books && HasBytes(books[id].pdf)
    ensures out.SendFile? ==> out == SendFile(books[id].pdf.value, books[id].title + ".pdf", PdfMimetype)
    ensures RequireLibrarian(session) && !out.SendFile? ==> out == Redirect(LibrarianDashboard, BookPdfNotFound)
  {
    if !RequireLibrarian(session) then Redirect(AuthLogin, LibrariansOnly)
    else if id !in books || !HasBytes(books[id].pdf) then Redirect(LibrarianDashboard, BookPdfNotFound)
    else SendFile(books[id].pdf.value, books[id].title + ".pdf", PdfMimetype)
  }

  /** `delete_book` (POST): removes exactly that row; an unknown id matches nothing but still reports success. */
  method DeleteBook(db: Database, session: Session, id: int) returns (out: Outcome)
    requires db.Valid()
    modifies db
    ensures db.Valid()
    ensures db.users == old(db.users) && db.library == old(db.library)
    ensures !RequireLibrarian(session.user) ==> out == Redirect(AuthLogin, LibrariansOnly) && db.books == old(db.books)
    ensures RequireLibrarian(session.user) ==>
      out == Redirect(LibrarianDashboard, BookDeleted) && db.books == old(db.books) - {id}
  {
    if !RequireLibrarian(session.user) {
      return Redirect(AuthLogin, LibrariansOnly);
    }
    db.DeleteBook(id);
    out := Redirect(LibrarianDashboard, BookDeleted);
  }

  /** The columns the search may interpolate into its query. */
  const SearchColumns: set<string> := {"title", "author", "university", "department"}

  /** `request.args.get("filter", "title")`, replaced by `"title"` when it is not an allowed column. */
  function NormaliseSearchFilter(filter: Option<string>): (c: string)
    ensures c in SearchColumns
    ensures filter.Some? && filter.value in SearchColumns ==> c == filter.value
    ensures !(filter.Some? && filter.value in SearchColumns) ==> c == "title"
  {
    var f := filter.GetOr("title");
    if f in SearchColumns then f else "title"
  }

  const SearchBase := "\n            SELECT book_id, title, author, university, department, year_published\n            FROM university_books\n            WHERE 1=1\n        "
  const OrderByTitle := " ORDER BY title"

  function LikeClause(column: string): string {
    " AND LOWER(" + column + ") LIKE :keyword"
  }

  /** Every text the search can send: one per allowed column, and one without a keyword clause. */
  ghost predicate IsSearchText(q: string) {
    || q == SearchBase + OrderByTitle
    || exists c :: c in SearchColumns && q == SearchBase + LikeClause(c) + OrderByTitle
  }

  /** The part of `search` that builds the statement: the stripped keyword, the column, the text and the bind values. */
  method BuildSearchQuery(keywordArg: Option<string>, filterArg: Option<string>)
    returns (keyword: string, column: string, query: string, params: map<string, string>)
    ensures keyword == Strip(keywordArg.GetOr("")) && column == NormaliseSearchFilter(filterArg)
    // no request text reaches the statement except through the bind value
    ensures IsSearchText(query)
    ensures keyword == "" ==> query == SearchBase + OrderByTitle
    ensures keyword != "" ==> query == SearchBase + LikeClause(column) + OrderByTitle
    ensures |OrderByTitle| <= |query| && query[|query| - |OrderByTitle|..] == OrderByTitle
    ensures "keyword" in params <==> keyword != ""
    ensures params.Keys <= {"keyword"}
    ensures "keyword" in params ==> params["keyword"] == LikePattern(keyword)
  {
    keyword := Strip(keywordArg.GetOr(""));
    column := NormaliseSearchFilter(filterArg);
    query := SearchBase;
    params := map[];
    if keyword != "" {
      query := query + LikeClause(column);
      params := params["keyword" := LikePattern(keyword)];
    }
    query := query + OrderByTitle;
    assert query[|query| - |OrderByTitle|..] == OrderByTitle;
  }

  /** `search`: the statement it runs, if the guard lets it run one. */
  method Search(session: Session, keywordArg: Option<string>, filterArg: Option<string>)
    returns (out: Outcome, query: Option<string>, params: map<string, string>)
    ensures !RequireLibrarian(session.user) ==> out == Redirect(AuthLogin, LibrariansOnly) && query == None && params == map[]
    ensures RequireLibrarian(session.user) ==>
      && out == Render(LibrarianDashboardPage, NoNotice)
      && query.Some? && IsSearchText(query.value)
      && var kw := Strip(keywordArg.GetOr(""));
      && query.value == SearchBase + (if kw != "" then LikeClause(NormaliseSearchFilter(filterArg)) else "") + OrderByTitle
      && params == if kw != "" then map["keyword" := LikePattern(kw)] else map[]
  {
    if !RequireLibrarian(session.user) {
      return Redirect(AuthLogin, LibrariansOnly), None, map[];
    }
    var keyword, column, text, p := BuildSearchQuery(keywordArg, filterArg);
    query, params := Some(text), p;
    out := Render(LibrarianDashboardPage, NoNotice);
  }

  /**
   * The row `edit_book` writes over a stored book: the five text fields are replaced (without
   * any required-field check), the PDF only when a non-empty one was uploaded, the uploader never.
   */
  function Edited(b: Book, f: BookForm, year: int): (r: Book)
    ensures r.title == Strip(f.title) && r.author == Strip(f.author)
    ensures r.university == Strip(f.university) && r.department == Strip(f.department)
    ensures r.year == YearNumber(year)
    ensures r.uploadedBy == b.uploadedBy
    ensures !HasBytes(UploadedBytes(f.pdfFile)) ==> r.pdf == b.pdf
    ensures HasBytes(UploadedBytes(f.pdfFile)) ==> r.pdf == UploadedBytes(f.pdfFile)
  {
    var pdf := if HasBytes(UploadedBytes(f.pdfFile)) then UploadedBytes(f.pdfFile) else b.pdf;
    Book(Strip(f.title), Strip(f.author), Strip(f.university), Strip(f.department), YearNumber(year), pdf, b.uploadedBy)
  }

  /** Submitting the same edit twice leaves the row as the first submission did. */
  lemma EditedIdempotent(b: Book, f: BookForm, year: int)
    ensures Edited(Edited(b, f, year), f, year) == Edited(b, f, year)
  {
  }

  /** A book that has a PDF keeps one through any edit. */
  lemma EditedKeepsPdf(b: Book, f: BookForm, year: int)
    requires HasBytes(b.pdf)
    ensures HasBytes(Edited(b, f, year).pdf)
  {
  }

  /** `edit_book` (POST). A year that is not a number sends the form back; an unknown id matches nothing but still reports success. */
  method EditBook(db: Database, session: Session, id: int, f: BookForm) returns (out: Outcome)
    requires db.Valid()
    modifies db
    ensures db.Valid()
    ensures db.users == old(db.users) && db.library == old(db.library)
    ensures db.books.Keys == old(db.books).Keys
    ensures forall k :: k in old(db.books) && k != id ==> db.books[k] == old(db.books)[k]
    ensures !RequireLibrarian(session.user) ==> out == Redirect(AuthLogin, LibrariansOnly) && db.books == old(db.books)
    ensures RequireLibrarian(session.user) && ParseInt(Strip(f.year)).None? ==>
      out == Redirect(LibrarianEdit(id), YearNotNumber) && db.books == old(db.books)
    ensures RequireLibrarian(session.user) && ParseInt(Strip(f.year)).Some? ==>
      && out == Redirect(LibrarianDashboard, BookUpdated)
      && (id in db.books ==> db.books[id] == Edited(old(db.books)[id], f, ParseInt(Strip(f.year)).value))
  {
    if !RequireLibrarian(session.user) {
      return Redirect(AuthLogin, LibrariansOnly);
    }
    var year := ParseInt(Strip(f.year));
    if year.None? {
      return Redirect(LibrarianEdit(id), YearNotNumber);
    }
    db.UpdateBook(id, (b: Book) => Edited(b, f, year.value));
    out := Redirect(LibrarianDashboard, BookUpdated);
  }

  /** `edit_book` (GET): the edit page for a stored book. */
  function EditBookPage(session: Option<SessionUser>, books: map<int, Book>, id: int): (out: Outcome)
    ensures !RequireLibrarian(session) ==> out == Redirect(AuthLogin, LibrariansOnly)
    ensures out == Render(EditPage, NoNotice) <==> RequireLibrarian(session) && id in books
    ensures RequireLibrarian(session) && id !in books ==> out == Redirect(LibrarianDashboard, BookNotFound)
  {
    if !RequireLibrarian(session) then Redirect(AuthLogin, LibrariansOnly)
    else if id !in books then Redirect(LibrarianDashboard, BookNotFound)
    else Render(EditPage, NoNotice)
  }
}
