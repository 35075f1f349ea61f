# University library: request handlers

This project models the request handlers of a Flask web application for a university-wide
library, which keeps its data in Oracle. It also proves properties of that model.

The application has four roles:

- anonymous visitors browse and search the catalogue;
- members register, log in and keep a personal library of saved books;
- librarians add, edit, delete and view catalogue books;
- administrators search the user list, change roles and delete users.

A saved book is a snapshot of a book from the local catalogue, or from a second catalogue
reached over a database link (`remote_uni`).

## How the model is built

- **Tables.** The three tables `users`, `university_books` and `user_library` are maps from
  primary key to row. They are fields of one `Database` object (`tables.dfy`).
- **Statements.** Each SQL statement a handler issues is a method of `Database` that
  reassigns one of those fields. The identity columns are counters on the same object.
- **Session.** The session is a `Session` object. Every handler writes its four keys
  (`user_id`, `name`, `email`, `role`) together and only ever clears it whole, so the model
  holds either one signed-in user or none.
- **Responses.** A handler's response is an `Outcome`:
  - a redirect to a named endpoint;
  - a rendered template;
  - a streamed file;
  - a bad request or server error, for uncaught exceptions.

  The flashed message travels with the response as a `Notice`, so the order in which failures
  are reported can be stated.
- **Decisions.** Every decision a handler takes is a pure function or a read-only method, with
  its own contract. The state-changing handlers are methods that tie the new state and the
  response to those functions.
- **Strings.** The Python string operations the handlers apply are modelled in `text.dfy`:
  `strip`, `lower`, `upper`, `capitalize`, `isdigit`, `int()` and `str()`.
- **Oracle's empty string.** Oracle stores the empty string as NULL. `SqlText` models this, and
  it matters for the `source` column of `user_library`.

Modules, one per file:

- `Wrappers`: `Option` and `Result`.
- `Text`: the Python string operations.
- `Tables`: the rows, the `Database` object and its statements.
- `Web`: the session, uploads and responses.
- `Auth`: `routes/auth.py`.
- `Admin`: `routes/admin.py`.
- `Librarian`: `routes/librarian.py`.
- `Books`: `routes/books.py`.
- `UserLibrary`: `routes/user_library.py`.

The role guards `require_librarian` and `require_admin` are the predicates
`Librarian.RequireLibrarian` and `Admin.RequireAdmin`. Each holds exactly when the session
role equals `"librarian"` or `"admin"`, and every guarded handler's contract is stated in
terms of it.

## Model

| member | source | states |
|---|---|---|
| Text.Strip | routes/auth.py:23 | the result has no whitespace at either end, is no longer than the input, and is the input itself when the input has none at its ends |
| Text.StripSlice | routes/auth.py:23 | the stripped text is a slice `s[i..j]` of the input, and everything the slice leaves out is whitespace; with `Strip`'s own contract this pins `strip()` down completely |
| Text.StripEmpty | routes/auth.py:30 | a stripped field is empty exactly when the raw field is all whitespace |
| Text.LowerStrip | routes/auth.py:24 | stripping and lower-casing commute |
| Text.Lower | routes/auth.py:24 | same length, and every character is lower-cased |
| Text.Upper | routes/user_library.py:209 | same length, and every character is upper-cased |
| Text.Capitalize | routes/user_library.py:19 | same length; the first character is upper-cased and the rest lower-cased |
| Text.LowerCapitalize | routes/user_library.py:106-109 | lower-casing a capitalised string gives the lower-cased original |
| Text.CapitalizeIdempotent | routes/user_library.py:106 | capitalising the stored (already capitalised) source again changes nothing |
| Text.UpperRemoteIffLowerRemote | routes/user_library.py:209 | `UPPER(x) = 'REMOTE'` holds exactly when `x.lower() == "remote"` |
| Text.LowerKeepsEnds | routes/auth.py:24 | lower-casing keeps a stripped string stripped |
| Text.NatToString | routes/user_library.py:183 | `str(n)` is all digits, with no leading zero |
| Text.ParseIntOfIntToString | routes/librarian.py:65 | `int(str(i)) == i` for every integer |
| Text.ParseIntOfDigits | routes/admin.py:84-94 | whenever the search is made of ASCII digits, `int()` succeeds with the digits' value |
| Text.ParseIntRejects | routes/librarian.py:64-68 | `int()` accepts only blanks around the number, one leading sign followed by a digit, digits and single `_` with a digit on each side, and needs at least one digit; no blank may sit between two non-blank characters: "1.5", "12a", "1-2", "+ 1", "1 2", "_1", "1__0" and "10_" are refused |
| Tables.SqlText | routes/user_library.py:63 | a bound string is stored as NULL exactly when it is empty |
| Tables.UpdateRow | routes/admin.py:133 | an UPDATE by key changes only the row with that key, and nothing when the key is absent |
| Tables.MergeEntry | routes/user_library.py:41-52 | MERGE ... WHEN NOT MATCHED adds the entry only for a new key, and keeps every existing entry |
| Tables.MergeIdempotent | routes/user_library.py:41-52 | merging the same key twice leaves the first snapshot, whatever the second holds |
| Tables.MergeSize | routes/user_library.py:41-52 | a merge adds exactly one entry for a new key and none otherwise |
| Tables.Database.FindUserByEmail | routes/auth.py:86-90 | the fetched row has the requested email, and there is none exactly when no row has it |
| Tables.Database.InsertUser | routes/auth.py:47-54 | the new row gets a fresh identity value; the other tables are unchanged |
| Tables.Database.UpdateRole | routes/admin.py:133 | only the target row's role changes |
| Tables.Database.DeleteUser | routes/admin.py:165 | exactly the target row is removed |
| Tables.Database.InsertBook | routes/librarian.py:73-77 | the new row gets a fresh identity value; the other tables are unchanged |
| Tables.Database.UpdateBook | routes/librarian.py:212-223 | only the row with that key changes |
| Tables.Database.DeleteBook | routes/librarian.py:136 | exactly the row with that key is removed |
| Tables.Database.Merge | routes/user_library.py:41-64 | the ledger becomes the insert-if-absent merge of the entry |
| Tables.Database.DeleteEntry | routes/user_library.py:132 | exactly the (user, book) entry is removed |
| Tables.Database.EntriesOf | routes/user_library.py:92-98 | the fetched rows are each selected entry of the user, once each, in some order |
| Web.SessionFor | routes/auth.py:108-111 | the session holds the account's id, name, email and role |
| Web.Session.Clear | routes/auth.py:140 | the session is empty |
| Web.Session.SignIn | routes/auth.py:119-122 | the session holds the signed-in user |
| Web.UploadedBytes | routes/auth.py:27 | an upload counts only when it has a filename, and then yields its content |
| Auth.LobToBytes | routes/auth.py:8-14 | NULL stays absent, a LOB is read, any other value passes through |
| Auth.LobToBytesOnce | routes/auth.py:8-14 | converting an already converted value changes nothing |
| Auth.NormaliseEmail | routes/auth.py:24 | the stored email is the stripped input lower-cased character by character: no surrounding whitespace, no upper-case letter, and empty exactly when the input is all whitespace |
| Auth.NormaliseEmailIgnoresCase | routes/auth.py:24 | emails that differ only in case normalise to the same value |
| Auth.NormaliseEmailIdempotent | routes/auth.py:24 | normalising twice is normalising once |
| Auth.NewMember | routes/auth.py:34-53 | the new row has role `member`, the stripped name, the normalised email, the hash of the password, the creation time, and the uploaded bytes as its image exactly when a named file was uploaded |
| Auth.Register | routes/auth.py:20-57 | missing fields or a taken email insert nothing; otherwise exactly one member row is added; existing rows never change |
| Auth.DuplicateCheckIgnoresCase | routes/auth.py:41-44 | an email registered once blocks every later email that differs from it only in case |
| Auth.LoginDecision | routes/auth.py:95-129 | a session is written exactly for an existing non-admin account that is a librarian or passes the password check; admins are sent to the admin login; each failure has its own response |
| Auth.Login | routes/auth.py:74-129 | empty credentials are refused first; a refused attempt leaves the session as it was |
| Auth.Logout | routes/auth.py:139-142 | the session is empty |
| Admin.AdminLoginDecision | routes/admin.py:33-54 | a session is written exactly when the account exists, the password matches and the role is admin; the failures are reported in that order |
| Admin.LoginPathsDisjoint | routes/admin.py:33-51 | no account can be admitted by both login paths, and the member login never yields an admin session |
| Admin.AdminLoginHandler | routes/admin.py:11-54 | empty credentials are refused; otherwise the session changes only as the decision says |
| Admin.DashboardQuery | routes/admin.py:77-105 | an empty search lists all users; an id match is added exactly when the search is all digits, with the parsed id; the keyword is the lower-cased search |
| Admin.EmptySearchListsAll | routes/admin.py:104 | an empty search selects every user |
| Admin.IdSearchFindsUser | routes/admin.py:84-94 | searching for a user's id always finds that user |
| Admin.TextSearchIgnoresId | routes/admin.py:96-103 | a search that is not all digits never matches on the id |
| Admin.Dashboard | routes/admin.py:73-112 | non-admins are redirected and run no query; admins run the query for their search |
| Admin.UpdateRole | routes/admin.py:119-140 | a role outside {admin, member, librarian} changes nothing; a valid one changes only the target's role; other rows never change |
| Admin.DeleteUser | routes/admin.py:153-172 | an admin cannot delete their own account, which survives; otherwise exactly the target user is removed |
| Admin.AdminLogout | routes/admin.py:144-147 | the session is empty |
| Librarian.NewBook | routes/librarian.py:51-77 | the row is accepted exactly when every stripped field and a non-empty PDF are present and the year parses; missing fields are reported before a bad year; the row holds the stripped fields, the integer year, the PDF and the uploader |
| Librarian.NewBookYearRoundTrip | routes/librarian.py:64-68 | a year written as `str(n)` is accepted and stored as `n` |
| Librarian.AddBook | routes/librarian.py:46-88 | nothing is inserted unless the form is valid; a valid form adds exactly one row, uploaded by the session user; no existing row changes |
| Librarian.ViewBook | routes/librarian.py:95-122 | the PDF is streamed, named after the title, exactly when the book exists and has a PDF; otherwise "not found" |
| Librarian.DeleteBook | routes/librarian.py:129-143 | exactly the given row is removed |
| Librarian.NormaliseSearchFilter | routes/librarian.py:154-157 | the column is always one of title, author, university, department, and is the requested one when that is allowed |
| Librarian.BuildSearchQuery | routes/librarian.py:153-173 | the statement is one of five fixed texts and always ends in `ORDER BY title`; the LIKE clause and the `keyword` bind value are present exactly when the stripped keyword is non-empty |
| Librarian.Search | routes/librarian.py:149-180 | non-librarians run nothing; otherwise the statement is one of the fixed texts, with the LIKE clause on the normalised column exactly when the stripped keyword is non-empty, and then the only bind value is `%keyword.lower()%` |
| Librarian.Edited | routes/librarian.py:197-223 | the five fields are replaced, the PDF only by a non-empty upload, the uploader never |
| Librarian.EditedIdempotent | routes/librarian.py:212-223 | submitting the same edit twice gives the same row as once |
| Librarian.EditedKeepsPdf | routes/librarian.py:212-223 | a book with a PDF keeps one through any edit |
| Librarian.EditBook | routes/librarian.py:188-227 | a bad year changes nothing; otherwise only the target row changes, as `Edited` says |
| Librarian.EditBookPage | routes/librarian.py:236-259 | the edit page is shown exactly for a librarian and an existing book |
| Books.IndexWhere | routes/books.py:22-34 | a WHERE clause is added exactly for a recognised filter, on that filter's own column |
| Books.IndexOrder | routes/books.py:36-40 | ORDER BY is added exactly for one of the six allowed columns |
| Books.AppendWhere | routes/books.py:24-33 | the filter chain appends exactly the clause `IndexWhere` names |
| Books.BuildIndexQuery | routes/books.py:16-40 | the SELECT, then the WHERE clause only with a keyword, then the ORDER BY; one bind value `%keyword.lower()%` exactly when there is a keyword; no request text enters the statement |
| Books.RowDict | routes/books.py:46-53 | each dictionary has the six keys, taken from row positions 0-5 |
| Books.RowsToListings | routes/books.py:45-54 | one dictionary per row, in cursor order |
| Books.RowsToListingsAppend | routes/books.py:45-54 | listing two batches of rows is listing each in turn |
| Books.CatalogBook | routes/books.py:71-77 | the form text is stored as given, with no PDF and no uploader |
| Books.Add | routes/books.py:61-82 | a missing field is a bad request and inserts nothing; otherwise exactly one row is added |
| UserLibrary.CapitalizeLocal | routes/user_library.py:19-26 | `capitalize()` yields `"Local"` exactly for strings that lower-case to `"local"` |
| UserLibrary.SourceOf | routes/user_library.py:19-26 | a missing source is `"Local"`; the source is the argument capitalised (first character upper-cased, the rest lower-cased); the local table is chosen exactly for any spelling of "local" |
| UserLibrary.Lookup | routes/user_library.py:26-34 | the local table finds exactly its own rows and never fails; any other source asks the remote table |
| UserLibrary.Snapshot | routes/user_library.py:53-64 | the entry copies the fetched book, with the time and the source as stored |
| UserLibrary.AddToLibrary | routes/user_library.py:13-73 | without a session, or when the book is missing or the link fails, the ledger is unchanged; otherwise the snapshot is merged in under (user, book); only the ledger is written |
| UserLibrary.AddToLibraryIdempotent | routes/user_library.py:41-52 | once a save has stored the book, submitting it again leaves the ledger as it is, whatever the link answers then; when the link answers the same, the second request gets the same response and changes nothing |
| UserLibrary.DisplaySource | routes/user_library.py:106 | a NULL or empty source reads as `"Local"`, any other source as its capitalised text; the listed source reads "local" exactly when the stored one does or is missing |
| UserLibrary.Listing | routes/user_library.py:99-107 | the listing carries the row's id, title, author, university, department and year, and the displayed source |
| UserLibrary.Listings | routes/user_library.py:98-107 | one listing per row, in order |
| UserLibrary.Listed | routes/user_library.py:98-112 | each list holds only listings of its own locality |
| UserLibrary.ListedPartition | routes/user_library.py:98-112 | every row lands in exactly one of the two lists |
| UserLibrary.ListingIsLocal | routes/user_library.py:106-109 | a row is local exactly when its source is missing, empty or reads "local" |
| UserLibrary.SavedLocallyIffListedLocal | routes/user_library.py:106-109 | a book saved from a non-empty source is listed as local exactly when it came from the local table (line 26) |
| UserLibrary.EmptySourceListedLocal | routes/user_library.py:106 | a source submitted as `""` is looked up remotely, yet its entry is listed as local |
| UserLibrary.MyLibraryHandler | routes/user_library.py:79-117 | without a session nothing is listed; otherwise the user's rows are split into the local and remote lists, in order |
| UserLibrary.RemoveFromLibrary | routes/user_library.py:124-138 | without a session nothing changes; otherwise exactly the (user, book) entry is removed; only the ledger is written |
| UserLibrary.ViewPdf | routes/user_library.py:151-184 | the PDF is streamed as `book_<id>.pdf` exactly when the user is signed in and the entry exists with a PDF; otherwise the not-found or no-PDF response |
| UserLibrary.RemoteEntryListedRemote | routes/user_library.py:209 | every entry the remote listing re-reads is one the personal library lists as remote |
| UserLibrary.RemoteListing | routes/user_library.py:231-239 | a remote listing carries the id, and the title, author, university, department and year of the fetched book, and is tagged `"Remote"` |
| UserLibrary.FoundRemote | routes/user_library.py:216-239 | no more listings than rows, all tagged `"Remote"` |
| UserLibrary.FoundRemoteSound | routes/user_library.py:216-239 | only found books are listed: each listing is the fetched book of one of the saved rows whose lookup found it |
| UserLibrary.FailedLookups | routes/user_library.py:240-241 | each reported id is a saved entry whose lookup failed on the link |
| UserLibrary.FailedLookupsComplete | routes/user_library.py:240-241 | every saved entry whose lookup failed on the link is reported |
| UserLibrary.FoundRemoteComplete | routes/user_library.py:216-241 | every entry whose book the link finds is listed, whatever the other lookups do |
| UserLibrary.FoundRemoteIgnoresFailures | routes/user_library.py:216-241 | the listing depends only on which lookups find a book; failures elsewhere change nothing |
| UserLibrary.RemoteLibrary | routes/user_library.py:197-243 | without a session nothing is listed; otherwise it lists exactly the found remote entries and reports exactly the failed ones |

## Left out

- Connections, cursors, commit and rollback are left out. Each handler is one atomic change of the tables.
- Exceptions raised by the driver are left out: the rollback branches of `register`, `add_book` and `edit_book`, and the "Cannot fetch PDF" branch of `view_pdf`.
- The `edit_book` fall-through after a failed update is left out. That path reads with a cursor that was already closed.
- The exception is the database link: a link failure in `add_to_library` is a server error, and in `remote_library` it is a reported id.
- GET requests that only render a form are left out: `register`, `login`, `admin_login`, `add_book`, `books.add` and `saved`.
- `librarian.dashboard` is left out. It lists every book ordered by title, which is a plain read.
- The SQL engine is left out. Statements are modelled by their effect on the maps and, for the searches, by their text and bind values.
- Row order without ORDER BY is unspecified, and `Database.EntriesOf` may return any order.
- `Admin.Selects` gives the meaning of the dashboard search; the other searches are modelled by text only.
- `LIKE` is read as a plain substring test. A `%` or `_` inside the keyword is not modelled as a wildcard.
- Case mapping, `isdigit()` and `int()` are modelled on ASCII letters and digits only. Python's full Unicode case mapping and Unicode digits are not modelled.
- Admin.DashboardQuery: models the WHERE clause of the user list only; the order of the listed users (`ORDER BY name`, routes/admin.py:92, 101, 105) is not modelled.
- Admin.DashboardQuery: Python's `isdigit()` also holds for characters such as the superscript "²", which `int()` refuses. The dashboard search "²" therefore ends in a server error in the source, while the model, which counts only ASCII digits, runs a text search.
- Text.ParseInt: from Python 3.11, `int()` by default refuses a text of more than 4300 digits. The model accepts any length.
- Password hashing and checking are a function parameter and an uninterpreted predicate. `datetime.now()` is a timestamp parameter.
- The remote catalogue is a function from book id to lookup result, with no schema of its own.
- `Books.Add`: the year text is stored as given; the database converts it to a number, and a text that does not convert fails the insert. Neither is modelled.
- Empty title or author text is stored as the empty string rather than as NULL. Only the `source` column models Oracle's empty-string-as-NULL rule.
- Books.BuildIndexQuery: with a keyword and a missing or unrecognised filter, the statement has no `:keyword` placeholder, yet one bind value is still passed. The driver would most likely refuse that execute, and the request would end in a server error; the model stops at the statement text and bind list it hands over.
- Librarian.ViewBook: a title blanked through `edit_book` is stored as NULL, and the source then names the file `None.pdf`. The model names it `.pdf`.
- A zero-length PDF is stored by the database as NULL, so an empty PDF and no PDF are one case in `Librarian.ViewBook` and `UserLibrary.ViewPdf`.
- `routes/profile.py`, `routes/settings.py`, `app.py` and `connectionTest.py` are not part of this model. They are a duplicate LOB helper, a guarded render, a superseded copy of the catalogue and a connection test.
- Flash message wording and categories are reduced to the `Notice` values.
