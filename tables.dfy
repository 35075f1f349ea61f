/**
 * The three tables the route handlers read and write (`users`, `university_books`,
 * `user_library`) and the SQL statements they issue against them. Each table is a
 * map keyed by its primary key; the database itself is one object whose fields
 * the handlers change in place, one statement at a time.
 */
module Tables {
  import opened Wrappers

  newtype byte = b: int | 0 <= b < 256
  type Bytes = seq<byte>

  /** A creation or insertion time (`datetime.now()`); the handlers only store it. */
  type Timestamp = int

  const MemberRole := "member"
  const LibrarianRole := "librarian"
  const AdminRole := "admin"

  /** A row of `users`; `role` is whatever text the column holds. */
  datatype User = User(
    name: string,
    email: string,
    passwordHash: string,
    role: string,
    profileImage: Option<Bytes>,
    createdAt: Timestamp)

  /** A `users` row together with its `user_id`, as `SELECT user_id, ... FROM users` yields it. */
  datatype Account = Account(id: int, user: User)

  /**
   * The `year_published` value an insert binds: the librarian form binds the integer
   * it parsed, the catalog form binds the raw text and leaves conversion to the database.
   */
  datatype Year = YearNumber(n: int) | YearText(text: string)

  /** A row of `university_books` (local, or over the remote database link). */
  datatype Book = Book(
    title: string,
    author: string,
    university: string,
    department: string,
    year: Year,
    pdf: Option<Bytes>,
    uploadedBy: Option<int>)

  /** The primary key of `user_library`: one saved entry per (user, book). */
  datatype LedgerKey = LedgerKey(user: int, book: int)

  /** A row of `user_library`: a snapshot of the book taken when it was saved. */
  datatype Entry = Entry(
    title: string,
    author: string,
    university: string,
    department: string,
    year: Year,
    pdf: Option<Bytes>,
    addedAt: Timestamp,
    source: Option<string>)

  /** One `user_library` row of a given user, as `SELECT book_id, ... WHERE user_id = :1` yields it. */
  datatype LedgerRow = LedgerRow(bookId: int, entry: Entry)

  /** The outcome of `SELECT ... FROM university_books@remote_uni WHERE book_id = :1`. */
  datatype RemoteLookup = Found(book: Book) | NotFound | LinkFailure

  /** The remote table behind the database link, seen only through single-row lookups. */
  type RemoteTable = int -> RemoteLookup

  /** The value Oracle stores for a bound string: the empty string is stored as NULL. */
  function SqlText(s: string): (v: Option<string>)
    ensures v.None? <==> s == ""
    ensures v.Some? ==> v.value == s
  {
    if s == "" then None else Some(s)
  }

  /** `UPDATE <table> SET ... WHERE <key> = :id`: only the row with that key changes; a missing key matches nothing. */
  function UpdateRow<K, V>(table: map<K, V>, id: K, change: V -> V): (r: map<K, V>)
    ensures r.Keys == table.Keys
    ensures forall k :: k in table && k != id ==> r[k] == table[k]
    ensures id in table ==> r[id] == change(table[id])
  {
    if id in table then table[id := change(table[id])] else table
  }

  /** `MERGE INTO user_library ... WHEN NOT MATCHED THEN INSERT`: insert the entry only when the key is absent. */
  function MergeEntry(ledger: map<LedgerKey, Entry>, key: LedgerKey, e: Entry): (r: map<LedgerKey, Entry>)
    ensures r.Keys == ledger.Keys + {key}
    ensures forall k :: k in ledger ==> r[k] == ledger[k]
    ensures key !in ledger ==> r[key] == e
  {
    if key in ledger then ledger else ledger[key := e]
  }

  /** Saving the same (user, book) twice leaves one entry, the first snapshot, whatever the second one holds. */
  lemma MergeIdempotent(ledger: map<LedgerKey, Entry>, key: LedgerKey, first: Entry, second: Entry)
    ensures MergeEntry(MergeEntry(ledger, key, first), key, second) == MergeEntry(ledger, key, first)
  {
  }

  /** A merge adds exactly one entry when the key is new and none otherwise. */
  lemma MergeSize(ledger: map<LedgerKey, Entry>, key: LedgerKey, e: Entry)
    ensures |MergeEntry(ledger, key, e)| == if key in ledger then |ledger| else |ledger| + 1
  {
    if key !in ledger {
      assert MergeEntry(ledger, key, e).Keys == ledger.Keys + {key};
    }
  }

  /** Some user row holds exactly this email. */
  predicate EmailTaken(users: map<int, User>, email: string) {
    exists id :: id in users && users[id].email == email
  }

  /** `found` is what `cursor.fetchone()` may return after `SELECT ... FROM users WHERE email=:1`. */
  ghost predicate FetchedByEmail(users: map<int, User>, email: string, found: Option<Account>) {
    && (found.None? <==> !EmailTaken(users, email))
    && (found.Some? ==> found.value.id in users && users[found.value.id] == found.value.user && found.value.user.email == email)
  }

  /**
   * `rows` is what `SELECT ... FROM user_library WHERE user_id = :user AND <sel>` fetches:
   * every selected entry of that user once, in no particular order.
   */
  ghost predicate LedgerRows(ledger: map<LedgerKey, Entry>, user: int, sel: Entry -> bool, rows: seq<LedgerRow>) {
    && (forall i :: 0 <= i < |rows| ==>
          LedgerKey(user, rows[i].bookId) in ledger && ledger[LedgerKey(user, rows[i].bookId)] == rows[i].entry && sel(rows[i].entry))
    && (forall i, j :: 0 <= i < j < |rows| ==> rows[i].bookId != rows[j].bookId)
    && (forall k :: k in ledger && k.user == user && sel(ledger[k]) ==> exists i :: 0 <= i < |rows| && rows[i].bookId == k.book)
  }

  class Database {
    var users: map<int, User>
    var books: map<int, Book>
    var library: map<LedgerKey, Entry>
    /** The next values of the identity columns `users.user_id` and `university_books.book_id`. */
    var nextUserId: int
    var nextBookId: int

    ghost predicate Valid()
      reads this`users, this`books, this`nextUserId, this`nextBookId
    {
      && (forall id :: id in users ==> id < nextUserId)
      && (forall id :: id in books ==> id < nextBookId)
    }

    constructor ()
      ensures Valid()
      ensures users == map[] && books == map[] && library == map[]
    {
      users, books, library := map[], map[], map[];
      nextUserId, nextBookId := 1, 1;
    }

    /** `SELECT user_id, name, email, password_hash, role FROM users WHERE email=:1` then `fetchone()`. */
    method FindUserByEmail(email: string) returns (found: Option<Account>)
      ensures FetchedByEmail(users, email, found)
    {
      if EmailTaken(users, email) {
        var id :| id in users && users[id].email == email;
        found := Some(Account(id, users[id]));
      } else {
        found := None;
      }
    }

    /** `INSERT INTO users ...`: the new row gets the next identity value. */
    method InsertUser(u: User) returns (id: int)
      requires Valid()
      modifies this`users, this`nextUserId
      ensures books == old(books) && library == old(library)
      ensures Valid()
      ensures id == old(nextUserId) && id !in old(users)
      ensures users == old(users)[id := u]
    {
      id := nextUserId;
      users := users[id := u];
      nextUserId := nextUserId + 1;
    }

    /** `UPDATE users SET role=:1 WHERE user_id=:2`. */
    method UpdateRole(id: int, role: string)
      requires Valid()
      modifies this`users
      ensures books == old(books) && library == old(library)
      ensures Valid()
      ensures users.Keys == old(users).Keys
      ensures forall k :: k in old(users) ==> users[k] == if k == id then old(users)[k].(role := role) else old(users)[k]
    {
      users := UpdateRow(users, id, (u: User) => u.(role := role));
    }

    /** `DELETE FROM users WHERE user_id=:1`. */
    method DeleteUser(id: int)
      requires Valid()
      modifies this`users
      ensures books == old(books) && library == old(library)
      ensures Valid()
      ensures users == old(users) - {id}
    {
      users := users - {id};
    }

    /** `INSERT INTO university_books ...`: the new row gets the next identity value. */
    method InsertBook(b: Book) returns (id: int)
      requires Valid()
      modifies this`books, this`nextBookId
      ensures users == old(users) && library == old(library)
      ensures Valid()
      ensures id == old(nextBookId) && id !in old(books)
      ensures books == old(books)[id := b]
    {
      id := nextBookId;
      books := books[id := b];
      nextBookId := nextBookId + 1;
    }

    /** `UPDATE university_books SET ... WHERE book_id=:id`. */
    method UpdateBook(id: int, change: Book -> Book)
      requires Valid()
      modifies this`books
      ensures users == old(users) && library == old(library)
      ensures Valid()
      ensures books == UpdateRow(old(books), id, change)
    {
      books := UpdateRow(books, id, change);
    }

    /** `DELETE FROM university_books WHERE book_id=:1`. */
    method DeleteBook(id: int)
      requires Valid()
      modifies this`books
      ensures users == old(users) && library == old(library)
      ensures Valid()
      ensures books == old(books) - {id}
    {
      books := books - {id};
    }

    /** The `MERGE INTO user_library` statement. */
    method Merge(key: LedgerKey, e: Entry)
      modifies this`library
      ensures users == old(users) && books == old(books)
      ensures library == MergeEntry(old(library), key, e)
    {
      library := MergeEntry(library, key, e);
    }

    /** `DELETE FROM user_library WHERE user_id = :1 AND book_id = :2`. */
    method DeleteEntry(key: LedgerKey)
      modifies this`library
      ensures users == old(users) && books == old(books)
      ensures library == old(library) - {key}
    {
      library := library - {key};
    }

    /** The rows of one user's ledger that satisfy `sel`, in whatever order the cursor yields them. */
    method EntriesOf(user: int, sel: Entry -> bool) returns (rows: seq<LedgerRow>)
      ensures LedgerRows(library, user, sel, rows)
    {
      var todo := set k | k in library && k.user == user && sel(library[k]);
      rows := [];
      while todo != {}
        invariant todo <= library.Keys
        invariant forall k :: k in todo ==> k.user == user && sel(library[k])
        invariant forall i :: 0 <= i < |rows| ==>
          && LedgerKey(user, rows[i].bookId) in library
          && library[LedgerKey(user, rows[i].bookId)] == rows[i].entry
          && sel(rows[i].entry)
          && LedgerKey(user, rows[i].bookId) !in todo
        invariant forall i, j :: 0 <= i < j < |rows| ==> rows[i].bookId != rows[j].bookId
        invariant forall k :: k in library && k.user == user && sel(library[k]) ==>
          k in todo || exists i :: 0 <= i < |rows| && rows[i].bookId == k.book
        decreases |todo|
      {
        var k :| k in todo;
        assert k == LedgerKey(user, k.book);
        ghost var before := rows;
        rows := rows + [LedgerRow(k.book, library[k])];
        todo := todo - {k};
        forall k' | k' in library && k'.user == user && sel(library[k']) && k' !in todo
          ensures exists i :: 0 <= i < |rows| && rows[i].bookId == k'.book
        {
          if k' == k {
            assert rows[|rows| - 1].bookId == k'.book;
          } else {
            var i :| 0 <= i < |before| && before[i].bookId == k'.book;
            assert rows[i] == before[i];
          }
        }
      }
    }
  }
}
