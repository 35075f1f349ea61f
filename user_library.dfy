/**
 * The personal library (routes/user_library.py): saving a book from the local catalogue
 * or from the remote one behind the database link, listing the saved books split into
 * local and remote, removing one, streaming a saved PDF, and re-reading remote entries
 * from the remote catalogue one by one.
 */
module UserLibrary {
  import opened Wrappers
  import opened Text
  import opened Tables
  import opened Web

  const LocalSource := "Local"

  lemma LowerLocal()
    ensures Lower(LocalSource) == "local"
  {
    assert forall i :: 0 <= i < 5 ==> Lower(LocalSource)[i] == "local"[i];
  }

  /** `capitalize()` yields `"Local"` exactly for the strings that lower-case to `"local"`. */
  lemma CapitalizeLocal(x: string)
    ensures Capitalize(x) == LocalSource <==> Lower(x) == "local"
  {
    LowerCapitalize(x);
    LowerLocal();
    if Lower(x) == "local" {
      var c := Capitalize(x);
      assert LowerChar(x[0]) == 'l';
      assert c[0] == 'L';
      forall i | 1 <= i < 5 ensures c[i] == LocalSource[i] {
        assert c[i] == Lower(x[1..])[i - 1] == LowerChar(x[i]) == Lower(x)[i];
      }
    }
  }

  /** `request.form.get("source", "Local").capitalize()`: the local table is used exactly for any spelling of "local". */
  function SourceOf(arg: Option<string>): (s: string)
    ensures arg.None? ==> s == LocalSource
    // Python's capitalize: the first character upper-cased, the rest lower-cased
    ensures var x := arg.GetOr(LocalSource); |s| == |x| && (s != [] ==> s[0] == UpperChar(x[0]) && s[1..] == Lower(x[1..]))
    ensures s == LocalSource <==> Lower(arg.GetOr(LocalSource)) == "local"
    ensures Lower(s) == Lower(arg.GetOr(LocalSource))
  {
    var x := arg.GetOr(LocalSource);
    CapitalizeLocal(x);
    LowerCapitalize(x);
    Capitalize(x)
  }

  /** `SELECT ... FROM <table> WHERE book_id = :1` on the table the source names; only the link can fail. */
  function Lookup(books: map<int, Book>, remote: RemoteTable, source: string, id: int): (r: RemoteLookup)
    ensures source == LocalSource ==> !r.LinkFailure? && (r.Found? <==> id in books) && (r.Found? ==> r.book == books[id])
    ensures source != LocalSource ==> r == remote(id)
  {
    if source == LocalSource then (if id in books then Found(books[id]) else NotFound)
    else remote(id)
  }

  /** The entry the merge inserts: a copy of the fetched book, the time, and the source as the database stores it. */
  function Snapshot(b: Book, source: string, now: Timestamp): (e: Entry)
    ensures e.title == b.title && e.author == b.author && e.university == b.university
    ensures e.department == b.department && e.year == b.year && e.pdf == b.pdf
    ensures e.addedAt == now && e.source == SqlText(source)
  {
    Entry(b.title, b.author, b.university, b.department, b.year, b.pdf, now, SqlText(source))
  }

  /**
   * `add_to_library` (POST). An error on the database link is not caught and ends the request
   * with a server error; a book missing from the chosen table leaves the ledger as it was.
   */
  method AddToLibrary(db: Database, session: Session, bookId: int, sourceArg: Option<string>,
                      remote: RemoteTable, now: Timestamp) returns (out: Outcome)
    modifies db`library
    ensures db.users == old(db.users) && db.books == old(db.books)
    ensures old(db.Valid()) ==> db.Valid()
    ensures session.user.None? ==> out == Redirect(AuthLogin, LoginFirst) && db.library == old(db.library)
    ensures session.user.Some? ==>
      var source := SourceOf(sourceArg);
      match Lookup(db.books, remote, source, bookId)
      case LinkFailure => out == ServerError && db.library == old(db.library)
      case NotFound => out == Redirect(BooksIndex, NotInSourceDatabase(source)) && db.library == old(db.library)
      case Found(b) =>
        && out == Redirect(BooksIndex, AddedToLibrary(source))
        && db.library == MergeEntry(old(db.library), LedgerKey(session.user.value.userId, bookId), Snapshot(b, source, now))
  {
    if session.user.None? {
      return Redirect(AuthLogin, LoginFirst);
    }
    var userId := session.user.value.userId;
    var source := SourceOf(sourceArg);
    var book := Lookup(db.books, remote, source, bookId);
    match book
    case LinkFailure =>
      out := ServerError;
    case NotFound =>
      out := Redirect(BooksIndex, NotInSourceDatabase(source));
    case Found(b) =>
      db.Merge(LedgerKey(userId, bookId), Snapshot(b, source, now));
      out := Redirect(BooksIndex, AddedToLibrary(source));
  }

  /**
   * Submitting the same save twice, even at a later time. Once the first request has saved
   * the book, the second leaves the ledger as it is whatever the link answers then; when the
   * link answers the same both times, the second gets the same response and changes nothing.
   */
  method AddToLibraryIdempotent(db: Database, session: Session, bookId: int, sourceArg: Option<string>,
                                remote: RemoteTable, remote2: RemoteTable, now: Timestamp, later: Timestamp)
    returns (first: Outcome, second: Outcome, ghost afterFirst: map<LedgerKey, Entry>)
    modifies db`library
    ensures remote2 == remote ==> second == first && db.library == afterFirst
    ensures session.user.Some? && Lookup(db.books, remote, SourceOf(sourceArg), bookId).Found? ==>
      db.library == afterFirst
    ensures session.user.Some? && Lookup(db.books, remote, SourceOf(sourceArg), bookId).Found? ==>
      afterFirst == MergeEntry(old(db.library), LedgerKey(session.user.value.userId, bookId),
                               Snapshot(Lookup(db.books, remote, SourceOf(sourceArg), bookId).book, SourceOf(sourceArg), now))
    ensures !(session.user.Some? && Lookup(db.books, remote, SourceOf(sourceArg), bookId).Found?) ==>
      afterFirst == old(db.library)
  {
    first := AddToLibrary(db, session, bookId, sourceArg, remote, now);
    afterFirst := db.library;
    second := AddToLibrary(db, session, bookId, sourceArg, remote2, later);
  }

  /** A saved book as `my_library` lists it. */
  datatype SavedListing = SavedListing(
    bookId: int,
    title: string,
    author: string,
    university: string,
    department: string,
    year: Year,
    source: string)

  /** `(row[6] or "Local").capitalize()`: a NULL or empty source reads as `"Local"`. */
  function DisplaySource(source: Option<string>): (s: string)
    ensures source.None? || source.value == "" ==> s == LocalSource
    ensures source.Some? && source.value != "" ==> s == Capitalize(source.value)
    ensures Lower(s) == "local" <==> source.None? || source.value == "" || Lower(source.value) == "local"
  {
    var x := if source.None? || source.value == "" then LocalSource else source.value;
    LowerCapitalize(x);
    LowerLocal();
    Capitalize(x)
  }

  predicate IsLocalListing(l: SavedListing) {
    Lower(l.source) == "local"
  }

  function Listing(row: LedgerRow): (l: SavedListing)
    ensures l.bookId == row.bookId && l.title == row.entry.title && l.author == row.entry.author
    ensures l.university == row.entry.university && l.department == row.entry.department && l.year == row.entry.year
    ensures l.source == DisplaySource(row.entry.source)
  {
    var e := row.entry;
    SavedListing(row.bookId, e.title, e.author, e.university, e.department, e.year, DisplaySource(e.source))
  }

  /** All rows as listings, in order. */
  function Listings(rows: seq<LedgerRow>): (r: seq<SavedListing>)
    ensures |r| == |rows|
    ensures forall i :: 0 <= i < |rows| ==> r[i] == Listing(rows[i])
  {
    if rows == [] then [] else Listings(rows[..|rows| - 1]) + [Listing(rows[|rows| - 1])]
  }

  /** The listings whose locality is `local`, in the order of the rows. */
  function Listed(rows: seq<LedgerRow>, local: bool): (r: seq<SavedListing>)
    ensures |r| <= |rows|
    ensures forall i :: 0 <= i < |r| ==> IsLocalListing(r[i]) == local
  {
    if rows == [] then []
    else
      var l := Listing(rows[|rows| - 1]);
      Listed(rows[..|rows| - 1], local) + (if IsLocalListing(l) == local then [l] else [])
  }

  /** Every row lands in exactly one of the two lists: together they hold each listing once. */
  lemma {:induction false} ListedPartition(rows: seq<LedgerRow>)
    ensures multiset(Listed(rows, true)) + multiset(Listed(rows, false)) == multiset(Listings(rows))
    ensures |Listed(rows, true)| + |Listed(rows, false)| == |rows|
  {
    if rows != [] {
      var init := rows[..|rows| - 1];
      ListedPartition(init);
      var l := Listing(rows[|rows| - 1]);
      assert Listings(rows) == Listings(init) + [l];
      var local := IsLocalListing(l);
      assert Listed(rows, true) == Listed(init, true) + (if local then [l] else []);
      assert Listed(rows, false) == Listed(init, false) + (if local then [] else [l]);
      PartitionStep(Listed(init, true), Listed(init, false), Listings(init), l, local);
    }
  }

  /** Adding one listing to the one side it belongs to keeps the two sides a partition. */
  lemma PartitionStep(yes: seq<SavedListing>, no: seq<SavedListing>, all: seq<SavedListing>, l: SavedListing, b: bool)
    requires multiset(yes) + multiset(no) == multiset(all)
    ensures multiset(yes + (if b then [l] else [])) + multiset(no + (if b then [] else [l])) == multiset(all + [l])
  {
  }

  /** A row is listed under the local books exactly when its source is missing, empty, or reads "local". */
  lemma ListingIsLocal(row: LedgerRow)
    ensures IsLocalListing(Listing(row)) <==>
      row.entry.source.None? || row.entry.source.value == "" || Lower(row.entry.source.value) == "local"
  {
  }

  /**
   * A book saved from a non-empty source is listed as local exactly when it was fetched
   * from the local table.
   */
  lemma SavedLocallyIffListedLocal(id: int, b: Book, sourceArg: Option<string>, now: Timestamp)
    requires SourceOf(sourceArg) != ""
    ensures IsLocalListing(Listing(LedgerRow(id, Snapshot(b, SourceOf(sourceArg), now)))) <==> SourceOf(sourceArg) == LocalSource
  {
    var s := SourceOf(sourceArg);
    LowerCapitalize(s);
  }

  /**
   * A source submitted as the empty string is looked up in the remote table, yet the entry
   * it saves is listed among the local books: the database stores the empty source as NULL.
   */
  lemma EmptySourceListedLocal(id: int, b: Book, now: Timestamp)
    ensures SourceOf(Some("")) != LocalSource
    ensures IsLocalListing(Listing(LedgerRow(id, Snapshot(b, SourceOf(Some("")), now))))
  {
  }

  function AnyEntry(e: Entry): bool {
    true
  }

  /** `my_library`: every saved row of the session's user, split into local and remote lists. */
  method MyLibraryHandler(db: Database, session: Session)
    returns (out: Outcome, ghost rows: seq<LedgerRow>, local: seq<SavedListing>, remote: seq<SavedListing>)
    ensures session.user.None? ==> out == Redirect(AuthLogin, LoginFirst) && local == [] && remote == []
    ensures session.user.Some? ==>
      && out == Render(SavedPage, NoNotice)
      && LedgerRows(db.library, session.user.value.userId, AnyEntry, rows)
      && local == Listed(rows, true) && remote == Listed(rows, false)
  {
    rows, local, remote := [], [], [];
    if session.user.None? {
      return Redirect(AuthLogin, LoginFirst), rows, local, remote;
    }
    var fetched := db.EntriesOf(session.user.value.userId, AnyEntry);
    rows := fetched;
    for i := 0 to |fetched|
      invariant local == Listed(fetched[..i], true) && remote == Listed(fetched[..i], false)
    {
      assert fetched[..i + 1][..i] == fetched[..i];
      var l := Listing(fetched[i]);
      if Lower(l.source) == "local" {
        local := local + [l];
      } else {
        remote := remote + [l];
      }
    }
    assert fetched[..|fetched|] == fetched;
    out := Render(SavedPage, NoNotice);
  }

  /** `remove_from_library` (POST): deletes only that (user, book) entry, and nothing when there is none. */
  method RemoveFromLibrary(db: Database, session: Session, bookId: int) returns (out: Outcome)
    modifies db`library
    ensures db.users == old(db.users) && db.books == old(db.books)
    ensures old(db.Valid()) ==> db.Valid()
    ensures session.user.None? ==> out == Redirect(AuthLogin, LoginFirst) && db.library == old(db.library)
    ensures session.user.Some? ==>
      && out == Redirect(MyLibrary, RemovedFromLibrary)
      && db.library == old(db.library) - {LedgerKey(session.user.value.userId, bookId)}
  {
    if session.user.None? {
      return Redirect(AuthLogin, LoginFirst);
    }
    db.DeleteEntry(LedgerKey(session.user.value.userId, bookId));
    out := Redirect(MyLibrary, RemovedFromLibrary);
  }

  /** `not session.get("user_id")`: no user, or the falsy id 0. */
  predicate SignedOut(session: Option<SessionUser>) {
    session.None? || session.value.userId == 0
  }

  /** `view_pdf`: the saved snapshot's PDF, streamed as `book_<id>.pdf`, only when the entry exists and holds one. */
  function ViewPdf(session: Option<SessionUser>, library: map<LedgerKey, Entry>, bookId: int): (out: Outcome)
    ensures SignedOut(session) ==> out == Redirect(AuthLogin, LoginFirst)
    ensures out.SendFile? <==>
      !SignedOut(session) && LedgerKey(session.value.userId, bookId) in library
      && HasBytes(library[LedgerKey(session.value.userId, bookId)].pdf)
    ensures out.SendFile? ==>
      out == SendFile(library[LedgerKey(session.value.userId, bookId)].pdf.value, "book_" + IntToString(bookId) + ".pdf", PdfMimetype)
    ensures !SignedOut(session) && LedgerKey(session.value.userId, bookId) !in library ==>
      out == Redirect(MyLibrary, NotInYourLibrary)
    ensures (!SignedOut(session) && LedgerKey(session.value.userId, bookId) in library
             && !HasBytes(library[LedgerKey(session.value.userId, bookId)].pdf)) ==>
      out == Redirect(MyLibrary, NoPdfAvailable)
  {
    if SignedOut(session) then Redirect(AuthLogin, LoginFirst)
    else
      var key := LedgerKey(session.value.userId, bookId);
      if key !in library then Redirect(MyLibrary, NotInYourLibrary)
      else if !HasBytes(library[key].pdf) then Redirect(MyLibrary, NoPdfAvailable)
      else SendFile(library[key].pdf.value, "book_" + IntToString(bookId) + ".pdf", PdfMimetype)
  }

  /** `UPPER(source) = 'REMOTE'`; a NULL source never matches. */
  predicate IsRemoteEntry(e: Entry) {
    e.source.Some? && Upper(e.source.value) == "REMOTE"
  }

  /** An entry `remote_library` re-reads is one `my_library` lists among the remote books. */
  lemma RemoteEntryListedRemote(row: LedgerRow)
    requires IsRemoteEntry(row.entry)
    ensures !IsLocalListing(Listing(row))
  {
    UpperRemoteIffLowerRemote(row.entry.source.value);
    assert Lower(row.entry.source.value) != "local" by {
      assert Lower(row.entry.source.value)[0] == 'r';
    }
  }

  /** A book fetched over the link, as `remote_library` lists it: always tagged "Remote". */
  function RemoteListing(id: int, b: Book): (l: SavedListing)
    ensures l.bookId == id && l.title == b.title && l.author == b.author
    ensures l.university == b.university && l.department == b.department && l.year == b.year
    ensures l.source == "Remote"
  {
    SavedListing(id, b.title, b.author, b.university, b.department, b.year, "Remote")
  }

  /** The listings of the rows whose remote lookup found a book, in the order of the rows. */
  function FoundRemote(rows: seq<LedgerRow>, remote: RemoteTable): (r: seq<SavedListing>)
    ensures |r| <= |rows|
    ensures forall i :: 0 <= i < |r| ==> r[i].source == "Remote"
  {
    if rows == [] then []
    else
      var id := rows[|rows| - 1].bookId;
      FoundRemote(rows[..|rows| - 1], remote) + (if remote(id).Found? then [RemoteListing(id, remote(id).book)] else [])
  }

  /** Only books the link found are listed: each listing is the found book of one of the saved rows. */
  lemma {:induction false} FoundRemoteSound(rows: seq<LedgerRow>, remote: RemoteTable, i: int)
    requires 0 <= i < |FoundRemote(rows, remote)|
    ensures exists j :: (0 <= j < |rows| && remote(rows[j].bookId).Found? &&
      FoundRemote(rows, remote)[i] == RemoteListing(rows[j].bookId, remote(rows[j].bookId).book))
  {
    var init := rows[..|rows| - 1];
    var prev := FoundRemote(init, remote);
    var last := |rows| - 1;
    if i < |prev| {
      FoundRemoteSound(init, remote, i);
      var j :| 0 <= j < |init| && remote(init[j].bookId).Found? &&
        prev[i] == RemoteListing(init[j].bookId, remote(init[j].bookId).book);
      assert init[j] == rows[j];
    } else {
      assert remote(rows[last].bookId).Found? &&
        FoundRemote(rows, remote)[i] == RemoteListing(rows[last].bookId, remote(rows[last].bookId).book);
    }
  }

  /** The ids whose lookup failed on the link, each reported by its own notice. */
  function FailedLookups(rows: seq<LedgerRow>, remote: RemoteTable): (r: seq<int>)
    ensures |r| <= |rows|
    ensures forall i :: 0 <= i < |r| ==> exists j :: 0 <= j < |rows| && rows[j].bookId == r[i] && remote(r[i]).LinkFailure?
  {
    if rows == [] then []
    else
      var id := rows[|rows| - 1].bookId;
      var prev := FailedLookups(rows[..|rows| - 1], remote);
      assert forall i :: 0 <= i < |prev| ==> exists j :: 0 <= j < |rows| - 1 && rows[j].bookId == prev[i] && remote(prev[i]).LinkFailure?;
      prev + (if remote(id).LinkFailure? then [id] else [])
  }

  /** Every row whose lookup fails on the link is reported. */
  lemma {:induction false} FailedLookupsComplete(rows: seq<LedgerRow>, remote: RemoteTable, i: int)
    requires 0 <= i < |rows| && remote(rows[i].bookId).LinkFailure?
    ensures rows[i].bookId in FailedLookups(rows, remote)
  {
    if i < |rows| - 1 {
      FailedLookupsComplete(rows[..|rows| - 1], remote, i);
    }
  }

  /** Every row whose book the link finds is listed, whatever happens to the lookups of the other rows. */
  lemma {:induction false} FoundRemoteComplete(rows: seq<LedgerRow>, remote: RemoteTable, i: int)
    requires 0 <= i < |rows| && remote(rows[i].bookId).Found?
    ensures RemoteListing(rows[i].bookId, remote(rows[i].bookId).book) in FoundRemote(rows, remote)
  {
    if i < |rows| - 1 {
      FoundRemoteComplete(rows[..|rows| - 1], remote, i);
    }
  }

  /**
   * The listing depends only on which lookups find a book: turning a "not found" into a
   * link failure, or the other way round, changes nothing in it.
   */
  lemma {:induction false} FoundRemoteIgnoresFailures(rows: seq<LedgerRow>, remote1: RemoteTable, remote2: RemoteTable)
    requires forall i :: 0 <= i < |rows| ==>
      (remote1(rows[i].bookId).Found? <==> remote2(rows[i].bookId).Found?) &&
      (remote1(rows[i].bookId).Found? ==> remote1(rows[i].bookId) == remote2(rows[i].bookId))
    ensures FoundRemote(rows, remote1) == FoundRemote(rows, remote2)
  {
    if rows != [] {
      var init := rows[..|rows| - 1];
      assert forall i :: 0 <= i < |init| ==> init[i] == rows[i];
      FoundRemoteIgnoresFailures(init, remote1, remote2);
    }
  }

  /**
   * `remote_library`: each saved remote entry of the user is looked up over the link; found
   * books are listed, a failed lookup is reported and the loop moves on.
   */
  method RemoteLibrary(db: Database, session: Session, remote: RemoteTable)
    returns (out: Outcome, ghost rows: seq<LedgerRow>, books: seq<SavedListing>, failed: seq<int>)
    ensures session.user.None? ==> out == Redirect(AuthLogin, LoginFirst) && books == [] && failed == []
    ensures session.user.Some? ==>
      && out == Render(RemoteSavedPage, NoNotice)
      && LedgerRows(db.library, session.user.value.userId, IsRemoteEntry, rows)
      && books == FoundRemote(rows, remote) && failed == FailedLookups(rows, remote)
  {
    rows, books, failed := [], [], [];
    if session.user.None? {
      return Redirect(AuthLogin, LoginFirst), rows, books, failed;
    }
    var entries := db.EntriesOf(session.user.value.userId, IsRemoteEntry);
    rows := entries;
    for i := 0 to |entries|
      invariant books == FoundRemote(entries[..i], remote) && failed == FailedLookups(entries[..i], remote)
    {
      assert entries[..i + 1][..i] == entries[..i];
      var id := entries[i].bookId;
      match remote(id)
      case Found(b) =>
        books := books + [RemoteListing(id, b)];
      case NotFound =>
      case LinkFailure =>
        failed := failed + [id];
    }
    assert entries[..|entries|] == entries;
    out := Render(RemoteSavedPage, NoNotice);
  }
}
