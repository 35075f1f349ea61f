/**
 * The public catalogue (routes/books.py): the statement `index` assembles from the
 * filter, keyword and sort arguments, the dictionaries it builds from the fetched rows,
 * and `add`, which inserts a book from a form without any checks.
 */
module Books {
  import opened Wrappers
  import opened Text
  import opened Tables
  import opened Web

  const IndexBase := "\n        SELECT book_id, title, author, university, department, year_published\n        FROM university_books\n    "

  /** The filters `index` recognises. */
  const IndexFilters: set<string> := {"university", "author", "title", "department", "year_published"}

  /** `allowed_sort`. */
  const SortColumns: set<string> := {"book_id", "title", "author", "university", "department", "year_published"}

  /** `if keyword:` for `request.args.get("keyword")`: present and non-empty. */
  predicate HasKeyword(keyword: Option<string>) {
    keyword.Some? && keyword.value != ""
  }

  /** The comparison each recognised filter adds: a text column lower-cased, or the year rendered as text. */
  function WhereFor(column: string): string {
    if column == "university" || column == "author" || column == "title" || column == "department" then
      " WHERE LOWER(" + column + ") LIKE :keyword"
    else if column == "year_published" then " WHERE TO_CHAR(year_published) LIKE :keyword"
    else ""
  }

  /** The WHERE clause a keyword search adds for a filter: none for a filter that is missing or not recognised. */
  function IndexWhere(filter: Option<string>): (w: string)
    ensures w == "" <==> !(filter.Some? && filter.value in IndexFilters)
    ensures w != "" ==> w == WhereFor(filter.value)
  {
    if filter.Some? && filter.value in IndexFilters then WhereFor(filter.value) else ""
  }

  /** The ORDER BY clause for a sort argument: present only for an allowed column. */
  function IndexOrder(sort: Option<string>): (o: string)
    ensures o == "" <==> !(sort.Some? && sort.value in SortColumns)
    ensures o != "" ==> o == " ORDER BY " + sort.value
  {
    if sort.Some? && sort.value != "" && sort.value in SortColumns then " ORDER BY " + sort.value else ""
  }

  /**
   * Every statement `index` can send: the fixed SELECT, a WHERE clause naming a recognised
   * filter column or none, then an ORDER BY clause naming an allowed column or none.
   */
  ghost predicate IsIndexText(q: string) {
    exists w, o ::
      && (w == "" || exists c :: c in IndexFilters && w == WhereFor(c))
      && (o == "" || exists c :: c in SortColumns && o == " ORDER BY " + c)
      && q == IndexBase + w + o
  }

  // The clause the `index` chain spells out for each text column is the closed form `WhereFor` gives.

  lemma UniversityClause()
    ensures WhereFor("university") == " WHERE LOWER(university) LIKE :keyword"
  {
  }

  lemma AuthorClause()
    ensures WhereFor("author") == " WHERE LOWER(author) LIKE :keyword"
  {
  }

  lemma TitleClause()
    ensures WhereFor("title") == " WHERE LOWER(title) LIKE :keyword"
  {
  }

  lemma DepartmentClause()
    ensures WhereFor("department") == " WHERE LOWER(department) LIKE :keyword"
  {
  }

  /** The `if`/`elif` chain of `index` that appends the WHERE clause for a filter. */
  method AppendWhere(query: string, filter: Option<string>) returns (q: string)
    ensures q == query + IndexWhere(filter)
  {
    q := query;
    if filter == Some("university") {
      UniversityClause();
      q := q + " WHERE LOWER(university) LIKE :keyword";
    } else if filter == Some("author") {
      AuthorClause();
      q := q + " WHERE LOWER(author) LIKE :keyword";
    } else if filter == Some("title") {
      TitleClause();
      q := q + " WHERE LOWER(title) LIKE :keyword";
    } else if filter == Some("department") {
      DepartmentClause();
      q := q + " WHERE LOWER(department) LIKE :keyword";
    } else if filter == Some("year_published") {
      q := q + " WHERE TO_CHAR(year_published) LIKE :keyword";
    }
  }

  /**
   * `index`'s assembly of `query` and `params`. The statement is the fixed SELECT, then the
   * WHERE clause (only with a keyword), then the ORDER BY clause; the keyword reaches the
   * database only as the single bind value.
   */
  method BuildIndexQuery(filter: Option<string>, keyword: Option<string>, sort: Option<string>)
    returns (query: string, params: seq<string>)
    ensures query == IndexBase + (if HasKeyword(keyword) then IndexWhere(filter) else "") + IndexOrder(sort)
    ensures params == if HasKeyword(keyword) then [LikePattern(keyword.value)] else []
    ensures IsIndexText(query)
  {
    query := IndexBase;
    params := [];
    if keyword.Some? && keyword.value != "" {
      var keywordParam := LikePattern(keyword.value);
      query := AppendWhere(query, filter);
      params := [keywordParam];
    }
    ghost var w := if HasKeyword(keyword) then IndexWhere(filter) else "";
    assert query == IndexBase + w;
    if sort.Some? && sort.value != "" {
      if sort.value in SortColumns {
        query := query + " ORDER BY " + sort.value;
      }
    }
    ghost var o := IndexOrder(sort);
    assert query == IndexBase + w + o;
    if w != "" {
      assert filter.value in IndexFilters && w == WhereFor(filter.value);
    }
    if o != "" {
      assert sort.value in SortColumns && o == " ORDER BY " + sort.value;
    }
  }

  /** A value of the fetched rows. */
  datatype Value = Number(n: int) | Str(s: string) | Null

  /** The keys of the dictionary `index` builds for each row. */
  const ListingKeys: set<string> := {"book_id", "title", "author", "university", "department", "year_published"}

  /** One row of `SELECT book_id, title, author, university, department, year_published` as a dictionary. */
  function RowDict(row: seq<Value>): (d: map<string, Value>)
    requires |row| >= 6
    ensures d.Keys == ListingKeys
    ensures d["book_id"] == row[0] && d["title"] == row[1] && d["author"] == row[2]
    ensures d["university"] == row[3] && d["department"] == row[4] && d["year_published"] == row[5]
  {
    map["book_id" := row[0], "title" := row[1], "author" := row[2],
        "university" := row[3], "department" := row[4], "year_published" := row[5]]
  }

  /** The list comprehension over the cursor: one dictionary per row, in cursor order. */
  function RowsToListings(rows: seq<seq<Value>>): (r: seq<map<string, Value>>)
    requires forall i :: 0 <= i < |rows| ==> |rows[i]| >= 6
    ensures |r| == |rows|
    ensures forall i :: 0 <= i < |rows| ==> r[i] == RowDict(rows[i])
  {
    if rows == [] then [] else [RowDict(rows[0])] + RowsToListings(rows[1..])
  }

  /** Listing two batches of rows is listing each batch in turn. */
  lemma {:induction false} RowsToListingsAppend(a: seq<seq<Value>>, b: seq<seq<Value>>)
    requires forall i :: 0 <= i < |a| ==> |a[i]| >= 6
    requires forall i :: 0 <= i < |b| ==> |b[i]| >= 6
    ensures RowsToListings(a + b) == RowsToListings(a) + RowsToListings(b)
  {
    var l, r := RowsToListings(a + b), RowsToListings(a) + RowsToListings(b);
    forall i | 0 <= i < |a| + |b| ensures l[i] == r[i] {
      if i < |a| {
        assert (a + b)[i] == a[i];
      } else {
        assert (a + b)[i] == b[i - |a|];
      }
    }
  }

  /** The row `add` inserts: the form text as given, the year left for the database to convert, no PDF and no uploader. */
  function CatalogBook(title: string, author: string, year: string, university: string, department: string): (b: Book)
    ensures b.pdf.None? && b.uploadedBy.None?
    ensures b.title == title && b.author == author && b.year == YearText(year)
    ensures b.university == university && b.department == department
  {
    Book(title, author, university, department, YearText(year), None, None)
  }

  /**
   * `add` (POST). Each field is read with `request.form[...]`, so a missing one is a
   * bad request and nothing is inserted; there is no login guard and no validation.
   */
  method Add(db: Database, title: Option<string>, author: Option<string>, year: Option<string>,
             university: Option<string>, department: Option<string>) returns (out: Outcome)
    requires db.Valid()
    modifies db
    ensures db.Valid()
    ensures db.users == old(db.users) && db.library == old(db.library)
    ensures title.None? || author.None? || year.None? || university.None? || department.None? ==>
      out == BadRequest && db.books == old(db.books)
    ensures title.Some? && author.Some? && year.Some? && university.Some? && department.Some? ==>
      && out == Redirect(BooksIndex, BookAdded)
      && db.books == old(db.books)[old(db.nextBookId) := CatalogBook(title.value, author.value, year.value, university.value, department.value)]
    ensures forall id :: id in old(db.books) ==> id in db.books && db.books[id] == old(db.books)[id]
  {
    if title.None? || author.None? || year.None? || university.None? || department.None? {
      return BadRequest;
    }
    var _ := db.InsertBook(CatalogBook(title.value, author.value, year.value, university.value, department.value));
    out := Redirect(BooksIndex, BookAdded);
  }
}
