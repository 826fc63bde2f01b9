/** The book screens: the filtered list, the details page, and the create, edit
    and delete actions, which keep the join table in step with the book's
    selected authors. */
module Books {
  import opened Models
  import opened Data

  /** The query string of the list page; a `None` id applies no filter, and an
      empty search string applies no text filter. */
  datatype BookFilter = BookFilter(
    search: string,
    genreId: Option<int>,
    publisherId: Option<int>,
    authorId: Option<int>)

  const NoFilter := BookFilter([], None, None, None)

  /** Title or ISBN contains the search string. */
  predicate TextMatches(b: Book, search: string) {
    Contains(b.title, search) || Contains(b.isbn, search)
  }

  /** A book the list shows: every supplied filter holds together. */
  predicate Matches(b: Book, links: set<BookAuthor>, f: BookFilter) {
    && (f.search != [] ==> TextMatches(b, f.search))
    && (f.genreId.Some? ==> b.genreId == f.genreId.value)
    && (f.publisherId.Some? ==> b.publisherId == f.publisherId.value)
    && (f.authorId.Some? ==> f.authorId.value in AuthorsOf(links, b.id))
  }

  /** Index: each supplied filter narrows the query in turn. */
  function Index(db: Catalog, f: BookFilter): (r: set<Book>)
    reads db
    ensures r <= db.books.Values
    ensures forall b :: b in r <==> b in db.books.Values && Matches(b, db.bookAuthors, f)
    ensures f == NoFilter ==> r == db.books.Values
  {
    var all := db.books.Values;
    var bySearch := if f.search == [] then all else set b | b in all && TextMatches(b, f.search);
    var byGenre := if f.genreId.Some? then set b | b in bySearch && b.genreId == f.genreId.value else bySearch;
    var byPublisher :=
      if f.publisherId.Some? then set b | b in byGenre && b.publisherId == f.publisherId.value else byGenre;
    if f.authorId.Some? then
      set b | b in byPublisher && (exists l :: l in db.bookAuthors && l.bookId == b.id && l.authorId == f.authorId.value)
    else
      byPublisher
  }

  /** The filters combine by conjunction: the result is what each supplied filter
      alone would return, intersected. */
  lemma FiltersCombine(db: Catalog, f: BookFilter)
    ensures Index(db, f) ==
              Index(db, BookFilter(f.search, None, None, None)) * Index(db, BookFilter([], f.genreId, None, None))
              * Index(db, BookFilter([], None, f.publisherId, None)) * Index(db, BookFilter([], None, None, f.authorId))
  {
  }

  /** Details: NotFound (None) for a missing or unknown id, otherwise the book with that id. */
  function Details(db: Catalog, id: Option<int>): (r: Option<Book>)
    reads db
    requires db.Valid()
    ensures r.None? <==> id.None? || !db.BookExists(id.value)
    ensures r.Some? ==> r.value in db.books.Values && r.value.id == id.value
  {
    ExistsIsKey(db, if id.Some? then id.value else 0);
    if id.Some? && id.value in db.books then Some(db.books[id.value]) else None
  }

  predicate Distinct(s: seq<int>) {
    forall i, j :: 0 <= i < j < |s| ==> s[i] != s[j]
  }

  /** One link row (bookId, a) for each a in authorIds. */
  function LinkRows(bookId: int, authorIds: seq<int>): set<BookAuthor> {
    set a | a in authorIds :: BookAuthor(bookId, a)
  }

  /** The join table once the links of book `bookId` are replaced by one row per id in `authorIds`. */
  function ReplaceLinks(links: set<BookAuthor>, bookId: int, authorIds: seq<int>): (r: set<BookAuthor>)
    ensures AuthorsOf(r, bookId) == set a | a in authorIds
    ensures forall l: BookAuthor :: l.bookId != bookId ==> (l in r <==> l in links)
  {
    var r := (links - LinksOf(links, bookId)) + LinkRows(bookId, authorIds);
    assert AuthorsOf(r, bookId) == set a | a in authorIds by {
      forall a | a in authorIds
        ensures a in AuthorsOf(r, bookId)
      {
        assert BookAuthor(bookId, a) in r;
      }
    }
    r
  }

  /** The foreach loop that adds one link row per selected author to the change
      tracker: the tracker refuses a second row with the same key, so the loop
      stops at the first repeated author id. */
  method TrackLinks(bookId: int, authorIds: seq<int>) returns (tracked: Option<set<BookAuthor>>)
    ensures tracked.None? <==> !Distinct(authorIds)
    ensures tracked.Some? ==> tracked.value == LinkRows(bookId, authorIds)
  {
    var pending: set<BookAuthor> := {};
    var i := 0;
    while i < |authorIds|
      invariant 0 <= i <= |authorIds|
      invariant Distinct(authorIds[..i])
      invariant pending == LinkRows(bookId, authorIds[..i])
    {
      var row := BookAuthor(bookId, authorIds[i]);
      if row in pending {
        var j :| 0 <= j < i && authorIds[j] == authorIds[i];
        return None;
      }
      pending := pending + {row};
      i := i + 1;
      assert authorIds[..i] == authorIds[..i - 1] + [authorIds[i - 1]];
    }
    assert authorIds[..i] == authorIds;
    return Some(pending);
  }

  /** Create (POST). The book is saved first; its link rows are added in a
      second save, so a failure while adding them leaves the book stored
      without authors. */
  method Create(db: Catalog, book: Book, authorIds: seq<int>, modelStateValid: bool) returns (res: Response)
    requires db.Valid()
    modifies db`books, db`nextBookId, db`bookAuthors
    ensures db.Valid()
    ensures !modelStateValid || book.id != 0 || !old(db.BookStorable(book)) <==> unchanged(db)
    ensures !modelStateValid ==> res == Invalid
    ensures modelStateValid && (book.id != 0 || !old(db.BookStorable(book))) ==> res == Fault
    ensures modelStateValid && book.id == 0 && old(db.BookStorable(book)) ==>
              var id := old(db.nextBookId);
              && id !in old(db.books)
              && db.books == old(db.books)[id := book.(id := id)]
              && db.nextBookId == id + 1
              && (if Distinct(authorIds) && (forall a :: a in authorIds ==> a in db.authors) then
                    res == Redirect && db.bookAuthors == old(db.bookAuthors) + LinkRows(id, authorIds)
                  else
                    res == Fault && db.bookAuthors == old(db.bookAuthors))
  {
    if !modelStateValid {
      return Invalid;
    }
    if book.id != 0 || !db.BookStorable(book) {
      // an explicit value for the identity column, or a broken column or foreign-key rule, fails the first save
      return Fault;
    }
    var id := db.nextBookId;
    db.books := db.books[id := book.(id := id)];
    db.nextBookId := id + 1;
    var tracked := TrackLinks(id, authorIds);
    if tracked.None? {
      return Fault;
    }
    if !(forall a :: a in authorIds ==> a in db.authors) {
      return Fault;
    }
    db.bookAuthors := db.bookAuthors + tracked.value;
    return Redirect;
  }

  /** Edit (POST). The book's link rows are removed and the selected authors'
      rows added; the whole change is one save. */
  method Edit(db: Catalog, id: int, book: Book, authorIds: seq<int>, modelStateValid: bool) returns (res: Response)
    requires db.Valid()
    modifies db`books, db`bookAuthors
    ensures db.Valid()
    ensures id != book.id ==> res == NotFound
    ensures id == book.id && !modelStateValid ==> res == Invalid
    ensures id == book.id && modelStateValid && !Distinct(authorIds) ==> res == Fault
    ensures id == book.id && modelStateValid && Distinct(authorIds) && !old(db.BookExists(id)) ==> res == NotFound
    ensures res == Redirect <==>
              && id == book.id && modelStateValid && Distinct(authorIds) && old(db.BookExists(id))
              && old(db.BookStorable(book)) && (forall a :: a in authorIds ==> a in old(db.authors))
    ensures id == book.id && modelStateValid && Distinct(authorIds) && old(db.BookExists(id)) && res != Redirect ==>
              res == Fault
    ensures res != Redirect ==> unchanged(db)
    ensures res == Redirect ==>
              && db.books == old(db.books)[id := book]
              && db.bookAuthors == ReplaceLinks(old(db.bookAuthors), id, authorIds)
              && AuthorsOf(db.bookAuthors, id) == set a | a in authorIds
  {
    if id != book.id {
      return NotFound;
    }
    if !modelStateValid {
      return Invalid;
    }
    var tracked := TrackLinks(id, authorIds);
    if tracked.None? {
      return Fault;
    }
    ExistsIsKey(db, id);
    if id !in db.books {
      // the update matched no row: the concurrency handler finds the book gone
      return NotFound;
    }
    if !db.BookStorable(book) || !(forall a :: a in authorIds ==> a in db.authors) {
      return Fault;
    }
    db.bookAuthors := (db.bookAuthors - LinksOf(db.bookAuthors, id)) + tracked.value;
    db.books := db.books[id := book];
    return Redirect;
  }

  /** DeleteConfirmed: the book and its link rows go; a missing id saves nothing. */
  method DeleteConfirmed(db: Catalog, id: int) returns (res: Response)
    requires db.Valid()
    modifies db`books, db`bookAuthors
    ensures db.Valid()
    ensures res == Redirect
    ensures db.books == old(db.books) - {id}
    ensures db.bookAuthors == old(db.bookAuthors) - LinksOf(old(db.bookAuthors), id)
    ensures db.authors == old(db.authors) && db.borrowings == old(db.borrowings)
    ensures !old(db.BookExists(id)) ==> unchanged(db)
  {
    ExistsIsKey(db, id);
    if id in db.books {
      db.bookAuthors := db.bookAuthors - LinksOf(db.bookAuthors, id);
      db.books := db.books - {id};
    }
    return Redirect;
  }
}
