/** The author screens: a name search, details, create, edit, and a delete that
    first removes the author's link rows. */
module Authors {
  import opened Models
  import opened Data

  /** First or last name contains the search string. */
  predicate NameMatches(a: Author, search: string) {
    Contains(a.firstName, search) || Contains(a.lastName, search)
  }

  /** Index: the authors whose first or last name contains `search`; all when it is empty. */
  function Index(db: Catalog, search: string): (r: set<Author>)
    reads db
    ensures r <= db.authors.Values
    ensures forall a :: a in r <==> a in db.authors.Values && (search == [] || NameMatches(a, search))
    ensures search == [] ==> r == db.authors.Values
  {
    if search == [] then db.authors.Values else set a | a in db.authors.Values && NameMatches(a, search)
  }

  /** Refining the search narrows the list: a search text that contains `s`
      lists only authors that the search `s` lists too. */
  lemma NarrowerSearch(db: Catalog, s: string, t: string)
    requires Contains(t, s)
    ensures Index(db, t) <= Index(db, s)
  {
    forall a | a in Index(db, t)
      ensures a in Index(db, s)
    {
      if s != [] {
        if Contains(a.firstName, t) {
          ContainsTransitive(a.firstName, t, s);
        } else {
          ContainsTransitive(a.lastName, t, s);
        }
      }
    }
  }

  /** Details: NotFound (None) for a missing or unknown id. */
  function Details(db: Catalog, id: Option<int>): (r: Option<Author>)
    reads db
    requires db.Valid()
    ensures r.None? <==> id.None? || !db.AuthorExists(id.value)
    ensures r.Some? ==> r.value in db.authors.Values && r.value.id == id.value
  {
    ExistsIsKey(db, if id.Some? then id.value else 0);
    if id.Some? && id.value in db.authors then Some(db.authors[id.value]) else None
  }

  /** Create (POST): the author is inserted under the key the identity column
      generates; a posted non-zero Id makes the insert fail. */
  method Create(db: Catalog, author: Author, modelStateValid: bool) returns (res: Response)
    requires db.Valid()
    modifies db`authors, db`nextAuthorId
    ensures db.Valid()
    ensures !modelStateValid ==> res == Invalid
    ensures modelStateValid && (author.id != 0 || !AuthorRowValid(author)) ==> res == Fault
    ensures modelStateValid && author.id == 0 && AuthorRowValid(author) ==> res == Redirect
    ensures res != Redirect ==> unchanged(db)
    ensures res == Redirect ==>
              var id := old(db.nextAuthorId);
              && !old(db.AuthorExists(id))
              && db.authors == old(db.authors)[id := author.(id := id)]
              && db.nextAuthorId == id + 1
  {
    if !modelStateValid {
      return Invalid;
    }
    if author.id != 0 || !AuthorRowValid(author) {
      // an explicit value for the identity column, or a column rule, makes the insert fail
      return Fault;
    }
    var id := db.nextAuthorId;
    db.authors := db.authors[id := author.(id := id)];
    db.nextAuthorId := id + 1;
    return Redirect;
  }

  /** Edit (POST): both names are overwritten; an id mismatch or an author that
      has vanished answers NotFound. */
  method Edit(db: Catalog, id: int, author: Author, modelStateValid: bool) returns (res: Response)
    requires db.Valid()
    modifies db`authors
    ensures db.Valid()
    ensures id != author.id ==> res == NotFound
    ensures id == author.id && !modelStateValid ==> res == Invalid
    ensures id == author.id && modelStateValid && !old(db.AuthorExists(id)) ==> res == NotFound
    ensures id == author.id && modelStateValid && old(db.AuthorExists(id)) ==>
              res == (if AuthorRowValid(author) then Redirect else Fault)
    ensures res != Redirect ==> unchanged(db)
    ensures res == Redirect ==>
              && db.authors == old(db.authors)[id := author]
              && db.authors[id].firstName == author.firstName
              && db.authors[id].lastName == author.lastName
  {
    if id != author.id {
      return NotFound;
    }
    if !modelStateValid {
      return Invalid;
    }
    ExistsIsKey(db, id);
    if id !in db.authors {
      return NotFound;
    }
    if !AuthorRowValid(author) {
      return Fault;
    }
    db.authors := db.authors[id := author];
    return Redirect;
  }

  /** The link rows that name author `authorId` (the author's BookAuthors navigation). */
  function LinksOfAuthor(links: set<BookAuthor>, authorId: int): set<BookAuthor> {
    set l | l in links && l.authorId == authorId
  }

  /** DeleteConfirmed: the author and every link row naming it are removed; the
      books stay. A missing id saves nothing. */
  method DeleteConfirmed(db: Catalog, id: int) returns (res: Response)
    requires db.Valid()
    modifies db`authors, db`bookAuthors
    ensures db.Valid()
    ensures res == Redirect
    ensures db.authors == old(db.authors) - {id}
    ensures db.bookAuthors == old(db.bookAuthors) - LinksOfAuthor(old(db.bookAuthors), id)
    ensures forall l :: l in db.bookAuthors ==> l.authorId != id
    ensures db.books == old(db.books)
    ensures !old(db.AuthorExists(id)) ==> unchanged(db)
  {
    ExistsIsKey(db, id);
    if id in db.authors {
      db.bookAuthors := db.bookAuthors - LinksOfAuthor(db.bookAuthors, id);
      db.authors := db.authors - {id};
    }
    return Redirect;
  }
}
