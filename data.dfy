/** The database context: one table per entity and the constraints its model
    configuration declares (composite key of the join table, required columns with
    maximum lengths, restrict-delete foreign keys from books to genres and
    publishers). */
module Data {
  import opened Models

  const TitleMaxLength := 200
  const IsbnMaxLength := 20
  const AuthorNameMaxLength := 100
  const PublisherNameMaxLength := 150
  const GenreNameMaxLength := 100
  const StatusMaxLength := 20

  /** A required string column accepts any non-null value up to its maximum length. */
  predicate RequiredText(s: string, maxLength: nat) {
    0 < |s| <= maxLength
  }

  predicate BookRowValid(b: Book) {
    RequiredText(b.title, TitleMaxLength) && |b.isbn| <= IsbnMaxLength
  }

  predicate AuthorRowValid(a: Author) {
    RequiredText(a.firstName, AuthorNameMaxLength) && RequiredText(a.lastName, AuthorNameMaxLength)
  }

  predicate PublisherRowValid(p: Publisher) {
    RequiredText(p.name, PublisherNameMaxLength)
  }

  predicate GenreRowValid(g: Genre) {
    RequiredText(g.name, GenreNameMaxLength)
  }

  /** BorrowDate is a non-nullable column, so only Status can violate the row rules. */
  predicate BorrowingRowValid(b: Borrowing) {
    RequiredText(b.status, StatusMaxLength)
  }

  /** The rows of `links` that belong to book `bookId` (its BookAuthors navigation). */
  function LinksOf(links: set<BookAuthor>, bookId: int): set<BookAuthor> {
    set l | l in links && l.bookId == bookId
  }

  /** The author ids linked to book `bookId`. */
  function AuthorsOf(links: set<BookAuthor>, bookId: int): set<int> {
    set l | l in links && l.bookId == bookId :: l.authorId
  }

  /** The restrict foreign keys of the Books table: each book's genre and publisher are stored. */
  predicate BookReferencesValid(books: map<int, Book>, genres: map<int, Genre>, publishers: map<int, Publisher>) {
    forall k :: k in books ==> books[k].genreId in genres && books[k].publisherId in publishers
  }

  /** The foreign keys of the join table: each link names a stored book and a stored author. */
  predicate LinkReferencesValid(links: set<BookAuthor>, books: map<int, Book>, authors: map<int, Author>) {
    forall l :: l in links ==> l.bookId in books && l.authorId in authors
  }

  class Catalog {
    var books: map<int, Book>
    var authors: map<int, Author>
    var genres: map<int, Genre>
    var publishers: map<int, Publisher>
    var bookAuthors: set<BookAuthor>
    var borrowings: map<int, Borrowing>

    // Identity columns: the next key each table hands out; keys are never reused.
    var nextBookId: int
    var nextAuthorId: int
    var nextGenreId: int
    var nextPublisherId: int
    var nextBorrowingId: int

    /** Every row sits under its own key, below the table's next identity value,
        and satisfies the column rules. */
    ghost predicate KeysValid()
      reads this
    {
      && (forall k :: k in books ==> books[k].id == k < nextBookId && BookRowValid(books[k]))
      && (forall k :: k in authors ==> authors[k].id == k < nextAuthorId && AuthorRowValid(authors[k]))
      && (forall k :: k in genres ==> genres[k].id == k < nextGenreId && GenreRowValid(genres[k]))
      && (forall k :: k in publishers ==> publishers[k].id == k < nextPublisherId && PublisherRowValid(publishers[k]))
      && (forall k :: k in borrowings ==> borrowings[k].id == k < nextBorrowingId && BorrowingRowValid(borrowings[k]))
    }

    /** Foreign keys: a book names an existing genre and publisher, and a link row
        names an existing book and author. */
    ghost predicate ReferencesValid()
      reads this
    {
      BookReferencesValid(books, genres, publishers) && LinkReferencesValid(bookAuthors, books, authors)
    }

    ghost predicate Valid()
      reads this
    {
      KeysValid() && ReferencesValid()
    }

    /** A freshly created database: every table empty, every identity column at its seed. */
    constructor ()
      ensures Valid()
      ensures books == map[] && authors == map[] && genres == map[] && publishers == map[]
      ensures bookAuthors == {} && borrowings == map[]
    {
      books, authors, genres, publishers := map[], map[], map[], map[];
      bookAuthors, borrowings := {}, map[];
      nextBookId, nextAuthorId, nextGenreId, nextPublisherId, nextBorrowingId := 1, 1, 1, 1, 1;
    }

    /** Books.Any(e => e.Id == id) */
    predicate BookExists(id: int)
      reads this
    {
      exists k :: k in books && books[k].id == id
    }

    predicate AuthorExists(id: int)
      reads this
    {
      exists k :: k in authors && authors[k].id == id
    }

    predicate GenreExists(id: int)
      reads this
    {
      exists k :: k in genres && genres[k].id == id
    }

    predicate PublisherExists(id: int)
      reads this
    {
      exists k :: k in publishers && publishers[k].id == id
    }

    predicate BorrowingExists(id: int)
      reads this
    {
      exists k :: k in borrowings && borrowings[k].id == id
    }

    /** Some book is in genre `id` (the genre's Books navigation is not empty). */
    predicate GenreInUse(id: int)
      reads this
    {
      exists k :: k in books && books[k].genreId == id
    }

    /** Some book is published by publisher `id`. */
    predicate PublisherInUse(id: int)
      reads this
    {
      exists k :: k in books && books[k].publisherId == id
    }

    /** A book row the database accepts: column rules and both restrict foreign keys. */
    predicate BookStorable(b: Book)
      reads this
    {
      BookRowValid(b) && b.genreId in genres && b.publisherId in publishers
    }
  }

  /** With the keys in place, looking a row up by its Id column is looking up its key. */
  lemma ExistsIsKey(db: Catalog, id: int)
    requires db.KeysValid()
    ensures db.BookExists(id) <==> id in db.books
    ensures db.AuthorExists(id) <==> id in db.authors
    ensures db.GenreExists(id) <==> id in db.genres
    ensures db.PublisherExists(id) <==> id in db.publishers
    ensures db.BorrowingExists(id) <==> id in db.borrowings
  {
  }

  /** The restrict rule: removing a genre (or publisher) keeps the books' foreign
      keys intact exactly when no book references it. */
  lemma RestrictDelete(db: Catalog, id: int)
    requires db.Valid()
    ensures db.GenreInUse(id) <==> !BookReferencesValid(db.books, db.genres - {id}, db.publishers)
    ensures db.PublisherInUse(id) <==> !BookReferencesValid(db.books, db.genres, db.publishers - {id})
  {
    if db.GenreInUse(id) {
      var k :| k in db.books && db.books[k].genreId == id;
      assert db.books[k].genreId !in db.genres - {id};
    }
    if db.PublisherInUse(id) {
      var k :| k in db.books && db.books[k].publisherId == id;
      assert db.books[k].publisherId !in db.publishers - {id};
    }
  }
}
