/** The repository's integration tests, replayed against the action contracts
    on a fresh, empty database: each method's postcondition is the test's
    assertions. */
module Scenarios {
  import opened Models
  import opened Data
  import Books
  import Genres
  import Authors
  import Publishers

  /** A database holding one genre and one publisher; returns their keys. */
  method GenreAndPublisher() returns (db: Catalog, genreId: int, publisherId: int)
    ensures fresh(db) && db.Valid()
    ensures db.books == map[] && db.bookAuthors == {} && db.authors == map[]
    ensures genreId in db.genres && publisherId in db.publishers
  {
    db := new Catalog();
    genreId := db.nextGenreId;
    var r := Genres.Create(db, Genre(0, "Fiction"), true);
    publisherId := db.nextPublisherId;
    r := Publishers.Create(db, Publisher(0, "Test Publisher"), true);
  }

  /** A database holding one genre, one publisher and the authors John Doe and Jane Smith. */
  method TwoAuthors() returns (db: Catalog, genreId: int, publisherId: int, john: int, jane: int)
    ensures fresh(db) && db.Valid()
    ensures db.books == map[] && db.bookAuthors == {}
    ensures genreId in db.genres && publisherId in db.publishers
    ensures john in db.authors && jane in db.authors && john != jane
    ensures db.authors[john].firstName == "John" && db.authors[jane].firstName == "Jane"
  {
    db, genreId, publisherId := GenreAndPublisher();
    john := db.nextAuthorId;
    var r := Authors.Create(db, Author(0, "John", "Doe"), true);
    jane := db.nextAuthorId;
    r := Authors.Create(db, Author(0, "Jane", "Smith"), true);
  }

  /** Creates the test book, with no explicit Id, linked to `first` and `second`. */
  method CreateLinkedBook(db: Catalog, genreId: int, publisherId: int, first: int, second: int)
    returns (created: Response, bookId: int)
    requires db.Valid()
    requires genreId in db.genres && publisherId in db.publishers
    requires first in db.authors && second in db.authors && first != second
    modifies db`books, db`nextBookId, db`bookAuthors
    ensures db.Valid()
    ensures created == Redirect
    ensures bookId in db.books && db.books[bookId].title == "Test Book"
    ensures AuthorsOf(db.bookAuthors, bookId) == {first, second}
  {
    assert Books.Distinct([first, second]);
    bookId := db.nextBookId;
    var book := Book(0, "Test Book", "1234567890", genreId, publisherId, None, "Test Description");
    created := Books.Create(db, book, [first, second], true);
    assert LinksOf(db.bookAuthors, bookId) == {BookAuthor(bookId, first), BookAuthor(bookId, second)} by {
      assert LinksOf(old(db.bookAuthors), bookId) == {};
    }
  }

  /** A book created with the authors John and Jane is linked to exactly those two. */
  method CreateBookWithAuthors() returns (db: Catalog, created: Response, bookId: int, john: int, jane: int)
    ensures created == Redirect
    ensures bookId in db.books
    ensures AuthorsOf(db.bookAuthors, bookId) == {john, jane} && john != jane
    ensures john in db.authors && db.authors[john].firstName == "John"
    ensures jane in db.authors && db.authors[jane].firstName == "Jane"
  {
    var genreId, publisherId;
    db, genreId, publisherId, john, jane := TwoAuthors();
    created, bookId := CreateLinkedBook(db, genreId, publisherId, john, jane);
  }

  /** Creating a book with the authors {John, Jane} links exactly those two; editing
      its selection to {John, Bob} leaves exactly John and Bob, and Jane is no longer linked. */
  method CreateThenEditBookAuthors()
    returns (db: Catalog, created: Response, edited: Response, bookId: int, afterCreate: set<int>, john: int, jane: int, bob: int)
    ensures created == Redirect && edited == Redirect
    ensures afterCreate == {john, jane} && john != jane
    ensures bookId in db.books
    ensures AuthorsOf(db.bookAuthors, bookId) == {john, bob} && john != bob && jane !in {john, bob}
    ensures john in db.authors && db.authors[john].firstName == "John"
    ensures jane in db.authors && db.authors[jane].firstName == "Jane"
    ensures bob in db.authors && db.authors[bob].firstName == "Bob"
  {
    var genreId, publisherId;
    db, genreId, publisherId, john, jane := TwoAuthors();
    bob := db.nextAuthorId;
    var r := Authors.Create(db, Author(0, "Bob", "Wilson"), true);
    created, bookId := CreateLinkedBook(db, genreId, publisherId, john, jane);
    afterCreate := AuthorsOf(db.bookAuthors, bookId);
    assert Books.Distinct([john, bob]);
    ExistsIsKey(db, bookId);
    edited := Books.Edit(db, bookId, db.books[bookId], [john, bob], true);
  }

  /** Deleting a genre that a book is in is refused; the genre and the book remain. */
  method DeleteGenreWithBooks() returns (res: Response, genreStillExists: bool, bookStillExists: bool)
    ensures res == Refused && genreStillExists && bookStillExists
  {
    var db, genreId, publisherId := GenreAndPublisher();
    var bookId := db.nextBookId;
    var r := Books.Create(db, Book(0, "Test Book", "1234567890", genreId, publisherId, None, "Test Description"), [], true);
    assert db.GenreInUse(genreId) by {
      assert db.books[bookId].genreId == genreId;
    }
    ExistsIsKey(db, genreId);
    res := Genres.DeleteConfirmed(db, genreId);
    ExistsIsKey(db, genreId);
    genreStillExists := db.GenreExists(genreId);
    bookStillExists := db.BookExists(bookId);
  }

  /** Deleting a publisher that a book names fails; the publisher and the book remain. */
  method DeletePublisherWithBooks() returns (res: Response, publisherStillExists: bool, bookStillExists: bool)
    ensures res == Fault && publisherStillExists && bookStillExists
  {
    var db, genreId, publisherId := GenreAndPublisher();
    var bookId := db.nextBookId;
    var r := Books.Create(db, Book(0, "Test Book", "1234567890", genreId, publisherId, None, "Test Description"), [], true);
    assert db.PublisherInUse(publisherId) by {
      assert db.books[bookId].publisherId == publisherId;
    }
    ExistsIsKey(db, publisherId);
    res := Publishers.DeleteConfirmed(db, publisherId);
    ExistsIsKey(db, publisherId);
    publisherStillExists := db.PublisherExists(publisherId);
    bookStillExists := db.BookExists(bookId);
  }

  /** Deleting an author removes the author and its link rows; the book remains. */
  method DeleteAuthorWithBooks() returns (authorStillExists: bool, linksRemain: bool, bookStillExists: bool)
    ensures !authorStillExists && !linksRemain && bookStillExists
  {
    var db, genreId, publisherId := GenreAndPublisher();
    var authorId := db.nextAuthorId;
    var r := Authors.Create(db, Author(0, "John", "Doe"), true);
    var bookId := db.nextBookId;
    r := Books.Create(db, Book(0, "Test Book", "1234567890", genreId, publisherId, None, "Test Description"), [authorId], true);
    assert BookAuthor(bookId, authorId) in db.bookAuthors;
    r := Authors.DeleteConfirmed(db, authorId);
    ExistsIsKey(db, authorId);
    authorStillExists := db.AuthorExists(authorId);
    linksRemain := exists l :: l in db.bookAuthors && l.authorId == authorId;
    bookStillExists := db.BookExists(bookId);
  }
}
