# Library catalog store

A model of the library catalog behind an ASP.NET MVC application over Entity
Framework. The catalog has one table per entity: books, authors, genres,
publishers, the book–author join table, and borrowings. The five controllers
change these tables row by row. The database context declares the rules every
stored row obeys: the composite key of the join table, required columns with
maximum lengths, and restrict-delete foreign keys from books to genres and
publishers.

- `Models` (models.dfy): one datatype per row type, the nullable `Option`,
  substring containment for `string.Contains`, and `Response`, the outcome of a
  POST action. `Redirect` means saved. `NotFound` is a 404. `Invalid` means the
  form is shown again. `Refused` means the action's own guard reported an
  error. `Fault` means an exception escaped and the pending changes were not
  saved.
- `Data` (data.dfy): the `Catalog` class. Each table is a map from primary key
  to row. The join table is a set of (BookId, AuthorId) pairs, so the pair is
  its key. Each table keeps an identity counter. `Valid()` is the class
  invariant: every row sits under its own key, rows satisfy the column rules,
  and every foreign key points to a stored row.
- `Books`, `Genres`, `Authors`, `Publishers`, `Borrowings`: one module per
  controller. The read actions (`Index`, `Details`) are functions, except the
  borrowings list, a method that reads the table row by row. The POST
  actions are methods whose `modifies` clause names only the tables the action
  touches. Each method keeps `Valid()` and states its new tables outright, so
  "nothing else changes" is part of every contract.
- `Scenarios` (scenarios.dfy): the repository's integration tests replayed on a
  fresh, empty catalog. Each method's postcondition is the test's assertions.

The framework's form validation (`ModelState.IsValid`) is an input,
`modelStateValid`. A save that breaks a database rule answers `Fault` and
changes nothing. That covers a required column left empty, an over-long value,
an unknown genre, publisher, book or author id in a book or link row, and a
duplicate join-table key. It also covers an
insert that posts a non-zero Id: the key columns are SQL Server identity
columns, which refuse an explicit value.

## Model

| member | source | states |
|---|---|---|
| Books.Index | LibraryManagementSystem/Controllers/BookModelsController.cs:66-94 | A book is listed iff it is stored and meets every supplied filter together: title or ISBN contains the search text, genre and publisher ids match, the author is linked. An empty search and absent ids list every book. The result is a subset of the table. |
| Books.FiltersCombine | LibraryManagementSystem/Controllers/BookModelsController.cs:76-94 | The filtered list is the intersection of the lists each filter gives alone. |
| Books.Details | LibraryManagementSystem/Controllers/BookModelsController.cs:117-136 | NotFound exactly when the id is null or no stored book has it; otherwise the stored book with that id. |
| Books.TrackLinks | LibraryManagementSystem/Controllers/BookModelsController.cs:164-172 | The loop tracks one link row per selected author. It fails exactly when an author id repeats, since the tracker refuses a second row with the same key. Otherwise the rows are exactly (bookId, a) for each selected a. |
| Books.ReplaceLinks | LibraryManagementSystem/Controllers/BookModelsController.cs:227-245 | After replacing a book's links, its author set equals the selected ids; it is empty when none are selected. Other books' link rows are unchanged. |
| Books.Create | LibraryManagementSystem/Controllers/BookModelsController.cs:155-181 | Invalid form: Invalid. A posted non-zero Id (an explicit identity value) or an unstorable row: Fault. In both cases nothing changes. Otherwise the book is inserted under a fresh key. Distinct, existing authors get one link row each and the answer is Redirect. Otherwise Fault, with the book kept and no links added. |
| Books.Edit | LibraryManagementSystem/Controllers/BookModelsController.cs:216-266 | Id mismatch: NotFound, no change. Invalid form: Invalid. A repeated author id: Fault. A vanished book: NotFound. Redirect exactly when the row and authors are storable. Then the book is overwritten and its author set equals the selection. Every non-Redirect answer leaves the store unchanged. |
| Books.DeleteConfirmed | LibraryManagementSystem/Controllers/BookModelsController.cs:301-314 | The book and all its link rows are removed. Authors, borrowings and other books' links are untouched. A missing id changes nothing. |
| Data.ExistsIsKey | LibraryManagementSystem/Controllers/BookModelsController.cs:316-319 | Looking a row up by its Id column (the controllers' `...ModelExists` helpers) is the same as looking up its key. |
| Data.RestrictDelete | LibraryManagementSystem/Data/ApplicationDbContext.cs:77-85 | Removing a genre (or publisher) breaks the books' restrict foreign keys exactly when some book references it; removing an unreferenced one keeps them intact. |
| Data.Catalog.constructor | LibraryManigmentSystem_Tests/TestBase.cs:14-22 | A freshly created database (deleted and re-created) has every table empty and satisfies the invariant. |
| Genres.Index | LibraryManagementSystem/Controllers/GenreModelsController.cs:37-50 | A genre is listed iff its name contains the search text; an empty search lists every genre. |
| Genres.NarrowerSearch | LibraryManagementSystem/Controllers/GenreModelsController.cs:39-49 | A search text that contains `s` lists a subset of what `s` lists; with `s` empty that is every genre. |
| Genres.Details | LibraryManagementSystem/Controllers/GenreModelsController.cs:57-75 | NotFound exactly for a null or unknown id; otherwise the stored genre with that id. |
| Genres.Create | LibraryManagementSystem/Controllers/GenreModelsController.cs:93-102 | A valid genre with no posted Id is inserted under the key the identity column generates. Invalid form: Invalid. A posted non-zero Id or a broken column rule: Fault. Either way nothing changes. |
| Genres.Edit | LibraryManagementSystem/Controllers/GenreModelsController.cs:132-160 | Id mismatch or vanished row: NotFound, no change. Otherwise the stored genre is replaced, or Fault if the row breaks a column rule. |
| Genres.DeleteConfirmed | LibraryManagementSystem/Controllers/GenreModelsController.cs:193-213 | Unknown id: NotFound. A genre some book is in: Refused. Both leave the store unchanged. Otherwise exactly that genre is removed; books are untouched. |
| Authors.Index | LibraryManagementSystem/Controllers/AuthorModelsController.cs:37-52 | An author is listed iff the first or last name contains the search text; an empty search lists every author. |
| Authors.NarrowerSearch | LibraryManagementSystem/Controllers/AuthorModelsController.cs:39-51 | A search text that contains `s` lists a subset of what `s` lists, whichever name matched. |
| Authors.Details | LibraryManagementSystem/Controllers/AuthorModelsController.cs:59-76 | NotFound exactly for a null or unknown id; otherwise the stored author with that id. |
| Authors.Create | LibraryManagementSystem/Controllers/AuthorModelsController.cs:94-103 | A valid author with no posted Id is inserted under the key the identity column generates. Invalid form: Invalid. A posted non-zero Id or a broken column rule: Fault. Either way nothing changes. |
| Authors.Edit | LibraryManagementSystem/Controllers/AuthorModelsController.cs:133-161 | Id mismatch or vanished row: NotFound, no change. Otherwise both names are overwritten, or Fault if a name breaks a column rule. |
| Authors.DeleteConfirmed | LibraryManagementSystem/Controllers/AuthorModelsController.cs:194-208 | The author and every link row naming it are removed. Afterwards no link row names the author, and every book remains. A missing id changes nothing. |
| Publishers.Details | LibraryManagementSystem/Controllers/PublisherModelsController.cs:29-44 | NotFound exactly for a null or unknown id; otherwise the stored publisher with that id. |
| Publishers.Create | LibraryManagementSystem/Controllers/PublisherModelsController.cs:57-66 | A valid publisher with no posted Id is inserted under the key the identity column generates. Invalid form: Invalid. A posted non-zero Id or a broken column rule: Fault. Either way nothing changes. |
| Publishers.Edit | LibraryManagementSystem/Controllers/PublisherModelsController.cs:89-117 | Id mismatch or vanished row: NotFound, no change. Otherwise the name is overwritten, or Fault if it breaks a column rule. |
| Publishers.DeleteConfirmed | LibraryManagementSystem/Controllers/PublisherModelsController.cs:140-150 | Fault exactly when the publisher exists and some book names it (restrict foreign key). Then nothing changes. A missing id changes nothing. Otherwise exactly that publisher is removed. |
| Borrowings.Index | LibraryManagementSystem/Controllers/BorrowingModelsController.cs:23-27 | The loop reads the table row by row. The list has one entry per stored borrowing, whoever the borrower: every stored row appears, each exactly once, and nothing else. |
| Borrowings.Details | LibraryManagementSystem/Controllers/BorrowingModelsController.cs:30-47 | NotFound exactly for a null or unknown id; otherwise the stored borrowing with that id. |
| Borrowings.Create | LibraryManagementSystem/Controllers/BorrowingModelsController.cs:62-73 | A valid record with no posted Id is inserted exactly as bound. Status, borrow date and return date are the caller's, with no defaults. A posted non-zero Id or a broken column rule gives Fault; nothing changes unless the answer is Redirect. |
| Borrowings.Edit | LibraryManagementSystem/Controllers/BorrowingModelsController.cs:98-128 | Id mismatch or vanished row: NotFound, no change. Otherwise every bound field is overwritten, or Fault if the status breaks a column rule. |
| Borrowings.DeleteConfirmed | LibraryManagementSystem/Controllers/BorrowingModelsController.cs:153-163 | Only that borrowing is removed, and its book stays. A missing id changes nothing. |
| Scenarios.CreateBookWithAuthors | LibraryManigmentSystem_Tests/BookTests.cs:136-175 | A book created with the two authors John and Jane, and no explicit Id, is linked to exactly two authors, whose first names are John and Jane. |
| Scenarios.CreateThenEditBookAuthors | LibraryManigmentSystem_Tests/BookTests.cs:177-230 | The created book's authors are exactly John and Jane. After the selection is edited to John and Bob, its authors are exactly those two, and Jane is not among them. Each id is tied to its author's stored first name. |
| Scenarios.DeleteGenreWithBooks | LibraryManigmentSystem_Tests/GenreTests.cs:139-177 | Deleting a genre that a book is in is refused; the genre and the book remain. |
| Scenarios.DeletePublisherWithBooks | LibraryManigmentSystem_Tests/PublisherTests.cs:139-177 | Deleting a publisher that a book names fails; the publisher and the book remain. |
| Scenarios.DeleteAuthorWithBooks | LibraryManigmentSystem_Tests/AuthorTests.cs:156-202 | Deleting an author removes the author and its link rows; the book remains. |

## Left out

- Form validation (`ModelState.IsValid`, data annotations) is an input, because the framework evaluates it over the request.
- The async Entity Framework machinery (`SaveChangesAsync`, `Include`/`ThenInclude`, change-tracker states) is not modelled. Only its outcome is: a save either applies every pending change or, on an exception, none.
- The concurrency handler's rethrow branch is not modelled. With a single sequential caller, the update fails on concurrency only when the row has vanished, and that case answers NotFound.
- Column lengths are counted in characters (code points). SQL Server's `nvarchar(n)` counts UTF-16 code units, so text outside the Basic Multilingual Plane can pass the model's length rules (`Data.RequiredText`, `Data.BookRowValid`, `Data.AuthorRowValid`, `Data.PublisherRowValid`, `Data.GenreRowValid`, `Data.BorrowingRowValid`) and still fail the database's.
- Identity values are unbounded integers, not 32-bit `int`, so identity overflow is not modelled.
- Identity values consumed by a failed insert are not modelled; a rejected create leaves the counter unchanged.
- The borrowing-to-book and borrowing-to-user foreign keys are not modelled. `Books.DeleteConfirmed` removes only the book and its link rows, as the controller does; the database's own cascade on borrowings is not part of this model.
- Borrowing status transitions (Pending, Active, Returned) appear only in a comment and are not enforced anywhere; the code applies no default status or date on create and does no per-user filtering.
- Role checks (`[Authorize(Roles = "Admin")]`) are enforced by the framework and are not modelled.
- The GET `Create`, `Edit` and `Delete` pages only show a form or look a row up as `Details` does; they are not modelled separately. The publishers' unfiltered `Index` is not modelled separately.
- View plumbing (`PopulateViewBags`, `ViewData` select lists and their sort orders) is UI only. The order of the list pages is unspecified: the filtered lists are sets, and the borrowings list comes in whatever order the loop picks the keys.
- Text search is plain substring containment on character sequences; SQL collation (case-insensitivity) is not modelled. A null string is written as the empty sequence. Dates are integer timestamps, and `DateTime.Now` is not used.
- `BookModel.cs` as shown declares no `AuthorIds` property, although the book controller binds and reads one. The model passes the selected author ids as a separate argument, with null meaning none.
- Genre and publisher names and ISBNs are not unique in the database, so no uniqueness invariant is stated.
- `BookAuthorModelsController`, `LibraryDbContext`, `Program`, `DbSeeder`, `Configuration` and `HomeController` are not part of this model. They are a separate join-table editor, a duplicate context that is not registered, hosting and seeding, and static pages.
