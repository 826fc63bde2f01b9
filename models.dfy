/** The rows of the catalog's tables (one datatype per entity class under Models/),
    the optional value used for nullable columns and `int?` parameters, and the
    outcome of a controller action. */
module Models {

  datatype Option<T> = None | Some(value: T)

  /** A point in time (DateTime), as a tick count. */
  type Timestamp = int

  /** A null string bound from an empty form field is written as the empty sequence. */
  datatype Book = Book(
    id: int,
    title: string,
    isbn: string,
    genreId: int,
    publisherId: int,
    publishedDate: Option<Timestamp>,
    description: string)

  datatype Author = Author(id: int, firstName: string, lastName: string)

  datatype Genre = Genre(id: int, name: string)

  datatype Publisher = Publisher(id: int, name: string)

  /** A row of the join table between books and authors; the pair is its key. */
  datatype BookAuthor = BookAuthor(bookId: int, authorId: int)

  datatype Borrowing = Borrowing(
    id: int,
    bookId: int,
    userId: string,
    borrowDate: Timestamp,
    returnDate: Option<Timestamp>,
    status: string)

  /** What a POST action answers. */
  datatype Response =
    | Redirect   // the change was saved and the browser is sent back to Index
    | NotFound   // 404: id mismatch, unknown id, or the row vanished before the save
    | Invalid    // ModelState is invalid: the form is shown again, nothing is saved
    | Refused    // a guard in the action rejected the request and reported a model error
    | Fault      // an exception escaped the action: the pending changes were not saved

  /** string.Contains: `t` occurs in `s` at some position. */
  predicate Contains(s: string, t: string) {
    exists i :: 0 <= i <= |s| && OccursAt(s, t, i)
  }

  predicate OccursAt(s: string, t: string, i: int) {
    0 <= i && i + |t| <= |s| && s[i..i + |t|] == t
  }

  /** Containment is transitive: a text that contains `t` contains everything `t` contains. */
  lemma ContainsTransitive(x: string, t: string, s: string)
    requires Contains(x, t) && Contains(t, s)
    ensures Contains(x, s)
  {
    var i :| 0 <= i <= |x| && OccursAt(x, t, i);
    var j :| 0 <= j <= |t| && OccursAt(t, s, j);
    var inX, inT := x[i + j..i + j + |s|], x[i..i + |t|][j..j + |s|];
    forall k | 0 <= k < |s|
      ensures inX[k] == inT[k]
    {
    }
    assert inX == inT;
    assert OccursAt(x, s, i + j);
  }
}
