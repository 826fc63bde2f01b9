/** The borrowing screens: the full list, details, and create, edit and delete
    over the Borrowings table. Every field the form binds is stored as given. */
module Borrowings {
  import opened Models
  import opened Data

  /** A non-empty set of keys has an element to read next. This models nothing of
      the controller: it only lets the loop in `Index` choose its next key with `:|`. */
  lemma HasKey(keys: set<int>)
    requires keys != {}
    ensures exists k :: k in keys
  {
    if forall k :: k !in keys {
      assert false;
    }
  }

  /** Index: the list of every borrowing, whoever the borrower. The table is read
      row by row in an order the database chooses; each stored row appears once. */
  method Index(db: Catalog) returns (r: seq<Borrowing>)
    requires db.Valid()
    ensures |r| == |db.borrowings|
    ensures forall i :: 0 <= i < |r| ==> r[i].id in db.borrowings && r[i] == db.borrowings[r[i].id]
    ensures forall i, j :: 0 <= i < j < |r| ==> r[i].id != r[j].id
    ensures forall k :: k in db.borrowings ==> db.borrowings[k] in r
  {
    var table := db.borrowings;
    r := [];
    var unread := table.Keys;
    while unread != {}
      invariant unread <= table.Keys
      invariant |r| + |unread| == |table|
      invariant forall i :: 0 <= i < |r| ==> r[i].id in table && r[i].id !in unread && r[i] == table[r[i].id]
      invariant forall i, j :: 0 <= i < j < |r| ==> r[i].id != r[j].id
      invariant forall k :: k in table && k !in unread ==> table[k] in r
      decreases |unread|
    {
      HasKey(unread);
      var k :| k in unread;
      r := r + [table[k]];
      unread := unread - {k};
    }
  }

  /** Details: NotFound (None) for a missing or unknown id. */
  function Details(db: Catalog, id: Option<int>): (r: Option<Borrowing>)
    reads db
    requires db.Valid()
    ensures r.None? <==> id.None? || !db.BorrowingExists(id.value)
    ensures r.Some? ==> r.value in db.borrowings.Values && r.value.id == id.value
  {
    ExistsIsKey(db, if id.Some? then id.value else 0);
    if id.Some? && id.value in db.borrowings then Some(db.borrowings[id.value]) else None
  }

  /** Create (POST): a record with no explicit Id is inserted under a fresh key exactly as bound:
      status, borrow date and return date are the caller's, with no defaults. */
  method Create(db: Catalog, borrowing: Borrowing, modelStateValid: bool) returns (res: Response)
    requires db.Valid()
    modifies db`borrowings, db`nextBorrowingId
    ensures db.Valid()
    ensures !modelStateValid ==> res == Invalid
    ensures modelStateValid && (borrowing.id != 0 || !BorrowingRowValid(borrowing)) ==> res == Fault
    ensures modelStateValid && borrowing.id == 0 && BorrowingRowValid(borrowing) ==> res == Redirect
    ensures res != Redirect ==> unchanged(db)
    ensures res == Redirect ==>
              var id := old(db.nextBorrowingId);
              && !old(db.BorrowingExists(id))
              && db.borrowings == old(db.borrowings)[id := borrowing.(id := id)]
              && db.nextBorrowingId == id + 1
              && db.borrowings[id].status == borrowing.status
              && db.borrowings[id].borrowDate == borrowing.borrowDate
              && db.borrowings[id].returnDate == borrowing.returnDate
  {
    if !modelStateValid {
      return Invalid;
    }
    if borrowing.id != 0 || !BorrowingRowValid(borrowing) {
      // an explicit value for the identity column, or a column rule, makes the insert fail
      return Fault;
    }
    var id := db.nextBorrowingId;
    db.borrowings := db.borrowings[id := borrowing.(id := id)];
    db.nextBorrowingId := id + 1;
    return Redirect;
  }

  /** Edit (POST): every bound field is overwritten; an id mismatch or a record
      that has vanished answers NotFound. */
  method Edit(db: Catalog, id: int, borrowing: Borrowing, modelStateValid: bool) returns (res: Response)
    requires db.Valid()
    modifies db`borrowings
    ensures db.Valid()
    ensures id != borrowing.id ==> res == NotFound
    ensures id == borrowing.id && !modelStateValid ==> res == Invalid
    ensures id == borrowing.id && modelStateValid && !old(db.BorrowingExists(id)) ==> res == NotFound
    ensures id == borrowing.id && modelStateValid && old(db.BorrowingExists(id)) ==>
              res == (if BorrowingRowValid(borrowing) then Redirect else Fault)
    ensures res != Redirect ==> unchanged(db)
    ensures res == Redirect ==> db.borrowings == old(db.borrowings)[id := borrowing]
  {
    if id != borrowing.id {
      return NotFound;
    }
    if !modelStateValid {
      return Invalid;
    }
    ExistsIsKey(db, id);
    if id !in db.borrowings {
      return NotFound;
    }
    if !BorrowingRowValid(borrowing) {
      return Fault;
    }
    db.borrowings := db.borrowings[id := borrowing];
    return Redirect;
  }

  /** DeleteConfirmed: only that borrowing is removed; its book stays. A missing
      id saves nothing. */
  method DeleteConfirmed(db: Catalog, id: int) returns (res: Response)
    requires db.Valid()
    modifies db`borrowings
    ensures db.Valid()
    ensures res == Redirect
    ensures db.borrowings == old(db.borrowings) - {id}
    ensures db.books == old(db.books)
    ensures !old(db.BorrowingExists(id)) ==> unchanged(db)
  {
    ExistsIsKey(db, id);
    if id in db.borrowings {
      db.borrowings := db.borrowings - {id};
    }
    return Redirect;
  }
}
