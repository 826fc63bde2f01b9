/** The publisher screens: details, create, edit, and a delete that the
    database's restrict foreign key refuses while a book names the publisher. */
module Publishers {
  import opened Models
  import opened Data

  /** Details: NotFound (None) for a missing or unknown id. */
  function Details(db: Catalog, id: Option<int>): (r: Option<Publisher>)
    reads db
    requires db.Valid()
    ensures r.None? <==> id.None? || !db.PublisherExists(id.value)
    ensures r.Some? ==> r.value in db.publishers.Values && r.value.id == id.value
  {
    ExistsIsKey(db, if id.Some? then id.value else 0);
    if id.Some? && id.value in db.publishers then Some(db.publishers[id.value]) else None
  }

  /** Create (POST): inserted under a fresh key only when the input is valid and
      carries no explicit Id. */
  method Create(db: Catalog, publisher: Publisher, modelStateValid: bool) returns (res: Response)
    requires db.Valid()
    modifies db`publishers, db`nextPublisherId
    ensures db.Valid()
    ensures !modelStateValid ==> res == Invalid
    ensures modelStateValid && (publisher.id != 0 || !PublisherRowValid(publisher)) ==> res == Fault
    ensures modelStateValid && publisher.id == 0 && PublisherRowValid(publisher) ==> res == Redirect
    ensures res != Redirect ==> unchanged(db)
    ensures res == Redirect ==>
              var id := old(db.nextPublisherId);
              && !old(db.PublisherExists(id))
              && db.publishers == old(db.publishers)[id := publisher.(id := id)]
              && db.nextPublisherId == id + 1
  {
    if !modelStateValid {
      return Invalid;
    }
    if publisher.id != 0 || !PublisherRowValid(publisher) {
      // an explicit value for the identity column, or a column rule, makes the insert fail
      return Fault;
    }
    var id := db.nextPublisherId;
    db.publishers := db.publishers[id := publisher.(id := id)];
    db.nextPublisherId := id + 1;
    return Redirect;
  }

  /** Edit (POST): the name is overwritten; an id mismatch or a publisher that has
      vanished answers NotFound. */
  method Edit(db: Catalog, id: int, publisher: Publisher, modelStateValid: bool) returns (res: Response)
    requires db.Valid()
    modifies db`publishers
    ensures db.Valid()
    ensures id != publisher.id ==> res == NotFound
    ensures id == publisher.id && !modelStateValid ==> res == Invalid
    ensures id == publisher.id && modelStateValid && !old(db.PublisherExists(id)) ==> res == NotFound
    ensures id == publisher.id && modelStateValid && old(db.PublisherExists(id)) ==>
              res == (if PublisherRowValid(publisher) then Redirect else Fault)
    ensures res != Redirect ==> unchanged(db)
    ensures res == Redirect ==> db.publishers == old(db.publishers)[id := publisher]
  {
    if id != publisher.id {
      return NotFound;
    }
    if !modelStateValid {
      return Invalid;
    }
    ExistsIsKey(db, id);
    if id !in db.publishers {
      return NotFound;
    }
    if !PublisherRowValid(publisher) {
      return Fault;
    }
    db.publishers := db.publishers[id := publisher];
    return Redirect;
  }

  /** DeleteConfirmed: a missing id saves nothing; a publisher some book names
      cannot be removed (the save fails and nothing changes); otherwise exactly
      that publisher is removed. */
  method DeleteConfirmed(db: Catalog, id: int) returns (res: Response)
    requires db.Valid()
    modifies db`publishers
    ensures db.Valid()
    ensures res == Fault <==> old(db.PublisherExists(id)) && old(db.PublisherInUse(id))
    ensures res != Fault ==> res == Redirect
    ensures res == Fault || !old(db.PublisherExists(id)) ==> unchanged(db)
    ensures res == Redirect ==> db.publishers == old(db.publishers) - {id}
    ensures db.books == old(db.books)
  {
    ExistsIsKey(db, id);
    if id in db.publishers {
      if db.PublisherInUse(id) {
        // the restrict foreign key rejects the delete and the save throws
        return Fault;
      }
      db.publishers := db.publishers - {id};
    }
    return Redirect;
  }
}
