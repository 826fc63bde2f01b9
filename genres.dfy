/** The genre screens: a name search, details, create, edit, and a delete that
    the action itself refuses while any book is in the genre. */
module Genres {
  import opened Models
  import opened Data

  /** Index: the genres whose name contains `search`; all genres when it is empty. */
  function Index(db: Catalog, search: string): (r: set<Genre>)
    reads db
    ensures r <= db.genres.Values
    ensures forall g :: g in r <==> g in db.genres.Values && (search == [] || Contains(g.name, search))
    ensures search == [] ==> r == db.genres.Values
  {
    if search == [] then db.genres.Values else set g | g in db.genres.Values && Contains(g.name, search)
  }

  /** Refining the search narrows the list: a search text that contains `s`
      lists only genres that the search `s` lists too. */
  lemma NarrowerSearch(db: Catalog, s: string, t: string)
    requires Contains(t, s)
    ensures Index(db, t) <= Index(db, s)
  {
    forall g | g in Index(db, t)
      ensures g in Index(db, s)
    {
      if s != [] {
        ContainsTransitive(g.name, t, s);
      }
    }
  }

  /** Details: NotFound (None) for a missing or unknown id. */
  function Details(db: Catalog, id: Option<int>): (r: Option<Genre>)
    reads db
    requires db.Valid()
    ensures r.None? <==> id.None? || !db.GenreExists(id.value)
    ensures r.Some? ==> r.value in db.genres.Values && r.value.id == id.value
  {
    ExistsIsKey(db, if id.Some? then id.value else 0);
    if id.Some? && id.value in db.genres then Some(db.genres[id.value]) else None
  }

  /** Create (POST): the genre is inserted under a fresh key when the form is valid,
      no explicit Id is posted and the row fits its columns. */
  method Create(db: Catalog, genre: Genre, modelStateValid: bool) returns (res: Response)
    requires db.Valid()
    modifies db`genres, db`nextGenreId
    ensures db.Valid()
    ensures !modelStateValid ==> res == Invalid
    ensures modelStateValid && (genre.id != 0 || !GenreRowValid(genre)) ==> res == Fault
    ensures modelStateValid && genre.id == 0 && GenreRowValid(genre) ==> res == Redirect
    ensures res != Redirect ==> unchanged(db)
    ensures res == Redirect ==>
              var id := old(db.nextGenreId);
              && !old(db.GenreExists(id))
              && db.genres == old(db.genres)[id := genre.(id := id)]
              && db.nextGenreId == id + 1
  {
    if !modelStateValid {
      return Invalid;
    }
    if genre.id != 0 || !GenreRowValid(genre) {
      // an explicit value for the identity column, or a column rule, makes the insert fail
      return Fault;
    }
    var id := db.nextGenreId;
    db.genres := db.genres[id := genre.(id := id)];
    db.nextGenreId := id + 1;
    return Redirect;
  }

  /** Edit (POST): the stored name is replaced; an id mismatch or a genre that has
      vanished answers NotFound. */
  method Edit(db: Catalog, id: int, genre: Genre, modelStateValid: bool) returns (res: Response)
    requires db.Valid()
    modifies db`genres
    ensures db.Valid()
    ensures id != genre.id ==> res == NotFound
    ensures id == genre.id && !modelStateValid ==> res == Invalid
    ensures id == genre.id && modelStateValid && !old(db.GenreExists(id)) ==> res == NotFound
    ensures id == genre.id && modelStateValid && old(db.GenreExists(id)) ==>
              res == (if GenreRowValid(genre) then Redirect else Fault)
    ensures res != Redirect ==> unchanged(db)
    ensures res == Redirect ==> db.genres == old(db.genres)[id := genre]
  {
    if id != genre.id {
      return NotFound;
    }
    if !modelStateValid {
      return Invalid;
    }
    ExistsIsKey(db, id);
    if id !in db.genres {
      return NotFound;
    }
    if !GenreRowValid(genre) {
      return Fault;
    }
    db.genres := db.genres[id := genre];
    return Redirect;
  }

  /** DeleteConfirmed: NotFound for an unknown id; refused while a book is in the
      genre; otherwise exactly that genre is removed. */
  method DeleteConfirmed(db: Catalog, id: int) returns (res: Response)
    requires db.Valid()
    modifies db`genres
    ensures db.Valid()
    ensures res == NotFound <==> !old(db.GenreExists(id))
    ensures res == Refused <==> old(db.GenreExists(id)) && old(db.GenreInUse(id))
    ensures res == Redirect <==> old(db.GenreExists(id)) && !old(db.GenreInUse(id))
    ensures res != Redirect ==> unchanged(db)
    ensures res == Redirect ==> db.genres == old(db.genres) - {id}
    ensures db.books == old(db.books)
  {
    ExistsIsKey(db, id);
    if id !in db.genres {
      return NotFound;
    }
    if db.GenreInUse(id) {
      return Refused;
    }
    db.genres := db.genres - {id};
    return Redirect;
  }
}
