/** FilmListApiView and FilmDetailApiview. */
module FilmViews {
  import opened Wrappers
  import opened Tables
  import opened Responses
  import opened Fields
  import opened Models
  import opened Serializers

  /** Every film, by ascending id. */
  function ShowAll(db: Db): (r: seq<FilmView>)
    ensures |r| == |Ids(db.films)|
    ensures forall i :: 0 <= i < |r| ==> Ids(db.films)[i] in db.films.rows && r[i] == ShowFilm(db, Ids(db.films)[i])
  {
    var ids := Ids(db.films);
    seq(|ids|, i requires 0 <= i < |ids| => ShowFilm(db, ids[i]))
  }

  /** GET on the list view. */
  function List(db: Db): (x: Exchange<Db, FilmView>)
    ensures x.state == db
    ensures x.reply.Envelope? && x.reply.status == OK && x.reply.message == ListedAll && x.reply.data.Items?
    ensures var vs := x.reply.data.items;
      && (forall i :: 0 <= i < |vs| ==> vs[i].id in db.films.rows && vs[i] == ShowFilm(db, vs[i].id))
      && (forall id :: id in db.films.rows ==> exists i :: 0 <= i < |vs| && vs[i].id == id)
      && (forall i, j :: 0 <= i < j < |vs| ==> vs[i].id < vs[j].id)
  {
    var vs := ShowAll(db);
    assert forall id :: id in db.films.rows ==> exists i :: 0 <= i < |vs| && Ids(db.films)[i] == id;
    Exchange(Envelope(OK, ListedAll, Items(vs)), db)
  }

  /** POST on the list view. */
  function Create(db: Db, input: FilmInput): (x: Exchange<Db, FilmView>)
    ensures ValidateFilm(input).Failure? ==> x == Exchange(Bare(BAD_REQUEST, ValidateFilm(input).error), db)
    ensures ValidateFilm(input).Success? ==>
      && x.reply.Envelope? && x.reply.status == CREATED && x.reply.message == Created && x.reply.data.Item?
      && var id := x.reply.data.item.id;
      && id !in db.films.rows
      && x.state == db.(films := x.state.films)
      && x.state.films.rows == db.films.rows[id := NewFilm(ValidateFilm(input).value)]
      && x.reply.data.item == ShowFilm(x.state, id)
  {
    match ValidateFilm(input)
    case Failure(errors) => Exchange(Bare(BAD_REQUEST, errors), db)
    case Success(v) =>
      var (films, id) := Insert(db.films, NewFilm(v));
      var s := db.(films := films);
      Exchange(Envelope(CREATED, Created, Item(ShowFilm(s, id))), s)
  }

  /** GET on the detail view. */
  function Retrieve(db: Db, id: nat): (x: Exchange<Db, FilmView>)
    ensures x.state == db
    ensures id !in db.films.rows <==> x.reply == Envelope(NOT_FOUND, MissingOnGet, EmptyObject)
    ensures id in db.films.rows ==> x.reply == Envelope(OK, Retrieved, Item(ShowFilm(db, id)))
  {
    if id in db.films.rows then Exchange(Envelope(OK, Retrieved, Item(ShowFilm(db, id))), db)
    else Exchange(Envelope(NOT_FOUND, MissingOnGet, EmptyObject), db)
  }

  /** PUT on the detail view. Every scalar column is assigned from the
      request; the relations stay as they were. */
  function Update(db: Db, id: nat, input: FilmInput): (x: Exchange<Db, FilmView>)
    ensures id !in db.films.rows ==> x == Exchange(Envelope(BAD_REQUEST, MissingOnPut, EmptyObject), db)
    ensures id in db.films.rows && ValidateFilm(input).Failure? ==>
      x == Exchange(Bare(BAD_REQUEST, ValidateFilm(input).error), db)
    ensures id in db.films.rows && ValidateFilm(input).Success? ==>
      && x.state == db.(films := x.state.films)
      && x.state.films.rows == db.films.rows[id := Reassign(db.films.rows[id], ValidateFilm(input).value)]
      && x.reply == Envelope(OK, Updated, Item(ShowFilm(x.state, id)))
  {
    if id !in db.films.rows then Exchange(Envelope(BAD_REQUEST, MissingOnPut, EmptyObject), db)
    else
      match ValidateFilm(input)
      case Failure(errors) => Exchange(Bare(BAD_REQUEST, errors), db)
      case Success(v) =>
        var s := db.(films := Put(db.films, id, Reassign(db.films.rows[id], v)));
        Exchange(Envelope(OK, Updated, Item(ShowFilm(s, id))), s)
  }

  /** DELETE on the detail view: the film's ratings go with it. */
  function Delete(db: Db, id: nat): (x: Exchange<Db, FilmView>)
    ensures id !in db.films.rows ==> x == Exchange(Envelope(BAD_REQUEST, MissingOnDelete, EmptyObject), db)
    ensures id in db.films.rows ==>
      && x.reply == Envelope(OK, Deleted, Omitted)
      && x.state == DeleteFilm(db, id)
      && x.state.films.rows == db.films.rows - {id}
      && (forall rid :: rid in x.state.ratings.rows <==> rid in db.ratings.rows && db.ratings.rows[rid].film != id)
  {
    if id !in db.films.rows then Exchange(Envelope(BAD_REQUEST, MissingOnDelete, EmptyObject), db)
    else Exchange(Envelope(OK, Deleted, Omitted), DeleteFilm(db, id))
  }

  // ---------------------------------------------------------------------------
  // Properties

  /** Same request but for the relation lists. */
  predicate SameScalars(a: FilmInput, b: FilmInput)
  {
    a.judul == b.judul && a.thumbnail == b.thumbnail && a.status == b.status
    && a.tahun == b.tahun && a.deskripsi == b.deskripsi && a.durasi == b.durasi
  }

  /** The relation fields are read-only: the id lists a request carries are
      never looked at. */
  lemma {:induction false} RelationsAreReadOnly(db: Db, id: nat, a: FilmInput, b: FilmInput)
    requires SameScalars(a, b)
    ensures Create(db, a) == Create(db, b)
    ensures Update(db, id, a) == Update(db, id, b)
  {
    assert a.(sutradara := b.sutradara, aktor := b.aktor, genre := b.genre, negara := b.negara, bahasa := b.bahasa) == b;
    ValidateFilmIgnoresRelations(a, b.sutradara, b.aktor, b.genre, b.negara, b.bahasa);
  }

  lemma ValidateFilmIgnoresRelations(a: FilmInput, s: Option<seq<int>>, ak: Option<seq<int>>, g: Option<seq<int>>,
                                     n: Option<seq<int>>, bh: Option<seq<int>>)
    ensures ValidateFilm(a) == ValidateFilm(a.(sutradara := s, aktor := ak, genre := g, negara := n, bahasa := bh))
  {
  }

  /** A film created through the API is linked to nothing. */
  lemma {:induction false} CreatedFilmUnlinked(db: Db, input: FilmInput, k: CatalogKind)
    requires ValidateFilm(input).Success?
    ensures ShownNames(Create(db, input).reply.data.item, k) == []
  {
    var x := Create(db, input);
    var fid := x.reply.data.item.id;
    assert Related(x.state.films.rows[fid], k) == {};
    ShownNamesOf(x.state, fid, k);
    NoLinksNoNames(Catalog(x.state, k));
  }

  /** An update through the API leaves the film's links as they were. */
  lemma {:induction false} UpdateKeepsLinks(db: Db, id: nat, input: FilmInput, k: CatalogKind)
    requires id in db.films.rows && ValidateFilm(input).Success?
    ensures Related(Update(db, id, input).state.films.rows[id], k) == Related(db.films.rows[id], k)
  {
  }

  /** In a consistent store no rating names a fresh id, so a created film
      has no average rating. */
  lemma {:induction false} CreatedFilmUnrated(db: Db, input: FilmInput)
    requires RatingsValid(db)
    requires ValidateFilm(input).Success?
    ensures Create(db, input).reply.data.item.averageRating.None?
  {
    var x := Create(db, input);
    var id := x.reply.data.item.id;
    ShowFilmSpec(x.state, id, Aktor);
    assert RatingsOfFilm(x.state.ratings, id) == {};
  }

  /** Film.clean is not part of saving through the API: a thumbnail over
      1 MB that is a readable image is stored, and the stored film is one
      `clean` refuses. */
  lemma {:induction false} OversizedThumbnailStored(db: Db, input: FilmInput)
    requires ValidateFilm(input).Success?
    requires input.thumbnail.Some? && input.thumbnail.value.size > MAX_THUMBNAIL_BYTES
    ensures var x := Create(db, input);
      x.reply.Envelope? && x.reply.status == CREATED &&
      Clean(x.state.films.rows[x.reply.data.item.id]) == Some(THUMBNAIL_TOO_LARGE)
  {
  }

  /** Storing one film that fits its columns and links existing entries,
      under a new id or an old one, keeps the database consistent. */
  lemma {:induction false} StoreFilmKeepsConsistent(db: Db, s: Db, id: nat, f: Film)
    requires Consistent(db)
    requires s == db.(films := s.films)
    requires s.films.rows == db.films.rows[id := f]
    requires FilmFieldsOk(f) && forall k :: Related(f, k) <= Catalog(db, k).rows.Keys
    ensures Consistent(s)
  {
    assert forall k :: Catalog(s, k) == Catalog(db, k);
    forall fid, k | fid in s.films.rows
      ensures Related(s.films.rows[fid], k) <= Catalog(s, k).rows.Keys
    {
      if fid != id {
        assert Related(db.films.rows[fid], k) <= Catalog(db, k).rows.Keys;
      }
    }
    forall fid | fid in s.films.rows
      ensures FilmFieldsOk(s.films.rows[fid])
    {
      if fid != id {
        assert FilmFieldsOk(db.films.rows[fid]);
      }
    }
    assert RatingsValid(s);
    assert CatalogsValid(s);
  }

  /** The film handlers keep the database consistent. */
  lemma {:induction false} CreateKeepsConsistent(db: Db, input: FilmInput)
    requires Consistent(db)
    ensures Consistent(Create(db, input).state)
  {
    if ValidateFilm(input).Success? {
      var x := Create(db, input);
      var f := NewFilm(ValidateFilm(input).value);
      ValidatedFilmFits(input, f);
      StoreFilmKeepsConsistent(db, x.state, x.reply.data.item.id, f);
    }
  }

  lemma {:induction false} UpdateKeepsConsistent(db: Db, id: nat, input: FilmInput)
    requires Consistent(db)
    ensures Consistent(Update(db, id, input).state)
  {
    if id in db.films.rows && ValidateFilm(input).Success? {
      var x := Update(db, id, input);
      var f := Reassign(db.films.rows[id], ValidateFilm(input).value);
      ValidatedFilmFits(input, db.films.rows[id]);
      assert forall k :: Related(db.films.rows[id], k) <= Catalog(db, k).rows.Keys;
      StoreFilmKeepsConsistent(db, x.state, id, f);
    }
  }

  lemma {:induction false} DeleteKeepsConsistent(db: Db, id: nat)
    requires Consistent(db)
    ensures Consistent(Delete(db, id).state)
  {
    if id in db.films.rows {
      DeleteFilmConsistent(db, id);
    }
  }
}
