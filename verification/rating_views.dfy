/** RatingListAPiView and RatingDetailApiview. The `(user, film)` pair is
    unique in the database: an INSERT that repeats a pair raises
    IntegrityError, which the create view turns into a 400 reply; the update
    view has no such handler, so a repeated pair there is a 500. */
module RatingViews {
  import opened Wrappers
  import opened Tables
  import opened Responses
  import opened Fields
  import opened Decimals
  import opened Models
  import opened Serializers

  /** Some rating already holds the pair (no id is 0, so no row is excepted). */
  predicate Rated(t: Table<Rating>, user: nat, film: nat)
  {
    PairTaken(t, user, film, 0)
  }

  /** Every rating, by ascending id. */
  function ShowAll(t: Table<Rating>): (r: seq<RatingView>)
    ensures |r| == |Ids(t)|
    ensures forall i :: 0 <= i < |r| ==> Ids(t)[i] in t.rows && r[i] == ShowRating(t, Ids(t)[i])
  {
    var ids := Ids(t);
    seq(|ids|, i requires 0 <= i < |ids| => ShowRating(t, ids[i]))
  }

  /** GET on the list view. */
  function List(db: Db): (x: Exchange<Db, RatingView>)
    ensures x.state == db
    ensures x.reply.Envelope? && x.reply.status == OK && x.reply.message == ListedAll && x.reply.data.Items?
    ensures var vs := x.reply.data.items;
      && (forall i :: 0 <= i < |vs| ==> vs[i].id in db.ratings.rows && vs[i] == ShowRating(db.ratings, vs[i].id))
      && (forall id :: id in db.ratings.rows ==> exists i :: 0 <= i < |vs| && vs[i].id == id)
  {
    var vs := ShowAll(db.ratings);
    assert forall id :: id in db.ratings.rows ==> exists i :: 0 <= i < |vs| && Ids(db.ratings)[i] == id;
    Exchange(Envelope(OK, ListedAll, Items(vs)), db)
  }

  function Validate(db: Db, input: RatingInput): Result<Rating, seq<FieldError>>
  {
    ValidateRating(db.users.rows.Keys, db.films.rows.Keys, input)
  }

  /** POST on the list view. */
  function Create(db: Db, input: RatingInput): (x: Exchange<Db, RatingView>)
    ensures Validate(db, input).Failure? ==>
      x == Exchange(Envelope(BAD_REQUEST, InvalidData, Errors(Validate(db, input).error)), db)
    ensures Validate(db, input).Success? && Rated(db.ratings, Validate(db, input).value.user, Validate(db, input).value.film) ==>
      x == Exchange(Envelope(BAD_REQUEST, DuplicatePair, EmptyObject), db)
    ensures x.reply.Envelope? && x.reply.status == CREATED <==>
      Validate(db, input).Success? && !Rated(db.ratings, Validate(db, input).value.user, Validate(db, input).value.film)
    ensures x.reply.Envelope? && x.reply.status == CREATED ==>
      && x.reply.message == Created && x.reply.data.Item?
      && var id := x.reply.data.item.id;
      && id !in db.ratings.rows
      && x.state == db.(ratings := x.state.ratings)
      && x.state.ratings.rows == db.ratings.rows[id := Validate(db, input).value]
      && x.reply.data.item == ShowRating(x.state.ratings, id)
  {
    match Validate(db, input)
    case Failure(errors) => Exchange(Envelope(BAD_REQUEST, InvalidData, Errors(errors)), db)
    case Success(r) =>
      if Rated(db.ratings, r.user, r.film) then Exchange(Envelope(BAD_REQUEST, DuplicatePair, EmptyObject), db)
      else
        var (ratings, id) := Insert(db.ratings, r);
        Exchange(Envelope(CREATED, Created, Item(ShowRating(ratings, id))), db.(ratings := ratings))
  }

  /** GET on the detail view. */
  function Retrieve(db: Db, id: nat): (x: Exchange<Db, RatingView>)
    ensures x.state == db
    ensures id !in db.ratings.rows <==> x.reply == Envelope(NOT_FOUND, MissingOnGet, EmptyObject)
    ensures id in db.ratings.rows ==> x.reply == Envelope(OK, Retrieved, Item(ShowRating(db.ratings, id)))
  {
    if id in db.ratings.rows then Exchange(Envelope(OK, Retrieved, Item(ShowRating(db.ratings, id))), db)
    else Exchange(Envelope(NOT_FOUND, MissingOnGet, EmptyObject), db)
  }

  /** PUT on the detail view. Moving a rating onto a pair another rating
      holds fails in the database, and nothing catches it. */
  function Update(db: Db, id: nat, input: RatingInput): (x: Exchange<Db, RatingView>)
    ensures id !in db.ratings.rows ==> x == Exchange(Envelope(BAD_REQUEST, MissingOnPut, EmptyObject), db)
    ensures id in db.ratings.rows && Validate(db, input).Failure? ==>
      x == Exchange(Bare(BAD_REQUEST, Validate(db, input).error), db)
    ensures id in db.ratings.rows && Validate(db, input).Success? ==>
      var r := Validate(db, input).value;
      && (PairTaken(db.ratings, r.user, r.film, id) ==> x == Exchange(ServerError, db))
      && (!PairTaken(db.ratings, r.user, r.film, id) ==>
            && x.state == db.(ratings := x.state.ratings)
            && x.state.ratings.rows == db.ratings.rows[id := r]
            && x.reply == Envelope(OK, Updated, Item(ShowRating(x.state.ratings, id))))
  {
    if id !in db.ratings.rows then Exchange(Envelope(BAD_REQUEST, MissingOnPut, EmptyObject), db)
    else
      match Validate(db, input)
      case Failure(errors) => Exchange(Bare(BAD_REQUEST, errors), db)
      case Success(r) =>
        if PairTaken(db.ratings, r.user, r.film, id) then Exchange(ServerError, db)
        else
          var ratings := Put(db.ratings, id, r);
          Exchange(Envelope(OK, Updated, Item(ShowRating(ratings, id))), db.(ratings := ratings))
  }

  /** DELETE on the detail view. */
  function Delete(db: Db, id: nat): (x: Exchange<Db, RatingView>)
    ensures id !in db.ratings.rows ==> x == Exchange(Envelope(BAD_REQUEST, MissingOnDelete, EmptyObject), db)
    ensures id in db.ratings.rows ==>
      && x.reply == Envelope(OK, Deleted, Omitted)
      && x.state == db.(ratings := x.state.ratings)
      && x.state.ratings.rows == db.ratings.rows - {id}
  {
    if id !in db.ratings.rows then Exchange(Envelope(BAD_REQUEST, MissingOnDelete, EmptyObject), db)
    else Exchange(Envelope(OK, Deleted, Omitted), db.(ratings := Remove(db.ratings, {id})))
  }

  // ---------------------------------------------------------------------------
  // Properties

  /** Storing one valid rating whose pair no other rating holds, under a new
      id or an old one, keeps the database consistent. */
  lemma {:induction false} StoreRatingKeepsConsistent(db: Db, s: Db, id: nat, r: Rating)
    requires Consistent(db)
    requires s == db.(ratings := s.ratings)
    requires s.ratings.rows == db.ratings.rows[id := r]
    requires r.user in db.users.rows && r.film in db.films.rows && RATING_LEAST <= r.tenths <= RATING_MOST
    requires !PairTaken(db.ratings, r.user, r.film, id)
    ensures Consistent(s)
  {
    assert forall k :: Catalog(s, k) == Catalog(db, k);
    forall a, b | a in s.ratings.rows && b in s.ratings.rows && a != b
      ensures (s.ratings.rows[a].user, s.ratings.rows[a].film) != (s.ratings.rows[b].user, s.ratings.rows[b].film)
    {
      if a == id {
        assert b in db.ratings.rows && b != id;
      } else if b == id {
        assert a in db.ratings.rows && a != id;
      }
    }
    assert LinksExist(s) && CatalogsValid(s);
  }

  /** The rating handlers keep the database consistent; in particular no two
      ratings ever share a `(user, film)` pair. */
  lemma {:induction false} CreateKeepsConsistent(db: Db, input: RatingInput)
    requires Consistent(db)
    ensures Consistent(Create(db, input).state)
  {
    var x := Create(db, input);
    if x.reply.Envelope? && x.reply.status == CREATED {
      var r := Validate(db, input).value;
      assert !PairTaken(db.ratings, r.user, r.film, x.reply.data.item.id);
      StoreRatingKeepsConsistent(db, x.state, x.reply.data.item.id, r);
    }
  }

  lemma {:induction false} UpdateKeepsConsistent(db: Db, id: nat, input: RatingInput)
    requires Consistent(db)
    ensures Consistent(Update(db, id, input).state)
  {
    if id in db.ratings.rows && Validate(db, input).Success? {
      var r := Validate(db, input).value;
      if !PairTaken(db.ratings, r.user, r.film, id) {
        StoreRatingKeepsConsistent(db, Update(db, id, input).state, id, r);
      }
    }
  }

  lemma {:induction false} DeleteKeepsConsistent(db: Db, id: nat)
    requires Consistent(db)
    ensures Consistent(Delete(db, id).state)
  {
    var s := Delete(db, id).state;
    assert forall k :: Catalog(s, k) == Catalog(db, k);
    assert LinksExist(s) && CatalogsValid(s);
  }

  /** A rating read back from the API and sent again unchanged as an update
      of itself is accepted and changes nothing. */
  lemma {:induction false} ShownRatingResubmits(db: Db, id: nat)
    requires Consistent(db)
    requires id in db.ratings.rows
    ensures var v := ShowRating(db.ratings, id);
      Update(db, id, RatingInput(Some(v.user), Some(v.film), Some(v.rating))) ==
        Exchange(Envelope(OK, Updated, Item(v)), db)
  {
    var v := ShowRating(db.ratings, id);
    var r := db.ratings.rows[id];
    RatingShownRoundTrip(db.ratings, id, db.users.rows.Keys, db.films.rows.Keys);
    assert !PairTaken(db.ratings, r.user, r.film, id);
    assert db.ratings.rows[id := r] == db.ratings.rows;
  }
}
