/** The tables of the movie catalogue: the five catalog kinds, films, ratings,
    users with their profiles, and login tokens; the constraints the model
    classes declare; and what their `on_delete` rules do to the other tables. */
module Models {
  import opened Wrappers
  import opened Tables

  // ---------------------------------------------------------------------------
  // Catalog entries: one name column each

  datatype CatalogKind = Aktor | Sutradara | Genre | Negara | Bahasa

  /** `max_length` of the name column. */
  function NameLimit(k: CatalogKind): nat
  {
    if k == Bahasa then 100 else 255
  }

  /** The name column, as the request and the serializer call it. */
  function NameColumn(k: CatalogKind): string
  {
    match k
    case Aktor => "nama_aktor"
    case Sutradara => "nama_sutradara"
    case Genre => "genre"
    case Negara => "negara"
    case Bahasa => "bahasa"
  }

  // ---------------------------------------------------------------------------
  // Choices

  /** `Film.status`. Its default ("Released") applies only when a Film is
      built without a status, which the API never does. */
  datatype FilmStatus = Released | Upcoming

  function FilmStatusName(s: FilmStatus): string
  {
    match s
    case Released => "Released"
    case Upcoming => "Upcoming"
  }

  /** `Profile.status`: "Aktif" or "Tidak Aktif". */
  datatype ProfileStatus = Aktif | TidakAktif

  const DEFAULT_PROFILE_STATUS: ProfileStatus := Aktif

  // ---------------------------------------------------------------------------
  // Films

  /** A stored image file: its name and its size in bytes. */
  datatype Image = Image(name: string, size: nat)

  const JUDUL_MAX_LENGTH: nat := 255
  const TAHUN_MAX: int := 9999
  /** `max_length` an ImageField gets when the model does not set one. */
  const FILE_NAME_MAX_LENGTH: nat := 100
  /** 1 MB, the thumbnail limit of `Film.clean`. */
  const MAX_THUMBNAIL_BYTES: nat := 1048576
  const THUMBNAIL_TOO_LARGE: string := "File gambar terlalu besar. Ukuran maksimal adalah 1 MB"

  datatype Film = Film(
    judul: string,
    thumbnail: Option<Image>,
    status: FilmStatus,
    tahun: int,
    deskripsi: string,
    durasi: int,
    sutradara: set<nat>,
    aktor: set<nat>,
    genre: set<nat>,
    negara: set<nat>,
    bahasa: set<nat>)

  /** The ids a film's many-to-many relation of kind `k` links to. */
  function Related(f: Film, k: CatalogKind): set<nat>
  {
    match k
    case Aktor => f.aktor
    case Sutradara => f.sutradara
    case Genre => f.genre
    case Negara => f.negara
    case Bahasa => f.bahasa
  }

  function Relink(f: Film, k: CatalogKind, ids: set<nat>): (g: Film)
    ensures Related(g, k) == ids
    ensures forall j :: j != k ==> Related(g, j) == Related(f, j)
    ensures g.judul == f.judul && g.thumbnail == f.thumbnail && g.status == f.status
    ensures g.tahun == f.tahun && g.deskripsi == f.deskripsi && g.durasi == f.durasi
  {
    match k
    case Aktor => f.(aktor := ids)
    case Sutradara => f.(sutradara := ids)
    case Genre => f.(genre := ids)
    case Negara => f.(negara := ids)
    case Bahasa => f.(bahasa := ids)
  }

  /** The column constraints of a film: `judul` fits its column, `tahun` is a
      PositiveIntegerField capped at 9999, `durasi` a PositiveIntegerField. */
  predicate FilmFieldsOk(f: Film)
  {
    && |f.judul| <= JUDUL_MAX_LENGTH
    && 0 <= f.tahun <= TAHUN_MAX
    && 0 <= f.durasi
  }

  /** `Film.clean`: a thumbnail over 1 MB is refused. Django calls `clean`
      from model forms (the admin), not from `save`. */
  function Clean(f: Film): (r: Option<string>)
    ensures r.None? <==> f.thumbnail.None? || f.thumbnail.value.size <= MAX_THUMBNAIL_BYTES
    ensures r.Some? ==> r.value == THUMBNAIL_TOO_LARGE
  {
    if f.thumbnail.Some? && f.thumbnail.value.size > MAX_THUMBNAIL_BYTES then Some(THUMBNAIL_TOO_LARGE) else None
  }

  // ---------------------------------------------------------------------------
  // Ratings

  /** A rating, its value kept in tenths (a DecimalField with one decimal). */
  datatype Rating = Rating(user: nat, film: nat, tenths: int)

  const RATING_MAX_DIGITS: nat := 3
  const RATING_PLACES: nat := 1
  /** 0.0 and 10.0, in tenths. */
  const RATING_LEAST: int := 0
  const RATING_MOST: int := 100

  /** The `(user, film)` UniqueConstraint: no two ratings share a pair. */
  predicate PairUnique(t: Table<Rating>)
  {
    forall a, b :: a in t.rows && b in t.rows && a != b ==>
      (t.rows[a].user, t.rows[a].film) != (t.rows[b].user, t.rows[b].film)
  }

  /** Some rating other than `except` already holds the pair. */
  predicate PairTaken(t: Table<Rating>, user: nat, film: nat, except: nat)
  {
    exists id :: id in t.rows && id != except && t.rows[id].user == user && t.rows[id].film == film
  }

  // ---------------------------------------------------------------------------
  // Users, profiles, tokens

  /** A user account. `password` stands for what `set_password` was given;
      hashing is not modelled. */
  datatype User = User(
    username: string,
    email: string,
    password: string,
    firstName: string,
    lastName: string,
    isActive: bool,
    isAuthors: bool,
    isVisitors: bool)

  const DEFAULT_AVATAR: string := "profile_images/person.png"

  datatype Profile = Profile(
    user: nat,
    birth: Option<string>,
    avatar: Option<string>,
    bio: Option<string>,
    status: ProfileStatus,
    userCreate: Option<nat>,
    userUpdate: Option<nat>)

  /** A fresh profile with every column at its default. */
  function NewProfile(user: nat, creator: Option<nat>): (p: Profile)
    ensures p.user == user && p.userCreate == creator && p.userUpdate.None?
    ensures p.birth.None? && p.bio.None? && p.avatar == Some(DEFAULT_AVATAR)
    ensures p.status == DEFAULT_PROFILE_STATUS
  {
    Profile(user, None, Some(DEFAULT_AVATAR), None, DEFAULT_PROFILE_STATUS, creator, None)
  }

  /** The profile of `user`, looked up by ascending profile id. */
  function ProfileOf(t: Table<Profile>, user: nat): (r: Option<nat>)
    ensures r.Some? ==> r.value in t.rows && t.rows[r.value].user == user
    ensures r.None? <==> forall id :: id in t.rows ==> t.rows[id].user != user
  {
    FirstProfile(t, Ids(t), user)
  }

  function FirstProfile(t: Table<Profile>, ids: seq<nat>, user: nat): (r: Option<nat>)
    requires forall i :: 0 <= i < |ids| ==> ids[i] in t.rows
    ensures r.Some? ==> r.value in ids && t.rows[r.value].user == user
    ensures r.None? <==> forall i :: 0 <= i < |ids| ==> t.rows[ids[i]].user != user
  {
    if ids == [] then None
    else if t.rows[ids[0]].user == user then Some(ids[0])
    else FirstProfile(t, ids[1..], user)
  }

  // ---------------------------------------------------------------------------
  // The whole database

  datatype Db = Db(
    aktor: Table<string>,
    sutradara: Table<string>,
    genre: Table<string>,
    negara: Table<string>,
    bahasa: Table<string>,
    films: Table<Film>,
    ratings: Table<Rating>,
    users: Table<User>,
    profiles: Table<Profile>,
    tokens: map<nat, string>)   // user id -> token key (authtoken's Token)

  /** The catalog store of kind `k`: one generic store, five instances. */
  function Catalog(db: Db, k: CatalogKind): Table<string>
  {
    match k
    case Aktor => db.aktor
    case Sutradara => db.sutradara
    case Genre => db.genre
    case Negara => db.negara
    case Bahasa => db.bahasa
  }

  function WithCatalog(db: Db, k: CatalogKind, t: Table<string>): (r: Db)
    ensures Catalog(r, k) == t
    ensures forall j :: j != k ==> Catalog(r, j) == Catalog(db, j)
    ensures r.films == db.films && r.ratings == db.ratings && r.users == db.users
    ensures r.profiles == db.profiles && r.tokens == db.tokens
  {
    match k
    case Aktor => db.(aktor := t)
    case Sutradara => db.(sutradara := t)
    case Genre => db.(genre := t)
    case Negara => db.(negara := t)
    case Bahasa => db.(bahasa := t)
  }

  // ---------------------------------------------------------------------------
  // Integrity of the database

  /** Many-to-many links only point at existing catalog entries. */
  predicate LinksExist(db: Db)
  {
    forall id, k :: id in db.films.rows ==> Related(db.films.rows[id], k) <= Catalog(db, k).rows.Keys
  }

  /** Every rating's foreign keys name a user and a film, and its value is
      between 0.0 and 10.0. */
  predicate RatingsValid(db: Db)
  {
    forall id :: id in db.ratings.rows ==>
      && db.ratings.rows[id].user in db.users.rows
      && db.ratings.rows[id].film in db.films.rows
      && RATING_LEAST <= db.ratings.rows[id].tenths <= RATING_MOST
  }

  /** Every profile belongs to a user and its bookkeeping keys name users. */
  predicate ProfilesValid(db: Db)
  {
    forall id :: id in db.profiles.rows ==>
      && db.profiles.rows[id].user in db.users.rows
      && (db.profiles.rows[id].userCreate.Some? ==> db.profiles.rows[id].userCreate.value in db.users.rows)
      && (db.profiles.rows[id].userUpdate.Some? ==> db.profiles.rows[id].userUpdate.value in db.users.rows)
  }

  /** `Profile.user` is one-to-one. */
  predicate OneProfileEach(t: Table<Profile>)
  {
    forall a, b :: a in t.rows && b in t.rows && a != b ==> t.rows[a].user != t.rows[b].user
  }

  /** `username` is unique. */
  predicate UsernamesUnique(t: Table<User>)
  {
    forall a, b :: a in t.rows && b in t.rows && a != b ==> t.rows[a].username != t.rows[b].username
  }

  /** Every catalog name fits its column and is not blank. */
  predicate CatalogsValid(db: Db)
  {
    forall k, id :: id in Catalog(db, k).rows ==> 0 < |Catalog(db, k).rows[id]| <= NameLimit(k)
  }

  predicate FilmsValid(db: Db)
  {
    forall id :: id in db.films.rows ==> FilmFieldsOk(db.films.rows[id])
  }

  /** Everything the schema guarantees about a database state. */
  predicate Consistent(db: Db)
  {
    && CatalogsValid(db)
    && LinksExist(db)
    && FilmsValid(db)
    && RatingsValid(db)
    && PairUnique(db.ratings)
    && ProfilesValid(db)
    && OneProfileEach(db.profiles)
    && UsernamesUnique(db.users)
    && db.tokens.Keys <= db.users.rows.Keys
  }

  // ---------------------------------------------------------------------------
  // on_delete rules

  /** The ratings of one film. */
  function RatingsOfFilm(t: Table<Rating>, film: nat): set<nat>
  {
    set id | id in t.rows && t.rows[id].film == film
  }

  /** The ratings made by one user. */
  function RatingsByUser(t: Table<Rating>, user: nat): set<nat>
  {
    set id | id in t.rows && t.rows[id].user == user
  }

  /** Deleting a film: `Rating.film` is CASCADE, so its ratings go with it;
      its many-to-many link rows go too (they live on the film). */
  function DeleteFilm(db: Db, id: nat): (r: Db)
    ensures r.films.rows == db.films.rows - {id}
    ensures forall rid :: rid in r.ratings.rows <==> rid in db.ratings.rows && db.ratings.rows[rid].film != id
    ensures forall rid :: rid in r.ratings.rows ==> r.ratings.rows[rid] == db.ratings.rows[rid]
    ensures forall k :: Catalog(r, k) == Catalog(db, k)
    ensures r.users == db.users && r.profiles == db.profiles && r.tokens == db.tokens
  {
    db.(films := Remove(db.films, {id}), ratings := Remove(db.ratings, RatingsOfFilm(db.ratings, id)))
  }

  /** Deleting a catalog entry also deletes the link rows that point at it,
      so it disappears from every film's relation of that kind. */
  function DeleteCatalogEntry(db: Db, k: CatalogKind, id: nat): (r: Db)
    ensures Catalog(r, k).rows == Catalog(db, k).rows - {id}
    ensures forall j :: j != k ==> Catalog(r, j) == Catalog(db, j)
    ensures r.films.rows.Keys == db.films.rows.Keys
    ensures forall fid :: fid in db.films.rows ==>
      r.films.rows[fid] == Relink(db.films.rows[fid], k, Related(db.films.rows[fid], k) - {id})
    ensures r.ratings == db.ratings && r.users == db.users && r.profiles == db.profiles && r.tokens == db.tokens
  {
    var films := MapRows(db.films, (f: Film) => Relink(f, k, Related(f, k) - {id}));
    WithCatalog(db, k, Remove(Catalog(db, k), {id})).(films := films)
  }

  /** Clearing a SET_NULL reference to a deleted user. */
  function Unref(o: Option<nat>, user: nat): Option<nat>
  {
    if o == Some(user) then None else o
  }

  /** A profile with every SET_NULL reference to `user` cleared. */
  function Unlinked(p: Profile, user: nat): (q: Profile)
    ensures q.userCreate != Some(user) && q.userUpdate != Some(user)
    ensures p.userCreate != Some(user) ==> q.userCreate == p.userCreate
    ensures p.userUpdate != Some(user) ==> q.userUpdate == p.userUpdate
    ensures q == p.(userCreate := q.userCreate, userUpdate := q.userUpdate)
  {
    p.(userCreate := Unref(p.userCreate, user), userUpdate := Unref(p.userUpdate, user))
  }

  /** The profile table once `user` is gone: same profiles, references to
      the user cleared. */
  function UnlinkProfiles(t: Table<Profile>, user: nat): (r: Table<Profile>)
    ensures r.rows.Keys == t.rows.Keys
    ensures forall pid :: pid in t.rows ==> r.rows[pid] == Unlinked(t.rows[pid], user)
  {
    MapRows(t, (p: Profile) => Unlinked(p, user))
  }

  /** Deleting a user. `Profile.user` is PROTECT, so a user who has a profile
      cannot be deleted; otherwise the user's ratings and token (CASCADE) go,
      and profiles that name the user as creator or updater keep None there
      (SET_NULL). */
  function DeleteUser(db: Db, user: nat): (r: Result<Db, string>)
    ensures r.Failure? <==> ProfileOf(db.profiles, user).Some?
    ensures r.Success? ==> r.value.users.rows == db.users.rows - {user}
    ensures r.Success? ==> forall rid :: rid in r.value.ratings.rows <==> rid in db.ratings.rows && db.ratings.rows[rid].user != user
    ensures r.Success? ==> forall rid :: rid in r.value.ratings.rows ==> r.value.ratings.rows[rid] == db.ratings.rows[rid]
    ensures r.Success? ==> r.value.tokens == db.tokens - {user}
    ensures r.Success? ==> r.value.films == db.films && forall k :: Catalog(r.value, k) == Catalog(db, k)
    ensures r.Success? ==> r.value.profiles == UnlinkProfiles(db.profiles, user)
  {
    if ProfileOf(db.profiles, user).Some? then Failure("ProtectedError")
    else
      var profiles := UnlinkProfiles(db.profiles, user);
      Success(db.(users := Remove(db.users, {user}),
                  ratings := Remove(db.ratings, RatingsByUser(db.ratings, user)),
                  profiles := profiles,
                  tokens := db.tokens - {user}))
  }

  // ---------------------------------------------------------------------------
  // The cascades keep the database consistent

  lemma {:induction false} DeleteFilmConsistent(db: Db, id: nat)
    requires Consistent(db)
    ensures Consistent(DeleteFilm(db, id))
  {
    var r := DeleteFilm(db, id);
    forall fid, k | fid in r.films.rows
      ensures Related(r.films.rows[fid], k) <= Catalog(r, k).rows.Keys
    {
      assert r.films.rows[fid] == db.films.rows[fid];
    }
  }

  lemma {:induction false} DeleteCatalogEntryConsistent(db: Db, k: CatalogKind, id: nat)
    requires Consistent(db)
    ensures Consistent(DeleteCatalogEntry(db, k, id))
  {
    var r := DeleteCatalogEntry(db, k, id);
    forall fid, j | fid in r.films.rows
      ensures Related(r.films.rows[fid], j) <= Catalog(r, j).rows.Keys
    {
      var f := db.films.rows[fid];
      assert Related(f, j) <= Catalog(db, j).rows.Keys;
    }
    forall fid | fid in r.films.rows
      ensures FilmFieldsOk(r.films.rows[fid])
    {
      assert FilmFieldsOk(db.films.rows[fid]);
    }
    assert RatingsValid(r) && PairUnique(r.ratings);
    assert CatalogsValid(r) by {
      forall j, e | e in Catalog(r, j).rows
        ensures 0 < |Catalog(r, j).rows[e]| <= NameLimit(j)
      {
        assert Catalog(r, j).rows[e] == Catalog(db, j).rows[e];
      }
    }
  }

  lemma {:induction false} DeleteUserKeepsProfilesValid(db: Db, user: nat)
    requires ProfilesValid(db)
    requires DeleteUser(db, user).Success?
    ensures ProfilesValid(DeleteUser(db, user).value)
  {
    var r := DeleteUser(db, user).value;
    assert ProfileOf(db.profiles, user).None?;
    forall id | id in r.profiles.rows
      ensures r.profiles.rows[id].user in r.users.rows
      ensures r.profiles.rows[id].userCreate.Some? ==> r.profiles.rows[id].userCreate.value in r.users.rows
      ensures r.profiles.rows[id].userUpdate.Some? ==> r.profiles.rows[id].userUpdate.value in r.users.rows
    {
      assert db.profiles.rows[id].user != user;
    }
  }

  lemma {:induction false} DeleteUserKeepsOneProfileEach(db: Db, user: nat)
    requires OneProfileEach(db.profiles)
    requires DeleteUser(db, user).Success?
    ensures OneProfileEach(DeleteUser(db, user).value.profiles)
  {
    var r := DeleteUser(db, user).value;
    forall a, b | a in r.profiles.rows && b in r.profiles.rows && a != b
      ensures r.profiles.rows[a].user != r.profiles.rows[b].user
    {
      assert r.profiles.rows[a].user == db.profiles.rows[a].user;
      assert r.profiles.rows[b].user == db.profiles.rows[b].user;
    }
  }

  lemma {:induction false} DeleteUserKeepsRatingsValid(db: Db, user: nat)
    requires Consistent(db)
    requires DeleteUser(db, user).Success?
    ensures RatingsValid(DeleteUser(db, user).value)
    ensures PairUnique(DeleteUser(db, user).value.ratings)
  {
  }

  lemma {:induction false} DeleteUserConsistent(db: Db, user: nat)
    requires Consistent(db)
    requires DeleteUser(db, user).Success?
    ensures Consistent(DeleteUser(db, user).value)
  {
    DeleteUserKeepsProfilesValid(db, user);
    DeleteUserKeepsOneProfileEach(db, user);
    DeleteUserKeepsRatingsValid(db, user);
  }
}
