/** The serializers: which request values each one accepts and what it stores,
    the derived fields a film is shown with, the login check, and the
    registration rules. */
module Serializers {
  import opened Wrappers
  import opened Tables
  import opened Responses
  import opened Fields
  import opened Decimals
  import opened Models
  import Aggregate

  /** The error entry of one field, if its validation failed. */
  function ErrorsOf<T>(field: string, r: Result<T, seq<Reason>>): (e: seq<FieldError>)
    ensures r.Success? <==> e == []
    ensures r.Failure? ==> e == [FieldError(field, r.error)]
  {
    if r.Failure? then [FieldError(field, r.error)] else []
  }

  // ---------------------------------------------------------------------------
  // AktorSerializer, SutradaraSerializer, GenreSerializer, NegaraSerializer,
  // BahasaSerializer: an id and one name column

  /** One catalog entry as the serializers render it. */
  datatype Entry = Entry(id: nat, name: string)

  /** The name column of kind `k` as its ModelSerializer validates the value
      a view got from `request.data.get(...)`. */
  function CatalogName(k: CatalogKind, o: Option<string>): (r: Result<string, seq<FieldError>>)
    ensures o.None? ==> r == Failure([FieldError(NameColumn(k), [NotNullable])])
    ensures r.Success? ==> o.Some? && r.value == Strip(o.value)
    ensures r.Success? ==> 0 < |r.value| <= NameLimit(k)
    ensures o.Some? && Strip(o.value) == [] ==> r == Failure([FieldError(NameColumn(k), [Blank])])
    ensures o.Some? && |Strip(o.value)| > NameLimit(k) ==> r.Failure?
    ensures o.Some? && Strip(o.value) != [] && |Strip(o.value)| <= NameLimit(k) && '\0' !in Strip(o.value) ==> r.Success?
    ensures r.Failure? ==> |r.error| == 1 && r.error[0].field == NameColumn(k)
  {
    var c := CharField(Got(o), false, Some(NameLimit(k)), NoCheck, NoCheck);
    if c.Success? then Success(c.value) else Failure(ErrorsOf(NameColumn(k), c))
  }

  // ---------------------------------------------------------------------------
  // FilmSerializer

  /** The dict the film views build from the request. The five relation
      lists are read, but the serializer declares those fields as read-only
      method fields, so validation never looks at them. */
  datatype FilmInput = FilmInput(
    judul: Option<string>,
    thumbnail: Option<Upload>,
    status: Option<string>,
    tahun: Option<int>,
    deskripsi: Option<string>,
    durasi: Option<int>,
    sutradara: Option<seq<int>>,
    aktor: Option<seq<int>>,
    genre: Option<seq<int>>,
    negara: Option<seq<int>>,
    bahasa: Option<seq<int>>)

  /** The validated scalar columns of a film. */
  datatype FilmFields = FilmFields(
    judul: string,
    thumbnail: Option<Image>,
    status: FilmStatus,
    tahun: int,
    deskripsi: string,
    durasi: int)

  /** The ChoiceField of `Film.status`. */
  function StatusField(i: Input<string>): (r: Result<FilmStatus, seq<Reason>>)
    ensures r.Success? <==> i.Given? && (i.value == "Released" || i.value == "Upcoming")
    ensures r.Success? ==> FilmStatusName(r.value) == i.value
    ensures r.Failure? ==> |r.error| > 0
  {
    match i
    case Absent => Failure([Required])
    case Null => Failure([NotNullable])
    case Given(s) =>
      if s == "Released" then Success(Released)
      else if s == "Upcoming" then Success(Upcoming)
      else Failure([NotAChoice])
  }

  /** Each status is accepted back from its own name. */
  lemma StatusRoundTrip(s: FilmStatus)
    ensures StatusField(Given(FilmStatusName(s))) == Success(s)
  {
  }

  function AsImage(u: Option<Upload>): Option<Image>
  {
    if u.None? then None else Some(Image(u.value.name, u.value.size))
  }

  /** Every condition FilmSerializer puts on the scalar columns: a non-blank
      judul that fits, an acceptable thumbnail or none, one of the two status
      names, tahun in 0..9999, a non-blank deskripsi and a durasi of at least 0. */
  predicate FilmInputOk(input: FilmInput)
  {
    && CharFieldOk(Got(input.judul), false, Some(JUDUL_MAX_LENGTH), NoCheck, NoCheck)
    && (input.thumbnail.Some? ==> UploadOk(input.thumbnail.value, FILE_NAME_MAX_LENGTH))
    && (input.status == Some("Released") || input.status == Some("Upcoming"))
    && input.tahun.Some? && 0 <= input.tahun.value <= TAHUN_MAX
    && CharFieldOk(Got(input.deskripsi), false, None, NoCheck, NoCheck)
    && input.durasi.Some? && 0 <= input.durasi.value
  }

  /** FilmSerializer's validation of the scalar columns. Every field is in
      the dict (possibly None), so a partial update checks them all too. */
  function ValidateFilm(input: FilmInput): (r: Result<FilmFields, seq<FieldError>>)
    ensures r.Success? <==> FilmInputOk(input)
    ensures r.Success? ==> input.judul.Some? && r.value.judul == Strip(input.judul.value)
    ensures r.Success? ==> 0 < |r.value.judul| <= JUDUL_MAX_LENGTH
    ensures r.Success? ==> input.deskripsi.Some? && r.value.deskripsi == Strip(input.deskripsi.value) != []
    ensures r.Success? ==> input.tahun == Some(r.value.tahun) && 0 <= r.value.tahun <= TAHUN_MAX
    ensures r.Success? ==> input.durasi == Some(r.value.durasi) && 0 <= r.value.durasi
    ensures r.Success? ==> input.status == Some(FilmStatusName(r.value.status))
    ensures r.Success? ==> r.value.thumbnail == AsImage(input.thumbnail)
    ensures r.Success? ==> input.thumbnail.Some? ==> |input.thumbnail.value.name| <= FILE_NAME_MAX_LENGTH
    ensures input.tahun.None? || input.tahun.value < 0 || input.tahun.value > TAHUN_MAX ==> r.Failure?
    ensures input.durasi.None? || input.durasi.value < 0 ==> r.Failure?
    ensures input.judul.None? || input.deskripsi.None? || input.status.None? ==> r.Failure?
    ensures r.Failure? ==> r.error != []
  {
    var judul := CharField(Got(input.judul), false, Some(JUDUL_MAX_LENGTH), NoCheck, NoCheck);
    var thumbnail := ImageField(input.thumbnail, FILE_NAME_MAX_LENGTH);
    var status := StatusField(Got(input.status));
    var tahun := IntegerField(Got(input.tahun), 0, Some(TAHUN_MAX));
    var deskripsi := CharField(Got(input.deskripsi), false, None, NoCheck, NoCheck);
    var durasi := IntegerField(Got(input.durasi), 0, None);
    var errors := ErrorsOf("judul", judul) + ErrorsOf("thumbnail", thumbnail) + ErrorsOf("status", status)
      + ErrorsOf("tahun", tahun) + ErrorsOf("deskripsi", deskripsi) + ErrorsOf("durasi", durasi);
    if errors != [] then Failure(errors)
    else Success(FilmFields(judul.value, AsImage(thumbnail.value), status.value, tahun.value, deskripsi.value, durasi.value))
  }

  /** A film built from validated columns: `serializer.save()` on create. The
      relations start empty, since no writable field feeds them. */
  function NewFilm(v: FilmFields): (f: Film)
    ensures forall k :: Related(f, k) == {}
    ensures f.judul == v.judul && f.thumbnail == v.thumbnail && f.status == v.status
    ensures f.tahun == v.tahun && f.deskripsi == v.deskripsi && f.durasi == v.durasi
  {
    Film(v.judul, v.thumbnail, v.status, v.tahun, v.deskripsi, v.durasi, {}, {}, {}, {}, {})
  }

  /** `serializer.save()` on an update: every validated column is assigned,
      the relations are left as they were. */
  function Reassign(f: Film, v: FilmFields): (g: Film)
    ensures forall k :: Related(g, k) == Related(f, k)
    ensures g.judul == v.judul && g.thumbnail == v.thumbnail && g.status == v.status
    ensures g.tahun == v.tahun && g.deskripsi == v.deskripsi && g.durasi == v.durasi
  {
    f.(judul := v.judul, thumbnail := v.thumbnail, status := v.status, tahun := v.tahun,
       deskripsi := v.deskripsi, durasi := v.durasi)
  }

  /** A validated film satisfies the column constraints. */
  lemma {:induction false} ValidatedFilmFits(input: FilmInput, f: Film)
    requires ValidateFilm(input).Success?
    ensures FilmFieldsOk(NewFilm(ValidateFilm(input).value))
    ensures FilmFieldsOk(Reassign(f, ValidateFilm(input).value))
  {
  }

  /** The ids a film's relation links to that name an existing entry of the
      catalog, ascending: what `obj.aktor.all()` and its siblings return. */
  function RelatedIds(cat: Table<string>, ids: set<nat>): (r: seq<nat>)
    ensures forall i :: 0 <= i < |r| ==> r[i] in ids && r[i] in cat.rows
    ensures forall id :: id in ids && id in cat.rows ==> id in r
    ensures forall i, j :: 0 <= i < j < |r| ==> r[i] < r[j]
  {
    Ascending(ids * cat.rows.Keys, cat.next)
  }

  /** `get_aktor` and its siblings: the names of the related entries. */
  function RelationNames(cat: Table<string>, ids: set<nat>): (r: seq<string>)
    ensures |r| == |RelatedIds(cat, ids)|
    ensures forall i :: 0 <= i < |r| ==> r[i] == cat.rows[RelatedIds(cat, ids)[i]]
  {
    var rel := RelatedIds(cat, ids);
    seq(|rel|, i requires 0 <= i < |rel| => cat.rows[rel[i]])
  }

  /** The names of a relation are exactly the names of the linked entries:
      a name is shown if and only if some linked, existing entry has it. */
  lemma {:induction false} RelationNamesExact(cat: Table<string>, ids: set<nat>)
    ensures forall name :: name in RelationNames(cat, ids) <==>
      exists id :: id in ids && id in cat.rows && cat.rows[id] == name
  {
    var rel := RelatedIds(cat, ids);
    var names := RelationNames(cat, ids);
    forall name
      ensures name in names <==> exists id :: id in ids && id in cat.rows && cat.rows[id] == name
    {
      if name in names {
        var i :| 0 <= i < |names| && names[i] == name;
        assert rel[i] in ids && rel[i] in cat.rows && cat.rows[rel[i]] == name;
      }
      if id :| id in ids && id in cat.rows && cat.rows[id] == name {
        var i :| 0 <= i < |rel| && rel[i] == id;
        assert names[i] == name;
      }
    }
  }

  /** The ids of the ratings of `film`, ascending: each rating of the film
      exactly once. */
  function FilmRatingIds(t: Table<Rating>, film: nat): (r: seq<nat>)
    ensures forall i :: 0 <= i < |r| ==> r[i] in RatingsOfFilm(t, film)
    ensures forall id :: id in RatingsOfFilm(t, film) ==> id in r
    ensures forall i, j :: 0 <= i < j < |r| ==> r[i] < r[j]
    ensures |r| == |RatingsOfFilm(t, film)|
  {
    var r := Ascending(RatingsOfFilm(t, film), t.next);
    ListedOnce(r, RatingsOfFilm(t, film));
    r
  }

  /** The values of the ratings of `film` (`Rating.objects.filter(film=obj)`),
      one per rating, in id order. */
  function FilmRatings(t: Table<Rating>, film: nat): (r: seq<int>)
    ensures |r| == |RatingsOfFilm(t, film)|
    ensures r == [] <==> RatingsOfFilm(t, film) == {}
    ensures forall j :: 0 <= j < |r| ==> r[j] == t.rows[FilmRatingIds(t, film)[j]].tenths
  {
    var ids := FilmRatingIds(t, film);
    seq(|ids|, j requires 0 <= j < |ids| => t.rows[ids[j]].tenths)
  }

  /** `get_average_rating`, in tenths. */
  function AverageRating(t: Table<Rating>, film: nat): Option<int>
  {
    Aggregate.Average(FilmRatings(t, film))
  }

  /** `average_rating` is None exactly when the film has no rating; otherwise
      it is within 0.05 of the mean (half a tenth), lies between the lowest
      and the highest rating of the film, and so between 0.0 and 10.0 when
      every rating is. */
  lemma {:induction false} AverageRatingSpec(t: Table<Rating>, film: nat)
    ensures AverageRating(t, film).None? <==> RatingsOfFilm(t, film) == {}
    ensures AverageRating(t, film).Some? ==>
      var vals := FilmRatings(t, film);
      var a := AverageRating(t, film).value;
      && -|vals| <= 2 * |vals| * a - 2 * Aggregate.Sum(vals) <= |vals|
      && (exists lo :: lo in RatingsOfFilm(t, film) && t.rows[lo].tenths <= a)
      && (exists hi :: hi in RatingsOfFilm(t, film) && a <= t.rows[hi].tenths)
    ensures (forall id :: id in t.rows ==> RATING_LEAST <= t.rows[id].tenths <= RATING_MOST) ==>
      AverageRating(t, film).Some? ==> RATING_LEAST <= AverageRating(t, film).value <= RATING_MOST
  {
    var vals := FilmRatings(t, film);
    if vals != [] {
      Aggregate.AverageBounds(vals);
      AverageAttained(t, film, Aggregate.Average(vals).value);
    }
  }

  /** A value between the least and the greatest rating of a film is bounded
      below and above by ratings of that film. */
  lemma {:induction false} AverageAttained(t: Table<Rating>, film: nat, a: int)
    requires FilmRatings(t, film) != []
    requires Aggregate.Min(FilmRatings(t, film)) <= a <= Aggregate.Max(FilmRatings(t, film))
    ensures exists lo :: lo in RatingsOfFilm(t, film) && t.rows[lo].tenths <= a
    ensures exists hi :: hi in RatingsOfFilm(t, film) && a <= t.rows[hi].tenths
  {
    var vals := FilmRatings(t, film);
    var ids := FilmRatingIds(t, film);
    var lo :| 0 <= lo < |vals| && vals[lo] == Aggregate.Min(vals);
    var hi :| 0 <= hi < |vals| && vals[hi] == Aggregate.Max(vals);
    assert ids[lo] in RatingsOfFilm(t, film) && t.rows[ids[lo]].tenths == vals[lo];
    assert ids[hi] in RatingsOfFilm(t, film) && t.rows[ids[hi]].tenths == vals[hi];
  }

  /** A film as FilmSerializer renders it; ratings in tenths. */
  datatype FilmView = FilmView(
    id: nat,
    judul: string,
    thumbnail: Option<string>,
    status: string,
    tahun: int,
    deskripsi: string,
    durasi: int,
    sutradara: seq<string>,
    aktor: seq<string>,
    genre: seq<string>,
    negara: seq<string>,
    bahasa: seq<string>,
    averageRating: Option<int>)

  function ShownNames(v: FilmView, k: CatalogKind): seq<string>
  {
    match k
    case Aktor => v.aktor
    case Sutradara => v.sutradara
    case Genre => v.genre
    case Negara => v.negara
    case Bahasa => v.bahasa
  }

  /** FilmSerializer(film).data */
  function ShowFilm(db: Db, id: nat): FilmView
    requires id in db.films.rows
  {
    var f := db.films.rows[id];
    FilmView(id, f.judul, if f.thumbnail.Some? then Some(f.thumbnail.value.name) else None,
             FilmStatusName(f.status), f.tahun, f.deskripsi, f.durasi,
             RelationNames(db.sutradara, f.sutradara), RelationNames(db.aktor, f.aktor),
             RelationNames(db.genre, f.genre), RelationNames(db.negara, f.negara),
             RelationNames(db.bahasa, f.bahasa), AverageRating(db.ratings, id))
  }

  /** The relation of kind `k` of a shown film is rendered from that
      catalog and that link set. */
  lemma {:induction false} ShownNamesOf(db: Db, id: nat, k: CatalogKind)
    requires id in db.films.rows
    ensures ShownNames(ShowFilm(db, id), k) == RelationNames(Catalog(db, k), Related(db.films.rows[id], k))
  {
    var v := ShowFilm(db, id);
    match k
    case Aktor =>
    case Sutradara =>
    case Genre =>
    case Negara =>
    case Bahasa =>
  }

  /** No links, no names. */
  lemma NoLinksNoNames(cat: Table<string>)
    ensures RelationNames(cat, {}) == []
  {
    AscendingOfNothing({} * cat.rows.Keys, cat.next);
  }

  /** What a shown film says: each relation lists exactly the names of the
      linked entries that exist, `average_rating` is None exactly when the
      film has no rating, and in a consistent store it lies in 0.0..10.0. */
  lemma {:induction false} ShowFilmSpec(db: Db, id: nat, k: CatalogKind)
    requires id in db.films.rows
    ensures forall name :: name in ShownNames(ShowFilm(db, id), k) <==>
      exists e :: e in Related(db.films.rows[id], k) && e in Catalog(db, k).rows && Catalog(db, k).rows[e] == name
    ensures ShowFilm(db, id).averageRating.None? <==> RatingsOfFilm(db.ratings, id) == {}
    ensures RatingsValid(db) && ShowFilm(db, id).averageRating.Some? ==>
      RATING_LEAST <= ShowFilm(db, id).averageRating.value <= RATING_MOST
  {
    RelationNamesExact(Catalog(db, k), Related(db.films.rows[id], k));
    AverageRatingSpec(db.ratings, id);
  }

  // ---------------------------------------------------------------------------
  // RatingSerializer

  /** The dict the rating views build from the request. */
  datatype RatingInput = RatingInput(user: Option<int>, film: Option<int>, rating: Option<Decimal>)

  /** RatingSerializer's validation: both keys must name rows, and the value
      must be a decimal with at most 3 digits, 1 of them after the point,
      between 0.0 and 10.0. The `(user, film)` pair is not checked here. */
  predicate RatingInputOk(users: set<nat>, films: set<nat>, input: RatingInput)
  {
    && input.user.Some? && input.user.value >= 0 && input.user.value as nat in users
    && input.film.Some? && input.film.value >= 0 && input.film.value as nat in films
    && input.rating.Some?
    && PrecisionErrors(PrecisionOf(input.rating.value), RATING_MAX_DIGITS, RATING_PLACES) == []
    && RATING_LEAST <= Scaled(input.rating.value, RATING_PLACES) <= RATING_MOST
  }

  function ValidateRating(users: set<nat>, films: set<nat>, input: RatingInput): (r: Result<Rating, seq<FieldError>>)
    ensures r.Success? <==> RatingInputOk(users, films, input)
    ensures r.Success? ==> r.value.tenths == Scaled(input.rating.value, RATING_PLACES)
    ensures r.Success? ==> input.user == Some(r.value.user as int) && r.value.user in users
    ensures r.Success? ==> input.film == Some(r.value.film as int) && r.value.film in films
    ensures r.Success? ==> input.rating.Some? && RATING_LEAST <= r.value.tenths <= RATING_MOST
    ensures r.Success? ==> PrecisionOf(input.rating.value).places <= RATING_PLACES
    ensures input.user.None? || input.film.None? || input.rating.None? ==> r.Failure?
    ensures input.user.Some? && (input.user.value < 0 || input.user.value as nat !in users) ==> r.Failure?
    ensures input.film.Some? && (input.film.value < 0 || input.film.value as nat !in films) ==> r.Failure?
    ensures r.Failure? ==> r.error != []
  {
    var user := PrimaryKeyField(Got(input.user), users);
    var film := PrimaryKeyField(Got(input.film), films);
    var value := DecimalField(Got(input.rating), RATING_MAX_DIGITS, RATING_PLACES, RATING_LEAST, RATING_MOST);
    var errors := ErrorsOf("film", film) + ErrorsOf("rating", value) + ErrorsOf("user", user);
    if errors != [] then Failure(errors) else Success(Rating(user.value, film.value, value.value))
  }

  /** The stored value is the submitted number times ten, exactly. */
  lemma {:induction false} RatingValueExact(users: set<nat>, films: set<nat>, input: RatingInput)
    requires ValidateRating(users, films, input).Success?
    ensures ValidateRating(users, films, input).value.tenths as real == Value(input.rating.value) * 10.0
  {
    assert Got(input.rating) == Given(input.rating.value);
    DecimalFieldIsExact(input.rating.value, RATING_MAX_DIGITS, RATING_PLACES, RATING_LEAST, RATING_MOST);
  }

  /** A rating as RatingSerializer renders it: the DecimalField shows exactly
      one decimal. */
  datatype RatingView = RatingView(id: nat, user: nat, film: nat, rating: Decimal)

  function ShowRating(t: Table<Rating>, id: nat): RatingView
    requires id in t.rows
  {
    var r := t.rows[id];
    RatingView(id, r.user, r.film, Decimal(r.tenths, -1))
  }

  /** Sending back a rating exactly as it was shown is accepted and stores the
      same rating. */
  lemma {:induction false} RatingShownRoundTrip(t: Table<Rating>, id: nat, users: set<nat>, films: set<nat>)
    requires id in t.rows
    requires RATING_LEAST <= t.rows[id].tenths <= RATING_MOST
    requires t.rows[id].user in users && t.rows[id].film in films
    ensures var v := ShowRating(t, id);
      ValidateRating(users, films, RatingInput(Some(v.user), Some(v.film), Some(v.rating))) == Success(t.rows[id])
  {
    var n := t.rows[id].tenths;
    assert DigitCount(Abs(n)) <= 3 by {
      if n >= 10 {
        assert DigitCount(n) == 1 + DigitCount(n / 10);
        assert n / 10 < 10 || n / 10 == 10;
        if n / 10 == 10 {
          assert DigitCount(10) == 1 + DigitCount(1);
        }
      }
    }
    DecimalRoundTrip(n, RATING_MAX_DIGITS, RATING_PLACES, RATING_LEAST, RATING_MOST);
  }

  // ---------------------------------------------------------------------------
  // LoginSerializer.validate

  datatype LoginError = MissingCredentials | BadCredentials | Deactivated

  function LoginErrorText(e: LoginError): string
  {
    match e
    case MissingCredentials => "Must provide username and password both"
    case BadCredentials => "Unable to login with given credentials"
    case Deactivated => "User is deactivated"
  }

  /** The account may log in: active, and an author or a visitor. */
  predicate CanLogIn(u: User)
  {
    u.isActive && (u.isAuthors || u.isVisitors)
  }

  /** `authenticate` answers with users of the store or with None. What it
      checks (password hashes, backends) is not modelled. */
  ghost predicate Authenticator(users: Table<User>, authenticate: (string, string) -> Option<nat>)
  {
    forall u, p :: authenticate(u, p).Some? ==> authenticate(u, p).value in users.rows
  }

  /** LoginSerializer.validate on the stripped username and password. */
  function LoginValidate(users: Table<User>, authenticate: (string, string) -> Option<nat>, username: string, password: string)
    : (r: Result<nat, LoginError>)
    requires Authenticator(users, authenticate)
    ensures r == Failure(MissingCredentials) <==> username == [] || password == []
    ensures r == Failure(BadCredentials) <==> username != [] && password != [] && authenticate(username, password).None?
    ensures r == Failure(Deactivated) <==>
      username != [] && password != [] && authenticate(username, password).Some? &&
      !CanLogIn(users.rows[authenticate(username, password).value])
    ensures r.Success? <==>
      username != [] && password != [] && authenticate(username, password).Some? &&
      CanLogIn(users.rows[authenticate(username, password).value])
    ensures r.Success? ==> r.value == authenticate(username, password).value
  {
    if username != [] && password != [] then
      match authenticate(username, password)
      case None => Failure(BadCredentials)
      case Some(id) => if CanLogIn(users.rows[id]) then Success(id) else Failure(Deactivated)
    else Failure(MissingCredentials)
  }

  // ---------------------------------------------------------------------------
  // RegisterAuthorsSerializer

  datatype RegisterInput = RegisterInput(
    username: Input<string>,
    email: Input<string>,
    password1: Input<string>,
    password2: Input<string>,
    firstName: Input<string>,
    lastName: Input<string>,
    isActive: Input<bool>,
    isAuthors: Input<bool>,
    isVisitors: Input<bool>)

  /** The validators the framework supplies: the username character rule,
      the e-mail syntax rule and `validate_password`. */
  datatype Checks = Checks(usernameOk: string -> bool, emailOk: string -> bool, passwordOk: string -> bool)

  /** The validated attributes; a boolean the request left out stays None. */
  datatype RegisterAttrs = RegisterAttrs(
    username: string,
    email: string,
    password1: string,
    password2: string,
    firstName: string,
    lastName: string,
    isActive: Option<bool>,
    isAuthors: Option<bool>,
    isVisitors: Option<bool>)

  /** `max_length` of `username`, `first_name` and `last_name`. */
  const USER_NAME_MAX_LENGTH: nat := 150

  predicate UsernameTaken(users: Table<User>, s: string)
  {
    exists id :: id in users.rows && users.rows[id].username == s
  }

  predicate EmailTaken(users: Table<User>, s: string)
  {
    exists id :: id in users.rows && users.rows[id].email == s
  }

  function UsernameChecks(users: Table<User>, checks: Checks, s: string): seq<Reason>
  {
    (if checks.usernameOk(s) then [] else [NotValid]) + (if UsernameTaken(users, s) then [Taken] else [])
  }

  /** The UniqueValidator given to `email`; it runs before the built-in checks. */
  function EmailChecks(users: Table<User>, s: string): seq<Reason>
  {
    if EmailTaken(users, s) then [Taken] else []
  }

  /** The address check EmailField appends after the built-in checks. */
  function EmailSyntax(checks: Checks, s: string): seq<Reason>
  {
    if checks.emailOk(s) then [] else [NotValid]
  }

  function PasswordChecks(checks: Checks, s: string): seq<Reason>
  {
    if checks.passwordOk(s) then [] else [NotValid]
  }

  /** The e-mail field reports a taken address first, then the length and
      U+0000 checks, and the address check last. */
  lemma EmailErrorOrder(users: Table<User>, checks: Checks, s: string)
    requires Strip(s) != [] && '\0' in Strip(s) && !checks.emailOk(Strip(s))
    ensures var r := CharField(Given(s), false, None, v => EmailChecks(users, v), v => EmailSyntax(checks, v));
      r == Failure((if EmailTaken(users, Strip(s)) then [Taken] else []) + [NullCharacter, NotValid])
  {
    var v := Strip(s);
    var extra := v => EmailChecks(users, v);
    var late := v => EmailSyntax(checks, v);
    assert extra(v) == (if EmailTaken(users, v) then [Taken] else []);
    assert late(v) == [NotValid];
    assert CharField(Given(s), false, None, extra, late) == Failure(extra(v) + [] + [NullCharacter] + late(v));
    assert extra(v) + [] + [NullCharacter] + late(v) == (if EmailTaken(users, v) then [Taken] else []) + [NullCharacter, NotValid];
    assert CharField(Given(s), false, None, v => EmailChecks(users, v), v => EmailSyntax(checks, v))
        == CharField(Given(s), false, None, extra, late);
  }

  /** Everything the fields of RegisterAuthorsSerializer demand: each text
      field passes its CharField with its own validators, and no boolean is
      null. */
  predicate RegisterInputOk(users: Table<User>, checks: Checks, input: RegisterInput)
  {
    && CharFieldOk(input.username, false, Some(USER_NAME_MAX_LENGTH), s => UsernameChecks(users, checks, s), NoCheck)
    && CharFieldOk(input.email, false, None, s => EmailChecks(users, s), s => EmailSyntax(checks, s))
    && CharFieldOk(input.password1, false, None, s => PasswordChecks(checks, s), NoCheck)
    && CharFieldOk(input.password2, false, None, NoCheck, NoCheck)
    && CharFieldOk(input.firstName, true, Some(USER_NAME_MAX_LENGTH), NoCheck, NoCheck)
    && CharFieldOk(input.lastName, true, Some(USER_NAME_MAX_LENGTH), NoCheck, NoCheck)
    && !input.isActive.Null? && !input.isAuthors.Null? && !input.isVisitors.Null?
  }

  /** The field-level validation of RegisterAuthorsSerializer. First and last
      name are required but may be blank (the model allows blank). */
  function RegisterFields(users: Table<User>, checks: Checks, input: RegisterInput)
    : (r: Result<RegisterAttrs, seq<FieldError>>)
    ensures r.Success? <==> RegisterInputOk(users, checks, input)
    ensures r.Success? ==> r.value.username != [] && |r.value.username| <= USER_NAME_MAX_LENGTH
    ensures r.Success? ==> !UsernameTaken(users, r.value.username) && !EmailTaken(users, r.value.email)
    ensures r.Success? ==> checks.usernameOk(r.value.username) && checks.emailOk(r.value.email)
    ensures r.Success? ==> checks.passwordOk(r.value.password1)
    ensures r.Success? ==> r.value.email != [] && r.value.password1 != [] && r.value.password2 != []
    ensures r.Success? ==> '\0' !in r.value.username && '\0' !in r.value.password1
    ensures r.Success? ==> |r.value.firstName| <= USER_NAME_MAX_LENGTH && |r.value.lastName| <= USER_NAME_MAX_LENGTH
    ensures r.Success? ==> input.username.Given? && r.value.username == Strip(input.username.value)
    ensures r.Success? ==> input.password1.Given? && r.value.password1 == Strip(input.password1.value)
    ensures r.Success? ==> input.password2.Given? && r.value.password2 == Strip(input.password2.value)
    ensures r.Success? ==> input.email.Given? && r.value.email == Strip(input.email.value)
    ensures r.Success? ==> input.firstName.Given? && r.value.firstName == Strip(input.firstName.value)
    ensures r.Success? ==> input.lastName.Given? && r.value.lastName == Strip(input.lastName.value)
    ensures r.Success? ==> r.value.isAuthors == (if input.isAuthors.Given? then Some(input.isAuthors.value) else None)
    ensures r.Success? ==> r.value.isVisitors == (if input.isVisitors.Given? then Some(input.isVisitors.value) else None)
    ensures r.Success? ==> r.value.isActive == (if input.isActive.Given? then Some(input.isActive.value) else None)
    ensures r.Failure? ==> r.error != []
  {
    var username := CharField(input.username, false, Some(USER_NAME_MAX_LENGTH), s => UsernameChecks(users, checks, s), NoCheck);
    var email := CharField(input.email, false, None, s => EmailChecks(users, s), s => EmailSyntax(checks, s));
    var password1 := CharField(input.password1, false, None, s => PasswordChecks(checks, s), NoCheck);
    var password2 := CharField(input.password2, false, None, NoCheck, NoCheck);
    var firstName := CharField(input.firstName, true, Some(USER_NAME_MAX_LENGTH), NoCheck, NoCheck);
    var lastName := CharField(input.lastName, true, Some(USER_NAME_MAX_LENGTH), NoCheck, NoCheck);
    var isActive := BooleanField(input.isActive);
    var isAuthors := BooleanField(input.isAuthors);
    var isVisitors := BooleanField(input.isVisitors);
    var errors := ErrorsOf("username", username) + ErrorsOf("email", email) + ErrorsOf("password1", password1)
      + ErrorsOf("password2", password2) + ErrorsOf("is_active", isActive) + ErrorsOf("is_authors", isAuthors)
      + ErrorsOf("is_visitors", isVisitors) + ErrorsOf("first_name", firstName) + ErrorsOf("last_name", lastName);
    if errors != [] then Failure(errors)
    else Success(RegisterAttrs(username.value, email.value, password1.value, password2.value,
                               firstName.value, lastName.value, isActive.value, isAuthors.value, isVisitors.value))
  }

  const PASSWORD_MISMATCH: FieldError := FieldError("password", [Rule("Password field did not match")])
  const BOTH_ROLES: FieldError := FieldError("is_authors", [Rule("Author and visitors can not be selected at the same time")])

  /** RegisterAuthorsSerializer.validate: the two passwords must match, and
      author and visitor may not both be chosen; the first rule broken wins. */
  function RegisterValidate(a: RegisterAttrs): (r: Result<RegisterAttrs, FieldError>)
    ensures r == Failure(PASSWORD_MISMATCH) <==> a.password1 != a.password2
    ensures r == Failure(BOTH_ROLES) <==> a.password1 == a.password2 && a.isAuthors == Some(true) && a.isVisitors == Some(true)
    ensures r.Success? <==> a.password1 == a.password2 && !(a.isAuthors == Some(true) && a.isVisitors == Some(true))
    ensures r.Success? ==> r.value == a
  {
    if a.password1 != a.password2 then Failure(PASSWORD_MISMATCH)
    else if a.isAuthors == Some(true) && a.isVisitors == Some(true) then Failure(BOTH_ROLES)
    else Success(a)
  }

  /** The user row registration writes, with `visitors` as the stored
      `is_visitors`. */
  function AccountFor(a: RegisterAttrs, visitors: bool): (u: User)
    requires a.isActive.Some? && a.isAuthors.Some?
    ensures u.username == a.username && u.email == a.email && u.password == a.password1
    ensures u.isActive == a.isActive.value && u.isAuthors == a.isAuthors.value && u.isVisitors == visitors
    ensures u.firstName == a.firstName && u.lastName == a.lastName
  {
    User(a.username, a.email, a.password1, a.firstName, a.lastName, a.isActive.value, a.isAuthors.value, visitors)
  }

  /** `d` is `db` with the fresh user `uid` holding row `u`, and one new
      profile for it that it created itself; nothing else changed. */
  ghost predicate AccountAdded(db: Db, d: Db, uid: nat, u: User)
  {
    && uid !in db.users.rows
    && d.users.rows == db.users.rows[uid := u]
    && ProfileOf(db.profiles, uid).None?
    && ProfileOf(d.profiles, uid).Some?
    && (exists pid: nat :: pid !in db.profiles.rows && d.profiles.rows == db.profiles.rows[pid := NewProfile(uid, Some(uid))])
    && d.films == db.films && d.ratings == db.ratings && d.tokens == db.tokens
    && (forall k :: Catalog(d, k) == Catalog(db, k))
  }

  /** Writes the user and its profile. Reading `validated_data['is_active']`
      or `['is_authors']` raises KeyError when the request left it out. */
  function CreateAccount(db: Db, a: RegisterAttrs, visitors: bool): (r: Result<(Db, nat), string>)
    requires ProfilesValid(db)
    ensures r.Failure? <==> a.isActive.None? || a.isAuthors.None?
    ensures r.Success? ==> AccountAdded(db, r.value.0, r.value.1, AccountFor(a, visitors))
  {
    if a.isActive.None? || a.isAuthors.None? then Failure("KeyError")
    else
      var u := AccountFor(a, visitors);
      var (users, uid) := Insert(db.users, u);
      var (profiles, pid) := Insert(db.profiles, NewProfile(uid, Some(uid)));
      InsertAccount(db, u, users, uid, profiles, pid);
      Success((db.(users := users, profiles := profiles), uid))
  }

  /** Inserting a user and then its profile adds exactly that account. */
  lemma {:induction false} InsertAccount(db: Db, u: User, users: Table<User>, uid: nat, profiles: Table<Profile>, pid: nat)
    requires ProfilesValid(db)
    requires uid !in db.users.rows && users.rows == db.users.rows[uid := u]
    requires pid !in db.profiles.rows && profiles.rows == db.profiles.rows[pid := NewProfile(uid, Some(uid))]
    ensures AccountAdded(db, db.(users := users, profiles := profiles), uid, u)
  {
    var d := db.(users := users, profiles := profiles);
    NoProfileForNewId(db, uid);
    OnlyNewProfile(db.profiles, profiles, pid, uid);
    assert forall k :: Catalog(d, k) == Catalog(db, k);
    assert pid !in db.profiles.rows && d.profiles.rows == db.profiles.rows[pid := NewProfile(uid, Some(uid))];
  }

  /** Under the schema, profiles belong to users, so a fresh user id has none. */
  lemma NoProfileForNewId(db: Db, uid: nat)
    ensures ProfilesValid(db) && uid !in db.users.rows ==> ProfileOf(db.profiles, uid).None?
  {
  }

  lemma {:induction false} OnlyNewProfile(old_: Table<Profile>, new_: Table<Profile>, pid: nat, uid: nat)
    requires pid !in old_.rows
    requires new_.rows == old_.rows[pid := NewProfile(uid, Some(uid))]
    ensures ProfileOf(new_, uid).Some?
    ensures ProfileOf(old_, uid).None? ==> ProfileOf(new_, uid) == Some(pid)
  {
    assert pid in new_.rows && new_.rows[pid].user == uid;
  }

  /** `RegisterAuthorsSerializer.create` as written: `is_authors` is stored as
      given, but the line that would store `is_visitors` is commented out, so
      every registered account keeps the default false. */
  function RegisterCreateAsWritten(db: Db, a: RegisterAttrs): (r: Result<(Db, nat), string>)
    requires ProfilesValid(db)
    ensures r.Failure? <==> a.isActive.None? || a.isAuthors.None?
    ensures r.Success? ==> AccountAdded(db, r.value.0, r.value.1, AccountFor(a, false))
  {
    CreateAccount(db, a, false)
  }

  /** What `create` evidently means to do: store `is_visitors` as given,
      false when the request left it out. */
  function RegisterCreate(db: Db, a: RegisterAttrs): (r: Result<(Db, nat), string>)
    requires ProfilesValid(db)
    ensures r.Failure? <==> a.isActive.None? || a.isAuthors.None?
    ensures r.Success? ==> AccountAdded(db, r.value.0, r.value.1, AccountFor(a, a.isVisitors == Some(true)))
  {
    CreateAccount(db, a, a.isVisitors == Some(true))
  }

  /** The registration data shown back (the passwords are write-only). */
  datatype RegisteredUser = RegisteredUser(
    username: string,
    email: string,
    isActive: bool,
    isAuthors: bool,
    isVisitors: bool,
    firstName: string,
    lastName: string)

  function ShowUser(u: User): (v: RegisteredUser)
    ensures v.username == u.username && v.email == u.email
    ensures v.isActive == u.isActive && v.isAuthors == u.isAuthors && v.isVisitors == u.isVisitors
    ensures v.firstName == u.firstName && v.lastName == u.lastName
  {
    RegisteredUser(u.username, u.email, u.isActive, u.isAuthors, u.isVisitors, u.firstName, u.lastName)
  }
}
