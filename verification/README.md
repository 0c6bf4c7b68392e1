# Movie metadata API — a Dafny model

This project models the Django REST Framework back end of a movie catalogue. The back end serves:

- five catalogs, each an id and one name: aktor (actors), sutradara (directors), genre, negara (countries) and bahasa (languages);
- films, which link to those catalogs and carry a derived `average_rating`;
- ratings from 0.0 to 10.0, at most one per `(user, film)` pair;
- login, which issues a token;
- registration of author and visitor accounts.

The database is an immutable value: every table is a map from id to row, with ids handed out in ascending order. Every request handler is a pure function. It takes the database and the request and returns an `Exchange`: the reply plus the database as the handler leaves it. A reply is one of three things:

- the views' `{status, message, data}` envelope;
- DRF's bare `serializer.errors` body with a 400;
- an unhandled exception, which the client sees as a 500.

Request values are modelled as `request.data.get(...)` delivers them. A missing key therefore arrives as None, and the serializer refuses it as null. This holds for the partial updates too.

Modules:

- `Wrappers`: `Option` and `Result`.
- `Tables`: the generic id-keyed store, holding the catalog stores and every other table.
- `Responses`: status codes, error reasons, message kinds and their wording, and replies.
- `Fields`: the DRF field primitives: CharField with whitespace stripping, IntegerField, BooleanField, PrimaryKeyRelatedField and ImageField.
- `Decimals`: DecimalField with DRF's digit-counting rules.
- `Models`: the records of `movie_app/models.py`, their column domains, the schema invariants (`Consistent`), `Film.clean`, and the `on_delete` cascades.
- `Aggregate`: `Avg` followed by `round(…, 1)`, on ratings kept as integer tenths.
- `Serializers`: the serializers of `api/serializers.py`.
- `CatalogViews`, `FilmViews`, `RatingViews`, `AuthViews`: the views of `api/views.py`.

The five catalog view pairs are copies of one another; they differ only in model, name column and wording. So they are modelled once, over `Catalog(db, k)`. The rows below cite the aktor views (lines 19-120). The sutradara, genre, negara and bahasa views repeat that code at lines 124-224, 227-327, 330-431 and 435-535.

Three behaviours of the code worth knowing:

- The relation fields of `FilmSerializer` are `SerializerMethodField`s, which are read-only. So the relation id lists a film request carries are never validated and never stored. A film created through the API is linked to nothing, and an update leaves its links as they were.
- `Film.clean` is not called when a serializer saves, so the API stores thumbnails over 1 MB.
- The CharFields of `LoginSerializer` refuse missing and blank values before `validate` runs. So "Must provide username and password both" never reaches a client.

## Model

| member | source | states |
|---|---|---|
| Models.Clean | movie_app/models.py:96-103 | `clean` refuses a film exactly when it has a thumbnail larger than 1048576 bytes, and it refuses with the 1 MB message |
| Models.NewProfile | movie_app/models.py:16-27 | a fresh profile has no birth date and no bio, the default avatar, status Aktif and no updater, and names the given user and creator |
| Models.ProfileOf | api/views.py:799 | the profile lookup returns a profile of that user; it returns None exactly when no profile belongs to the user |
| Models.DeleteFilm | movie_app/models.py:108-110 | deleting a film removes exactly that film and exactly the ratings of that film; the other ratings, the catalogs, users, profiles and tokens are unchanged |
| Models.DeleteCatalogEntry | movie_app/models.py:86-90 | deleting a catalog entry removes exactly that id from its catalog and from every film's relation of that kind; the other catalogs and all other film columns are unchanged |
| Models.DeleteUser | movie_app/models.py:21-27 | deleting a user fails exactly when a profile names the user (PROTECT); otherwise the user, exactly their ratings (CASCADE) and their token go, every profile is rewritten by `UnlinkProfiles` (SET_NULL), and films and catalogs stay |
| Models.Unlinked | movie_app/models.py:26-27 | after SET_NULL neither user_create nor user_update names the deleted user; a reference to anyone else, and every other column, is kept |
| Models.UnlinkProfiles | movie_app/models.py:26-27 | every profile stays under its id; each is `Unlinked`: a user_create or user_update that named the deleted user becomes None, and nothing else in it changes |
| Models.DeleteFilmConsistent | movie_app/models.py:108-121 | the film cascade keeps every schema invariant: links, column domains, rating keys, pair uniqueness |
| Models.DeleteCatalogEntryConsistent | movie_app/models.py:86-90 | deleting a catalog entry leaves no film linking to a missing entry |
| Models.DeleteUserConsistent | movie_app/models.py:21-27 | a permitted user deletion keeps every invariant; SET_NULL leaves no profile naming the deleted user |
| Fields.Strip | api/serializers.py:10-11 | the stripped string is a slice of the input, and everything dropped before and after it is whitespace; it is empty exactly when the input is all whitespace, and otherwise neither starts nor ends with whitespace |
| Fields.StripIdempotent | api/serializers.py:10-11 | stripping twice is stripping once |
| Fields.CharField | api/serializers.py:44-49 | missing means Required and None means NotNullable; success means a stripped value within its length and validators, without U+0000 and non-blank unless blank is allowed; it succeeds exactly when `CharFieldOk` holds; the reasons come in DRF's validator order: the field's own validators, then the length and U+0000 checks, then those a subclass such as EmailField appends |
| Serializers.EmailErrorOrder | api/serializers.py:40-43 | the e-mail field reports a taken address first, then U+0000, and an invalid address last |
| Fields.CharFieldAcceptsStored | api/serializers.py:44-49 | a value a CharField stored is accepted again unchanged |
| Fields.IntegerField | movie_app/models.py:83-85 | succeeds exactly on a given integer within `[min, max]` and stores it unchanged |
| Fields.BooleanField | movie_app/models.py:10-11 | only null is refused; a missing key validates to "absent" and a given value to itself |
| Fields.PrimaryKeyField | api/serializers.py:158 | succeeds exactly when the value is the id of an existing row |
| Fields.ImageField | movie_app/models.py:81 | None clears the thumbnail; a file is accepted exactly when it is named, non-empty, its name fits, it decodes as an image and its extension is an image extension (`validate_image_file_extension`); a decodable file with another extension is refused with the extension error |
| Decimals.DecimalField | movie_app/models.py:111 | success iff the digit rules hold and the scaled value lies in the range; a success stores the value scaled to the decimal places |
| Decimals.DecimalFieldIsExact | movie_app/models.py:111 | the stored integer is the submitted number times 10^places, exactly |
| Decimals.DecimalRoundTrip | movie_app/models.py:111 | the value rendered with exactly `places` decimals is accepted back as the same stored integer |
| Aggregate.RoundHalfEven | api/serializers.py:154 | the rounded quotient is within half a unit of `num/den`, and is the floor or the floor plus one |
| Aggregate.AverageBounds | api/serializers.py:150-155 | the rounded mean is within half a unit of the exact mean and lies between the smallest and the largest value |
| Serializers.CatalogName | api/serializers.py:87-110 | None is refused as null and a blank name as blank; an accepted name is stripped and fits its column (255, or 100 for bahasa); every stripped, non-blank, fitting name without U+0000 is accepted |
| Serializers.StatusField | movie_app/models.py:76-82 | only "Released" and "Upcoming" are accepted, and each maps to the status of that name |
| Serializers.StatusRoundTrip | movie_app/models.py:76-82 | every film status is accepted back from its own name |
| Serializers.ValidateFilm | api/serializers.py:113-124 | succeeds exactly when `FilmInputOk` holds: a non-blank judul of at most 255 characters, an acceptable thumbnail or none, status Released or Upcoming, tahun in 0..9999, a non-blank deskripsi, durasi at least 0; a success holds the stripped texts, the given numbers, the named status and the upload |
| Serializers.NewFilm | api/serializers.py:114-118 | a film saved on create holds the validated columns and no relation links |
| Serializers.Reassign | api/views.py:630-634 | an update assigns every validated column and keeps every relation |
| Serializers.ValidatedFilmFits | movie_app/models.py:80-85 | what validation accepts satisfies the column domains of `Film` |
| Serializers.RelatedIds | api/serializers.py:126-144 | the related ids listed are exactly the film's links that name existing entries, in ascending order |
| Serializers.RelationNames | api/serializers.py:126-144 | each listed name is the name of the related entry at that position |
| Serializers.RelationNamesExact | api/serializers.py:126-144 | a name is shown if and only if some linked, existing entry has that name |
| Serializers.FilmRatingIds | api/serializers.py:151 | the listed ids are exactly the ratings of the film, ascending, so each appears once and the list is as long as the set |
| Serializers.FilmRatings | api/serializers.py:151-153 | one value per rating of the film, no more and no fewer: the j-th value is the value of the j-th of the film's rating ids, and those ids are each rating of the film once |
| Serializers.AverageRatingSpec | api/serializers.py:150-155 | `average_rating` is None iff the film has no rating; otherwise it is within 0.05 of the mean, is bounded below and above by ratings of that film, and lies in 0.0..10.0 when every rating does |
| Serializers.ShownNamesOf | api/serializers.py:113-144 | each relation field of a shown film is rendered from that catalog and that link set |
| Serializers.ShowFilmSpec | api/serializers.py:113-155 | a shown film lists exactly the names of its existing linked entries; its average is None iff it has no rating, and in a valid store the average lies in 0.0..10.0 |
| Serializers.ValidateRating | api/serializers.py:157-162 | succeeds exactly when `RatingInputOk` holds: the user and the film exist, and the value has DRF's digit counts (3 digits, 1 after the point) and lies in 0.0..10.0; a success stores that user, that film and the value scaled to tenths; the pair is not checked here; failures are keyed film, rating, user, the field order of `fields = '__all__'` |
| Serializers.RatingValueExact | movie_app/models.py:111 | the stored tenths are the submitted number times ten, exactly |
| Serializers.RatingShownRoundTrip | api/serializers.py:157-162 | a stored rating, sent back exactly as it is shown, validates to the same rating |
| Serializers.LoginValidate | api/serializers.py:13-32 | the missing-credentials error occurs iff a credential is empty; bad credentials iff `authenticate` finds nobody; deactivated iff the user found is inactive or neither author nor visitor; success otherwise, with that user |
| Serializers.RegisterFields | api/serializers.py:39-57 | succeeds exactly when `RegisterInputOk` holds: every text field passes its CharField with its validators (username and e-mail new, username within 150 characters, password1 passing `validate_password`), and no boolean is null; a success holds the stripped values and the booleans as given, or absent |
| Serializers.RegisterValidate | api/serializers.py:59-69 | a password mismatch fails first and always; choosing both author and visitor fails otherwise; success iff neither holds |
| Serializers.AccountFor | api/serializers.py:72-80 | the user row holds the submitted username, e-mail, password, first and last name, is_active and is_authors, and the given is_visitors |
| Serializers.ShowUser | api/serializers.py:51-53 | the registration reply shows the account's username, e-mail, is_active, is_authors, is_visitors, first and last name as stored; the passwords are write-only and not shown |
| Serializers.CreateAccount | api/serializers.py:71-85 | fails (KeyError) exactly when is_active or is_authors was left out; otherwise adds one fresh user and exactly one profile that it created itself, and nothing else |
| Serializers.RegisterCreateAsWritten | api/serializers.py:71-85 | as written: the new account always has is_visitors false |
| Serializers.RegisterCreate | api/serializers.py:71-85 | corrected: the new account has is_visitors as the request gave it |
| CatalogViews.ShowAll | api/views.py:21-29 | the list shows every entry exactly once, with its name, in ascending id order |
| CatalogViews.List | api/views.py:21-29 | GET on the list answers 200 with every entry and changes nothing |
| CatalogViews.Create | api/views.py:32-46 | an invalid name gives a bare 400 and no change; otherwise 201 with a fresh id holding the stripped name, and that catalog gains exactly that entry |
| CatalogViews.Retrieve | api/views.py:57-75 | a missing id gives 404 with empty data (and only a missing id does); a present one gives 200 with its entry; nothing changes |
| CatalogViews.Update | api/views.py:78-101 | a missing id gives 400 with empty data and no change; an invalid name gives a bare 400; otherwise only that entry's name changes |
| CatalogViews.Delete | api/views.py:104-120 | a missing id gives 400 with no change; otherwise 200 without data, and the new state is exactly `DeleteCatalogEntry`: that entry goes, it leaves every film's links of that kind, and nothing else changes |
| CatalogViews.CreateThenRetrieve | api/views.py:32-75 | retrieving the id a create answered with gives back the created entry |
| CatalogViews.UpdateThenRetrieve | api/views.py:78-101 | after an update the entry reads with the new name, and every other entry of every catalog reads as before |
| CatalogViews.DeleteThenRetrieve | api/views.py:104-120 | after a delete the id gives 404, and every other entry reads as before |
| CatalogViews.CreateKeepsConsistent | api/views.py:32-46 | a catalog create keeps every schema invariant |
| CatalogViews.UpdateKeepsConsistent | api/views.py:78-101 | a catalog update keeps every schema invariant |
| CatalogViews.DeleteKeepsConsistent | api/views.py:104-120 | a catalog delete keeps every schema invariant |
| FilmViews.ShowAll | api/views.py:540-548 | the list holds one rendered film for each id of the table in turn |
| FilmViews.List | api/views.py:540-548 | GET answers 200 with every film exactly once and changes nothing |
| FilmViews.Create | api/views.py:551-575 | invalid input gives a bare 400 and no change; otherwise 201, a fresh id holding the validated film without links, and the reply shows the stored film |
| FilmViews.Retrieve | api/views.py:585-603 | 404 iff the id is missing; otherwise 200 with the rendered film; nothing changes |
| FilmViews.Update | api/views.py:606-639 | a missing id gives 400; invalid input gives a bare 400; otherwise only that film changes, its columns reassigned and its links kept |
| FilmViews.Delete | api/views.py:642-658 | a missing id gives 400; otherwise 200 without data, and the new state is exactly `DeleteFilm`: the film and exactly its ratings go, and nothing else changes |
| FilmViews.RelationsAreReadOnly | api/serializers.py:113-118 | two requests that differ only in their relation lists give the same create and the same update |
| FilmViews.CreatedFilmUnlinked | api/views.py:551-575 | a film created through the API shows no names in any relation |
| FilmViews.UpdateKeepsLinks | api/views.py:617-634 | an update leaves every relation of the film as it was |
| FilmViews.CreatedFilmUnrated | api/serializers.py:150-155 | in a store whose ratings name existing films, a created film has no average rating |
| FilmViews.OversizedThumbnailStored | movie_app/models.py:96-103 | a thumbnail over 1 MB that decodes is stored by create, and `clean` would refuse the stored film |
| FilmViews.CreateKeepsConsistent | api/views.py:551-575 | a film create keeps every schema invariant |
| FilmViews.UpdateKeepsConsistent | api/views.py:606-639 | a film update keeps every schema invariant |
| FilmViews.DeleteKeepsConsistent | api/views.py:642-658 | a film delete keeps every schema invariant |
| RatingViews.ShowAll | api/views.py:663-671 | the list holds one rendered rating, its value to one decimal, for each id of the table in turn |
| RatingViews.List | api/views.py:663-671 | GET answers 200, every listed item is a stored rating as rendered, every stored rating is listed, and nothing changes |
| RatingViews.Create | api/views.py:674-704 | invalid input gives 400 "Invalid data" with the errors; a taken pair gives 400 with empty data; both leave the store unchanged; 201 iff the input is valid and the pair is free, and then exactly that rating is added |
| RatingViews.Retrieve | api/views.py:714-732 | 404 iff the id is missing; otherwise 200 with the rendered rating; nothing changes |
| RatingViews.Update | api/views.py:735-760 | a missing id gives 400; invalid input gives a bare 400; moving onto a pair another rating holds is an uncaught IntegrityError (500) and changes nothing; otherwise only that rating changes |
| RatingViews.Delete | api/views.py:763-779 | a missing id gives 400; otherwise 200 without data, and exactly that rating goes |
| RatingViews.StoreRatingKeepsConsistent | movie_app/models.py:118-121 | storing a valid rating whose pair no other rating holds keeps the pair unique and every other invariant |
| RatingViews.CreateKeepsConsistent | api/views.py:674-704 | a rating create keeps every invariant; in particular no two ratings share a pair |
| RatingViews.UpdateKeepsConsistent | api/views.py:735-760 | a rating update keeps every invariant |
| RatingViews.DeleteKeepsConsistent | api/views.py:763-779 | a rating delete keeps every invariant |
| RatingViews.ShownRatingResubmits | api/views.py:735-760 | sending a shown rating back as an update of itself answers 200 with the same rating and changes nothing |
| AuthViews.RoleMessage | api/views.py:794-797 | the message says author exactly when is_authors holds, and visitor exactly when it does not |
| AuthViews.TokenFor | api/views.py:792 | get-or-create: an existing token is kept, a user without one gets the fresh key, and no other token changes |
| AuthViews.Login | api/views.py:787-818 | of the modelled state only tokens change (the `last_login` write is not modelled), and only by adding a token for a user; 200 iff both fields pass, `validate` succeeds and the user has a profile; the reply carries the token and the user's id, username, first and last name, e-mail, is_active and is_authors, and the profile's birth, avatar and bio; a field or `validate` failure is a 400 with no change |
| AuthViews.LoginRefusals | api/serializers.py:17-30 | for non-blank credentials: when the `authenticate` parameter finds nobody, "Unable to login with given credentials"; when it answers with a user who is inactive or has neither role, "User is deactivated"; a user without a profile gives a 500. `authenticate` is unconstrained: Django's default backend never answers with an inactive user, so there only the neither-role case reaches "User is deactivated" |
| AuthViews.MissingBothUnreachable | api/serializers.py:28-30 | no request makes the view answer "Must provide username and password both" |
| AuthViews.RepeatLoginSameToken | api/views.py:792 | logging in again returns the same reply, with the same token, and changes nothing in the modelled state (the `last_login` write is not modelled) |
| AuthViews.LoginKeepsConsistent | api/views.py:787-818 | a login keeps every invariant: tokens belong to users |
| AuthViews.Register | api/views.py:837-852 | as written: a field error gives 400 "Error bang..." with the errors and no change; otherwise the request proceeds as `Submit` storing is_visitors false, and a 201 always shows is_visitors false |
| AuthViews.RegisterCorrected | api/serializers.py:71-85 | the registration view with the corrected create: as `Register`, but `Submit` stores is_visitors as given, and a 201 shows is_visitors true exactly when the request gave true |
| AuthViews.Submit | api/views.py:838-847 | a `validate` failure gives 400 with that error and no change; 201 iff `validate` succeeds and is_active and is_authors were given, and then the state is the account `CreateAccount` adds and the reply shows that account; a missing boolean is a 500 with no change |
| AuthViews.RegisterKeepsConsistent | api/views.py:837-852 | registration, as written and corrected, keeps every invariant: the username stays unique and each user has at most one profile |
| AuthViews.SubmitKeepsConsistent | api/serializers.py:71-85 | saving an account under a username nobody has keeps every invariant, whatever is_visitors is stored |
| AuthViews.RegisteredKeepsConsistent | api/serializers.py:71-85 | adding an account with a new username and its own profile keeps every invariant |
| AuthViews.VisitorRegistrationLocksOut | api/serializers.py:71-85 | as written, an active visitor (not an author) registers an account that login refuses as deactivated |
| AuthViews.RegisteredVisitorCanLogIn | api/serializers.py:71-85 | with is_visitors stored, a visitor registered through `RegisterCorrected` can log in through the view right after |

## Findings

| source | as written | input that shows it | evidently intended | confidence | as-written member | corrected member |
|---|---|---|---|---|---|---|
| api/serializers.py:71-85 | `create` passes is_active and is_authors to `User.objects.create`, but the is_visitors line is commented out, so the account keeps the default false | register with is_active true, is_authors false, is_visitors true, then log in with the same credentials: `validate` answers "User is deactivated" | store is_visitors as given, so a registered visitor can log in | not executed | Serializers.RegisterCreateAsWritten, AuthViews.Register, AuthViews.VisitorRegistrationLocksOut | Serializers.RegisterCreate, AuthViews.RegisterCorrected, AuthViews.RegisteredVisitorCanLogIn |

The registration view `AuthViews.Register` follows the code as written. `AuthViews.RegisterCorrected` is the same view with the corrected create.

## Left out

- Logout (`LogoutView`) and the session that `django_login` opens: the session store is not modelled.
- `authenticate`, password hashing, `validate_password`, the username and e-mail syntax validators: framework code. `authenticate` is a parameter that answers with a user id or None. The three validators are the `Checks` parameter.
- Token key generation: the key a new token gets is the `freshKey` parameter.
- Image decoding (PIL), the list of extensions PIL registers, `Profile.save` thumbnailing, and `Image.open` in `Film.clean`: file I/O and library state. An upload carries a `decodable` and an `imageExtension` flag, and only the byte-size rule of `clean` is modelled.
- Text-to-number parsing of request values: integers, booleans and decimals arrive already typed.
- `created_on` and `last_modified`: they depend on the clock.
- `user_create` and `user_update` on films and ratings: the views never set them. Only the registration profile's `user_create` is modelled.
- `ProfileDetailApiView`: it is truncated and has no route.
- api/serializers-backup.py, movie_app/admin.py, api/urls.py and the migrations: this model does not cover them, since they are dead code, admin configuration, routing and schema history.
- Concurrency: each request is atomic. Two racing creates of the same rating pair are not modelled.
- The rating create's duplicate check runs in the database, as an IntegrityError on INSERT. DRF releases that generate a validator from a `UniqueConstraint` would refuse the pair during validation instead: `is_valid()` fails, so the create answers the "Invalid data" envelope with the errors, and the update a bare 400. The model follows the code's IntegrityError path.
- Querysets without `order_by` have no defined order. The model lists rows in ascending id order.
- Serializers.AverageRatingSpec: does not fix `round`'s tie rule. The model rounds half to even, and the contract states only the 0.05 tolerance and the bounds, which hold for either tie rule.
- AuthViews.Login: `django_login` fires `user_logged_in`, and Django's `update_last_login` then saves `last_login = now()` on the user row. That write depends on the clock and is not modelled, like `created_on`; so "only tokens change" holds for the modelled columns only.
- AuthViews.RepeatLoginSameToken: a repeat login writes `last_login` again; "changes nothing" is about the modelled state, which leaves that clock-dependent column out.
- Serializers.ShowFilm: the thumbnail is shown as the stored name. DRF renders the file's URL (`UPLOADED_FILES_USE_URL` is on by default), and the stored name gains the `film_images/` prefix and possibly a suffix from the storage; both depend on the media settings and the storage.
- AuthViews.Login: the reply's birthday and avatar are the stored values; ProfileSerializer renders the date as text and the avatar as the file's URL, which depends on the media settings.
- Serializers.ValidateFilm: durasi has no upper bound. Django adds to a PositiveIntegerField a MaxValueValidator for the integer range of the database backend (2147483647 on PostgreSQL and MySQL). The backend is not part of the source.
- Fields.BooleanField: request bodies are taken to be JSON. For a form-encoded or multipart body DRF reads a missing boolean as False, so a registration without is_active or is_authors would create the account with False instead of the KeyError 500 that Serializers.CreateAccount states.
