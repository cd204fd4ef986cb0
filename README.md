# CineMatch in Dafny

CineMatch is a Flask/SQLAlchemy movie catalog taught in several classroom
copies. This project models the parts of it that are logic rather than
framework glue, and proves what they promise:

- **Field parsers** (`utilities.py`). `parse_year` and `parse_rating` turn
  untrusted CSV text into a value in range or `None`. `get_csv_value`
  resolves a column through an ordered list of alias names.
- **Catalog queries**. `movies_list` (Unit 4) and `search` (Unit 3, Lesson 6)
  AND together up to four optional filters. They order by rating, descending.
  The browse page cuts the result into pages of 8. Both list the distinct,
  sorted, non-empty genres.
- **CSV import** (`import_csv`). One movie is staged per row with a title.
  The other rows are counted as skipped. The session commits once at the end,
  or rolls the whole import back.
- **Movie forms** (`add_movie`, `edit_movie`, `delete_movie`) in each
  edition. The login lesson puts them behind `admin_required`.
- **Accounts**. The `admin_required` gate, the registration validation chain,
  login against stored bcrypt hashes, and the starter copy's stubbed routes.
- **Seeding** (`init_db`, `load_initial_movies`). The samples go in only
  when the movie table is empty.

Modules, one per file:

| file | module | models |
|---|---|---|
| `wrappers.dfy` | `Wrappers` | `Option` |
| `text.dfy` | `Text` | `str.strip`, ASCII lower-casing, substring search, `replace(' ', '+')`, `endswith`, `str(n)`, the text `int()` and `float()` accept, SQLite's BINARY string order |
| `utilities.dfy` | `Utilities` | `parse_year`, `parse_rating`, `get_csv_value` |
| `models.dfy` | `Models` | `Movie` and `User` rows, bcrypt as a key-derivation parameter, SQLite rowids, and the `Database` class: committed rows plus the session's staged movies |
| `catalog.dfy` | `Catalog` | filters, ordering, pagination, the genre list, `movies_list`, `search` |
| `importer.dfy` | `Importer` | column aliases, one row to one movie, upload checks, the staging loop, commit or rollback, the flash notices |
| `crud.dfy` | `Crud` | `add_movie`, `edit_movie`, `delete_movie`, and the gated copies |
| `accounts.dfy` | `Accounts` | `admin_required`, `register`, `login`, the starter stubs |
| `seeding.dfy` | `Seeding` | `init_db`, `load_initial_movies` |

Two copies of the app differ in their rules. The model names them with
`Models.Edition`:

- `Authentication` is Unit 4, both `Unit4-Authentication/routes.py` and the
  login lesson's `Lesson3-Login/routes.py`.
- `SearchFilter` is `Unit3-Database/Lesson6-Search-Filter/app.py`.

Inputs the program takes from I/O become parameters:

- the uploaded file's name and already-parsed rows (`Importer.Upload`);
- whether the CSV reader or the commit raises;
- the query-string and form arguments, with werkzeug's `type=int` and
  `type=float` conversions as `Option` values;
- the bcrypt salt, and the key derivation itself (`Models.Kdf`);
- the signed-in visitor (`Accounts.Visitor`).

The main modelling choices:

- **Strings and ordering.**
  - Strings are `seq<char>`.
  - The title filter `ilike('%q%')` is ASCII case-insensitive substring
    search, which is what SQLite's LIKE does without ICU.
  - Genres sort by code point, which is SQLite's BINARY collation.
- **Ratings.**
  - Ratings are exact `real` numbers.
  - `float()` of `inf` or `nan` yields `Text.NonFinite`, which the range
    check of `parse_rating` refuses.
- **Sorting.** `ORDER BY rating DESC` puts NULL ratings last, as SQLite does.
  Only sortedness and permutation are claimed, because SQL leaves the order
  of ties open. The pagination lemmas cut all pages from one such ordering.
- **Ids.** New rows get SQLite's rowid: one more than the largest id, or 1
  for an empty table. They are assigned in staging order at commit.
- **Pages.** Page numbers below 1 are read as 1, and a page past the end is
  empty. Both come from `paginate(error_out=False)`.
- **bcrypt.**
  - `HashPassword(kdf, p, salt)` stores the salt and `kdf(p, salt)`, and
    `CheckPassword` recomputes it.
  - "A password checks against its own hash" is then a lemma
    (`Models.CheckOwnHash`), not an assumption.
  - `password_hash` is UNIQUE in the login lesson's model. A colliding hash
    therefore fails the commit (`Accounts.HashConflict`).

## Model

| member | source | states |
|---|---|---|
| Text.Strip | Unit4-Authentication/utilities.py:17 | the result has no whitespace at either end and is no longer than the text; it is empty exactly when the text is all whitespace |
| Text.StripIsTrim | Unit4-Authentication/utilities.py:17 | the result is the slice of the text left after removing a run of whitespace at its start and a run at its end |
| Text.StripIdempotent | Unit4-Authentication/utilities.py:55 | stripping an already stripped cell again (as `parse_year` does) changes nothing |
| Text.NatToStringRoundTrip | Unit4-Authentication/utilities.py:17 | the digits `str(n)` prints are read back by the integer grammar as `n` |
| Text.FloatTenthsRoundTrip | Unit4-Authentication/utilities.py:36 | a one-decimal number printed as text is read back by `float()` as the same finite value |
| Utilities.ParseYear | Unit4-Authentication/utilities.py:5-22 | `None` for missing or empty text; otherwise the integer of the stripped text exactly when `int()` accepts it and it lies in [1888, 2030]; never out of range |
| Utilities.ParseYearRoundTrip | Unit4-Authentication/utilities.py:17-20 | `parse_year(str(y)) == y` for every year in [1888, 2030] |
| Utilities.ParseYearRejectsDecimal | Unit4-Authentication/utilities.py:17-22 | "2010.0" yields `None` instead of an error |
| Utilities.ParseYearRejectsLetters | Unit4-Authentication/utilities.py:17-22 | "abc" yields `None` instead of an error |
| Utilities.ParseYearRejectsOutOfRange | Unit4-Authentication/utilities.py:18-20 | an integer outside [1888, 2030] yields `None` although `int()` accepts it |
| Utilities.ParseRating | Unit4-Authentication/utilities.py:25-41 | `None` for missing or empty text; otherwise the stripped text's finite value exactly when `float()` accepts it and it lies in [0.0, 10.0]; never out of range |
| Utilities.ParseRatingRoundTrip | Unit4-Authentication/utilities.py:36-38 | every one-decimal rating in [0.0, 10.0] survives printing and parsing |
| Utilities.ParseRatingRejectsInfinity | Unit4-Authentication/utilities.py:36-39 | "inf" parses as a float, fails the range check and yields `None` |
| Utilities.GetCsvValue | Unit4-Authentication/utilities.py:44-56 | `None` exactly when no alias is present with a non-empty cell; otherwise the stripped cell of the first such alias |
| Utilities.GetCsvValueFirst | Unit4-Authentication/utilities.py:53-55 | the first present alias, and only it, decides the value |
| Utilities.GetCsvValueEarlierWins | Unit4-Authentication/utilities.py:53-55 | adding later aliases never changes a value an earlier alias provides |
| Utilities.GetCsvValueFallsThrough | Unit4-Authentication/utilities.py:53-56 | when no earlier alias is present, the later aliases decide |
| Utilities.GetCsvValueBlankStops | Unit4-Authentication/utilities.py:54-55 | a whitespace-only cell stops the search with "" instead of trying the next alias |
| Utilities.GetCsvValueEmptySkipped | Unit4-Authentication/utilities.py:54 | an empty cell counts as missing, so the next alias is used |
| Models.Placeholder | Unit4-Authentication/routes.py:105-106 | the placeholder URL is the fixed prefix followed by the title, with `+` for each space in Unit 4 and the raw title in Lesson 6 |
| Models.PosterOrPlaceholder | Unit4-Authentication/Lesson3-Login/routes.py:200-201 | the poster is the given URL when it is non-empty, the placeholder otherwise, and never empty |
| Models.CheckOwnHash | Unit4-Authentication/Lesson3-Login/models.py:81-116 | a password stored by `set_password` always passes `check_password` |
| Models.CheckOnlyOwnPassword | Unit4-Authentication/Lesson3-Login/models.py:104-116 | when the key derivation has no collisions, only the hashed password checks |
| Models.NextMovieId | Unit4-Authentication/Lesson3-Login/models.py:129 | a new movie's id is above every id in the table, and 1 for an empty table |
| Models.Inserted | Unit4-Authentication/Lesson3-Login/routes.py:203-206 | committing keeps the old rows in place and appends each staged movie in order under consecutive new ids |
| Models.InsertedKeepsIdsUnique | Unit4-Authentication/Lesson3-Login/routes.py:206 | a commit keeps the primary key unique |
| Models.Find | Unit4-Authentication/Lesson3-Login/routes.py:138 | `get_or_404` finds nothing exactly when no row has the id; what it finds is a row with that id |
| Models.WithDetails | Unit4-Authentication/routes.py:122-131 | an edit keeps every id and overwrites the columns of the edited row only |
| Models.Without | Unit4-Authentication/routes.py:141-144 | a delete keeps exactly the rows with other ids |
| Models.WithoutRemovesOne | Unit4-Authentication/routes.py:141-144 | with unique ids, deleting an existing movie removes exactly one row |
| Models.WithoutKeepsIdsUnique | Unit4-Authentication/routes.py:143-144 | a delete keeps the primary key unique |
| Models.Database.Stage | Unit4-Authentication/Lesson3-Login/routes.py:203 | `db.session.add` appends to the staged movies and writes nothing |
| Models.Database.StageAll | Unit4-Authentication/db_init.py:72 | `bulk_save_objects` stages the whole list in order |
| Models.Database.Commit | Unit4-Authentication/Lesson3-Login/routes.py:206 | the staged movies become rows as `Inserted` says; nothing stays staged; the table stays valid |
| Models.Database.Rollback | Unit4-Authentication/Lesson3-Login/routes.py:212-213 | every staged movie is dropped and no row changes |
| Models.Database.InsertUser | Unit4-Authentication/Lesson3-Login/routes.py:343-346 | the user row is appended under the next id and the UNIQUE columns stay unique |
| Models.Database.Update | Unit4-Authentication/routes.py:122-131 | the table becomes `WithDetails` of the old one |
| Models.Database.Delete | Unit4-Authentication/routes.py:143-144 | the table becomes `Without` of the old one |
| Catalog.Where | Unit4-Authentication/Lesson3-Login/routes.py:67-74 | one `q.filter` keeps exactly the rows passing it |
| Catalog.Selected | Unit4-Authentication/Lesson3-Login/routes.py:67-74 | the reference answer: the rows matching every truthy argument, as many times as the table holds them |
| Catalog.CriteriaMeanMatches | Unit4-Authentication/Lesson3-Login/routes.py:67-74 | passing all the added filters is matching every truthy argument: case-insensitive title substring, genre equal, year equal, rating at least the minimum |
| Catalog.FiltersCombineWithAnd | Unit4-Authentication/routes.py:50-57 | the chain of filters yields the reference answer |
| Catalog.FalsyArgumentsKeepAll | Unit4-Authentication/Lesson3-Login/routes.py:58-74 | blank text, year 0, rating 0 and missing arguments add no filter |
| Catalog.SortByRating | Unit4-Authentication/Lesson3-Login/routes.py:76 | the same rows, highest rating first, unrated last |
| Catalog.PageNumber | Unit4-Authentication/Lesson3-Login/routes.py:62 | a missing page is 1 and a page below 1 is read as 1 |
| Catalog.PageOf | Unit4-Authentication/Lesson3-Login/routes.py:76-78 | page p holds positions [(p-1)*8, p*8) of the ordered result, at most 8 items, and nothing past the end |
| Catalog.PageHasItems | Unit4-Authentication/routes.py:59-61 | a page has items exactly when its number is at most the page count, so a page past the end is empty rather than an error |
| Catalog.FirstPagesArePrefix | Unit4-Authentication/Lesson3-Login/routes.py:76-78 | the first n pages cut from one ordered result are its first 8n rows: such pages neither overlap nor skip rows |
| Catalog.AllPagesCoverResult | Unit4-Authentication/routes.py:59-61 | all pages together are the whole result |
| Catalog.InsertGenre | Unit4-Authentication/Lesson3-Login/routes.py:80 | adding a genre keeps the list strictly ascending and adds exactly that genre |
| Catalog.DistinctGenres | Unit4-Authentication/Lesson3-Login/routes.py:80-81 | the genre list is strictly ascending, so it has no duplicates, and holds exactly the non-empty genres some movie has |
| Catalog.AscendingIsUnique | Unit4-Authentication/Lesson3-Login/routes.py:80 | two strictly ascending lists with the same elements are equal |
| Catalog.GenresAreTheSortedSet | Unit4-Authentication/routes.py:63-64 | any strictly ascending list of exactly the present genres is the genre list |
| Catalog.MoviesList | Unit4-Authentication/Lesson3-Login/routes.py:55-92 | one page of at most 8 matching movies in rating order; the match count; empty items exactly past the last page; the genre list |
| Catalog.Search | Unit3-Database/Lesson6-Search-Filter/app.py:282-367 | every matching movie, each as often as it is stored, in rating order, unpaginated; the genre list |
| Catalog.SearchWithoutArgumentsListsAll | Unit3-Database/Lesson6-Search-Filter/app.py:301-340 | with no arguments the search lists every movie |
| Catalog.PagesOfSearch | Unit3-Database/Lesson6-Search-Filter/app.py:340 | a browse page is the same page cut from the search result |
| Importer.RowDetails | Unit4-Authentication/Lesson3-Login/routes.py:188-202 | a row is skipped exactly when its title lookup is falsy; a staged movie has that non-empty title, an in-range year and rating, and a non-empty poster |
| Importer.RowDetailsColumns | Unit4-Authentication/Lesson3-Login/routes.py:193-201 | each column of an imported movie is its own alias lookup, year and rating through `parse_year` and `parse_rating`, and the poster is the lookup or, when that is falsy, the edition's placeholder for the title |
| Importer.EveryRowCounted | Unit4-Authentication/Lesson3-Login/routes.py:187-204 | imported + skipped equals the number of data rows |
| Importer.StagedAreWellFormed | Unit4-Authentication/routes.py:166-183 | no staged movie lacks a title, and parsed years and ratings are in range |
| Importer.StagedStep | Unit4-Authentication/Lesson3-Login/routes.py:187-204 | each row either adds its movie after the earlier ones or adds one skip |
| Importer.CheckUpload | Unit4-Authentication/Lesson3-Login/routes.py:175-177 | an upload passes exactly when it has a non-empty filename ending in ".csv" in any case; Unit 4 has one message, Lesson 6 separates a missing file from a wrong type |
| Importer.SameUploadsAccepted | Unit3-Database/Lesson6-Search-Filter/app.py:216-221 | both editions accept the same uploads |
| Importer.UppercaseExtensionAccepted | Unit4-Authentication/Lesson3-Login/routes.py:175 | "TOP.CSV" is accepted |
| Importer.ImportResult | Unit4-Authentication/Lesson3-Login/routes.py:173-215 | rejected exactly when the upload check fails, with the problem it reports (one message in Unit 4, a missing file and a wrong type told apart in Lesson 6); failed exactly when the check passes and the reader or the commit raises; when committed, the counts are the staged and skipped rows, which add up to the row count |
| Importer.StageRows | Unit4-Authentication/Lesson3-Login/routes.py:184-204 | the loop stages exactly the titled rows' movies, in order, and counts them and the skipped rows |
| Importer.ImportCsv | Unit3-Database/Lesson6-Search-Filter/app.py:210-276 | all or nothing: a committed import appends every staged movie, and any other outcome leaves the table as it was |
| Importer.SuccessNotices | Unit3-Database/Lesson6-Search-Filter/app.py:266-269 | Unit 4 always reports the imported count and Lesson 6 only when it is positive; skipped rows are reported only when there are some; at most two notices, the imported count first |
| Crud.FormDetails | Unit4-Authentication/routes.py:98-107 | the form's columns are stored as given, and the poster falls back to the title's placeholder |
| Crud.AddCheck | Unit4-Authentication/routes.py:93-96 | Unit 4 refuses a missing or empty title; Lesson 6, with its check commented out, stores an empty title and fails only on a missing one |
| Crud.AddMovie | Unit4-Authentication/routes.py:89-113 | a refused form leaves the table unchanged; otherwise exactly one row is appended under the next id |
| Crud.AddedIsFound | Unit4-Authentication/routes.py:108-109 | the added movie is what `get` finds under its new id |
| Crud.DeleteUndoesAdd | Unit4-Authentication/routes.py:138-146 | deleting the movie just added restores the table |
| Crud.EditMovie | Unit3-Database/Lesson6-Search-Filter/app.py:168-186 | an unknown id is a 404; a missing title fails with no change; otherwise every column of that row is overwritten, the poster defaulting from the new title |
| Crud.EditedIsFound | Unit4-Authentication/routes.py:119-131 | after an edit the row under that id has exactly the new columns |
| Crud.EditIdempotent | Unit3-Database/Lesson6-Search-Filter/app.py:173-183 | submitting the same edit twice is submitting it once |
| Crud.DeleteMovie | Unit4-Authentication/routes.py:138-146 | an unknown id is a 404; otherwise exactly that row goes and its title is reported |
| Crud.DeletedIsGone | Unit3-Database/Lesson6-Search-Filter/app.py:188-199 | after a delete no row has that id |
| Crud.AdminAddMovie | Unit4-Authentication/Lesson3-Login/routes.py:106-131 | a refused visitor changes nothing; for an admin, a missing or empty title is refused and any other form is appended under the next id |
| Crud.AdminEditMovie | Unit4-Authentication/Lesson3-Login/routes.py:134-154 | a refused visitor changes nothing; for an admin, an unknown id is a 404, a missing title fails with no change, otherwise the row's columns are overwritten |
| Crud.AdminDeleteMovie | Unit4-Authentication/Lesson3-Login/routes.py:157-166 | a refused visitor changes nothing; for an admin, an unknown id is a 404, otherwise exactly that row goes and its title is reported |
| Crud.AdminImportCsv | Unit4-Authentication/Lesson3-Login/routes.py:169-217 | only an admin reaches the import; a refused visitor changes nothing |
| Accounts.AdminRequired | Unit4-Authentication/Lesson3-Login/routes.py:13-28 | an anonymous visitor goes to login, a signed-in non-admin to the home page, and the view runs exactly for a signed-in admin |
| Accounts.FindUser | Unit4-Authentication/Lesson3-Login/routes.py:384 | no user is found exactly when the name is unused; otherwise the first user of that name |
| Accounts.FindUserUnique | Unit4-Authentication/Lesson3-Login/models.py:57 | with unique usernames, the lookup finds the one user of that name |
| Accounts.Validate | Unit4-Authentication/Lesson3-Login/routes.py:277-326 | no error exactly when every rule holds; otherwise the error reported is a broken rule and every rule checked before it holds |
| Accounts.Registration | Unit4-Authentication/Lesson3-Login/routes.py:248-364 | a signed-in visitor is sent home; the first broken rule, in `Validate`'s order, refuses the form; a valid form fails at commit exactly when its hash is already stored, and otherwise creates a non-admin user with the next id and the hashed password |
| Accounts.RegisterAsWritten | Unit4-Authentication/Lesson3-Login/routes.py:264-267 | the stored username is the form's text, unstripped |
| Accounts.ReadUsername | Unit4-Authentication/Lesson3-Login/routes.py:380 | the username read has no whitespace at either end |
| Accounts.RegisterResult | Unit4-Authentication/Lesson3-Login/routes.py:256-267 | the stored username is the stripped text, the same text login looks up |
| Accounts.RegisteredKeepsUsersDistinct | Unit4-Authentication/Lesson3-Login/routes.py:315-346 | a registration keeps username, email, id and hash unique |
| Accounts.Register | Unit4-Authentication/Lesson3-Login/routes.py:224-368 | the view for the username as it is read: given the raw form text, as line 264 reads it, the outcome is `RegisterAsWritten`; given the stripped text, it is the corrected `RegisterResult`; a success appends the new user and signs them in, and anything else leaves the users and the visitor unchanged |
| Accounts.Login | Unit4-Authentication/Lesson3-Login/routes.py:371-395 | a signed-in visitor is sent home; a login succeeds only for a user with the stripped name whose hash checks; an unknown name fails |
| Accounts.LoginSucceedsIff | Unit4-Authentication/Lesson3-Login/routes.py:384-390 | with unique usernames, the user of that name is signed in exactly when the password checks |
| Accounts.SameFailureForUnknownUserAndWrongPassword | Unit4-Authentication/Lesson3-Login/routes.py:387-393 | an unknown user and a wrong password produce the same failure |
| Accounts.RegisterThenLogin | Unit4-Authentication/Lesson3-Login/routes.py:343-390 | whoever registers can then log in with the same username and password |
| Accounts.PaddedUsernameLocksOut | Unit4-Authentication/Lesson3-Login/routes.py:264-390 | as written, a user registered as "alice " can never log in, whatever is typed |
| Accounts.StarterRegister | Unit4-Authentication/routes.py:203-336 | a POST is sent to the home page without validating or creating anything; other requests render the form |
| Accounts.StarterRegisterIgnoresForm | Unit4-Authentication/routes.py:331-332 | every POST gets the same answer, whatever the form and the table hold |
| Accounts.StarterLogin | Unit4-Authentication/routes.py:339-341 | the starter login always renders the form |
| Accounts.StarterLogout | Unit4-Authentication/routes.py:344-346 | the starter logout always redirects home |
| Seeding.SampleMoviesWellFormed | Unit4-Authentication/db_init.py:15-70 | every sample has a title, a year in [1888, 2030], a rating in [0, 10] and a poster |
| Seeding.InitialMoviesWellFormed | Unit3-Database/Lesson6-Search-Filter/app.py:41-85 | every sample has a title, a year in [1888, 2030], a rating in [0, 10] and a poster |
| Seeding.SampleCounts | Unit4-Authentication/db_init.py:15-70 | seeding an empty table adds six movies in Unit 4 and five in Lesson 6 |
| Seeding.Seeded | Unit4-Authentication/db_init.py:12-73 | a table with rows is left as it is; an empty one receives the samples in order under ids 1, 2, ... |
| Seeding.SeedingIdempotent | Unit4-Authentication/db_init.py:12 | seeding twice is seeding once |
| Seeding.SeededIdsUnique | Unit4-Authentication/db_init.py:72-73 | seeding keeps the primary key unique |
| Seeding.InitDb | Unit4-Authentication/db_init.py:6-74 | the table becomes `Seeded` of the old one with the six samples |
| Seeding.LoadInitialMovies | Unit3-Database/Lesson6-Search-Filter/app.py:33-94 | the loop stages the five samples in order and commits only when the table is empty |
| Seeding.InitDbTwice | Unit4-Authentication/db_init.py:12 | starting the app twice seeds the table once |

## Left out

- Flask routing, templates, `flash`, `redirect` and `url_for`: each view returns an outcome value instead. The flash texts appear only as comments on those values.
- GET requests that only render a form, and the 404 and 500 pages. A missing id is `NotFound`, and a failed NOT NULL or UNIQUE constraint is `ServerError` or `HashConflict`.
- Lesson 6's `models.py` is not part of this model. Its `Movie.title` is taken to be NOT NULL, as in the login lesson's `Movie`, which is marked unchanged from Unit 3. That is the basis of `Crud.AddCheck`'s and `Crud.EditMovie`'s `ServerError` for a missing title in that edition.
- Reading the upload: `file.read()`, UTF-8 decoding with replacement and `csv.DictReader` are library code. The model starts from the filename and the parsed rows. Lesson 6's separate "Error reading file" branch (app.py:223-228) is not modelled; it also changes nothing.
- The error text of a failed import: the outcome records only the fact of failure.
- IEEE floating point: ratings are exact reals. NaN is not modelled apart from being refused. Whether a NaN `min_rating` argument is truthy is not modelled either.
- Unicode: `str.strip`, `int()` and `float()` are modelled for ASCII text, and `lower()` for ASCII letters. Non-ASCII digits and whitespace are outside the model.
- SQL LIKE wildcards: `%` and `_` inside a search query are treated as ordinary characters, although `ilike` would read them as patterns.
- Catalog.SortByRating: the order among movies with equal ratings is not specified, because SQL leaves it open.
- Catalog.FirstPagesArePrefix: it cuts every page from one ordering. Each page is a separate query in the app, and SQL does not promise that two such queries order tied ratings the same way. The claim therefore holds only when they do.
- SQLAlchemy internals: transaction isolation, `create_all`, and the `created_at` timestamps.
- Concurrent requests.
- Flask-Login session storage and `load_user`: the current user is a parameter and `login_user` is the returned visitor.
- The login lesson's `logout`, `profile`, `index`, `about` and `movie_detail` views, which only render or clear the session.
- Accounts.RegisterResult: it corrects only the username, which it strips as login does. The email is kept as the form gives it, as the code does, although a comment asks for it to be stripped and lower-cased.
- Models.CheckOnlyOwnPassword: it assumes a collision-free key derivation. bcrypt's real collision behaviour is not modelled: its internals and salting are parameters.
- The Unit 4 root `models.py`. Its `User` is an incomplete starter; the login lesson's model gives the record shapes.

## Findings

| source | as written | input that shows it | evidently intended | confidence | as-written member | corrected member |
|---|---|---|---|---|---|---|
| Unit4-Authentication/Lesson3-Login/routes.py:264 | `register` stores `request.form.get("username")` unstripped, but `login` (line 380) strips the typed username before the lookup | registering "alice " with password "secret1": the account is created, and no typed username ever matches it at login | strip the username at registration, as the comment at lines 256-262 asks and as login does | not executed | Accounts.PaddedUsernameLocksOut | Accounts.RegisterThenLogin |
