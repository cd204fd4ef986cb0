/**
 * The catalog's two tables, `Movie` and `User`, and the database as one
 * SQLAlchemy session sees it: the committed rows plus the movies the session
 * has staged (`db.session.add`) and not yet committed. New rows get ids by
 * SQLite's rowid rule: one more than the largest id in the table, or 1 when
 * the table is empty.
 */
module Models {
  import opened Wrappers
  import opened Text

  // ---------------------------------------------------------------------------
  // Rows
  // ---------------------------------------------------------------------------

  /** The columns of a movie other than its id; only `title` is NOT NULL. */
  datatype Details = Details(
    title: string,
    year: Option<int>,
    genre: Option<string>,
    director: Option<string>,
    rating: Option<real>,
    description: Option<string>,
    posterUrl: Option<string>)

  datatype Movie = Movie(id: nat, details: Details)

  /** A stored bcrypt hash: the salt it was made with and the derived digest. */
  datatype PasswordHash = PasswordHash(salt: nat, digest: nat)

  /** bcrypt's key derivation, uninterpreted: a digest for each password and salt. */
  type Kdf = (string, nat) -> nat

  /** A user row; `username`, `email` and `passwordHash` carry UNIQUE constraints. */
  datatype User = User(id: nat, username: string, email: string, passwordHash: PasswordHash, isAdmin: bool)

  /**
   * The copies of the app whose rules differ: `SearchFilter` is Unit 3,
   * Lesson 6 (`app.py`); `Authentication` is Unit 4 (`routes.py`, with and
   * without the login lesson).
   */
  datatype Edition = SearchFilter | Authentication

  const PlaceholderPrefix: string := "https://placehold.co/300x450/gray/white?text="

  /**
   * The default poster for a title: the placeholder service with the title as
   * its text; Unit 4 writes `+` for each space, Lesson 6 inserts the title as it is.
   */
  function Placeholder(e: Edition, title: string): (url: string)
    ensures |url| == |PlaceholderPrefix| + |title| && url[..|PlaceholderPrefix|] == PlaceholderPrefix
    ensures forall i :: 0 <= i < |title| ==>
      url[|PlaceholderPrefix| + i] == if e == Authentication && title[i] == ' ' then '+' else title[i]
  {
    PlaceholderPrefix + (if e == Authentication then SpacesToPlus(title) else title)
  }

  /** `poster_url or <placeholder>`: the given URL unless it is missing or empty. */
  function PosterOrPlaceholder(e: Edition, poster: Option<string>, title: string): (url: string)
    ensures url != ""
    ensures poster.Some? && poster.value != "" ==> url == poster.value
    ensures (poster.None? || poster.value == "") ==> url == Placeholder(e, title)
  {
    if poster.Some? && poster.value != "" then poster.value else Placeholder(e, title)
  }

  // ---------------------------------------------------------------------------
  // Password hashing
  // ---------------------------------------------------------------------------

  /** `set_password`: the hash of `password` under a fresh `salt`. */
  function HashPassword(kdf: Kdf, password: string, salt: nat): PasswordHash
  {
    PasswordHash(salt, kdf(password, salt))
  }

  /** `check_password`: derive again with the stored salt and compare digests. */
  predicate CheckPassword(kdf: Kdf, h: PasswordHash, password: string) {
    kdf(password, h.salt) == h.digest
  }

  /** A password always checks against its own hash. */
  lemma CheckOwnHash(kdf: Kdf, password: string, salt: nat)
    ensures CheckPassword(kdf, HashPassword(kdf, password, salt), password)
  {
  }

  /** When the key derivation has no collisions, only the hashed password checks. */
  lemma CheckOnlyOwnPassword(kdf: Kdf, password: string, other: string, salt: nat)
    requires forall a, b, s :: kdf(a, s) == kdf(b, s) ==> a == b
    ensures CheckPassword(kdf, HashPassword(kdf, password, salt), other) <==> other == password
  {
  }

  // ---------------------------------------------------------------------------
  // Ids
  // ---------------------------------------------------------------------------

  /** The largest of `ids`, 0 for none. */
  function MaxOf(ids: seq<nat>): (m: nat)
    ensures forall i :: 0 <= i < |ids| ==> ids[i] <= m
    ensures ids == [] ==> m == 0
  {
    if ids == [] then 0
    else
      var rest := MaxOf(ids[1..]);
      assert forall i :: 1 <= i < |ids| ==> ids[i] == ids[1..][i - 1];
      if ids[0] < rest then rest else ids[0]
  }

  function MovieIds(ms: seq<Movie>): (r: seq<nat>)
    ensures |r| == |ms| && forall i :: 0 <= i < |ms| ==> r[i] == ms[i].id
  {
    if ms == [] then [] else [ms[0].id] + MovieIds(ms[1..])
  }

  /** SQLite's rowid for the next movie: above every id in the table, 1 when it is empty. */
  function NextMovieId(ms: seq<Movie>): (id: nat)
    ensures forall i :: 0 <= i < |ms| ==> ms[i].id < id
    ensures ms == [] ==> id == 1
  {
    1 + MaxOf(MovieIds(ms))
  }

  function NextUserId(us: seq<User>): (id: nat)
    ensures forall i :: 0 <= i < |us| ==> us[i].id < id
    ensures us == [] ==> id == 1
  {
    var ids := seq(|us|, i requires 0 <= i < |us| => us[i].id);
    assert forall i :: 0 <= i < |us| ==> ids[i] == us[i].id;
    1 + MaxOf(ids)
  }

  predicate IdsUnique(ms: seq<Movie>) {
    forall i, j :: 0 <= i < j < |ms| ==> ms[i].id != ms[j].id
  }

  /** What the UNIQUE constraints of the user table guarantee. */
  predicate UsersDistinct(us: seq<User>) {
    forall i, j :: 0 <= i < j < |us| ==>
      us[i].id != us[j].id && us[i].username != us[j].username && us[i].email != us[j].email
      && us[i].passwordHash != us[j].passwordHash
  }

  // ---------------------------------------------------------------------------
  // Table updates
  // ---------------------------------------------------------------------------

  /**
   * The movie table after committing the staged `ds` in order: the old rows
   * stay as they were and each staged movie becomes a new row with the next
   * rowid.
   */
  function Inserted(ms: seq<Movie>, ds: seq<Details>): (r: seq<Movie>)
    ensures |r| == |ms| + |ds| && r[..|ms|] == ms
    ensures forall i :: |ms| <= i < |r| ==> r[i] == Movie(NextMovieId(ms) + (i - |ms|), ds[i - |ms|])
    decreases |ds|
  {
    if ds == [] then ms
    else
      var next := ms + [Movie(NextMovieId(ms), ds[0])];
      var r := Inserted(next, ds[1..]);
      assert NextMovieId(next) == NextMovieId(ms) + 1 by {
        assert MaxOf(MovieIds(next)) >= NextMovieId(ms) by { assert MovieIds(next)[|ms|] == NextMovieId(ms); }
        LargestIdIsNext(ms, ds[0], next);
      }
      assert r[..|ms|] == next[..|ms|];
      r
  }

  /** Appending the next-id row raises the next id by exactly one. */
  lemma LargestIdIsNext(ms: seq<Movie>, d: Details, next: seq<Movie>)
    requires next == ms + [Movie(NextMovieId(ms), d)]
    ensures MaxOf(MovieIds(next)) == NextMovieId(ms)
  {
    var ids := MovieIds(next);
    MaxIsAttained(ids);
    var k :| 0 <= k < |ids| && ids[k] == MaxOf(ids);
    assert ids[|ms|] == NextMovieId(ms);
  }

  lemma {:induction false} MaxIsAttained(ids: seq<nat>)
    requires ids != []
    ensures exists k :: 0 <= k < |ids| && ids[k] == MaxOf(ids)
  {
    if |ids| > 1 {
      MaxIsAttained(ids[1..]);
      var k :| 0 <= k < |ids[1..]| && ids[1..][k] == MaxOf(ids[1..]);
      assert ids[k + 1] == ids[1..][k];
    } else {
      assert ids[0] == MaxOf(ids);
    }
  }

  /** Committing staged movies keeps the primary key unique. */
  lemma InsertedKeepsIdsUnique(ms: seq<Movie>, ds: seq<Details>)
    requires IdsUnique(ms)
    ensures IdsUnique(Inserted(ms, ds))
  {
    var r := Inserted(ms, ds);
    forall i, j | 0 <= i < j < |r| ensures r[i].id != r[j].id {
      if j < |ms| {
        assert r[i] == ms[i] && r[j] == ms[j];
      } else if i < |ms| {
        assert r[i] == ms[i];
      }
    }
  }

  /** `Movie.query.get(id)`: the row with that id, if any. */
  function Find(ms: seq<Movie>, id: nat): (r: Option<Movie>)
    ensures r.None? <==> forall i :: 0 <= i < |ms| ==> ms[i].id != id
    ensures r.Some? ==> r.value in ms && r.value.id == id
  {
    if ms == [] then None
    else if ms[0].id == id then Some(ms[0])
    else
      var rest := Find(ms[1..], id);
      assert forall i :: 1 <= i < |ms| ==> ms[i] == ms[1..][i - 1];
      rest
  }

  /** The table after overwriting the columns of the row `id`; every other row is untouched. */
  function WithDetails(ms: seq<Movie>, id: nat, d: Details): (r: seq<Movie>)
    ensures |r| == |ms|
    ensures forall i :: 0 <= i < |ms| ==> r[i].id == ms[i].id
    ensures forall i :: 0 <= i < |ms| ==> r[i].details == if ms[i].id == id then d else ms[i].details
  {
    if ms == [] then []
    else [if ms[0].id == id then Movie(id, d) else ms[0]] + WithDetails(ms[1..], id, d)
  }

  /** The table after deleting the row `id`: every other row, in order. */
  function Without(ms: seq<Movie>, id: nat): (r: seq<Movie>)
    ensures |r| <= |ms|
    ensures forall m :: m in r <==> m in ms && m.id != id
  {
    if ms == [] then []
    else
      var rest := Without(ms[1..], id);
      assert forall m :: m in ms <==> m == ms[0] || m in ms[1..];
      if ms[0].id == id then rest else [ms[0]] + rest
  }

  /** With unique ids, deleting a row that exists removes exactly one row. */
  lemma {:induction false} WithoutRemovesOne(ms: seq<Movie>, id: nat)
    requires IdsUnique(ms) && Find(ms, id).Some?
    ensures |Without(ms, id)| == |ms| - 1
  {
    if ms[0].id == id {
      WithoutAbsent(ms[1..], id);
    } else {
      WithoutRemovesOne(ms[1..], id);
    }
  }

  lemma {:induction false} WithoutAbsent(ms: seq<Movie>, id: nat)
    requires forall i :: 0 <= i < |ms| ==> ms[i].id != id
    ensures Without(ms, id) == ms
  {
    if ms != [] {
      WithoutAbsent(ms[1..], id);
    }
  }

  lemma WithDetailsKeepsIdsUnique(ms: seq<Movie>, id: nat, d: Details)
    requires IdsUnique(ms)
    ensures IdsUnique(WithDetails(ms, id, d))
  {
  }

  lemma {:induction false} WithoutKeepsIdsUnique(ms: seq<Movie>, id: nat)
    requires IdsUnique(ms)
    ensures IdsUnique(Without(ms, id))
  {
    if ms != [] {
      WithoutKeepsIdsUnique(ms[1..], id);
      var rest := Without(ms[1..], id);
      if ms[0].id != id {
        forall j | 0 <= j < |rest| ensures rest[j].id != ms[0].id {
          assert rest[j] in ms[1..];
        }
        var r := [ms[0]] + rest;
        forall i, j | 0 <= i < j < |r| ensures r[i].id != r[j].id {
          if i > 0 { assert r[i] == rest[i - 1] && r[j] == rest[j - 1]; }
        }
      }
    }
  }

  // ---------------------------------------------------------------------------
  // The database behind one session
  // ---------------------------------------------------------------------------

  class Database {
    /** Committed movie rows, in insertion order. */
    var movies: seq<Movie>
    /** Committed user rows, in insertion order. */
    var users: seq<User>
    /** Movies added to the session and not yet committed. */
    var pending: seq<Details>

    ghost predicate Valid()
      reads this
    {
      IdsUnique(movies) && UsersDistinct(users)
    }

    /** A freshly created, empty database. */
    constructor ()
      ensures Valid() && movies == [] && users == [] && pending == []
    {
      movies, users, pending := [], [], [];
    }

    /** `db.session.add(movie)`: stage a new movie; nothing is written yet. */
    method Stage(d: Details)
      modifies this
      ensures pending == old(pending) + [d]
      ensures movies == old(movies) && users == old(users)
    {
      pending := pending + [d];
    }

    /** `db.session.bulk_save_objects(ds)`: stage all of `ds` at once, in order. */
    method StageAll(ds: seq<Details>)
      modifies this
      ensures pending == old(pending) + ds
      ensures movies == old(movies) && users == old(users)
    {
      pending := pending + ds;
    }

    /** `db.session.commit()`: every staged movie becomes a row, in staging order. */
    method Commit()
      requires Valid()
      modifies this
      ensures Valid()
      ensures movies == Inserted(old(movies), old(pending))
      ensures users == old(users) && pending == []
    {
      InsertedKeepsIdsUnique(movies, pending);
      movies := Inserted(movies, pending);
      pending := [];
    }

    /** `db.session.rollback()`: forget every staged movie. */
    method Rollback()
      modifies this
      ensures pending == [] && movies == old(movies) && users == old(users)
    {
      pending := [];
    }

    /** Add and commit one user row; the caller has checked the UNIQUE columns. */
    method InsertUser(username: string, email: string, hash: PasswordHash, isAdmin: bool) returns (u: User)
      requires Valid()
      requires forall i :: 0 <= i < |users| ==>
        users[i].username != username && users[i].email != email && users[i].passwordHash != hash
      modifies this
      ensures Valid()
      ensures u == User(NextUserId(old(users)), username, email, hash, isAdmin)
      ensures users == old(users) + [u] && movies == old(movies) && pending == old(pending)
    {
      u := User(NextUserId(users), username, email, hash, isAdmin);
      users := users + [u];
    }

    /** Overwrite the columns of movie `id` and commit. */
    method Update(id: nat, d: Details)
      requires Valid()
      modifies this
      ensures Valid()
      ensures movies == WithDetails(old(movies), id, d)
      ensures users == old(users) && pending == old(pending)
    {
      WithDetailsKeepsIdsUnique(movies, id, d);
      movies := WithDetails(movies, id, d);
    }

    /** `db.session.delete(movie)` followed by a commit. */
    method Delete(id: nat)
      requires Valid()
      modifies this
      ensures Valid()
      ensures movies == Without(old(movies), id)
      ensures users == old(users) && pending == old(pending)
    {
      WithoutKeepsIdsUnique(movies, id);
      movies := Without(movies, id);
    }
  }
}
