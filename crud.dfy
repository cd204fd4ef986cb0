/**
 * The movie form routes: `add_movie`, `edit_movie` and `delete_movie` as
 * each edition writes them, and the login lesson's copies behind
 * `admin_required`.
 */
module Crud {
  import opened Wrappers
  import opened Text
  import opened Utilities
  import opened Models
  import opened Accounts
  import opened Importer

  /**
   * The movie form as posted. `year` and `rating` are what
   * `request.form.get(..., type=int/float)` yields: `None` when the field is
   * missing or does not convert.
   */
  datatype MovieForm = MovieForm(
    title: Option<string>,
    year: Option<int>,
    genre: Option<string>,
    director: Option<string>,
    rating: Option<real>,
    description: Option<string>,
    posterUrl: Option<string>)

  datatype CrudOutcome =
    | Added(id: nat)        // redirect to the list with a success message
    | Updated(id: nat)
    | Deleted(title: string)
    | TitleRequired         // Unit 4: "Title is required!", back to the form
    | NotFound              // `get_or_404`
    | ServerError           // the NOT NULL title fails, nothing is committed

  /** The columns the form sets, with the poster falling back to the placeholder for `title`. */
  function FormDetails(e: Edition, f: MovieForm, title: string): (d: Details)
    ensures d.title == title && d.year == f.year && d.rating == f.rating
    ensures d.genre == f.genre && d.director == f.director && d.description == f.description
    ensures d.posterUrl == Some(PosterOrPlaceholder(e, f.posterUrl, title))
  {
    Details(title, f.year, f.genre, f.director, f.rating, f.description, Some(PosterOrPlaceholder(e, f.posterUrl, title)))
  }

  // ---------------------------------------------------------------------------
  // add_movie
  // ---------------------------------------------------------------------------

  /**
   * Whether `add_movie` stores the form's movie. Unit 4 refuses a missing or
   * empty title; Lesson 6 has its title check commented out, so only a missing
   * title fails, at the NOT NULL constraint, and an empty one is stored.
   * Lesson 6's own `models.py` is not part of this model: its title is taken
   * to be NOT NULL as in the login lesson's `Movie`, which is marked unchanged
   * from Unit 3.
   */
  function AddCheck(e: Edition, f: MovieForm): (r: Option<CrudOutcome>)
    ensures r.None? <==> f.title.Some? && (e == Authentication ==> f.title.value != "")
    ensures e == Authentication && r.Some? ==> r.value == TitleRequired
    ensures e == SearchFilter && r.Some? ==> r.value == ServerError
  {
    match e
    case Authentication => if !Truthy(f.title) then Some(TitleRequired) else None
    case SearchFilter => if f.title.None? then Some(ServerError) else None
  }

  /** `add_movie` on a POST: add one row with the next id, or change nothing. */
  method AddMovie(db: Database, e: Edition, f: MovieForm) returns (outcome: CrudOutcome)
    requires db.Valid() && db.pending == []
    modifies db
    ensures db.Valid() && db.pending == [] && db.users == old(db.users)
    ensures AddCheck(e, f).Some? ==> outcome == AddCheck(e, f).value && db.movies == old(db.movies)
    ensures AddCheck(e, f).None? ==> outcome == Added(NextMovieId(old(db.movies)))
    ensures AddCheck(e, f).None? ==>
      db.movies == old(db.movies) + [Movie(NextMovieId(old(db.movies)), FormDetails(e, f, f.title.value))]
  {
    var problem := AddCheck(e, f);
    if problem.Some? {
      return problem.value;
    }
    var d := FormDetails(e, f, f.title.value);
    var id := NextMovieId(db.movies);
    db.Stage(d);
    db.Commit();
    assert db.movies == Inserted(old(db.movies), [d]);
    outcome := Added(id);
  }

  /** The added movie is the one row `Movie.query.get` finds under the new id. */
  lemma AddedIsFound(ms: seq<Movie>, d: Details)
    ensures Find(ms + [Movie(NextMovieId(ms), d)], NextMovieId(ms)) == Some(Movie(NextMovieId(ms), d))
  {
    FindAppended(ms, Movie(NextMovieId(ms), d));
  }

  lemma {:induction false} FindAppended(ms: seq<Movie>, m: Movie)
    requires forall i :: 0 <= i < |ms| ==> ms[i].id != m.id
    ensures Find(ms + [m], m.id) == Some(m)
  {
    if ms != [] {
      assert (ms + [m])[1..] == ms[1..] + [m];
      FindAppended(ms[1..], m);
    }
  }

  /** Deleting the movie just added gives back the table as it was. */
  lemma {:induction false} DeleteUndoesAdd(ms: seq<Movie>, d: Details)
    ensures Without(ms + [Movie(NextMovieId(ms), d)], NextMovieId(ms)) == ms
  {
    WithoutAppended(ms, Movie(NextMovieId(ms), d));
  }

  lemma {:induction false} WithoutAppended(ms: seq<Movie>, m: Movie)
    requires forall i :: 0 <= i < |ms| ==> ms[i].id != m.id
    ensures Without(ms + [m], m.id) == ms
  {
    if ms == [] {
      assert Without([m], m.id) == Without([], m.id);
    } else {
      assert (ms + [m])[1..] == ms[1..] + [m];
      WithoutAppended(ms[1..], m);
      assert [ms[0]] + ms[1..] == ms;
    }
  }

  // ---------------------------------------------------------------------------
  // edit_movie
  // ---------------------------------------------------------------------------

  /**
   * `edit_movie` on a POST: an unknown id is a 404; otherwise every column is
   * overwritten from the form, the poster falling back to the placeholder for
   * the new title. No edition checks the title, so a missing one fails at the
   * NOT NULL constraint (or, in Unit 4, already when the placeholder is built)
   * and nothing is committed.
   */
  method EditMovie(db: Database, e: Edition, id: nat, f: MovieForm) returns (outcome: CrudOutcome)
    requires db.Valid() && db.pending == []
    modifies db
    ensures db.Valid() && db.pending == [] && db.users == old(db.users)
    ensures Find(old(db.movies), id).None? ==> outcome == NotFound && db.movies == old(db.movies)
    ensures Find(old(db.movies), id).Some? && f.title.None? ==> outcome == ServerError && db.movies == old(db.movies)
    ensures Find(old(db.movies), id).Some? && f.title.Some? ==>
      outcome == Updated(id) && db.movies == WithDetails(old(db.movies), id, FormDetails(e, f, f.title.value))
  {
    if Find(db.movies, id).None? {
      return NotFound;
    }
    if f.title.None? {
      return ServerError;
    }
    db.Update(id, FormDetails(e, f, f.title.value));
    outcome := Updated(id);
  }

  /** After an edit, the movie under that id carries exactly the new columns. */
  lemma {:induction false} EditedIsFound(ms: seq<Movie>, id: nat, d: Details)
    requires Find(ms, id).Some?
    ensures Find(WithDetails(ms, id, d), id) == Some(Movie(id, d))
  {
    if ms[0].id != id {
      EditedIsFound(ms[1..], id, d);
    }
  }

  /** Submitting the same edit twice leaves the table as one submission does. */
  lemma {:induction false} EditIdempotent(ms: seq<Movie>, id: nat, d: Details)
    ensures WithDetails(WithDetails(ms, id, d), id, d) == WithDetails(ms, id, d)
  {
    var once := WithDetails(ms, id, d);
    var twice := WithDetails(once, id, d);
    assert |twice| == |once|;
    forall i | 0 <= i < |once| ensures twice[i] == once[i] {
      assert twice[i].id == once[i].id && twice[i].details == once[i].details;
    }
  }

  // ---------------------------------------------------------------------------
  // delete_movie
  // ---------------------------------------------------------------------------

  /** `delete_movie`: a 404 for an unknown id, otherwise the row goes and its title is reported. */
  method DeleteMovie(db: Database, id: nat) returns (outcome: CrudOutcome)
    requires db.Valid() && db.pending == []
    modifies db
    ensures db.Valid() && db.pending == [] && db.users == old(db.users)
    ensures Find(old(db.movies), id).None? ==> outcome == NotFound && db.movies == old(db.movies)
    ensures Find(old(db.movies), id).Some? ==>
      outcome == Deleted(Find(old(db.movies), id).value.details.title)
      && db.movies == Without(old(db.movies), id)
      && |db.movies| == |old(db.movies)| - 1
  {
    var found := Find(db.movies, id);
    if found.None? {
      return NotFound;
    }
    WithoutRemovesOne(db.movies, id);
    db.Delete(id);
    outcome := Deleted(found.value.details.title);
  }

  /** A deleted id is gone: `get_or_404` then answers 404. */
  lemma DeletedIsGone(ms: seq<Movie>, id: nat)
    ensures Find(Without(ms, id), id).None?
  {
    var r := Without(ms, id);
    forall i | 0 <= i < |r| ensures r[i].id != id {
      assert r[i] in r;
    }
  }

  // ---------------------------------------------------------------------------
  // The login lesson's copies, behind admin_required
  // ---------------------------------------------------------------------------

  /** A gated view either is refused by the gate or runs. */
  datatype Gated<T> = Denied(decision: GateDecision) | Ran(result: T)

  /** `add_movie` behind `admin_required`: only an admin reaches the store. */
  method AdminAddMovie(db: Database, v: Visitor, f: MovieForm) returns (r: Gated<CrudOutcome>)
    requires db.Valid() && db.pending == []
    modifies db
    ensures db.Valid() && db.pending == [] && db.users == old(db.users)
    ensures AdminRequired(v) != Proceed ==> r == Denied(AdminRequired(v)) && db.movies == old(db.movies)
    ensures AdminRequired(v) == Proceed && AddCheck(Authentication, f).Some? ==>
      r == Ran(TitleRequired) && db.movies == old(db.movies)
    ensures AdminRequired(v) == Proceed && AddCheck(Authentication, f).None? ==>
      r == Ran(Added(NextMovieId(old(db.movies))))
      && db.movies == old(db.movies) + [Movie(NextMovieId(old(db.movies)), FormDetails(Authentication, f, f.title.value))]
  {
    var g := AdminRequired(v);
    if g != Proceed {
      return Denied(g);
    }
    var outcome := AddMovie(db, Authentication, f);
    r := Ran(outcome);
  }

  /** `edit_movie` behind `admin_required`. */
  method AdminEditMovie(db: Database, v: Visitor, id: nat, f: MovieForm) returns (r: Gated<CrudOutcome>)
    requires db.Valid() && db.pending == []
    modifies db
    ensures db.Valid() && db.pending == [] && db.users == old(db.users)
    ensures AdminRequired(v) != Proceed ==> r == Denied(AdminRequired(v)) && db.movies == old(db.movies)
    ensures AdminRequired(v) == Proceed && Find(old(db.movies), id).None? ==>
      r == Ran(NotFound) && db.movies == old(db.movies)
    ensures AdminRequired(v) == Proceed && Find(old(db.movies), id).Some? && f.title.None? ==>
      r == Ran(ServerError) && db.movies == old(db.movies)
    ensures AdminRequired(v) == Proceed && Find(old(db.movies), id).Some? && f.title.Some? ==>
      r == Ran(Updated(id)) && db.movies == WithDetails(old(db.movies), id, FormDetails(Authentication, f, f.title.value))
  {
    var g := AdminRequired(v);
    if g != Proceed {
      return Denied(g);
    }
    var outcome := EditMovie(db, Authentication, id, f);
    r := Ran(outcome);
  }

  /** `delete_movie` behind `admin_required`. */
  method AdminDeleteMovie(db: Database, v: Visitor, id: nat) returns (r: Gated<CrudOutcome>)
    requires db.Valid() && db.pending == []
    modifies db
    ensures db.Valid() && db.pending == [] && db.users == old(db.users)
    ensures AdminRequired(v) != Proceed ==> r == Denied(AdminRequired(v)) && db.movies == old(db.movies)
    ensures AdminRequired(v) == Proceed && Find(old(db.movies), id).None? ==>
      r == Ran(NotFound) && db.movies == old(db.movies)
    ensures AdminRequired(v) == Proceed && Find(old(db.movies), id).Some? ==>
      r == Ran(Deleted(Find(old(db.movies), id).value.details.title)) && db.movies == Without(old(db.movies), id)
  {
    var g := AdminRequired(v);
    if g != Proceed {
      return Denied(g);
    }
    var outcome := DeleteMovie(db, id);
    r := Ran(outcome);
  }

  /** `import_csv` behind `admin_required`. */
  method AdminImportCsv(db: Database, v: Visitor, upload: Upload, commitFails: bool) returns (r: Gated<ImportOutcome>)
    requires db.Valid() && db.pending == []
    modifies db
    ensures db.Valid() && db.pending == [] && db.users == old(db.users)
    ensures AdminRequired(v) != Proceed ==> r == Denied(AdminRequired(v)) && db.movies == old(db.movies)
    ensures AdminRequired(v) == Proceed ==> r == Ran(ImportResult(Authentication, upload, commitFails))
    ensures r.Ran? && r.result.Imported? ==> db.movies == Inserted(old(db.movies), Staged(Authentication, upload.rows))
    ensures r.Ran? && !r.result.Imported? ==> db.movies == old(db.movies)
  {
    var g := AdminRequired(v);
    if g != Proceed {
      return Denied(g);
    }
    var outcome := ImportCsv(db, Authentication, upload, commitFails);
    r := Ran(outcome);
  }
}
