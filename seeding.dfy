/**
 * Seeding the movie table at start-up: `init_db` (Unit 4) and
 * `load_initial_movies` (Lesson 6) add their sample movies only when the
 * table is empty, which makes starting the app again harmless.
 */
module Seeding {
  import opened Wrappers
  import opened Utilities
  import opened Models

  const PosterBase: string := "https://placehold.co/300x450/"

  function Sample(title: string, year: int, genre: string, director: string, rating: real,
                  description: string, poster: string): Details
  {
    Details(title, Some(year), Some(genre), Some(director), Some(rating), Some(description), Some(PosterBase + poster))
  }

  /** The six samples of `init_db`, in the order they are saved. */
  function SampleMovies(): seq<Details>
  {
    [ Sample("Inception", 2010, "Sci-Fi", "Christopher Nolan", 8.8,
             "A thief who steals "
             + "corporate secrets "
             + "through dream-sharing "
             + "technology...",
             "667eea/ffffff?text=Inception"),
      Sample("The Matrix", 1999, "Sci-Fi", "Wachowski Sisters", 8.7,
             "A computer hacker learns "
             + "the truth about his "
             + "reality...",
             "764ba2/ffffff?text=The+Matrix"),
      Sample("The Shawshank Redemption", 1994, "Drama", "Frank Darabont", 9.3,
             "Two imprisoned men find "
             + "friendship and eventual "
             + "redemption...",
             "4CAF50/ffffff?text=Shawshank"),
      Sample("The Dark Knight", 2008, "Action", "Christopher Nolan", 9.0,
             "Batman faces the Joker "
             + "in Gotham City...",
             "4facfe/ffffff?text=Dark+Knight"),
      Sample("Pulp Fiction", 1994, "Crime", "Quentin Tarantino", 8.9,
             "Various interconnected "
             + "stories of criminals in "
             + "Los Angeles...",
             "FF6B6B/ffffff?text=Pulp+Fiction"),
      Sample("Interstellar", 2014, "Sci-Fi", "Christopher Nolan", 8.6,
             "A team of explorers "
             + "travel through a "
             + "wormhole...",
             "f093fb/ffffff?text=Interstellar") ]
  }

  // The full plot summaries of the second list.
  function InceptionPlot(): string {
    "A thief who steals "
    + "corporate secrets "
    + "through dream-sharing "
    + "technology is given the "
    + "inverse task of planting "
    + "an idea."
  }

  function MatrixPlot(): string {
    "A computer hacker learns "
    + "from mysterious rebels "
    + "about the true nature of "
    + "his reality and his role "
    + "in the war against its "
    + "controllers."
  }

  function InterstellarPlot(): string {
    "A team of explorers "
    + "travel through a "
    + "wormhole in space in an "
    + "attempt to ensure "
    + "humanity's survival."
  }

  function ShawshankPlot(): string {
    "Two imprisoned men bond "
    + "over a number of years, "
    + "finding solace and "
    + "eventual redemption "
    + "through acts of common "
    + "decency."
  }

  function DarkKnightPlot(): string {
    "When the menace known as "
    + "the Joker wreaks havoc "
    + "and chaos on the people "
    + "of Gotham, Batman must "
    + "accept one of the "
    + "greatest tests."
  }

  /** The five samples of `load_initial_movies`, in the order they are added. */
  function InitialMovies(): seq<Details>
  {
    [ Sample("Inception", 2010, "Sci-Fi", "Christopher Nolan", 8.8,
             InceptionPlot(),
             "667eea/ffffff?text=Inception"),
      Sample("The Matrix", 1999, "Sci-Fi", "Wachowski Sisters", 8.7,
             MatrixPlot(),
             "764ba2/ffffff?text=The+Matrix"),
      Sample("Interstellar", 2014, "Sci-Fi", "Christopher Nolan", 8.6,
             InterstellarPlot(),
             "f093fb/ffffff?text=Interstellar"),
      Sample("The Shawshank Redemption", 1994, "Drama", "Frank Darabont", 9.3,
             ShawshankPlot(),
             "4CAF50/ffffff?text=Shawshank"),
      Sample("The Dark Knight", 2008, "Action", "Christopher Nolan", 9.0,
             DarkKnightPlot(),
             "4facfe/ffffff?text=Dark+Knight") ]
  }

  /** `init_db` seeds six movies and `load_initial_movies` five. */
  lemma SampleCounts()
    ensures |Seeded([], SampleMovies())| == 6 && |Seeded([], InitialMovies())| == 5
  {
  }

  /** A movie the parsers and the forms could have produced: a title, and a year and rating in range. */
  predicate WellFormed(d: Details) {
    d.title != "" && (d.year.Some? ==> YearInRange(d.year.value))
    && (d.rating.Some? ==> RatingInRange(d.rating.value))
    && d.posterUrl.Some? && d.posterUrl.value != ""
  }

  /** Every sample of both lists has a title, a year in [1888, 2030] and a rating in [0, 10]. */
  lemma SampleMoviesWellFormed()
    ensures forall d :: d in SampleMovies() ==> WellFormed(d)
  {
  }

  lemma InitialMoviesWellFormed()
    ensures forall d :: d in InitialMovies() ==> WellFormed(d)
  {
  }

  /**
   * The table after seeding with `samples`: an empty table receives the
   * samples in order under ids 1, 2, ...; a table with any row is left as it is.
   */
  function Seeded(ms: seq<Movie>, samples: seq<Details>): (r: seq<Movie>)
    ensures ms != [] ==> r == ms
    ensures ms == [] ==> |r| == |samples| && forall i :: 0 <= i < |r| ==> r[i] == Movie(i + 1, samples[i])
  {
    if ms == [] then Inserted([], samples) else ms
  }

  /** Seeding a second time changes nothing. */
  lemma SeedingIdempotent(ms: seq<Movie>, samples: seq<Details>)
    ensures Seeded(Seeded(ms, samples), samples) == Seeded(ms, samples)
  {
    if ms == [] && samples == [] {
      assert Seeded(ms, samples) == [];
    }
  }

  /** Seeding an empty table yields unique ids. */
  lemma SeededIdsUnique(ms: seq<Movie>, samples: seq<Details>)
    requires IdsUnique(ms)
    ensures IdsUnique(Seeded(ms, samples))
  {
    if ms == [] {
      InsertedKeepsIdsUnique([], samples);
    }
  }

  /** `init_db`: when the table has no rows, save the six samples in one batch and commit. */
  method InitDb(db: Database)
    requires db.Valid() && db.pending == []
    modifies db
    ensures db.Valid() && db.pending == [] && db.users == old(db.users)
    ensures db.movies == Seeded(old(db.movies), SampleMovies())
  {
    if |db.movies| == 0 {
      db.StageAll(SampleMovies());
      db.Commit();
    }
  }

  /** `load_initial_movies`: when the table has no rows, add the five samples one by one and commit. */
  method LoadInitialMovies(db: Database)
    requires db.Valid() && db.pending == []
    modifies db
    ensures db.Valid() && db.pending == [] && db.users == old(db.users)
    ensures db.movies == Seeded(old(db.movies), InitialMovies())
  {
    if |db.movies| == 0 {
      var movies := InitialMovies();
      for i := 0 to |movies|
        invariant db.pending == movies[..i]
        invariant db.movies == old(db.movies) && db.users == old(db.users)
      {
        db.Stage(movies[i]);
        assert movies[..i + 1] == movies[..i] + [movies[i]];
      }
      assert movies[..|movies|] == movies;
      db.Commit();
    }
  }

  /** Starting the app twice seeds the table once. */
  method InitDbTwice(db: Database)
    requires db.Valid() && db.pending == []
    modifies db
    ensures db.Valid() && db.pending == []
    ensures db.movies == Seeded(old(db.movies), SampleMovies())
  {
    InitDb(db);
    InitDb(db);
    SeedingIdempotent(old(db.movies), SampleMovies());
  }
}
