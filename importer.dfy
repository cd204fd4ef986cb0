/**
 * Bulk import of movies from an uploaded CSV file (`import_csv`): the upload
 * checks, the mapping of one row to a movie through column aliases and the
 * field parsers, and the loop that stages one movie per titled row and then
 * commits them all together or rolls all of them back.
 */
module Importer {
  import opened Wrappers
  import opened Text
  import opened Utilities
  import opened Models

  // ---------------------------------------------------------------------------
  // Column aliases
  // ---------------------------------------------------------------------------

  const TitleKeys: seq<string> := ["Series_Title", "Title", "movie_title", "name", "title"]
  const GenreKeys: seq<string> := ["Genre", "genre", "genres"]
  const DirectorKeys: seq<string> := ["Director", "director", "directed_by"]
  const PosterKeys: seq<string> := ["Poster_Link", "poster_url", "Poster"]

  function YearKeys(e: Edition): seq<string> {
    match e
    case Authentication => ["Released_Year", "year", "Year"]
    case SearchFilter => ["Released_Year", "year", "Year", "released_year"]
  }

  function RatingKeys(e: Edition): seq<string> {
    match e
    case Authentication => ["IMDB_Rating", "rating", "imdb_rating", "Rating"]
    case SearchFilter => ["IMDB_Rating", "rating", "Rating", "imdb_rating"]
  }

  function DescriptionKeys(e: Edition): seq<string> {
    match e
    case Authentication => ["Overview", "description", "plot", "Plot", "Summary"]
    case SearchFilter => ["Overview", "description", "plot", "Description", "summary"]
  }

  // ---------------------------------------------------------------------------
  // One row
  // ---------------------------------------------------------------------------

  /**
   * The movie one data row describes, or `None` when the row has no truthy
   * title and is skipped. Every other column is optional; year and rating go
   * through the range-checked parsers and the poster falls back to the
   * placeholder.
   */
  function RowDetails(e: Edition, row: Row): (r: Option<Details>)
    ensures r.None? <==> !Truthy(GetCsvValue(row, TitleKeys))
    ensures r.Some? ==> r.value.title != "" && Some(r.value.title) == GetCsvValue(row, TitleKeys)
    ensures r.Some? && r.value.year.Some? ==> YearInRange(r.value.year.value)
    ensures r.Some? && r.value.rating.Some? ==> RatingInRange(r.value.rating.value)
    ensures r.Some? ==> r.value.posterUrl.Some? && r.value.posterUrl.value != ""
  {
    var title := GetCsvValue(row, TitleKeys);
    if !Truthy(title) then None
    else
      Some(Details(
        title.value,
        ParseYear(GetCsvValue(row, YearKeys(e))),
        GetCsvValue(row, GenreKeys),
        GetCsvValue(row, DirectorKeys),
        ParseRating(GetCsvValue(row, RatingKeys(e))),
        GetCsvValue(row, DescriptionKeys(e)),
        Some(PosterOrPlaceholder(e, GetCsvValue(row, PosterKeys), title.value))))
  }

  /**
   * Where each column of an imported movie comes from: its alias lookup,
   * year and rating through their parsers, and the poster through the
   * edition's placeholder for the title when the lookup is falsy.
   */
  lemma RowDetailsColumns(e: Edition, row: Row)
    requires RowDetails(e, row).Some?
    ensures var d := RowDetails(e, row).value;
      && d.year == ParseYear(GetCsvValue(row, YearKeys(e)))
      && d.rating == ParseRating(GetCsvValue(row, RatingKeys(e)))
      && d.genre == GetCsvValue(row, GenreKeys)
      && d.director == GetCsvValue(row, DirectorKeys)
      && d.description == GetCsvValue(row, DescriptionKeys(e))
      && d.posterUrl == Some(PosterOrPlaceholder(e, GetCsvValue(row, PosterKeys), d.title))
  {
  }

  /** The movies the loop stages for `rows`, in row order. */
  function Staged(e: Edition, rows: seq<Row>): seq<Details> {
    if rows == [] then []
    else
      var last := RowDetails(e, rows[|rows| - 1]);
      Staged(e, rows[..|rows| - 1]) + (if last.Some? then [last.value] else [])
  }

  /** How many of `rows` the loop skips for want of a title. */
  function Skipped(e: Edition, rows: seq<Row>): nat {
    if rows == [] then 0
    else Skipped(e, rows[..|rows| - 1]) + (if RowDetails(e, rows[|rows| - 1]).Some? then 0 else 1)
  }

  /** Every data row is counted exactly once, as imported or as skipped. */
  lemma {:induction false} EveryRowCounted(e: Edition, rows: seq<Row>)
    ensures |Staged(e, rows)| + Skipped(e, rows) == |rows|
  {
    if rows != [] {
      EveryRowCounted(e, rows[..|rows| - 1]);
    }
  }

  /** No movie without a title is ever staged, and the parsed columns are in range. */
  lemma {:induction false} StagedAreWellFormed(e: Edition, rows: seq<Row>)
    ensures forall d :: d in Staged(e, rows) ==>
      d.title != "" && (d.year.Some? ==> YearInRange(d.year.value))
      && (d.rating.Some? ==> RatingInRange(d.rating.value))
  {
    if rows != [] {
      StagedAreWellFormed(e, rows[..|rows| - 1]);
    }
  }

  /** One more row stages its movie after the earlier ones, or counts as one more skip. */
  lemma StagedStep(e: Edition, rows: seq<Row>, i: nat)
    requires i < |rows|
    ensures RowDetails(e, rows[i]).Some? ==> Staged(e, rows[..i + 1]) == Staged(e, rows[..i]) + [RowDetails(e, rows[i]).value]
    ensures RowDetails(e, rows[i]).None? ==> Staged(e, rows[..i + 1]) == Staged(e, rows[..i])
    ensures Skipped(e, rows[..i + 1]) == Skipped(e, rows[..i]) + (if RowDetails(e, rows[i]).Some? then 0 else 1)
  {
    assert rows[..i + 1][..i] == rows[..i];
  }

  // ---------------------------------------------------------------------------
  // The upload
  // ---------------------------------------------------------------------------

  /**
   * A POSTed form as the view sees it: the filename of the `csv_file` part
   * (absent when there is none), the data rows the CSV reader yields, and
   * whether the reader then raises on a malformed line.
   */
  datatype Upload = Upload(filename: Option<string>, rows: seq<Row>, readerFails: bool)

  datatype UploadError =
    | InvalidCsv       // Unit 4: "Please upload a valid .csv file"
    | NoFileSelected   // Lesson 6: "No file selected. Please choose a CSV file"
    | NotCsv           // Lesson 6: "Invalid file type. Please upload a CSV file"

  /**
   * The checks made before the file is read. A file part whose filename is
   * empty is falsy, like a missing one. Unit 4 has one message for both
   * causes; Lesson 6 tells them apart.
   */
  function CheckUpload(e: Edition, filename: Option<string>): (r: Option<UploadError>)
    ensures r.None? <==> Truthy(filename) && EndsWith(Lower(filename.value), ".csv")
    ensures e == Authentication && r.Some? ==> r.value == InvalidCsv
    ensures e == SearchFilter && r.Some? ==> (r.value == NoFileSelected <==> !Truthy(filename))
    ensures e == SearchFilter && r.Some? ==> r.value != InvalidCsv
  {
    match e
    case Authentication =>
      if !Truthy(filename) || !EndsWith(Lower(filename.value), ".csv") then Some(InvalidCsv) else None
    case SearchFilter =>
      if !Truthy(filename) then Some(NoFileSelected)
      else if !EndsWith(Lower(filename.value), ".csv") then Some(NotCsv)
      else None
  }

  /** The two editions accept exactly the same uploads; only their messages differ. */
  lemma SameUploadsAccepted(filename: Option<string>)
    ensures CheckUpload(Authentication, filename).None? <==> CheckUpload(SearchFilter, filename).None?
  {
  }

  /** The case of the extension does not matter. */
  lemma UppercaseExtensionAccepted(e: Edition)
    ensures CheckUpload(e, Some("TOP.CSV")) == None
  {
    assert Lower("TOP.CSV") == "top.csv";
  }

  // ---------------------------------------------------------------------------
  // The import
  // ---------------------------------------------------------------------------

  datatype ImportOutcome =
    | Rejected(problem: UploadError)
    | Imported(imported: nat, skipped: nat)
    | ImportFailed

  /**
   * The outcome of an import: rejected before reading, failed (the reader or
   * the commit raised, everything rolled back), or committed with its counts.
   */
  function ImportResult(e: Edition, upload: Upload, commitFails: bool): (r: ImportOutcome)
    ensures r.Rejected? <==> CheckUpload(e, upload.filename).Some?
    ensures r.Rejected? ==> r.problem == CheckUpload(e, upload.filename).value
    ensures r.ImportFailed? <==> CheckUpload(e, upload.filename).None? && (upload.readerFails || commitFails)
    ensures r.Imported? ==> r.imported + r.skipped == |upload.rows|
    ensures r.Imported? ==> r.imported == |Staged(e, upload.rows)| && r.skipped == Skipped(e, upload.rows)
  {
    var check := CheckUpload(e, upload.filename);
    if check.Some? then Rejected(check.value)
    else if upload.readerFails || commitFails then ImportFailed
    else
      EveryRowCounted(e, upload.rows);
      Imported(|Staged(e, upload.rows)|, Skipped(e, upload.rows))
  }

  /** The row loop: stage one movie per titled row and count the rows without a title. */
  method StageRows(db: Database, e: Edition, rows: seq<Row>) returns (imported: nat, skipped: nat)
    requires db.pending == []
    modifies db
    ensures db.pending == Staged(e, rows)
    ensures imported == |Staged(e, rows)| && skipped == Skipped(e, rows)
    ensures db.movies == old(db.movies) && db.users == old(db.users)
  {
    imported, skipped := 0, 0;
    var i := 0;
    while i < |rows|
      invariant 0 <= i <= |rows|
      invariant db.pending == Staged(e, rows[..i]) && imported == |db.pending|
      invariant skipped == Skipped(e, rows[..i])
      invariant db.movies == old(db.movies) && db.users == old(db.users)
    {
      var d := RowDetails(e, rows[i]);
      StagedStep(e, rows, i);
      if d.None? {
        skipped := skipped + 1;
      } else {
        db.Stage(d.value);
        imported := imported + 1;
      }
      i := i + 1;
    }
    assert rows[..i] == rows;
  }

  /**
   * `import_csv` on a POST: check the upload, stage the rows, then commit
   * once; a reader or commit failure rolls the whole import back. Either
   * every staged movie lands or none does.
   */
  method ImportCsv(db: Database, e: Edition, upload: Upload, commitFails: bool) returns (outcome: ImportOutcome)
    requires db.Valid() && db.pending == []
    modifies db
    ensures db.Valid() && db.pending == [] && db.users == old(db.users)
    ensures outcome == ImportResult(e, upload, commitFails)
    ensures outcome.Imported? ==> db.movies == Inserted(old(db.movies), Staged(e, upload.rows))
    ensures !outcome.Imported? ==> db.movies == old(db.movies)
  {
    var check := CheckUpload(e, upload.filename);
    if check.Some? {
      return Rejected(check.value);
    }
    var imported, skipped := StageRows(db, e, upload.rows);
    if upload.readerFails || commitFails {
      db.Rollback();
      return ImportFailed;
    }
    db.Commit();
    outcome := Imported(imported, skipped);
  }

  /** A flash message after a committed import. */
  datatype Notice = ImportedNotice(count: nat) | SkippedNotice(count: nat)

  /**
   * The messages after a committed import: Unit 4 always reports the imported
   * count, Lesson 6 only when it is positive; both report skipped rows only
   * when there are some.
   */
  function SuccessNotices(e: Edition, imported: nat, skipped: nat): (r: seq<Notice>)
    ensures ImportedNotice(imported) in r <==> e == Authentication || imported > 0
    ensures SkippedNotice(skipped) in r <==> skipped > 0
    ensures forall n :: n in r ==> n == ImportedNotice(imported) || n == SkippedNotice(skipped)
    ensures |r| <= 2 && forall i, j :: 0 <= i < j < |r| ==> r[i].ImportedNotice? && r[j].SkippedNotice?
  {
    (if e == Authentication || imported > 0 then [ImportedNotice(imported)] else [])
    + (if skipped > 0 then [SkippedNotice(skipped)] else [])
  }
}
