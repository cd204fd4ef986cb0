/**
 * Field parsers for untrusted CSV cells (Unit4-Authentication/utilities.py):
 * they turn text into a value inside the catalog's ranges or into `None`, and
 * never fail.
 */
module Utilities {
  import opened Wrappers
  import opened Text

  const MinYear: int := 1888
  const MaxYear: int := 2030
  const MinRating: real := 0.0
  const MaxRating: real := 10.0

  predicate YearInRange(y: int) {
    MinYear <= y <= MaxYear
  }

  predicate RatingInRange(r: real) {
    MinRating <= r <= MaxRating
  }

  /** Python truthiness of an optional text: present and not empty. */
  predicate Truthy(v: Option<string>) {
    v.Some? && v.value != ""
  }

  /** One CSV data row: column name to cell text. */
  type Row = map<string, string>

  /**
   * `parse_year`: the integer the stripped text spells, when it lies in
   * [1888, 2030]; `None` for absent or empty text, text `int()` rejects, and
   * out-of-range values.
   */
  function ParseYear(value: Option<string>): (r: Option<int>)
    ensures r.Some? ==> YearInRange(r.value)
    ensures r.Some? <==> Truthy(value) && PyInt(Strip(value.value)).Some? && YearInRange(PyInt(Strip(value.value)).value)
    ensures r.Some? ==> r == PyInt(Strip(value.value))
  {
    if !Truthy(value) then None
    else
      var stripped := Strip(value.value);
      var year := PyInt(stripped);
      if year.Some? && YearInRange(year.value) then year else None
  }

  /**
   * `parse_rating`: the number the stripped text spells, when it is finite
   * and lies in [0.0, 10.0]; `None` otherwise, infinities and NaN included.
   */
  function ParseRating(value: Option<string>): (r: Option<real>)
    ensures r.Some? ==> RatingInRange(r.value)
    ensures r.Some? <==> Truthy(value) && PyFloat(Strip(value.value)).Some? && PyFloat(Strip(value.value)).value.Finite?
                         && RatingInRange(PyFloat(Strip(value.value)).value.value)
    ensures r.Some? ==> PyFloat(Strip(value.value)) == Some(Finite(r.value))
  {
    if !Truthy(value) then None
    else
      var stripped := Strip(value.value);
      match PyFloat(stripped)
      case Some(Finite(rating)) => if RatingInRange(rating) then Some(rating) else None
      case _ => None
  }

  /** Every year of the catalog's range survives `str` and then `parse_year`. */
  lemma ParseYearRoundTrip(y: int)
    requires YearInRange(y)
    ensures ParseYear(Some(NatToString(y))) == Some(y)
  {
    StripKeeps(NatToString(y));
    IntTextRoundTrip(y);
  }

  /** Text `int()` rejects yields `None` rather than an error: a decimal point is not an integer. */
  lemma ParseYearRejectsDecimal()
    ensures ParseYear(Some("2010.0")) == None
  {
    var t := "2010.0";
    assert !IsDigitPart(t) by { assert t[4] == '.'; }
    assert SignedDigits(t) == None by { assert t[0] == '2'; }
    StripKeeps(t);
  }

  /** Text `int()` rejects yields `None` rather than an error: letters are not digits. */
  lemma ParseYearRejectsLetters()
    ensures ParseYear(Some("abc")) == None
  {
    var a := "abc";
    StripKeeps(a);
    assert !IsDigitPart(a) by { assert a[0] == 'a'; }
  }

  /** Years outside [1888, 2030] are refused even though `int()` accepts them. */
  lemma ParseYearRejectsOutOfRange(y: nat)
    requires !YearInRange(y)
    ensures ParseYear(Some(NatToString(y))) == None
  {
    StripKeeps(NatToString(y));
    IntTextRoundTrip(y);
  }

  /** Every one-decimal rating `v` in [0.0, 10.0] survives printing and then `parse_rating`. */
  lemma ParseRatingRoundTrip(tenths: nat, v: real)
    requires tenths <= 100 && v == tenths as real / 10.0
    ensures ParseRating(Some(TenthsToString(tenths))) == Some(v)
  {
    FloatTenthsRoundTrip(tenths, v);
    StripKeeps(TenthsToString(tenths));
    TenthsInRange(tenths, v);
    ParseRatingOfFinite(TenthsToString(tenths), v);
  }

  lemma TenthsInRange(tenths: nat, v: real)
    requires tenths <= 100 && v == tenths as real / 10.0
    ensures RatingInRange(v)
  {
  }

  /** Stripped text that `float` reads as an in-range finite value is that rating. */
  lemma ParseRatingOfFinite(s: string, v: real)
    requires s != "" && Strip(s) == s && RatingInRange(v)
    requires PyFloat(s) == Some(Finite(v))
    ensures ParseRating(Some(s)) == Some(v)
  {
  }

  /** Infinity and NaN parse as floats but fail the range check, so they yield `None`. */
  lemma ParseRatingRejectsInfinity()
    ensures ParseRating(Some("inf")) == None
  {
    StripKeeps("inf");
    assert Lower("inf") == "inf";
    assert PyFloat("inf") == Some(NonFinite);
  }

  /** The column `key` is present with a non-empty cell. */
  predicate Present(row: Row, key: string) {
    key in row && row[key] != ""
  }

  /**
   * `get_csv_value`: the stripped cell of the first alias, in the order
   * given, that is present with a non-empty cell; `None` when there is none.
   * Emptiness is judged before stripping, so a whitespace-only cell ends the
   * search with "".
   */
  function GetCsvValue(row: Row, keys: seq<string>): (r: Option<string>)
    ensures r.None? <==> forall i :: 0 <= i < |keys| ==> !Present(row, keys[i])
    ensures r.Some? ==> exists i :: 0 <= i < |keys| && Present(row, keys[i]) && r.value == Strip(row[keys[i]])
                                    && forall j :: 0 <= j < i ==> !Present(row, keys[j])
  {
    if keys == [] then None
    else if Present(row, keys[0]) then Some(Strip(row[keys[0]]))
    else
      var rest := GetCsvValue(row, keys[1..]);
      assert forall i :: 1 <= i < |keys| ==> keys[i] == keys[1..][i - 1];
      rest
  }

  /** The alias found is unique: it is the first present one. */
  lemma GetCsvValueFirst(row: Row, keys: seq<string>, i: nat)
    requires i < |keys| && Present(row, keys[i])
    requires forall j :: 0 <= j < i ==> !Present(row, keys[j])
    ensures GetCsvValue(row, keys) == Some(Strip(row[keys[i]]))
  {
    var r := GetCsvValue(row, keys);
    assert r.Some?;
    var k :| 0 <= k < |keys| && Present(row, keys[k]) && r.value == Strip(row[keys[k]])
             && forall j :: 0 <= j < k ==> !Present(row, keys[j]);
    assert k == i;
  }

  /** Positions in `keys + more` refer to `keys` first, then to `more`. */
  lemma AbsentPrefix(row: Row, keys: seq<string>, more: seq<string>, k: nat)
    requires k <= |more|
    requires forall j :: 0 <= j < |keys| ==> !Present(row, keys[j])
    requires forall j :: 0 <= j < k ==> !Present(row, more[j])
    ensures forall j :: 0 <= j < |keys| + k ==> !Present(row, (keys + more)[j])
  {
    forall j | 0 <= j < |keys| + k ensures !Present(row, (keys + more)[j]) {
      if j < |keys| { assert (keys + more)[j] == keys[j]; } else { assert (keys + more)[j] == more[j - |keys|]; }
    }
  }

  /** A later alias is consulted only when every earlier one is missing or empty. */
  lemma GetCsvValueEarlierWins(row: Row, keys: seq<string>, more: seq<string>)
    requires GetCsvValue(row, keys).Some?
    ensures GetCsvValue(row, keys + more) == GetCsvValue(row, keys)
  {
    var r := GetCsvValue(row, keys);
    var k :| 0 <= k < |keys| && Present(row, keys[k]) && r.value == Strip(row[keys[k]])
             && forall j :: 0 <= j < k ==> !Present(row, keys[j]);
    assert (keys + more)[k] == keys[k];
    assert forall j :: 0 <= j < k ==> (keys + more)[j] == keys[j];
    GetCsvValueFirst(row, keys + more, k);
  }

  /** When no earlier alias is present, the search continues with the later ones. */
  lemma GetCsvValueFallsThrough(row: Row, keys: seq<string>, more: seq<string>)
    requires GetCsvValue(row, keys).None?
    ensures GetCsvValue(row, keys + more) == GetCsvValue(row, more)
  {
    var r := GetCsvValue(row, more);
    if r.Some? {
      var k :| 0 <= k < |more| && Present(row, more[k]) && r.value == Strip(row[more[k]])
               && forall j :: 0 <= j < k ==> !Present(row, more[j]);
      AbsentPrefix(row, keys, more, k);
      assert (keys + more)[|keys| + k] == more[k];
      GetCsvValueFirst(row, keys + more, |keys| + k);
    } else {
      AbsentPrefix(row, keys, more, |more|);
    }
  }

  /** A blank cell of an earlier alias stops the search with "" instead of trying the next alias. */
  lemma GetCsvValueBlankStops()
    ensures GetCsvValue(map["Title" := "  ", "title" := "Dune"], ["Title", "title"]) == Some("")
  {
    var blank := map["Title" := "  ", "title" := "Dune"];
    assert Present(blank, "Title");
    assert Strip("  ") == "" by { assert forall i :: 0 <= i < |"  "| ==> IsSpace("  "[i]); }
    GetCsvValueFirst(blank, ["Title", "title"], 0);
  }

  /** An empty cell does not count as present, so the next alias is tried. */
  lemma GetCsvValueEmptySkipped()
    ensures GetCsvValue(map["Title" := "", "title" := "Dune"], ["Title", "title"]) == Some("Dune")
  {
    var empty := map["Title" := "", "title" := "Dune"];
    var keys := ["Title", "title"];
    assert !Present(empty, keys[0]) && Present(empty, keys[1]);
    StripKeeps("Dune");
    GetCsvValueFirst(empty, keys, 1);
  }
}
