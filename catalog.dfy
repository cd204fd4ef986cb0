/**
 * Catalog queries: the browse page `movies_list` (Unit 4, with and without
 * login) and the search page `search` (Unit 3, Lesson 6). Both read up to
 * four optional arguments, add one SQL filter per truthy argument, order by
 * rating descending and list the distinct non-empty genres; the browse page
 * also cuts the result into pages of eight.
 */
module Catalog {
  import opened Wrappers
  import opened Text
  import opened Models

  const PerPage: nat := 8

  /**
   * The query-string arguments: `query` and `genre` as text (absent when
   * missing), `year` and `min_rating` as werkzeug's `type=int` / `type=float`
   * conversion delivers them (absent when missing or not a number).
   */
  datatype ListArgs = ListArgs(query: Option<string>, genre: Option<string>, year: Option<int>, minRating: Option<real>)

  /** `request.args.get(name, '').strip()`. */
  function TextArg(arg: Option<string>): string {
    Strip(arg.GetOr(""))
  }

  // ---------------------------------------------------------------------------
  // Filters
  // ---------------------------------------------------------------------------

  /** One SQL filter the views add to the query. */
  datatype Criterion =
    | TitleLike(part: string)    // `Movie.title.ilike(f"%{part}%")`
    | GenreIs(genre: string)     // `Movie.genre == genre`
    | YearIs(year: int)          // `Movie.year == year`
    | RatingAtLeast(min: real)   // `Movie.rating >= min`

  /** A row passes a filter; a NULL column passes none of the comparisons. */
  predicate Satisfies(m: Movie, c: Criterion) {
    match c
    case TitleLike(part) => Contains(Lower(m.details.title), Lower(part))
    case GenreIs(g) => m.details.genre == Some(g)
    case YearIs(y) => m.details.year == Some(y)
    case RatingAtLeast(r) => m.details.rating.Some? && m.details.rating.value >= r
  }

  /** The filters the views add, in their order, each one only when its argument is truthy. */
  function Criteria(a: ListArgs): seq<Criterion> {
    (if TextArg(a.query) != "" then [TitleLike(TextArg(a.query))] else [])
    + (if TextArg(a.genre) != "" then [GenreIs(TextArg(a.genre))] else [])
    + (if a.year.Some? && a.year.value != 0 then [YearIs(a.year.value)] else [])
    + (if a.minRating.Some? && a.minRating.value != 0.0 then [RatingAtLeast(a.minRating.value)] else [])
  }

  /** `q.filter(c)`: the rows passing `c`, in order. */
  function Where(ms: seq<Movie>, c: Criterion): (r: seq<Movie>)
    ensures forall m :: m in r <==> m in ms && Satisfies(m, c)
  {
    if ms == [] then []
    else
      assert forall m :: m in ms <==> m == ms[0] || m in ms[1..];
      (if Satisfies(ms[0], c) then [ms[0]] else []) + Where(ms[1..], c)
  }

  /** The query after applying every filter of `cs` in turn. */
  function WhereAll(ms: seq<Movie>, cs: seq<Criterion>): seq<Movie>
    decreases |cs|
  {
    if cs == [] then ms else WhereAll(Where(ms, cs[0]), cs[1..])
  }

  /**
   * What a listing is meant to keep, stated on the arguments alone: each
   * truthy argument constrains its column, each falsy one constrains nothing.
   */
  predicate Matches(a: ListArgs, m: Movie) {
    (TextArg(a.query) != "" ==> Contains(Lower(m.details.title), Lower(TextArg(a.query))))
    && (TextArg(a.genre) != "" ==> m.details.genre == Some(TextArg(a.genre)))
    && (a.year.Some? && a.year.value != 0 ==> m.details.year == Some(a.year.value))
    && (a.minRating.Some? && a.minRating.value != 0.0 ==>
          m.details.rating.Some? && m.details.rating.value >= a.minRating.value)
  }

  /** The rows of `ms` that match `a`, in table order, with their multiplicities. */
  function Selected(ms: seq<Movie>, a: ListArgs): (r: seq<Movie>)
    ensures forall m :: m in r <==> m in ms && Matches(a, m)
    ensures forall m :: multiset(r)[m] == if Matches(a, m) then multiset(ms)[m] else 0
  {
    if ms == [] then []
    else
      assert ms == [ms[0]] + ms[1..];
      assert forall m :: m in ms <==> m == ms[0] || m in ms[1..];
      (if Matches(a, ms[0]) then [ms[0]] else []) + Selected(ms[1..], a)
  }

  /** The rows passing every filter of `cs`. */
  function KeepAll(ms: seq<Movie>, cs: seq<Criterion>): seq<Movie> {
    if ms == [] then []
    else (if forall c :: c in cs ==> Satisfies(ms[0], c) then [ms[0]] else []) + KeepAll(ms[1..], cs)
  }

  lemma {:induction false} WhereThenKeep(ms: seq<Movie>, c: Criterion, cs: seq<Criterion>)
    ensures KeepAll(Where(ms, c), cs) == KeepAll(ms, [c] + cs)
  {
    if ms != [] {
      WhereThenKeep(ms[1..], c, cs);
      var all := [c] + cs;
      assert (forall d :: d in all ==> Satisfies(ms[0], d))
         <==> Satisfies(ms[0], c) && (forall d :: d in cs ==> Satisfies(ms[0], d)) by {
        assert forall d :: d in all <==> d == c || d in cs;
      }
      var w := Where(ms, c);
      if Satisfies(ms[0], c) {
        assert w == [ms[0]] + Where(ms[1..], c);
        assert w[0] == ms[0] && w[1..] == Where(ms[1..], c);
      } else {
        assert w == Where(ms[1..], c);
      }
    }
  }

  lemma {:induction false} WhereAllKeeps(ms: seq<Movie>, cs: seq<Criterion>)
    ensures WhereAll(ms, cs) == KeepAll(ms, cs)
    decreases |cs|
  {
    if cs == [] {
      KeepAllNothing(ms);
    } else {
      WhereAllKeeps(Where(ms, cs[0]), cs[1..]);
      WhereThenKeep(ms, cs[0], cs[1..]);
      assert [cs[0]] + cs[1..] == cs;
    }
  }

  lemma {:induction false} KeepAllNothing(ms: seq<Movie>)
    ensures KeepAll(ms, []) == ms
  {
    if ms != [] {
      KeepAllNothing(ms[1..]);
    }
  }

  /** Passing every filter the views add is matching the arguments. */
  lemma CriteriaMeanMatches(a: ListArgs, m: Movie)
    ensures (forall c :: c in Criteria(a) ==> Satisfies(m, c)) <==> Matches(a, m)
  {
    var q, g := TextArg(a.query), TextArg(a.genre);
    var cs := Criteria(a);
    assert forall c :: c in cs <==>
      (q != "" && c == TitleLike(q)) || (g != "" && c == GenreIs(g))
      || (a.year.Some? && a.year.value != 0 && c == YearIs(a.year.value))
      || (a.minRating.Some? && a.minRating.value != 0.0 && c == RatingAtLeast(a.minRating.value));
    if forall c :: c in cs ==> Satisfies(m, c) {
      if q != "" { assert TitleLike(q) in cs; }
      if g != "" { assert GenreIs(g) in cs; }
      if a.year.Some? && a.year.value != 0 { assert YearIs(a.year.value) in cs; }
      if a.minRating.Some? && a.minRating.value != 0.0 { assert RatingAtLeast(a.minRating.value) in cs; }
    }
  }

  lemma {:induction false} KeepAllSelects(ms: seq<Movie>, a: ListArgs)
    ensures KeepAll(ms, Criteria(a)) == Selected(ms, a)
  {
    if ms != [] {
      CriteriaMeanMatches(a, ms[0]);
      KeepAllSelects(ms[1..], a);
    }
  }

  /**
   * The chain of `q = q.filter(...)` statements keeps exactly the rows that
   * match every truthy argument: the filters combine with AND.
   */
  lemma FiltersCombineWithAnd(ms: seq<Movie>, a: ListArgs)
    ensures WhereAll(ms, Criteria(a)) == Selected(ms, a)
  {
    WhereAllKeeps(ms, Criteria(a));
    KeepAllSelects(ms, a);
  }

  /** Falsy arguments (empty or blank text, year 0, rating 0) add no filter. */
  lemma FalsyArgumentsKeepAll(ms: seq<Movie>, query: string, genre: string)
    requires Strip(query) == "" && Strip(genre) == ""
    ensures WhereAll(ms, Criteria(ListArgs(Some(query), Some(genre), Some(0), Some(0.0)))) == ms
    ensures WhereAll(ms, Criteria(ListArgs(None, None, None, None))) == ms
  {
    assert Strip("") == "";
  }

  // ---------------------------------------------------------------------------
  // Ordering by rating, descending
  // ---------------------------------------------------------------------------

  /** `a` may precede `b` under `rating DESC`: SQLite sorts NULL below every number. */
  predicate RatedAtLeast(a: Option<real>, b: Option<real>) {
    b.None? || (a.Some? && a.value >= b.value)
  }

  predicate ByRatingDesc(s: seq<Movie>) {
    forall i, j :: 0 <= i < j < |s| ==> RatedAtLeast(s[i].details.rating, s[j].details.rating)
  }

  /** Place `m` before the first row it may precede. */
  function InsertByRating(m: Movie, s: seq<Movie>): (r: seq<Movie>)
    ensures multiset(r) == multiset(s) + multiset{m}
  {
    if s == [] then [m]
    else if RatedAtLeast(m.details.rating, s[0].details.rating) then [m] + s
    else
      assert s == [s[0]] + s[1..];
      [s[0]] + InsertByRating(m, s[1..])
  }

  lemma {:induction false} InsertKeepsOrder(m: Movie, s: seq<Movie>)
    requires ByRatingDesc(s)
    ensures ByRatingDesc(InsertByRating(m, s))
  {
    if s == [] {
    } else if RatedAtLeast(m.details.rating, s[0].details.rating) {
      var r := [m] + s;
      forall i, j | 0 <= i < j < |r| ensures RatedAtLeast(r[i].details.rating, r[j].details.rating) {
        if i == 0 {
          assert r[j] == s[j - 1];
        } else {
          assert r[i] == s[i - 1] && r[j] == s[j - 1];
        }
      }
    } else {
      var rest := InsertByRating(m, s[1..]);
      InsertKeepsOrder(m, s[1..]);
      forall j | 0 <= j < |rest| ensures RatedAtLeast(s[0].details.rating, rest[j].details.rating) {
        assert rest[j] in multiset(rest);
        if rest[j] != m {
          assert rest[j] in multiset(s[1..]);
          var k :| 0 <= k < |s[1..]| && s[1..][k] == rest[j];
          assert s[k + 1] == rest[j];
        }
      }
      var r := [s[0]] + rest;
      forall i, j | 0 <= i < j < |r| ensures RatedAtLeast(r[i].details.rating, r[j].details.rating) {
        if i == 0 {
          assert r[j] == rest[j - 1];
        } else {
          assert r[i] == rest[i - 1] && r[j] == rest[j - 1];
        }
      }
    }
  }

  /** `ORDER BY rating DESC`: the same rows, highest rating first, unrated last. */
  function SortByRating(s: seq<Movie>): (r: seq<Movie>)
    ensures ByRatingDesc(r)
    ensures multiset(r) == multiset(s)
  {
    if s == [] then []
    else
      assert s == [s[0]] + s[1..];
      var rest := SortByRating(s[1..]);
      InsertKeepsOrder(s[0], rest);
      InsertByRating(s[0], rest)
  }

  // ---------------------------------------------------------------------------
  // Pagination
  // ---------------------------------------------------------------------------

  /** `request.args.get('page', 1, type=int)` then `paginate(error_out=False)`: missing means 1, below 1 is raised to 1. */
  function PageNumber(arg: Option<int>): (p: nat)
    ensures p >= 1
    ensures arg.Some? && arg.value >= 1 ==> p == arg.value
    ensures (arg.None? || arg.value < 1) ==> p == 1
  {
    if arg.Some? && arg.value >= 1 then arg.value else 1
  }

  function Min(a: int, b: int): int {
    if a <= b then a else b
  }

  /** The items of page `p`: positions `[(p-1)*8, p*8)` of `s`, empty past the end. */
  function PageOf(s: seq<Movie>, p: nat): (r: seq<Movie>)
    requires p >= 1
    ensures |r| <= PerPage
    ensures |r| == if (p - 1) * PerPage < |s| then Min(PerPage, |s| - (p - 1) * PerPage) else 0
    ensures forall i :: 0 <= i < |r| ==> r[i] == s[(p - 1) * PerPage + i]
  {
    var start := (p - 1) * PerPage;
    if start >= |s| then [] else s[start..Min(start + PerPage, |s|)]
  }

  /** Flask-SQLAlchemy's page count: `ceil(total / 8)`, 0 for no rows. */
  function PageCount(total: nat): nat {
    (total + PerPage - 1) / PerPage
  }

  /** A page has items exactly when its number is between 1 and the page count. */
  lemma PageHasItems(s: seq<Movie>, p: nat)
    requires p >= 1
    ensures PageOf(s, p) != [] <==> p <= PageCount(|s|)
  {
  }

  /** Pages 1..n laid end to end. */
  function FirstPages(s: seq<Movie>, n: nat): seq<Movie> {
    if n == 0 then [] else FirstPages(s, n - 1) + PageOf(s, n)
  }

  /** Pages 1..n together are the first `8 n` results, so consecutive pages never overlap or skip a row. */
  lemma {:induction false} FirstPagesArePrefix(s: seq<Movie>, n: nat)
    ensures FirstPages(s, n) == s[..Min(n * PerPage, |s|)]
  {
    if n > 0 {
      FirstPagesArePrefix(s, n - 1);
      var lo := Min((n - 1) * PerPage, |s|);
      var hi := Min(n * PerPage, |s|);
      var page := PageOf(s, n);
      assert |page| == hi - lo;
      assert s[..hi] == s[..lo] + s[lo..hi];
      assert page == s[lo..hi];
    }
  }

  /** All the pages together are the whole result. */
  lemma AllPagesCoverResult(s: seq<Movie>)
    ensures FirstPages(s, PageCount(|s|)) == s
  {
    FirstPagesArePrefix(s, PageCount(|s|));
    assert s[..|s|] == s;
  }

  // ---------------------------------------------------------------------------
  // The genre list
  // ---------------------------------------------------------------------------

  predicate StrictlyAscending(s: seq<string>) {
    forall i, j :: 0 <= i < j < |s| ==> StrLess(s[i], s[j])
  }

  /** Add `g` to a strictly ascending list, keeping it strictly ascending and free of duplicates. */
  function InsertGenre(g: string, s: seq<string>): (r: seq<string>)
    requires StrictlyAscending(s)
    ensures StrictlyAscending(r)
    ensures forall x :: x in r <==> x == g || x in s
  {
    if s == [] then [g]
    else if g == s[0] then s
    else if StrLess(g, s[0]) then
      forall j | 0 <= j < |s| ensures StrLess(g, s[j]) {
        if j > 0 { StrLessTransitive(g, s[0], s[j]); }
      }
      [g] + s
    else
      StrLessTotal(g, s[0]);
      var rest := InsertGenre(g, s[1..]);
      assert forall x :: x in s <==> x == s[0] || x in s[1..];
      assert forall x :: x in rest ==> StrLess(s[0], x) by {
        forall x | x in rest ensures StrLess(s[0], x) {
          if x != g {
            var k :| 0 <= k < |s[1..]| && s[1..][k] == x;
            assert s[k + 1] == x;
          }
        }
      }
      var r := [s[0]] + rest;
      assert forall j :: 1 <= j < |r| ==> r[j] in rest;
      r
  }

  /**
   * `SELECT DISTINCT genre ... ORDER BY genre`, keeping the truthy values:
   * every non-empty genre some movie has, once each, in ascending order.
   */
  function DistinctGenres(ms: seq<Movie>): (r: seq<string>)
    ensures StrictlyAscending(r)
    ensures forall g :: g in r <==> g != "" && exists m :: m in ms && m.details.genre == Some(g)
  {
    if ms == [] then []
    else
      var rest := DistinctGenres(ms[1..]);
      assert forall m :: m in ms <==> m == ms[0] || m in ms[1..];
      match ms[0].details.genre
      case Some(g) => if g != "" then InsertGenre(g, rest) else rest
      case None => rest
  }

  /** There is only one strictly ascending list of a given set of genres. */
  lemma {:induction false} AscendingIsUnique(a: seq<string>, b: seq<string>)
    requires StrictlyAscending(a) && StrictlyAscending(b)
    requires forall x :: x in a <==> x in b
    ensures a == b
  {
    SameEmptiness(a, b);
    if a != [] {
      assert a == [a[0]] + a[1..] && b == [b[0]] + b[1..];
      StrLessIrreflexive(a[0]);
      StrLessIrreflexive(b[0]);
      assert a[0] in a && b[0] in b;
      var i :| 0 <= i < |a| && a[i] == b[0];
      var j :| 0 <= j < |b| && b[j] == a[0];
      if i != 0 && j != 0 {
        StrLessTransitive(a[0], b[0], a[0]);
      }
      assert a[0] == b[0];
      forall x ensures x in a[1..] <==> x in b[1..] {
        if x in a[1..] {
          var k :| 0 <= k < |a[1..]| && a[1..][k] == x;
          assert StrLess(a[0], a[k + 1]);
          assert x in b && x != b[0];
        }
        if x in b[1..] {
          var k :| 0 <= k < |b[1..]| && b[1..][k] == x;
          assert StrLess(b[0], b[k + 1]);
          assert x in a && x != a[0];
        }
      }
      AscendingIsUnique(a[1..], b[1..]);
    }
  }

  lemma SameEmptiness(a: seq<string>, b: seq<string>)
    requires forall x :: x in a <==> x in b
    ensures a == [] <==> b == []
  {
    if a != [] {
      assert a[0] in b;
    }
    if b != [] {
      assert b[0] in a;
    }
  }

  /** Whatever the construction, the genre list is the one ascending list of the present genres. */
  lemma GenresAreTheSortedSet(ms: seq<Movie>, s: seq<string>)
    requires StrictlyAscending(s)
    requires forall g :: g in s <==> g != "" && exists m :: m in ms && m.details.genre == Some(g)
    ensures DistinctGenres(ms) == s
  {
    AscendingIsUnique(DistinctGenres(ms), s);
  }

  // ---------------------------------------------------------------------------
  // The two views
  // ---------------------------------------------------------------------------

  /** What `movies_list` renders: the items of one page, the page number, the match count and the genre list. */
  datatype Listing = Listing(items: seq<Movie>, page: nat, total: nat, genres: seq<string>)

  /** Rows with the same multiset are the same rows, as many of them. */
  lemma SameRows(a: seq<Movie>, b: seq<Movie>)
    requires multiset(a) == multiset(b)
    ensures |a| == |b| && forall m :: m in a <==> m in b
  {
    assert |multiset(a)| == |multiset(b)|;
    forall m ensures m in a <==> m in b {
      assert m in a <==> m in multiset(a);
      assert m in b <==> m in multiset(b);
    }
  }

  /** A page of an ordered result is ordered and holds only rows of the result. */
  lemma PageOfOrdered(s: seq<Movie>, p: nat)
    requires p >= 1 && ByRatingDesc(s)
    ensures ByRatingDesc(PageOf(s, p))
    ensures forall m :: m in PageOf(s, p) ==> m in s
  {
    var items := PageOf(s, p);
    forall i, j | 0 <= i < j < |items|
      ensures RatedAtLeast(items[i].details.rating, items[j].details.rating)
    {
      assert items[i] == s[(p - 1) * PerPage + i];
      assert items[j] == s[(p - 1) * PerPage + j];
    }
    forall m | m in items ensures m in s {
      var i :| 0 <= i < |items| && items[i] == m;
      assert s[(p - 1) * PerPage + i] == m;
    }
  }

  /** `movies_list`: filter, order by rating descending, take the requested page of 8. */
  function MoviesList(ms: seq<Movie>, a: ListArgs, page: Option<int>): (r: Listing)
    ensures r.page == PageNumber(page)
    ensures r.total == |Selected(ms, a)|
    ensures |r.items| <= PerPage && ByRatingDesc(r.items)
    ensures forall m :: m in r.items ==> m in ms && Matches(a, m)
    ensures r.items == [] <==> r.page > PageCount(r.total)
    ensures r.genres == DistinctGenres(ms)
  {
    var results := SortByRating(WhereAll(ms, Criteria(a)));
    FiltersCombineWithAnd(ms, a);
    SameRows(results, Selected(ms, a));
    var p := PageNumber(page);
    PageOfOrdered(results, p);
    PageHasItems(results, p);
    Listing(PageOf(results, p), p, |results|, DistinctGenres(ms))
  }

  /** What `search` renders: every result on one page, and the genre list. */
  datatype SearchResult = SearchResult(movies: seq<Movie>, genres: seq<string>)

  /** `search`: the same filters and order as the browse page, with no pagination. */
  function Search(ms: seq<Movie>, a: ListArgs): (r: SearchResult)
    ensures multiset(r.movies) == multiset(Selected(ms, a))
    ensures ByRatingDesc(r.movies)
    ensures r.genres == DistinctGenres(ms)
  {
    FiltersCombineWithAnd(ms, a);
    SearchResult(SortByRating(WhereAll(ms, Criteria(a))), DistinctGenres(ms))
  }

  /** With no arguments the search page lists every movie, best rated first. */
  lemma SearchWithoutArgumentsListsAll(ms: seq<Movie>)
    ensures multiset(Search(ms, ListArgs(None, None, None, None)).movies) == multiset(ms)
  {
    var a := ListArgs(None, None, None, None);
    assert Strip("") == "";
    assert forall m :: multiset(Selected(ms, a))[m] == multiset(ms)[m];
    assert multiset(Selected(ms, a)) == multiset(ms);
  }

  /** The browse page's matches are the search page's results, split into pages. */
  lemma PagesOfSearch(ms: seq<Movie>, a: ListArgs, page: Option<int>)
    ensures MoviesList(ms, a, page).items == PageOf(Search(ms, a).movies, PageNumber(page))
  {
  }
}
