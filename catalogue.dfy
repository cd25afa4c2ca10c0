/**
 * The main window's catalogue: the in-memory movie list and what its buttons do to it and to the
 * database (add, delete, rate, favourite, comment), and the two views it can show instead of the
 * whole list (search and recommendations). The movie a handler acts on is the list's selection,
 * passed in as `selected`; `null` means nothing is selected.
 */
module Catalogue {
  import opened Wrappers
  import opened JavaStrings
  import opened ColumnCodec
  import opened Model
  import opened Seqs
  import opened Store

  // ---------------------------------------------------------------- tag input

  /** Tags typed as comma-separated text: the pieces of `split(",")`, trimmed, without the empty
      ones, in their order. */
  function ParseTags(text: string): (tags: seq<string>)
    ensures forall k :: 0 <= k < |tags| ==> tags[k] != [] && Trimmed(tags[k]) && ',' !in tags[k]
    ensures forall k :: 0 <= k < |Split(text)| && Trim(Split(text)[k]) != [] ==> Trim(Split(text)[k]) in tags
    ensures IsSubsequence(tags, TrimAll(Split(text)))
    ensures forall t :: multiset(tags)[t] == if t != [] then multiset(TrimAll(Split(text)))[t] else 0
  {
    var pieces := Split(text);
    TrimmedPieces(pieces);
    FilterCounts((t: string) => t != [], TrimAll(pieces));
    Filter((t: string) => t != [], TrimAll(pieces))
  }

  /** Trimming pieces that hold no comma gives trimmed pieces that hold no comma. */
  lemma TrimmedPieces(pieces: seq<string>)
    requires forall k :: 0 <= k < |pieces| ==> ',' !in pieces[k]
    ensures forall x :: x in TrimAll(pieces) ==> Trimmed(x) && ',' !in x
  {
    var trimmed := TrimAll(pieces);
    forall x | x in trimmed ensures Trimmed(x) && ',' !in x {
      var j :| 0 <= j < |trimmed| && trimmed[j] == x;
      assert ',' !in pieces[j];
    }
  }

  /** The tags of any movie the add button accepts survive the `tags` column. */
  lemma ParsedTagsSurviveStore(text: string)
    requires ParseTags(text) != []
    ensures DecodeTags(Some(EncodeTags(ParseTags(text)))) == ParseTags(text)
  {
    var tags := ParseTags(text);
    assert tags[|tags| - 1] != [];
    TagsRoundTrip(tags);
  }

  // ---------------------------------------------------------------- form input

  /** The add form read as a movie: accepted only when the trimmed year parses and the trimmed
      title, the trimmed director and the parsed tags are all non-empty. A new movie has no
      ratings, is not a favourite and has no comments. */
  function ParseMovie(titleText: string, directorText: string, yearText: string, tagsText: string)
    : (r: Option<MovieValue>)
    ensures r.Some? <==> ParseInt(Trim(yearText)).Some? && Trim(titleText) != []
                         && Trim(directorText) != [] && ParseTags(tagsText) != []
    ensures r.Some? ==> r.value == MovieValue(Trim(titleText), Trim(directorText),
                          ParseInt(Trim(yearText)).value, ParseTags(tagsText), [], false, [])
  {
    var title := Trim(titleText);
    var director := Trim(directorText);
    var year := ParseInt(Trim(yearText));
    var tags := ParseTags(tagsText);
    if year.None? || title == [] || director == [] || tags == [] then None
    else Some(MovieValue(title, director, year.value, tags, [], false, []))
  }

  /** Every field of an accepted movie is non-empty and free of surrounding blanks, and so are
      its tags, none of which holds a comma. */
  lemma ParsedMovieIsClean(titleText: string, directorText: string, yearText: string, tagsText: string)
    requires ParseMovie(titleText, directorText, yearText, tagsText).Some?
    ensures var m := ParseMovie(titleText, directorText, yearText, tagsText).value;
      && m.title != [] && Trimmed(m.title) && m.director != [] && Trimmed(m.director)
      && m.tags != [] && (forall k :: 0 <= k < |m.tags| ==> m.tags[k] != [] && Trimmed(m.tags[k]) && ',' !in m.tags[k])
  {
  }

  /** A form filled in cleanly — non-empty title, director and single tag with no surrounding
      blanks and no comma, and the year as `String.valueOf` prints it — is accepted as exactly
      that movie. */
  lemma AcceptsCleanForm(title: string, director: string, year: Int32, tag: string)
    requires title != [] && Trimmed(title)
    requires director != [] && Trimmed(director)
    requires tag != [] && Trimmed(tag) && ',' !in tag
    ensures ParseMovie(title, director, ValueOf(year), tag)
              == Some(MovieValue(title, director, year, [tag], [], false, []))
  {
    ParseValueOf(year);
    assert Trim(ValueOf(year)) == ValueOf(year);
    assert Split(tag) == [tag];
    assert TrimAll([tag]) == [tag];
    assert ParseTags(tag) == [tag];
  }

  /** The rating field read as a score: the trimmed text must parse and lie between 1 and 5. */
  function ParseRating(text: string): (r: Option<Int32>)
    ensures r.Some? <==> ParseInt(Trim(text)).Some? && 1 <= ParseInt(Trim(text)).value <= 5
    ensures r.Some? ==> r.value == ParseInt(Trim(text)).value && 1 <= r.value <= 5
  {
    var rating := ParseInt(Trim(text));
    if rating.None? || rating.value < 1 || rating.value > 5 then None else rating
  }

  // ---------------------------------------------------------------- search

  /** A movie matches a lower-cased query when its lower-cased title, director or one of its
      tags contains the query. */
  predicate Matches(m: MovieValue, query: string) {
    || Contains(ToLower(m.title), query)
    || Contains(ToLower(m.director), query)
    || exists t | t in m.tags :: Contains(ToLower(t), query)
  }

  /** The movies that match, in list order. */
  function SearchIn(ms: seq<Movie>, query: string): (r: seq<Movie>)
    reads ms
    ensures forall k :: 0 <= k < |r| ==> r[k] in ms && Matches(r[k].View(), query)
    ensures forall k :: 0 <= k < |ms| && Matches(ms[k].View(), query) ==> ms[k] in r
    ensures IsSubsequence(r, ms)
  {
    if ms == [] then []
    else
      var rest := SearchIn(ms[1..], query);
      assert forall k :: 0 < k < |ms| ==> ms[k] == ms[1..][k - 1];
      if Matches(ms[0].View(), query) then
        var r := [ms[0]] + rest;
        assert r[1..] == rest;
        r
      else rest
  }

  /** The search keeps every matching movie exactly as often as it is in the list, and no other. */
  lemma {:induction false} SearchInCounts(ms: seq<Movie>, query: string)
    ensures forall x: Movie :: multiset(SearchIn(ms, query))[x] == if Matches(x.View(), query) then multiset(ms)[x] else 0
  {
    if ms != [] {
      SearchInCounts(ms[1..], query);
      assert ms == [ms[0]] + ms[1..];
      if Matches(ms[0].View(), query) {
        assert SearchIn(ms, query) == [ms[0]] + SearchIn(ms[1..], query);
      }
    }
  }

  // ---------------------------------------------------------------- recommendations

  /** A movie of the list with its average rating and its place in the list. */
  datatype Rated = Rated(movie: Movie, average: real, position: nat)

  /** Every movie of the list with its average and place. */
  function Averages(ms: seq<Movie>): (r: seq<Rated>)
    reads ms
    ensures |r| == |ms|
    ensures forall k :: 0 <= k < |r| ==> r[k] == Rated(ms[k], ms[k].AverageRating(), k)
  {
    if ms == [] then []
    else
      var front := Averages(ms[..|ms| - 1]);
      front + [Rated(ms[|ms| - 1], ms[|ms| - 1].AverageRating(), |ms| - 1)]
  }

  /** Averages never increase along `rs`. */
  predicate Descending(rs: seq<Rated>) {
    forall i, j :: 0 <= i < j < |rs| ==> rs[j].average <= rs[i].average
  }

  /** Entries with equal averages appear in list order. */
  predicate TiesInListOrder(rs: seq<Rated>) {
    forall i, j :: 0 <= i < j < |rs| && rs[i].average == rs[j].average ==> rs[i].position < rs[j].position
  }

  /** Puts `x` before the first entry whose average is not above its own. */
  function InsertByAverage(x: Rated, sorted: seq<Rated>): (r: seq<Rated>)
    ensures |r| == |sorted| + 1
    ensures multiset(r) == multiset(sorted) + multiset{x}
  {
    if sorted == [] || sorted[0].average <= x.average then
      [x] + sorted
    else
      assert sorted == [sorted[0]] + sorted[1..];
      [sorted[0]] + InsertByAverage(x, sorted[1..])
  }

  /** An entry of `InsertByAverage(x, sorted)` is `x` or an entry of `sorted`. */
  lemma InsertedFrom(x: Rated, sorted: seq<Rated>, k: nat)
    requires k < |InsertByAverage(x, sorted)|
    ensures var y := InsertByAverage(x, sorted)[k];
            y == x || exists p :: 0 <= p < |sorted| && sorted[p] == y
  {
    var y := InsertByAverage(x, sorted)[k];
    assert y in multiset(InsertByAverage(x, sorted));
    if y != x {
      assert y in multiset(sorted);
      assert y in sorted;
    }
  }

  lemma {:induction false} InsertKeepsDescending(x: Rated, sorted: seq<Rated>)
    requires Descending(sorted)
    ensures Descending(InsertByAverage(x, sorted))
  {
    var r := InsertByAverage(x, sorted);
    if sorted == [] || sorted[0].average <= x.average {
      assert forall k :: 0 < k < |r| ==> r[k] == sorted[k - 1];
    } else {
      var rest := InsertByAverage(x, sorted[1..]);
      InsertKeepsDescending(x, sorted[1..]);
      assert forall k :: 0 < k < |r| ==> r[k] == rest[k - 1];
      forall k | 0 <= k < |rest| ensures rest[k].average <= sorted[0].average {
        InsertedFrom(x, sorted[1..], k);
      }
    }
  }

  lemma {:induction false} InsertKeepsTiesInListOrder(x: Rated, sorted: seq<Rated>)
    requires TiesInListOrder(sorted)
    requires forall k :: 0 <= k < |sorted| ==> x.position < sorted[k].position
    ensures TiesInListOrder(InsertByAverage(x, sorted))
  {
    var r := InsertByAverage(x, sorted);
    if sorted == [] || sorted[0].average <= x.average {
      assert forall k :: 0 < k < |r| ==> r[k] == sorted[k - 1];
    } else {
      var rest := InsertByAverage(x, sorted[1..]);
      InsertKeepsTiesInListOrder(x, sorted[1..]);
      assert forall k :: 0 < k < |r| ==> r[k] == rest[k - 1];
      forall k | 0 <= k < |rest| && rest[k].average == sorted[0].average
        ensures sorted[0].position < rest[k].position
      {
        InsertedFrom(x, sorted[1..], k);
      }
    }
  }

  /** Insertion sort by average, highest first. */
  function SortByAverage(rs: seq<Rated>): (r: seq<Rated>)
    ensures |r| == |rs|
    ensures multiset(r) == multiset(rs)
    ensures Descending(r)
  {
    if rs == [] then []
    else
      assert rs == [rs[0]] + rs[1..];
      var rest := SortByAverage(rs[1..]);
      InsertKeepsDescending(rs[0], rest);
      InsertByAverage(rs[0], rest)
  }

  /** Places strictly increase along `rs`. */
  predicate InListOrder(rs: seq<Rated>) {
    forall i, j :: 0 <= i < j < |rs| ==> rs[i].position < rs[j].position
  }

  /** The sort is stable: entries with equal averages keep their list order. */
  lemma {:induction false} SortKeepsTiesInListOrder(rs: seq<Rated>)
    requires InListOrder(rs)
    ensures TiesInListOrder(SortByAverage(rs))
  {
    if rs != [] {
      var rest := SortByAverage(rs[1..]);
      SortKeepsTiesInListOrder(rs[1..]);
      forall k | 0 <= k < |rest| ensures rs[0].position < rest[k].position {
        assert rest[k] in multiset(rs[1..]);
        var p :| 0 <= p < |rs[1..]| && rs[1..][p] == rest[k];
        assert rs[p + 1] == rest[k];
      }
      InsertKeepsTiesInListOrder(rs[0], rest);
    }
  }

  /** The list ranked by average rating, highest first, movies with equal averages in list
      order: `sorted(comparingDouble(averageRating).reversed())`, a stable sort. Every entry is
      one of the list's movies, with its place and its current average. */
  function Ranking(ms: seq<Movie>): (r: seq<Rated>)
    reads ms
    ensures multiset(r) == multiset(Averages(ms))
    ensures Descending(r) && TiesInListOrder(r)
    ensures |r| == |ms|
    ensures forall k :: 0 <= k < |r| ==>
              && r[k].position < |ms|
              && r[k].movie == ms[r[k].position]
              && r[k].average == ms[r[k].position].AverageRating()
  {
    var all := Averages(ms);
    var r := SortByAverage(all);
    SortKeepsTiesInListOrder(all);
    assert forall k :: 0 <= k < |r| ==> r[k] in multiset(all);
    r
  }

  /** The entries of `rs`, as movies. */
  function Movies(rs: seq<Rated>): seq<Movie> {
    seq(|rs|, k requires 0 <= k < |rs| => rs[k].movie)
  }

  lemma MoviesAppend(a: seq<Rated>, b: seq<Rated>)
    ensures Movies(a + b) == Movies(a) + Movies(b)
  {
    assert forall k :: 0 <= k < |a + b| ==> Movies(a + b)[k] == (Movies(a) + Movies(b))[k];
  }

  /** Cutting out entry `i` takes one copy of its movie out of the multiset of movies. */
  lemma MoviesCut(rs: seq<Rated>, i: nat)
    requires i < |rs|
    ensures multiset(Movies(rs)) == multiset{rs[i].movie} + multiset(Movies(rs[..i] + rs[i + 1..]))
  {
    var front, back := rs[..i], rs[i + 1..];
    assert rs == front + [rs[i]] + back;
    MoviesAppend(front + [rs[i]], back);
    MoviesAppend(front, [rs[i]]);
    MoviesAppend(front, back);
    assert Movies([rs[i]]) == [rs[i].movie];
  }

  /** Entries that are a rearrangement of each other hold the same movies, as often. */
  lemma {:induction false} MoviesPermutation(a: seq<Rated>, b: seq<Rated>)
    requires multiset(a) == multiset(b)
    ensures multiset(Movies(a)) == multiset(Movies(b))
    decreases |a|
  {
    if a == [] {
      assert |multiset(b)| == 0;
    } else {
      assert a[0] in multiset(b);
      var i :| 0 <= i < |b| && b[i] == a[0];
      PermutationTails(a, b, i);
      MoviesPermutation(a[1..], b[..i] + b[i + 1..]);
      MoviesHead(a);
      MoviesCut(b, i);
    }
  }

  lemma MoviesHead(rs: seq<Rated>)
    requires rs != []
    ensures multiset(Movies(rs)) == multiset{rs[0].movie} + multiset(Movies(rs[1..]))
  {
    MoviesCut(rs, 0);
    assert rs[..0] + rs[1..] == rs[1..];
  }

  lemma MoviesOfAverages(ms: seq<Movie>)
    ensures Movies(Averages(ms)) == ms
  {
  }

  /** The first `n` entries of the ranking are distinct movies of the list: together they occur
      no more often than in the list. */
  lemma TopIsSubMultiset(ms: seq<Movie>, n: nat)
    requires n <= |ms|
    ensures multiset(Movies(Ranking(ms)[..n])) <= multiset(ms)
  {
    var ranking := Ranking(ms);
    MoviesPermutation(ranking, Averages(ms));
    MoviesOfAverages(ms);
    assert ranking == ranking[..n] + ranking[n..];
    MoviesAppend(ranking[..n], ranking[n..]);
  }

  lemma PrefixMovies(rs: seq<Rated>, n: nat)
    requires n <= |rs|
    ensures forall q :: 0 <= q < n ==> rs[q].movie in Movies(rs[..n])
  {
    forall q | 0 <= q < n ensures rs[q].movie in Movies(rs[..n]) {
      assert Movies(rs[..n])[q] == rs[q].movie;
    }
  }

  lemma TopOfRanking(ms: seq<Movie>, n: nat)
    requires n <= |ms|
    ensures var top := Movies(Ranking(ms)[..n]);
            forall k, j :: 0 <= k < n && 0 <= j < |ms| && ms[j] !in top ==>
              ms[j].AverageRating() <= top[k].AverageRating()
  {
    var ranking := Ranking(ms);
    var top := Movies(ranking[..n]);
    forall k, j | 0 <= k < n && 0 <= j < |ms| && ms[j] !in top
      ensures ms[j].AverageRating() <= top[k].AverageRating()
    {
      var all := Averages(ms);
      assert all[j] in multiset(ranking);
      var p :| 0 <= p < |ranking| && ranking[p] == all[j];
      assert top[k] == ranking[k].movie;
      PrefixMovies(ranking, n);
      assert ranking[p].movie == ms[j];
      assert n <= p;
    }
  }

  /** Among the first `n` entries of the ranking, movies with equal averages come in list order. */
  lemma TopTiesInListOrder(ms: seq<Movie>, n: nat)
    requires n <= |ms|
    ensures var top := Movies(Ranking(ms)[..n]);
            forall i, j :: 0 <= i < j < n && top[i].AverageRating() == top[j].AverageRating() ==>
              exists p, q :: 0 <= p < q < |ms| && ms[p] == top[i] && ms[q] == top[j]
  {
    var ranking := Ranking(ms);
    var top := Movies(ranking[..n]);
    forall i, j | 0 <= i < j < n && top[i].AverageRating() == top[j].AverageRating()
      ensures exists p, q :: 0 <= p < q < |ms| && ms[p] == top[i] && ms[q] == top[j]
    {
      assert top[i] == ranking[i].movie && top[j] == ranking[j].movie;
      var p, q := ranking[i].position, ranking[j].position;
      assert ms[p] == top[i] && ms[q] == top[j];
    }
  }

  /** A movie left out of the first `n` entries with the same average as one shown comes later
      in the list than the one shown. */
  lemma LeftOutTiesComeLater(ms: seq<Movie>, n: nat)
    requires n <= |ms|
    ensures var top := Movies(Ranking(ms)[..n]);
            forall k, j :: 0 <= k < n && 0 <= j < |ms| && ms[j] !in top
                           && ms[j].AverageRating() == top[k].AverageRating() ==>
              exists p :: 0 <= p < j && ms[p] == top[k]
  {
    var ranking := Ranking(ms);
    var top := Movies(ranking[..n]);
    forall k, j | 0 <= k < n && 0 <= j < |ms| && ms[j] !in top
                  && ms[j].AverageRating() == top[k].AverageRating()
      ensures exists p :: 0 <= p < j && ms[p] == top[k]
    {
      var all := Averages(ms);
      assert all[j] in multiset(ranking);
      var i :| 0 <= i < |ranking| && ranking[i] == all[j];
      PrefixMovies(ranking, n);
      assert ranking[i].movie == ms[j];
      assert n <= i;
      assert top[k] == ranking[k].movie;
      assert ranking[k].position < ranking[i].position;
      assert ms[ranking[k].position] == top[k];
    }
  }

  /** `r`, drawn from the list `ms`, is ranked: averages never increase along it, and no movie
      of the list left out of it has a higher average than one in it. */
  predicate RankedFrom(ms: seq<Movie>, r: seq<Movie>)
    requires forall k :: 0 <= k < |r| ==> r[k] in ms
    reads ms
  {
    && (forall i, j :: 0 <= i < j < |r| ==> r[j].AverageRating() <= r[i].AverageRating())
    && (forall k, j :: 0 <= k < |r| && 0 <= j < |ms| && ms[j] !in r ==>
          ms[j].AverageRating() <= r[k].AverageRating())
  }

  /** Ties in `r`, drawn from the list `ms`, are broken by list order: two movies with equal
      averages appear in `r` as they do in the list, and a movie of the list left out of `r`
      with the same average as one in it comes later in the list. */
  predicate TiesByListOrder(ms: seq<Movie>, r: seq<Movie>)
    requires forall k :: 0 <= k < |r| ==> r[k] in ms
    reads ms
  {
    && (forall i, j :: 0 <= i < j < |r| && r[i].AverageRating() == r[j].AverageRating() ==>
          exists p, q :: 0 <= p < q < |ms| && ms[p] == r[i] && ms[q] == r[j])
    && (forall k, j :: 0 <= k < |r| && 0 <= j < |ms| && ms[j] !in r
                       && ms[j].AverageRating() == r[k].AverageRating() ==>
          exists p :: 0 <= p < j && ms[p] == r[k])
  }

  /** The recommendation view: at most five movies of the list, none more often than there,
      highest average first, no movie left out with a higher average than one shown, and ties
      broken by list order (the sort is stable). */
  function TopRated(ms: seq<Movie>): (r: seq<Movie>)
    reads ms
    ensures |r| == if |ms| < 5 then |ms| else 5
    ensures forall k :: 0 <= k < |r| ==> r[k] in ms
    ensures multiset(r) <= multiset(ms)
    ensures RankedFrom(ms, r)
    ensures TiesByListOrder(ms, r)
  {
    var n := if |ms| < 5 then |ms| else 5;
    var r := Movies(Ranking(ms)[..n]);
    TopShape(ms, n, r);
    TopTies(ms, n, r);
    r
  }

  /** The first `n` entries of the ranking: `n` movies of the list, none more often than there,
      and ranked. */
  lemma TopShape(ms: seq<Movie>, n: nat, r: seq<Movie>)
    requires n <= |ms| && r == Movies(Ranking(ms)[..n])
    ensures |r| == n
    ensures forall k :: 0 <= k < |r| ==> r[k] in ms
    ensures multiset(r) <= multiset(ms)
    ensures RankedFrom(ms, r)
  {
    TopOfRanking(ms, n);
    TopIsSubMultiset(ms, n);
    var ranking := Ranking(ms);
    forall k | 0 <= k < |r| ensures r[k] in ms {
      assert r[k] == ms[ranking[k].position];
    }
  }

  /** The first `n` entries of the ranking break ties by list order. */
  lemma TopTies(ms: seq<Movie>, n: nat, r: seq<Movie>)
    requires n <= |ms| && r == Movies(Ranking(ms)[..n])
    requires forall k :: 0 <= k < |r| ==> r[k] in ms
    ensures TiesByListOrder(ms, r)
  {
    TopTiesInListOrder(ms, n);
    LeftOutTiesComeLater(ms, n);
  }

  /** On the 1..5 scale the rating button enforces. */
  predicate OnScale(ratings: seq<Int32>) {
    forall k :: 0 <= k < |ratings| ==> 1 <= ratings[k] <= 5
  }

  /** A rating between 1 and 5 keeps the ratings on the scale. */
  lemma RatingKeepsOnScale(ratings: seq<Int32>, rating: Int32)
    requires 1 <= rating <= 5
    ensures OnScale(ratings) ==> OnScale(ratings + [rating])
  {
  }

  /** A rated movie whose ratings all came through the rating button has an average on the same
      scale. */
  lemma AverageOnScale(m: MovieValue)
    requires m.ratings != [] && OnScale(m.ratings)
    ensures 1.0 <= Mean(m.ratings) <= 5.0
  {
    MeanWithin(m.ratings, 1, 5);
  }

  // ---------------------------------------------------------------- sign-in

  /** The sign-in button: a blank email is refused; otherwise the user `getUserByEmail` finds for
      the trimmed email, if any, opens the main window. */
  function SignIn(db: Database, emailText: string): (r: Option<User>)
    reads db
    ensures Trim(emailText) == [] ==> r.None?
    ensures r.Some? ==> r.value in db.users && r.value.email == Trim(emailText)
    ensures Trim(emailText) != [] && r.None? ==> forall u :: u in db.users ==> u.email != Trim(emailText)
  {
    var email := Trim(emailText);
    if email == [] then None else db.GetUserByEmail(email)
  }

  /** A registered user signs in with their email, typed with or without surrounding blanks, and
      the window opens for exactly that user. */
  lemma SignInFindsUser(db: Database, emailText: string, u: User)
    requires db.Valid()
    requires u in db.users && u.email != [] && u.email == Trim(emailText)
    ensures SignIn(db, emailText) == Some(u)
  {
    db.EmailIdentifiesUser(u.email, u);
  }

  // ---------------------------------------------------------------- the main window

  class App {
    var movies: seq<Movie>
    const db: Database

    /** The database keeps its constraints, and the list holds every movie object once. */
    ghost predicate Valid()
      reads this, db
    {
      && db.Valid()
      && Distinct(movies)
    }

    /** Opening the main window loads the movie list from the database. */
    constructor (db: Database)
      requires db.Valid()
      ensures this.db == db && Valid()
      ensures |movies| == |db.movies|
      ensures forall i :: 0 <= i < |movies| ==> fresh(movies[i]) && movies[i].View() == Loaded(db.movies[i])
      ensures Distinct(movies)
    {
      var loaded := db.LoadMovies();
      this.db := db;
      this.movies := loaded;
    }

    /** The add button: a movie is added, to the list and to the database, only when the year
        parses and the trimmed title, the trimmed director and the parsed tag list are all
        non-empty; otherwise nothing changes. */
    method AddMovie(titleText: string, directorText: string, yearText: string, tagsText: string)
      returns (added: bool)
      requires Valid()
      modifies this, db
      ensures Valid()
      ensures added <==> ParseMovie(titleText, directorText, yearText, tagsText).Some?
      ensures !added ==> movies == old(movies) && unchanged(db)
      ensures added ==>
                && |movies| == |old(movies)| + 1
                && movies[..|old(movies)|] == old(movies)
                && fresh(movies[|old(movies)|])
                && movies[|old(movies)|].View() == ParseMovie(titleText, directorText, yearText, tagsText).value
                && db.movieSeq == old(db.movieSeq) + 1
                && db.movies == old(db.movies) + [RowFor(db.movieSeq, movies[|old(movies)|].View())]
                && db.users == old(db.users) && db.reviews == old(db.reviews)
                && db.reviewSeq == old(db.reviewSeq)
    {
      var parsed := ParseMovie(titleText, directorText, yearText, tagsText);
      if parsed.None? {
        return false;
      }
      Append(parsed.value);
      added := true;
    }

    /** The accepted half of the add button: a new movie with the parsed fields goes to the end
        of the list and into the database. */
    method Append(v: MovieValue)
      requires Valid()
      requires v.ratings == [] && !v.favorite && v.comments == []
      modifies this, db
      ensures Valid()
      ensures |movies| == |old(movies)| + 1
      ensures movies[..|old(movies)|] == old(movies)
      ensures fresh(movies[|old(movies)|]) && movies[|old(movies)|].View() == v
      ensures db.movieSeq == old(db.movieSeq) + 1
      ensures db.movies == old(db.movies) + [RowFor(db.movieSeq, v)]
      ensures db.users == old(db.users) && db.reviews == old(db.reviews)
      ensures db.reviewSeq == old(db.reviewSeq)
    {
      var m := new Movie(v.title, v.director, v.year, v.tags);
      ghost var view := m.View();
      movies := movies + [m];
      db.AddMovie(m);
      assert m.View() == view;
    }

    /** The delete button: the selection leaves the list (its first occurrence) and the
        database. */
    method DeleteSelected(selected: Movie?)
      requires Valid()
      modifies this, db
      ensures Valid()
      ensures selected == null ==> movies == old(movies) && unchanged(db)
      ensures selected != null ==>
                && movies == RemoveFirst<Movie>(old(movies), selected)
                && db.movies == WithoutKey(old(db.movies), selected.title, selected.director, selected.year)
                && db.reviews == (match old(db.GetMovieId(selected))
                                  case None => old(db.reviews)
                                  case Some(id) => WithoutReviewsOf(old(db.reviews), id))
                && db.users == old(db.users)
                && db.movieSeq == old(db.movieSeq) && db.reviewSeq == old(db.reviewSeq)
    {
      if selected != null {
        RemoveFirstKeepsDistinct<Movie>(movies, selected);
        movies := RemoveFirst<Movie>(movies, selected);
        db.DeleteMovie(selected);
      }
    }

    /** The rating button: a rating that parses and lies in 1..5 is appended to the selection's
        ratings, and the selection's row is replaced by deleting every row with its key (and the
        reviews of the first) and inserting it anew at the end; anything else changes nothing. */
    method Rate(selected: Movie?, ratingText: string) returns (accepted: bool)
      requires Valid()
      modifies selected, db
      ensures Valid()
      ensures accepted <==> selected != null && ParseRating(ratingText).Some?
      ensures !accepted ==> unchanged(db) && (selected != null ==> unchanged(selected))
      ensures accepted ==>
                && selected.View() == old(selected.View()).(ratings := old(selected.ratings) + [ParseRating(ratingText).value])
                && (OnScale(old(selected.ratings)) ==> OnScale(selected.ratings))
                && db.movieSeq == old(db.movieSeq) + 1
                && db.movies == WithoutKey(old(db.movies), selected.title, selected.director, selected.year)
                                + [RowFor(db.movieSeq, selected.View())]
                && db.reviews == (match old(db.GetMovieId(selected))
                                  case None => old(db.reviews)
                                  case Some(id) => WithoutReviewsOf(old(db.reviews), id))
                && db.users == old(db.users)
                && db.reviewSeq == old(db.reviewSeq)
    {
      if selected == null {
        return false;
      }
      var rating := ParseRating(ratingText);
      if rating.None? {
        return false;
      }
      ghost var before := selected.View();
      ghost var id := db.GetMovieId(selected);
      RatingKeepsOnScale(selected.ratings, rating.value);
      selected.ratings := selected.ratings + [rating.value];
      ghost var after := selected.View();
      assert after == before.(ratings := before.ratings + [rating.value]);
      assert db.GetMovieId(selected) == id;
      db.DeleteMovie(selected);
      db.AddMovie(selected);
      assert selected.View() == after;
      accepted := true;
    }

    /** The favourite button: the selection's flag flips, nothing else about it changes, and its
        row is replaced as for a rating (the flag itself has no column). */
    method ToggleFavorite(selected: Movie?)
      requires Valid()
      modifies selected, db
      ensures Valid()
      ensures selected == null ==> unchanged(db)
      ensures selected != null ==>
                && selected.View() == old(selected.View()).(favorite := !old(selected.favorite))
                && db.movieSeq == old(db.movieSeq) + 1
                && db.movies == WithoutKey(old(db.movies), selected.title, selected.director, selected.year)
                                + [RowFor(db.movieSeq, selected.View())]
                && db.reviews == (match old(db.GetMovieId(selected))
                                  case None => old(db.reviews)
                                  case Some(id) => WithoutReviewsOf(old(db.reviews), id))
                && db.users == old(db.users)
                && db.reviewSeq == old(db.reviewSeq)
    {
      if selected != null {
        ghost var id := db.GetMovieId(selected);
        selected.favorite := !selected.favorite;
        ghost var after := selected.View();
        assert db.GetMovieId(selected) == id;
        db.DeleteMovie(selected);
        db.AddMovie(selected);
        assert selected.View() == after;
      }
    }

    /** Pressing the favourite button twice gives the selection back its flag and every other
        field. */
    method ToggleFavoriteTwice(selected: Movie)
      requires Valid()
      modifies selected, db
      ensures Valid()
      ensures selected.View() == old(selected.View())
    {
      ToggleFavorite(selected);
      ToggleFavorite(selected);
    }

    /** The comment button: a comment that is not blank is appended, trimmed, to the selection's
        comments; the database is not touched. */
    method AddComment(selected: Movie?, commentText: string) returns (added: bool)
      modifies selected
      ensures added <==> selected != null && Trim(commentText) != []
      ensures added ==> selected.View() == old(selected.View()).(comments := old(selected.comments) + [Trim(commentText)])
      ensures !added && selected != null ==> unchanged(selected)
    {
      if selected == null || Trim(commentText) == [] {
        return false;
      }
      selected.comments := selected.comments + [Trim(commentText)];
      added := true;
    }

    /** The search button: the list's movies that match the lower-cased query text. */
    function Search(queryText: string): (r: seq<Movie>)
      reads this, movies
      ensures forall k :: 0 <= k < |r| ==> r[k] in movies && Matches(r[k].View(), ToLower(queryText))
      ensures forall k :: 0 <= k < |movies| && Matches(movies[k].View(), ToLower(queryText)) ==> movies[k] in r
      ensures IsSubsequence(r, movies)
    {
      SearchIn(movies, ToLower(queryText))
    }

    /** The recommendation button: the five best-rated movies of the list. */
    function Recommend(): (r: seq<Movie>)
      reads this, movies
      ensures |r| == if |movies| < 5 then |movies| else 5
      ensures forall k :: 0 <= k < |r| ==> r[k] in movies
      ensures multiset(r) <= multiset(movies)
      ensures RankedFrom(movies, r)
      ensures TiesByListOrder(movies, r)
    {
      TopRated(movies)
    }
  }
}
