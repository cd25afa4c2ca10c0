/**
 * The persistence layer: the `users`, `movies` and `reviews` tables held as sequences of rows
 * in the order the table scan returns them, and the statements the catalogue issues against
 * them. A statement that fails and has its exception swallowed is taken to leave the tables as
 * they were.
 */
module Store {
  import opened Wrappers
  import opened JavaStrings
  import opened ColumnCodec
  import opened Model
  import opened Seqs

  /** A row of `movies`; `tags` and `ratings` are nullable text columns. */
  datatype MovieRow = MovieRow(
    id: int,
    title: string,
    director: string,
    year: Int32,
    tags: Option<string>,
    ratings: Option<string>)

  /** A row of `reviews`. */
  datatype ReviewRow = ReviewRow(id: int, movieId: int, userId: Int32, comment: string)

  /** A row of the review query: a review joined with the user who wrote it. */
  datatype AuthoredReview = AuthoredReview(author: User, review: ReviewRow)

  function MovieRowId(row: MovieRow): int { row.id }
  function ReviewRowId(row: ReviewRow): int { row.id }
  function UserId(u: User): int { u.id }

  /** The natural key by which the catalogue finds a movie's row. */
  predicate HasKey(row: MovieRow, title: string, director: string, year: Int32) {
    row.title == title && row.director == director && row.year == year
  }

  // ---------------------------------------------------------------- row <-> movie

  /** The row `INSERT INTO movies` writes for a movie under the given id. Neither the favourite
      flag nor the comments have a column. */
  function RowFor(id: int, m: MovieValue): (r: MovieRow)
    ensures r.id == id && HasKey(r, m.title, m.director, m.year)
    ensures r.tags.Some? && DecodeRatings(r.ratings) == m.ratings
  {
    RatingsRoundTrip(m.ratings);
    MovieRow(id, m.title, m.director, m.year, Some(EncodeTags(m.tags)), Some(EncodeRatings(m.ratings)))
  }

  /** The movie loaded from a row: its columns decoded, not a favourite, no comments. */
  function Loaded(row: MovieRow): (m: MovieValue)
    ensures !m.favorite && m.comments == []
    ensures m.title == row.title && m.director == row.director && m.year == row.year
  {
    MovieValue(row.title, row.director, row.year, DecodeTags(row.tags), DecodeRatings(row.ratings), false, [])
  }

  /** Writing a movie and loading it back gives the same movie, except that it is no longer a
      favourite and has lost its comments, provided its tags survive the `tags` column. */
  lemma {:induction false} ReloadForgetsFavoriteAndComments(id: int, m: MovieValue)
    requires m.tags != [] && m.tags[|m.tags| - 1] != []
    requires forall k :: 0 <= k < |m.tags| ==> Trimmed(m.tags[k]) && ',' !in m.tags[k]
    ensures Loaded(RowFor(id, m)) == m.(favorite := false, comments := [])
  {
    TagsRoundTrip(m.tags);
    RatingsRoundTrip(m.ratings);
  }

  // ---------------------------------------------------------------- queries as functions

  /** Index of the first row with the key, in table order. */
  function FirstWithKey(rows: seq<MovieRow>, title: string, director: string, year: Int32): (r: Option<nat>)
    ensures r.None? ==> forall i :: 0 <= i < |rows| ==> !HasKey(rows[i], title, director, year)
    ensures r.Some? ==> r.value < |rows| && HasKey(rows[r.value], title, director, year)
    ensures r.Some? ==> forall i :: 0 <= i < r.value ==> !HasKey(rows[i], title, director, year)
  {
    if rows == [] then None
    else if HasKey(rows[0], title, director, year) then Some(0)
    else
      match FirstWithKey(rows[1..], title, director, year)
      case None => None
      case Some(i) => Some(i + 1)
  }

  /** `DELETE FROM movies WHERE title = ? AND director = ? AND year = ?`. */
  function WithoutKey(rows: seq<MovieRow>, title: string, director: string, year: Int32): (r: seq<MovieRow>)
    ensures forall k :: 0 <= k < |r| ==> r[k] in rows && !HasKey(r[k], title, director, year)
    ensures forall k :: 0 <= k < |rows| && !HasKey(rows[k], title, director, year) ==> rows[k] in r
    ensures IsSubsequence(r, rows)
  {
    Filter((row: MovieRow) => !HasKey(row, title, director, year), rows)
  }

  /** `DELETE FROM reviews WHERE movie_id = ?`. */
  function WithoutReviewsOf(reviews: seq<ReviewRow>, movieId: int): (r: seq<ReviewRow>)
    ensures forall k :: 0 <= k < |r| ==> r[k] in reviews && r[k].movieId != movieId
    ensures forall k :: 0 <= k < |reviews| && reviews[k].movieId != movieId ==> reviews[k] in r
    ensures IsSubsequence(r, reviews)
  {
    Filter((r: ReviewRow) => r.movieId != movieId, reviews)
  }

  lemma WithoutKeyIncreasing(rows: seq<MovieRow>, title: string, director: string, year: Int32)
    requires StrictlyIncreasing(rows, MovieRowId)
    ensures StrictlyIncreasing(WithoutKey(rows, title, director, year), MovieRowId)
  {
    var keep := (row: MovieRow) => !HasKey(row, title, director, year);
    assert WithoutKey(rows, title, director, year) == Filter(keep, rows);
    FilterKeepsIncreasing(keep, rows, MovieRowId);
  }

  lemma WithoutReviewsOfIncreasing(reviews: seq<ReviewRow>, movieId: int)
    requires StrictlyIncreasing(reviews, ReviewRowId)
    ensures StrictlyIncreasing(WithoutReviewsOf(reviews, movieId), ReviewRowId)
  {
    var keep := (r: ReviewRow) => r.movieId != movieId;
    assert WithoutReviewsOf(reviews, movieId) == Filter(keep, reviews);
    FilterKeepsIncreasing(keep, reviews, ReviewRowId);
  }

  /** `UPDATE movies SET ratings = ? WHERE id = ?`. */
  function WithRatings(rows: seq<MovieRow>, id: int, column: Option<string>): (r: seq<MovieRow>)
    ensures |r| == |rows|
  {
    seq(|rows|, i requires 0 <= i < |rows| =>
      if rows[i].id == id then rows[i].(ratings := column) else rows[i])
  }

  /** `INSERT INTO users`: `id` is the table's INTEGER PRIMARY KEY, that is its rowid, so the new
      row takes its place in id order, in front of the first user with a larger id. */
  function InsertById(users: seq<User>, u: User): (r: seq<User>)
    ensures |r| == |users| + 1
    ensures multiset(r) == multiset(users) + multiset{u}
  {
    if users == [] || u.id < users[0].id then [u] + users
    else
      assert users == [users[0]] + users[1..];
      [users[0]] + InsertById(users[1..], u)
  }

  /** Every user of the result is the new one or was there before. */
  lemma InsertedMembers(users: seq<User>, u: User)
    ensures forall v :: v in InsertById(users, u) ==> v in users || v == u
  {
    var r := InsertById(users, u);
    forall v | v in r ensures v in users || v == u {
      assert v in multiset(r);
    }
  }

  /** The new user lands between the users with smaller or equal ids and those with larger ones,
      the others keeping their order. */
  lemma {:induction false} InsertByIdPosition(users: seq<User>, u: User) returns (i: nat)
    ensures i <= |users| && InsertById(users, u) == users[..i] + [u] + users[i..]
    ensures forall k :: 0 <= k < i ==> users[k].id <= u.id
    ensures i < |users| ==> u.id < users[i].id
  {
    if users == [] || u.id < users[0].id {
      i := 0;
      assert InsertById(users, u) == users[..0] + [u] + users[0..];
    } else {
      var t := users[1..];
      var j := InsertByIdPosition(t, u);
      InsertBehindHead(users, u, j);
      assert InsertById(users, u) == [users[0]] + InsertById(t, u);
      i := j + 1;
    }
  }

  /** One step of the position proof: a head that stays in front shifts the position by one. */
  lemma InsertBehindHead(users: seq<User>, u: User, i: nat)
    requires users != [] && users[0].id <= u.id && i <= |users| - 1
    requires forall k :: 0 <= k < i ==> users[1..][k].id <= u.id
    requires i < |users| - 1 ==> u.id < users[1..][i].id
    ensures [users[0]] + (users[1..][..i] + [u] + users[1..][i..]) == users[..i + 1] + [u] + users[i + 1..]
    ensures forall k :: 0 <= k < i + 1 ==> users[k].id <= u.id
    ensures i + 1 < |users| ==> u.id < users[i + 1].id
  {
    var t := users[1..];
    assert users[..i + 1] == [users[0]] + t[..i];
    assert users[i + 1..] == t[i..];
    forall k | 0 < k < i + 1 ensures users[k].id <= u.id {
      assert users[k] == t[k - 1];
    }
  }

  /** Users in increasing id order stay so when one with a new id is inserted. */
  lemma {:induction false} InsertKeepsIncreasing(users: seq<User>, u: User)
    requires StrictlyIncreasing(users, UserId)
    requires forall v :: v in users ==> v.id != u.id
    ensures StrictlyIncreasing(InsertById(users, u), UserId)
  {
    if users != [] && u.id >= users[0].id {
      var t := users[1..];
      InsertKeepsIncreasing(t, u);
      InsertedMembers(t, u);
      HeadBelowTail(users);
      var r := InsertById(users, u);
      var rest := InsertById(t, u);
      assert r == [users[0]] + rest;
      forall k | 0 < k < |r| ensures users[0].id < r[k].id {
        assert r[k] == rest[k - 1] && r[k] in rest;
      }
    }
  }

  /** The first of users in increasing id order has the smallest id. */
  lemma HeadBelowTail(users: seq<User>)
    requires users != [] && StrictlyIncreasing(users, UserId)
    ensures forall v :: v in users[1..] ==> users[0].id < v.id
  {
    forall v | v in users[1..] ensures users[0].id < v.id {
      var j :| 0 <= j < |users[1..]| && users[1..][j] == v;
      assert users[j + 1] == v;
    }
  }

  /** No two users share an email (the UNIQUE constraint). */
  predicate DistinctEmails(users: seq<User>) {
    forall i, j :: 0 <= i < j < |users| ==> users[i].email != users[j].email
  }

  /** Inserting a user with a new email keeps the emails distinct. */
  lemma {:induction false} InsertKeepsEmailsDistinct(users: seq<User>, u: User)
    requires DistinctEmails(users)
    requires forall v :: v in users ==> v.email != u.email
    ensures DistinctEmails(InsertById(users, u))
  {
    var r := InsertById(users, u);
    if users == [] || u.id < users[0].id {
      forall j | 0 < j < |r| ensures r[0].email != r[j].email {
        assert r[j] == users[j - 1];
      }
    } else {
      var t := users[1..];
      InsertKeepsEmailsDistinct(t, u);
      InsertedMembers(t, u);
      HeadEmailUnique(users);
      var rest := InsertById(t, u);
      assert r == [users[0]] + rest;
      forall j | 0 < j < |r| ensures r[0].email != r[j].email {
        assert r[j] == rest[j - 1] && r[j] in rest;
      }
    }
  }

  /** The first user's email is not the email of any later one. */
  lemma HeadEmailUnique(users: seq<User>)
    requires users != [] && DistinctEmails(users)
    ensures forall v :: v in users[1..] ==> users[0].email != v.email
  {
    forall v | v in users[1..] ensures users[0].email != v.email {
      var j :| 0 <= j < |users[1..]| && users[1..][j] == v;
      assert users[j + 1] == v;
    }
  }

  /** A user whose id is above every present one goes at the end. */
  lemma {:induction false} InsertAboveAll(users: seq<User>, u: User)
    requires forall v :: v in users ==> v.id < u.id
    ensures InsertById(users, u) == users + [u]
  {
    if users != [] {
      InsertAboveAll(users[1..], u);
      assert users == [users[0]] + users[1..];
    }
  }

  /** The first user, in rowid order, that satisfies `p`: what a `SELECT ... LIMIT 1` over users
      returns. */
  function FirstUser(users: seq<User>, p: User -> bool): (r: Option<User>)
    ensures r.Some? ==> r.value in users && p(r.value)
    ensures r.None? ==> forall u :: u in users ==> !p(u)
  {
    if users == [] then None
    else if p(users[0]) then Some(users[0])
    else FirstUser(users[1..], p)
  }

  /** The user with the id (the join partner of a review). */
  function UserWithId(users: seq<User>, id: Int32): (r: Option<User>)
    ensures r.Some? ==> r.value in users && r.value.id == id
    ensures r.None? ==> forall u :: u in users ==> u.id != id
  {
    FirstUser(users, (u: User) => u.id == id)
  }

  /** The user with the email. */
  function UserWithEmail(users: seq<User>, email: string): (r: Option<User>)
    ensures r.Some? ==> r.value in users && r.value.email == email
    ensures r.None? ==> forall u :: u in users ==> u.email != email
  {
    FirstUser(users, (u: User) => u.email == email)
  }

  /** `SELECT COUNT(*) FROM users WHERE email = ?`. */
  function CountWithEmail(users: seq<User>, email: string): (n: nat)
    ensures n > 0 <==> exists u :: u in users && u.email == email
  {
    if users == [] then 0
    else
      assert forall u :: u in users <==> u == users[0] || u in users[1..];
      (if users[0].email == email then 1 else 0) + CountWithEmail(users[1..], email)
  }

  /** `SELECT MAX(id) FROM users`, read with `getInt`, so that the NULL of an empty table is 0. */
  function MaxUserId(users: seq<User>): (r: int)
    ensures users == [] ==> r == 0
    ensures forall u :: u in users ==> u.id <= r
    ensures users != [] ==> exists u :: u in users && u.id == r
  {
    if users == [] then 0
    else if |users| == 1 then users[0].id
    else
      var rest := MaxUserId(users[1..]);
      assert forall u :: u in users <==> u == users[0] || u in users[1..];
      if users[0].id >= rest then users[0].id else rest
  }

  /** The review query of a movie: its reviews that have an author, newest first (the table holds
      them oldest first, so the oldest of `reviews` goes last). */
  function NewestFirst(reviews: seq<ReviewRow>, users: seq<User>, movieId: int): seq<AuthoredReview> {
    if reviews == [] then []
    else
      var r := reviews[0];
      var here := if r.movieId != movieId then []
        else match UserWithId(users, r.userId)
          case None => []
          case Some(u) => [AuthoredReview(u, r)];
      NewestFirst(reviews[1..], users, movieId) + here
  }

  /** The lines shown for reviews: `name: comment`. */
  function ReviewLines(rs: seq<AuthoredReview>): (lines: seq<string>)
    ensures |lines| == |rs|
  {
    seq(|rs|, i requires 0 <= i < |rs| => rs[i].author.name + ": " + rs[i].review.comment)
  }

  /** The review query returns exactly the reviews of the movie whose author exists, joined with
      that author. */
  lemma {:induction false} NewestFirstSelects(reviews: seq<ReviewRow>, users: seq<User>, movieId: int, a: AuthoredReview)
    ensures a in NewestFirst(reviews, users, movieId) <==>
              a.review in reviews && a.review.movieId == movieId && UserWithId(users, a.review.userId) == Some(a.author)
  {
    if reviews != [] {
      NewestFirstSelects(reviews[1..], users, movieId, a);
      assert a.review in reviews <==> a.review == reviews[0] || a.review in reviews[1..];
    }
  }

  /** When the table holds the reviews in increasing id order, the review query returns them in
      decreasing id order. */
  lemma {:induction false} NewestFirstDescending(reviews: seq<ReviewRow>, users: seq<User>, movieId: int)
    requires StrictlyIncreasing(reviews, ReviewRowId)
    ensures var rs := NewestFirst(reviews, users, movieId);
            forall i, j :: 0 <= i < j < |rs| ==> rs[i].review.id > rs[j].review.id
  {
    if reviews != [] {
      var tail := reviews[1..];
      assert StrictlyIncreasing(tail, ReviewRowId) by {
        forall i, j | 0 <= i < j < |tail| ensures ReviewRowId(tail[i]) < ReviewRowId(tail[j]) {
          assert tail[i] == reviews[i + 1] && tail[j] == reviews[j + 1];
        }
      }
      NewestFirstDescending(tail, users, movieId);
      var front := NewestFirst(tail, users, movieId);
      forall k | 0 <= k < |front| ensures front[k].review.id > reviews[0].id {
        NewestFirstSelects(tail, users, movieId, front[k]);
        var j :| 0 <= j < |tail| && tail[j] == front[k].review;
        assert ReviewRowId(reviews[0]) < ReviewRowId(reviews[j + 1]);
      }
    }
  }

  lemma {:induction false} ReviewLinesAppend(a: seq<AuthoredReview>, b: seq<AuthoredReview>)
    ensures ReviewLines(a + b) == ReviewLines(a) + ReviewLines(b)
  {
  }

  /** Two rows sharing a natural key: deleting by the key removes both rows but only the reviews
      of the first, so a review of the second outlives its movie. */
  lemma DuplicateKeyOrphansReview()
    ensures var rows := [MovieRow(1, "Dune", "Villeneuve", 2021, None, None),
                         MovieRow(2, "Dune", "Villeneuve", 2021, None, None)];
            var reviews := [ReviewRow(1, 2, 7, "great")];
            FirstWithKey(rows, "Dune", "Villeneuve", 2021) == Some(0)
            && WithoutKey(rows, "Dune", "Villeneuve", 2021) == []
            && WithoutReviewsOf(reviews, rows[0].id) == reviews
  {
    var rows := [MovieRow(1, "Dune", "Villeneuve", 2021, None, None),
                 MovieRow(2, "Dune", "Villeneuve", 2021, None, None)];
    var reviews := [ReviewRow(1, 2, 7, "great")];
    assert rows[1..][1..] == [];
    assert reviews[1..] == [];
  }

  // ---------------------------------------------------------------- the database

  class Database {
    var users: seq<User>
    var movies: seq<MovieRow>
    var reviews: seq<ReviewRow>
    /** The largest id ever given out by AUTOINCREMENT in `movies` and in `reviews`. */
    var movieSeq: int
    var reviewSeq: int

    /** The table constraints: users are kept in the order of their ids (the PRIMARY KEY, hence
        the rowid) and no two share an email (UNIQUE); movie and review ids are handed out in
        increasing order and never above the counters. */
    ghost predicate Valid()
      reads this
    {
      && StrictlyIncreasing(users, UserId)
      && DistinctEmails(users)
      && StrictlyIncreasing(movies, MovieRowId)
      && (forall i :: 0 <= i < |movies| ==> movies[i].id <= movieSeq)
      && StrictlyIncreasing(reviews, ReviewRowId)
      && (forall i :: 0 <= i < |reviews| ==> reviews[i].id <= reviewSeq)
    }

    /** A database whose three tables were just created. */
    constructor ()
      ensures Valid()
      ensures users == [] && movies == [] && reviews == []
    {
      users, movies, reviews := [], [], [];
      movieSeq, reviewSeq := 0, 0;
    }

    /** `loadUsers`: every user, in table order. */
    method LoadUsers() returns (loaded: seq<User>)
      ensures loaded == users
    {
      loaded := [];
      var i := 0;
      while i < |users|
        invariant 0 <= i <= |users|
        invariant loaded == users[..i]
      {
        loaded := loaded + [users[i]];
        i := i + 1;
      }
    }

    /** `getMovieId`: the id of the first row with the movie's title, director and year, or
        `None` when there is none. */
    function GetMovieId(m: Movie): (r: Option<int>)
      reads this, m
      ensures r.None? <==> forall i :: 0 <= i < |movies| ==> !HasKey(movies[i], m.title, m.director, m.year)
      ensures r.Some? ==> exists i :: 0 <= i < |movies| && movies[i].id == r.value
                            && HasKey(movies[i], m.title, m.director, m.year)
                            && forall j :: 0 <= j < i ==> !HasKey(movies[j], m.title, m.director, m.year)
    {
      match FirstWithKey(movies, m.title, m.director, m.year)
      case None => None
      case Some(i) => Some(movies[i].id)
    }

    /** `loadMovies`: one new movie per row, in table order, with its tags and ratings decoded;
        none is a favourite and none has comments. */
    method LoadMovies() returns (loaded: seq<Movie>)
      ensures |loaded| == |movies|
      ensures forall i :: 0 <= i < |loaded| ==> fresh(loaded[i]) && loaded[i].View() == Loaded(movies[i])
      ensures Distinct(loaded)
    {
      var values := DecodeRows(movies);
      loaded := NewMovies(values);
    }

    /** The decoding half of the `loadMovies` loop: every row's columns decoded, in order. */
    static method DecodeRows(rows: seq<MovieRow>) returns (values: seq<MovieValue>)
      ensures values == Map(Loaded, rows)
    {
      values := [];
      for i := 0 to |rows|
        invariant values == Map(Loaded, rows[..i])
      {
        var ratings := ReadRatings(rows[i].ratings);
        var v := MovieValue(rows[i].title, rows[i].director, rows[i].year, DecodeTags(rows[i].tags), ratings, false, []);
        assert rows[..i + 1][..i] == rows[..i];
        values := values + [v];
      }
      assert rows[..|rows|] == rows;
    }

    /** The allocating half of the `loadMovies` loop: `new Movie(title, director, year, tags)`
        for every value, with its ratings assigned. */
    static method NewMovies(values: seq<MovieValue>) returns (loaded: seq<Movie>)
      requires forall i :: 0 <= i < |values| ==> !values[i].favorite && values[i].comments == []
      ensures |loaded| == |values|
      ensures forall i :: 0 <= i < |loaded| ==> fresh(loaded[i]) && loaded[i].View() == values[i]
      ensures Distinct(loaded)
    {
      loaded := [];
      for i := 0 to |values|
        invariant |loaded| == i
        invariant forall k :: 0 <= k < i ==> fresh(loaded[k]) && loaded[k].View() == values[k]
        invariant Distinct(loaded)
      {
        var v := values[i];
        var m := new Movie(v.title, v.director, v.year, v.tags);
        m.ratings := v.ratings;
        loaded := loaded + [m];
      }
    }

    /** `loadReviews`: the `name: comment` lines of the movie's reviews, newest first; none when
        the movie has no row. */
    method LoadReviews(m: Movie) returns (lines: seq<string>)
      ensures GetMovieId(m).None? ==> lines == []
      ensures GetMovieId(m).Some? ==> lines == ReviewLines(NewestFirst(reviews, users, GetMovieId(m).value))
    {
      lines := [];
      var movieId := GetMovieId(m);
      if movieId.None? {
        return;
      }
      var id := movieId.value;
      var i := |reviews|;
      while i > 0
        invariant 0 <= i <= |reviews|
        invariant lines == ReviewLines(NewestFirst(reviews[i..], users, id))
      {
        i := i - 1;
        var r := reviews[i];
        assert reviews[i..][1..] == reviews[i + 1..];
        var here: seq<AuthoredReview> := [];
        if r.movieId == id {
          match UserWithId(users, r.userId) {
            case Some(u) =>
              here := [AuthoredReview(u, r)];
              lines := lines + [u.name + ": " + r.comment];
            case None =>
          }
        }
        ReviewLinesAppend(NewestFirst(reviews[i + 1..], users, id), here);
      }
      assert reviews[0..] == reviews;
    }

    /** `addUser`: the user is inserted in id order unless its id or its email is already taken,
        in which case the insert fails and nothing changes. */
    method AddUser(u: User)
      requires Valid()
      modifies this
      ensures Valid()
      ensures (exists v :: v in old(users) && (v.id == u.id || v.email == u.email)) ==> users == old(users)
      ensures (forall v :: v in old(users) ==> v.id != u.id && v.email != u.email) ==> users == InsertById(old(users), u)
      ensures movies == old(movies) && reviews == old(reviews)
      ensures movieSeq == old(movieSeq) && reviewSeq == old(reviewSeq)
    {
      if UserWithId(users, u.id).Some? || CountWithEmail(users, u.email) > 0 {
        return;
      }
      InsertKeepsIncreasing(users, u);
      InsertKeepsEmailsDistinct(users, u);
      users := InsertById(users, u);
    }

    /** `addMovie`: one new row at the end, under the next AUTOINCREMENT id. */
    method AddMovie(m: Movie)
      requires Valid()
      modifies this
      ensures Valid()
      ensures movieSeq == old(movieSeq) + 1
      ensures movies == old(movies) + [RowFor(movieSeq, m.View())]
      ensures users == old(users) && reviews == old(reviews) && reviewSeq == old(reviewSeq)
    {
      movieSeq := movieSeq + 1;
      movies := movies + [RowFor(movieSeq, m.View())];
    }

    /** `deleteMovie`: the reviews of the first row with the movie's key go, then every row with
        that key. */
    method DeleteMovie(m: Movie)
      requires Valid()
      modifies this
      ensures Valid()
      ensures movies == WithoutKey(old(movies), m.title, m.director, m.year)
      ensures reviews == match old(GetMovieId(m))
                         case None => old(reviews)
                         case Some(id) => WithoutReviewsOf(old(reviews), id)
      ensures users == old(users) && movieSeq == old(movieSeq) && reviewSeq == old(reviewSeq)
    {
      var movieId := GetMovieId(m);
      if movieId.Some? {
        WithoutReviewsOfIncreasing(reviews, movieId.value);
        reviews := WithoutReviewsOf(reviews, movieId.value);
      }
      WithoutKeyIncreasing(movies, m.title, m.director, m.year);
      movies := WithoutKey(movies, m.title, m.director, m.year);
    }

    /** `updateMovieRatings`: only the `ratings` column of the first row with the movie's key
        changes; nothing changes when no row has the key. */
    method UpdateMovieRatings(m: Movie)
      requires Valid()
      modifies this
      ensures Valid()
      ensures |movies| == |old(movies)|
      ensures forall i :: 0 <= i < |movies| ==>
                movies[i] == if old(FirstWithKey(movies, m.title, m.director, m.year)) == Some(i)
                             then old(movies[i]).(ratings := Some(EncodeRatings(m.ratings)))
                             else old(movies[i])
      ensures users == old(users) && reviews == old(reviews)
      ensures movieSeq == old(movieSeq) && reviewSeq == old(reviewSeq)
    {
      var first := FirstWithKey(movies, m.title, m.director, m.year);
      var movieId := GetMovieId(m);
      if movieId.None? {
        return;
      }
      var old_movies := movies;
      movies := WithRatings(movies, movieId.value, Some(EncodeRatings(m.ratings)));
      forall i | 0 <= i < |movies|
        ensures (old_movies[i].id == movieId.value) == (first == Some(i))
      {
        if i != first.value {
          if i < first.value {
            assert MovieRowId(old_movies[i]) < MovieRowId(old_movies[first.value]);
          } else {
            assert MovieRowId(old_movies[first.value]) < MovieRowId(old_movies[i]);
          }
        }
      }
      assert StrictlyIncreasing(movies, MovieRowId) by {
        forall i, j | 0 <= i < j < |movies| ensures MovieRowId(movies[i]) < MovieRowId(movies[j]) {
          assert MovieRowId(old_movies[i]) < MovieRowId(old_movies[j]);
        }
      }
    }

    /** `addReview`: a review of the first row with the movie's key, under the next
        AUTOINCREMENT id; nothing when no row has the key. */
    method AddReview(m: Movie, u: User, comment: string)
      requires Valid()
      modifies this
      ensures Valid()
      ensures old(GetMovieId(m)).None? ==> reviews == old(reviews) && reviewSeq == old(reviewSeq)
      ensures old(GetMovieId(m)).Some? ==>
                reviewSeq == old(reviewSeq) + 1
                && reviews == old(reviews) + [ReviewRow(reviewSeq, old(GetMovieId(m)).value, u.id, comment)]
      ensures users == old(users) && movies == old(movies) && movieSeq == old(movieSeq)
    {
      var movieId := GetMovieId(m);
      if movieId.None? {
        return;
      }
      reviewSeq := reviewSeq + 1;
      reviews := reviews + [ReviewRow(reviewSeq, movieId.value, u.id, comment)];
    }

    /** `getMaxUserId`: the largest user id, 0 for an empty table. */
    function GetMaxUserId(): (r: int)
      reads this
      ensures users == [] ==> r == 0
      ensures forall u :: u in users ==> u.id <= r
      ensures users != [] ==> exists u :: u in users && u.id == r
    {
      MaxUserId(users)
    }

    /** `isEmailExists`: some user has the email, which is when `getUserByEmail` finds one. */
    function IsEmailExists(email: string): (r: bool)
      reads this
      ensures r <==> exists u :: u in users && u.email == email
      ensures r <==> GetUserByEmail(email).Some?
    {
      CountWithEmail(users, email) > 0
    }

    /** `getUserByEmail`: a user with the email, or `None` when there is none. */
    function GetUserByEmail(email: string): (r: Option<User>)
      reads this
      ensures r.Some? ==> r.value in users && r.value.email == email
      ensures r.None? <==> forall u :: u in users ==> u.email != email
    {
      UserWithEmail(users, email)
    }

    /** Emails are unique, so the user `getUserByEmail` returns is the only one with the email. */
    lemma EmailIdentifiesUser(email: string, u: User)
      requires Valid()
      requires u in users && u.email == email
      ensures GetUserByEmail(email) == Some(u)
    {
      var found := GetUserByEmail(email).value;
      var i :| 0 <= i < |users| && users[i] == found;
      var j :| 0 <= j < |users| && users[j] == u;
      if i < j {
        assert users[i].email != users[j].email;
      } else if j < i {
        assert users[j].email != users[i].email;
      }
    }
  }
}
