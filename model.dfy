/**
 * The catalogue's in-memory entities: users, and movies with their ratings, favourite flag and
 * comments, together with the two things a movie computes about itself, its mean rating and the
 * line shown for it in the movie list.
 */
module Model {
  import opened JavaStrings

  /** A registered user. Users are never changed after they are created. */
  datatype User = User(id: Int32, name: string, email: string) {

    /** `id: name (email)`. */
    function ToString(): (r: string)
      ensures StartsWith(r, ValueOf(id) + ": " + name)
    {
      ValueOf(id) + ": " + name + " (" + email + ")"
    }
  }

  /** Everything a movie holds at one moment. */
  datatype MovieValue = MovieValue(
    title: string,
    director: string,
    year: Int32,
    tags: seq<string>,
    ratings: seq<Int32>,
    favorite: bool,
    comments: seq<string>)

  /** A movie of the catalogue; the list handlers change its ratings, comments and favourite flag
      in place. */
  class Movie {
    var title: string
    var director: string
    var year: Int32
    var tags: seq<string>
    var ratings: seq<Int32>
    var favorite: bool
    var comments: seq<string>

    /** A new movie has no ratings, is not a favourite and has no comments. */
    constructor (title: string, director: string, year: Int32, tags: seq<string>)
      ensures View() == MovieValue(title, director, year, tags, [], false, [])
    {
      this.title := title;
      this.director := director;
      this.year := year;
      this.tags := tags;
      this.ratings := [];
      this.favorite := false;
      this.comments := [];
    }

    /** The movie's current fields as a value. */
    function View(): MovieValue
      reads this
    {
      MovieValue(title, director, year, tags, ratings, favorite, comments)
    }

    /** `averageRating()`: 0 without ratings, otherwise the arithmetic mean of the ratings. */
    function AverageRating(): (r: real)
      reads this
      ensures ratings == [] ==> r == 0.0
      ensures ratings != [] ==> r * |ratings| as real == Sum(ratings) as real
    {
      Mean(ratings)
    }

    /** `toString()`: the line shown for the movie in the list. It shows the title, is marked
        when the movie is a favourite, and ends with the average rating to one decimal. */
    function ToString(): (r: string)
      reads this
      ensures Contains(r, title)
      ensures favorite ==> StartsWith(r, FavoriteMark)
      ensures !favorite ==> StartsWith(r, title)
      ensures EndsWith(r, OneDecimal(AverageRating()))
    {
      DisplayMarksFavorites(View());
      DisplayEndsWithMean(View());
      Display(View())
    }
  }

  // ---------------------------------------------------------------- mean rating

  function Sum(xs: seq<int>): int {
    if xs == [] then 0 else Sum(xs[..|xs| - 1]) + xs[|xs| - 1]
  }

  /** The arithmetic mean of the ratings, taken as 0 when there are none. */
  function Mean(xs: seq<int>): (r: real)
    ensures xs == [] ==> r == 0.0
    ensures xs != [] ==> r * |xs| as real == Sum(xs) as real
  {
    if xs == [] then 0.0 else Sum(xs) as real / |xs| as real
  }

  lemma {:induction false} SumWithin(xs: seq<int>, lo: int, hi: int)
    requires forall k :: 0 <= k < |xs| ==> lo <= xs[k] <= hi
    ensures |xs| * lo <= Sum(xs) <= |xs| * hi
  {
    if xs != [] {
      SumWithin(xs[..|xs| - 1], lo, hi);
    }
  }

  /** Ratings that all lie in `lo..hi` have a mean in `lo..hi`; in particular ratings on the
      1..5 scale have a mean on that scale. */
  lemma MeanWithin(xs: seq<int>, lo: int, hi: int)
    requires xs != []
    requires forall k :: 0 <= k < |xs| ==> lo <= xs[k] <= hi
    ensures lo as real <= Mean(xs) <= hi as real
  {
    SumWithin(xs, lo, hi);
    var n := |xs| as real;
    ScaledBounds(|xs|, lo, Sum(xs), hi);
    QuotientBounds(n, lo as real, Sum(xs) as real, hi as real);
  }

  lemma ScaledBounds(n: int, lo: int, s: int, hi: int)
    requires n * lo <= s <= n * hi
    ensures n as real * lo as real <= s as real <= n as real * hi as real
  {
  }

  lemma QuotientBounds(n: real, lo: real, s: real, hi: real)
    requires n > 0.0
    requires n * lo <= s <= n * hi
    ensures lo <= s / n <= hi
  {
  }

  /** The mean of 5, 4 and 3 is 4. */
  lemma MeanExample()
    ensures Mean([5, 4, 3]) == 4.0
  {
    assert Sum([5, 4, 3]) == 12 by {
      assert [5, 4, 3][..2] == [5, 4];
      assert [5, 4][..1] == [5];
      assert [5][..0] == [];
    }
  }

  // ---------------------------------------------------------------- display line

  /** The mark put before the title of a favourite. */
  const Star: char := '\U{2605}'
  const FavoriteMark: string := [Star, ' ']

  /** `String.format("%.1f", x)` taken on the exact value: one decimal, halves rounded away from
      zero. */
  function OneDecimal(x: real): (r: string)
    ensures |r| >= 3 && r[|r| - 2] == '.' && IsDigit(r[|r| - 1])
    ensures x >= 0.0 ==> AllDigits(r[..|r| - 2])
  {
    var magnitude := if x < 0.0 then -x else x;
    var tenths := (magnitude * 10.0 + 0.5).Floor;
    assert tenths >= 0;
    (if x < 0.0 then "-" else "") + DecimalDigits(tenths / 10) + "." + DecimalDigits(tenths % 10)
  }

  /** What follows the title in a movie's line: ` (year), director [tag, tag] ★mean`. */
  function Details(m: MovieValue): string {
    " (" + ValueOf(m.year) + "), " + m.director + " [" + Join(", ", m.tags) + "] "
      + [Star] + OneDecimal(Mean(m.ratings))
  }

  /** `title (year), director [tag, tag] ★mean`, preceded by the favourite mark for a
      favourite. */
  function Display(m: MovieValue): string {
    (if m.favorite then FavoriteMark else "") + m.title + Details(m)
  }

  /** A favourite's line starts with the mark; any other line starts with the title; the title
      always appears. Hence, for a title that does not itself begin with the star, the line starts
      with the mark exactly when the movie is a favourite. */
  lemma DisplayMarksFavorites(m: MovieValue)
    ensures m.favorite ==> StartsWith(Display(m), FavoriteMark)
    ensures !m.favorite ==> StartsWith(Display(m), m.title)
    ensures Contains(Display(m), m.title)
    ensures (m.title == [] || m.title[0] != Star) ==>
              (StartsWith(Display(m), FavoriteMark) <==> m.favorite)
  {
    assert Details(m)[0] == ' ';
    MarkedLine(m.favorite, m.title, Details(m), Display(m));
  }

  /** The shape of a display line, whatever the details after the title say, as long as they
      begin with a blank. */
  lemma MarkedLine(favorite: bool, title: string, details: string, line: string)
    requires details != [] && details[0] == ' '
    requires line == (if favorite then FavoriteMark else "") + title + details
    ensures favorite ==> StartsWith(line, FavoriteMark)
    ensures !favorite ==> StartsWith(line, title)
    ensures Contains(line, title)
    ensures (title == [] || title[0] != Star) ==> (StartsWith(line, FavoriteMark) <==> favorite)
  {
    if favorite {
      FavoriteLine(title, details, line);
    } else {
      PlainLine(title, details, line);
    }
  }

  /** A favourite's line: the mark, then the title. */
  lemma FavoriteLine(title: string, details: string, line: string)
    requires line == FavoriteMark + title + details
    ensures StartsWith(line, FavoriteMark) && Contains(line, title)
  {
    assert line[..2] == FavoriteMark;
    assert line[2..2 + |title|] == title;
    assert OccursAt(line, title, 2);
  }

  /** Any other line: the title first, then a blank. */
  lemma PlainLine(title: string, details: string, line: string)
    requires details != [] && details[0] == ' '
    requires line == title + details
    ensures StartsWith(line, title) && Contains(line, title)
    ensures (title == [] || title[0] != Star) ==> !StartsWith(line, FavoriteMark)
  {
    assert line[..|title|] == title;
    ContainsPrefix(line, title);
    if title == [] {
      assert line[0] == ' ';
    } else {
      assert line[0] == title[0];
    }
  }

  /** Every line ends with the formatted mean rating. */
  lemma DisplayEndsWithMean(m: MovieValue)
    ensures EndsWith(Display(m), OneDecimal(Mean(m.ratings)))
    ensures Contains(Display(m), OneDecimal(Mean(m.ratings)))
  {
    var mean := OneDecimal(Mean(m.ratings));
    var front := " (" + ValueOf(m.year) + "), " + m.director + " [" + Join(", ", m.tags) + "] " + [Star];
    assert Details(m) == front + mean;
    var pre := (if m.favorite then FavoriteMark else "") + m.title;
    var line := Display(m);
    assert line == pre + (front + mean);
    var head := pre + front;
    assert line == head + mean;
    assert line[|head|..] == mean;
    assert OccursAt(line, mean, |head|);
  }

  /** The line of a movie rated once with 5 shows the mean as "5.0". */
  lemma DisplayShowsMean(m: MovieValue)
    requires m.ratings == [5]
    ensures Contains(Display(m), "5.0")
  {
    assert [5][..0] == [];
    assert Mean(m.ratings) == 5.0;
    assert OneDecimal(5.0) == "5.0";
    DisplayEndsWithMean(m);
  }

  /** The user of the example prints as `42: Alice (alice@example.com)`. */
  lemma UserToStringExample()
    ensures User(42, "Alice", "alice@example.com").ToString() == "42: Alice (alice@example.com)"
  {
    assert ValueOf(42) == "42";
  }
}
