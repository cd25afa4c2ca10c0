# KinoFlix movie catalogue, modelled in Dafny

KinoFlix is a JavaFX desktop catalogue of movies backed by SQLite. Once users have signed in, they
can add and delete movies, rate them on a 1..5 scale, mark favourites, attach comments, search the
list, and ask for the five best-rated movies. This project models the logic underneath the windows.
It has seven modules.

- `Wrappers` (`wrappers.dfy`): the `Option` type. It stands for Java's `null`, and for a parse
  that throws `NumberFormatException`.
- `JavaStrings` (`java_strings.dfy`): the Java library behaviour the catalogue depends on, with
  its edge cases written out.
  - `trim` strips every character up to the space.
  - `split(",")` drops trailing empty pieces, but `"".split(",")` is `[""]`.
  - `String.join`.
  - `Integer.parseInt` takes an optional sign and needs the value in the 32-bit range. It does not
    skip blanks.
  - `String.valueOf(int)`.
  - `toLowerCase` and `contains`.
- `ColumnCodec` (`column_codec.dfy`): a movie's tag list and rating list are flattened into the
  `tags` and `ratings` text columns and read back. This module holds that encoder/decoder pair,
  with the reading loop of `loadMovies`, and its round-trip properties.
- `Model` (`model.dfy`): `User`, and `Movie` as a class whose fields the handlers update in
  place. It also holds the mean rating, and the line shown for a movie in the list with its
  favourite mark.
- `Seqs` (`seqs.dfy`):
  - order-preserving filtering, which underlies both SQL `DELETE … WHERE` and the stream filters;
  - subsequences;
  - `List.remove(Object)`.
- `Store` (`store.dfy`): the `users`, `movies` and `reviews` tables as sequences of rows held by a
  `Database` class. Every statement of `DatabaseManager` is one of its methods or functions.
  - AUTOINCREMENT ids come from counters.
  - `Valid()` holds the table constraints: users in increasing id order (the id is the rowid),
    unique emails, and increasing movie and review ids.
  - Each method states its whole new state.
- `Catalogue` (`catalogue.dfy`): the main window's in-memory movie list as the class `App`.
  - Its methods are the add, delete, rate, favourite and comment buttons.
  - Its functions are the search and recommendation views.
  - It also holds the tag-input parser and a stable sort by average rating.

A handler's target is the list's current selection, passed in as a `Movie?` parameter. `null`
stands for "nothing selected". A `SQLException` that `DatabaseManager` catches and prints is
taken to leave the tables as they were.

What the model shows about the program:
- Rating a movie or toggling its favourite flag persists it by deleting its row and inserting a
  new one.
  - So the movie gets a new id.
  - The reviews of the first row with its title, director and year are deleted.
  - Those of any other row with that key are orphaned (`Store.DuplicateKeyOrphansReview`).
- The favourite flag and the comments have no column, so they are lost on the next load
  (`Store.ReloadForgetsFavoriteAndComments`).
- An empty tag list is written as `""` and comes back as one empty tag
  (`ColumnCodec.EmptyTagsComeBackAsOneEmptyTag`).
- The add button never stores an empty tag list (`Catalogue.ParsedTagsSurviveStore`).

## Model

| member | source | states |
|---|---|---|
| `JavaStrings.Trim` | HelloApplication.java:236-237 | the result is the input with the runs of characters at or below the space cut off both ends: a slice `s[i..j]` with only such characters before `i` and after `j`, itself without such a character at either end; a string already trimmed comes back unchanged, so trimming is idempotent |
| `JavaStrings.ToLower` | HelloApplication.java:309 | lower-casing keeps the length |
| `JavaStrings.ContainsPrefix` | HelloApplication.java:310-312 | a string contains each of its prefixes |
| `JavaStrings.Split` | DatabaseManager.java:113 | every piece of `split(",")` is free of commas |
| `JavaStrings.Join` | DatabaseManager.java:187 | joining a single piece gives the piece itself |
| `JavaStrings.SplitJoinOfSeveral` | DatabaseManager.java:187 | with two pieces or more, splitting their comma-join gives them back when the last is non-empty |
| `JavaStrings.SplitJoin` | DatabaseManager.java:187 | splitting the comma-join of comma-free pieces gives them back, provided the last piece is non-empty or there is only one |
| `JavaStrings.SplitEmpty` | DatabaseManager.java:113 | `"".split(",")` is `[""]`, not the empty array |
| `JavaStrings.ValueOf` | DatabaseManager.java:188 | the decimal form of an int is non-empty and comma-free |
| `JavaStrings.ParseInt` | DatabaseManager.java:123 | what `parseInt` accepts is non-empty, trimmed, comma-free and ends in a digit (which values it gives and what it refuses: `ParseValueOf`, `ParseOutOfRange`, `ParseRejectsNonDigit`, `ParseNeedsDigit`) |
| `JavaStrings.ParseDigits` | DatabaseManager.java:123 | a run of digits within range parses to the number it denotes, with or without a leading `+`, and to its negation after a `-` |
| `JavaStrings.ParseOtherForms` | DatabaseManager.java:123 | texts `String.valueOf` never writes, such as `"007"` and `"+5"`, still parse |
| `JavaStrings.ParseValueOf` | DatabaseManager.java:188 | `parseInt(String.valueOf(i)) == i` for every 32-bit `i` |
| `JavaStrings.ParseOutOfRange` | DatabaseManager.java:123 | the decimal text of a number outside the 32-bit range does not parse |
| `JavaStrings.ParseRejectsNonDigit` | DatabaseManager.java:123 | a text with a character other than a digit, other than a sign in front, does not parse |
| `JavaStrings.ParseNeedsDigit` | DatabaseManager.java:123 | a text without any digit, such as `""`, `"-"` or `"+"`, does not parse |
| `JavaStrings.ParseRejectsBlank` | HelloApplication.java:238 | `parseInt(" 5")` fails and `parseInt("5")` is 5, which is why the handlers trim before parsing |
| `ColumnCodec.EncodeRatings` | DatabaseManager.java:188 | the `ratings` column is the empty text exactly when there are no ratings |
| `ColumnCodec.EncodeTags` | DatabaseManager.java:187 | for a non-empty list of comma-free tags, cutting the column at its commas gives the tags back |
| `ColumnCodec.ParsedRatingTexts` | DatabaseManager.java:121-125 | parsing the decimal text of every rating, piece by piece, gives the ratings back, in order |
| `ColumnCodec.ValuesParseBack` | DatabaseManager.java:121-125 | every rating written in decimal parses back to itself |
| `ColumnCodec.TrimAll` | DatabaseManager.java:121-125 | one piece per piece, each trimmed and comma-free when its source was; pieces already trimmed come back unchanged |
| `ColumnCodec.DecodeTags` | DatabaseManager.java:112-116 | a NULL column gives no tags; every tag read back is trimmed and comma-free |
| `ColumnCodec.DecodeRatings` | DatabaseManager.java:118-126 | a NULL or empty column gives no ratings |
| `ColumnCodec.ReadRatings` | DatabaseManager.java:118-126 | the loop over the comma pieces builds exactly the decoded rating list |
| `ColumnCodec.ParsedPieces` | DatabaseManager.java:121-125 | at most one rating per piece; `DropsUnparseable` and `ParsedPiecesAllValid` say which pieces give one |
| `ColumnCodec.ParsedPiecesAppend` | DatabaseManager.java:121-125 | parsing pieces distributes over concatenation |
| `ColumnCodec.DropsUnparseable` | DatabaseManager.java:121-125 | a piece that does not parse is dropped and the pieces around it keep their order |
| `ColumnCodec.ParsedPiecesAllValid` | DatabaseManager.java:121-125 | when every piece parses, the result holds one value per piece, in order |
| `ColumnCodec.RatingsRoundTrip` | DatabaseManager.java:188 | decoding the encoding of any rating list gives the list back |
| `ColumnCodec.TagsRoundTrip` | DatabaseManager.java:187 | decoding the encoding of a non-empty tag list of trimmed comma-free tags, the last one non-empty, gives the list back |
| `ColumnCodec.EmptyTagsComeBackAsOneEmptyTag` | DatabaseManager.java:112-116 | an empty tag list is written as `""` and read back as one empty tag |
| `Model.User.ToString` | HelloApplication.java:28-30 | the line starts with `id: name` |
| `Model.UserToStringExample` | ModelTests.java:12-15 | user 42 Alice prints as `42: Alice (alice@example.com)` |
| `Model.Movie.constructor` | HelloApplication.java:41-46 | a new movie has the given title, director, year and tags, no ratings, no favourite flag and no comments |
| `Model.Movie.AverageRating` | HelloApplication.java:48-50 | 0 without ratings, otherwise the value that times the count is the sum |
| `Model.Movie.ToString` | HelloApplication.java:53-56 | the line contains the title, starts with `★ ` for a favourite and with the title otherwise, and ends with the average rating to one decimal |
| `Model.OneDecimal` | HelloApplication.java:55 | the text ends in a point and exactly one digit, after only digits for a non-negative value |
| `Model.Display` | HelloApplication.java:53-56 | the movie's line (its shape: `DisplayMarksFavorites` and `DisplayEndsWithMean`) |
| `Model.Mean` | HelloApplication.java:49 | 0 for no values, otherwise sum divided by count |
| `Model.SumWithin` | HelloApplication.java:49 | values within `lo..hi` sum to between count·lo and count·hi |
| `Model.MeanWithin` | HelloApplication.java:48-50 | the mean of values within `lo..hi` is within `lo..hi` |
| `Model.MeanExample` | ModelTests.java:23-28 | the mean of 5, 4, 3 is 4 |
| `Model.DisplayMarksFavorites` | HelloApplication.java:53-56 | a favourite's line starts with `★ `, any other line starts with the title, the title always appears, and for a title not itself starting with `★` the line starts with `★ ` exactly when the movie is a favourite |
| `Model.DisplayEndsWithMean` | HelloApplication.java:55 | every line ends with the mean formatted to one decimal |
| `Model.DisplayShowsMean` | ModelTests.java:31-38 | a movie rated once with 5 shows `5.0` |
| `Seqs.Filter` | DatabaseManager.java:209 | the kept elements satisfy the condition, every element that satisfies it is kept, and the order is kept |
| `Seqs.FilterCounts` | HelloApplication.java:238-241 | filtering keeps every element that satisfies the condition exactly as many times as it occurs, and no other |
| `Seqs.FilterKeepsIncreasing` | DatabaseManager.java:200 | filtering keeps ids increasing |
| `Seqs.Map` | DatabaseManager.java:107-130 | one result per element, the k-th being the function applied to the k-th element |
| `Seqs.RemoveFirst` | HelloApplication.java:266 | removing a present element removes exactly one occurrence; removing an absent one changes nothing |
| `Seqs.RemoveFirstCutsFirst` | HelloApplication.java:266 | removing a present element cuts out its first occurrence and keeps everything else in order |
| `Seqs.RemoveFirstKeepsDistinct` | HelloApplication.java:266 | removing an element from a list without repeats leaves a list without repeats |
| `Store.Loaded` | DatabaseManager.java:128-130 | a loaded movie is not a favourite and has no comments; its title, director and year are the row's |
| `Store.ReloadForgetsFavoriteAndComments` | DatabaseManager.java:182-188 | writing a movie and loading it back gives it back without its favourite flag and comments, when its tags survive the column |
| `Store.RowFor` | DatabaseManager.java:182-188 | the row carries the given id and the movie's title, director and year, has a `tags` column, and its `ratings` column decodes to the movie's ratings |
| `Store.FirstWithKey` | DatabaseManager.java:82-90 | the first row, in table order, with the title, director and year, or none when no row has them |
| `Store.WithoutKey` | DatabaseManager.java:209 | the rows left are those without the key, all of them, in table order |
| `Store.WithoutReviewsOf` | DatabaseManager.java:200 | the reviews left are those of other movies, all of them, in table order |
| `Store.WithRatings` | DatabaseManager.java:225 | updating a column keeps the number of rows (which row changes: `Store.Database.UpdateMovieRatings`) |
| `Store.WithoutKeyIncreasing` | DatabaseManager.java:209 | deleting by key keeps movie ids increasing |
| `Store.WithoutReviewsOfIncreasing` | DatabaseManager.java:200 | deleting a movie's reviews keeps review ids increasing |
| `Store.FirstUser` | DatabaseManager.java:147 | the first user satisfying a condition is a user of the table that satisfies it; none is returned only when no user does |
| `Store.UserWithId` | DatabaseManager.java:147 | the join partner of a review is a user with its id, or none exists |
| `Store.UserWithEmail` | DatabaseManager.java:281 | a user with the email, or none exists |
| `Store.CountWithEmail` | DatabaseManager.java:267 | the count is positive exactly when a user has the email |
| `Store.MaxUserId` | DatabaseManager.java:253-262 | 0 for no users, otherwise an id that bounds all ids and is one of them |
| `Store.InsertById` | DatabaseManager.java:168-178 | inserting a user adds exactly that user to the table |
| `Store.InsertByIdPosition` | DatabaseManager.java:24-25 | the id is the rowid, so the new user lands after the users with smaller or equal ids and before the first with a larger one, the others keeping their order |
| `Store.InsertKeepsIncreasing` | DatabaseManager.java:24-25 | inserting a user with a new id keeps the table in increasing id order |
| `Store.InsertKeepsEmailsDistinct` | DatabaseManager.java:26 | inserting a user with a new email keeps emails unique |
| `Store.InsertAboveAll` | DatabaseManager.java:168-178 | a user whose id is above every present one, such as `getMaxUserId() + 1`, goes at the end |
| `Store.NewestFirstSelects` | DatabaseManager.java:145-150 | the review query returns exactly the reviews of the movie whose author exists, each with that author |
| `Store.NewestFirst` | DatabaseManager.java:145-150 | the review query (its rows: `NewestFirstSelects`; their order: `NewestFirstDescending`) |
| `Store.NewestFirstDescending` | DatabaseManager.java:149 | the review query returns reviews in strictly decreasing id order |
| `Store.ReviewLinesAppend` | DatabaseManager.java:158 | the review lines of a concatenation are the concatenated lines |
| `Store.DuplicateKeyOrphansReview` | DatabaseManager.java:196-217 | with two rows under one key, deleting removes both rows but keeps the review of the second |
| `Store.Database.constructor` | DatabaseManager.java:22-58 | freshly created tables are empty and satisfy the constraints |
| `Store.Database.LoadUsers` | DatabaseManager.java:61-78 | every user, in table order, which `Valid` keeps as increasing id order |
| `Store.Database.GetMovieId` | DatabaseManager.java:81-96 | `None` exactly when no row has the key, otherwise the id of the first row that has it |
| `Store.Database.LoadMovies` | DatabaseManager.java:100-137 | one new movie per row, in order, with the row's columns decoded, no two of them the same object |
| `Store.Database.DecodeRows` | DatabaseManager.java:108-124 | every row's title, director and year kept and its tags and ratings columns decoded, in table order |
| `Store.Database.NewMovies` | DatabaseManager.java:124-128 | one fresh movie per decoded row, in order, each with exactly that row's fields, not a favourite and without comments, no two of them the same object |
| `Store.Database.LoadReviews` | DatabaseManager.java:140-165 | no lines for a movie without a row, otherwise `name: comment` for its authored reviews, newest first |
| `Store.Database.AddUser` | DatabaseManager.java:168-178 | a user whose id or email is taken changes nothing, any other is inserted in id order; the table constraints hold after it and the other tables are unchanged |
| `Store.Database.AddMovie` | DatabaseManager.java:181-193 | exactly one row is appended, under the next AUTOINCREMENT id, with the encoded tags and ratings; nothing else changes |
| `Store.Database.DeleteMovie` | DatabaseManager.java:196-218 | every row with the key goes and all others stay; only the reviews of the first such row go |
| `Store.Database.UpdateMovieRatings` | DatabaseManager.java:221-233 | only the `ratings` column of the first row with the key changes; nothing changes without such a row |
| `Store.Database.AddReview` | DatabaseManager.java:236-248 | nothing without a row for the movie, otherwise exactly one review row of the first match is appended under the next id |
| `Store.Database.GetMaxUserId` | DatabaseManager.java:252-263 | the largest user id, or 0 for no users |
| `Store.Database.IsEmailExists` | DatabaseManager.java:266-277 | true exactly when some user has the email, and exactly when `getUserByEmail` finds one |
| `Store.Database.GetUserByEmail` | DatabaseManager.java:280-297 | a user with the email, or `None` exactly when no user has it |
| `Store.Database.EmailIdentifiesUser` | DatabaseManager.java:27 | since emails are UNIQUE, `getUserByEmail` returns the only user with the email |
| `Catalogue.ParseTags` | HelloApplication.java:238-241 | every parsed tag is non-empty, trimmed and comma-free; the tags are the trimmed pieces, in order, each non-empty one kept exactly as often as it occurs and no empty one kept |
| `Catalogue.ParsedTagsSurviveStore` | HelloApplication.java:239-250 | the tags of an accepted movie come back unchanged from the `tags` column |
| `Catalogue.ParseMovie` | HelloApplication.java:236-246 | the form is accepted exactly when the trimmed year parses and the trimmed title, trimmed director and parsed tags are non-empty; the movie then holds those values, no ratings, no favourite flag and no comments |
| `Catalogue.ParsedMovieIsClean` | HelloApplication.java:236-246 | an accepted movie's title, director and tags are non-empty, carry no surrounding blanks, and no tag holds a comma |
| `Catalogue.AcceptsCleanForm` | HelloApplication.java:235-247 | a form with a clean title, director and single tag and a year as `String.valueOf` prints it is accepted as exactly that movie |
| `Catalogue.ParseRating` | HelloApplication.java:280-281 | a rating is accepted exactly when the trimmed text parses to a value within 1..5, and is that value |
| `Catalogue.Matches` | HelloApplication.java:311-314 | a movie matches when its lower-cased title, director or one of its tags contains the query (the filter `SearchIn` and `App.Search` apply) |
| `Catalogue.SearchIn` | HelloApplication.java:310-315 | the result is an order-preserving subsequence of the list holding exactly the movies that match the query |
| `Catalogue.SearchInCounts` | HelloApplication.java:310-315 | a matching movie occurs in the result as often as in the list, any other movie not at all |
| `Catalogue.Averages` | HelloApplication.java:323 | each movie of the list paired with its average and its place |
| `Catalogue.InsertByAverage` | HelloApplication.java:323 | insertion adds exactly the new entry |
| `Catalogue.InsertKeepsDescending` | HelloApplication.java:323 | insertion keeps averages non-increasing |
| `Catalogue.InsertKeepsTiesInListOrder` | HelloApplication.java:323 | inserting an entry from earlier in the list keeps equal averages in list order |
| `Catalogue.SortByAverage` | HelloApplication.java:323 | the result is a permutation with non-increasing averages |
| `Catalogue.SortKeepsTiesInListOrder` | HelloApplication.java:323 | the sort is stable |
| `Catalogue.Ranking` | HelloApplication.java:322-323 | every movie once, by average highest first, ties in list order, each entry carrying its movie's current average |
| `Catalogue.TopOfRanking` | HelloApplication.java:323-324 | no movie outside the first entries has a higher average than one inside |
| `Catalogue.TopIsSubMultiset` | HelloApplication.java:323-324 | the first entries of the ranking are movies of the list, each at most as often as it occurs there |
| `Catalogue.TopTiesInListOrder` | HelloApplication.java:322-324 | shown movies with equal averages keep their order in the list (the sort is stable) |
| `Catalogue.LeftOutTiesComeLater` | HelloApplication.java:322-324 | a movie left out with the same average as a shown one comes after it in the list |
| `Catalogue.TopShape` | HelloApplication.java:322-324 | the first `n` ranked movies are `n` movies of the list, each at most as often as there, ranked highest first with none left out above them |
| `Catalogue.TopTies` | HelloApplication.java:322-324 | the first `n` ranked movies settle ties by list order, among themselves and against the movies left out |
| `Catalogue.TopRated` | HelloApplication.java:320-327 | at most five movies of the list, five when there are that many, each at most as often as it is in the list, averages non-increasing, none left out rated above one shown, and ties settled by list order (shown ties in list order, a left-out tie after the shown one) |
| `Catalogue.RatingKeepsOnScale` | HelloApplication.java:281-282 | appending a rating within 1..5 keeps every rating within 1..5 |
| `Catalogue.AverageOnScale` | HelloApplication.java:281-282 | ratings that came through the rating button give an average within 1..5 |
| `Catalogue.SignIn` | HelloApplication.java:195-210 | a blank email is refused; otherwise the result is a user with the trimmed email, and there is none only when no user has that email |
| `Catalogue.SignInFindsUser` | HelloApplication.java:195-210 | a registered user typing their email, with or without surrounding blanks, signs in as exactly that user |
| `Catalogue.App.constructor` | HelloApplication.java:217 | the list holds one new movie per row of `movies`, decoded, no two of them the same object (the invariant the handlers keep) |
| `Catalogue.App.AddMovie` | HelloApplication.java:234-260 | a movie is added exactly when the form is accepted; then the list grows by exactly the parsed movie and the table by its row, otherwise nothing changes; the review counter never moves |
| `Catalogue.App.Append` | HelloApplication.java:248-250 | the list keeps its movies and gains one new movie with exactly the given fields at its end; the table gains its row under the next id; users, reviews and the review counter stay |
| `Catalogue.App.DeleteSelected` | HelloApplication.java:263-270 | the selection leaves the list and its key leaves the table, with the reviews of its first row; the list stays free of repeats and both AUTOINCREMENT counters stay |
| `Catalogue.App.Rate` | HelloApplication.java:276-290 | a rating is accepted exactly when it parses within 1..5; then it is appended and every other field stays, the 1..5 scale is kept, and the row is replaced by a new one under the next id, the review counter staying; otherwise nothing changes |
| `Catalogue.App.ToggleFavorite` | HelloApplication.java:294-302 | the flag flips, every other field stays, and the row is replaced by a new one under the next id, the review counter staying |
| `Catalogue.App.ToggleFavoriteTwice` | HelloApplication.java:297 | toggling twice restores every field of the movie |
| `Catalogue.App.AddComment` | HelloApplication.java:356-364 | a comment is added exactly when its trimmed text is non-empty, as exactly one last comment equal to that text; nothing else changes |
| `Catalogue.App.Search` | HelloApplication.java:308-317 | the movies of the list that match the lower-cased query, in list order, and all of them (how often each: `SearchInCounts`) |
| `Catalogue.App.Recommend` | HelloApplication.java:320-327 | at most five movies of the list, five when there are that many, each at most as often as it is in the list, averages non-increasing, none left out rated above one shown, and ties settled by list order |

## Left out

- The JavaFX windows, layout, images and event wiring are not modelled, and neither is
  `refreshMovies`, which only copies the list into the view. The registration button's handler
  has an empty body (HelloApplication.java:148-150), so nothing in the application calls
  `isEmailExists`, `addUser`, `getMaxUserId` or `loadUsers`; they are modelled as
  `DatabaseManager` defines them. The sign-in handler is `Catalogue.SignIn`.
- JDBC plumbing is not modelled: the driver, the connection and the DDL statements. The tables
  are sequences of rows, and the table scan order is taken to be rowid order.
- `Database.Valid` does not enforce the FOREIGN KEY clauses, since SQLite leaves them off by
  default. So a review may name a movie that no longer exists.
- Ids are unbounded integers. A 32-bit `getInt` overflow of a row id past 2147483647 is not
  modelled.
- `Model.Movie.AverageRating`: computed as an exact `real` rather than a `double`, because
  rounding of sums of small integers over small counts does not change any stated property.
- `Model.OneDecimal`: `String.format("%.1f")` is modelled as rounding the exact value half
  away from zero. The locale's decimal separator is taken to be `.`.
- `JavaStrings.ToLower`: only ASCII letters are lower-cased. The rest of Unicode case mapping is
  not modelled.
- `JavaStrings.ParseInt`: only ASCII digits are accepted. Java also accepts other Unicode
  decimal digits.
- `Model.DisplayMarksFavorites`: the "starts with `★ ` exactly when favourite" direction is
  stated only for titles that do not begin with `★`. A title that does begins every line with a
  star.
- `ColumnCodec.TagsRoundTrip`: the round trip also requires the last tag to be non-empty, since
  `split` drops trailing empty pieces.
- The comment handler's commented-out call that would store comments as reviews is not modelled.
  Comments live only in memory.
