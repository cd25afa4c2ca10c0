/**
 * How a movie's tag list and rating list are flattened into the `tags` and `ratings` text
 * columns of the `movies` table, and how they are read back. A column is `None` when it holds
 * SQL NULL.
 */
module ColumnCodec {
  import opened Wrappers
  import opened JavaStrings

  /** The `tags` column written for a tag list: the tags joined with commas, so that cutting the
      column at its commas gives back a non-empty list of comma-free tags. */
  function EncodeTags(tags: seq<string>): (r: string)
    ensures |tags| >= 1 && (forall k :: 0 <= k < |tags| ==> ',' !in tags[k]) ==> Pieces(r) == tags
  {
    if |tags| >= 1 && (forall k :: 0 <= k < |tags| ==> ',' !in tags[k]) then
      PiecesOfJoin(tags);
      Join(",", tags)
    else Join(",", tags)
  }

  /** The decimal form of every rating, in order: one non-empty, comma-free text per rating, which
      `Integer.parseInt` reads back as that rating. */
  function RatingTexts(ratings: seq<Int32>): (r: seq<string>)
    ensures |r| == |ratings|
    ensures forall k :: 0 <= k < |r| ==> r[k] != [] && ',' !in r[k] && ParseInt(r[k]) == Some(ratings[k])
  {
    ValuesParseBack(ratings);
    seq(|ratings|, k requires 0 <= k < |ratings| => ValueOf(ratings[k]))
  }

  lemma ValuesParseBack(ratings: seq<Int32>)
    ensures forall k :: 0 <= k < |ratings| ==> ParseInt(ValueOf(ratings[k])) == Some(ratings[k])
  {
    forall k | 0 <= k < |ratings| ensures ParseInt(ValueOf(ratings[k])) == Some(ratings[k]) {
      ParseValueOf(ratings[k]);
    }
  }

  /** The `ratings` column written for a rating list: the empty text for no ratings, otherwise
      the decimal forms joined with commas. The column is empty exactly when there are no
      ratings. */
  function EncodeRatings(ratings: seq<Int32>): (r: string)
    ensures r == [] <==> ratings == []
  {
    if ratings == [] then []
    else
      var texts := RatingTexts(ratings);
      assert texts[0] != [];
      assert |texts| == 1 ==> Join(",", texts) == texts[0];
      assert |texts| > 1 ==> Join(",", texts) == texts[0] + "," + Join(",", texts[1..]);
      Join(",", texts)
  }

  /** Every piece trimmed, in order: each piece comes out trimmed, without a comma if it had
      none, and pieces that were trimmed already come out unchanged. */
  function TrimAll(ps: seq<string>): (r: seq<string>)
    ensures |r| == |ps|
    ensures forall k :: 0 <= k < |r| ==> Trimmed(r[k]) && (',' !in ps[k] ==> ',' !in r[k])
    ensures (forall k :: 0 <= k < |ps| ==> Trimmed(ps[k])) ==> r == ps
  {
    seq(|ps|, k requires 0 <= k < |ps| => Trim(ps[k]))
  }

  /** Tags read back from a `tags` column: NULL gives no tags, anything else is split at commas and
      every piece trimmed. Every tag read back is trimmed and free of commas. */
  function DecodeTags(column: Option<string>): (r: seq<string>)
    ensures forall k :: 0 <= k < |r| ==> Trimmed(r[k]) && ',' !in r[k]
    ensures column.None? ==> r == []
  {
    match column
    case None => []
    case Some(text) =>
      var pieces := Split(text);
      var r := TrimAll(pieces);
      assert forall k :: 0 <= k < |r| ==> ',' !in pieces[k];
      r
  }

  /** The pieces that `Integer.parseInt` accepts, converted, in their order; the others are
      dropped. */
  function ParsedPieces(ps: seq<string>): (r: seq<Int32>)
    ensures |r| <= |ps|
  {
    if ps == [] then []
    else
      var front := ParsedPieces(ps[..|ps| - 1]);
      match ParseInt(ps[|ps| - 1])
      case Some(v) => front + [v]
      case None => front
  }

  /** Ratings read back from a `ratings` column: NULL or the empty text give no ratings; otherwise
      the comma-separated pieces that parse as integers. */
  function DecodeRatings(column: Option<string>): (r: seq<Int32>)
    ensures column.None? || column == Some([]) ==> r == []
  {
    match column
    case None => []
    case Some(text) => if text == [] then [] else ParsedPieces(Split(text))
  }

  /** The reading loop for the `ratings` column: each comma piece goes through
      `Integer.parseInt`, and the pieces it rejects are skipped. */
  method ReadRatings(column: Option<string>) returns (ratings: seq<Int32>)
    ensures ratings == DecodeRatings(column)
  {
    ratings := [];
    if column.Some? && column.value != [] {
      var pieces := Split(column.value);
      for i := 0 to |pieces|
        invariant ratings == ParsedPieces(pieces[..i])
      {
        assert pieces[..i + 1][..i] == pieces[..i];
        match ParseInt(pieces[i]) {
          case Some(v) => ratings := ratings + [v];
          case None =>
        }
      }
      assert pieces[..|pieces|] == pieces;
    }
  }

  // ---------------------------------------------------------------- properties

  lemma {:induction false} ParsedPiecesAppend(a: seq<string>, b: seq<string>)
    ensures ParsedPieces(a + b) == ParsedPieces(a) + ParsedPieces(b)
    decreases |b|
  {
    if b == [] {
      assert a + b == a;
    } else {
      var b' := b[..|b| - 1];
      assert (a + b)[..|a + b| - 1] == a + b';
      assert (a + b)[|a + b| - 1] == b[|b| - 1];
      ParsedPiecesAppend(a, b');
    }
  }

  /** A piece that does not parse is dropped, and the pieces around it keep their order. */
  lemma DropsUnparseable(before: seq<string>, bad: string, after: seq<string>)
    requires ParseInt(bad) == None
    ensures ParsedPieces(before + [bad] + after) == ParsedPieces(before) + ParsedPieces(after)
  {
    ParsedPiecesAppend(before + [bad], after);
    ParsedPiecesAppend(before, [bad]);
    assert [bad][..0] == [];
  }

  /** When every piece parses, the result has one value per piece, in order. */
  lemma {:induction false} ParsedPiecesAllValid(ps: seq<string>)
    requires forall k :: 0 <= k < |ps| ==> ParseInt(ps[k]).Some?
    ensures |ParsedPieces(ps)| == |ps|
    ensures forall k :: 0 <= k < |ps| ==> ParsedPieces(ps)[k] == ParseInt(ps[k]).value
  {
    if ps != [] {
      ParsedPiecesAllValid(ps[..|ps| - 1]);
    }
  }

  lemma {:induction false} ParsedRatingTexts(ratings: seq<Int32>)
    ensures ParsedPieces(RatingTexts(ratings)) == ratings
  {
    ParsedPiecesAllValid(RatingTexts(ratings));
  }

  /** Any rating list survives being written to and read back from the `ratings` column. */
  lemma RatingsRoundTrip(ratings: seq<Int32>)
    ensures DecodeRatings(Some(EncodeRatings(ratings))) == ratings
  {
    if ratings != [] {
      var texts := RatingTexts(ratings);
      SplitJoin(texts);
      ParsedRatingTexts(ratings);
    }
  }

  /** A tag list survives being written to and read back from the `tags` column when it is not
      empty, its last tag is not empty, and every tag is trimmed and free of commas. */
  lemma TagsRoundTrip(tags: seq<string>)
    requires tags != [] && tags[|tags| - 1] != []
    requires forall k :: 0 <= k < |tags| ==> Trimmed(tags[k]) && ',' !in tags[k]
    ensures DecodeTags(Some(EncodeTags(tags))) == tags
  {
    SplitJoin(tags);
  }

  /** An empty tag list does not survive: it is written as the empty text, which Java's `split`
      turns into one empty piece, so it is read back as a single empty tag. */
  lemma EmptyTagsComeBackAsOneEmptyTag()
    ensures EncodeTags([]) == []
    ensures DecodeTags(Some(EncodeTags([]))) == [[]]
  {
    SplitEmpty();
    assert Trimmed([]);
  }
}
