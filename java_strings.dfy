/**
 * The few pieces of java.lang.String and java.lang.Integer that the catalogue relies on:
 * `trim`, `toLowerCase`, `contains`, `split(",")`, `String.join`, `Integer.parseInt` and
 * `String.valueOf(int)`, written out with Java's own edge cases.
 */
module JavaStrings {
  import opened Wrappers

  /** Java's 32-bit `int`. */
  const MinInt32: int := -0x8000_0000
  const MaxInt32: int := 0x7fff_ffff
  type Int32 = x: int | MinInt32 <= x <= MaxInt32

  // ---------------------------------------------------------------- trim

  /** `String.trim` strips every character whose code is at most that of the space. */
  predicate IsTrimmable(c: char) { c <= ' ' }

  /** A string that `trim` leaves as it is. */
  predicate Trimmed(s: string) {
    s == [] || (!IsTrimmable(s[0]) && !IsTrimmable(s[|s| - 1]))
  }

  function TrimStart(s: string): (r: string)
    ensures |r| <= |s| && r == s[|s| - |r|..]
    ensures r == [] || !IsTrimmable(r[0])
    ensures forall i :: 0 <= i < |s| - |r| ==> IsTrimmable(s[i])
  {
    if s != [] && IsTrimmable(s[0]) then TrimStart(s[1..]) else s
  }

  function TrimEnd(s: string): (r: string)
    ensures |r| <= |s| && r == s[..|r|]
    ensures r == [] || !IsTrimmable(r[|r| - 1])
    ensures forall i :: |r| <= i < |s| ==> IsTrimmable(s[i])
  {
    if s != [] && IsTrimmable(s[|s| - 1]) then TrimEnd(s[..|s| - 1]) else s
  }

  /** `s.trim()`: the result is trimmed and is what is left of `s` once the trimmable characters
      at both ends are cut off; a trimmed `s` comes back unchanged (so trimming twice is trimming
      once). */
  function Trim(s: string): (r: string)
    ensures Trimmed(r)
    ensures exists i, j :: 0 <= i <= j <= |s| && r == s[i..j]
              && (forall k :: 0 <= k < i ==> IsTrimmable(s[k]))
              && (forall k :: j <= k < |s| ==> IsTrimmable(s[k]))
    ensures forall c :: c in r ==> c in s
    ensures Trimmed(s) ==> r == s
  {
    var a := TrimStart(s);
    var b := TrimEnd(a);
    CutAtBothEnds(s, a, b);
    b
  }

  /** A prefix `b` of a suffix `a` of `s`, with only trimmable characters cut off, is the middle
      of `s` between two runs of trimmable characters. */
  lemma CutAtBothEnds(s: string, a: string, b: string)
    requires |a| <= |s| && a == s[|s| - |a|..]
    requires |b| <= |a| && b == a[..|b|]
    requires forall k :: 0 <= k < |s| - |a| ==> IsTrimmable(s[k])
    requires forall k :: |b| <= k < |a| ==> IsTrimmable(a[k])
    ensures exists i, j :: 0 <= i <= j <= |s| && b == s[i..j]
              && (forall k :: 0 <= k < i ==> IsTrimmable(s[k]))
              && (forall k :: j <= k < |s| ==> IsTrimmable(s[k]))
    ensures forall c :: c in b ==> c in s
  {
    var i := |s| - |a|;
    var j := i + |b|;
    assert b == s[i..j];
    forall k | j <= k < |s| ensures IsTrimmable(s[k]) {
      assert s[k] == a[k - i];
    }
    forall c | c in b ensures c in s {
      var k :| 0 <= k < |b| && b[k] == c;
      assert s[i + k] == c;
    }
  }

  // ---------------------------------------------------------------- case and search

  /** `Character.toLowerCase`, restricted to the ASCII letters. */
  function LowerChar(c: char): char {
    if 'A' <= c <= 'Z' then (c as int + 32) as char else c
  }

  function ToLower(s: string): (r: string)
    ensures |r| == |s|
  {
    seq(|s|, i requires 0 <= i < |s| => LowerChar(s[i]))
  }

  predicate StartsWith(s: string, prefix: string) {
    |prefix| <= |s| && s[..|prefix|] == prefix
  }

  predicate EndsWith(s: string, suffix: string) {
    |suffix| <= |s| && s[|s| - |suffix|..] == suffix
  }

  predicate OccursAt(s: string, sub: string, i: int) {
    0 <= i <= |s| - |sub| && s[i..i + |sub|] == sub
  }

  /** `s.contains(sub)`: `sub` occurs somewhere in `s`. */
  predicate Contains(s: string, sub: string) {
    exists i | 0 <= i <= |s| - |sub| :: OccursAt(s, sub, i)
  }

  lemma ContainsPrefix(s: string, prefix: string)
    requires StartsWith(s, prefix)
    ensures Contains(s, prefix)
  {
    assert OccursAt(s, prefix, 0);
  }

  // ---------------------------------------------------------------- split and join

  /** Every piece between commas, empty ones included (the first stage of `split(",")`). */
  function Pieces(s: string): (r: seq<string>)
    ensures |r| >= 1
    ensures forall k :: 0 <= k < |r| ==> ',' !in r[k]
    ensures ',' !in s ==> r == [s]
  {
    if s == [] then [[]]
    else
      var rest := Pieces(s[1..]);
      if s[0] == ',' then [[]] + rest
      else
        assert s == [s[0]] + s[1..];
        [[s[0]] + rest[0]] + rest[1..]
  }

  /** Drops the empty pieces at the end of the list, as `split` does with a zero limit. */
  function DropTrailingEmpty(ps: seq<string>): (r: seq<string>)
    ensures |r| <= |ps| && r == ps[..|r|]
    ensures r == [] || r[|r| - 1] != []
  {
    if ps != [] && ps[|ps| - 1] == [] then DropTrailingEmpty(ps[..|ps| - 1]) else ps
  }

  /** `s.split(",")`: a string without a comma comes back as the single piece `[s]` (so `""` gives
      `[""]`); otherwise the pieces between commas, less the empty ones at the end. */
  function Split(s: string): (r: seq<string>)
    ensures forall k :: 0 <= k < |r| ==> ',' !in r[k]
  {
    if ',' !in s then [s] else DropTrailingEmpty(Pieces(s))
  }

  /** `String.join(sep, ps)`. */
  function Join(sep: string, ps: seq<string>): (r: string)
    ensures |ps| == 1 ==> r == ps[0]
  {
    if |ps| == 0 then []
    else if |ps| == 1 then ps[0]
    else ps[0] + sep + Join(sep, ps[1..])
  }

  lemma {:induction false} PiecesOfPrefix(a: string, s: string)
    requires ',' !in a
    ensures Pieces(a + s) == [a + Pieces(s)[0]] + Pieces(s)[1..]
  {
    if a != [] {
      var p := Pieces(s);
      var t := a + s;
      assert a[0] in a;
      assert t[0] == a[0] && t[1..] == a[1..] + s;
      PiecesOfPrefix(a[1..], s);
      var rest := Pieces(t[1..]);
      assert rest[0] == a[1..] + p[0] && rest[1..] == p[1..];
      assert Pieces(t) == [[t[0]] + rest[0]] + rest[1..];
      assert [a[0]] + (a[1..] + p[0]) == a + p[0];
    } else {
      assert a + s == s && a + Pieces(s)[0] == Pieces(s)[0];
      assert Pieces(s) == [Pieces(s)[0]] + Pieces(s)[1..];
    }
  }

  /** Cutting a comma-joined list at its commas gives the list back. */
  lemma {:induction false} PiecesOfJoin(ps: seq<string>)
    requires |ps| >= 1
    requires forall k :: 0 <= k < |ps| ==> ',' !in ps[k]
    ensures Pieces(Join(",", ps)) == ps
  {
    if |ps| > 1 {
      var tail := "," + Join(",", ps[1..]);
      assert Join(",", ps) == ps[0] + tail;
      PiecesOfPrefix(ps[0], tail);
      PiecesOfJoin(ps[1..]);
      assert tail[0] == ',' && tail[1..] == Join(",", ps[1..]);
      assert Pieces(tail) == [[]] + ps[1..];
      assert Pieces(tail)[0] == [] && Pieces(tail)[1..] == ps[1..];
      assert ps[0] + [] == ps[0];
      assert ps == [ps[0]] + ps[1..];
    }
  }

  lemma {:induction false} JoinHasComma(ps: seq<string>)
    requires |ps| >= 2
    ensures ',' in Join(",", ps)
  {
    assert Join(",", ps) == ps[0] + "," + Join(",", ps[1..]);
    assert Join(",", ps)[|ps[0]|] == ',';
  }

  /** `String.join(",", ps).split(",")` returns `ps` when no piece holds a comma and the last
      piece is not empty (a single empty piece is also returned as it was). */
  lemma SplitJoin(ps: seq<string>)
    requires |ps| >= 1
    requires forall k :: 0 <= k < |ps| ==> ',' !in ps[k]
    requires |ps| == 1 || ps[|ps| - 1] != []
    ensures Split(Join(",", ps)) == ps
  {
    if |ps| > 1 {
      SplitJoinOfSeveral(ps);
    } else {
      assert Join(",", ps) == ps[0];
    }
  }

  /** With two pieces or more the joined string holds a comma, so `split` cuts it and drops
      nothing, the last piece being non-empty. */
  lemma SplitJoinOfSeveral(ps: seq<string>)
    requires |ps| >= 2
    requires forall k :: 0 <= k < |ps| ==> ',' !in ps[k]
    requires ps[|ps| - 1] != []
    ensures Split(Join(",", ps)) == ps
  {
    JoinHasComma(ps);
    PiecesOfJoin(ps);
    KeepsLastPiece(ps);
  }

  /** Nothing is dropped when the last piece is not empty. */
  lemma KeepsLastPiece(ps: seq<string>)
    requires ps != [] && ps[|ps| - 1] != []
    ensures DropTrailingEmpty(ps) == ps
  {
  }

  /** `"".split(",")` is `[""]`, not the empty array. */
  lemma SplitEmpty()
    ensures Split("") == [""]
  {
  }

  // ---------------------------------------------------------------- integers

  predicate IsDigit(c: char) { '0' <= c <= '9' }

  predicate AllDigits(s: string) { forall k :: 0 <= k < |s| ==> IsDigit(s[k]) }

  function DigitChar(d: nat): (c: char)
    requires d < 10
    ensures IsDigit(c) && c as int - '0' as int == d
  {
    (d + '0' as int) as char
  }

  /** The decimal digits of `n`, most significant first, without leading zeros. */
  function DecimalDigits(n: nat): (r: string)
    ensures |r| >= 1 && AllDigits(r)
  {
    if n < 10 then [DigitChar(n)] else DecimalDigits(n / 10) + [DigitChar(n % 10)]
  }

  /** The number a string of decimal digits denotes. */
  function DigitsValue(s: string): nat
    requires AllDigits(s)
  {
    if s == [] then 0
    else
      assert IsDigit(s[|s| - 1]);
      DigitsValue(s[..|s| - 1]) * 10 + (s[|s| - 1] as int - '0' as int)
  }

  /** `String.valueOf(i)`. */
  function ValueOf(i: int): (r: string)
    ensures r != [] && ',' !in r
  {
    if i < 0 then "-" + DecimalDigits(0 - i) else DecimalDigits(i)
  }

  /** `Integer.parseInt(s)`: an optional sign and at least one digit, denoting a value within the
      32-bit range; anything else is a NumberFormatException, here `None`. Surrounding blanks are
      not skipped. */
  function ParseInt(s: string): (r: Option<Int32>)
    ensures r.Some? ==> s != [] && IsDigit(s[|s| - 1]) && ',' !in s && Trimmed(s)
  {
    if s == [] then None
    else
      var body := if s[0] == '-' || s[0] == '+' then s[1..] else s;
      if body == [] || !AllDigits(body) then None
      else
        var v: int := if s[0] == '-' then 0 - DigitsValue(body) else DigitsValue(body);
        if MinInt32 <= v <= MaxInt32 then
          assert body == s[|s| - |body|..];
          assert forall c :: c in s ==> IsDigit(c) || c == '-' || c == '+';
          Some(v)
        else None
  }

  lemma {:induction false} DigitsValueOfDecimal(n: nat)
    ensures DigitsValue(DecimalDigits(n)) == n
  {
    if n >= 10 {
      var d := DecimalDigits(n);
      assert d[..|d| - 1] == DecimalDigits(n / 10);
      DigitsValueOfDecimal(n / 10);
    }
  }

  /** Parsing what `String.valueOf` prints gives the number back. */
  lemma ParseValueOf(i: Int32)
    ensures ParseInt(ValueOf(i)) == Some(i)
  {
    var s := ValueOf(i);
    if i < 0 {
      var body := DecimalDigits(0 - i);
      assert s == "-" + body && s[0] == '-' && s[1..] == body;
      DigitsValueOfDecimal(0 - i);
    } else {
      DigitsValueOfDecimal(i);
      assert IsDigit(s[0]);
    }
  }

  /** A number outside the 32-bit range, written out in decimal, is a NumberFormatException. */
  lemma ParseOutOfRange(i: int)
    requires !(MinInt32 <= i <= MaxInt32)
    ensures ParseInt(ValueOf(i)) == None
  {
    var s := ValueOf(i);
    if i < 0 {
      var body := DecimalDigits(0 - i);
      assert s == "-" + body && s[0] == '-' && s[1..] == body;
      DigitsValueOfDecimal(0 - i);
    } else {
      DigitsValueOfDecimal(i);
      assert IsDigit(s[0]);
    }
  }

  /** Any character other than a digit, save a sign in front, is a NumberFormatException. */
  lemma ParseRejectsNonDigit(s: string, k: int)
    requires 0 <= k < |s| && !IsDigit(s[k])
    requires k > 0 || (s[0] != '-' && s[0] != '+')
    ensures ParseInt(s) == None
  {
    if s[0] == '-' || s[0] == '+' {
      assert s[1..][k - 1] == s[k];
    }
  }

  /** A string without a digit, such as `""`, `"-"` or `"+"`, is a NumberFormatException. */
  lemma ParseNeedsDigit(s: string)
    requires forall k :: 0 <= k < |s| ==> !IsDigit(s[k])
    ensures ParseInt(s) == None
  {
    if |s| > 1 {
      ParseRejectsNonDigit(s, 1);
    } else if s != [] && s[0] != '-' && s[0] != '+' {
      ParseRejectsNonDigit(s, 0);
    }
  }

  /** Any run of digits within range parses to the number it denotes, leading zeros and an
      explicit `+` included, and with a `-` in front to its negation. */
  lemma ParseDigits(d: string)
    requires d != [] && AllDigits(d) && DigitsValue(d) <= MaxInt32
    ensures ParseInt(d) == Some(DigitsValue(d))
    ensures ParseInt("+" + d) == Some(DigitsValue(d))
    ensures ParseInt("-" + d) == Some(0 - DigitsValue(d))
  {
    assert IsDigit(d[0]);
    assert ("+" + d)[1..] == d;
    assert ("-" + d)[1..] == d;
  }

  /** `"007"` parses to 7 and `"+5"` to 5, though `String.valueOf` writes neither. */
  lemma ParseOtherForms()
    ensures ParseInt("007") == Some(7) && ParseInt("+5") == Some(5)
  {
    assert "007"[..2] == "00" && "00"[..1] == "0" && "0"[..0] == [];
    ParseDigits("007");
    assert "5"[..0] == [];
    ParseDigits("5");
    assert "+" + "5" == "+5";
  }

  /** Java's `parseInt` refuses surrounding blanks, so `" 5"` does not parse. */
  lemma ParseRejectsBlank()
    ensures ParseInt(" 5") == None && ParseInt("5") == Some(5)
  {
    assert " 5"[0] == ' ';
    assert "5"[..0] == [];
  }
}
