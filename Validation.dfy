/** ValidationModule.ValidateArray of Client/Modules/ValidationModule.cs: reads the
    numbers a user typed, tolerating separators, brackets and stray words. */
module Validation {
  import opened IntText

  /** The characters input.Split(...) cuts at */
  const Separators: set<char> := {' ', ',', ';', '\t', '\n', '\r'}

  /** The characters token.Trim('[', ']') strips */
  const Brackets: set<char> := {'[', ']'}

  /** string.IsNullOrWhiteSpace */
  predicate IsNullOrWhiteSpace(input: Option<string>)
    ensures IsNullOrWhiteSpace(input) <==> input.None? || Trim(input.value, WhiteSpace) == []
  {
    input.None? || (TrimEmptyIffOnly(input.value, WhiteSpace); forall c :: c in input.value ==> c in WhiteSpace)
  }

  /** input.Split(Separators, StringSplitOptions.RemoveEmptyEntries) */
  function Tokens(input: string): (r: seq<string>)
    ensures forall t :: t in r ==> t != [] && FreeOf(t, Separators)
  {
    NonEmpty(Split(input, Separators))
  }

  /** The tokens laid end to end are the input without its separators: splitting and
      dropping empty entries loses nothing else */
  lemma {:induction false} TokensKeepText(input: string)
    ensures Concat(Tokens(input)) == Without(input, Separators)
  {
    NonEmptyConcat(Split(input, Separators));
    SplitKeepsText(input, Separators);
  }

  /** The number one token contributes: the token is whitespace-trimmed and skipped when
      nothing is left, otherwise its surrounding brackets are stripped and int.TryParse
      decides */
  function ParseToken(part: string): (r: Option<Int32>)
    ensures (forall c :: c in part ==> c in WhiteSpace) ==> r == None
  {
    var trimmed := Trim(part, WhiteSpace);
    if trimmed == [] then None
    else
      var front := TrimStart(part, WhiteSpace);
      assert trimmed[0] == front[0] == part[|part| - |front|];
      ParseInt32(Trim(trimmed, Brackets))
  }

  /** What one token adds to the list: its number, or nothing when it does not parse */
  function Kept(number: Option<Int32>): (r: seq<Int32>)
    ensures |r| <= 1
  {
    match number
    case Some(n) => [n]
    case None => []
  }

  /** The numbers of the tokens that `parse` reads, in token order: the foreach loop of
      ValidateArray, with `parse` for its body on one token */
  function ParsedNumbers(parts: seq<string>, parse: string -> Option<Int32>): (numbers: seq<Int32>)
    ensures |numbers| <= |parts|
  {
    if parts == [] then [] else Kept(parse(parts[0])) + ParsedNumbers(parts[1..], parse)
  }

  /** What ValidateArray returns: null for blank input, for input with no token, and for
      input none of whose tokens is a number; otherwise the numbers */
  function Parsed(input: Option<string>): (r: Option<seq<Int32>>)
    ensures IsNullOrWhiteSpace(input) ==> r.None?
    ensures r.Some? ==> 0 < |r.value| <= |Tokens(input.value)|
  {
    if IsNullOrWhiteSpace(input) then None
    else
      var parts := Tokens(input.value);
      if |parts| == 0 then None
      else
        var numbers := ParsedNumbers(parts, ParseToken);
        if |numbers| == 0 then None else Some(numbers)
  }

  /** Tokens are read left to right; each contributes its own number or nothing */
  lemma {:induction false} ParsedNumbersAppend(p: seq<string>, q: seq<string>, parse: string -> Option<Int32>)
    ensures ParsedNumbers(p + q, parse) == ParsedNumbers(p, parse) + ParsedNumbers(q, parse)
  {
    if p == [] {
      assert p + q == q;
    } else {
      assert (p + q)[0] == p[0] && (p + q)[1..] == p[1..] + q;
      ParsedNumbersAppend(p[1..], q, parse);
    }
  }

  lemma {:induction false} ParsedNumbersSingle(t: string, parse: string -> Option<Int32>)
    ensures ParsedNumbers([t], parse) == Kept(parse(t))
  {
    assert [t][1..] == [];
  }

  lemma {:induction false} ParsedNumbersPrefix(parts: seq<string>, k: nat, parse: string -> Option<Int32>)
    requires k < |parts|
    ensures ParsedNumbers(parts[..k + 1], parse) == ParsedNumbers(parts[..k], parse) + Kept(parse(parts[k]))
  {
    var p, q := parts[..k], [parts[k]];
    assert parts[..k + 1] == p + q;
    ParsedNumbersAppend(p, q, parse);
    ParsedNumbersSingle(parts[k], parse);
  }

  /** The foreach loop of ValidateArray over the tokens, filling the list `numbers` */
  method CollectNumbers(parts: seq<string>) returns (numbers: seq<Int32>)
    ensures numbers == ParsedNumbers(parts, ParseToken)
  {
    numbers := [];
    for k := 0 to |parts|
      invariant numbers == ParsedNumbers(parts[..k], ParseToken)
    {
      ParsedNumbersPrefix(parts, k, ParseToken);
      var number := ParseToken(parts[k]);
      if number.Some? {
        numbers := numbers + [number.value];
      }
    }
    assert parts[..|parts|] == parts;
  }

  /** ValidateArray: null for blank input, for input without tokens and for input none of
      whose tokens is a number; otherwise the numbers in token order */
  method ValidateArray(input: Option<string>) returns (result: Option<seq<Int32>>)
    ensures result == Parsed(input)
    ensures result.Some? ==> 0 < |result.value| <= |Tokens(input.value)|
  {
    if IsNullOrWhiteSpace(input) {
      return None;
    }
    var parts := Tokens(input.value);
    if |parts| == 0 {
      return None;
    }
    var numbers := CollectNumbers(parts);
    if |numbers| == 0 {
      return None;
    }
    return Some(numbers);
  }

  // ---------------------------------------------------------------- properties

  lemma {:induction false} BlankTokensParseToNothing(parts: seq<string>)
    requires forall t, c :: t in parts && c in t ==> c in WhiteSpace
    ensures ParsedNumbers(parts, ParseToken) == []
  {
    if parts != [] {
      var t := parts[0];
      assert forall c :: c in t ==> c in WhiteSpace;
      TrimStartOfOnly(t, WhiteSpace);
      assert forall u :: u in parts[1..] ==> u in parts;
      BlankTokensParseToNothing(parts[1..]);
    }
  }

  /** The result is null exactly when no token parses; otherwise it is those numbers.
      The early return for blank input changes nothing: a blank input has no token that
      could parse. */
  lemma {:induction false} NullIffNothingParses(input: string)
    ensures Parsed(Some(input)).None? <==> ParsedNumbers(Tokens(input), ParseToken) == []
    ensures Parsed(Some(input)).Some? ==> Parsed(Some(input)).value == ParsedNumbers(Tokens(input), ParseToken)
  {
    var parts := Tokens(input);
    if IsNullOrWhiteSpace(Some(input)) {
      forall t, c | t in parts && c in t
        ensures c in WhiteSpace
      {
        assert t in Split(input, Separators);
      }
      BlankTokensParseToNothing(parts);
    } else if |parts| == 0 {
      assert parts == [];
    }
  }

  lemma {:induction false} FormattedTokenParses(x: Int32)
    ensures ParseToken(FormatInt(x)) == Some(x)
  {
    var s := FormatInt(x);
    assert s[0] !in WhiteSpace && s[|s| - 1] !in WhiteSpace;
    assert s[0] !in Brackets && s[|s| - 1] !in Brackets;
    FormatThenParse(x);
  }

  /** Tokens that each parse to a number yield exactly those numbers */
  lemma {:induction false} ParsedNumbersEach(parts: seq<string>, parse: string -> Option<Int32>, xs: seq<Int32>)
    requires |parts| == |xs|
    requires forall k :: 0 <= k < |parts| ==> parse(parts[k]) == Some(xs[k])
    ensures ParsedNumbers(parts, parse) == xs
  {
    if parts != [] {
      assert parse(parts[0]) == Some(xs[0]);
      ParsedNumbersEach(parts[1..], parse, xs[1..]);
      assert xs == [xs[0]] + xs[1..];
    }
  }

  lemma {:induction false} FormattedNumbersParse(xs: seq<Int32>)
    ensures ParsedNumbers(FormatAll(xs), ParseToken) == xs
  {
    var ts := FormatAll(xs);
    forall k | 0 <= k < |ts|
      ensures ParseToken(ts[k]) == Some(xs[k])
    {
      FormattedTokenParses(xs[k]);
    }
    ParsedNumbersEach(ts, ParseToken, xs);
  }

  /** A decimal numeral holds no separator */
  lemma FormattedTokenIsClean(x: int)
    ensures FormatInt(x) != [] && FreeOf(FormatInt(x), Separators)
  {
    var f := FormatInt(x);
    forall c | c in f
      ensures c !in Separators
    {
      assert IsDigit(c) || c == '-';
    }
  }

  lemma FormattedTokensAreClean(xs: seq<Int32>)
    ensures forall t :: t in FormatAll(xs) ==> t != [] && FreeOf(t, Separators)
  {
    var ts := FormatAll(xs);
    forall t | t in ts
      ensures t != [] && FreeOf(t, Separators)
    {
      var k :| 0 <= k < |ts| && ts[k] == t;
      FormattedTokenIsClean(xs[k]);
    }
  }

  /** Round trip: non-empty int lists written in decimal and joined by one repeated run of
      separators (" ", ",", ", ", ...) read back as the same list */
  lemma {:induction false} FormatJoinRoundTrip(xs: seq<Int32>, sep: string)
    requires xs != [] && sep != [] && forall c :: c in sep ==> c in Separators
    ensures Parsed(Some(Join(FormatAll(xs), sep))) == Some(xs)
  {
    var ts := FormatAll(xs);
    var text := Join(ts, sep);
    FormattedTokensAreClean(xs);
    SplitJoinNonEmpty(ts, sep, Separators);
    FormattedNumbersParse(xs);
    NullIffNothingParses(text);
  }

  /** Wrapping brackets survive a trim of characters other than brackets and fall to a
      trim of brackets; the sets are kept abstract so the proof stays small */
  lemma {:induction false} TrimWrapped(f: string, opening: bool, closing: bool,
                                       ws: set<char>, br: set<char>)
    requires f != [] && f[0] !in ws && f[|f| - 1] !in ws && f[0] !in br && f[|f| - 1] !in br
    requires '[' !in ws && ']' !in ws && '[' in br && ']' in br
    ensures var t := (if opening then "[" else "") + f + (if closing then "]" else "");
            Trim(t, ws) == t && Trim(t, br) == f
  {
    var pre, post := if opening then "[" else "", if closing then "]" else "";
    var body := f + post;
    var t := pre + body;
    assert pre + f + post == t;
    assert t[0] == if opening then '[' else f[0];
    assert t[|t| - 1] == if closing then ']' else f[|f| - 1];
    TrimStartWrapped(body, opening, br);
    TrimEndWrapped(f, closing, br);
  }

  lemma {:induction false} TrimStartWrapped(body: string, opening: bool, br: set<char>)
    requires body != [] && body[0] !in br && '[' in br
    ensures TrimStart((if opening then "[" else "") + body, br) == body
  {
    if opening {
      assert ("[" + body)[1..] == body;
    }
  }

  lemma {:induction false} TrimEndWrapped(f: string, closing: bool, br: set<char>)
    requires f != [] && f[|f| - 1] !in br && ']' in br
    ensures TrimEnd(f + (if closing then "]" else ""), br) == f
  {
    if closing {
      assert (f + "]")[..|f|] == f;
    } else {
      assert f + "" == f;
    }
  }

  /** Brackets are stripped from both ends of a token that starts with a sign or digit
      and ends with a digit */
  lemma {:induction false} BracketsStripped(f: string, opening: bool, closing: bool)
    requires f != [] && (IsDigit(f[0]) || f[0] == '-') && IsDigit(f[|f| - 1])
    ensures ParseToken((if opening then "[" else "") + f + (if closing then "]" else ""))
            == ParseInt32(f)
  {
    TrimWrapped(f, opening, closing, WhiteSpace, Brackets);
  }

  lemma {:induction false} BracketedTokenParses(f: string, x: Int32, opening: bool, closing: bool)
    requires f == FormatInt(x)
    ensures ParseToken((if opening then "[" else "") + f + (if closing then "]" else "")) == Some(x)
  {
    assert f[0] in f;
    BracketsStripped(f, opening, closing);
    FormatThenParse(x);
  }

  /** Brackets are not separators, so wrapping keeps tokens whole */
  lemma WrappedTokensAreClean(ts: seq<string>)
    requires ts != [] && forall t :: t in ts ==> t != [] && FreeOf(t, Separators)
    ensures forall t :: t in Wrap(ts) ==> t != [] && FreeOf(t, Separators)
  {
    var w := Wrap(ts);
    forall t | t in w
      ensures t != [] && FreeOf(t, Separators)
    {
      var k :| 0 <= k < |w| && w[k] == t;
      assert ts[k] in ts;
    }
  }

  /** The bracketed form "[1,2,3]" (one separator run repeated between the numbers) reads back as the list too */
  lemma {:induction false} BracketedRoundTrip(xs: seq<Int32>, sep: string)
    requires xs != [] && sep != [] && forall c :: c in sep ==> c in Separators
    ensures Parsed(Some("[" + Join(FormatAll(xs), sep) + "]")) == Some(xs)
  {
    var ts := FormatAll(xs);
    var wrapped := Wrap(ts);
    WrapJoin(ts, sep);
    FormattedTokensAreClean(xs);
    WrappedTokensAreClean(ts);
    SplitJoinNonEmpty(wrapped, sep, Separators);
    WrappedNumbersParse(xs);
    NullIffNothingParses("[" + Join(ts, sep) + "]");
  }

  /** The tokens of a bracketed list: '[' before the first, ']' after the last */
  function Wrap(ts: seq<string>): (r: seq<string>)
    requires ts != []
    ensures |r| == |ts|
    ensures forall k :: 0 <= k < |ts| ==>
              r[k] == (if k == 0 then "[" else "") + ts[k] + (if k == |ts| - 1 then "]" else "")
  {
    if |ts| == 1 then ["[" + ts[0] + "]"]
    else ["[" + ts[0]] + ts[1..|ts| - 1] + [ts[|ts| - 1] + "]"]
  }

  lemma {:induction false} JoinMiddle(a: string, ts: seq<string>, sep: string)
    requires |ts| >= 1
    ensures Join([a] + ts, sep) == a + sep + Join(ts, sep)
  {
    assert ([a] + ts)[1..] == ts;
  }

  lemma {:induction false} JoinCloses(ts: seq<string>, sep: string)
    requires |ts| >= 1
    ensures Join(ts[..|ts| - 1] + [ts[|ts| - 1] + "]"], sep) == Join(ts, sep) + "]"
  {
    if |ts| > 1 {
      var tail := ts[1..];
      JoinCloses(tail, sep);
      assert ts[..|ts| - 1] + [ts[|ts| - 1] + "]"] == [ts[0]] + (tail[..|tail| - 1] + [tail[|tail| - 1] + "]"]);
      JoinMiddle(ts[0], tail[..|tail| - 1] + [tail[|tail| - 1] + "]"], sep);
      assert ts == [ts[0]] + tail;
    }
  }

  lemma {:induction false} WrapJoin(ts: seq<string>, sep: string)
    requires ts != []
    ensures Join(Wrap(ts), sep) == "[" + Join(ts, sep) + "]"
  {
    if |ts| > 1 {
      var tail := ts[1..];
      var closed := tail[..|tail| - 1] + [tail[|tail| - 1] + "]"];
      assert tail[..|tail| - 1] == ts[1..|ts| - 1];
      assert Wrap(ts) == ["[" + ts[0]] + closed;
      JoinCloses(tail, sep);
      JoinMiddle("[" + ts[0], closed, sep);
      assert ts == [ts[0]] + tail;
      JoinMiddle(ts[0], tail, sep);
      var a, b := ts[0] + sep, Join(tail, sep);
      assert Join(Wrap(ts), sep) == "[" + a + (b + "]");
      assert Join(ts, sep) == a + b;
      assert "[" + a + (b + "]") == "[" + (a + b) + "]";
    } else {
      assert Wrap(ts) == ["[" + ts[0] + "]"];
    }
  }

  lemma {:induction false} WrappedNumbersParse(xs: seq<Int32>)
    requires xs != []
    ensures ParsedNumbers(Wrap(FormatAll(xs)), ParseToken) == xs
  {
    var ts := FormatAll(xs);
    var w := Wrap(ts);
    forall k | 0 <= k < |w|
      ensures ParseToken(w[k]) == Some(xs[k])
    {
      BracketedTokenParses(ts[k], xs[k], k == 0, k == |ts| - 1);
    }
    ParsedNumbersEach(w, ParseToken, xs);
  }
}
