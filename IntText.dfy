/** The pieces of the .NET base library that the core leans on, stated once:
    char.IsWhiteSpace, String.Trim, String.Split, String.Join, Int32.ToString and
    Int32.TryParse / Int32.Parse. Both the client's array parser and the server's
    int-array column codec are built from these. */
module IntText {

  datatype Option<T> = None | Some(value: T)

  const MinInt32: int := -0x8000_0000
  const MaxInt32: int := 0x7FFF_FFFF

  /** The values of a C# `int` */
  type Int32 = x: int | MinInt32 <= x <= MaxInt32

  /** The characters for which char.IsWhiteSpace holds; String.Trim() removes these */
  const WhiteSpace: set<char> := {
    '\t', '\n', '\U{000B}', '\U{000C}', '\r', ' ', '\U{0085}', '\U{00A0}', '\U{1680}',
    '\U{2000}', '\U{2001}', '\U{2002}', '\U{2003}', '\U{2004}', '\U{2005}', '\U{2006}',
    '\U{2007}', '\U{2008}', '\U{2009}', '\U{200A}', '\U{2028}', '\U{2029}', '\U{202F}',
    '\U{205F}', '\U{3000}'
  }

  /** The whitespace Int32.Parse accepts around the number (NumberStyles.Integer) */
  const ParseWhite: set<char> := {'\t', '\n', '\U{000B}', '\U{000C}', '\r', ' '}

  predicate IsDigit(c: char) {
    '0' <= c <= '9'
  }

  /** No character of t belongs to cs */
  predicate FreeOf(t: string, cs: set<char>) {
    forall c :: c in t ==> c !in cs
  }

  // ---------------------------------------------------------------- Trim

  /** String.TrimStart(cs): drops the longest prefix made of characters of cs */
  function TrimStart(s: string, cs: set<char>): (r: string)
    ensures |r| <= |s| && r == s[|s| - |r|..]
    ensures r == [] || r[0] !in cs
  {
    if s != [] && s[0] in cs then TrimStart(s[1..], cs) else s
  }

  /** TrimStart drops only characters of cs */
  lemma {:induction false} TrimStartDropsOnly(s: string, cs: set<char>)
    ensures forall i :: 0 <= i < |s| - |TrimStart(s, cs)| ==> s[i] in cs
  {
    if s != [] && s[0] in cs {
      TrimStartDropsOnly(s[1..], cs);
    }
  }

  /** A string made only of characters of cs trims to nothing */
  lemma {:induction false} TrimStartOfOnly(s: string, cs: set<char>)
    requires forall c :: c in s ==> c in cs
    ensures TrimStart(s, cs) == []
  {
    if s != [] {
      assert s[0] in s;
      assert forall c :: c in s[1..] ==> c in s;
      TrimStartOfOnly(s[1..], cs);
    }
  }

  /** String.TrimEnd(cs): drops the longest suffix made of characters of cs */
  function TrimEnd(s: string, cs: set<char>): (r: string)
    ensures |r| <= |s| && r == s[..|r|]
    ensures r == [] || r[|r| - 1] !in cs
  {
    if s != [] && s[|s| - 1] in cs then TrimEnd(s[..|s| - 1], cs) else s
  }

  /** TrimEnd drops only characters of cs */
  lemma {:induction false} TrimEndDropsOnly(s: string, cs: set<char>)
    ensures forall i :: |TrimEnd(s, cs)| <= i < |s| ==> s[i] in cs
  {
    if s != [] && s[|s| - 1] in cs {
      TrimEndDropsOnly(s[..|s| - 1], cs);
    }
  }

  /** String.Trim(cs); with cs = WhiteSpace it is String.Trim() */
  function Trim(s: string, cs: set<char>): (r: string)
    ensures r == [] || (r[0] !in cs && r[|r| - 1] !in cs)
    ensures (s == [] || (s[0] !in cs && s[|s| - 1] !in cs)) ==> r == s
    ensures FreeOf(s, cs) ==> r == s
  {
    TrimEnd(TrimStart(s, cs), cs)
  }

  /** Text that Trim reduces to nothing is made only of characters it trims */
  lemma {:induction false} OnlyOfTrimEmpty(s: string, cs: set<char>)
    requires Trim(s, cs) == []
    ensures forall c :: c in s ==> c in cs
  {
    var front := TrimStart(s, cs);
    TrimStartDropsOnly(s, cs);
    TrimEndDropsOnly(front, cs);
    forall c | c in s
      ensures c in cs
    {
      var i :| 0 <= i < |s| && s[i] == c;
      if i >= |s| - |front| {
        assert front[i - (|s| - |front|)] == c;
      }
    }
  }

  /** Trim leaves nothing exactly when every character is one it trims */
  lemma {:induction false} TrimEmptyIffOnly(s: string, cs: set<char>)
    ensures (forall c :: c in s ==> c in cs) <==> Trim(s, cs) == []
  {
    if Trim(s, cs) == [] {
      OnlyOfTrimEmpty(s, cs);
    } else if forall c :: c in s ==> c in cs {
      TrimStartOfOnly(s, cs);
    }
  }

  // ---------------------------------------------------------------- Split and Join

  /** String.Split(separators) with no options: every separator closes a piece, so
      pieces may be empty and there is always at least one */
  function Split(s: string, seps: set<char>): (r: seq<string>)
    ensures |r| >= 1
    ensures forall t :: t in r ==> FreeOf(t, seps)
    ensures forall t, c :: t in r && c in t ==> c in s
  {
    if s == [] then [""]
    else
      var rest := Split(s[1..], seps);
      assert forall t, c :: t in rest && c in t ==> c in s;
      if s[0] in seps then
        assert forall t :: t in [""] + rest ==> t == "" || t in rest;
        [""] + rest
      else
        var first := [s[0]] + rest[0];
        assert rest[0] in rest;
        assert forall t :: t in [first] + rest[1..] ==> t == first || t in rest;
        [first] + rest[1..]
  }

  /** The pieces that StringSplitOptions.RemoveEmptyEntries keeps, in order */
  function NonEmpty(ts: seq<string>): (r: seq<string>)
    ensures |r| <= |ts|
    ensures forall t :: t in r ==> t != [] && t in ts
    ensures forall t :: t in ts && t != [] ==> t in r
  {
    if ts == [] then []
    else if ts[0] == [] then NonEmpty(ts[1..])
    else [ts[0]] + NonEmpty(ts[1..])
  }

  /** RemoveEmptyEntries keeps every non-empty piece as often as it occurs, and no empty one */
  lemma {:induction false} NonEmptyCounts(ts: seq<string>)
    ensures multiset(NonEmpty(ts)) == multiset(ts)["" := 0]
  {
    if ts != [] {
      NonEmptyCounts(ts[1..]);
      assert ts == [ts[0]] + ts[1..];
    }
  }

  /** RemoveEmptyEntries keeps the order: it filters each part of a split on its own */
  lemma {:induction false} NonEmptyAppend(a: seq<string>, b: seq<string>)
    ensures NonEmpty(a + b) == NonEmpty(a) + NonEmpty(b)
  {
    if a == [] {
      assert a + b == b;
    } else {
      assert (a + b)[0] == a[0] && (a + b)[1..] == a[1..] + b;
      NonEmptyAppend(a[1..], b);
    }
  }

  /** The pieces laid end to end */
  function Concat(ts: seq<string>): string {
    if ts == [] then "" else ts[0] + Concat(ts[1..])
  }

  /** s with every character of cs removed */
  function Without(s: string, cs: set<char>): (r: string)
    ensures |r| <= |s| && FreeOf(r, cs)
    ensures FreeOf(s, cs) ==> r == s
  {
    if s == [] then ""
    else
      var rest := Without(s[1..], cs);
      assert forall c :: c in s[1..] ==> c in s;
      if s[0] in cs then rest
      else
        assert [s[0]] + s[1..] == s;
        [s[0]] + rest
  }

  /** Gluing text onto the first piece glues it onto the pieces laid end to end */
  lemma {:induction false} ConcatGlue(a: string, ts: seq<string>)
    requires ts != []
    ensures Concat([a + ts[0]] + ts[1..]) == a + Concat(ts)
  {
    var u := [a + ts[0]] + ts[1..];
    assert u[0] == a + ts[0] && u[1..] == ts[1..];
  }

  /** Split loses exactly the separators: the pieces laid end to end are the text
      without them */
  lemma {:induction false} SplitKeepsText(s: string, seps: set<char>)
    ensures Concat(Split(s, seps)) == Without(s, seps)
  {
    if s != [] {
      SplitKeepsText(s[1..], seps);
      var rest := Split(s[1..], seps);
      if s[0] in seps {
        assert Split(s, seps) == [""] + rest;
        ConcatGlue("", [""] + rest);
      } else {
        assert Split(s, seps) == [[s[0]] + rest[0]] + rest[1..];
        ConcatGlue([s[0]], rest);
      }
    }
  }

  /** s with every character of seps replaced by c */
  function Unify(s: string, seps: set<char>, c: char): (r: string)
    ensures |r| == |s|
  {
    if s == [] then "" else [if s[0] in seps then c else s[0]] + Unify(s[1..], seps, c)
  }

  /** Split cuts at every separator character alike: it splits the text exactly where it
      would split the text with all separators replaced by one of them */
  lemma {:induction false} SplitUnify(s: string, seps: set<char>, c: char)
    requires c in seps
    ensures Split(s, seps) == Split(Unify(s, seps, c), {c})
  {
    if s != [] {
      var u := Unify(s, seps, c);
      assert u[0] == (if s[0] in seps then c else s[0]) && u[1..] == Unify(s[1..], seps, c);
      SplitUnify(s[1..], seps, c);
    }
  }

  /** The pieces, joined by any one separator, give back the text with each separator
      replaced by it: every cut falls exactly at a separator character */
  lemma {:induction false} SplitCuts(s: string, seps: set<char>, c: char)
    requires c in seps
    ensures Join(Split(s, seps), [c]) == Unify(s, seps, c)
  {
    SplitUnify(s, seps, c);
    SplitThenJoin(Unify(s, seps, c), c);
  }

  /** There is one piece more than there are separators */
  lemma {:induction false} SplitCount(s: string, seps: set<char>)
    ensures |Split(s, seps)| == 1 + |s| - |Without(s, seps)|
  {
    if s != [] {
      SplitCount(s[1..], seps);
    }
  }

  /** Dropping empty pieces does not change the text they make up */
  lemma {:induction false} NonEmptyConcat(ts: seq<string>)
    ensures Concat(NonEmpty(ts)) == Concat(ts)
  {
    if ts != [] {
      NonEmptyConcat(ts[1..]);
      if ts[0] == [] {
        assert Concat(ts) == [] + Concat(ts[1..]) == Concat(ts[1..]);
      } else {
        assert ([ts[0]] + NonEmpty(ts[1..]))[1..] == NonEmpty(ts[1..]);
      }
    }
  }

  /** String.Join(sep, ts): the pieces with sep between each two, so one piece joins to
      itself and the text is never shorter than the pieces together */
  function Join(ts: seq<string>, sep: string): (r: string)
    ensures |ts| == 1 ==> r == ts[0]
    ensures |r| >= |Concat(ts)|
  {
    if |ts| == 0 then ""
    else if |ts| == 1 then ts[0]
    else ts[0] + sep + Join(ts[1..], sep)
  }

  /** The joined text starts with the first piece and ends with the last */
  lemma {:induction false} JoinEnds(ts: seq<string>, sep: string)
    requires |ts| >= 1
    ensures |ts[0]| <= |Join(ts, sep)| && Join(ts, sep)[..|ts[0]|] == ts[0]
    ensures |ts[|ts| - 1]| <= |Join(ts, sep)| && Join(ts, sep)[|Join(ts, sep)| - |ts[|ts| - 1]|..] == ts[|ts| - 1]
  {
    if |ts| > 1 {
      JoinEnds(ts[1..], sep);
      assert ts[1..][|ts| - 2] == ts[|ts| - 1];
    }
  }

  /** Gluing text onto the first piece glues it onto the joined text */
  lemma {:induction false} JoinGlue(a: string, ts: seq<string>, sep: string)
    requires ts != []
    ensures Join([a + ts[0]] + ts[1..], sep) == a + Join(ts, sep)
  {
    var u := [a + ts[0]] + ts[1..];
    assert u[0] == a + ts[0] && u[1..] == ts[1..];
    if |ts| > 1 {
      assert Join(u, sep) == (a + ts[0]) + sep + Join(ts[1..], sep);
      assert Join(ts, sep) == ts[0] + sep + Join(ts[1..], sep);
    }
  }

  /** Splitting at one character and joining with it gives the text back */
  lemma {:induction false} SplitThenJoin(s: string, c: char)
    ensures Join(Split(s, {c}), [c]) == s
  {
    if s != [] {
      var rest := Split(s[1..], {c});
      SplitThenJoin(s[1..], c);
      if s[0] == c {
        var u := [""] + rest;
        assert Split(s, {c}) == u && u[0] == "" && u[1..] == rest;
        assert Join(u, [c]) == "" + [c] + Join(rest, [c]);
        assert s == [c] + s[1..];
      } else {
        assert Split(s, {c}) == [[s[0]] + rest[0]] + rest[1..];
        JoinGlue([s[0]], rest, [c]);
        assert s == [s[0]] + s[1..];
      }
    }
  }

  /** Splitting text that starts with a separator-free piece a just glues a onto the first piece */
  lemma {:induction false} SplitAfterPiece(a: string, s: string, seps: set<char>)
    requires FreeOf(a, seps)
    ensures Split(a + s, seps) == [a + Split(s, seps)[0]] + Split(s, seps)[1..]
  {
    if a == [] {
      assert a + s == s && a + Split(s, seps)[0] == Split(s, seps)[0];
      assert Split(s, seps) == [Split(s, seps)[0]] + Split(s, seps)[1..];
    } else {
      assert (a + s)[0] == a[0] && (a + s)[1..] == a[1..] + s;
      SplitAfterPiece(a[1..], s, seps);
      assert [a[0]] + (a[1..] + Split(s, seps)[0]) == a + Split(s, seps)[0];
    }
  }

  /** Leading separators only add empty pieces, which RemoveEmptyEntries drops */
  lemma {:induction false} SplitAfterSeparators(p: string, s: string, seps: set<char>)
    requires forall c :: c in p ==> c in seps
    ensures NonEmpty(Split(p + s, seps)) == NonEmpty(Split(s, seps))
  {
    if p == [] {
      assert p + s == s;
    } else {
      assert (p + s)[0] == p[0] && (p + s)[1..] == p[1..] + s;
      var rest := Split(p[1..] + s, seps);
      assert Split(p + s, seps) == [""] + rest;
      assert ([""] + rest)[1..] == rest;
      SplitAfterSeparators(p[1..], s, seps);
    }
  }

  /** Join then Split-with-RemoveEmptyEntries gives the pieces back, for any non-empty
      separator made of separator characters and non-empty separator-free pieces */
  lemma {:induction false} SplitJoinNonEmpty(ts: seq<string>, sep: string, seps: set<char>)
    requires |ts| >= 1 && sep != [] && forall c :: c in sep ==> c in seps
    requires forall t :: t in ts ==> t != [] && FreeOf(t, seps)
    ensures NonEmpty(Split(Join(ts, sep), seps)) == ts
  {
    if |ts| == 1 {
      SplitAfterPiece(ts[0], "", seps);
      assert ts[0] + "" == ts[0];
      assert NonEmpty([ts[0]]) == [ts[0]] + NonEmpty([]);
    } else {
      assert ts[0] in ts;
      SplitJoinStep(ts, sep, seps);
      assert forall t :: t in ts[1..] ==> t in ts;
      SplitJoinNonEmpty(ts[1..], sep, seps);
      assert ts == [ts[0]] + ts[1..];
    }
  }

  /** The first piece, then a separator run: the first non-empty piece is that piece */
  lemma {:induction false} SplitJoinStep(ts: seq<string>, sep: string, seps: set<char>)
    requires |ts| >= 2 && sep != [] && forall c :: c in sep ==> c in seps
    requires ts[0] != [] && FreeOf(ts[0], seps)
    ensures NonEmpty(Split(Join(ts, sep), seps)) == [ts[0]] + NonEmpty(Split(Join(ts[1..], sep), seps))
  {
    var rest := Join(ts[1..], sep);
    var s := sep + rest;
    assert Join(ts, sep) == ts[0] + s;
    SplitAfterPiece(ts[0], s, seps);
    var parts := Split(s, seps);
    assert s[0] == sep[0] && parts[0] == "";
    assert ts[0] + parts[0] == ts[0];
    assert ([ts[0]] + parts[1..])[1..] == parts[1..];
    assert NonEmpty(parts) == NonEmpty(parts[1..]);
    SplitAfterSeparators(sep, rest, seps);
  }

  /** Join on one character then Split on it gives exactly the pieces back, empty ones included */
  lemma {:induction false} SplitJoinExact(ts: seq<string>, sep: char)
    requires |ts| >= 1
    requires forall t :: t in ts ==> FreeOf(t, {sep})
    ensures Split(Join(ts, [sep]), {sep}) == ts
  {
    if |ts| == 1 {
      SplitAfterPiece(ts[0], "", {sep});
      assert ts[0] + "" == ts[0];
    } else {
      var rest := Join(ts[1..], [sep]);
      assert Join(ts, [sep]) == ts[0] + ([sep] + rest);
      SplitAfterPiece(ts[0], [sep] + rest, {sep});
      assert ([sep] + rest)[0] == sep && ([sep] + rest)[1..] == rest;
      var tail := Split(rest, {sep});
      assert Split([sep] + rest, {sep}) == [""] + tail;
      assert ([""] + tail)[1..] == tail;
      assert ts[0] + "" == ts[0];
      assert Split(Join(ts, [sep]), {sep}) == [ts[0]] + tail;
      assert forall t :: t in ts[1..] ==> t in ts;
      SplitJoinExact(ts[1..], sep);
      assert ts == [ts[0]] + ts[1..];
    }
  }

  // ---------------------------------------------------------------- decimal text

  function DigitChar(d: nat): (c: char)
    requires d < 10
    ensures IsDigit(c)
  {
    (48 + d) as char
  }

  function DigitValue(c: char): nat
    requires IsDigit(c)
  {
    c as int - 48
  }

  /** The decimal digits of n, most significant first, without leading zeros */
  function NatText(n: nat): (r: string)
    ensures r != [] && IsDigit(r[0]) && IsDigit(r[|r| - 1])
    ensures forall c :: c in r ==> IsDigit(c)
  {
    if n < 10 then [DigitChar(n)] else NatText(n / 10) + [DigitChar(n % 10)]
  }

  /** The value of a string of decimal digits */
  function DigitsValue(s: string): nat
    requires forall c :: c in s ==> IsDigit(c)
  {
    if s == [] then 0 else DigitsValue(s[..|s| - 1]) * 10 + DigitValue(s[|s| - 1])
  }

  lemma {:induction false} DigitsValueOfNatText(n: nat)
    ensures DigitsValue(NatText(n)) == n
  {
    var s := NatText(n);
    if n >= 10 {
      assert s[..|s| - 1] == NatText(n / 10);
      DigitsValueOfNatText(n / 10);
    }
  }

  /** Int32.ToString(): an optional '-' and the decimal digits */
  function FormatInt(x: int): (r: string)
    ensures r != [] && r[0] != '+' && IsDigit(r[|r| - 1])
    ensures forall c :: c in r ==> IsDigit(c) || c == '-'
  {
    if x < 0 then "-" + NatText(-x) else NatText(x)
  }

  /** Each number of xs in decimal, in order */
  function FormatAll(xs: seq<int>): (r: seq<string>)
    ensures |r| == |xs| && forall k :: 0 <= k < |xs| ==> r[k] == FormatInt(xs[k])
  {
    if xs == [] then [] else [FormatInt(xs[0])] + FormatAll(xs[1..])
  }

  /** Int32.TryParse(s) and Int32.Parse(s) with NumberStyles.Integer: surrounding
      whitespace, then an optional '+' or '-', then at least one ASCII digit, and the
      value must fit an int. None is where TryParse returns false and Parse throws. */
  function ParseInt32(s: string): (r: Option<Int32>)
    ensures r.Some? ==> exists k :: 0 <= k < |s| && IsDigit(s[k])
  {
    ParseSigned(Trim(s, ParseWhite))
  }

  /** An optional sign followed by digits only, within the int range */
  function ParseSigned(t: string): (r: Option<Int32>)
    ensures r.Some? ==> exists k :: 0 <= k < |t| && IsDigit(t[k])
  {
    var signed := t != [] && (t[0] == '-' || t[0] == '+');
    var digits := if signed then t[1..] else t;
    if digits == [] || !(forall c :: c in digits ==> IsDigit(c)) then None
    else
      var magnitude: int := DigitsValue(digits);
      var v := if signed && t[0] == '-' then -magnitude else magnitude;
      if MinInt32 <= v <= MaxInt32 then Some(v) else None
  }

  lemma TrimKeepsNumber(s: string)
    requires s != [] && (s[0] == '-' || IsDigit(s[0])) && IsDigit(s[|s| - 1])
    ensures Trim(s, ParseWhite) == s
  {
    assert s[0] !in ParseWhite && s[|s| - 1] !in ParseWhite;
  }

  lemma ParseSignedDigits(n: nat)
    requires n <= MaxInt32
    ensures ParseSigned(NatText(n)) == Some(n)
  {
    var t := NatText(n);
    assert IsDigit(t[0]);
    assert !(t != [] && (t[0] == '-' || t[0] == '+'));
    DigitsValueOfNatText(n);
  }

  lemma ParseSignedNegative(n: nat)
    requires n <= -MinInt32
    ensures ParseSigned("-" + NatText(n)) == Some((-(n as int)) as Int32)
  {
    var digits := NatText(n);
    var t := "-" + digits;
    assert t[0] == '-' && t[1..] == digits;
    DigitsValueOfNatText(n);
  }

  /** Int32.Parse(x.ToString()) == x */
  lemma FormatThenParse(x: Int32)
    ensures ParseInt32(FormatInt(x)) == Some(x)
  {
    var s := FormatInt(x);
    if x < 0 {
      var m: nat := -(x as int);
      var digits := NatText(m);
      assert s == "-" + digits;
      assert s[0] == '-' && s[|s| - 1] == digits[|digits| - 1];
      TrimKeepsNumber(s);
      ParseSignedNegative(m);
    } else {
      assert s == NatText(x);
      TrimKeepsNumber(s);
      ParseSignedDigits(x);
    }
  }
}
