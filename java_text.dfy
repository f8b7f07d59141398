/**
 * The parts of `java.lang.String`, `Character` and `Integer` that the RIS importer relies on,
 * written out over `string` (a sequence of UTF-16 code units is modelled as a sequence of chars).
 */
module JavaText {
  import opened Wrappers

  // ---------------------------------------------------------------- trim

  /** `String.trim()` removes leading characters whose code is at most U+0020. */
  function TrimStart(s: string): (r: string)
    ensures |r| <= |s| && r == s[|s| - |r|..]
    ensures r == [] || r[0] > ' '
  {
    if s != [] && s[0] <= ' ' then TrimStart(s[1..]) else s
  }

  /** What `TrimStart` removes is at most U+0020. */
  lemma {:induction false} TrimStartRemovesBlank(s: string)
    ensures forall i :: 0 <= i < |s| - |TrimStart(s)| ==> s[i] <= ' '
  {
    if s != [] && s[0] <= ' ' {
      TrimStartRemovesBlank(s[1..]);
      assert forall i :: 1 <= i < |s| ==> s[i] == s[1..][i - 1];
    }
  }

  /** `String.trim()` removes trailing characters whose code is at most U+0020. */
  function TrimEnd(s: string): (r: string)
    ensures |r| <= |s| && r == s[..|r|]
    ensures r == [] || r[|r| - 1] > ' '
  {
    if s != [] && s[|s| - 1] <= ' ' then TrimEnd(s[..|s| - 1]) else s
  }

  /** What `TrimEnd` removes is at most U+0020. */
  lemma {:induction false} TrimEndRemovesBlank(s: string)
    ensures forall i :: |TrimEnd(s)| <= i < |s| ==> s[i] <= ' '
  {
    if s != [] && s[|s| - 1] <= ' ' {
      TrimEndRemovesBlank(s[..|s| - 1]);
    }
  }

  /** `String.trim()`: the result starts and ends with a character above U+0020. */
  function Trim(s: string): (r: string)
    ensures r == [] || (r[0] > ' ' && r[|r| - 1] > ' ')
  {
    TrimEnd(TrimStart(s))
  }

  /** `trim()` leaves nothing exactly when every character is at most U+0020. */
  lemma TrimEmptyIff(s: string)
    ensures Trim(s) == [] <==> forall i :: 0 <= i < |s| ==> s[i] <= ' '
  {
    var t := TrimStart(s);
    TrimStartRemovesBlank(s);
    TrimEndRemovesBlank(t);
    assert forall i :: |s| - |t| <= i < |s| ==> s[i] == t[i - (|s| - |t|)];
  }

  // ---------------------------------------------------------------- whitespace

  /** `Character.isWhitespace(c)`: a Unicode space, line or paragraph separator other than the
      three non-breaking spaces, or one of the controls U+0009..U+000D, U+001C..U+001F. */
  predicate IsJavaWhitespace(c: char) {
    ('\U{9}' <= c <= '\U{D}') || ('\U{1C}' <= c <= '\U{1F}') || c == ' ' || c == '\U{1680}'
    || ('\U{2000}' <= c <= '\U{2006}') || ('\U{2008}' <= c <= '\U{200A}')
    || c == '\U{2028}' || c == '\U{2029}' || c == '\U{205F}' || c == '\U{3000}'
  }

  /** The regular-expression class `\s` (without UNICODE_CHARACTER_CLASS): [ \t\n\x0B\f\r]. */
  predicate IsRegexSpace(c: char) {
    c == ' ' || c == '\t' || c == '\n' || c == '\U{B}' || c == '\U{C}' || c == '\r'
  }

  /** No `\s` character other than a plain space, and never two `\s` characters in a row. */
  predicate NoSpaceRuns(s: string) {
    forall i :: 0 <= i < |s| && IsRegexSpace(s[i]) ==> s[i] == ' ' && (i + 1 < |s| ==> !IsRegexSpace(s[i + 1]))
  }

  /** Drops the leading run of `\s` characters. */
  function DropLeadingSpace(s: string): (r: string)
    ensures |r| <= |s| && r == s[|s| - |r|..]
    ensures r == [] || !IsRegexSpace(r[0])
  {
    if s != [] && IsRegexSpace(s[0]) then DropLeadingSpace(s[1..]) else s
  }

  /** `s.replaceAll("\\s+", " ")`: every maximal run of `\s` characters becomes one space. */
  function CollapseSpaces(s: string): (r: string)
    ensures NoSpaceRuns(r)
    ensures r == [] <==> s == []
    ensures s != [] ==> (IsRegexSpace(r[0]) <==> IsRegexSpace(s[0]))
    decreases |s|
  {
    if s == [] then []
    else if IsRegexSpace(s[0]) then [' '] + CollapseSpaces(DropLeadingSpace(s[1..]))
    else [s[0]] + CollapseSpaces(s[1..])
  }

  /** The characters of `s` that are not in `\s`, in order. */
  function NonSpace(s: string): string {
    if s == [] then [] else (if IsRegexSpace(s[0]) then [] else [s[0]]) + NonSpace(s[1..])
  }

  lemma {:induction false} NonSpaceOfDropped(s: string)
    ensures NonSpace(DropLeadingSpace(s)) == NonSpace(s)
    decreases |s|
  {
    if s != [] && IsRegexSpace(s[0]) {
      NonSpaceOfDropped(s[1..]);
    }
  }

  /** Collapsing keeps every non-space character, in order, and nothing else. */
  lemma {:induction false} CollapseKeepsWords(s: string)
    ensures NonSpace(CollapseSpaces(s)) == NonSpace(s)
    decreases |s|
  {
    if s != [] {
      if IsRegexSpace(s[0]) {
        var t := DropLeadingSpace(s[1..]);
        CollapseKeepsWords(t);
        NonSpaceOfDropped(s[1..]);
        assert ([' '] + CollapseSpaces(t))[1..] == CollapseSpaces(t);
      } else {
        CollapseKeepsWords(s[1..]);
        assert ([s[0]] + CollapseSpaces(s[1..]))[1..] == CollapseSpaces(s[1..]);
      }
    }
  }

  lemma NoSpaceRunsTail(s: string)
    requires s != [] && NoSpaceRuns(s)
    ensures NoSpaceRuns(s[1..])
  {
    forall i | 0 <= i < |s| - 1 && IsRegexSpace(s[1..][i])
      ensures s[1..][i] == ' ' && (i + 1 < |s| - 1 ==> !IsRegexSpace(s[1..][i + 1]))
    {
      assert s[1..][i] == s[i + 1];
    }
  }

  /** A string without space runs is left as it is: collapsing is idempotent. */
  lemma {:induction false} CollapseFixesCollapsed(s: string)
    requires NoSpaceRuns(s)
    ensures CollapseSpaces(s) == s
    decreases |s|
  {
    if s != [] {
      NoSpaceRunsTail(s);
      CollapseFixesCollapsed(s[1..]);
      if IsRegexSpace(s[0]) {
        assert |s| > 1 ==> !IsRegexSpace(s[1]);
        assert DropLeadingSpace(s[1..]) == s[1..];
      }
    }
  }

  /** A run of `\s` characters alone becomes one space. */
  lemma CollapseRun(s: string)
    requires s != [] && forall i :: 0 <= i < |s| ==> IsRegexSpace(s[i])
    ensures CollapseSpaces(s) == " "
  {
    DropLeadingAllSpace(s[1..]);
  }

  /** Text without `\s` characters is left as it is. */
  lemma CollapseWord(s: string)
    requires forall i :: 0 <= i < |s| ==> !IsRegexSpace(s[i])
    ensures CollapseSpaces(s) == s
  {
    CollapseFixesCollapsed(s);
  }

  /** Collapsing works piecewise across a boundary between a `\s` run and a word: with the two
      lemmas above it fixes the result on every input, one space per maximal run and every word
      kept as it is, in order. */
  lemma {:induction false} CollapseSplits(a: string, b: string)
    requires a != [] && b != [] && IsRegexSpace(a[|a| - 1]) != IsRegexSpace(b[0])
    ensures CollapseSpaces(a + b) == CollapseSpaces(a) + CollapseSpaces(b)
    decreases |a|, 1
  {
    if !IsRegexSpace(a[0]) {
      CollapseSplitsWord(a, b);
    } else if DropLeadingSpace(a[1..]) == [] {
      RunAllSpace(a);
      CollapseSplitsRun(a, b);
    } else {
      CollapseSplitsSpace(a, b);
    }
  }

  /** `a` starts with a word character, which is kept. */
  lemma {:induction false} CollapseSplitsWord(a: string, b: string)
    requires a != [] && b != [] && IsRegexSpace(a[|a| - 1]) != IsRegexSpace(b[0])
    requires !IsRegexSpace(a[0])
    ensures CollapseSpaces(a + b) == CollapseSpaces(a) + CollapseSpaces(b)
    decreases |a|, 0
  {
    var c, t := a[0], a[1..];
    if t == [] {
      CollapseSplitsChar(a, b);
    } else {
      calc {
        CollapseSpaces(a + b);
      == { ConsSplit(a, b); CollapseCons(c, t + b); }
        [c] + CollapseSpaces(t + b);
      == { assert t[|t| - 1] == a[|a| - 1]; CollapseSplits(t, b); }
        [c] + (CollapseSpaces(t) + CollapseSpaces(b));
      == { AppendAssoc([c], CollapseSpaces(t), CollapseSpaces(b)); }
        ([c] + CollapseSpaces(t)) + CollapseSpaces(b);
      == { ConsOf(a); CollapseCons(c, t); }
        CollapseSpaces(a) + CollapseSpaces(b);
      }
    }
  }

  /** `a` is a single word character. */
  lemma CollapseSplitsChar(a: string, b: string)
    requires |a| == 1 && !IsRegexSpace(a[0])
    ensures CollapseSpaces(a + b) == CollapseSpaces(a) + CollapseSpaces(b)
  {
    assert a == [a[0]];
    CollapseCons(a[0], b);
    CollapseCons(a[0], []);
    assert [a[0]] + [] == a;
  }

  /** `a` is one run of `\s`, so `b` starts with a word. */
  lemma CollapseSplitsRun(a: string, b: string)
    requires a != [] && b != [] && !IsRegexSpace(b[0])
    requires forall i :: 0 <= i < |a| ==> IsRegexSpace(a[i])
    ensures CollapseSpaces(a + b) == CollapseSpaces(a) + CollapseSpaces(b)
  {
    CollapseRun(a);
    DropLeadingAllSpace(a[1..]);
    DropLeadingConcat(a[1..], b);
    WordStartKept(b);
    CollapseSpaceHead(a, b);
  }

  /** Collapsing text that starts with `\s`: one space, then the text after the leading run. */
  lemma CollapseSpaceHead(a: string, b: string)
    requires a != [] && IsRegexSpace(a[0])
    ensures CollapseSpaces(a + b) == [' '] + CollapseSpaces(DropLeadingSpace(a[1..] + b))
  {
    ConsSplit(a, b);
    CollapseCons(a[0], a[1..] + b);
  }

  /** A `\s` character followed by nothing but a leading run is one run. */
  lemma RunAllSpace(a: string)
    requires a != [] && IsRegexSpace(a[0]) && DropLeadingSpace(a[1..]) == []
    ensures forall i :: 0 <= i < |a| ==> IsRegexSpace(a[i])
  {
    DropLeadingSkipsSpace(a[1..]);
    assert forall i :: 1 <= i < |a| ==> a[i] == a[1..][i - 1];
  }

  /** Text that starts with a word has no leading run to drop. */
  lemma WordStartKept(b: string)
    requires b != [] && !IsRegexSpace(b[0])
    ensures DropLeadingSpace(b) == b
  {
  }

  /** `a` starts with a run of `\s` followed by a word: the run becomes one space. */
  lemma {:induction false} CollapseSplitsSpace(a: string, b: string)
    requires a != [] && b != [] && IsRegexSpace(a[|a| - 1]) != IsRegexSpace(b[0])
    requires IsRegexSpace(a[0]) && DropLeadingSpace(a[1..]) != []
    ensures CollapseSpaces(a + b) == CollapseSpaces(a) + CollapseSpaces(b)
    decreases |a|, 0
  {
    var c, t := a[0], a[1..];
    var u := DropLeadingSpace(t);
    calc {
      CollapseSpaces(a + b);
    == { ConsSplit(a, b); CollapseCons(c, t + b); }
      [' '] + CollapseSpaces(DropLeadingSpace(t + b));
    == { DropLeadingConcat(t, b); }
      [' '] + CollapseSpaces(u + b);
    == { assert u[|u| - 1] == t[|t| - 1] == a[|a| - 1]; CollapseSplits(u, b); }
      [' '] + (CollapseSpaces(u) + CollapseSpaces(b));
    == { AppendAssoc([' '], CollapseSpaces(u), CollapseSpaces(b)); }
      ([' '] + CollapseSpaces(u)) + CollapseSpaces(b);
    == { ConsOf(a); CollapseCons(c, t); }
      CollapseSpaces(a) + CollapseSpaces(b);
    }
  }

  /** A non-empty string is its first character, then the rest. */
  lemma ConsOf(a: string)
    requires a != []
    ensures a == [a[0]] + a[1..]
  {
  }

  /** `a + b` is the first character of `a`, then the rest of `a`, then `b`. */
  lemma ConsSplit(a: string, b: string)
    requires a != []
    ensures a + b == [a[0]] + (a[1..] + b)
  {
  }

  lemma AppendAssoc(x: string, y: string, z: string)
    ensures x + (y + z) == (x + y) + z
  {
  }

  /** What `DropLeadingSpace` removes is `\s`. */
  lemma {:induction false} DropLeadingSkipsSpace(s: string)
    ensures forall i :: 0 <= i < |s| - |DropLeadingSpace(s)| ==> IsRegexSpace(s[i])
    decreases |s|
  {
    if s != [] && IsRegexSpace(s[0]) {
      DropLeadingSkipsSpace(s[1..]);
      assert forall i :: 1 <= i < |s| ==> s[i] == s[1..][i - 1];
    }
  }

  /** One step of collapsing: a leading `\s` character takes the rest of its run with it. */
  lemma CollapseCons(c: char, t: string)
    ensures CollapseSpaces([c] + t) ==
              if IsRegexSpace(c) then [' '] + CollapseSpaces(DropLeadingSpace(t)) else [c] + CollapseSpaces(t)
  {
    assert ([c] + t)[0] == c && ([c] + t)[1..] == t;
  }

  /** Dropping the leading run of a run alone leaves nothing. */
  lemma {:induction false} DropLeadingAllSpace(s: string)
    requires forall i :: 0 <= i < |s| ==> IsRegexSpace(s[i])
    ensures DropLeadingSpace(s) == []
    decreases |s|
  {
    if s != [] {
      assert forall i :: 0 <= i < |s[1..]| ==> s[1..][i] == s[i + 1];
      DropLeadingAllSpace(s[1..]);
    }
  }

  /** The leading run of `x + y` is that of `x`, continued into `y` when `x` is all `\s`. */
  lemma {:induction false} DropLeadingConcat(x: string, y: string)
    ensures DropLeadingSpace(x + y) == if DropLeadingSpace(x) == [] then DropLeadingSpace(y) else DropLeadingSpace(x) + y
    decreases |x|
  {
    if x == [] {
      assert x + y == y;
    } else {
      assert (x + y)[0] == x[0];
      assert (x + y)[1..] == x[1..] + y;
      if IsRegexSpace(x[0]) {
        DropLeadingConcat(x[1..], y);
      }
    }
  }

  lemma CollapseIdempotent(s: string)
    ensures CollapseSpaces(CollapseSpaces(s)) == CollapseSpaces(s)
  {
    CollapseFixesCollapsed(CollapseSpaces(s));
  }

  // ---------------------------------------------------------------- join and split

  /** `String.join(sep, parts)`, also what `StringJoiner(sep).toString()` gives for the added parts. */
  function Join(sep: string, parts: seq<string>): string
    decreases |parts|
  {
    if |parts| == 0 then "" else if |parts| == 1 then parts[0] else parts[0] + sep + Join(sep, parts[1..])
  }

  /** Adding a part to a joiner appends the separator and the part. */
  lemma {:induction false} JoinSnoc(sep: string, parts: seq<string>, v: string)
    requires |parts| > 0
    ensures Join(sep, parts + [v]) == Join(sep, parts) + sep + v
    decreases |parts|
  {
    if |parts| > 1 {
      JoinSnoc(sep, parts[1..], v);
      assert (parts + [v])[1..] == parts[1..] + [v];
    } else {
      assert (parts + [v])[1..] == [v];
    }
  }

  /** Once a joiner holds at least one part, its text can only grow. */
  lemma JoinGrows(sep: string, parts: seq<string>, v: string)
    requires |parts| > 0
    ensures Join(sep, parts) <= Join(sep, parts + [v])
  {
    JoinSnoc(sep, parts, v);
  }

  /** The text of `s` between occurrences of `d`, every occurrence splitting (no piece dropped). */
  function Pieces(s: string, d: char): (r: seq<string>)
    ensures |r| >= 1
    decreases |s|
  {
    if s == [] then [""]
    else if s[0] == d then [""] + Pieces(s[1..], d)
    else
      var rest := Pieces(s[1..], d);
      [[s[0]] + rest[0]] + rest[1..]
  }

  /** No piece contains the delimiter. */
  lemma {:induction false} PiecesHaveNoDelimiter(s: string, d: char)
    ensures forall i :: 0 <= i < |Pieces(s, d)| ==> d !in Pieces(s, d)[i]
    decreases |s|
  {
    if s != [] {
      PiecesHaveNoDelimiter(s[1..], d);
      var rest := Pieces(s[1..], d);
      if s[0] != d {
        assert forall i :: 1 <= i < |Pieces(s, d)| ==> Pieces(s, d)[i] == rest[i];
      }
    }
  }

  /** Splitting at every `d` and joining again with `d` gives back the text. */
  lemma {:induction false} PiecesJoin(s: string, d: char)
    ensures Join([d], Pieces(s, d)) == s
    decreases |s|
  {
    if s != [] {
      PiecesJoin(s[1..], d);
      var rest := Pieces(s[1..], d);
      if s[0] == d {
        assert ([""] + rest)[1..] == rest;
      } else {
        var r := [[s[0]] + rest[0]] + rest[1..];
        if |rest| > 1 {
          assert r[1..] == rest[1..];
        }
      }
    }
  }

  /** What a split with limit 0 does to its pieces: trailing empty strings are dropped. */
  function DropTrailingEmpty(p: seq<string>): (r: seq<string>)
    ensures |r| <= |p|
    decreases |p|
  {
    if |p| > 0 && p[|p| - 1] == "" then DropTrailingEmpty(p[..|p| - 1]) else p
  }

  /** The result is a prefix of the pieces that does not end with an empty string, and only
      empty strings were dropped. */
  lemma {:induction false} DropTrailingEmptyPrefix(p: seq<string>)
    ensures var r := DropTrailingEmpty(p);
      && r == p[..|r|]
      && (r == [] || r[|r| - 1] != "")
      && forall i :: |r| <= i < |p| ==> p[i] == ""
    decreases |p|
  {
    if |p| > 0 && p[|p| - 1] == "" {
      var q := p[..|p| - 1];
      DropTrailingEmptyPrefix(q);
      var r := DropTrailingEmpty(q);
      assert forall i :: 0 <= i < |q| ==> q[i] == p[i];
      assert q[..|r|] == p[..|r|];
    } else {
      assert p[..|p|] == p;
    }
  }

  /** `s.split(d)` for a one-character literal delimiter: without any occurrence the result is `[s]`
      (so `"".split(d)` is `[""]`); otherwise the pieces with the trailing empty ones dropped. */
  function JavaSplit(s: string, d: char): (r: seq<string>)
    ensures d !in s ==> r == [s]
    ensures |Pieces(s, d)| > 1 ==> r == [] || r[|r| - 1] != ""
  {
    var p := Pieces(s, d);
    PiecesWithoutDelimiter(s, d);
    DropTrailingEmptyPrefix(p);
    if |p| == 1 then p else DropTrailingEmpty(p)
  }

  /** The split is a prefix of the pieces, and only empty pieces are missing from it. */
  lemma JavaSplitPieces(s: string, d: char)
    ensures var r := JavaSplit(s, d);
      && |r| <= |Pieces(s, d)| && r == Pieces(s, d)[..|r|]
      && (forall i :: |r| <= i < |Pieces(s, d)| ==> Pieces(s, d)[i] == "")
      && (|Pieces(s, d)| > 1 ==> r == [] || r[|r| - 1] != "")
  {
    var p := Pieces(s, d);
    if |p| == 1 {
      assert p[..1] == p;
    } else {
      DropTrailingEmptyPrefix(p);
    }
  }

  lemma {:induction false} PiecesWithoutDelimiter(s: string, d: char)
    ensures d !in s ==> Pieces(s, d) == [s]
    decreases |s|
  {
    if s != [] && d !in s {
      PiecesWithoutDelimiter(s[1..], d);
      assert [s[0]] + s[1..] == s;
    }
  }

  // ---------------------------------------------------------------- search

  /** `pat` occurs in `s` at position `i`. */
  predicate OccursAt(s: string, pat: string, i: nat) {
    i + |pat| <= |s| && s[i..i + |pat|] == pat
  }

  /** `s.contains(pat)`, searched from the left. */
  function Contains(s: string, pat: string): bool
    decreases |s|
  {
    if |s| < |pat| then false else s[..|pat|] == pat || Contains(s[1..], pat)
  }

  lemma {:induction false} ContainsIff(s: string, pat: string)
    ensures Contains(s, pat) <==> exists i: nat :: OccursAt(s, pat, i)
    decreases |s|
  {
    if |s| >= |pat| && s == [] {
      assert OccursAt(s, pat, 0);
    } else if |s| >= |pat| {
      ContainsIff(s[1..], pat);
      if Contains(s[1..], pat) {
        var i: nat :| OccursAt(s[1..], pat, i);
        assert s[1..][i..i + |pat|] == s[i + 1..i + 1 + |pat|];
        assert OccursAt(s, pat, i + 1);
      }
      if s[..|pat|] == pat {
        assert OccursAt(s, pat, 0);
      }
      if i: nat :| OccursAt(s, pat, i) {
        if i > 0 {
          assert s[1..][i - 1..i - 1 + |pat|] == s[i..i + |pat|];
          assert OccursAt(s[1..], pat, i - 1);
        }
      }
    } else {
      if i: nat :| OccursAt(s, pat, i) {
        assert false;
      }
    }
  }

  // ---------------------------------------------------------------- Integer.parseInt

  const IntMin: int := -0x8000_0000
  const IntMax: int := 0x7FFF_FFFF

  predicate IsAsciiDigit(c: char) { '0' <= c <= '9' }

  predicate AllAsciiDigits(s: string) { forall i :: 0 <= i < |s| ==> IsAsciiDigit(s[i]) }

  /** The decimal value of a string of ASCII digits. */
  function DigitsValue(s: string): nat
    requires AllAsciiDigits(s)
    decreases |s|
  {
    if s == [] then 0 else 10 * DigitsValue(s[..|s| - 1]) + (s[|s| - 1] as int - '0' as int)
  }

  /** A decimal integer literal: an optional sign followed by at least one ASCII digit. */
  predicate IsIntLiteral(s: string) {
    |s| > 0 && (AllAsciiDigits(s) || ((s[0] == '-' || s[0] == '+') && |s| > 1 && AllAsciiDigits(s[1..])))
  }

  /** The signed value of a decimal integer literal. */
  function LiteralValue(s: string): int
    requires IsIntLiteral(s)
  {
    if s[0] == '-' then -(DigitsValue(s[1..]) as int) else if s[0] == '+' then DigitsValue(s[1..]) else DigitsValue(s)
  }

  /** `Integer.parseInt(s)`: an optional sign and at least one digit, within 32 bits;
      `None` where Java throws NumberFormatException. */
  function ParseInt(s: string): (r: Option<int>)
    ensures r.Some? <==> IsIntLiteral(s) && IntMin <= LiteralValue(s) <= IntMax
    ensures r.Some? ==> r.value == LiteralValue(s) && IntMin <= r.value <= IntMax
    ensures AllAsciiDigits(s) && 0 < |s| && DigitsValue(s) <= IntMax ==> r == Some(DigitsValue(s))
  {
    if |s| == 0 then None
    else if s[0] == '-' || s[0] == '+' then
      if |s| == 1 || !AllAsciiDigits(s[1..]) then None
      else
        var v: int := DigitsValue(s[1..]);
        var n: int := if s[0] == '-' then -v else v;
        if IntMin <= n <= IntMax then Some(n) else None
    else if !AllAsciiDigits(s) then None
    else if DigitsValue(s) <= IntMax then Some(DigitsValue(s))
    else None
  }
}
