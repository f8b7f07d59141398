/**
 * Record splitting in `importDatabase`: the lines are joined with "\n", typographic dashes are
 * replaced, and the text is split on the regular expression `ER {2}-.*(\n)*`.
 */
module RisSplitter {
  import opened Wrappers
  import opened JavaText

  // ---------------------------------------------------------------- dash normalisation

  /** `String.replace` with a one-character target. */
  function ReplaceChar(s: string, target: char, replacement: string): string
    decreases |s|
  {
    if s == [] then [] else (if s[0] == target then replacement else [s[0]]) + ReplaceChar(s[1..], target, replacement)
  }

  lemma {:induction false} ReplaceCharAppend(a: string, b: string, target: char, replacement: string)
    ensures ReplaceChar(a + b, target, replacement) == ReplaceChar(a, target, replacement) + ReplaceChar(b, target, replacement)
    decreases |a|
  {
    if a != [] {
      ReplaceCharAppend(a[1..], b, target, replacement);
      assert (a + b)[1..] == a[1..] + b;
    } else {
      assert a + b == b;
    }
  }

  function DashReplacement(c: char): string {
    if c == '\U{2013}' then "-" else if c == '\U{2014}' || c == '\U{2015}' then "--" else [c]
  }

  /** The three replacements in one pass: no en dash, em dash or horizontal bar is left. */
  function NormalizeDashes(s: string): (r: string)
    ensures forall i :: 0 <= i < |r| ==> r[i] != '\U{2013}' && r[i] != '\U{2014}' && r[i] != '\U{2015}'
    decreases |s|
  {
    if s == [] then [] else DashReplacement(s[0]) + NormalizeDashes(s[1..])
  }

  /** The one-pass normalisation is the source's chain of three `replace` calls. */
  lemma {:induction false} NormalizeDashesIsReplaceChain(s: string)
    ensures NormalizeDashes(s) == ReplaceChar(ReplaceChar(ReplaceChar(s, '\U{2013}', "-"), '\U{2014}', "--"), '\U{2015}', "--")
    decreases |s|
  {
    if s != [] {
      var c, t := s[0], s[1..];
      NormalizeDashesIsReplaceChain(t);
      var h1 := if c == '\U{2013}' then "-" else [c];
      var t1 := ReplaceChar(t, '\U{2013}', "-");
      assert ReplaceChar(s, '\U{2013}', "-") == h1 + t1;
      ReplaceCharAppend(h1, t1, '\U{2014}', "--");
      var h2 := ReplaceChar(h1, '\U{2014}', "--");
      var t2 := ReplaceChar(t1, '\U{2014}', "--");
      ReplaceCharAppend(h2, t2, '\U{2015}', "--");
      var h3 := ReplaceChar(h2, '\U{2015}', "--");
      assert h3 == DashReplacement(c) by {
        assert ReplaceChar("-", '\U{2014}', "--") == "-";
        assert ReplaceChar("-", '\U{2015}', "--") == "-";
        assert ReplaceChar("--", '\U{2015}', "--") == "--";
        assert ReplaceChar([c], '\U{2014}', "--") == if c == '\U{2014}' then "--" else [c];
        assert ReplaceChar([c], '\U{2015}', "--") == if c == '\U{2015}' then "--" else [c];
      }
    }
  }

  // ---------------------------------------------------------------- the terminator

  const EndMarker: string := "ER  -"

  /** The literal part `ER {2}-` of the split pattern matches at position `p`. */
  predicate TerminatorAt(s: string, p: nat) {
    p + |EndMarker| <= |s| && s[p..p + |EndMarker|] == EndMarker
  }

  /** The characters `.` does not match in java.util.regex by default. */
  predicate IsLineTerminator(c: char) {
    c == '\n' || c == '\r' || c == '\U{85}' || c == '\U{2028}' || c == '\U{2029}'
  }

  /** Where the greedy `.*` stops: the first line terminator at or after `p`, or the end. */
  function RestOfLineEnd(s: string, p: nat): (q: nat)
    requires p <= |s|
    ensures p <= q <= |s|
    ensures forall i :: p <= i < q ==> !IsLineTerminator(s[i])
    ensures q < |s| ==> IsLineTerminator(s[q])
    decreases |s| - p
  {
    if p < |s| && !IsLineTerminator(s[p]) then RestOfLineEnd(s, p + 1) else p
  }

  /** Where the greedy `(\n)*` stops. */
  function NewlinesEnd(s: string, p: nat): (q: nat)
    requires p <= |s|
    ensures p <= q <= |s|
    ensures forall i :: p <= i < q ==> s[i] == '\n'
    ensures q < |s| ==> s[q] != '\n'
    decreases |s| - p
  {
    if p < |s| && s[p] == '\n' then NewlinesEnd(s, p + 1) else p
  }

  /** The end of the whole match `ER {2}-.*(\n)*` that starts at `p`. */
  function TerminatorEnd(s: string, p: nat): (e: nat)
    requires TerminatorAt(s, p)
    ensures p + |EndMarker| <= e <= |s|
  {
    NewlinesEnd(s, RestOfLineEnd(s, p + |EndMarker|))
  }

  /** `Matcher.find()` from `from`: the leftmost position where the pattern matches. */
  function NextTerminator(s: string, from: nat): (r: Option<nat>)
    requires from <= |s|
    ensures r.Some? ==> from <= r.value && TerminatorAt(s, r.value)
                        && forall q: nat :: from <= q < r.value ==> !TerminatorAt(s, q)
    ensures r.None? ==> forall q: nat :: from <= q ==> !TerminatorAt(s, q)
    decreases |s| - from
  {
    if from == |s| then None
    else if TerminatorAt(s, from) then Some(from)
    else NextTerminator(s, from + 1)
  }

  /** The pieces between successive matches, from `from` on, before trailing empty ones are dropped. */
  function RawBlocks(s: string, from: nat): (r: seq<string>)
    requires from <= |s|
    ensures |r| >= 1
    ensures |r| == 1 <==> NextTerminator(s, from).None?
    decreases |s| - from
  {
    match NextTerminator(s, from)
    case None => [s[from..]]
    case Some(p) => [s[from..p]] + RawBlocks(s, TerminatorEnd(s, p))
  }

  /** The texts of the successive matches, from `from` on: one fewer than the pieces. */
  function Matches(s: string, from: nat): (r: seq<string>)
    requires from <= |s|
    ensures |r| + 1 == |RawBlocks(s, from)|
    decreases |s| - from
  {
    match NextTerminator(s, from)
    case None => []
    case Some(p) => [s[p..TerminatorEnd(s, p)]] + Matches(s, TerminatorEnd(s, p))
  }

  /** The pieces with the matches put back between them. */
  function Interleave(pieces: seq<string>, matches: seq<string>): string
    requires |pieces| == |matches| + 1
    decreases |matches|
  {
    if matches == [] then pieces[0] else pieces[0] + matches[0] + Interleave(pieces[1..], matches[1..])
  }

  /** `m` as a whole matches `ER {2}-.*(\n)*`: the marker, characters other than line
      terminators, then only newlines. */
  predicate FullMatch(m: string) {
    && |m| >= |EndMarker| && m[..|EndMarker|] == EndMarker
    && forall i, j :: |EndMarker| <= i <= j < |m| && IsLineTerminator(m[i]) ==> m[j] == '\n'
  }

  /** The match `m` could take the character `c` as well: a newline always, any other character
      that is not a line terminator while `.*` is still running. */
  predicate CanExtend(m: string, c: char) {
    c == '\n' || (!IsLineTerminator(c) && forall i :: |EndMarker| <= i < |m| ==> !IsLineTerminator(m[i]))
  }

  /** `text.split("ER {2}-.*(\\n)*")`: `[text]` when nothing matches, otherwise the pieces
      with trailing empty strings dropped (so leading or middle empty blocks are kept). */
  function SplitRecords(s: string): (r: seq<string>)
    ensures NextTerminator(s, 0).None? ==> r == [s]
    ensures var b := RawBlocks(s, 0);
      |r| <= |b| && r == b[..|r|] && forall i :: |r| <= i < |b| ==> b[i] == ""
    ensures NextTerminator(s, 0).Some? ==> r == [] || r[|r| - 1] != ""
  {
    var b := RawBlocks(s, 0);
    DropTrailingEmptyPrefix(b);
    assert b[..|b|] == b;
    assert NextTerminator(s, 0).None? ==> b == [s[0..]] && s[0..] == s;
    if |b| == 1 then b else DropTrailingEmpty(b)
  }

  /** The record blocks of the input lines, as the outer loop of `importDatabase` sees them. */
  function RecordBlocks(lines: seq<string>): seq<string> {
    SplitRecords(NormalizeDashes(Join("\n", lines)))
  }

  // ---------------------------------------------------------------- properties

  lemma SliceTerminator(s: string, from: nat, to: nat, q: nat)
    requires from <= to <= |s|
    requires TerminatorAt(s[from..to], q)
    ensures TerminatorAt(s, from + q) && from + q + |EndMarker| <= to
  {
    var n := |EndMarker|;
    assert q + n <= to - from;
    forall k | 0 <= k < n ensures s[from + q..from + q + n][k] == EndMarker[k] {
      assert s[from..to][q..q + n][k] == EndMarker[k];
      assert s[from..to][q..q + n][k] == s[from + q + k];
    }
    assert s[from + q..from + q + n] == EndMarker;
  }

  /** No piece of the split contains the terminator text `ER  -`. */
  lemma {:induction false} RawBlocksHaveNoTerminator(s: string, from: nat)
    requires from <= |s|
    ensures forall b, q: nat :: 0 <= b < |RawBlocks(s, from)| ==> !TerminatorAt(RawBlocks(s, from)[b], q)
    decreases |s| - from
  {
    var r := RawBlocks(s, from);
    match NextTerminator(s, from)
    case None =>
      assert r == [s[from..]];
      assert s[from..] == s[from..|s|];
      forall q: nat | TerminatorAt(r[0], q) ensures false {
        SliceTerminator(s, from, |s|, q);
      }
    case Some(p) =>
      var e := TerminatorEnd(s, p);
      RawBlocksHaveNoTerminator(s, e);
      assert r[1..] == RawBlocks(s, e);
      forall b, q: nat | 0 <= b < |r| && TerminatorAt(r[b], q) ensures false {
        if b == 0 {
          SliceTerminator(s, from, p, q);
        }
      }
  }

  /** Terminator text (`ER  -` and what the match consumes after it) never appears in a record block. */
  lemma NoTerminatorInRecords(s: string)
    ensures forall b, q: nat :: 0 <= b < |SplitRecords(s)| ==> !TerminatorAt(SplitRecords(s)[b], q)
  {
    RawBlocksHaveNoTerminator(s, 0);
    DropTrailingEmptyPrefix(RawBlocks(s, 0));
  }

  /** The pieces and the matches, put back together in order, are the text. */
  lemma {:induction false} SplitReconstructs(s: string, from: nat)
    requires from <= |s|
    ensures Interleave(RawBlocks(s, from), Matches(s, from)) == s[from..]
    decreases |s| - from
  {
    var bs, ms := RawBlocks(s, from), Matches(s, from);
    match NextTerminator(s, from)
    case None =>
      assert bs == [s[from..]] && ms == [];
    case Some(p) =>
      var e := TerminatorEnd(s, p);
      assert bs[0] == s[from..p] && bs[1..] == RawBlocks(s, e);
      assert ms[0] == s[p..e] && ms[1..] == Matches(s, e);
      calc {
        Interleave(bs, ms);
      ==
        bs[0] + ms[0] + Interleave(bs[1..], ms[1..]);
      == { SplitReconstructs(s, e); }
        s[from..p] + s[p..e] + s[e..];
      == { SliceJoin(s, from, p, e); }
        s[from..];
      }
  }

  lemma SliceJoin(s: string, a: nat, b: nat, c: nat)
    requires a <= b <= c <= |s|
    ensures s[a..b] + s[b..c] + s[c..] == s[a..]
  {
    assert s[a..b] + s[b..c] == s[a..c];
    assert s[a..c] + s[c..] == s[a..];
  }

  /** Match `k` is a whole match of the pattern, and it is greedy: the text after it does not
      start with a character it could have taken. */
  lemma {:induction false} SplitMatch(s: string, from: nat, k: nat)
    requires from <= |s| && k < |Matches(s, from)|
    ensures var bs, ms := RawBlocks(s, from), Matches(s, from);
      var rest := Interleave(bs[k + 1..], ms[k + 1..]);
      FullMatch(ms[k]) && (rest == [] || !CanExtend(ms[k], rest[0]))
    decreases |s| - from
  {
    var p := NextTerminator(s, from).value;
    var e := TerminatorEnd(s, p);
    var bs, ms := RawBlocks(s, from), Matches(s, from);
    assert bs[1..] == RawBlocks(s, e) && ms[1..] == Matches(s, e);
    if k == 0 {
      MatchAt(s, p);
      SplitReconstructs(s, e);
    } else {
      SplitMatch(s, e, k - 1);
      assert bs[k + 1..] == RawBlocks(s, e)[k..] && ms[k + 1..] == Matches(s, e)[k..];
    }
  }

  /** The match found at `p` is a whole, greedy match of the pattern. */
  lemma MatchAt(s: string, p: nat)
    requires TerminatorAt(s, p)
    ensures var e := TerminatorEnd(s, p);
      FullMatch(s[p..e]) && (s[e..] == [] || !CanExtend(s[p..e], s[e..][0]))
  {
    var n := |EndMarker|;
    var q := RestOfLineEnd(s, p + n);
    var e := TerminatorEnd(s, p);
    var m := s[p..e];
    assert m[..n] == s[p..p + n];
    forall i, j | n <= i <= j < |m| && IsLineTerminator(m[i])
      ensures m[j] == '\n'
    {
      assert m[i] == s[p + i] && m[j] == s[p + j];
    }
    if e < |s| && !IsLineTerminator(s[e]) {
      assert e != q;
      assert m[q - p] == s[q];
    }
  }

  /** Without a terminator anywhere, the whole text is one block, even when it is empty. */
  lemma NoTerminatorOneRecord(s: string)
    requires forall q: nat :: !TerminatorAt(s, q)
    ensures SplitRecords(s) == [s]
  {
    assert NextTerminator(s, 0).None?;
    assert s[0..] == s;
  }

  /** Empty input yields one empty block, and so one entry: `"".split(..)` is `[""]`. */
  lemma EmptyInputOneBlock()
    ensures RecordBlocks([]) == [""]
  {
    assert NormalizeDashes("") == "";
    NoTerminatorOneRecord("");
  }
}
