/**
 * Line continuation in `importDatabase`: a physical line of a record block is glued onto the
 * logical line before it when it is long enough to carry a tag but has no "  - " separator.
 */
module RisContinuation {
  import opened JavaText

  /** The separator expected in columns 2..6 of a tag line. */
  const Separator: string := "  - "

  /** The test on `lines[j + 1]`: at least six characters and no separator at 2..6. A line shorter
      than six characters is not a continuation: it ends the logical line before it and starts a
      new one, which absorbs the continuations after it like any other. */
  predicate IsContinuation(line: string) {
    |line| >= 6 && line[2..6] != Separator
  }

  /** Appending a continuation to the text built so far: a single space is inserted exactly when
      the two pieces would otherwise touch with two non-whitespace characters. */
  function Glue(current: string, next: string): (r: string)
    requires IsContinuation(next)
    ensures r == current + next || r == current + " " + next
    ensures |r| == |current| + |next| + 1 <==>
              |current| > 0 && !IsJavaWhitespace(current[|current| - 1]) && !IsJavaWhitespace(next[0])
  {
    if |current| > 0 && !IsJavaWhitespace(current[|current| - 1]) && !IsJavaWhitespace(next[0])
    then current + " " + next
    else current + next
  }

  /** A run of physical lines that forms one logical line: a first line, then continuations. */
  predicate IsGroup(g: seq<string>) {
    |g| > 0 && forall i :: 1 <= i < |g| ==> IsContinuation(g[i])
  }

  /** The logical line of a group, glued from left to right as the StringBuilder is. */
  function GlueAll(g: seq<string>): string
    requires IsGroup(g)
    decreases |g|
  {
    if |g| == 1 then g[0] else Glue(GlueAll(g[..|g| - 1]), g[|g| - 1])
  }

  /** The index of the last physical line absorbed into the logical line that starts at `j`.
      The line after it, if any, is not a continuation. */
  function GroupEnd(lines: seq<string>, j: nat): (k: nat)
    requires j < |lines|
    ensures j <= k < |lines|
    ensures k + 1 < |lines| ==> !IsContinuation(lines[k + 1])
    decreases |lines| - j
  {
    if j + 1 < |lines| && IsContinuation(lines[j + 1]) then GroupEnd(lines, j + 1) else j
  }

  /** Every line after `j` up to the group's end is a continuation, so the lines from `j` to the
      group's end form a group. */
  lemma {:induction false} GroupEndSpan(lines: seq<string>, j: nat)
    requires j < |lines|
    ensures forall i :: j < i <= GroupEnd(lines, j) ==> IsContinuation(lines[i])
    ensures IsGroup(lines[j..GroupEnd(lines, j) + 1])
    decreases |lines| - j
  {
    var k := GroupEnd(lines, j);
    if j + 1 < |lines| && IsContinuation(lines[j + 1]) {
      GroupEndSpan(lines, j + 1);
    }
    var g := lines[j..k + 1];
    assert forall i :: 1 <= i < |g| ==> g[i] == lines[j + i];
  }

  /** The groups of physical lines from index `j` on. */
  function GroupsFrom(lines: seq<string>, j: nat): seq<seq<string>>
    requires j <= |lines|
    decreases |lines| - j
  {
    if j == |lines| then []
    else
      var k := GroupEnd(lines, j);
      [lines[j..k + 1]] + GroupsFrom(lines, k + 1)
  }

  /** The groups from `j`: the group that starts there, then the groups after it. */
  lemma GroupsFromTail(lines: seq<string>, j: nat)
    requires j < |lines|
    ensures |GroupsFrom(lines, j)| > 0
    ensures GroupsFrom(lines, j)[0] == lines[j..GroupEnd(lines, j) + 1]
    ensures GroupsFrom(lines, j)[1..] == GroupsFrom(lines, GroupEnd(lines, j) + 1)
  {
    var k := GroupEnd(lines, j);
    assert GroupsFrom(lines, j) == [lines[j..k + 1]] + GroupsFrom(lines, k + 1);
  }

  /** Each piece is a group, and every group but the first starts with a line that is not a
      continuation; the first starts at line `j`. */
  lemma {:induction false} GroupsFromAreGroups(lines: seq<string>, j: nat)
    requires j <= |lines|
    ensures var gs := GroupsFrom(lines, j);
      forall g :: 0 <= g < |gs| ==> IsGroup(gs[g]) && (g > 0 ==> !IsContinuation(gs[g][0]))
    ensures j < |lines| ==> |GroupsFrom(lines, j)| > 0 && GroupsFrom(lines, j)[0][0] == lines[j]
    decreases |lines| - j
  {
    if j < |lines| {
      var k := GroupEnd(lines, j);
      GroupEndSpan(lines, j);
      GroupsFromAreGroups(lines, k + 1);
      var gs := GroupsFrom(lines, j);
      assert gs[1..] == GroupsFrom(lines, k + 1);
      if k + 1 < |lines| {
        assert gs[1][0] == lines[k + 1];
      }
    }
  }

  function Flatten(gs: seq<seq<string>>): seq<string>
    decreases |gs|
  {
    if gs == [] then [] else gs[0] + Flatten(gs[1..])
  }

  /** Every physical line is consumed exactly once, in order: the groups concatenate to the lines. */
  lemma {:induction false} GroupsCoverLines(lines: seq<string>, j: nat)
    requires j <= |lines|
    ensures Flatten(GroupsFrom(lines, j)) == lines[j..]
    decreases |lines| - j
  {
    if j < |lines| {
      var k := GroupEnd(lines, j);
      var gs := GroupsFrom(lines, j);
      GroupsCoverLines(lines, k + 1);
      assert gs[1..] == GroupsFrom(lines, k + 1);
      assert Flatten(gs) == lines[j..k + 1] + lines[k + 1..];
      assert lines[j..k + 1] + lines[k + 1..] == lines[j..];
    }
  }

  /** The logical lines that start at line `j` or later: the group at `j` glued, then the logical
      lines after it. */
  function LogicalLinesFrom(lines: seq<string>, j: nat): seq<string>
    requires j <= |lines|
    decreases |lines| - j
  {
    if j == |lines| then []
    else
      var k := GroupEnd(lines, j);
      GroupEndSpan(lines, j);
      [GlueAll(lines[j..k + 1])] + LogicalLinesFrom(lines, k + 1)
  }

  /** The logical lines from `j`: the glued group that starts there, then those after it. */
  lemma LogicalLinesFromStep(lines: seq<string>, j: nat)
    requires j < |lines|
    ensures IsGroup(lines[j..GroupEnd(lines, j) + 1])
    ensures LogicalLinesFrom(lines, j) ==
              [GlueAll(lines[j..GroupEnd(lines, j) + 1])] + LogicalLinesFrom(lines, GroupEnd(lines, j) + 1)
  {
    GroupEndSpan(lines, j);
  }

  /** The logical lines after the first one from `j` are those from the end of its group. */
  lemma LogicalLinesFromTail(lines: seq<string>, j: nat)
    requires j < |lines|
    ensures |LogicalLinesFrom(lines, j)| > 0
    ensures LogicalLinesFrom(lines, j)[1..] == LogicalLinesFrom(lines, GroupEnd(lines, j) + 1)
  {
    LogicalLinesFromStep(lines, j);
  }

  /** The logical lines of a record block's physical lines, in order, short ones included. */
  function LogicalLines(lines: seq<string>): seq<string> {
    LogicalLinesFrom(lines, 0)
  }

  /** A short physical line is not dropped on its own: it ends the line before it, and the
      continuation after it is glued onto it. */
  lemma ShortLineStartsLogicalLine()
    ensures LogicalLines(["TY  - JOUR", "", "continued text"]) == ["TY  - JOUR", "continued text"]
  {
    var lines := ["TY  - JOUR", "", "continued text"];
    assert lines[2][2..6] == "ntin";
    assert !IsContinuation(lines[1]) && IsContinuation(lines[2]);
    assert GroupEnd(lines, 1) == 2;
    assert GroupEnd(lines, 0) == 0;
    assert lines[0..1] == ["TY  - JOUR"] && lines[1..3] == ["", "continued text"];
    assert GlueAll(lines[1..3]) == "continued text";
    assert LogicalLinesFrom(lines, 3) == [];
    assert LogicalLinesFrom(lines, 1) == ["continued text"];
  }

  /** One logical line per group, in order: logical line `g` is group `g` glued. */
  lemma LogicalLinesAreGlued(lines: seq<string>, j: nat)
    requires j <= |lines|
    ensures var gs := GroupsFrom(lines, j);
      |LogicalLinesFrom(lines, j)| == |gs|
      && forall g :: 0 <= g < |gs| ==> IsGroup(gs[g]) && LogicalLinesFrom(lines, j)[g] == GlueAll(gs[g])
  {
    LogicalLinesCount(lines, j);
    forall g | 0 <= g < |GroupsFrom(lines, j)|
      ensures IsGroup(GroupsFrom(lines, j)[g]) && LogicalLinesFrom(lines, j)[g] == GlueAll(GroupsFrom(lines, j)[g])
    {
      LogicalLineOfGroup(lines, j, g);
    }
  }

  /** As many logical lines as groups. */
  lemma {:induction false} LogicalLinesCount(lines: seq<string>, j: nat)
    requires j <= |lines|
    ensures |LogicalLinesFrom(lines, j)| == |GroupsFrom(lines, j)|
    decreases |lines| - j
  {
    if j < |lines| {
      LogicalLinesCount(lines, GroupEnd(lines, j) + 1);
    }
  }

  /** Logical line `g` from `j` is group `g` from `j` glued. */
  lemma {:induction false} LogicalLineOfGroup(lines: seq<string>, j: nat, g: nat)
    requires j <= |lines| && g < |GroupsFrom(lines, j)|
    ensures g < |LogicalLinesFrom(lines, j)|
    ensures IsGroup(GroupsFrom(lines, j)[g]) && LogicalLinesFrom(lines, j)[g] == GlueAll(GroupsFrom(lines, j)[g])
    decreases g
  {
    var k := GroupEnd(lines, j);
    GroupsFromTail(lines, j);
    LogicalLinesFromTail(lines, j);
    LogicalLinesCount(lines, j);
    if g == 0 {
      LogicalLinesFromStep(lines, j);
    } else {
      LogicalLineOfGroup(lines, k + 1, g - 1);
      assert GroupsFrom(lines, j)[g] == GroupsFrom(lines, j)[1..][g - 1];
      assert LogicalLinesFrom(lines, j)[g] == LogicalLinesFrom(lines, j)[1..][g - 1];
    }
  }

  /** One logical line per physical line that is not a continuation (and one for the first line). */
  lemma {:induction false} LogicalLineCount(lines: seq<string>, j: nat)
    requires j <= |lines|
    ensures |GroupsFrom(lines, j)| == |set i | j <= i < |lines| && (i == j || !IsContinuation(lines[i]))|
    decreases |lines| - j
  {
    var starts := set i | j <= i < |lines| && (i == j || !IsContinuation(lines[i]));
    if j == |lines| {
      assert starts == {};
    } else {
      var k := GroupEnd(lines, j);
      GroupEndSpan(lines, j);
      LogicalLineCount(lines, k + 1);
      var rest := set i | k + 1 <= i < |lines| && (i == k + 1 || !IsContinuation(lines[i]));
      assert starts == {j} + rest;
      assert GroupsFrom(lines, j)[1..] == GroupsFrom(lines, k + 1);
    }
  }
}
