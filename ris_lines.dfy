/**
 * What the per-line loop of one record computes, stated against reference definitions over its
 * logical lines: the last `TY`, `SP` and `EP` win, the best-priority date wins with the first of
 * equal priority, the bare-year fallback, and the fields the side effects keep in step with the
 * method's locals.
 */
module RisLines {
  import opened Wrappers
  import opened JavaText
  import opened RisModel
  import opened RisDispatch

  /** A name local and its field agree, and a non-empty name has been written. */
  predicate NameSynced(names: string, f: map<Field, string>, k: Field) {
    (k in f ==> f[k] == names) && (names != "" ==> k in f)
  }

  /** A joiner's field holds its text, and a non-empty text has been written. */
  predicate JoinerSynced(parts: seq<string>, f: map<Field, string>, k: Field) {
    (k in f ==> f[k] == Join("\n", parts)) && (Join("\n", parts) != "" ==> k in f)
  }

  /** The fields the side effects write agree with the locals they are computed from, and the
      year is not yet set. */
  predicate Synced(acc: Acc) {
    && NameSynced(acc.author, acc.fields, Std(Author)) && NameSynced(acc.editor, acc.fields, Std(Editor))
    && JoinerSynced(acc.abstractParts, acc.fields, Std(Abstract)) && JoinerSynced(acc.commentParts, acc.fields, Std(Comment))
    && (Std(Pages) in acc.fields ==> acc.fields[Std(Pages)] == acc.startPage + acc.endPage)
    && Std(Year) !in acc.fields
  }

  /** A logical line that is dispatched rather than skipped. */
  predicate IsLong(line: string) {
    |line| >= 6
  }

  /** A dispatched line carrying `tag`. */
  predicate HasTag(line: string, tag: Tag) {
    IsLong(line) && LineTag(line) == tag
  }

  /** The value of the last dispatched line carrying `tag`, if any. */
  function LastValue(lines: seq<string>, tag: Tag): (r: Option<string>)
    ensures r.Some? <==> exists i :: 0 <= i < |lines| && HasTag(lines[i], tag)
    decreases |lines|
  {
    if lines == [] then None
    else
      match LastValue(lines[1..], tag)
      case Some(v) =>
        assert exists i :: 0 <= i < |lines[1..]| && HasTag(lines[1..][i], tag);
        Some(v)
      case None =>
        assert forall i :: 1 <= i < |lines| ==> lines[i] == lines[1..][i - 1];
        if HasTag(lines[0], tag) then Some(LineValue(lines[0])) else None
  }

  /** The dispatched lines, in order. */
  function LongLines(lines: seq<string>): (r: seq<string>)
    ensures forall i :: 0 <= i < |r| ==> IsLong(r[i])
    ensures |r| <= |lines|
    ensures r == [] <==> forall i :: 0 <= i < |lines| ==> !IsLong(lines[i])
    decreases |lines|
  {
    assert forall i :: 1 <= i < |lines| ==> lines[i] == lines[1..][i - 1];
    if lines == [] then []
    else if IsLong(lines[0]) then [lines[0]] + LongLines(lines[1..])
    else LongLines(lines[1..])
  }

  // ---------------------------------------------------------------- one line

  /** A line shorter than six characters leaves every local and every field as it was, the side
      effects included. */
  lemma ShortLineSkipped(acc: Acc, line: string, env: Collaborators)
    requires !IsLong(line)
    ensures Step(acc, line, env) == acc
  {
  }

  /** A dispatched line sets the entry type on `TY` (through the closed table), the start page
      on `SP` and the end page on `EP` (prefixed with "--" unless empty), and no other line
      touches them. */
  lemma StepLocals(acc: Acc, line: string, env: Collaborators)
    requires IsLong(line)
    ensures var r := Step(acc, line, env); var tag := LineTag(line); var v := LineValue(line);
      && r.entryType == (if tag == Tag('T', 'Y') then EntryTypeOf(v) else acc.entryType)
      && r.startPage == (if tag == Tag('S', 'P') then v else acc.startPage)
      && r.endPage == (if tag == Tag('E', 'P') then (if v == "" then "" else "--" + v) else acc.endPage)
  {
    var d := Dispatch(acc, LineTag(line), LineValue(line), env.parseDoi);
    DispatchHasEffect(acc, LineTag(line), LineValue(line), env.parseDoi);
    AfterLineKeepsLocals(d, env.fixAuthorLastNameFirst);
  }

  /** The side effects leave the entry type and the pages alone. */
  lemma AfterLineKeepsLocals(d: Acc, fix: string -> string)
    ensures AfterLine(d, fix).entryType == d.entryType
    ensures AfterLine(d, fix).startPage == d.startPage && AfterLine(d, fix).endPage == d.endPage
  {
  }

  /** A joiner that grows by one part and is still empty was empty before. */
  lemma JoinStillEmpty(parts: seq<string>, v: string)
    requires Join("\n", parts + [v]) == ""
    ensures Join("\n", parts) == ""
  {
    if |parts| > 0 {
      JoinGrows("\n", parts, v);
    }
  }

  /** A name list that grows and is still empty was empty before. */
  lemma AppendNameStillEmpty(names: string, value: string)
    requires AppendName(names, value) == ""
    ensures names == ""
  {
  }

  /** After a dispatch and before the side effects, every side-effect field is in step except
      where the side effects are about to write it. */
  lemma DispatchNearlySynced(acc: Acc, tag: Tag, value: string, d: Acc)
    requires Synced(acc) && DispatchEffect(acc, tag, value, d)
    ensures d.author == "" ==> NameSynced(d.author, d.fields, Std(Author))
    ensures d.editor == "" ==> NameSynced(d.editor, d.fields, Std(Editor))
    ensures Join("\n", d.abstractParts) == "" ==> JoinerSynced(d.abstractParts, d.fields, Std(Abstract))
    ensures Join("\n", d.commentParts) == "" ==> JoinerSynced(d.commentParts, d.fields, Std(Comment))
    ensures Std(Year) !in d.fields
  {
    assert SameAt(acc.fields, d.fields, Std(Author)) && SameAt(acc.fields, d.fields, Std(Editor));
    assert SameAt(acc.fields, d.fields, Std(Abstract)) && SameAt(acc.fields, d.fields, Std(Comment));
    assert SameAt(acc.fields, d.fields, Std(Year));
    if d.author == "" && d.author != acc.author {
      AppendNameStillEmpty(acc.author, value);
    }
    if d.editor == "" && d.editor != acc.editor {
      AppendNameStillEmpty(acc.editor, value);
    }
    if Join("\n", d.abstractParts) == "" && d.abstractParts != acc.abstractParts {
      JoinStillEmpty(acc.abstractParts, value);
    }
    if Join("\n", d.commentParts) == "" && d.commentParts != acc.commentParts {
      JoinStillEmpty(acc.commentParts, value);
    }
  }

  /** The side effects bring every side-effect field into step and set `PAGES`; they do not touch
      the title. */
  lemma AfterLineSyncs(d: Acc, fix: string -> string)
    requires d.author == "" ==> NameSynced(d.author, d.fields, Std(Author))
    requires d.editor == "" ==> NameSynced(d.editor, d.fields, Std(Editor))
    requires Join("\n", d.abstractParts) == "" ==> JoinerSynced(d.abstractParts, d.fields, Std(Abstract))
    requires Join("\n", d.commentParts) == "" ==> JoinerSynced(d.commentParts, d.fields, Std(Comment))
    requires Std(Year) !in d.fields
    ensures Synced(AfterLine(d, fix)) && Std(Pages) in AfterLine(d, fix).fields
    ensures TitleOk(d.fields) ==> TitleOk(AfterLine(d, fix).fields)
  {
    var (au, f1) := NormalizeNames(d.author, d.fields, Std(Author), fix);
    assert NameSynced(au, f1, Std(Author));
    var (ed, f2) := NormalizeNames(d.editor, f1, Std(Editor), fix);
    assert NameSynced(ed, f2, Std(Editor)) && NameSynced(au, f2, Std(Author));
    var abs := Join("\n", d.abstractParts);
    var f3 := if abs != "" then f2[Std(Abstract) := abs] else f2;
    assert JoinerSynced(d.abstractParts, f3, Std(Abstract));
    var com := Join("\n", d.commentParts);
    var f4 := if com != "" then f3[Std(Comment) := com] else f3;
    assert JoinerSynced(d.commentParts, f4, Std(Comment)) && JoinerSynced(d.abstractParts, f4, Std(Abstract));
    assert NameSynced(ed, f4, Std(Editor)) && NameSynced(au, f4, Std(Author));
    assert AfterLine(d, fix) == d.(author := au, editor := ed, fields := f4[Std(Pages) := d.startPage + d.endPage]);
  }

  /** One line keeps the side-effect fields in step with the locals, and a dispatched line leaves
      `PAGES` set; the title stays free of whitespace runs. */
  lemma StepSynced(acc: Acc, line: string, env: Collaborators)
    requires Synced(acc)
    ensures Synced(Step(acc, line, env))
    ensures IsLong(line) ==> Std(Pages) in Step(acc, line, env).fields
    ensures TitleOk(acc.fields) ==> TitleOk(Step(acc, line, env).fields)
  {
    if IsLong(line) {
      var d := Dispatch(acc, LineTag(line), LineValue(line), env.parseDoi);
      DispatchHasEffect(acc, LineTag(line), LineValue(line), env.parseDoi);
      DispatchNearlySynced(acc, LineTag(line), LineValue(line), d);
      AfterLineSyncs(d, env.fixAuthorLastNameFirst);
    }
  }

  /** A date line whose value starts with a parsable year. */
  predicate IsDateCandidate(line: string) {
    IsLong(line) && DateTagIndex(LineTag(line)) != -1 && |LineValue(line)| >= 4 && YearParses(LineValue(line)[..4])
  }

  /** A date line long enough to be looked at whose first four characters are not a year. */
  predicate IsBareYearLine(line: string) {
    IsLong(line) && DateTagIndex(LineTag(line)) != -1 && |LineValue(line)| >= 4 && !YearParses(LineValue(line)[..4])
  }

  /** The priority of a dispatched line's tag among the date tags. */
  function Priority(line: string): int
    requires IsLong(line)
  {
    DateTagIndex(LineTag(line))
  }

  /** The date bookkeeping after one line: a candidate of strictly higher priority than the best
      so far becomes the best; a bare-year line of strictly higher priority sets the bare year;
      nothing else touches either. */
  lemma StepDate(acc: Acc, line: string, env: Collaborators)
    ensures var r := Step(acc, line, env);
      && (IsDateCandidate(line) && Priority(line) < acc.datePriority ==>
            r.dateTag == Some(LineTag(line)) && r.dateValue == LineValue(line) && r.datePriority == Priority(line))
      && (!(IsDateCandidate(line) && Priority(line) < acc.datePriority) ==> SameDate(r, acc))
      && r.year == (if IsBareYearLine(line) && Priority(line) < acc.datePriority then LineValue(line)[..4] else acc.year)
  {
    if IsLong(line) {
      DispatchDate(acc, LineTag(line), LineValue(line), env.parseDoi);
      AfterLineDate(Dispatch(acc, LineTag(line), LineValue(line), env.parseDoi), env.fixAuthorLastNameFirst);
    }
  }

  // ---------------------------------------------------------------- all lines of a record

  /** Skipped lines can be dropped: only the dispatched lines, in order, decide the record. */
  lemma {:induction false} ShortLinesIgnored(acc: Acc, lines: seq<string>, env: Collaborators)
    ensures ProcessLines(acc, lines, env) == ProcessLines(acc, LongLines(lines), env)
    decreases |lines|
  {
    if lines != [] {
      ShortLinesIgnored(Step(acc, lines[0], env), lines[1..], env);
      if IsLong(lines[0]) {
        assert ([lines[0]] + LongLines(lines[1..]))[1..] == LongLines(lines[1..]);
      } else {
        ShortLineSkipped(acc, lines[0], env);
        ShortLinesIgnored(acc, lines[1..], env);
      }
    }
  }

  /** The last `TY` line decides the entry type; without one it stays as it was. */
  lemma {:induction false} LastTypeWins(acc: Acc, lines: seq<string>, env: Collaborators)
    ensures ProcessLines(acc, lines, env).entryType ==
              match LastValue(lines, Tag('T', 'Y')) case Some(v) => EntryTypeOf(v) case None => acc.entryType
    decreases |lines|
  {
    if lines != [] {
      LastTypeWins(Step(acc, lines[0], env), lines[1..], env);
      if IsLong(lines[0]) {
        StepLocals(acc, lines[0], env);
      }
    }
  }

  /** The last `SP` and `EP` lines decide the start and end page. */
  lemma {:induction false} LastPagesWin(acc: Acc, lines: seq<string>, env: Collaborators)
    ensures ProcessLines(acc, lines, env).startPage ==
              match LastValue(lines, Tag('S', 'P')) case Some(v) => v case None => acc.startPage
    ensures ProcessLines(acc, lines, env).endPage ==
              match LastValue(lines, Tag('E', 'P')) case Some(v) => (if v == "" then "" else "--" + v) case None => acc.endPage
    decreases |lines|
  {
    if lines != [] {
      LastPagesWin(Step(acc, lines[0], env), lines[1..], env);
      if IsLong(lines[0]) {
        StepLocals(acc, lines[0], env);
      }
    }
  }

  /** The author tags, and the editor tag. */
  const AuthorTags: set<Tag> := {Tag('A', 'U'), Tag('A', '1'), Tag('A', '2'), Tag('A', '3'), Tag('A', '4')}
  const EditorTags: set<Tag> := {Tag('E', 'D')}

  /** A name list after one logical line: a dispatched line with one of `tags` appends its value,
      and after every dispatched line a non-empty list is replaced by `fix` of it. */
  function NameStep(names: string, line: string, tags: set<Tag>, fix: string -> string): string {
    if !IsLong(line) then names
    else
      var grown := if LineTag(line) in tags then AppendName(names, LineValue(line)) else names;
      if grown != "" then fix(grown) else grown
  }

  /** A name list after a sequence of logical lines. */
  function NamesAfter(names: string, lines: seq<string>, tags: set<Tag>, fix: string -> string): string
    decreases |lines|
  {
    if lines == [] then names else NamesAfter(NameStep(names, lines[0], tags, fix), lines[1..], tags, fix)
  }

  /** One line moves the author and editor lists as `NameStep` says. */
  lemma StepNames(acc: Acc, line: string, env: Collaborators)
    ensures Step(acc, line, env).author == NameStep(acc.author, line, AuthorTags, env.fixAuthorLastNameFirst)
    ensures Step(acc, line, env).editor == NameStep(acc.editor, line, EditorTags, env.fixAuthorLastNameFirst)
  {
    if IsLong(line) {
      var d := Dispatch(acc, LineTag(line), LineValue(line), env.parseDoi);
      DispatchNames(acc, LineTag(line), LineValue(line), env.parseDoi);
      AfterLineNames(d, env.fixAuthorLastNameFirst);
      assert IsAuthorTag(LineTag(line)) <==> LineTag(line) in AuthorTags;
    }
  }

  /** Over a whole record the author and editor lists are accumulated and re-normalised line by
      line. */
  lemma {:induction false} NamesWin(acc: Acc, lines: seq<string>, env: Collaborators)
    ensures ProcessLines(acc, lines, env).author == NamesAfter(acc.author, lines, AuthorTags, env.fixAuthorLastNameFirst)
    ensures ProcessLines(acc, lines, env).editor == NamesAfter(acc.editor, lines, EditorTags, env.fixAuthorLastNameFirst)
    decreases |lines|
  {
    if lines != [] {
      StepNames(acc, lines[0], env);
      NamesWin(Step(acc, lines[0], env), lines[1..], env);
    }
  }

  /** The abstract parts after one logical line: a dispatched `N2`/`AB` line adds its value unless
      the value is the whole abstract so far. */
  function AbstractStep(parts: seq<string>, line: string): seq<string> {
    if IsLong(line) && IsAbstractTag(LineTag(line)) && Join("\n", parts) != LineValue(line)
    then parts + [LineValue(line)]
    else parts
  }

  /** The abstract parts after a sequence of logical lines. */
  function AbstractAfter(parts: seq<string>, lines: seq<string>): seq<string>
    decreases |lines|
  {
    if lines == [] then parts else AbstractAfter(AbstractStep(parts, lines[0]), lines[1..])
  }

  /** The values of the dispatched `U1`/`U2`/`N1` lines, in order. */
  function CommentValues(lines: seq<string>): seq<string>
    decreases |lines|
  {
    if lines == [] then []
    else if IsLong(lines[0]) && IsCommentTag(LineTag(lines[0])) then [LineValue(lines[0])] + CommentValues(lines[1..])
    else CommentValues(lines[1..])
  }

  /** One line moves the abstract parts as `AbstractStep` says, and adds to the comment parts
      exactly the value of a dispatched comment line. */
  lemma StepJoiners(acc: Acc, line: string, env: Collaborators)
    ensures Step(acc, line, env).abstractParts == AbstractStep(acc.abstractParts, line)
    ensures Step(acc, line, env).commentParts ==
              if IsLong(line) && IsCommentTag(LineTag(line)) then acc.commentParts + [LineValue(line)] else acc.commentParts
  {
    if IsLong(line) {
      DispatchJoiners(acc, LineTag(line), LineValue(line), env.parseDoi);
    }
  }

  /** Over a whole record the abstract parts are `AbstractAfter` of the lines. */
  lemma {:induction false} AbstractWins(acc: Acc, lines: seq<string>, env: Collaborators)
    ensures ProcessLines(acc, lines, env).abstractParts == AbstractAfter(acc.abstractParts, lines)
    decreases |lines|
  {
    if lines != [] {
      var a1 := Step(acc, lines[0], env);
      ProcessLinesHead(acc, lines, env);
      StepJoiners(acc, lines[0], env);
      AbstractWins(a1, lines[1..], env);
    }
  }

  /** The comment values of the lines that are kept from the first line on. */
  function CommentOf(line: string): seq<string> {
    if IsLong(line) && IsCommentTag(LineTag(line)) then [LineValue(line)] else []
  }

  lemma CommentValuesCons(lines: seq<string>)
    requires lines != []
    ensures CommentValues(lines) == CommentOf(lines[0]) + CommentValues(lines[1..])
  {
  }

  /** One line adds its comment value, if any, to the comment parts. */
  lemma StepComment(acc: Acc, line: string, env: Collaborators)
    ensures Step(acc, line, env).commentParts == acc.commentParts + CommentOf(line)
  {
    StepJoiners(acc, line, env);
    if !(IsLong(line) && IsCommentTag(LineTag(line))) {
      assert acc.commentParts + [] == acc.commentParts;
    }
  }

  lemma ConcatAssoc<T>(a: seq<T>, b: seq<T>, c: seq<T>)
    ensures a + (b + c) == (a + b) + c
  {
  }

  /** Over a whole record the comment parts gain the values of the comment lines, in order. */
  lemma {:induction false} CommentsWin(acc: Acc, lines: seq<string>, env: Collaborators)
    ensures ProcessLines(acc, lines, env).commentParts == acc.commentParts + CommentValues(lines)
    decreases |lines|
  {
    if lines == [] {
      assert acc.commentParts + [] == acc.commentParts;
    } else {
      var a1 := Step(acc, lines[0], env);
      ProcessLinesHead(acc, lines, env);
      StepComment(acc, lines[0], env);
      CommentsWin(a1, lines[1..], env);
      CommentValuesCons(lines);
      ConcatAssoc(acc.commentParts, CommentOf(lines[0]), CommentValues(lines[1..]));
    }
  }

  /** The side-effect fields stay in step over a whole record, `PAGES` is set once any line was
      dispatched, and the title never has a whitespace run. */
  lemma {:induction false} LinesSynced(acc: Acc, lines: seq<string>, env: Collaborators)
    requires Synced(acc)
    ensures Synced(ProcessLines(acc, lines, env))
    ensures (exists i :: 0 <= i < |lines| && IsLong(lines[i])) ==> Std(Pages) in ProcessLines(acc, lines, env).fields
    ensures Std(Pages) in acc.fields ==> Std(Pages) in ProcessLines(acc, lines, env).fields
    ensures TitleOk(acc.fields) ==> TitleOk(ProcessLines(acc, lines, env).fields)
    decreases |lines|
  {
    if lines != [] {
      StepSynced(acc, lines[0], env);
      var a1 := Step(acc, lines[0], env);
      LinesSynced(a1, lines[1..], env);
      if Std(Pages) in acc.fields {
        ShortOrLongKeepsPages(acc, lines[0], env);
      }
      if exists i :: 0 <= i < |lines| && IsLong(lines[i]) {
        var i :| 0 <= i < |lines| && IsLong(lines[i]);
        if i > 0 {
          assert IsLong(lines[1..][i - 1]);
        }
      }
    }
  }

  /** Once set, `PAGES` stays set across a line. */
  lemma ShortOrLongKeepsPages(acc: Acc, line: string, env: Collaborators)
    requires Synced(acc) && Std(Pages) in acc.fields
    ensures Std(Pages) in Step(acc, line, env).fields
  {
    StepSynced(acc, line, env);
  }

  /** How the date bookkeeping `r` after `lines` relates to the state `acc` they started from:
      the best date is the candidate of highest priority (smallest index), the first among
      equals, provided it beats `acc`; otherwise the bookkeeping is unchanged. */
  predicate BestDate(acc: Acc, lines: seq<string>, r: Acc) {
    && r.datePriority <= acc.datePriority
    && (forall i :: 0 <= i < |lines| && IsDateCandidate(lines[i]) ==> r.datePriority <= Priority(lines[i]))
    && (r.datePriority == acc.datePriority ==> SameDate(r, acc))
    && (r.datePriority < acc.datePriority ==> exists i :: 0 <= i < |lines| && FirstOfBest(lines, i, r))
  }

  /** Line `i` is a candidate whose date is `r`'s and no candidate before it reaches its priority. */
  predicate FirstOfBest(lines: seq<string>, i: int, r: Acc) {
    && 0 <= i < |lines| && IsDateCandidate(lines[i]) && Priority(lines[i]) == r.datePriority
    && LineValue(lines[i]) == r.dateValue && r.dateTag == Some(LineTag(lines[i]))
    && forall j :: 0 <= j < i && IsDateCandidate(lines[j]) ==> Priority(lines[j]) > r.datePriority
  }

  /** The best date over a record, line by line. */
  lemma {:induction false} BestDateWins(acc: Acc, lines: seq<string>, env: Collaborators)
    requires DateStateOk(acc)
    ensures BestDate(acc, lines, ProcessLines(acc, lines, env))
    decreases |lines|
  {
    if lines != [] {
      var a1 := Step(acc, lines[0], env);
      StepDate(acc, lines[0], env);
      BestDateWins(a1, lines[1..], env);
      BestDateCons(acc, lines, a1, ProcessLines(acc, lines, env));
    }
  }

  /** One more line before the rest: the best date over the rest, from the state after the line,
      is the best date over all the lines. */
  lemma BestDateCons(acc: Acc, lines: seq<string>, a1: Acc, r: Acc)
    requires lines != []
    requires IsDateCandidate(lines[0]) && Priority(lines[0]) < acc.datePriority ==>
               a1.dateTag == Some(LineTag(lines[0])) && a1.dateValue == LineValue(lines[0]) && a1.datePriority == Priority(lines[0])
    requires !(IsDateCandidate(lines[0]) && Priority(lines[0]) < acc.datePriority) ==> SameDate(a1, acc)
    requires BestDate(a1, lines[1..], r)
    ensures BestDate(acc, lines, r)
  {
    BoundCons(lines, r.datePriority);
    if r.datePriority < acc.datePriority {
      if r.datePriority == a1.datePriority {
        assert FirstOfBest(lines, 0, r);
      } else {
        var i :| 0 <= i < |lines[1..]| && FirstOfBest(lines[1..], i, r);
        FirstBestCons(lines, i, r);
      }
    }
  }

  /** A bound on the candidates' priorities that holds for the first line and for the rest holds
      for all the lines. */
  lemma BoundCons(lines: seq<string>, p: int)
    requires lines != []
    requires IsDateCandidate(lines[0]) ==> p <= Priority(lines[0])
    requires forall i :: 0 <= i < |lines[1..]| && IsDateCandidate(lines[1..][i]) ==> p <= Priority(lines[1..][i])
    ensures forall i :: 0 <= i < |lines| && IsDateCandidate(lines[i]) ==> p <= Priority(lines[i])
  {
    ForallCons(lines, |lines|, l => IsDateCandidate(l) ==> p <= Priority(l));
  }

  /** The first line of the best priority among the rest stays the first among all the lines when
      the first line does not reach that priority. */
  lemma FirstBestCons(lines: seq<string>, i: int, r: Acc)
    requires lines != []
    requires IsDateCandidate(lines[0]) ==> Priority(lines[0]) > r.datePriority
    requires FirstOfBest(lines[1..], i, r)
    ensures FirstOfBest(lines, i + 1, r)
  {
    assert lines[i + 1] == lines[1..][i];
    ForallCons(lines, i + 1, l => IsDateCandidate(l) ==> Priority(l) > r.datePriority);
  }

  /** A property of the first element and of the next `n - 1` after it holds for the first `n`. */
  lemma ForallCons<T>(xs: seq<T>, n: nat, P: T -> bool)
    requires 0 < n <= |xs|
    requires P(xs[0])
    requires forall i :: 0 <= i < n - 1 ==> P(xs[1..][i])
    ensures forall i :: 0 <= i < n ==> P(xs[i])
  {
    forall i | 1 <= i < n
      ensures P(xs[i])
    {
      assert xs[i] == xs[1..][i - 1];
    }
  }

  /** The best priority a record's candidates reach, starting from priority `p`. */
  function BestPriority(p: int, lines: seq<string>): int
    decreases |lines|
  {
    if lines == [] then p
    else BestPriority(if IsDateCandidate(lines[0]) && Priority(lines[0]) < p then Priority(lines[0]) else p, lines[1..])
  }

  /** The bare year: the first four characters of the last bare-year line that beats every
      candidate before it (and the starting priority `p`), if any. */
  function LastBareYear(p: int, lines: seq<string>): Option<string>
    decreases |lines|
  {
    if lines == [] then None
    else
      var q := if IsDateCandidate(lines[0]) && Priority(lines[0]) < p then Priority(lines[0]) else p;
      match LastBareYear(q, lines[1..])
      case Some(y) => Some(y)
      case None => if IsBareYearLine(lines[0]) && Priority(lines[0]) < p then Some(LineValue(lines[0])[..4]) else None
  }

  /** The priority after one line: a candidate that beats it lowers it to its own. */
  function NextPriority(p: int, line: string): int {
    if IsDateCandidate(line) && Priority(line) < p then Priority(line) else p
  }

  /** One line moves the date priority as `NextPriority` says and sets the bare year exactly
      on a bare-year line that beats it. */
  lemma StepPriority(acc: Acc, line: string, env: Collaborators)
    ensures Step(acc, line, env).datePriority == NextPriority(acc.datePriority, line)
    ensures Step(acc, line, env).year ==
              if IsBareYearLine(line) && Priority(line) < acc.datePriority then LineValue(line)[..4] else acc.year
  {
    StepDate(acc, line, env);
  }

  /** The date priority over a record is the best one its candidates reach. */
  lemma {:induction false} PriorityWins(acc: Acc, lines: seq<string>, env: Collaborators)
    ensures ProcessLines(acc, lines, env).datePriority == BestPriority(acc.datePriority, lines)
    decreases |lines|
  {
    if lines != [] {
      var a1 := Step(acc, lines[0], env);
      ProcessLinesHead(acc, lines, env);
      StepPriority(acc, lines[0], env);
      PriorityWins(a1, lines[1..], env);
    }
  }

  lemma LastBareYearCons(p: int, lines: seq<string>)
    requires lines != []
    ensures LastBareYear(p, lines) ==
              match LastBareYear(NextPriority(p, lines[0]), lines[1..])
              case Some(y) => Some(y)
              case None => if IsBareYearLine(lines[0]) && Priority(lines[0]) < p then Some(LineValue(lines[0])[..4]) else None
  {
  }

  /** The bare year over a record is the last bare-year line that beat every candidate before it. */
  lemma {:induction false} BareYearWins(acc: Acc, lines: seq<string>, env: Collaborators)
    ensures ProcessLines(acc, lines, env).year ==
              match LastBareYear(acc.datePriority, lines) case Some(y) => y case None => acc.year
    decreases |lines|
  {
    if lines != [] {
      var a1 := Step(acc, lines[0], env);
      ProcessLinesHead(acc, lines, env);
      StepPriority(acc, lines[0], env);
      BareYearWins(a1, lines[1..], env);
      LastBareYearCons(acc.datePriority, lines);
    }
  }

  /** The date priority over a record is the best one its candidates reach, and the bare year is
      the last bare-year line that beat every candidate before it. */
  lemma BareYearFallback(acc: Acc, lines: seq<string>, env: Collaborators)
    ensures ProcessLines(acc, lines, env).datePriority == BestPriority(acc.datePriority, lines)
    ensures ProcessLines(acc, lines, env).year ==
              match LastBareYear(acc.datePriority, lines) case Some(y) => y case None => acc.year
  {
    PriorityWins(acc, lines, env);
    BareYearWins(acc, lines, env);
  }
}
