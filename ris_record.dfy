/**
 * One record block end to end: its physical lines, their logical lines, the per-line loop, and
 * the finalizer that sets the year and month and drops blank fields.
 */
module RisRecord {
  import opened Wrappers
  import opened JavaText
  import opened RisModel
  import opened RisContinuation
  import opened RisDispatch
  import opened RisLines

  /** A value that `trim()` empties: every character is at most U+0020. */
  predicate IsBlank(s: string) {
    forall i :: 0 <= i < |s| ==> s[i] <= ' '
  }

  /** `removeIf(value == null || value.trim().isEmpty())`: the blank fields are dropped and the
      others kept with their values. */
  function RemoveBlankFields(f: map<Field, string>): (r: map<Field, string>)
    ensures forall k :: k in r <==> k in f && !IsBlank(f[k])
    ensures forall k :: k in r ==> r[k] == f[k]
  {
    TrimBlankValues(f);
    map k | k in f && Trim(f[k]) != "" :: f[k]
  }

  /** A field value trims to nothing exactly when it is blank. */
  lemma TrimBlankValues(f: map<Field, string>)
    ensures forall k :: k in f ==> (Trim(f[k]) == "" <==> IsBlank(f[k]))
  {
    forall k | k in f
      ensures Trim(f[k]) == "" <==> IsBlank(f[k])
    {
      TrimEmptyIff(f[k]);
    }
  }

  /** The month of a date value: its second `/`-separated segment, when there is one, parsed as
      an integer and looked up as a month number. */
  function MonthOf(dateValue: string): (r: Option<Month>)
    ensures var pieces := Pieces(dateValue, '/');
      r.Some? <==> |pieces| > 1 && ParseInt(pieces[1]).Some? && 1 <= ParseInt(pieces[1]).value <= 12
    ensures r.Some? ==> ParseInt(Pieces(dateValue, '/')[1]) == Some(MonthNumber(r.value))
  {
    var parts := JavaSplit(dateValue, '/');
    var pieces := Pieces(dateValue, '/');
    JavaSplitPieces(dateValue, '/');
    assert |pieces| > 1 && ParseInt(pieces[1]).Some? ==> |parts| > 1 && parts[1] == pieces[1];
    if |parts| > 1 && parts[1] != "" then
      match ParseInt(parts[1])
      case Some(n) => MonthByNumber(n)
      case None => None
    else None
  }

  /** Four characters that parse as a year are not blank. */
  lemma YearNotBlank(s: string)
    requires YearParses(s)
    ensures !IsBlank(s)
  {
    assert s[0] >= '0';
  }

  /** The fields with YEAR set: from the best date when there is one, else from a non-empty bare
      year, else not at all. */
  function WithYear(acc: Acc): (f: map<Field, string>)
    requires DateStateOk(acc)
    ensures forall k :: k != Std(Year) ==> (k in f <==> k in acc.fields) && (k in f ==> f[k] == acc.fields[k])
    ensures acc.dateTag.Some? ==> Std(Year) in f && f[Std(Year)] == acc.dateValue[..4] && !IsBlank(f[Std(Year)])
    ensures acc.dateTag.None? && acc.year != "" ==> Std(Year) in f && f[Std(Year)] == acc.year
    ensures acc.dateTag.None? && acc.year == "" ==> f == acc.fields
  {
    if acc.dateTag.Some? then
      YearNotBlank(acc.dateValue[..4]);
      acc.fields[Std(Year) := acc.dateValue[..4]]
    else if acc.year != "" then acc.fields[Std(Year) := acc.year]
    else acc.fields
  }

  /** The finalizer: YEAR set as above, the month taken from the best date only, then blank fields
      dropped. */
  function Finalize(acc: Acc): (r: Entry)
    requires DateStateOk(acc)
    ensures r.entryType == acc.entryType
    ensures forall k :: k != Std(Year) ==> (k in r.fields <==> k in acc.fields && !IsBlank(acc.fields[k]))
    ensures forall k :: k != Std(Year) && k in r.fields ==> r.fields[k] == acc.fields[k]
    ensures acc.dateTag.Some? ==> Std(Year) in r.fields && r.fields[Std(Year)] == acc.dateValue[..4]
    ensures acc.dateTag.None? && acc.year != "" ==> (Std(Year) in r.fields <==> !IsBlank(acc.year))
    ensures acc.dateTag.None? && acc.year != "" && Std(Year) in r.fields ==> r.fields[Std(Year)] == acc.year
    ensures acc.dateTag.None? && acc.year == "" && Std(Year) !in acc.fields ==> Std(Year) !in r.fields
    ensures r.month == if acc.dateTag.Some? then MonthOf(acc.dateValue) else None
  {
    Entry(acc.entryType, RemoveBlankFields(WithYear(acc)), if acc.dateTag.Some? then MonthOf(acc.dateValue) else None)
  }

  /** The logical lines of a record block: `split("\n")`, then continuation merging. */
  function LogicalLinesOf(block: string): seq<string> {
    LogicalLines(JavaSplit(block, '\n'))
  }

  /** The entry of a record's logical lines. No field is blank and the title has no whitespace run. */
  function EntryOfLines(ls: seq<string>, env: Collaborators): (r: Entry)
    ensures forall k :: k in r.fields ==> !IsBlank(r.fields[k])
    ensures Std(Title) in r.fields ==> NoSpaceRuns(r.fields[Std(Title)])
  {
    LinesSynced(Initial, ls, env);
    Finalize(ProcessLines(Initial, ls, env))
  }

  /** The entry of one record block. */
  function ParseRecord(block: string, env: Collaborators): Entry {
    EntryOfLines(LogicalLinesOf(block), env)
  }

  // ---------------------------------------------------------------- record properties

  /** The entry type is the closed-table type of the last `TY` line, `Misc` without one. */
  lemma RecordType(ls: seq<string>, env: Collaborators)
    ensures EntryOfLines(ls, env).entryType ==
              match LastValue(ls, Tag('T', 'Y')) case Some(v) => EntryTypeOf(v) case None => Misc
  {
    LastTypeWins(Initial, ls, env);
  }

  /** The text of a bare year is never blank: the value it is taken from is trimmed. */
  lemma {:induction false} BareYearNotBlank(p: int, lines: seq<string>)
    ensures LastBareYear(p, lines).Some? ==> !IsBlank(LastBareYear(p, lines).value)
    decreases |lines|
  {
    if lines != [] {
      var q := if IsDateCandidate(lines[0]) && Priority(lines[0]) < p then Priority(lines[0]) else p;
      BareYearNotBlank(q, lines[1..]);
      if LastBareYear(q, lines[1..]).None? && IsBareYearLine(lines[0]) {
        PrefixNotBlank(LineValue(lines[0]));
      }
    }
  }

  /** The first four characters of a trimmed value are not blank. */
  lemma PrefixNotBlank(v: string)
    requires |v| >= 4 && v[0] > ' '
    ensures !IsBlank(v[..4])
  {
    assert v[..4][0] == v[0];
  }

  /** Line `i` is a candidate of the highest priority among the candidates, and the first such. */
  predicate HighestFirst(ls: seq<string>, i: int) {
    && 0 <= i < |ls| && IsDateCandidate(ls[i])
    && (forall j :: 0 <= j < |ls| && IsDateCandidate(ls[j]) ==> Priority(ls[i]) <= Priority(ls[j]))
    && (forall j :: 0 <= j < i && IsDateCandidate(ls[j]) ==> Priority(ls[i]) < Priority(ls[j]))
  }

  /** The line an accumulator's best date came from. */
  predicate BestDateLine(ls: seq<string>, i: int, a: Acc) {
    HighestFirst(ls, i) && LineValue(ls[i]) == a.dateValue && a.dateTag == Some(LineTag(ls[i]))
  }

  /** Over a record with a candidate, the best date comes from the first line of the
      highest-priority date tag among the candidates. */
  lemma BestDateLineExists(ls: seq<string>, env: Collaborators)
    requires exists i :: 0 <= i < |ls| && IsDateCandidate(ls[i])
    ensures exists i :: 0 <= i < |ls| && BestDateLine(ls, i, ProcessLines(Initial, ls, env))
  {
    var a := ProcessLines(Initial, ls, env);
    BestDateWins(Initial, ls, env);
    var i0 :| 0 <= i0 < |ls| && IsDateCandidate(ls[i0]);
    assert a.datePriority < |DateTags|;
    var i :| 0 <= i < |ls| && FirstOfBest(ls, i, a);
    assert BestDateLine(ls, i, a);
  }

  /** YEAR and month, when some logical line's date value starts with a parsable year: both come
      from the first such line among those of the highest-priority date tag. */
  lemma RecordYearFromDate(ls: seq<string>, env: Collaborators)
    requires exists i :: 0 <= i < |ls| && IsDateCandidate(ls[i])
    ensures var r := EntryOfLines(ls, env);
      exists i :: 0 <= i < |ls| && HighestFirst(ls, i)
        && Std(Year) in r.fields && r.fields[Std(Year)] == LineValue(ls[i])[..4]
        && r.month == MonthOf(LineValue(ls[i]))
  {
    BestDateLineExists(ls, env);
    var a := ProcessLines(Initial, ls, env);
    var i :| 0 <= i < |ls| && BestDateLine(ls, i, a);
    var r := EntryOfLines(ls, env);
    assert r == Finalize(a);
    assert Std(Year) in r.fields && r.fields[Std(Year)] == LineValue(ls[i])[..4];
  }

  /** YEAR and month, when no logical line's date value starts with a parsable year: YEAR is the
      bare year, if any, and there is no month. */
  lemma RecordYearBare(ls: seq<string>, env: Collaborators)
    requires forall i :: 0 <= i < |ls| ==> !IsDateCandidate(ls[i])
    ensures var r := EntryOfLines(ls, env);
      && (Std(Year) in r.fields <==> LastBareYear(|DateTags|, ls).Some?)
      && (Std(Year) in r.fields ==> r.fields[Std(Year)] == LastBareYear(|DateTags|, ls).value)
      && r.month.None?
  {
    var a := ProcessLines(Initial, ls, env);
    BestDateWins(Initial, ls, env);
    assert a.dateTag.None?;
    BareYearFallback(Initial, ls, env);
    LinesSynced(Initial, ls, env);
    BareYearNotBlank(|DateTags|, ls);
    assert EntryOfLines(ls, env) == Finalize(a);
    match LastBareYear(|DateTags|, ls)
    case Some(y) =>
      assert a.year == y && !IsBlank(y);
    case None =>
      assert a.year == "" && Std(Year) !in a.fields;
  }

  /** AUTHOR and EDITOR are the name lists accumulated and re-normalised over the record's
      lines, present exactly when that text is not blank. */
  lemma RecordNames(ls: seq<string>, env: Collaborators)
    ensures var r := EntryOfLines(ls, env); var fix := env.fixAuthorLastNameFirst;
      var au := NamesAfter("", ls, AuthorTags, fix); var ed := NamesAfter("", ls, EditorTags, fix);
      && (Std(Author) in r.fields <==> !IsBlank(au)) && (Std(Author) in r.fields ==> r.fields[Std(Author)] == au)
      && (Std(Editor) in r.fields <==> !IsBlank(ed)) && (Std(Editor) in r.fields ==> r.fields[Std(Editor)] == ed)
  {
    var a := ProcessLines(Initial, ls, env);
    LinesSynced(Initial, ls, env);
    NamesWin(Initial, ls, env);
    assert EntryOfLines(ls, env) == Finalize(a);
    assert IsBlank("");
  }

  /** ABSTRACT is the parts of the `N2`/`AB` lines joined with "\n", each part left out when it
      equalled the whole abstract so far; COMMENT is the values of the `U1`/`U2`/`N1` lines joined
      with "\n". Each is present exactly when that text is not blank. */
  lemma RecordJoiners(ls: seq<string>, env: Collaborators)
    ensures var r := EntryOfLines(ls, env);
      var ab := Join("\n", AbstractAfter([], ls)); var co := Join("\n", CommentValues(ls));
      && (Std(Abstract) in r.fields <==> !IsBlank(ab)) && (Std(Abstract) in r.fields ==> r.fields[Std(Abstract)] == ab)
      && (Std(Comment) in r.fields <==> !IsBlank(co)) && (Std(Comment) in r.fields ==> r.fields[Std(Comment)] == co)
  {
    var a := ProcessLines(Initial, ls, env);
    LinesSynced(Initial, ls, env);
    AbstractWins(Initial, ls, env);
    CommentsWin(Initial, ls, env);
    assert [] + CommentValues(ls) == CommentValues(ls);
    assert EntryOfLines(ls, env) == Finalize(a);
    assert IsBlank("");
  }

  /** PAGES is the last start page followed by the last end page (the latter prefixed with "--"),
      present when that text is not blank and some line was dispatched. */
  lemma RecordPages(ls: seq<string>, env: Collaborators)
    ensures var r := EntryOfLines(ls, env);
      var pages := (match LastValue(ls, Tag('S', 'P')) case Some(v) => v case None => "")
                 + (match LastValue(ls, Tag('E', 'P')) case Some(v) => (if v == "" then "" else "--" + v) case None => "");
      && (Std(Pages) in r.fields <==> (exists i :: 0 <= i < |ls| && IsLong(ls[i])) && !IsBlank(pages))
      && (Std(Pages) in r.fields ==> r.fields[Std(Pages)] == pages)
  {
    LinesSynced(Initial, ls, env);
    LastPagesWin(Initial, ls, env);
    if !exists i :: 0 <= i < |ls| && IsLong(ls[i]) {
      ShortLinesIgnored(Initial, ls, env);
      assert LongLines(ls) == [];
    }
  }

  /** An empty block gives an entry of type `Misc` with no fields and no month. */
  lemma EmptyRecord(env: Collaborators)
    ensures ParseRecord("", env) == Entry(Misc, map[], None)
  {
    assert JavaSplit("", '\n') == [""];
    assert GroupEnd([""], 0) == 0;
    assert LogicalLinesFrom([""], 1) == [];
    assert [""][0..1] == [""];
    assert LogicalLinesFrom([""], 0) == [""];
    assert LogicalLinesOf("") == [""];
    assert ProcessLines(Initial, [""], env) == Initial;
  }
}
