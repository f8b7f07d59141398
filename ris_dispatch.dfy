/**
 * The per-line work of `importDatabase`: the first-match chain over the two-character tag,
 * the date bookkeeping it does for date tags, and the side effects re-run after every line.
 * The method's locals for one record are gathered in the accumulator `Acc`.
 */
module RisDispatch {
  import opened Wrappers
  import opened JavaText
  import opened RisModel

  /** The two characters `entry.substring(0, 2)` of a logical line. */
  datatype Tag = Tag(first: char, second: char)

  /** The date tags from highest to lowest priority. */
  const DateTags: seq<Tag> := [Tag('Y', '1'), Tag('P', 'Y'), Tag('D', 'A'), Tag('Y', '2')]

  /** `dateTags.indexOf(tag)`: the position of `tag` among the date tags, or -1. */
  function DateTagIndex(tag: Tag): (r: int)
    ensures -1 <= r < |DateTags|
    ensures r == -1 <==> tag !in DateTags
    ensures r != -1 ==> DateTags[r] == tag
  {
    if tag == Tag('Y', '1') then 0 else if tag == Tag('P', 'Y') then 1 else if tag == Tag('D', 'A') then 2 else if tag == Tag('Y', '2') then 3 else -1
  }

  /** `Year.parse(s, DateTimeFormatter.ofPattern("yyyy"))` succeeds (on the four-character prefix):
      four ASCII digits naming a year of era of at least 1. */
  predicate YearParses(s: string) {
    |s| == 4 && AllAsciiDigits(s) && s != "0000"
  }

  /** The locals of one iteration of the record loop. `abstractParts` and `commentParts` are
      the parts added to the two StringJoiners. */
  datatype Acc = Acc(
    entryType: EntryType,
    fields: map<Field, string>,
    author: string,
    editor: string,
    startPage: string,
    endPage: string,
    year: string,
    abstractParts: seq<string>,
    commentParts: seq<string>,
    dateTag: Option<Tag>,
    dateValue: string,
    datePriority: int)

  /** The state at the start of every record. */
  const Initial: Acc := Acc(Misc, map[], "", "", "", "", "", [], [], None, "", |DateTags|)

  /** The date bookkeeping is consistent: either no date was chosen (priority |DateTags|, empty
      tag) or the chosen date tag sits at its priority and its value starts with a parsable year. */
  predicate DateStateOk(acc: Acc) {
    && 0 <= acc.datePriority <= |DateTags|
    && (acc.datePriority == |DateTags| <==> acc.dateTag.None?)
    && (acc.datePriority < |DateTags| ==>
          acc.dateTag == Some(DateTags[acc.datePriority]) && |acc.dateValue| >= 4 && YearParses(acc.dateValue[..4]))
  }

  function Put(acc: Acc, k: Field, v: string): Acc {
    acc.(fields := acc.fields[k := v])
  }

  /** What a later `T1`/`TI` value is appended after: " " when the title so far ends in
      ':', '.' or '?', and ": " otherwise. */
  function TitleSeparator(title: string): string {
    if title != [] && title[|title| - 1] in {':', '.', '?'} then " " else ": "
  }

  /** The title after a `T1`/`TI` line, before whitespace normalisation. */
  function JoinedTitle(prev: Option<string>, value: string): string {
    match prev
    case None => value
    case Some(t) => t + TitleSeparator(t) + value
  }

  /** The title after a `T1`/`TI` line: joined, then every whitespace run collapsed to one space. */
  function NextTitle(f: map<Field, string>, value: string): (r: string)
    ensures NoSpaceRuns(r)
  {
    CollapseSpaces(JoinedTitle(if Std(Title) in f then Some(f[Std(Title)]) else None, value))
  }

  /** Appending a name to the running author or editor list. */
  function AppendName(names: string, value: string): string {
    if names == "" then value else names + " and " + value
  }

  /** `addDoi`: the DOI field is set to the canonical form when the value parses as a DOI;
      otherwise, and for every other key, the map is left as it was. */
  function AddDoi(fields: map<Field, string>, value: string, parseDoi: string -> Option<string>): (r: map<Field, string>)
    ensures forall k :: k != Std(Doi) ==> (k in r <==> k in fields) && (k in r ==> r[k] == fields[k])
    ensures parseDoi(value).Some? ==> Std(Doi) in r && r[Std(Doi)] == parseDoi(value).value
    ensures parseDoi(value).None? ==> r == fields
  {
    match parseDoi(value)
    case Some(doi) => fields[Std(Doi) := doi]
    case None => fields
  }

  /** What the first matching branch of the chain does with the value. Each branch of the
      chain either writes one key, updates one of the method's locals, or does nothing. */
  datatype Action =
    | SetType          // the entry type, from the `TY` value
    | AppendTitle      // the title, joined to an earlier one and whitespace-normalised
    | SetField(key: Field)
    | AppendAuthor
    | AppendEditor
    | SetStartPage
    | SetEndPage
    | AddAbstract      // a new part of the abstract joiner, unless equal to the whole abstract so far
    | AppendKeyword
    | AddComment
    | AddDoiField
    | SetPubmed        // the eprint and its type "pubmed"
    | UpdateDate       // the date branch
    | Ignore

  /** The conditions of the first-match `if`/`else if` chain, in source order: the action of
      the first branch whose condition holds for this tag, value and state. */
  function Classify(acc: Acc, tag: Tag, value: string): Action {
    var f := acc.fields;
    if tag == Tag('T', 'Y') then SetType
    else if tag == Tag('T', '1') || tag == Tag('T', 'I') then AppendTitle
    else if tag == Tag('B', 'T') then SetField(Std(Booktitle))
    else if (tag == Tag('T', '2') || tag == Tag('J', '2') || tag == Tag('J', 'A')) && (Std(Journal) !in f || f[Std(Journal)] == "") then
      SetField(Std(Journal))
    else if tag == Tag('J', 'O') || tag == Tag('J', '1') || tag == Tag('J', 'F') then SetField(Std(Journal))
    else if tag == Tag('T', '3') then SetField(Std(Series))
    else if tag == Tag('A', 'U') || tag == Tag('A', '1') || tag == Tag('A', '2') || tag == Tag('A', '3') || tag == Tag('A', '4') then
      AppendAuthor
    else if tag == Tag('E', 'D') then AppendEditor
    else if tag == Tag('J', 'A') || tag == Tag('J', 'F') then
      if acc.entryType == InProceedings then SetField(Std(Booktitle)) else SetField(Std(Journal))
    else if tag == Tag('L', 'A') then SetField(Std(Language))
    else if tag == Tag('C', 'A') then SetField(Unknown("caption"))
    else if tag == Tag('D', 'B') then SetField(Unknown("database"))
    else if tag == Tag('I', 'S') || tag == Tag('A', 'N') || tag == Tag('C', '7') || tag == Tag('M', '1') then SetField(Std(Number))
    else if tag == Tag('S', 'P') then SetStartPage
    else if tag == Tag('P', 'B') then
      if acc.entryType == PhdThesis then SetField(Std(School)) else SetField(Std(Publisher))
    else if tag == Tag('A', 'D') || tag == Tag('C', 'Y') || tag == Tag('P', 'P') then SetField(Std(Address))
    else if tag == Tag('E', 'P') then SetEndPage
    else if tag == Tag('E', 'T') then SetField(Std(Edition))
    else if tag == Tag('S', 'N') then SetField(Std(Issn))
    else if tag == Tag('V', 'L') then SetField(Std(Volume))
    else if tag == Tag('N', '2') || tag == Tag('A', 'B') then AddAbstract
    else if tag == Tag('U', 'R') || tag == Tag('L', '2') || tag == Tag('L', 'K') then SetField(Std(Url))
    else if DateTagIndex(tag) != -1 && |value| >= 4 then UpdateDate
    else if tag == Tag('K', 'W') then AppendKeyword
    else if tag == Tag('U', '1') || tag == Tag('U', '2') || tag == Tag('N', '1') then AddComment
    else if tag == Tag('M', '3') || tag == Tag('D', 'O') then AddDoiField
    else if tag == Tag('C', '3') then SetField(Std(EventTitle))
    else if tag == Tag('N', '1') || tag == Tag('R', 'N') then SetField(Std(Note))
    else if tag == Tag('S', 'T') then SetField(Std(ShortTitle))
    else if tag == Tag('C', '2') then SetPubmed
    else if tag == Tag('T', 'A') then SetField(Std(Translator))
    else if tag == Tag('A', 'V') then SetField(Unknown("archive_location"))
    else if tag == Tag('C', 'N') || tag == Tag('V', 'O') then SetField(Unknown("call-number"))
    else if tag == Tag('D', 'B') then SetField(Unknown("archive"))
    else if tag == Tag('N', 'V') then SetField(Unknown("number-of-volumes"))
    else if tag == Tag('O', 'P') then SetField(Unknown("original-title"))
    else if tag == Tag('R', 'I') then SetField(Unknown("reviewed-title"))
    else if tag == Tag('R', 'P') then SetField(Unknown("status"))
    else if tag == Tag('S', 'E') then SetField(Unknown("section"))
    else if tag == Tag('I', 'D') then SetField(Unknown("refid"))
    else Ignore
  }

  /** The date branch: a date tag of strictly higher priority than the best so far either
      becomes the best date, when its first four characters parse as a year, or leaves those
      four characters as the bare year. */
  function DateBranch(acc: Acc, tag: Tag, value: string): Acc
    requires DateTagIndex(tag) != -1 && |value| >= 4
  {
    var p := DateTagIndex(tag);
    if p < acc.datePriority then
      if YearParses(value[..4]) then acc.(dateTag := Some(tag), dateValue := value, datePriority := p)
      else acc.(year := value[..4])
    else acc
  }

  /** The body of the branch chosen for the action. */
  function Apply(acc: Acc, a: Action, tag: Tag, value: string, parseDoi: string -> Option<string>): Acc
    requires a.UpdateDate? ==> DateTagIndex(tag) != -1 && |value| >= 4
  {
    var f := acc.fields;
    match a
    case SetType => acc.(entryType := EntryTypeOf(value))
    case AppendTitle => Put(acc, Std(Title), NextTitle(f, value))
    case SetField(k) => Put(acc, k, value)
    case AppendAuthor => acc.(author := AppendName(acc.author, value))
    case AppendEditor => acc.(editor := AppendName(acc.editor, value))
    case SetStartPage => acc.(startPage := value)
    case SetEndPage => acc.(endPage := if value == "" then "" else "--" + value)
    case AddAbstract => if Join("\n", acc.abstractParts) != value then acc.(abstractParts := acc.abstractParts + [value]) else acc
    case AppendKeyword =>
      if Std(Keywords) in f then Put(acc, Std(Keywords), f[Std(Keywords)] + ", " + value) else Put(acc, Std(Keywords), value)
    case AddComment => acc.(commentParts := acc.commentParts + [value])
    case AddDoiField => acc.(fields := AddDoi(f, value, parseDoi))
    case SetPubmed => acc.(fields := f[Std(Eprint) := value][Std(EprintType) := "pubmed"])
    case UpdateDate => DateBranch(acc, tag, value)
    case Ignore => acc
  }

  /** The date branch is chosen exactly for a date tag whose value has at least four characters:
      no earlier branch names a date tag. */
  lemma ClassifyDate(acc: Acc, tag: Tag, value: string)
    ensures Classify(acc, tag, value).UpdateDate? <==> DateTagIndex(tag) != -1 && |value| >= 4
  {
  }

  /** The whole chain over the tag of one logical line. */
  function Dispatch(acc: Acc, tag: Tag, value: string, parseDoi: string -> Option<string>): Acc {
    ClassifyDate(acc, tag, value);
    Apply(acc, Classify(acc, tag, value), tag, value, parseDoi)
  }

  /** A non-empty name list is normalised; the normalised text is kept in the local as well as
      written to the field. */
  function NormalizeNames(names: string, f: map<Field, string>, k: Field, fix: string -> string): (string, map<Field, string>) {
    if names != "" then (fix(names), f[k := fix(names)]) else (names, f)
  }

  /** The side effects after every line that is not skipped: author and editor re-normalised,
      the two joiners written back when non-empty, the pages recomputed. */
  function AfterLine(acc: Acc, fix: string -> string): Acc {
    var (au, f1) := NormalizeNames(acc.author, acc.fields, Std(Author), fix);
    var (ed, f2) := NormalizeNames(acc.editor, f1, Std(Editor), fix);
    var abs := Join("\n", acc.abstractParts);
    var f3 := if abs != "" then f2[Std(Abstract) := abs] else f2;
    var com := Join("\n", acc.commentParts);
    var f4 := if com != "" then f3[Std(Comment) := com] else f3;
    acc.(author := au, editor := ed, fields := f4[Std(Pages) := acc.startPage + acc.endPage])
  }

  /** The two-character tag of a logical line. */
  function LineTag(line: string): Tag
    requires |line| >= 6
  {
    Tag(line[0], line[1])
  }

  /** `entry.substring(6).trim()`. */
  function LineValue(line: string): string
    requires |line| >= 6
  {
    Trim(line[6..])
  }

  /** The date bookkeeping of two states agrees. */
  predicate SameDate(a: Acc, b: Acc) {
    a.dateTag == b.dateTag && a.dateValue == b.dateValue && a.datePriority == b.datePriority
  }

  /** How one dispatch changes the date bookkeeping: only a date tag with a value of at least four
      characters and a strictly higher priority than the best so far is looked at; its prefix then
      either becomes the best date or, unparsable, the bare year. */
  lemma DispatchDate(acc: Acc, tag: Tag, value: string, parseDoi: string -> Option<string>)
    ensures var r := Dispatch(acc, tag, value, parseDoi);
      if DateTagIndex(tag) != -1 && |value| >= 4 && DateTagIndex(tag) < acc.datePriority then
        if YearParses(value[..4]) then
          r.dateTag == Some(tag) && r.dateValue == value && r.datePriority == DateTagIndex(tag) && r.year == acc.year
        else
          SameDate(r, acc) && r.year == value[..4]
      else
        SameDate(r, acc) && r.year == acc.year
  {
    ClassifyDate(acc, tag, value);
  }

  /** The side effects leave the date bookkeeping alone. */
  lemma AfterLineDate(acc: Acc, fix: string -> string)
    ensures SameDate(AfterLine(acc, fix), acc) && AfterLine(acc, fix).year == acc.year
  {
  }

  /** One logical line: a line shorter than six characters is skipped (`continue`), side effects
      included; any other line is dispatched and then followed by the side effects. */
  function Step(acc: Acc, line: string, env: Collaborators): (r: Acc)
    ensures DateStateOk(acc) ==> DateStateOk(r)
  {
    if |line| < 6 then acc
    else
      DispatchDate(acc, LineTag(line), LineValue(line), env.parseDoi);
      AfterLineDate(Dispatch(acc, LineTag(line), LineValue(line), env.parseDoi), env.fixAuthorLastNameFirst);
      AfterLine(Dispatch(acc, LineTag(line), LineValue(line), env.parseDoi), env.fixAuthorLastNameFirst)
  }

  /** The logical lines of a record, processed in order. */
  function ProcessLines(acc: Acc, lines: seq<string>, env: Collaborators): (r: Acc)
    ensures DateStateOk(acc) ==> DateStateOk(r)
    decreases |lines|
  {
    if lines == [] then acc else ProcessLines(Step(acc, lines[0], env), lines[1..], env)
  }

  /** A non-empty sequence of lines is its first line, then the rest. */
  lemma ProcessLinesHead(acc: Acc, lines: seq<string>, env: Collaborators)
    requires lines != []
    ensures ProcessLines(acc, lines, env) == ProcessLines(Step(acc, lines[0], env), lines[1..], env)
  {
  }

  // ---------------------------------------------------------------- what a dispatch may change

  /** Key `k` has the same presence and value in both maps. */
  predicate SameAt(f: map<Field, string>, g: map<Field, string>, k: Field) {
    (k in f <==> k in g) && (k in f ==> f[k] == g[k])
  }

  /** The keys the chain never writes: those the side effects and the finalizer own. */
  predicate IsOwned(k: Field) {
    k == Std(Author) || k == Std(Editor) || k == Std(Abstract) || k == Std(Comment) || k == Std(Pages) || k == Std(Year)
  }

  /** No branch of the chain writes an owned key or writes the title without normalising it. */
  lemma ClassifyKey(acc: Acc, tag: Tag, value: string)
    ensures Classify(acc, tag, value).SetField? ==>
              !IsOwned(Classify(acc, tag, value).key) && Classify(acc, tag, value).key != Std(Title)
  {
  }

  /** The entry type, the start page and the end page are each changed by exactly one tag. */
  lemma ClassifyLocals(acc: Acc, tag: Tag, value: string)
    ensures Classify(acc, tag, value) == SetType <==> tag == Tag('T', 'Y')
    ensures Classify(acc, tag, value) == SetStartPage <==> tag == Tag('S', 'P')
    ensures Classify(acc, tag, value) == SetEndPage <==> tag == Tag('E', 'P')
  {
  }

  /** The author tags `AU` and `A1`..`A4`. */
  predicate IsAuthorTag(tag: Tag) {
    tag == Tag('A', 'U') || tag == Tag('A', '1') || tag == Tag('A', '2') || tag == Tag('A', '3') || tag == Tag('A', '4')
  }

  /** The author list grows exactly on the author tags and the editor list exactly on `ED`. */
  lemma ClassifyNames(acc: Acc, tag: Tag, value: string)
    ensures Classify(acc, tag, value) == AppendAuthor <==> IsAuthorTag(tag)
    ensures Classify(acc, tag, value) == AppendEditor <==> tag == Tag('E', 'D')
  {
  }

  /** The abstract tags `N2` and `AB`. */
  predicate IsAbstractTag(tag: Tag) {
    tag == Tag('N', '2') || tag == Tag('A', 'B')
  }

  /** The tags that feed the comment joiner: `U1`, `U2` and `N1`. */
  predicate IsCommentTag(tag: Tag) {
    tag == Tag('U', '1') || tag == Tag('U', '2') || tag == Tag('N', '1')
  }

  /** The abstract joiner is fed exactly on `N2`/`AB` and the comment joiner exactly on
      `U1`/`U2`/`N1`. */
  lemma ClassifyJoiners(acc: Acc, tag: Tag, value: string)
    ensures Classify(acc, tag, value) == AddAbstract <==> IsAbstractTag(tag)
    ensures Classify(acc, tag, value) == AddComment <==> IsCommentTag(tag)
  {
  }

  /** One dispatch appends the value to the author list on an author tag and to the editor list
      on `ED`, after " and " when the list is not empty, and leaves both lists alone otherwise. */
  lemma DispatchNames(acc: Acc, tag: Tag, value: string, parseDoi: string -> Option<string>)
    ensures var r := Dispatch(acc, tag, value, parseDoi);
      && r.author == (if IsAuthorTag(tag) then AppendName(acc.author, value) else acc.author)
      && r.editor == (if tag == Tag('E', 'D') then AppendName(acc.editor, value) else acc.editor)
  {
    ClassifyNames(acc, tag, value);
  }

  /** After every dispatched line a non-empty author (editor) list is passed through `fix`, and
      the fixed text is both kept for the next line and written to AUTHOR (EDITOR); an empty list
      stays empty and its field is not touched. */
  lemma AfterLineNames(d: Acc, fix: string -> string)
    ensures var r := AfterLine(d, fix);
      && (d.author != "" ==> r.author == fix(d.author) && Std(Author) in r.fields && r.fields[Std(Author)] == fix(d.author))
      && (d.author == "" ==> r.author == "" && SameAt(d.fields, r.fields, Std(Author)))
      && (d.editor != "" ==> r.editor == fix(d.editor) && Std(Editor) in r.fields && r.fields[Std(Editor)] == fix(d.editor))
      && (d.editor == "" ==> r.editor == "" && SameAt(d.fields, r.fields, Std(Editor)))
  {
  }

  /** A title, when present, has no whitespace runs. */
  predicate TitleOk(f: map<Field, string>) {
    Std(Title) in f ==> NoSpaceRuns(f[Std(Title)])
  }

  /** What every branch keeps apart from the date bookkeeping and the plain field writes: the
      entry type changes only on `TY` and the pages only on `SP`/`EP`, the title stays normalised
      and the keys owned by the side effects are untouched. */
  ghost predicate DispatchFrame(acc: Acc, tag: Tag, value: string, r: Acc) {
    && r.entryType == (if tag == Tag('T', 'Y') then EntryTypeOf(value) else acc.entryType)
    && r.startPage == (if tag == Tag('S', 'P') then value else acc.startPage)
    && r.endPage == (if tag == Tag('E', 'P') then (if value == "" then "" else "--" + value) else acc.endPage)
    && (forall k :: IsOwned(k) ==> SameAt(acc.fields, r.fields, k))
    && (TitleOk(acc.fields) ==> TitleOk(r.fields))
  }

  /** Everything one dispatch does apart from the date bookkeeping and the plain field writes:
      the frame above; the names grow by the value exactly on their tags, the abstract joiner
      exactly on `N2`/`AB` unless the value equals the whole abstract so far, and the comment
      joiner exactly on `U1`/`U2`/`N1`. */
  ghost predicate DispatchEffect(acc: Acc, tag: Tag, value: string, r: Acc) {
    && DispatchFrame(acc, tag, value, r)
    && r.author == (if IsAuthorTag(tag) then AppendName(acc.author, value) else acc.author)
    && r.editor == (if tag == Tag('E', 'D') then AppendName(acc.editor, value) else acc.editor)
    && r.abstractParts ==
         (if IsAbstractTag(tag) && Join("\n", acc.abstractParts) != value then acc.abstractParts + [value]
          else acc.abstractParts)
    && r.commentParts == (if IsCommentTag(tag) then acc.commentParts + [value] else acc.commentParts)
  }

  /** One dispatch adds the value to the abstract joiner exactly on `N2`/`AB` and when it is not
      the whole abstract so far, and to the comment joiner exactly on `U1`/`U2`/`N1`. */
  lemma DispatchJoiners(acc: Acc, tag: Tag, value: string, parseDoi: string -> Option<string>)
    ensures var r := Dispatch(acc, tag, value, parseDoi);
      && r.abstractParts ==
           (if IsAbstractTag(tag) && Join("\n", acc.abstractParts) != value then acc.abstractParts + [value]
            else acc.abstractParts)
      && r.commentParts == (if IsCommentTag(tag) then acc.commentParts + [value] else acc.commentParts)
  {
    ClassifyJoiners(acc, tag, value);
  }

  lemma DispatchHasEffect(acc: Acc, tag: Tag, value: string, parseDoi: string -> Option<string>)
    ensures DispatchEffect(acc, tag, value, Dispatch(acc, tag, value, parseDoi))
  {
    ClassifyKey(acc, tag, value);
    ClassifyLocals(acc, tag, value);
    ApplyFrame(acc, Classify(acc, tag, value), tag, value, parseDoi);
    DispatchNames(acc, tag, value, parseDoi);
    DispatchJoiners(acc, tag, value, parseDoi);
  }

  /** The frame of a branch that writes no owned key and the title only by normalising it, and
      that is the entry-type or page branch exactly for its tag. */
  lemma ApplyFrame(acc: Acc, a: Action, tag: Tag, value: string, parseDoi: string -> Option<string>)
    requires a.UpdateDate? ==> DateTagIndex(tag) != -1 && |value| >= 4
    requires a.SetField? ==> !IsOwned(a.key) && a.key != Std(Title)
    requires a == SetType <==> tag == Tag('T', 'Y')
    requires a == SetStartPage <==> tag == Tag('S', 'P')
    requires a == SetEndPage <==> tag == Tag('E', 'P')
    ensures DispatchFrame(acc, tag, value, Apply(acc, a, tag, value, parseDoi))
  {
  }

  // ---------------------------------------------------------------- single branches

  /** A key other than `k` has the same presence and value in both maps. */
  ghost predicate OthersSame(f: map<Field, string>, g: map<Field, string>, k: Field) {
    forall j :: j != k ==> SameAt(f, g, j)
  }

  /** The second titles `T2`/`J2`/`JA` fill an absent or empty journal; `JO`/`J1`/`JF` always
      overwrite it; a `JA` that finds a journal already set goes to the booktitle of a conference
      paper and to the journal otherwise; `T2`/`J2` that find a journal set are ignored. */
  lemma JournalRouting(acc: Acc, tag: Tag, value: string, parseDoi: string -> Option<string>)
    ensures var f := acc.fields; var r := Dispatch(acc, tag, value, parseDoi);
      var unset := Std(Journal) !in f || f[Std(Journal)] == "";
      && ((tag == Tag('T', '2') || tag == Tag('J', '2') || tag == Tag('J', 'A')) && unset ==> r == acc.(fields := f[Std(Journal) := value]))
      && (tag == Tag('J', 'O') || tag == Tag('J', '1') || tag == Tag('J', 'F') ==> r == acc.(fields := f[Std(Journal) := value]))
      && (tag == Tag('J', 'A') && !unset ==>
            r == acc.(fields := f[(if acc.entryType == InProceedings then Std(Booktitle) else Std(Journal)) := value]))
      && ((tag == Tag('T', '2') || tag == Tag('J', '2')) && !unset ==> r == acc)
  {
    var f := acc.fields;
    var unset := Std(Journal) !in f || f[Std(Journal)] == "";
    if (tag == Tag('T', '2') || tag == Tag('J', '2') || tag == Tag('J', 'A')) && unset {
      assert Classify(acc, tag, value) == SetField(Std(Journal));
    } else if tag == Tag('J', 'O') || tag == Tag('J', '1') || tag == Tag('J', 'F') {
      assert Classify(acc, tag, value) == SetField(Std(Journal));
    } else if tag == Tag('J', 'A') {
      assert Classify(acc, tag, value) == SetField(if acc.entryType == InProceedings then Std(Booktitle) else Std(Journal));
    } else if tag == Tag('T', '2') || tag == Tag('J', '2') {
      assert Classify(acc, tag, value) == Ignore;
    }
  }

  /** The first matching branch wins: `DB` always fills "database" (the later "archive" branch
      is never reached) and `N1` only feeds the comment (the later note branch is reached by `RN`
      alone). */
  lemma DatabaseWins(acc: Acc, value: string, parseDoi: string -> Option<string>)
    ensures Dispatch(acc, Tag('D', 'B'), value, parseDoi) == acc.(fields := acc.fields[Unknown("database") := value])
  {
  }

  lemma CommentWins(acc: Acc, value: string, parseDoi: string -> Option<string>)
    ensures Dispatch(acc, Tag('N', '1'), value, parseDoi) == acc.(commentParts := acc.commentParts + [value])
  {
  }

  lemma DeadBranches(acc: Acc, tag: Tag, value: string)
    ensures Classify(acc, tag, value) != SetField(Unknown("archive"))
    ensures Classify(acc, tag, value) == SetField(Std(Note)) <==> tag == Tag('R', 'N')
  {
  }

  /** A date tag whose value is shorter than four characters falls through the whole chain. */
  lemma ShortDateIgnored(acc: Acc, tag: Tag, value: string, parseDoi: string -> Option<string>)
    requires DateTagIndex(tag) != -1 && |value| < 4
    ensures Dispatch(acc, tag, value, parseDoi) == acc
  {
    if tag == Tag('Y', '1') {
      assert Classify(acc, Tag('Y', '1'), value) == Ignore;
    } else if tag == Tag('P', 'Y') {
      assert Classify(acc, Tag('P', 'Y'), value) == Ignore;
    } else if tag == Tag('D', 'A') {
      assert Classify(acc, Tag('D', 'A'), value) == Ignore;
    } else {
      assert Classify(acc, Tag('Y', '2'), value) == Ignore;
    }
  }

  /** The first `T1`/`TI` sets the title; a later one is appended after " " when the title so far
      ends in ':', '.' or '?' and after ": " otherwise; every whitespace run is then one space. */
  lemma TitleUpdate(acc: Acc, tag: Tag, value: string, parseDoi: string -> Option<string>)
    requires tag == Tag('T', '1') || tag == Tag('T', 'I')
    ensures var f := acc.fields; var r := Dispatch(acc, tag, value, parseDoi).fields;
      && Std(Title) in r && NoSpaceRuns(r[Std(Title)])
      && (Std(Title) !in f ==> r[Std(Title)] == CollapseSpaces(value))
      && (Std(Title) in f ==>
            var t := f[Std(Title)];
            r[Std(Title)] == CollapseSpaces(t + (if t != [] && (t[|t| - 1] == ':' || t[|t| - 1] == '.' || t[|t| - 1] == '?') then " " else ": ") + value))
      && OthersSame(f, r, Std(Title))
  {
  }

  /** A title joined after a question mark. */
  lemma TitleAfterQuestion(acc: Acc, parseDoi: string -> Option<string>)
    requires Std(Title) in acc.fields && acc.fields[Std(Title)] == "Question?"
    ensures Dispatch(acc, Tag('T', 'I'), "More", parseDoi).fields[Std(Title)] == "Question? More"
  {
    assert Classify(acc, Tag('T', 'I'), "More") == AppendTitle;
    assert TitleSeparator("Question?") == " ";
    assert JoinedTitle(Some("Question?"), "More") == "Question? More";
    CollapseFixesCollapsed("Question? More");
  }

  /** Keywords accumulate, separated by ", ". */
  lemma KeywordsAccumulate(acc: Acc, value: string, parseDoi: string -> Option<string>)
    ensures var f := acc.fields;
      Dispatch(acc, Tag('K', 'W'), value, parseDoi)
        == acc.(fields := f[Std(Keywords) := if Std(Keywords) in f then f[Std(Keywords)] + ", " + value else value])
  {
  }

  /** Authors and editors accumulate, separated by " and ". */
  lemma NamesAccumulate(acc: Acc, tag: Tag, value: string, parseDoi: string -> Option<string>)
    ensures var r := Dispatch(acc, tag, value, parseDoi);
      && (tag == Tag('A', 'U') || tag == Tag('A', '1') || tag == Tag('A', '2') || tag == Tag('A', '3') || tag == Tag('A', '4') ==>
            r == acc.(author := if acc.author == "" then value else acc.author + " and " + value))
      && (tag == Tag('E', 'D') ==> r == acc.(editor := if acc.editor == "" then value else acc.editor + " and " + value))
  {
  }

  /** An abstract part equal to the whole abstract so far is not added again. */
  lemma AbstractDeduplicated(acc: Acc, tag: Tag, value: string, parseDoi: string -> Option<string>)
    requires tag == Tag('N', '2') || tag == Tag('A', 'B')
    ensures Dispatch(acc, tag, value, parseDoi)
              == acc.(abstractParts := if Join("\n", acc.abstractParts) == value then acc.abstractParts else acc.abstractParts + [value])
  {
    assert Classify(acc, tag, value) == AddAbstract;
  }

  /** User notes always are added to the comment. */
  lemma NotesAccumulate(acc: Acc, tag: Tag, value: string, parseDoi: string -> Option<string>)
    requires tag == Tag('U', '1') || tag == Tag('U', '2')
    ensures Dispatch(acc, tag, value, parseDoi) == acc.(commentParts := acc.commentParts + [value])
  {
    assert Classify(acc, tag, value) == AddComment;
  }

  /** `M3`/`DO` set the DOI to the canonical form of a value that parses as one, and otherwise
      leave the fields as they were; `C2` sets the eprint and marks it as a PubMed id. */
  lemma IdentifierTags(acc: Acc, tag: Tag, value: string, parseDoi: string -> Option<string>)
    ensures var f := acc.fields; var r := Dispatch(acc, tag, value, parseDoi);
      && (tag == Tag('M', '3') || tag == Tag('D', 'O') ==>
            && OthersSame(f, r.fields, Std(Doi))
            && (parseDoi(value).Some? ==> Std(Doi) in r.fields && r.fields[Std(Doi)] == parseDoi(value).value)
            && (parseDoi(value).None? ==> r == acc))
      && (tag == Tag('C', '2') ==> r == acc.(fields := f[Std(Eprint) := value][Std(EprintType) := "pubmed"]))
  {
    if tag == Tag('M', '3') || tag == Tag('D', 'O') {
      assert Classify(acc, tag, value) == AddDoiField;
    } else if tag == Tag('C', '2') {
      assert Classify(acc, tag, value) == SetPubmed;
    }
  }
}
