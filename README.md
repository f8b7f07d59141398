# RIS importer, modelled in Dafny

This project models JabRef's `RisImporter`. The importer reads RIS text, a tag-based
bibliographic format, and produces one bibliography entry per record. An entry is an entry
type, a map from fields to strings, and an optional month. The model covers:

- the format sniffer `isRecognizedFormat`;
- `importDatabase` as a whole:
  - the joining of the input lines and the replacement of typographic dashes;
  - the split into record blocks at the `ER  -` terminator;
  - the continuation merge that glues soft-wrapped physical lines into logical lines;
  - the first-match tag dispatch over the record's locals and field map;
  - the date resolver;
  - the per-line side effects, and the finalizer that sets the year and month and drops
    blank fields;
- `addDoi`.

The project has these modules:

| file | module | contents |
|---|---|---|
| `wrappers.dfy` | `Wrappers` | `Option` |
| `java_text.dfy` | `JavaText` | The Java string operations the importer uses.<br>`trim()`, `Character.isWhitespace` and `replaceAll("\\s+", " ")`.<br>`StringJoiner` as `Join` and `String.split` on one character.<br>`contains` and `Integer.parseInt`. |
| `ris_model.dfy` | `RisModel` | Entry types, field keys, months and the `Entry` result.<br>The two library collaborators. |
| `ris_sniffer.dfy` | `RisSniffer` | `isRecognizedFormat` |
| `ris_splitter.dfy` | `RisSplitter` | Dash normalisation.<br>The split on `ER {2}-.*(\n)*`. |
| `ris_continuation.dfy` | `RisContinuation` | Continuation lines, groups of physical lines and logical lines. |
| `ris_dispatch.dfy` | `RisDispatch` | The record's locals (`Acc`).<br>The dispatch chain (`Classify` picks the branch, `Apply` runs it).<br>The side effects after a line, and one step of the line loop. |
| `ris_lines.dfy` | `RisLines` | What the line loop computes over a whole record. |
| `ris_record.dfy` | `RisRecord` | The finalizer and the whole-record properties. |
| `ris_importer.dfy` | `RisImporter` | `importDatabase` as loops.<br>The outer loop over blocks, the `j` loop over lines and the inner `while`.<br>Each is proved equal to the functional model. |

`importDatabase` is written as methods with loops, as in the source. The outer `for` over the
record array is `RisImporter.ImportBlocks`. The index loop over the lines is `ImportLines` and
`ImportGroup`, and its inner `while` is `ReadLogicalLine`. Each method's postcondition ties its
result to a function of its inputs:

- `ParseAll`, one `ParseRecord` per block;
- `ProcessLines` over `LogicalLines`;
- `GroupEnd` and `GlueAll`.

The properties of the source are proved as lemmas about those functions.

## Model

| member | source | states |
|---|---|---|
| RisSniffer.IsRecognizedFormat | jablib/src/main/java/org/jabref/logic/importer/fileformat/RisImporter.java:58-61 | Recognised iff some line contains "TY  - " at some position. The pattern `TY {2}- .*` (line 34) is used with `find()`, which is unanchored, and its `.*` may match nothing. |
| JavaText.Trim | jablib/src/main/java/org/jabref/logic/importer/fileformat/RisImporter.java:115 | `trim()`: the result is empty or starts and ends with a character above U+0020. `TrimEmptyIff` states when it is empty. |
| JavaText.JavaSplit | jablib/src/main/java/org/jabref/logic/importer/fileformat/RisImporter.java:93 | `split` on one character. A string without the delimiter splits into itself. When there is more than one piece, the last piece kept is non-empty. |
| JavaText.ContainsIff | jablib/src/main/java/org/jabref/logic/importer/fileformat/RisImporter.java:60 | The substring scan is true iff the pattern occurs at some index. |
| RisSplitter.NormalizeDashes | jablib/src/main/java/org/jabref/logic/importer/fileformat/RisImporter.java:70 | After normalisation no U+2013, U+2014 or U+2015 is left. |
| RisSplitter.NormalizeDashesIsReplaceChain | jablib/src/main/java/org/jabref/logic/importer/fileformat/RisImporter.java:70 | The one-pass normalisation equals the chain of three `replace` calls: U+2013 to "-", U+2014 and U+2015 to "--". |
| RisSplitter.NextTerminator | jablib/src/main/java/org/jabref/logic/importer/fileformat/RisImporter.java:71 | Finds the leftmost match of `ER  -` at or after the start position. None means there is no match anywhere after it. |
| RisSplitter.RawBlocks | jablib/src/main/java/org/jabref/logic/importer/fileformat/RisImporter.java:71 | The pieces between matches. There is at least one piece, and exactly one iff the pattern does not match. |
| RisSplitter.Matches | jablib/src/main/java/org/jabref/logic/importer/fileformat/RisImporter.java:71 | The matched terminators, one fewer than the pieces. Each runs from a leftmost `ER  -` to the end of the `.*` and the `\n` run after it. |
| RisSplitter.SplitReconstructs | jablib/src/main/java/org/jabref/logic/importer/fileformat/RisImporter.java:71 | The pieces interleaved with the matched spans give back the text from the start position: nothing is lost, duplicated or reordered. |
| RisSplitter.SplitMatch | jablib/src/main/java/org/jabref/logic/importer/fileformat/RisImporter.java:71 | Every matched span is a full match of `ER {2}-.*(\n)*` and is greedy: the character after it could not extend it. |
| RisSplitter.MatchAt | jablib/src/main/java/org/jabref/logic/importer/fileformat/RisImporter.java:71 | The span matched at a terminator position is a full, greedy match of the pattern. |
| RisSplitter.SplitRecords | jablib/src/main/java/org/jabref/logic/importer/fileformat/RisImporter.java:71 | `split` keeps a prefix of the pieces and drops only empty ones. When the pattern matches, the last block kept is non-empty, so trailing empty strings are removed. Without a match the result is the whole text. |
| RisSplitter.RecordBlocks | jablib/src/main/java/org/jabref/logic/importer/fileformat/RisImporter.java:68-71 | Definition: the lines joined with "\n", the dashes replaced, then split on the terminator. Its properties are the `RisSplitter` lemmas above. |
| RisSplitter.NoTerminatorInRecords | jablib/src/main/java/org/jabref/logic/importer/fileformat/RisImporter.java:71 | No record block contains the terminator text. |
| RisSplitter.NoTerminatorOneRecord | jablib/src/main/java/org/jabref/logic/importer/fileformat/RisImporter.java:71 | Text without a terminator is one block, the whole text. |
| RisSplitter.EmptyInputOneBlock | jablib/src/main/java/org/jabref/logic/importer/fileformat/RisImporter.java:68-71 | Empty input (no lines, reduced to "") splits into exactly one block, "". |
| JavaText.PiecesJoin | jablib/src/main/java/org/jabref/logic/importer/fileformat/RisImporter.java:93 | Joining the pieces between delimiters with the delimiter gives the string back. |
| JavaText.JavaSplitPieces | jablib/src/main/java/org/jabref/logic/importer/fileformat/RisImporter.java:93 | `split` keeps a prefix of those pieces and drops only empty ones. With more than one piece, the last one kept is non-empty, so every trailing empty piece is dropped. |
| RisContinuation.Glue | jablib/src/main/java/org/jabref/logic/importer/fileformat/RisImporter.java:100-104 | A continuation is appended with at most one space. The space is inserted iff the text so far is non-empty, its last character is not whitespace, and the continuation does not start with whitespace. |
| RisContinuation.IsContinuation | jablib/src/main/java/org/jabref/logic/importer/fileformat/RisImporter.java:99 | Definition of the test on `lines[j + 1]`: at least 6 characters and no "  - " at 2..6. `GroupEnd` and `GroupsFromAreGroups` state its role. |
| RisContinuation.GlueAll | jablib/src/main/java/org/jabref/logic/importer/fileformat/RisImporter.java:98-105 | Definition: a group glued from left to right with `Glue`, as the `StringBuilder` is. `GlueAllSnoc` and `ReadLogicalLine` state it. |
| RisContinuation.LogicalLines | jablib/src/main/java/org/jabref/logic/importer/fileformat/RisImporter.java:95-110 | Definition: the glued groups of a block, short ones included. `LogicalLinesAreGlued`, `GroupsCoverLines` and `LogicalLineCount` state it. |
| RisContinuation.ShortLineStartsLogicalLine | jablib/src/main/java/org/jabref/logic/importer/fileformat/RisImporter.java:99-111 | A short line is not dropped at once: it ends the line before it and absorbs the continuation after it. |
| RisContinuation.GroupEnd | jablib/src/main/java/org/jabref/logic/importer/fileformat/RisImporter.java:98-109 | The last line absorbed lies within the block. The line after it, if any, is not a continuation (a continuation has at least 6 characters and no "  - " at 2..6). |
| RisContinuation.GroupEndSpan | jablib/src/main/java/org/jabref/logic/importer/fileformat/RisImporter.java:98-105 | Every absorbed line after the first is a continuation, so the absorbed lines form a group. |
| RisContinuation.GroupsFromAreGroups | jablib/src/main/java/org/jabref/logic/importer/fileformat/RisImporter.java:95-109 | Every group starts with a line that is not a continuation (except the block's first line) and continues with continuations only. |
| RisContinuation.GroupsCoverLines | jablib/src/main/java/org/jabref/logic/importer/fileformat/RisImporter.java:95-109 | The groups concatenate to the physical lines: every line is consumed exactly once, in order. |
| RisContinuation.LogicalLineCount | jablib/src/main/java/org/jabref/logic/importer/fileformat/RisImporter.java:95-109 | There is one group per line that is the first line or is not a continuation. |
| RisContinuation.LogicalLinesAreGlued | jablib/src/main/java/org/jabref/logic/importer/fileformat/RisImporter.java:95-110 | There is one logical line per group, in order. Logical line g is group g glued. |
| RisImporter.GlueAllSnoc | jablib/src/main/java/org/jabref/logic/importer/fileformat/RisImporter.java:99-105 | Absorbing one more continuation extends the glued text by one `Glue`. |
| RisImporter.ReadLogicalLine | jablib/src/main/java/org/jabref/logic/importer/fileformat/RisImporter.java:96-110 | The inner `while` stops at `GroupEnd`, and the `StringBuilder` then holds the group glued. |
| RisImporter.ImportGroup | jablib/src/main/java/org/jabref/logic/importer/fileformat/RisImporter.java:95-113 | One turn of the `j` loop: the next index is one past the group's end, and the state is one `Step` on the first logical line from `j`. |
| RisImporter.ImportLines | jablib/src/main/java/org/jabref/logic/importer/fileformat/RisImporter.java:95-275 | The `j` loop computes `ProcessLines` from the initial locals over the block's logical lines. |
| RisImporter.ProcessEntry | jablib/src/main/java/org/jabref/logic/importer/fileformat/RisImporter.java:110-274 | The body after the merge is `Step`. A line under 6 characters is skipped. Otherwise the tag is `entry[0..2]`, the value is `entry.substring(6).trim()`, and the line is dispatched and followed by the side effects. |
| JavaText.TrimEmptyIff | jablib/src/main/java/org/jabref/logic/importer/fileformat/RisImporter.java:295 | `trim()` gives "" iff every character is at most U+0020. |
| RisModel.EntryTypeOf | jablib/src/main/java/org/jabref/logic/importer/fileformat/RisImporter.java:117-127 | The type is Misc iff the value is outside the nine-value table. It is Article iff the value is JOUR or MGZN. |
| RisDispatch.ClassifyLocals | jablib/src/main/java/org/jabref/logic/importer/fileformat/RisImporter.java:116-190 | The type branch is chosen iff the tag is TY, the start-page branch iff SP, and the end-page branch iff EP. |
| RisDispatch.Classify | jablib/src/main/java/org/jabref/logic/importer/fileformat/RisImporter.java:116-258 | Definition of the first-match chain: the branch a tag and value select. `ClassifyLocals`, `ClassifyKey`, `ClassifyDate`, `ClassifyNames` and `DeadBranches` state it. |
| RisDispatch.Apply | jablib/src/main/java/org/jabref/logic/importer/fileformat/RisImporter.java:116-258 | Definition of what each branch does. `ApplyFrame` and `DispatchHasEffect` state it. |
| RisDispatch.Dispatch | jablib/src/main/java/org/jabref/logic/importer/fileformat/RisImporter.java:116-258 | Definition: `Apply` of the `Classify` branch. `DispatchHasEffect` and the per-tag lemmas state it. |
| RisDispatch.DateBranch | jablib/src/main/java/org/jabref/logic/importer/fileformat/RisImporter.java:203-216 | Definition of the date branch. `DispatchDate` states it. |
| RisDispatch.YearParses | jablib/src/main/java/org/jabref/logic/importer/fileformat/RisImporter.java:206-207 | Definition of `Year.parse(_, "yyyy")` on a 4-character prefix: 4 ASCII digits other than "0000". |
| RisDispatch.AfterLine | jablib/src/main/java/org/jabref/logic/importer/fileformat/RisImporter.java:260-274 | Definition of the side effects. `AfterLineNames`, `AfterLineSyncs` and `AfterLineDate` state them. |
| RisDispatch.ClassifyKey | jablib/src/main/java/org/jabref/logic/importer/fileformat/RisImporter.java:116-258 | No field branch writes AUTHOR, EDITOR, ABSTRACT, COMMENT, PAGES, YEAR or TITLE. |
| RisDispatch.ApplyFrame | jablib/src/main/java/org/jabref/logic/importer/fileformat/RisImporter.java:116-258 | A branch that writes no owned key, writes the title only by normalising it, and is the type or page branch exactly for TY, SP and EP keeps the frame `DispatchFrame` describes. |
| RisDispatch.DispatchHasEffect | jablib/src/main/java/org/jabref/logic/importer/fileformat/RisImporter.java:116-258 | What any dispatch changes besides plain field writes and the date. The type changes only on TY and the pages only on SP/EP. The author grows by the value exactly on AU/A1–A4 and the editor exactly on ED. The abstract joiner grows exactly on N2/AB when the value is not the whole abstract so far, and the comment joiner exactly on U1/U2/N1. The title stays free of whitespace runs, and the keys the side effects own are untouched. |
| RisDispatch.ClassifyJoiners | jablib/src/main/java/org/jabref/logic/importer/fileformat/RisImporter.java:197-224 | The abstract branch is chosen iff the tag is N2 or AB, and the comment branch iff it is U1, U2 or N1. |
| RisDispatch.DispatchJoiners | jablib/src/main/java/org/jabref/logic/importer/fileformat/RisImporter.java:197-224 | One dispatch adds the value to the abstract parts exactly on N2/AB when it is not the whole abstract so far, and to the comment parts exactly on U1/U2/N1. Otherwise both are unchanged. |
| RisDispatch.NextTitle | jablib/src/main/java/org/jabref/logic/importer/fileformat/RisImporter.java:139 | The new title has no run of two whitespace characters. |
| JavaText.CollapseSpaces | jablib/src/main/java/org/jabref/logic/importer/fileformat/RisImporter.java:139 | `replaceAll("\\s+", " ")` leaves no whitespace run. The result is empty iff the input is, and it starts with a space iff the input starts with whitespace. |
| JavaText.CollapseRun | jablib/src/main/java/org/jabref/logic/importer/fileformat/RisImporter.java:139 | A non-empty whitespace run becomes exactly one space. |
| JavaText.CollapseWord | jablib/src/main/java/org/jabref/logic/importer/fileformat/RisImporter.java:139 | A string without whitespace is left as it is. |
| JavaText.CollapseSplits | jablib/src/main/java/org/jabref/logic/importer/fileformat/RisImporter.java:139 | Collapsing distributes over a boundary between whitespace and non-whitespace. With `CollapseRun` and `CollapseWord` this fixes the result: every run becomes one space and every word is kept. |
| JavaText.CollapseKeepsWords | jablib/src/main/java/org/jabref/logic/importer/fileformat/RisImporter.java:139 | Collapsing keeps every non-whitespace character, in order. |
| JavaText.CollapseIdempotent | jablib/src/main/java/org/jabref/logic/importer/fileformat/RisImporter.java:139 | Collapsing twice is collapsing once. |
| RisDispatch.TitleUpdate | jablib/src/main/java/org/jabref/logic/importer/fileformat/RisImporter.java:128-139 | The first T1/TI sets the title. A later one is appended after " " if the old title ends in ':', '.' or '?', and after ": " otherwise. The result is collapsed, and no other field changes. |
| RisDispatch.TitleAfterQuestion | jablib/src/main/java/org/jabref/logic/importer/fileformat/RisImporter.java:133-134 | "Question?" followed by TI "More" gives "Question? More". |
| RisDispatch.JournalRouting | jablib/src/main/java/org/jabref/logic/importer/fileformat/RisImporter.java:142-167 | T2/J2/JA set the journal only when it is absent or "". JO/J1/JF always overwrite it. A JA that finds a journal goes to the booktitle for InProceedings and to the journal otherwise. T2/J2 that find a journal change nothing. |
| RisDispatch.NamesAccumulate | jablib/src/main/java/org/jabref/logic/importer/fileformat/RisImporter.java:150-161 | AU/A1–A4 extend only the author local, and ED only the editor local. |
| RisDispatch.ClassifyNames | jablib/src/main/java/org/jabref/logic/importer/fileformat/RisImporter.java:150-161 | The author branch is chosen iff the tag is AU or A1–A4, and the editor branch iff it is ED. |
| RisDispatch.DispatchNames | jablib/src/main/java/org/jabref/logic/importer/fileformat/RisImporter.java:150-161 | After a dispatch the author is the old author with the value appended after " and " (or the value alone when empty) iff the tag is an author tag, else unchanged. The same for ED and the editor. |
| RisLines.StepNames | jablib/src/main/java/org/jabref/logic/importer/fileformat/RisImporter.java:110-267 | One logical line takes the author to `NameStep`: append the value on an author tag, then apply `fix` when non-empty. Short lines leave it alone. The same for the editor. |
| RisLines.NamesWin | jablib/src/main/java/org/jabref/logic/importer/fileformat/RisImporter.java:95-267 | Over a record the author local is `NamesAfter` of the lines: each author line appended and the result re-normalised after every dispatched line. |
| RisRecord.RecordNames | jablib/src/main/java/org/jabref/logic/importer/fileformat/RisImporter.java:95-295 | AUTHOR is present in the entry iff the accumulated, normalised author is not blank, and then it is that text. The same for EDITOR. |
| RisLines.StepJoiners | jablib/src/main/java/org/jabref/logic/importer/fileformat/RisImporter.java:110-274 | One logical line takes the abstract parts to `AbstractStep`, and adds its value to the comment parts exactly when it is a dispatched comment line. |
| RisLines.AbstractWins | jablib/src/main/java/org/jabref/logic/importer/fileformat/RisImporter.java:95-274 | Over a record the abstract parts are `AbstractAfter` of the lines: each N2/AB value appended unless it equals the whole abstract so far. |
| RisLines.StepComment | jablib/src/main/java/org/jabref/logic/importer/fileformat/RisImporter.java:110-274 | One logical line adds its comment value, if any, to the comment parts. |
| RisLines.CommentsWin | jablib/src/main/java/org/jabref/logic/importer/fileformat/RisImporter.java:95-274 | Over a record the comment parts gain the values of the U1/U2/N1 lines, in order. |
| RisRecord.RecordJoiners | jablib/src/main/java/org/jabref/logic/importer/fileformat/RisImporter.java:95-295 | ABSTRACT is present iff the accumulated abstract joined with "\n" is not blank, and then it is that text. The same for COMMENT and the comment values. |
| RisDispatch.DatabaseWins | jablib/src/main/java/org/jabref/logic/importer/fileformat/RisImporter.java:172-173 | DB always writes the unknown field "database" and nothing else. |
| RisDispatch.DeadBranches | jablib/src/main/java/org/jabref/logic/importer/fileformat/RisImporter.java:229-245 | The "archive" branch is never chosen. The note branch is chosen iff the tag is RN. |
| RisDispatch.CommentWins | jablib/src/main/java/org/jabref/logic/importer/fileformat/RisImporter.java:223-230 | N1 only adds the value to the comment joiner. |
| RisDispatch.NotesAccumulate | jablib/src/main/java/org/jabref/logic/importer/fileformat/RisImporter.java:223-224 | U1/U2 only add the value to the comment joiner. |
| RisDispatch.AbstractDeduplicated | jablib/src/main/java/org/jabref/logic/importer/fileformat/RisImporter.java:197-200 | N2/AB add the value to the abstract unless it equals the whole abstract so far. |
| RisDispatch.KeywordsAccumulate | jablib/src/main/java/org/jabref/logic/importer/fileformat/RisImporter.java:217-222 | KW sets the keywords, or appends after ", " when they are present. |
| RisDispatch.AddDoi | jablib/src/main/java/org/jabref/logic/importer/fileformat/RisImporter.java:307-310 | A value that parses as a DOI sets DOI to its canonical form. Otherwise the map is unchanged. No other key changes. |
| RisDispatch.IdentifierTags | jablib/src/main/java/org/jabref/logic/importer/fileformat/RisImporter.java:225-235 | M3/DO go through `addDoi`. C2 sets the eprint and the eprint type "pubmed". |
| RisDispatch.DateTagIndex | jablib/src/main/java/org/jabref/logic/importer/fileformat/RisImporter.java:74 | `indexOf` over [Y1, PY, DA, Y2]: -1 iff the tag is absent, else the tag's position. |
| RisDispatch.ClassifyDate | jablib/src/main/java/org/jabref/logic/importer/fileformat/RisImporter.java:203 | The date branch is chosen iff the tag is a date tag and the value has at least 4 characters. |
| RisDispatch.ShortDateIgnored | jablib/src/main/java/org/jabref/logic/importer/fileformat/RisImporter.java:203-258 | A date tag with a value under 4 characters changes nothing. |
| RisDispatch.DispatchDate | jablib/src/main/java/org/jabref/logic/importer/fileformat/RisImporter.java:203-216 | Only a date tag with priority strictly above the best so far is looked at. If its prefix parses as a year it becomes the best date. Otherwise the prefix becomes the bare year. Nothing else touches either. |
| RisDispatch.AfterLineDate | jablib/src/main/java/org/jabref/logic/importer/fileformat/RisImporter.java:260-274 | The side effects leave the date bookkeeping and the bare year alone. |
| RisDispatch.Step | jablib/src/main/java/org/jabref/logic/importer/fileformat/RisImporter.java:110-274 | One logical line keeps the date bookkeeping consistent. |
| RisDispatch.ProcessLines | jablib/src/main/java/org/jabref/logic/importer/fileformat/RisImporter.java:95-275 | A whole record keeps the date bookkeeping consistent. |
| RisLines.ShortLineSkipped | jablib/src/main/java/org/jabref/logic/importer/fileformat/RisImporter.java:111-112 | A logical line under 6 characters leaves every local and field as it was, side effects included. |
| RisLines.ShortLinesIgnored | jablib/src/main/java/org/jabref/logic/importer/fileformat/RisImporter.java:111-112 | A record is decided by its dispatched lines alone. |
| RisLines.StepLocals | jablib/src/main/java/org/jabref/logic/importer/fileformat/RisImporter.java:116-190 | TY sets the type, SP the start page and EP the end page (with "--" unless empty). No other line touches them. |
| RisLines.LastTypeWins | jablib/src/main/java/org/jabref/logic/importer/fileformat/RisImporter.java:82-127 | The last TY decides the entry type. Without one it stays as it was. |
| RisLines.LastPagesWin | jablib/src/main/java/org/jabref/logic/importer/fileformat/RisImporter.java:176-190 | The last SP and the last EP decide the start and end page. |
| RisLines.AfterLineSyncs | jablib/src/main/java/org/jabref/logic/importer/fileformat/RisImporter.java:260-274 | The side effects bring AUTHOR, EDITOR, ABSTRACT and COMMENT in step with their locals, and set PAGES to the start page followed by the end page. |
| RisDispatch.AfterLineNames | jablib/src/main/java/org/jabref/logic/importer/fileformat/RisImporter.java:260-267 | A non-empty author becomes `fix(author)` in both the local and the AUTHOR field. An empty one stays empty and AUTHOR is untouched. The same for the editor and EDITOR. |
| RisLines.StepSynced | jablib/src/main/java/org/jabref/logic/importer/fileformat/RisImporter.java:260-274 | One line keeps those fields in step. A dispatched line leaves PAGES set. The title stays free of whitespace runs. |
| RisLines.LinesSynced | jablib/src/main/java/org/jabref/logic/importer/fileformat/RisImporter.java:260-274 | The same over a whole record. PAGES is set once any line was dispatched. |
| RisLines.StepDate | jablib/src/main/java/org/jabref/logic/importer/fileformat/RisImporter.java:203-216 | The date bookkeeping after one logical line. |
| RisLines.BestDateWins | jablib/src/main/java/org/jabref/logic/importer/fileformat/RisImporter.java:203-216 | Over a record, the best date is a candidate of the smallest priority index, and the first such. It beats the starting state, or else the bookkeeping is unchanged. |
| RisLines.BareYearFallback | jablib/src/main/java/org/jabref/logic/importer/fileformat/RisImporter.java:203-216 | The final priority is the best the candidates reach. The bare year is the last bare-year line that beat every candidate before it. |
| RisLines.PriorityWins | jablib/src/main/java/org/jabref/logic/importer/fileformat/RisImporter.java:203-216 | Over a record the date priority is the best one the candidate lines reach from the starting priority. |
| RisLines.BareYearWins | jablib/src/main/java/org/jabref/logic/importer/fileformat/RisImporter.java:203-216 | Over a record the bare year is the last bare-year line that beat every candidate before it, or the starting year. |
| RisRecord.RemoveBlankFields | jablib/src/main/java/org/jabref/logic/importer/fileformat/RisImporter.java:295 | Exactly the fields whose value is not blank are kept, with their values. |
| RisRecord.MonthOf | jablib/src/main/java/org/jabref/logic/importer/fileformat/RisImporter.java:281-289 | A month is set iff there is a second `/` segment that parses as an integer in 1..12. That number is the month's. |
| RisModel.MonthByNumber | jablib/src/main/java/org/jabref/logic/importer/fileformat/RisImporter.java:285 | A month exists iff the number is in 1..12, and it has that number. |
| JavaText.ParseInt | jablib/src/main/java/org/jabref/logic/importer/fileformat/RisImporter.java:284 | A result exists iff the string is an optional sign followed by at least one ASCII digit and its value lies in the 32-bit range. The result is that signed value. |
| RisRecord.WithYear | jablib/src/main/java/org/jabref/logic/importer/fileformat/RisImporter.java:278-292 | YEAR is the best date's first 4 characters, else a non-empty bare year, else unset. No other key changes. |
| RisRecord.Finalize | jablib/src/main/java/org/jabref/logic/importer/fileformat/RisImporter.java:277-301 | The type is kept and non-blank fields are kept with their values. YEAR is set as above; a blank bare year is dropped. The month comes from the best date only. |
| RisRecord.EntryOfLines | jablib/src/main/java/org/jabref/logic/importer/fileformat/RisImporter.java:295 | No field of a finished entry is blank, and its title has no whitespace run. |
| RisRecord.RecordType | jablib/src/main/java/org/jabref/logic/importer/fileformat/RisImporter.java:82-127 | The entry type is the tabled type of the last TY, or Misc without one. |
| RisRecord.BareYearNotBlank | jablib/src/main/java/org/jabref/logic/importer/fileformat/RisImporter.java:205-214 | A bare year is never blank. |
| RisRecord.BestDateLineExists | jablib/src/main/java/org/jabref/logic/importer/fileformat/RisImporter.java:203-216 | With a candidate present, the best date comes from the first line of the highest-priority candidate tag. |
| RisRecord.RecordYearFromDate | jablib/src/main/java/org/jabref/logic/importer/fileformat/RisImporter.java:277-289 | With a candidate present, YEAR and month come from that line. YEAR is its first 4 characters; the month comes from its second `/` segment. |
| RisRecord.RecordYearBare | jablib/src/main/java/org/jabref/logic/importer/fileformat/RisImporter.java:290-292 | Without a candidate, YEAR is present iff there is a bare year, and is that year. There is no month. |
| RisRecord.RecordPages | jablib/src/main/java/org/jabref/logic/importer/fileformat/RisImporter.java:274 | PAGES is the last SP plus "--" and the last EP (when non-empty). It is present iff some line was dispatched and that text is not blank. |
| RisRecord.EmptyRecord | jablib/src/main/java/org/jabref/logic/importer/fileformat/RisImporter.java:93 | An empty block gives a Misc entry with no fields and no month. |
| RisRecord.ParseRecord | jablib/src/main/java/org/jabref/logic/importer/fileformat/RisImporter.java:76-301 | Definition: the entry of a block's logical lines. `RecordType`, `RecordNames`, `RecordPages`, `RecordYearFromDate` and `RecordYearBare` state it. |
| RisImporter.ImportRecord | jablib/src/main/java/org/jabref/logic/importer/fileformat/RisImporter.java:76-302 | The body of the outer `for` computes `ParseRecord` of the block. |
| RisImporter.ImportBlocks | jablib/src/main/java/org/jabref/logic/importer/fileformat/RisImporter.java:76-303 | The outer `for` emits `ParseAll` of the blocks: one entry per block, in order. |
| RisImporter.ParseAll | jablib/src/main/java/org/jabref/logic/importer/fileformat/RisImporter.java:76-303 | Definition: one `ParseRecord` per block. `ParseAllEntries` states it. |
| RisImporter.ParseAllEntries | jablib/src/main/java/org/jabref/logic/importer/fileformat/RisImporter.java:76-302 | Entry i is the entry of block i, and no block is skipped. |
| RisImporter.ImportDatabase | jablib/src/main/java/org/jabref/logic/importer/fileformat/RisImporter.java:64-305 | `importDatabase` returns the entries of the record blocks of its input lines. |
| RisImporter.EmptyInputOneEntry | jablib/src/main/java/org/jabref/logic/importer/fileformat/RisImporter.java:68-76 | Empty input yields exactly one entry: Misc, with no fields and no month. |

## Where the model follows the code rather than the format's description

- **Short lines.** A physical line shorter than 6 characters is not a continuation (line 99). It
  ends the logical line before it and starts a new logical line, which absorbs the continuations
  after it. Only a logical line still under 6 characters is skipped (line 111).
- **JF.** `JO`/`J1`/`JF` always write the journal. `JF` never reaches the InProceedings branch
  at line 162: line 145 catches it first.
- **DB.** `DB` always writes `database`. The `archive` branch at line 244 is dead.
- **N1.** `N1` only feeds the comment. The note branch at line 229 is reached by `RN` alone.
- **Empty input.** Empty input, or a text without any terminator, yields one entry, as does
  every block. `"".split(..)` is `[""]`, and no block is skipped. An empty input therefore
  gives one `Misc` entry with no fields.
- **Unanchored terminator.** The split pattern `ER {2}-.*(\n)*` is not anchored to a line start.
  `ER  -` inside a line also ends a record.

## Left out

- **Readers.** `BufferedReader` and the stream plumbing are not modelled (lines 60, 68). The
  input is a sequence of lines.
- **Constants.** `getId`, `getName`, `getFileType` and `getDescription` are constants and
  localisation (lines 37–55).
- **Collaborators.** `AuthorList.fixAuthorLastNameFirst` and `DOI.parse(..)` with
  `asString()` are parameters, fields of `RisModel.Collaborators`. Their code is not part of
  this model. The author and editor normalisation is still re-applied after every dispatched
  line, as in the source.
- **Output objects.** `BibEntry`, `ParserResult` and `Month` are reduced to
  `Entry(entryType, fields, month)`. `ParserResult` warnings do not arise in this code.
- JavaText.ParseInt: accepts only ASCII digits, signed or not. Java's `Integer.parseInt` also
  accepts other Unicode decimal digits.
- **Year parsing.** `Year.parse(_, "yyyy")` is modelled on the 4-character prefix it is given. The
  formatter uses the standard decimal style, so only ASCII digits are accepted. A sign cannot fit
  in 4 characters, and year-of-era 0 is rejected. The model is exact for this input.
- **Characters.** Strings are sequences of Dafny characters, which are Unicode scalar values.
  Java strings are UTF-16, so a character outside the Basic Multilingual Plane counts as two
  `char`s there and as one here. This changes lengths and the columns 2..6 test only for such
  characters.
- RisSplitter.RawBlocks: models the split for this one pattern, not Java regular expressions
  in general. A match is:
  - the leftmost `ER  -`;
  - `.*` up to the next line terminator (`\n`, `\r`, U+0085, U+2028, U+2029);
  - then any number of `\n`.
- **Null values.** The `value == null` half of the `removeIf` predicate cannot arise, because
  maps here hold only strings.
- **HashMap.** Field order in the `HashMap` is not modelled. Fields are a Dafny `map`.
