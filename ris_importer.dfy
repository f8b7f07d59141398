/**
 * `importDatabase` as the loops it is: one pass over the record blocks, and for each block an
 * index loop over its physical lines whose inner loop absorbs continuation lines into the
 * current logical line before the line is dispatched. Both are proved to compute the entries
 * the functional model describes.
 */
module RisImporter {
  import opened Wrappers
  import opened JavaText
  import opened RisModel
  import opened RisSplitter
  import opened RisContinuation
  import opened RisDispatch
  import opened RisRecord

  /** Gluing one more continuation onto a group's logical line. */
  lemma GlueAllSnoc(lines: seq<string>, start: nat, j: nat)
    requires start <= j && j + 1 < |lines|
    requires forall i :: start < i <= j + 1 ==> IsContinuation(lines[i])
    ensures IsGroup(lines[start..j + 1]) && IsGroup(lines[start..j + 2])
    ensures GlueAll(lines[start..j + 2]) == Glue(GlueAll(lines[start..j + 1]), lines[j + 1])
  {
    var g := lines[start..j + 2];
    var h := lines[start..j + 1];
    forall i | 1 <= i < |g|
      ensures IsContinuation(g[i])
    {
      assert g[i] == lines[start + i];
    }
    forall i | 1 <= i < |h|
      ensures IsContinuation(h[i])
    {
      assert h[i] == lines[start + i];
    }
    assert g[..|g| - 1] == h;
    assert g[|g| - 1] == lines[j + 1];
  }

  /** One record block (the body of the `for` over the split array): the physical lines, the
      continuation merge, the dispatch and side effects of every logical line of at least six
      characters, and the finalizer. */
  method ImportRecord(block: string, env: Collaborators) returns (entry: Entry)
    ensures entry == ParseRecord(block, env)
  {
    var lines := JavaSplit(block, '\n');
    var acc := ImportLines(lines, env);
    entry := Finalize(acc);
  }

  /** The state after processing, from `acc`, the logical lines that start at line `j` or later. */
  function Remaining(acc: Acc, lines: seq<string>, j: nat, env: Collaborators): Acc
    requires j <= |lines|
  {
    ProcessLines(acc, LogicalLinesFrom(lines, j), env)
  }

  /** One turn of the `j` loop: the first logical line from `j`, then the logical lines after
      its group. */
  lemma RemainingStep(acc: Acc, lines: seq<string>, j: nat, env: Collaborators)
    requires j < |lines|
    ensures |LogicalLinesFrom(lines, j)| > 0
    ensures Remaining(acc, lines, j, env) ==
              Remaining(Step(acc, LogicalLinesFrom(lines, j)[0], env), lines, GroupEnd(lines, j) + 1, env)
  {
    LogicalLinesFromTail(lines, j);
    ProcessLinesHead(acc, LogicalLinesFrom(lines, j), env);
  }

  /** The `j` loop over the physical lines of one record block: the state after every logical
      line has been processed. */
  method ImportLines(lines: seq<string>, env: Collaborators) returns (acc: Acc)
    ensures acc == ProcessLines(Initial, LogicalLines(lines), env)
  {
    acc := Initial;
    var j := 0;
    while j < |lines|
      invariant 0 <= j <= |lines|
      invariant Remaining(acc, lines, j, env) == Remaining(Initial, lines, 0, env)
      decreases |lines| - j
    {
      RemainingStep(acc, lines, j, env);
      acc, j := ImportGroup(acc, lines, j, env);
    }
  }

  /** One turn of the `j` loop: the logical line that starts at `j` is read and processed, and
      `next` is the first line after its group. */
  method ImportGroup(acc: Acc, lines: seq<string>, j: nat, env: Collaborators) returns (r: Acc, next: nat)
    requires j < |lines|
    ensures next == GroupEnd(lines, j) + 1 && |LogicalLinesFrom(lines, j)| > 0
    ensures r == Step(acc, LogicalLinesFrom(lines, j)[0], env)
  {
    LogicalLinesFromStep(lines, j);
    var current, last := ReadLogicalLine(lines, j);
    r := ProcessEntry(acc, current, env);
    next := last + 1;
  }

  /** The inner `while` of the `j` loop: starting from line `start`, absorb the following
      continuation lines into the current logical line; `last` is the index of the last line
      absorbed. */
  method ReadLogicalLine(lines: seq<string>, start: nat) returns (current: string, last: nat)
    requires start < |lines|
    ensures last == GroupEnd(lines, start)
    ensures IsGroup(lines[start..last + 1]) && current == GlueAll(lines[start..last + 1])
  {
    GroupEndSpan(lines, start);
    var j := start;
    current := lines[j];
    var done := false;
    while !done && j < |lines| - 1
      invariant start <= j < |lines|
      invariant j <= GroupEnd(lines, start)
      invariant IsGroup(lines[start..j + 1]) && current == GlueAll(lines[start..j + 1])
      invariant done ==> j == GroupEnd(lines, start)
      decreases |lines| - j, !done
    {
      if |lines[j + 1]| >= 6 && lines[j + 1][2..6] != "  - " {
        assert IsContinuation(lines[j + 1]);
        GlueAllSnoc(lines, start, j);
        ghost var before := current;
        if |current| > 0 && !IsJavaWhitespace(current[|current| - 1]) && !IsJavaWhitespace(lines[j + 1][0]) {
          current := current + " ";
        }
        current := current + lines[j + 1];
        assert current == Glue(before, lines[j + 1]);
        j := j + 1;
      } else {
        assert !IsContinuation(lines[j + 1]);
        done := true;
      }
    }
    last := j;
  }

  /** The rest of the `j` loop's body for one logical line: skipped when shorter than six
      characters, otherwise dispatched on its tag and followed by the side effects. */
  method ProcessEntry(acc: Acc, entry: string, env: Collaborators) returns (r: Acc)
    ensures r == Step(acc, entry, env)
  {
    if |entry| < 6 {
      r := acc;
    } else {
      var tag := Tag(entry[0], entry[1]);
      var value := Trim(entry[6..]);
      r := Dispatch(acc, tag, value, env.parseDoi);
      r := AfterLine(r, env.fixAuthorLastNameFirst);
    }
  }

  /** `f` applied to every element, in order. */
  function MapSeq<A, B>(f: A -> B, s: seq<A>): seq<B>
    decreases |s|
  {
    if s == [] then [] else MapSeq(f, s[..|s| - 1]) + [f(s[|s| - 1])]
  }

  /** One result per element, at the same position. */
  lemma {:induction false} MapSeqIndex<A, B>(f: A -> B, s: seq<A>)
    ensures |MapSeq(f, s)| == |s|
    ensures forall i :: 0 <= i < |s| ==> MapSeq(f, s)[i] == f(s[i])
    decreases |s|
  {
    if s != [] {
      MapSeqIndex(f, s[..|s| - 1]);
    }
  }

  /** The entries of a sequence of record blocks, one per block, in order. */
  function ParseAll(blocks: seq<string>, env: Collaborators): seq<Entry> {
    MapSeq(b => ParseRecord(b, env), blocks)
  }

  /** Entry `i` is the entry of block `i`, and no block is skipped. */
  lemma ParseAllEntries(blocks: seq<string>, env: Collaborators)
    ensures |ParseAll(blocks, env)| == |blocks|
    ensures forall i :: 0 <= i < |blocks| ==> ParseAll(blocks, env)[i] == ParseRecord(blocks[i], env)
  {
    MapSeqIndex(b => ParseRecord(b, env), blocks);
  }

  /** `importDatabase`: the lines joined with "\n", the dashes normalised, the text split at the
      record terminators, and one entry per block, in order. */
  method ImportDatabase(lines: seq<string>, env: Collaborators) returns (entries: seq<Entry>)
    ensures entries == ParseAll(RecordBlocks(lines), env)
  {
    var text := Join("\n", lines);
    var blocks := SplitRecords(NormalizeDashes(text));
    entries := ImportBlocks(blocks, env);
  }

  /** The `for` over the split array: one entry per block, appended in order. */
  method ImportBlocks(blocks: seq<string>, env: Collaborators) returns (entries: seq<Entry>)
    ensures entries == ParseAll(blocks, env)
  {
    entries := [];
    for b := 0 to |blocks|
      invariant entries == ParseAll(blocks[..b], env)
    {
      var e := ImportRecord(blocks[b], env);
      assert blocks[..b + 1][..b] == blocks[..b];
      entries := entries + [e];
    }
    assert blocks[..|blocks|] == blocks;
  }

  /** Empty input still yields one entry: of type `Misc`, with no fields and no month. */
  lemma EmptyInputOneEntry(env: Collaborators)
    ensures |RecordBlocks([])| == 1 && ParseRecord(RecordBlocks([])[0], env) == Entry(Misc, map[], None)
  {
    EmptyInputOneBlock();
    EmptyRecord(env);
  }
}
