/** `RisImporter.isRecognizedFormat`: does any line hold the record-start marker. */
module RisSniffer {
  import opened JavaText

  /** `TY {2}- .*` is found in a line exactly when "TY  - " occurs in it (`.*` may match nothing). */
  const RecordStart: string := "TY  - "

  /** The `anyMatch` over the lines: true iff some line contains "TY  - " at some position. */
  function IsRecognizedFormat(lines: seq<string>): (r: bool)
    ensures r <==> exists i: nat, p: nat :: i < |lines| && OccursAt(lines[i], RecordStart, p)
    decreases |lines|
  {
    if lines == [] then false
    else
      ContainsIff(lines[0], RecordStart);
      Contains(lines[0], RecordStart) || IsRecognizedFormat(lines[1..])
  }
}
