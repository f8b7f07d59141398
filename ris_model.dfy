/** The values the RIS importer produces: entry types, field keys, months and output entries,
    and the collaborators it calls but does not define. */
module RisModel {
  import opened Wrappers

  /** The entry types an RIS `TY` line can select (StandardEntryType and IEEETranEntryType.Patent). */
  datatype EntryType = Misc | Book | Article | PhdThesis | Unpublished | TechReport | InProceedings | InCollection | Patent

  /** The StandardField constants the importer writes. */
  datatype StandardField =
    | Title | Booktitle | Journal | Series | Author | Editor | Language | Number | School | Publisher
    | Address | Edition | Issn | Volume | Abstract | Url | Year | Keywords | Comment | Doi
    | EventTitle | Note | ShortTitle | Eprint | EprintType | Translator | Pages

  /** A field key: a standard field, or an UnknownField identified by its name. */
  datatype Field = Std(std: StandardField) | Unknown(name: string)

  datatype Month = January | February | March | April | May | June | July | August | September | October | November | December

  /** The month number 1..12 of a month. */
  function MonthNumber(m: Month): (n: int)
    ensures 1 <= n <= 12
  {
    match m
    case January => 1 case February => 2 case March => 3 case April => 4
    case May => 5 case June => 6 case July => 7 case August => 8
    case September => 9 case October => 10 case November => 11 case December => 12
  }

  /** `Month.getMonthByNumber(n)`: a month for 1..12, empty otherwise. */
  function MonthByNumber(n: int): (r: Option<Month>)
    ensures r.Some? <==> 1 <= n <= 12
    ensures r.Some? ==> MonthNumber(r.value) == n
  {
    if n == 1 then Some(January) else if n == 2 then Some(February) else if n == 3 then Some(March)
    else if n == 4 then Some(April) else if n == 5 then Some(May) else if n == 6 then Some(June)
    else if n == 7 then Some(July) else if n == 8 then Some(August) else if n == 9 then Some(September)
    else if n == 10 then Some(October) else if n == 11 then Some(November) else if n == 12 then Some(December)
    else None
  }

  /** Looking a month up by its own number gives it back. */
  lemma MonthByNumberInverse(m: Month)
    ensures MonthByNumber(MonthNumber(m)) == Some(m)
  {
  }

  /** The closed table of RIS reference types (the switch of the `TY` branch). */
  function EntryTypeOf(risType: string): (t: EntryType)
    ensures t == Misc <==> risType !in {"BOOK", "JOUR", "MGZN", "THES", "UNPB", "RPRT", "CONF", "CHAP", "PAT"}
    ensures t == Article <==> risType == "JOUR" || risType == "MGZN"
  {
    if risType == "BOOK" then Book
    else if risType == "JOUR" || risType == "MGZN" then Article
    else if risType == "THES" then PhdThesis
    else if risType == "UNPB" then Unpublished
    else if risType == "RPRT" then TechReport
    else if risType == "CONF" then InProceedings
    else if risType == "CHAP" then InCollection
    else if risType == "PAT" then Patent
    else Misc
  }

  /** One imported entry: its type, its fields, and the month set through `setMonth`. */
  datatype Entry = Entry(entryType: EntryType, fields: map<Field, string>, month: Option<Month>)

  /** The library calls whose code is not part of this model:
      `AuthorList.fixAuthorLastNameFirst` and `DOI.parse(..).map(DOI::asString)`. */
  datatype Collaborators = Collaborators(fixAuthorLastNameFirst: string -> string, parseDoi: string -> Option<string>)
}
