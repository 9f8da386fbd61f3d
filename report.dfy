/** The rows of the output table: the title row (`createTitleRowArray`)
    and the per-document row that the report loop assembles from the
    jurisdiction flags, the file size and the score dictionary. */
module Report {
  import opened OrderedDicts
  import Jurisdiction
  import TermCounts

  /** The fixed leading columns of the title row. */
  const TitlePrefix: seq<string> := ["FILENAME", "FED", "STATE", "FILESIZE(bytes)"]

  /** `createTitleRowArray`: the four fixed columns followed by the term
      abbreviations, in their order. */
  function CreateTitleRowArray(lawTermAbbreviations: seq<string>): (r: seq<string>)
    ensures |r| == |TitlePrefix| + |lawTermAbbreviations|
    ensures r[..|TitlePrefix|] == TitlePrefix
    ensures forall i :: 0 <= i < |lawTermAbbreviations| ==> r[|TitlePrefix| + i] == lawTermAbbreviations[i]
  {
    TitlePrefix + lawTermAbbreviations
  }

  /** A cell of a data row, before the CSV writer turns it into text. */
  datatype Cell = Name(name: string) | Flag(flag: bool) | Size(bytes: nat) | Ratio(score: TermCounts.Score)

  /** A document's row: its base name, the two jurisdiction flags, its size
      and then the score values in dictionary order. */
  function DataRow(fileName: string, flags: Jurisdiction.Flags, fileSize: nat, scores: OrderedMap<TermCounts.Score>): (r: seq<Cell>)
    requires scores.Valid()
    ensures |r| == |TitlePrefix| + |scores.keys|
    ensures r[0] == Name(fileName) && r[1] == Flag(flags.isFederal) && r[2] == Flag(flags.isState)
    ensures r[3] == Size(fileSize)
    ensures forall i :: 0 <= i < |scores.keys| ==> r[|TitlePrefix| + i] == Ratio(scores.entries[scores.keys[i]])
  {
    var values := scores.Values();
    [Name(fileName), Flag(flags.isFederal), Flag(flags.isState), Size(fileSize)] +
      seq(|values|, i requires 0 <= i < |values| => Ratio(values[i]))
  }

  /** Every data row lines up with the title row: for a score dictionary
      over the terms' keys (as `TermCounts.TermCounts` returns), the two rows
      have the same width, and under each term's column stands that term's
      score. */
  lemma DataRowMatchesTitleRow(fileName: string, flags: Jurisdiction.Flags, fileSize: nat,
                               keys: seq<string>, scores: OrderedMap<TermCounts.Score>)
    requires scores.Valid() && scores.keys == keys
    ensures |DataRow(fileName, flags, fileSize, scores)| == |CreateTitleRowArray(keys)|
    ensures forall c :: |TitlePrefix| <= c < |CreateTitleRowArray(keys)| ==>
      CreateTitleRowArray(keys)[c] in scores.entries &&
      DataRow(fileName, flags, fileSize, scores)[c] == Ratio(scores.entries[CreateTitleRowArray(keys)[c]])
  {
    var title := CreateTitleRowArray(keys);
    var row := DataRow(fileName, flags, fileSize, scores);
    forall c | |TitlePrefix| <= c < |title|
      ensures title[c] in scores.entries && row[c] == Ratio(scores.entries[title[c]])
    {
      assert title[c] == keys[c - |TitlePrefix|];
    }
  }
}
