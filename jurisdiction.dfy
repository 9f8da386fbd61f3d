/** The jurisdiction classifier of the document analyzer
    (`checkIfFileIsFederalOrState`): phrase tests on the lower-cased
    opening of a document. */
module Jurisdiction {
  import opened Text

  /** The number of opening lines the classifier looks at. */
  const OpeningLines := 10

  /** `'District Court'.lower()` and `'Superior Court'.lower()`, written in
      lower case. */
  const FederalPhrase := "district court"
  const StatePhrase := "superior court"

  /** The phrases are already in lower case. */
  lemma PhrasesLowered()
    ensures Lower(FederalPhrase) == FederalPhrase && Lower(StatePhrase) == StatePhrase
  {
  }

  /** They are the lower-cased court names the classifier looks for. */
  lemma FederalPhraseIsLowered()
    ensures Lower("District Court") == FederalPhrase
  {
    assert forall i :: 0 <= i < |FederalPhrase| ==> Lower("District Court")[i] == FederalPhrase[i];
  }

  lemma StatePhraseIsLowered()
    ensures Lower("Superior Court") == StatePhrase
  {
    assert forall i :: 0 <= i < |StatePhrase| ==> Lower("Superior Court")[i] == StatePhrase[i];
  }

  datatype Flags = Flags(isFederal: bool, isState: bool)

  function Min(a: int, b: int): int {
    if a < b then a else b
  }

  /** `fileLines[:10]`. */
  function FirstLines(fileLines: seq<string>): (r: seq<string>)
    ensures |r| == Min(OpeningLines, |fileLines|)
    ensures forall i :: 0 <= i < |r| ==> r[i] == fileLines[i]
  {
    fileLines[..Min(OpeningLines, |fileLines|)]
  }

  /** `' '.join(fileLines[:10]).lower()`. */
  function OpeningText(fileLines: seq<string>): string {
    Lower(JoinWith(FirstLines(fileLines), ' '))
  }

  /** `checkIfFileIsFederalOrState`: each flag holds exactly when its phrase
      occurs somewhere in the lower-cased, space-joined opening lines. */
  function CheckIfFileIsFederalOrState(fileLines: seq<string>): (r: Flags)
    ensures r.isFederal <==> exists i :: OccursAt(OpeningText(fileLines), FederalPhrase, i)
    ensures r.isState <==> exists i :: OccursAt(OpeningText(fileLines), StatePhrase, i)
  {
    var firstTenLinesStr := OpeningText(fileLines);
    Flags(Contains(firstTenLinesStr, FederalPhrase), Contains(firstTenLinesStr, StatePhrase))
  }

  // ---------------------------------------------------------------------
  // Properties

  /** Only the first ten lines matter: the flags of a document are those of
      its opening, and lines appended after the tenth change nothing. */
  lemma OnlyOpeningLinesMatter(fileLines: seq<string>, more: seq<string>)
    ensures CheckIfFileIsFederalOrState(fileLines) ==
      CheckIfFileIsFederalOrState(FirstLines(fileLines))
    ensures |fileLines| >= OpeningLines ==>
      CheckIfFileIsFederalOrState(fileLines + more) == CheckIfFileIsFederalOrState(fileLines)
  {
    assert FirstLines(FirstLines(fileLines)) == FirstLines(fileLines);
    if |fileLines| >= OpeningLines {
      assert FirstLines(fileLines + more) == FirstLines(fileLines);
    }
  }

  /** The classifier ignores letter case: two documents whose lines agree
      once lower-cased get the same flags. */
  lemma {:induction false} CaseInsensitive(a: seq<string>, b: seq<string>)
    requires LowerAll(a) == LowerAll(b)
    ensures CheckIfFileIsFederalOrState(a) == CheckIfFileIsFederalOrState(b)
  {
    var fa, fb := FirstLines(a), FirstLines(b);
    assert |a| == |b|;
    assert LowerAll(fa) == LowerAll(fb) by {
      forall i | 0 <= i < |fa| ensures LowerAll(fa)[i] == LowerAll(fb)[i] {
        assert LowerAll(a)[i] == LowerAll(b)[i];
      }
    }
    LowerJoin(fa, ' ');
    LowerJoin(fb, ' ');
  }

  /** A phrase that appears, in any letter case, inside one of the first ten
      lines is found. */
  lemma PhraseInOpeningLine(fileLines: seq<string>, line: nat, phrase: string)
    requires line < Min(OpeningLines, |fileLines|)
    requires Contains(Lower(fileLines[line]), phrase)
    ensures Contains(OpeningText(fileLines), phrase)
  {
    var parts := FirstLines(fileLines);
    var off := JoinContainsPart(parts, ' ', line);
    var joined := JoinWith(parts, ' ');
    var p :| OccursAt(Lower(fileLines[line]), phrase, p);
    LowerSlice(joined, off, off + |parts[line]|);
    assert Lower(joined)[off..off + |parts[line]|] == Lower(fileLines[line]);
    assert Lower(joined)[off + p..off + p + |phrase|] == Lower(fileLines[line])[p..p + |phrase|];
    assert OccursAt(Lower(joined), phrase, off + p);
  }

  /** A document whose opening names a federal district court is federal. */
  lemma DistrictCourtLineIsFederal(fileLines: seq<string>, line: nat)
    requires line < Min(OpeningLines, |fileLines|)
    requires Contains(Lower(fileLines[line]), FederalPhrase)
    ensures CheckIfFileIsFederalOrState(fileLines).isFederal
  {
    PhraseInOpeningLine(fileLines, line, FederalPhrase);
  }

  /** A document whose opening names a state superior court is state. */
  lemma SuperiorCourtLineIsState(fileLines: seq<string>, line: nat)
    requires line < Min(OpeningLines, |fileLines|)
    requires Contains(Lower(fileLines[line]), StatePhrase)
    ensures CheckIfFileIsFederalOrState(fileLines).isState
  {
    PhraseInOpeningLine(fileLines, line, StatePhrase);
  }

  /** The flags are independent: an empty document has neither, and a
      document naming both courts has both. */
  lemma FlagsIndependent()
    ensures CheckIfFileIsFederalOrState([]) == Flags(false, false)
    ensures CheckIfFileIsFederalOrState([StatePhrase, FederalPhrase]) == Flags(true, true)
  {
    var doc := [StatePhrase, FederalPhrase];
    PhrasesLowered();
    ContainsItself(FederalPhrase);
    ContainsItself(StatePhrase);
    DistrictCourtLineIsFederal(doc, 1);
    SuperiorCourtLineIsState(doc, 0);
  }
}
