/** The header counter of the document analyzer (`countTheNumberOfHeaders`):
    a state machine over a document's lines that counts complete blocks of
    a blank-marker line, then a claim heading, then a numbered line. */
module Headers {
  import opened Text

  const CauseOfAction := "CAUSE OF ACTION"
  const ClaimForRelief := "CLAIM FOR RELIEF"

  /** `line.strip('\t')` followed by `.strip(' ')`: two passes, so a space
      hidden behind a tab, or a tab behind a space, survives. */
  function Clean(line: string): string {
    StripChar(StripChar(line, '\t'), ' ')
  }

  /** An empty line or one whose first character is not alphanumeric. */
  predicate IsBlankMarker(line: string) {
    |line| == 0 || !IsAlnum(line[0])
  }

  predicate HasHeadingPhrase(line: string) {
    Contains(line, CauseOfAction) || Contains(line, ClaimForRelief)
  }

  /** What the loop body makes of one cleaned line: the branch it takes
      when both flags are set. */
  datatype LineKind = BlankMarker | Heading | Numbered | Other

  function KindOf(line: string): LineKind {
    if IsBlankMarker(line) then BlankMarker
    else if HasHeadingPhrase(line) then Heading
    else if IsDigit(line[0]) then Numbered
    else Other
  }

  /** The kinds of the document's lines, after cleaning, in order. */
  function LineKinds(lines: seq<string>): (ks: seq<LineKind>)
    ensures |ks| == |lines|
  {
    seq(|lines|, i requires 0 <= i < |lines| => KindOf(Clean(lines[i])))
  }

  /** The counter and the two flags of the state machine. */
  datatype HeaderState = HeaderState(numHeaders: nat, seenBlankLine: bool, seenHeader: bool)

  const Start := HeaderState(0, false, false)

  /** One iteration of the loop. A heading line arriving before any blank
      marker falls through to the digit test, which then fails, so it
      changes nothing. */
  function Step(st: HeaderState, k: LineKind): (r: HeaderState)
    ensures (st.seenHeader ==> st.seenBlankLine) ==> (r.seenHeader ==> r.seenBlankLine)
    ensures r.numHeaders == st.numHeaders ||
      (r.numHeaders == st.numHeaders + 1 && !r.seenBlankLine && !r.seenHeader)
    ensures r.numHeaders == st.numHeaders + 1 <==>
      k == Numbered && st.seenBlankLine && st.seenHeader
  {
    match k
    case BlankMarker => st.(seenBlankLine := true)
    case Heading => if st.seenBlankLine then st.(seenHeader := true) else st
    case Numbered =>
      if st.seenBlankLine && st.seenHeader then HeaderState(st.numHeaders + 1, false, false) else st
    case Other => st
  }

  /** The state after the loop has seen every line kind of `ks`. */
  function RunKinds(ks: seq<LineKind>): HeaderState
  {
    if |ks| == 0 then Start
    else Step(RunKinds(ks[..|ks| - 1]), ks[|ks| - 1])
  }

  /** The state after the loop has seen every line of `lines`. */
  function Run(lines: seq<string>): HeaderState {
    RunKinds(LineKinds(lines))
  }

  /** The counter before the zero-to-one fallback. */
  function RawCount(lines: seq<string>): nat {
    Run(lines).numHeaders
  }

  /** The value `countTheNumberOfHeaders` returns. */
  function HeaderCount(lines: seq<string>): nat {
    if RawCount(lines) == 0 then 1 else RawCount(lines)
  }

  /** `countTheNumberOfHeaders`: the loop over the cleaned lines, with the
      fallback to 1 when no header was counted. */
  method CountTheNumberOfHeaders(fileLines: seq<string>) returns (numHeaders: nat)
    ensures numHeaders == HeaderCount(fileLines)
    ensures numHeaders >= 1
  {
    numHeaders := 0;
    var seenBlankLine := false;
    var seenHeader := false;
    var noTabLines := seq(|fileLines|, i requires 0 <= i < |fileLines| => StripChar(fileLines[i], '\t'));
    var noWhiteSpaceLines := seq(|noTabLines|, i requires 0 <= i < |noTabLines| => StripChar(noTabLines[i], ' '));
    ghost var ks := seq(|noWhiteSpaceLines|, j requires 0 <= j < |noWhiteSpaceLines| => KindOf(noWhiteSpaceLines[j]));
    for i := 0 to |noWhiteSpaceLines|
      invariant HeaderState(numHeaders, seenBlankLine, seenHeader) == RunKinds(ks[..i])
      invariant seenHeader ==> seenBlankLine
    {
      var line := noWhiteSpaceLines[i];
      assert ks[..i + 1][..i] == ks[..i];
      numHeaders, seenBlankLine, seenHeader := ProcessLine(line, numHeaders, seenBlankLine, seenHeader);
    }
    assert ks[..|ks|] == ks;
    assert ks == LineKinds(fileLines) by {
      forall j | 0 <= j < |ks| ensures ks[j] == LineKinds(fileLines)[j] {
        assert noWhiteSpaceLines[j] == Clean(fileLines[j]);
      }
    }
    if numHeaders == 0 {
      numHeaders := 1;
    }
  }

  /** The body of the loop for one cleaned line: it takes the branch the
      automaton takes for the line's kind. */
  method ProcessLine(line: string, numHeaders: nat, seenBlankLine: bool, seenHeader: bool)
    returns (numHeaders': nat, seenBlankLine': bool, seenHeader': bool)
    ensures HeaderState(numHeaders', seenBlankLine', seenHeader') ==
      Step(HeaderState(numHeaders, seenBlankLine, seenHeader), KindOf(line))
  {
    numHeaders', seenBlankLine', seenHeader' := numHeaders, seenBlankLine, seenHeader;
    if line == "" || !IsAlnum(line[0]) {
      seenBlankLine' := true;
    } else if (Contains(line, CauseOfAction) || Contains(line, ClaimForRelief)) && seenBlankLine {
      seenHeader' := true;
    } else if IsDigit(line[0]) && seenBlankLine && seenHeader {
      numHeaders' := numHeaders + 1;
      seenBlankLine' := false;
      seenHeader' := false;
    }
  }

  // ---------------------------------------------------------------------
  // Properties

  /** The fallback: the count is at least 1, and it is 1 exactly when the
      loop counted no more than one header. */
  lemma HeaderCountAtLeastOne(lines: seq<string>)
    ensures HeaderCount(lines) >= 1
    ensures HeaderCount(lines) == 1 <==> RawCount(lines) <= 1
  {
  }

  /** Invariant of the state machine: a header is only pending once a blank
      marker has been seen. */
  lemma {:induction false} HeaderImpliesBlank(ks: seq<LineKind>)
    ensures RunKinds(ks).seenHeader ==> RunKinds(ks).seenBlankLine
  {
    if |ks| > 0 {
      HeaderImpliesBlank(ks[..|ks| - 1]);
    }
  }

  /** A non-empty line that starts alphanumeric, has neither heading phrase,
      and is not a digit line arriving with both flags set, changes nothing. */
  lemma NeutralLine(st: HeaderState, line: string)
    requires |line| > 0 && IsAlnum(line[0]) && !HasHeadingPhrase(line)
    requires !(IsDigit(line[0]) && st.seenBlankLine && st.seenHeader)
    ensures Step(st, KindOf(line)) == st
  {
  }

  /** Some line is a blank marker. */
  ghost predicate HasBlank(ks: seq<LineKind>) {
    exists i :: 0 <= i < |ks| && ks[i] == BlankMarker
  }

  /** Some heading has a blank marker before it. */
  ghost predicate HasBlankThenHeading(ks: seq<LineKind>) {
    exists j :: 0 <= j < |ks| && ks[j] == Heading && HasBlank(ks[..j])
  }

  /** Some numbered line has, before it, a heading that has a blank marker
      before it: a complete block. */
  ghost predicate HasBlock(ks: seq<LineKind>) {
    exists k :: 0 <= k < |ks| && ks[k] == Numbered && HasBlankThenHeading(ks[..k])
  }

  lemma ExtendHasBlank(ks: seq<LineKind>)
    requires |ks| > 0
    ensures HasBlank(ks) <==> HasBlank(ks[..|ks| - 1]) || ks[|ks| - 1] == BlankMarker
  {
    var n := |ks| - 1;
    if HasBlank(ks) && ks[n] != BlankMarker {
      var i :| 0 <= i < |ks| && ks[i] == BlankMarker;
      assert ks[..n][i] == ks[i];
    }
  }

  lemma ExtendHasBlankThenHeading(ks: seq<LineKind>)
    requires |ks| > 0
    ensures HasBlankThenHeading(ks) <==>
      HasBlankThenHeading(ks[..|ks| - 1]) ||
      (HasBlank(ks[..|ks| - 1]) && ks[|ks| - 1] == Heading)
  {
    var n := |ks| - 1;
    var init := ks[..n];
    if HasBlankThenHeading(ks) {
      var j :| 0 <= j < |ks| && ks[j] == Heading && HasBlank(ks[..j]);
      if j < n {
        assert init[j] == ks[j] && init[..j] == ks[..j];
      }
    }
    if HasBlankThenHeading(init) {
      var j :| 0 <= j < n && init[j] == Heading && HasBlank(init[..j]);
      assert ks[j] == init[j] && ks[..j] == init[..j];
    }
  }

  lemma ExtendHasBlock(ks: seq<LineKind>)
    requires |ks| > 0
    ensures HasBlock(ks) <==>
      HasBlock(ks[..|ks| - 1]) ||
      (HasBlankThenHeading(ks[..|ks| - 1]) && ks[|ks| - 1] == Numbered)
  {
    var n := |ks| - 1;
    var init := ks[..n];
    if HasBlock(ks) {
      var k :| 0 <= k < |ks| && ks[k] == Numbered && HasBlankThenHeading(ks[..k]);
      if k < n {
        assert init[k] == ks[k] && init[..k] == ks[..k];
      }
    }
    if HasBlock(init) {
      var k :| 0 <= k < n && init[k] == Numbered && HasBlankThenHeading(init[..k]);
      assert ks[k] == init[k] && ks[..k] == init[..k];
    }
  }

  /** Until the first header is counted, the flags say exactly what has been
      seen; and a header gets counted if and only if a complete block
      (blank marker, then heading, then numbered line) occurs. */
  lemma {:induction false} CountedIffBlock(ks: seq<LineKind>)
    ensures RunKinds(ks).numHeaders == 0 ==>
      (RunKinds(ks).seenBlankLine <==> HasBlank(ks)) &&
      (RunKinds(ks).seenHeader <==> HasBlankThenHeading(ks))
    ensures RunKinds(ks).numHeaders > 0 <==> HasBlock(ks)
  {
    if |ks| > 0 {
      CountedIffBlock(ks[..|ks| - 1]);
      HeaderImpliesBlank(ks[..|ks| - 1]);
      ExtendHasBlank(ks);
      ExtendHasBlankThenHeading(ks);
      ExtendHasBlock(ks);
    }
  }

  /** With no complete block among the document's lines the count is
      exactly 1; with one, the loop counted at least one header. */
  lemma NoBlockCountsOne(lines: seq<string>)
    ensures !HasBlock(LineKinds(lines)) ==> HeaderCount(lines) == 1
    ensures HasBlock(LineKinds(lines)) ==> RawCount(lines) >= 1
  {
    CountedIffBlock(LineKinds(lines));
  }

  /** Each counted header consumed three distinct lines, and a pending flag
      one more line each. */
  lemma {:induction false} LinesPerHeader(ks: seq<LineKind>)
    ensures 3 * RunKinds(ks).numHeaders + (if RunKinds(ks).seenBlankLine then 1 else 0) +
      (if RunKinds(ks).seenHeader then 1 else 0) <= |ks|
  {
    if |ks| > 0 {
      LinesPerHeader(ks[..|ks| - 1]);
      HeaderImpliesBlank(ks[..|ks| - 1]);
    }
  }

  /** The raw count is at most a third of the number of lines. */
  lemma RawCountBound(lines: seq<string>)
    ensures RawCount(lines) <= |lines| / 3
    ensures HeaderCount(lines) <= if |lines| < 6 then 1 else |lines| / 3
  {
    LinesPerHeader(LineKinds(lines));
  }

  // ---------------------------------------------------------------------
  // Examples

  /** Cleaning leaves a line alone when it neither starts nor ends with a
      tab or a space. */
  lemma CleanUnpadded(s: string)
    requires |s| > 0 && s[0] != '\t' && s[0] != ' ' && s[|s| - 1] != '\t' && s[|s| - 1] != ' '
    ensures Clean(s) == s
  {
    assert LeadingCount(s, '\t') == 0 && TrailingCount(s, '\t') == 0;
    assert StripChar(s, '\t') == s;
    assert LeadingCount(s, ' ') == 0 && TrailingCount(s, ' ') == 0;
  }

  /** A space before a tab survives the two-pass cleaning (tabs first, then
      spaces), so the cleaned line starts with a tab and counts as a blank
      marker; so does an empty line. */
  lemma BlankMarkerExamples()
    ensures Clean(" \tX") == "\tX" && KindOf(Clean(" \tX")) == BlankMarker
    ensures KindOf(Clean("")) == BlankMarker
  {
    assert LeadingCount(" \tX", '\t') == 0 && TrailingCount(" \tX", '\t') == 0;
    assert StripChar(" \tX", '\t') == " \tX";
    assert LeadingCount(" \tX", ' ') == 1 && TrailingCount(" \tX"[1..], ' ') == 0;
    assert Clean(" \tX") == "\tX";
  }

  /** A claim heading such as `FIRST CAUSE OF ACTION`. */
  lemma OrdinalHeading(ordinal: string)
    requires |ordinal| > 0 && IsAlnum(ordinal[0])
    ensures KindOf(Clean(ordinal + " " + CauseOfAction)) == Heading
  {
    var line := ordinal + " " + CauseOfAction;
    assert line[|line| - 1] == 'N';
    CleanUnpadded(line);
    assert OccursAt(line, CauseOfAction, |ordinal| + 1);
  }

  lemma NumberedExample(line: string)
    requires line == "1. Facts"
    ensures KindOf(Clean(line)) == Numbered
  {
    CleanUnpadded(line);
    MissingCharNotContained(line, CauseOfAction, 'C');
    MissingCharNotContained(line, ClaimForRelief, 'C');
  }

  lemma CaptionExample(line: string)
    requires line == "IN THE COURT"
    ensures KindOf(Clean(line)) == Other
  {
    CleanUnpadded(line);
    MissingCharNotContained(line, CauseOfAction, 'A');
    MissingCharNotContained(line, ClaimForRelief, 'A');
  }

  lemma OneBlockRun()
    ensures RunKinds([Other, BlankMarker, Heading, BlankMarker, Numbered]).numHeaders == 1
  {
    var ks := [Other, BlankMarker, Heading, BlankMarker, Numbered];
    assert ks[..1] == [Other] && ks[..1][..0] == [];
    assert RunKinds(ks[..1]) == HeaderState(0, false, false);
    assert ks[..2][..1] == ks[..1];
    assert RunKinds(ks[..2]) == HeaderState(0, true, false);
    assert ks[..3][..2] == ks[..2];
    assert RunKinds(ks[..3]) == HeaderState(0, true, true);
    assert ks[..4][..3] == ks[..3];
    assert RunKinds(ks[..4]) == HeaderState(0, true, true);
    assert ks[..5][..4] == ks[..4] && ks[..5] == ks;
  }

  /** Two complete blocks count two headers; a heading that no blank marker
      precedes, and a numbered line with no pending heading, count nothing. */
  lemma KindSequences()
    ensures RunKinds([BlankMarker, Heading, Numbered, Other, BlankMarker, Heading, Other, Numbered]).numHeaders == 2
    ensures RunKinds([Heading, Numbered]).numHeaders == 0
    ensures RunKinds([BlankMarker, Numbered]).numHeaders == 0
  {
    var ks := [BlankMarker, Heading, Numbered, Other, BlankMarker, Heading, Other, Numbered];
    assert ks[..1] == [BlankMarker] && ks[..1][..0] == [];
    assert RunKinds(ks[..1]) == HeaderState(0, true, false);
    assert ks[..2][..1] == ks[..1];
    assert RunKinds(ks[..2]) == HeaderState(0, true, true);
    assert ks[..3][..2] == ks[..2];
    assert RunKinds(ks[..3]) == HeaderState(1, false, false);
    assert ks[..4][..3] == ks[..3];
    assert RunKinds(ks[..4]) == HeaderState(1, false, false);
    assert ks[..5][..4] == ks[..4];
    assert RunKinds(ks[..5]) == HeaderState(1, true, false);
    assert ks[..6][..5] == ks[..5];
    assert RunKinds(ks[..6]) == HeaderState(1, true, true);
    assert ks[..7][..6] == ks[..6];
    assert RunKinds(ks[..7]) == HeaderState(1, true, true);
    assert ks[..8][..7] == ks[..7] && ks[..8] == ks;
    assert [Heading, Numbered][..1] == [Heading];
    assert [BlankMarker, Numbered][..1] == [BlankMarker];
  }
}
