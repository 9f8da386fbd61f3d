/** The per-document scores (`createOrderedTermCountsDict`): for each term
    of the term dictionary, in its order, the number of matches of the
    term's pattern in the lower-cased, space-joined document, divided by the
    document's header count. */
module TermCounts {
  import opened Text
  import opened OrderedDicts
  import Headers

  /** `len(re.findall(pattern, text))`: the number of matches of a regular
      expression in a text. Regular expressions are not part of this model,
      so the matcher is a parameter. */
  type Matcher = (string, string) -> nat

  /** `matches / float(numHeaders)`, kept as its two operands. */
  datatype Score = Score(matches: nat, numHeaders: nat)
  {
    /** The quotient the analyzer writes out. */
    function Ratio(): (r: real)
      requires numHeaders >= 1
      ensures r >= 0.0 && r * numHeaders as real == matches as real
    {
      matches as real / numHeaders as real
    }
  }

  /** `' '.join(fileLines).lower()`: the text the patterns are matched in. */
  function DocText(fileLines: seq<string>): string {
    Lower(JoinWith(fileLines, ' '))
  }

  /** The score of one term's pattern in a document. */
  function ScoreOf(pattern: string, fileLines: seq<string>, findAll: Matcher): Score {
    Score(findAll(pattern, DocText(fileLines)), Headers.HeaderCount(fileLines))
  }

  /** The `(term, score)` assignments of the loop, in the order of the
      terms, for a document text and a header count. */
  function ScorePairs(terms: OrderedMap<string>, text: string, numHeaders: nat, findAll: Matcher): seq<(string, Score)>
    requires terms.Valid()
  {
    seq(|terms.keys|, i requires 0 <= i < |terms.keys| =>
      (terms.keys[i], Score(findAll(terms.entries[terms.keys[i]], text), numHeaders)))
  }

  /** The dictionary `createOrderedTermCountsDict` returns: the same terms in
      the same order, each mapped to the score of its own pattern. */
  function TermCounts(fileLines: seq<string>, terms: OrderedMap<string>, findAll: Matcher): (r: OrderedMap<Score>)
    requires terms.Valid()
    ensures r.Valid()
    ensures r.keys == terms.keys
    ensures forall k :: k in r.entries <==> k in terms.entries
    ensures forall k :: k in terms.entries ==>
      r.entries[k] == ScoreOf(terms.entries[k], fileLines, findAll)
  {
    var pairs := ScorePairs(terms, DocText(fileLines), Headers.HeaderCount(fileLines), findAll);
    BuildMapDistinct(pairs);
    var r := BuildMap(pairs);
    assert r.keys == terms.keys;
    r
  }

  /** `createOrderedTermCountsDict`: counts the headers, lower-cases the
      joined document once, then stores one score per term, in term order. */
  method CreateOrderedTermCountsDict(fileLines: seq<string>, orderedLawTermsDict: OrderedDict<string>, findAll: Matcher)
    returns (orderedTermCountsDict: OrderedDict<Score>)
    requires orderedLawTermsDict.Valid()
    ensures fresh(orderedTermCountsDict) && orderedTermCountsDict.Valid()
    ensures orderedTermCountsDict.Model() == TermCounts(fileLines, orderedLawTermsDict.Model(), findAll)
  {
    var numHeaders := Headers.CountTheNumberOfHeaders(fileLines);
    var fileStr := Lower(JoinWith(fileLines, ' '));
    orderedTermCountsDict := new OrderedDict<Score>();
    ghost var pairs := ScorePairs(orderedLawTermsDict.Model(), fileStr, numHeaders, findAll);
    var keys := orderedLawTermsDict.keys;
    for i := 0 to |keys|
      invariant fresh(orderedTermCountsDict) && orderedTermCountsDict.Valid()
      invariant orderedTermCountsDict.Model() == BuildMap(pairs[..i])
    {
      var term := keys[i];
      var searchTermRegex := orderedLawTermsDict.entries[term];
      orderedTermCountsDict.Put(term, Score(findAll(searchTermRegex, fileStr), numHeaders));
      assert pairs[..i + 1][..i] == pairs[..i];
    }
    assert pairs[..|keys|] == pairs;
  }

  // ---------------------------------------------------------------------
  // Properties

  /** The score columns: the `i`-th value is the score of the `i`-th term,
      and its denominator is never zero. */
  lemma ScoreColumnsFollowKeys(fileLines: seq<string>, terms: OrderedMap<string>, findAll: Matcher)
    requires terms.Valid()
    ensures |TermCounts(fileLines, terms, findAll).Values()| == |terms.keys|
    ensures forall i :: 0 <= i < |terms.keys| ==>
      TermCounts(fileLines, terms, findAll).Values()[i] == ScoreOf(terms.entries[terms.keys[i]], fileLines, findAll) &&
      TermCounts(fileLines, terms, findAll).Values()[i].numHeaders >= 1
  {
    Headers.HeaderCountAtLeastOne(fileLines);
  }

  /** Matching is case-insensitive on the document side: documents whose
      lines agree once lower-cased give the same text to match in. */
  lemma DocTextCaseInsensitive(a: seq<string>, b: seq<string>)
    requires LowerAll(a) == LowerAll(b)
    ensures DocText(a) == DocText(b)
  {
    LowerJoin(a, ' ');
    LowerJoin(b, ' ');
  }
}
