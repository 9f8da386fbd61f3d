# LegalTermsCounter analyzer core, in Dafny

LegalTermsCounter reads a folder of lawsuit texts and writes a CSV table.
The table has one row per document: its file name, whether it is a federal
suit, whether it is a state suit, its size, and, for every legal term of a
configuration file, the number of matches of the term's pattern in the
document divided by the document's number of claim headers.

This project models the analyzer class in `Parser.py`:

- `countTheNumberOfHeaders` (module `Headers`). Each line is stripped of
  tabs, then of spaces. A state machine then counts complete blocks: a
  blank-marker line (empty, or starting with a non-alphanumeric character),
  then a line with `CAUSE OF ACTION` or `CLAIM FOR RELIEF`, then a line
  starting with a digit. A count of 0 is replaced by 1.
- `checkIfFileIsFederalOrState` (module `Jurisdiction`). It looks for
  `district court` and `superior court` in the lower-cased, space-joined
  first ten lines.
- the row loop of `createOrderedLawTermsDict` (module `LawTerms`). Each row
  `abbreviation,pattern` is split on commas. Both fields lose all
  whitespace and go into an ordered dictionary.
- `createTitleRowArray`, and the data row that `parse` assembles (module
  `Report`).
- `createOrderedTermCountsDict` (module `TermCounts`). One score per term,
  in term order.

`collections.OrderedDict` is modelled in module `OrderedDicts`. The
`OrderedMap` datatype is the specification value. The `OrderedDict` class
is the mutable object the two builder loops fill in place. The Python
string operations the analyzer uses are written out in module `Text`:
`split`, `strip`, `join`, `lower`, `isalnum`, `isdigit` and `in`.

The two loops that build dictionaries, and the header-counting loop, are
methods. Each is proved equal to a specification function (`LoadTerms`,
`TermCounts`, `HeaderCount`). The properties are proved as lemmas about
those functions.

Duplicate keys in the term configuration are not rejected. A later row with
the same abbreviation overwrites the pattern and keeps the key's first
position: the earlier pattern is silently lost, and no error is raised.

## Model

| member | source | states |
|---|---|---|
| Text.LowerChar | Parser.py:64 | ASCII upper-case letters map to their lower-case letter; every other character is unchanged |
| Text.Lower | Parser.py:76 | `str.lower()` keeps the length |
| Text.LowerAppend | Parser.py:76 | lower-casing distributes over concatenation |
| Text.LowerJoin | Parser.py:64 | lower-casing the space-joined lines equals joining the lower-cased lines |
| Text.JoinContainsPart | Parser.py:64 | every line appears, unchanged, at some offset of the space-joined text |
| Text.IndexOf | Parser.py:47 | the position of the first separator: it holds the separator and nothing before it does |
| Text.Split | Parser.py:47 | `split(',')` gives at least one piece; exactly one piece iff there is no comma; no piece holds a comma |
| Text.SplitJoin | Parser.py:47 | joining the pieces back with the separator gives the original row |
| Text.SplitAfterFirst | Parser.py:47 | a comma-free prefix followed by a comma is the first piece, and the rest splits on its own |
| Text.SplitTwoFields | Parser.py:47 | two comma-free fields followed by a comma are the first two pieces |
| Text.SplitWhitespace | Parser.py:48 | argument-less `split()` yields non-empty pieces without whitespace, and the first piece starts with a leading non-space character |
| Text.RemoveWhitespace | Parser.py:48 | the reference definition of deleting whitespace: the result has no whitespace and is no longer than the input |
| Text.RemoveWhitespaceChars | Parser.py:48 | a character survives iff it occurs in the field and is not whitespace |
| Text.JoinSplitRemovesWhitespace | Parser.py:48 | `''.join(s.split())` equals the reference `RemoveWhitespace(s)` |
| Text.RemoveWhitespaceKeepsClean | Parser.py:48 | a field without whitespace is left unchanged |
| Text.LeadingCount | Parser.py:88-89 | the leading run of the stripped character: all copies, and followed by a different character or the end |
| Text.TrailingCount | Parser.py:88-89 | the trailing run of the stripped character, maximal in the same way |
| Text.StripChar | Parser.py:88-89 | `strip(c)` leaves a result that neither starts nor ends with `c` |
| Text.StripCharSlice | Parser.py:88-89 | the stripped line is the slice after the leading copies, and only copies of `c` follow it |
| Text.IsWhitespace | Parser.py:48 | definition: the code points Python's `str.isspace()` accepts, the separators of the argument-less `split()`; its use is stated by `Text.JoinSplitRemovesWhitespace` |
| Text.IsDigit | Parser.py:95 | definition: `str.isdigit()` on ASCII (`0`-`9`); see the `Text.IsDigit` line of Left out |
| Text.IsAlnum | Parser.py:91 | definition: `str.isalnum()` on ASCII letters and digits; see the `Text.IsAlnum` line of Left out |
| Text.JoinWith | Parser.py:64 | definition: `sep.join(parts)`; its properties are stated by `Text.SplitJoin`, `Text.LowerJoin` and `Text.JoinContainsPart` |
| Text.Concat | Parser.py:48 | definition: `''.join(pieces)`; `Text.JoinSplitRemovesWhitespace` states what it gives on the pieces of `split()` |
| Text.Contains | Parser.py:65-66 | substring `in` is true iff the text occurs at some index |
| Text.ContainsItself | Parser.py:65-66 | every phrase is found in itself |
| Text.MissingCharNotContained | Parser.py:93 | a line lacking one of a phrase's characters does not contain the phrase |
| OrderedDicts.OrderedMap.Put | Parser.py:48 | `d[k] = v` keeps the dictionary well-formed: keys unique and equal to the domain |
| OrderedDicts.OrderedMap.PutEffect | Parser.py:48 | `d[k] = v`: `k` maps to `v`, other entries are kept, existing keys keep their positions, a new key is appended last |
| OrderedDicts.OrderedMap.Values | Parser.py:36 | `values()` lists the values in key order |
| OrderedDicts.Empty | Parser.py:44 | a new `OrderedDict()` is well-formed and empty |
| OrderedDicts.BuildMap | Parser.py:46-48 | assigning a sequence of pairs in turn yields a well-formed dictionary |
| OrderedDicts.BuildMapAppend | Parser.py:46-48 | one more pair is one more assignment |
| OrderedDicts.FirstIndex | Parser.py:48 | the first pair carrying a key: it carries the key, and no earlier pair does |
| OrderedDicts.FirstIndexPrefix | Parser.py:48 | a key's first occurrence in a prefix is its first occurrence overall |
| OrderedDicts.BuildMapKeys | Parser.py:46-48 | the dictionary's keys are exactly the keys that occur among the pairs |
| OrderedDicts.BuildMapKeysInFirstOccurrenceOrder | Parser.py:46-48 | the keys stand in the order of their first occurrence |
| OrderedDicts.BuildMapLastValueWins | Parser.py:46-48 | a repeated key carries the value of its last pair |
| OrderedDicts.LastInPrefix | Parser.py:46-48 | the last pair for a key stays last when a pair with another key is appended |
| OrderedDicts.BuildMapDistinct | Parser.py:78-80 | pairs with distinct keys build a dictionary with exactly their order and values |
| OrderedDicts.OrderedDict.constructor | Parser.py:44 | `collections.OrderedDict()` starts empty and well-formed |
| OrderedDicts.OrderedDict.Put | Parser.py:48 | in-place `d[k] = v`: the new state is the old value after `Put`, and stays well-formed |
| Headers.Clean | Parser.py:88-89 | definition: the tab pass, then the space pass; `Headers.CleanUnpadded` and `Headers.BlankMarkerExamples` state its effect |
| Headers.IsBlankMarker | Parser.py:91 | definition: the first branch's test, an empty line or a non-alphanumeric first character; used through `Headers.KindOf` |
| Headers.HasHeadingPhrase | Parser.py:93 | definition: either heading phrase occurs in the line; `Headers.OrdinalHeading` and `Headers.NeutralLine` use it |
| Headers.KindOf | Parser.py:91-95 | definition: the branch a cleaned line selects; `Headers.ProcessLine` is proved to take exactly that branch |
| Headers.LineKinds | Parser.py:88-91 | one kind per cleaned line |
| Headers.RunKinds | Parser.py:90-98 | definition: the loop's state after a sequence of kinds; `Headers.CountedIffBlock`, `Headers.HeaderImpliesBlank` and `Headers.LinesPerHeader` state its properties |
| Headers.Run | Parser.py:88-98 | definition: the loop's state after the cleaned lines of a document |
| Headers.RawCount | Parser.py:90-98 | definition: the counter after the loop; `Headers.RawCountBound` bounds it |
| Headers.HeaderCount | Parser.py:100-102 | definition: the returned count, with the zero-to-one fallback; `Headers.CountedIffBlock`, `Headers.NoBlockCountsOne` and `Headers.HeaderCountAtLeastOne` state what it counts |
| Headers.Step | Parser.py:91-98 | one loop iteration keeps "header pending implies blank seen"; the counter grows by one exactly on a numbered line with both flags set, and then both flags are reset |
| Headers.CountTheNumberOfHeaders | Parser.py:84-102 | the loop's result equals `HeaderCount` of the lines, and is at least 1 |
| Headers.ProcessLine | Parser.py:91-98 | the if/elif chain on one cleaned line performs the automaton step for the line's kind |
| Headers.HeaderCountAtLeastOne | Parser.py:100-102 | the count is at least 1, and it is 1 exactly when the loop counted at most one header |
| Headers.HeaderImpliesBlank | Parser.py:91-98 | invariant: `seenHeader` implies `seenBlankLine` after any prefix of lines |
| Headers.NeutralLine | Parser.py:90-98 | an alphanumeric-led line with no heading phrase, and not a digit line with both flags set, changes nothing |
| Headers.ExtendHasBlank | Parser.py:91-92 | a blank marker occurs in a prefix extended by one line iff it did before or the new line is one |
| Headers.ExtendHasBlankThenHeading | Parser.py:93-94 | a heading after a blank marker occurs iff it did before, or the new line is a heading after a blank marker |
| Headers.ExtendHasBlock | Parser.py:95-98 | a complete block occurs iff it did before, or the new line is numbered after a heading that follows a blank marker |
| Headers.CountedIffBlock | Parser.py:90-98 | a header is counted iff a blank marker, then a heading, then a numbered line occur in this order; before the first count the flags record exactly what has been seen |
| Headers.NoBlockCountsOne | Parser.py:100-102 | without a complete block the count is 1; with one, the raw count is at least 1 |
| Headers.LinesPerHeader | Parser.py:90-98 | three lines per counted header, plus one per pending flag, never exceed the number of lines |
| Headers.RawCountBound | Parser.py:90-102 | the raw count is at most a third of the lines; the returned count is 1 below six lines and at most a third of the lines above that |
| Headers.CleanUnpadded | Parser.py:88-89 | a line that neither starts nor ends with a tab or a space is unchanged by cleaning |
| Headers.BlankMarkerExamples | Parser.py:88-92 | a space before a tab survives the two passes and makes a blank marker; an empty line is a blank marker |
| Headers.OrdinalHeading | Parser.py:93 | a line `<ordinal> CAUSE OF ACTION` is a heading |
| Headers.NumberedExample | Parser.py:95 | `1. Facts` is a numbered line |
| Headers.CaptionExample | Parser.py:90-98 | `IN THE COURT` is a neutral line |
| Headers.OneBlockRun | Parser.py:90-98 | caption, blank, heading, blank, numbered counts one header |
| Headers.KindSequences | Parser.py:90-98 | two blocks count two; a heading with no blank marker before it, and a numbered line with no pending heading, count nothing |
| Jurisdiction.PhrasesLowered | Parser.py:65-66 | the two phrases are already lower-case |
| Jurisdiction.FederalPhraseIsLowered | Parser.py:65 | `'District Court'.lower()` is `district court` |
| Jurisdiction.StatePhraseIsLowered | Parser.py:66 | `'Superior Court'.lower()` is `superior court` |
| Jurisdiction.OpeningText | Parser.py:64 | definition: the lower-cased, space-joined first ten lines; `Jurisdiction.PhraseInOpeningLine` and `Jurisdiction.CaseInsensitive` state its properties |
| Jurisdiction.FirstLines | Parser.py:64 | `fileLines[:10]` has `min(10, len)` lines, each equal to the document's line at the same index |
| Jurisdiction.CheckIfFileIsFederalOrState | Parser.py:62-67 | each flag holds iff its phrase occurs at some index of the lower-cased, joined opening text |
| Jurisdiction.OnlyOpeningLinesMatter | Parser.py:64 | the flags depend only on the first ten lines; lines appended after the tenth change nothing |
| Jurisdiction.CaseInsensitive | Parser.py:64-66 | documents equal after lower-casing get the same flags |
| Jurisdiction.PhraseInOpeningLine | Parser.py:64-66 | a phrase found, in any case, inside one of the first ten lines occurs in the opening text |
| Jurisdiction.DistrictCourtLineIsFederal | Parser.py:65 | a district court named in the opening makes the document federal |
| Jurisdiction.SuperiorCourtLineIsState | Parser.py:66 | a superior court named in the opening makes the document state |
| Jurisdiction.FlagsIndependent | Parser.py:64-67 | the flags are independent: an empty document has neither, a document naming both courts has both |
| LawTerms.Squeeze | Parser.py:48 | `''.join(field.split())` is the field with every whitespace character deleted and the rest kept in order, so it holds no whitespace |
| LawTerms.ParseRow | Parser.py:47-48 | a row fails iff it has no comma; both parsed fields hold no whitespace |
| LawTerms.ParseRows | Parser.py:46-48 | definition: every row parsed in order, or the first row that raises; `LawTerms.ParseRowsOk`, `LawTerms.ParseRowsErr` and `LawTerms.ParseRowsOkIff` state its properties |
| LawTerms.LoadTerms | Parser.py:44-49 | definition: the dictionary built from the parsed rows, or the error; the specification of `LawTerms.CreateOrderedLawTermsDict`, with its properties in `LawTerms.LoadedKeysInFirstOccurrenceOrder` and `LawTerms.DuplicateKeyTakesLastPattern` |
| LawTerms.ParseRowsOk | Parser.py:46-48 | a successful parse yields one pair per row, each the parse of its own row |
| LawTerms.ParseRowsErr | Parser.py:46-48 | a failed parse names a row without a comma, and every earlier row parses |
| LawTerms.ParseRowsOkIff | Parser.py:46-48 | parsing succeeds iff every row holds a comma |
| LawTerms.FirstBadRow | Parser.py:46-48 | the load raises at the first row that does not parse |
| LawTerms.AllRowsParsed | Parser.py:46-49 | when every row parses, the load returns the dictionary built from all the pairs |
| LawTerms.ErrorPersists | Parser.py:46-48 | once a prefix of the rows fails, the whole load fails with the same error |
| LawTerms.CreateOrderedLawTermsDict | Parser.py:44-49 | the loop raises exactly when `LoadTerms` fails, with the same row; otherwise it returns a fresh, well-formed dictionary equal to `LoadTerms` |
| LawTerms.ParseRowOfPieces | Parser.py:47-48 | a row whose first two pieces are `a` and `b` parses to them without whitespace |
| LawTerms.ParseRowFields | Parser.py:47-48 | a row `a,b` parses to `a` and `b` with every whitespace character deleted |
| LawTerms.ParseRowIgnoresExtraFields | Parser.py:47-48 | whatever follows a second comma is ignored |
| LawTerms.RowWithoutCommaFails | Parser.py:47-48 | a row without a comma makes the load fail, at that row or an earlier one |
| LawTerms.LoadedKeysInFirstOccurrenceOrder | Parser.py:44-49 | the loaded keys are unique, are exactly the rows' keys, and stand in first-occurrence order |
| LawTerms.DuplicateKeyTakesLastPattern | Parser.py:48 | a duplicated key carries the pattern of its last row |
| LawTerms.LoadSingleRow | Parser.py:44-49 | a single row `a,b` loads as the one-entry dictionary from squeezed `a` to squeezed `b` |
| TermCounts.Score.Ratio | Parser.py:80 | the written value is non-negative, and times the header count it gives the match count |
| TermCounts.DocText | Parser.py:76 | definition: the lower-cased, space-joined document; `TermCounts.DocTextCaseInsensitive` states its property |
| TermCounts.ScoreOf | Parser.py:79-80 | definition: a pattern's match count over the document's header count; `TermCounts.ScoreColumnsFollowKeys` states that its denominator is at least 1 |
| TermCounts.ScorePairs | Parser.py:78-80 | definition: one (term, score) pair per term, in term order; `TermCounts.TermCounts` states the dictionary they build |
| TermCounts.TermCounts | Parser.py:70-81 | same keys in the same order as the term dictionary; each key maps to the score of its own pattern |
| TermCounts.CreateOrderedTermCountsDict | Parser.py:70-81 | the loop returns a fresh, well-formed dictionary equal to `TermCounts` |
| TermCounts.ScoreColumnsFollowKeys | Parser.py:76-80 | the i-th value is the score of the i-th term, and its denominator is at least 1 |
| TermCounts.DocTextCaseInsensitive | Parser.py:76 | documents equal after lower-casing give the same text to match in |
| Report.CreateTitleRowArray | Parser.py:52-59 | the four fixed columns come first, then the abbreviations in order |
| Report.DataRow | Parser.py:35-36 | name, two flags and size come first, then the scores in key order |
| Report.DataRowMatchesTitleRow | Parser.py:35-36 | data row and title row have the same width, and under each term's column stands that term's score |

## Left out

- `parse()` is not modelled as a whole. It opens the output file, globs the input folder, reads each document and strips newlines. Only the row it assembles is modelled (`Report.DataRow`).
- Reading `input.csv` is left out. `createOrderedLawTermsDict` takes the file's rows, newlines included, as a parameter.
- The hard-coded input and output folder paths are left out.
- `os.path.getsize` and `os.path.basename` are left out. The file size and the base name are parameters of `Report.DataRow`.
- `re.findall` is left out: regular expressions are not part of this model. The matcher is a parameter of type `TermCounts.Matcher` that returns the number of matches. `re.findall` raises `re.error` on an invalid pattern; the model's `Matcher` is total, so `TermCounts.CreateOrderedTermCountsDict` never fails, while the source would stop on a term whose pattern does not compile.
- Float division is not modelled. A score is kept as its two operands (`TermCounts.Score`), and `Ratio` is their exact quotient as a real, with no floating-point rounding.
- The CSV writer and the `str()` formatting of booleans, integers and floats are left out. `Report.Cell` holds the values before formatting.
- Text.IsAlnum: only ASCII letters and digits. Python's `str.isalnum` also accepts non-ASCII letters and digits, so a line starting with, say, `é` is a blank marker here but not in Python.
- Text.IsDigit: only `0`-`9`. Python also accepts other Unicode decimal digits and superscripts.
- Text.LowerChar: only `A`-`Z` are lowered. Python's `str.lower` also lowers non-ASCII letters and can change the length of some strings.
- Text.Lower: `Lower` is ASCII-only for the same reason.
- Report.DataRowMatchesTitleRow: holds for any well-formed score dictionary whose keys are the title's keys. That includes `TermCounts.TermCounts`, whose keys equal the term dictionary's keys; this is not restated per document.
- Duplicate abbreviations are not rejected. The code overwrites them, and the model follows the code (`LawTerms.DuplicateKeyTakesLastPattern`).
