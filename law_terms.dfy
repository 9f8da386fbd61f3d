/** The term dictionary loader (`createOrderedLawTermsDict`): each row of the
    term configuration, `abbreviation,pattern`, is split on commas, both
    fields lose every whitespace character, and the pair is stored in an
    ordered dictionary. */
module LawTerms {
  import opened Text
  import opened OrderedDicts

  /** Indexing `rowList[1]` of a row without a comma raises; the load
      stops at the first such row. */
  datatype RowError = MissingComma(row: nat)

  datatype Result<T> = Ok(value: T) | Err(error: RowError)

  datatype Option<T> = None | Some(value: T)

  /** `''.join(field.split())`. */
  function Squeeze(field: string): (r: string)
    ensures r == RemoveWhitespace(field)
    ensures NoWhitespace(r)
  {
    var r := Concat(SplitWhitespace(field));
    JoinSplitRemovesWhitespace(field);
    r
  }

  /** One configuration row: `(key, pattern)`, or nothing when the row has
      no comma. */
  function ParseRow(rowStr: string): (r: Option<(string, string)>)
    ensures r.None? <==> ',' !in rowStr
    ensures r.Some? ==> NoWhitespace(r.value.0) && NoWhitespace(r.value.1)
  {
    var rowList := Split(rowStr, ',');
    if |rowList| < 2 then None
    else Some((Squeeze(rowList[0]), Squeeze(rowList[1])))
  }

  /** Every row parsed, or the index of the first row that does not parse. */
  function ParseRows(rows: seq<string>): Result<seq<(string, string)>> {
    if |rows| == 0 then Ok([])
    else
      var n := |rows| - 1;
      match ParseRows(rows[..n])
      case Err(e) => Err(e)
      case Ok(pairs) =>
        match ParseRow(rows[n])
        case None => Err(MissingComma(n))
        case Some(kv) => Ok(pairs + [kv])
  }

  /** A successful parse yields one pair per row, each the parse of its row. */
  lemma {:induction false} ParseRowsOk(rows: seq<string>)
    requires ParseRows(rows).Ok?
    ensures |ParseRows(rows).value| == |rows|
    ensures forall i :: 0 <= i < |rows| ==> ParseRow(rows[i]) == Some(ParseRows(rows).value[i])
  {
    if |rows| > 0 {
      var n := |rows| - 1;
      var init := rows[..n];
      ParseRowsOk(init);
      var pairs := ParseRows(init).value;
      var kv := ParseRow(rows[n]).value;
      assert ParseRows(rows).value == pairs + [kv];
      forall i | 0 <= i < |rows| ensures ParseRow(rows[i]) == Some(ParseRows(rows).value[i]) {
        if i < n {
          assert rows[i] == init[i];
        }
      }
    }
  }

  /** A failed parse names a row that does not parse, and every row before
      it parses. */
  lemma {:induction false} ParseRowsErr(rows: seq<string>)
    requires ParseRows(rows).Err?
    ensures ParseRows(rows).error.row < |rows|
    ensures ParseRow(rows[ParseRows(rows).error.row]).None?
    ensures forall i :: 0 <= i < ParseRows(rows).error.row ==> ParseRow(rows[i]).Some?
  {
    var n := |rows| - 1;
    var init := rows[..n];
    if ParseRows(init).Err? {
      ParseRowsErr(init);
      var e := ParseRows(init).error.row;
      assert rows[e] == init[e];
      forall i | 0 <= i < e ensures ParseRow(rows[i]).Some? {
        assert rows[i] == init[i];
      }
    } else {
      ParseRowsOk(init);
      forall i | 0 <= i < n ensures ParseRow(rows[i]).Some? {
        assert rows[i] == init[i];
      }
    }
  }

  /** Parsing succeeds exactly when every row has a comma. */
  lemma ParseRowsOkIff(rows: seq<string>)
    ensures ParseRows(rows).Ok? <==> forall i :: 0 <= i < |rows| ==> ',' in rows[i]
  {
    if ParseRows(rows).Ok? {
      ParseRowsOk(rows);
    } else {
      ParseRowsErr(rows);
    }
  }

  /** The dictionary the loader returns, or the error it raises. */
  function LoadTerms(rows: seq<string>): Result<OrderedMap<string>> {
    match ParseRows(rows)
    case Err(e) => Err(e)
    case Ok(pairs) => Ok(BuildMap(pairs))
  }

  /** The load fails at row `i` when every earlier row parses and row `i`
      does not. */
  lemma FirstBadRow(rows: seq<string>, i: nat)
    requires i < |rows| && ParseRow(rows[i]).None?
    requires forall j :: 0 <= j < i ==> ParseRow(rows[j]).Some?
    ensures LoadTerms(rows) == Err(MissingComma(i))
  {
    ParseRowsOkIff(rows);
    ParseRowsErr(rows);
    var r := ParseRows(rows);
    assert r.Err?;
    assert r.error.row == i;
  }

  /** The load succeeds with the pairs of all rows when every row parses. */
  lemma {:induction false} AllRowsParsed(rows: seq<string>, pairs: seq<(string, string)>)
    requires |pairs| == |rows|
    requires forall j :: 0 <= j < |rows| ==> ParseRow(rows[j]) == Some(pairs[j])
    ensures ParseRows(rows) == Ok(pairs)
    ensures LoadTerms(rows) == Ok(BuildMap(pairs))
  {
    if |rows| > 0 {
      var n := |rows| - 1;
      forall j | 0 <= j < n ensures ParseRow(rows[..n][j]) == Some(pairs[..n][j]) {
        assert rows[..n][j] == rows[j] && pairs[..n][j] == pairs[j];
      }
      AllRowsParsed(rows[..n], pairs[..n]);
      assert pairs[..n] + [pairs[n]] == pairs;
    }
  }

  /** Once a prefix of the rows fails to parse, the whole load fails with
      the same error. */
  lemma {:induction false} ErrorPersists(rows: seq<string>, i: nat)
    requires i <= |rows| && ParseRows(rows[..i]).Err?
    ensures LoadTerms(rows) == Err(ParseRows(rows[..i]).error)
    decreases |rows| - i
  {
    if i < |rows| {
      assert rows[..i + 1][..i] == rows[..i];
      ErrorPersists(rows, i + 1);
    } else {
      assert rows[..i] == rows;
    }
  }

  /** The loop of `createOrderedLawTermsDict`, over the rows already read
      from the configuration file. */
  method CreateOrderedLawTermsDict(rows: seq<string>) returns (r: Result<OrderedDict<string>>)
    ensures r.Err? <==> LoadTerms(rows).Err?
    ensures r.Err? ==> r.error == LoadTerms(rows).error
    ensures r.Ok? ==> fresh(r.value) && r.value.Valid() && r.value.Model() == LoadTerms(rows).value
  {
    var orderedLawTermsDict := new OrderedDict<string>();
    ghost var pairs: seq<(string, string)> := [];
    for i := 0 to |rows|
      invariant fresh(orderedLawTermsDict) && orderedLawTermsDict.Valid()
      invariant ParseRows(rows[..i]) == Ok(pairs)
      invariant orderedLawTermsDict.Model() == BuildMap(pairs)
    {
      assert rows[..i + 1][..i] == rows[..i];
      var row := ParseRow(rows[i]);
      if row.None? {
        ErrorPersists(rows, i + 1);
        return Err(MissingComma(i));
      }
      var (key, pattern) := row.value;
      orderedLawTermsDict.Put(key, pattern);
      BuildMapAppend(pairs, key, pattern);
      pairs := pairs + [(key, pattern)];
    }
    assert rows[..|rows|] == rows;
    r := Ok(orderedLawTermsDict);
  }

  // ---------------------------------------------------------------------
  // Properties

  /** A row whose comma-separated pieces start with `a` and `b` parses to
      those two pieces with all whitespace deleted. */
  lemma ParseRowOfPieces(rowStr: string, a: string, b: string, tail: seq<string>)
    requires Split(rowStr, ',') == [a, b] + tail
    ensures ParseRow(rowStr) == Some((RemoveWhitespace(a), RemoveWhitespace(b)))
  {
    JoinSplitRemovesWhitespace(a);
    JoinSplitRemovesWhitespace(b);
  }

  /** A row `a,b` whose two fields hold no comma parses to the two fields
      with all whitespace deleted. */
  lemma ParseRowFields(a: string, b: string)
    requires ',' !in a && ',' !in b
    ensures ParseRow(a + "," + b) == Some((RemoveWhitespace(a), RemoveWhitespace(b)))
  {
    SplitAfterFirst(a, ',', b);
    ParseRowOfPieces(a + "," + b, a, b, []);
  }

  /** Whatever follows a second comma is ignored. */
  lemma ParseRowIgnoresExtraFields(a: string, b: string, rest: string)
    requires ',' !in a && ',' !in b
    ensures ParseRow(a + "," + b + "," + rest) == ParseRow(a + "," + b)
  {
    ParseRowFields(a, b);
    SplitTwoFields(a, b, ',', rest);
    ParseRowOfPieces(a + "," + b + "," + rest, a, b, Split(rest, ','));
  }

  /** A row without a comma makes the whole load fail at that row, unless an
      earlier row already did. */
  lemma RowWithoutCommaFails(rows: seq<string>, i: nat)
    requires i < |rows| && ',' !in rows[i]
    ensures LoadTerms(rows).Err? && LoadTerms(rows).error.row <= i
  {
    ParseRowsOkIff(rows);
    ParseRowsErr(rows);
  }

  /** The loaded keys are unique, are exactly the keys of the rows, and stand
      in the order in which they first appear. */
  lemma LoadedKeysInFirstOccurrenceOrder(rows: seq<string>)
    requires LoadTerms(rows).Ok?
    ensures var pairs := ParseRows(rows).value; var d := LoadTerms(rows).value;
      d.Valid() &&
      (forall k :: k in d.entries <==> OccursAsKey(pairs, k)) &&
      InFirstOccurrenceOrder(d.keys, pairs)
  {
    BuildMapKeys(ParseRows(rows).value);
    BuildMapKeysInFirstOccurrenceOrder(ParseRows(rows).value);
  }

  /** A duplicated key carries the pattern of its last row. */
  lemma DuplicateKeyTakesLastPattern(rows: seq<string>, k: string)
    requires LoadTerms(rows).Ok? && k in LoadTerms(rows).value.entries
    ensures exists j :: (IsLastFor(ParseRows(rows).value, k, j) &&
      ParseRows(rows).value[j].1 == LoadTerms(rows).value.entries[k])
  {
    BuildMapLastValueWins(ParseRows(rows).value, k);
  }

  /** A configuration holding the single row `a,b` (for instance
      `NEG , negligen` with its newline) loads as the one-term dictionary
      from `a` without whitespace (NEG) to `b` without whitespace (negligen). */
  lemma LoadSingleRow(a: string, b: string)
    requires ',' !in a && ',' !in b
    ensures LoadTerms([a + "," + b]) ==
      Ok(OrderedMap([RemoveWhitespace(a)], map[RemoveWhitespace(a) := RemoveWhitespace(b)]))
  {
    ParseRowFields(a, b);
    AllRowsParsed([a + "," + b], [(RemoveWhitespace(a), RemoveWhitespace(b))]);
    var k, v := RemoveWhitespace(a), RemoveWhitespace(b);
    assert [(k, v)][..0] == [];
    assert BuildMap([(k, v)]) == Empty<string>().Put(k, v);
    assert Empty<string>().Put(k, v) == OrderedMap([k], map[k := v]);
  }
}
