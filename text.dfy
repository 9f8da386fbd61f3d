/** String primitives the document analyzer relies on, written out the way
    Python 3 defines them on `str`: the whitespace class used by the
    argument-less `str.split()`, `str.strip(c)` for a single character,
    `str.split(sep)`, `sep.join(parts)`, `str.lower()`, `str.isalnum()`,
    `str.isdigit()` and the `in` substring test. */
module Text {

  /** Python's `str.isspace()` for one code point: the code points the
      argument-less `str.split()` treats as separators. */
  predicate IsWhitespace(c: char) {
    ('\t' <= c <= '\r') || ('\U{1c}' <= c <= '\U{1f}') || c == ' ' ||
    c == '\U{85}' || c == '\U{a0}' || c == '\U{1680}' ||
    ('\U{2000}' <= c <= '\U{200a}') || c == '\U{2028}' || c == '\U{2029}' ||
    c == '\U{202f}' || c == '\U{205f}' || c == '\U{3000}'
  }

  predicate NoWhitespace(s: string) {
    forall i :: 0 <= i < |s| ==> !IsWhitespace(s[i])
  }

  /** `str.isdigit()` restricted to ASCII. */
  predicate IsDigit(c: char) {
    '0' <= c <= '9'
  }

  /** `str.isalnum()` restricted to ASCII. */
  predicate IsAlnum(c: char) {
    IsDigit(c) || ('a' <= c <= 'z') || ('A' <= c <= 'Z')
  }

  /** `str.lower()` of one character, restricted to ASCII. */
  function LowerChar(c: char): (r: char)
    ensures 'A' <= c <= 'Z' ==> 'a' <= r <= 'z' && r as int == c as int + 32
    ensures !('A' <= c <= 'Z') ==> r == c
  {
    if 'A' <= c <= 'Z' then (c as int + 32) as char else c
  }

  /** `str.lower()`: every character mapped by `LowerChar`. */
  function Lower(s: string): (r: string)
    ensures |r| == |s|
  {
    seq(|s|, i requires 0 <= i < |s| => LowerChar(s[i]))
  }

  /** Lowering a whole line sequence, one line at a time. */
  function LowerAll(lines: seq<string>): (r: seq<string>)
    ensures |r| == |lines|
  {
    seq(|lines|, i requires 0 <= i < |lines| => Lower(lines[i]))
  }

  lemma LowerAppend(a: string, b: string)
    ensures Lower(a + b) == Lower(a) + Lower(b)
  {
    assert forall i :: 0 <= i < |a + b| ==> Lower(a + b)[i] == (Lower(a) + Lower(b))[i];
  }

  lemma LowerSlice(s: string, lo: nat, hi: nat)
    requires lo <= hi <= |s|
    ensures Lower(s[lo..hi]) == Lower(s)[lo..hi]
  {
  }

  // ---------------------------------------------------------------------
  // sep.join(parts)

  /** `sep.join(parts)` for a one-character separator. */
  function JoinWith(parts: seq<string>, sep: char): string
  {
    if |parts| == 0 then ""
    else if |parts| == 1 then parts[0]
    else parts[0] + [sep] + JoinWith(parts[1..], sep)
  }

  /** Lower-casing the joined text is the same as joining the lower-cased
      parts, whenever the separator has no case. */
  lemma {:induction false} LowerJoin(parts: seq<string>, sep: char)
    requires LowerChar(sep) == sep
    ensures Lower(JoinWith(parts, sep)) == JoinWith(LowerAll(parts), sep)
  {
    if |parts| >= 2 {
      LowerJoin(parts[1..], sep);
      LowerAppend(parts[0] + [sep], JoinWith(parts[1..], sep));
      LowerAppend(parts[0], [sep]);
      assert LowerAll(parts)[1..] == LowerAll(parts[1..]);
    }
  }

  /** Each part sits, unchanged, at some offset of the joined text. */
  lemma {:induction false} JoinContainsPart(parts: seq<string>, sep: char, i: nat)
    returns (off: nat)
    requires i < |parts|
    ensures off + |parts[i]| <= |JoinWith(parts, sep)|
    ensures JoinWith(parts, sep)[off..off + |parts[i]|] == parts[i]
  {
    if |parts| == 1 {
      off := 0;
    } else if i == 0 {
      off := 0;
      assert JoinWith(parts, sep) == parts[0] + ([sep] + JoinWith(parts[1..], sep));
    } else {
      var off' := JoinContainsPart(parts[1..], sep, i - 1);
      off := |parts[0]| + 1 + off';
      var rest := JoinWith(parts[1..], sep);
      assert JoinWith(parts, sep) == (parts[0] + [sep]) + rest;
      assert rest[off'..off' + |parts[i]|] == parts[i];
    }
  }

  // ---------------------------------------------------------------------
  // str.split(sep)

  /** Index of the first `c` in `s`. */
  function IndexOf(s: string, c: char): (n: nat)
    requires c in s
    ensures n < |s| && s[n] == c
    ensures forall j :: 0 <= j < n ==> s[j] != c
  {
    if s[0] == c then 0 else 1 + IndexOf(s[1..], c)
  }

  /** `s.split(sep)`: the pieces between occurrences of `sep`, empty pieces
      included. */
  function Split(s: string, sep: char): (r: seq<string>)
    ensures |r| >= 1
    ensures |r| == 1 <==> sep !in s
    ensures forall i :: 0 <= i < |r| ==> sep !in r[i]
    decreases |s|
  {
    if sep !in s then [s]
    else
      var i := IndexOf(s, sep);
      [s[..i]] + Split(s[i + 1..], sep)
  }

  /** Joining the pieces with the separator gives back the string. */
  lemma {:induction false} SplitJoin(s: string, sep: char)
    ensures JoinWith(Split(s, sep), sep) == s
    decreases |s|
  {
    if sep in s {
      var i := IndexOf(s, sep);
      var rest := Split(s[i + 1..], sep);
      SplitJoin(s[i + 1..], sep);
      var r := Split(s, sep);
      assert r == [s[..i]] + rest;
      assert r[0] == s[..i] && r[1..] == rest;
      calc {
        JoinWith(r, sep);
        r[0] + [sep] + JoinWith(r[1..], sep);
        s[..i] + [sep] + s[i + 1..];
        { assert s == s[..i] + [s[i]] + s[i + 1..]; }
        s;
      }
    }
  }

  /** A prefix free of the separator is the first piece, and the remainder
      splits on its own. */
  lemma SplitAfterFirst(a: string, sep: char, t: string)
    requires sep !in a
    ensures Split(a + [sep] + t, sep) == [a] + Split(t, sep)
  {
    var s := a + [sep] + t;
    assert s[|a|] == sep;
    var i := IndexOf(s, sep);
    assert forall j :: 0 <= j < |a| ==> s[j] == a[j];
    assert i == |a|;
    assert s[..i] == a && s[i + 1..] == t;
  }

  /** Two separator-free fields followed by the separator: the two fields
      are the first two pieces. */
  lemma SplitTwoFields(a: string, b: string, sep: char, rest: string)
    requires sep !in a && sep !in b
    ensures Split(a + [sep] + b + [sep] + rest, sep) == [a, b] + Split(rest, sep)
  {
    var t := b + [sep] + rest;
    assert a + [sep] + b + [sep] + rest == a + [sep] + t;
    var x := Split(rest, sep);
    assert [a] + ([b] + x) == [a, b] + x;
    SplitAfterFirst(b, sep, rest);
    SplitAfterFirst(a, sep, t);
  }

  // ---------------------------------------------------------------------
  // ''.join(s.split())

  /** The argument-less `s.split()`: the maximal runs of non-whitespace
      characters, in order. */
  function SplitWhitespace(s: string): (r: seq<string>)
    ensures forall i :: 0 <= i < |r| ==> |r[i]| > 0 && NoWhitespace(r[i])
    ensures |s| > 0 && !IsWhitespace(s[0]) ==> |r| > 0 && r[0][0] == s[0]
  {
    if |s| == 0 then []
    else
      var rest := SplitWhitespace(s[1..]);
      if IsWhitespace(s[0]) then rest
      else if |s| > 1 && !IsWhitespace(s[1]) then [[s[0]] + rest[0]] + rest[1..]
      else [[s[0]]] + rest
  }

  /** `''.join(pieces)`. */
  function Concat(pieces: seq<string>): string
  {
    if |pieces| == 0 then "" else pieces[0] + Concat(pieces[1..])
  }

  /** Reference definition: the characters of `s` that are not whitespace,
      in their original order. */
  function RemoveWhitespace(s: string): (r: string)
    ensures NoWhitespace(r)
    ensures |r| <= |s|
  {
    if |s| == 0 then ""
    else (if IsWhitespace(s[0]) then "" else [s[0]]) + RemoveWhitespace(s[1..])
  }

  /** The characters kept are exactly those of `s` that are not whitespace. */
  lemma {:induction false} RemoveWhitespaceChars(s: string, c: char)
    ensures c in RemoveWhitespace(s) <==> c in s && !IsWhitespace(c)
  {
    if |s| > 0 {
      RemoveWhitespaceChars(s[1..], c);
      assert s == [s[0]] + s[1..];
    }
  }

  /** `''.join(s.split())` deletes every whitespace character and keeps the
      rest in order. */
  lemma {:induction false} JoinSplitRemovesWhitespace(s: string)
    ensures Concat(SplitWhitespace(s)) == RemoveWhitespace(s)
  {
    if |s| > 0 {
      JoinSplitRemovesWhitespace(s[1..]);
      var rest := SplitWhitespace(s[1..]);
      if !IsWhitespace(s[0]) && |s| > 1 && !IsWhitespace(s[1]) {
        assert ([[s[0]] + rest[0]] + rest[1..])[1..] == rest[1..];
        assert Concat(rest) == rest[0] + Concat(rest[1..]);
      } else if !IsWhitespace(s[0]) {
        assert ([[s[0]]] + rest)[1..] == rest;
      }
    }
  }

  /** A string without whitespace is left as it is. */
  lemma {:induction false} RemoveWhitespaceKeepsClean(s: string)
    requires NoWhitespace(s)
    ensures RemoveWhitespace(s) == s
  {
    if |s| > 0 {
      RemoveWhitespaceKeepsClean(s[1..]);
    }
  }

  // ---------------------------------------------------------------------
  // str.strip(c) for one character c

  /** How many copies of `c` open `s`. */
  function LeadingCount(s: string, c: char): (n: nat)
    ensures n <= |s|
    ensures forall k :: 0 <= k < n ==> s[k] == c
    ensures n == |s| || s[n] != c
  {
    if |s| > 0 && s[0] == c then 1 + LeadingCount(s[1..], c) else 0
  }

  /** How many copies of `c` close `s`. */
  function TrailingCount(s: string, c: char): (n: nat)
    ensures n <= |s|
    ensures forall k :: |s| - n <= k < |s| ==> s[k] == c
    ensures n == |s| || s[|s| - 1 - n] != c
  {
    if |s| > 0 && s[|s| - 1] == c then 1 + TrailingCount(s[..|s| - 1], c) else 0
  }

  /** `s.strip(c)`: `s` without the copies of `c` at either end. */
  function StripChar(s: string, c: char): (r: string)
    ensures |r| <= |s|
    ensures r == [] || (r[0] != c && r[|r| - 1] != c)
  {
    var t := s[LeadingCount(s, c)..];
    t[..|t| - TrailingCount(t, c)]
  }

  /** Stripping removes only copies of `c`, and only at the ends: the result
      is the slice of `s` that starts after the leading copies, and every
      character after it is `c`. */
  lemma StripCharSlice(s: string, c: char)
    ensures var n := LeadingCount(s, c); var r := StripChar(s, c);
      n + |r| <= |s| && r == s[n..n + |r|] &&
      forall k :: n + |r| <= k < |s| ==> s[k] == c
  {
    var n := LeadingCount(s, c);
    var t := s[n..];
    var m := TrailingCount(t, c);
    assert StripChar(s, c) == t[..|t| - m];
    assert t[..|t| - m] == s[n..n + |t| - m];
    forall k | n + |t| - m <= k < |s| ensures s[k] == c {
      assert s[k] == t[k - n];
    }
  }

  // ---------------------------------------------------------------------
  // the `in` test on strings

  /** `t` occurs in `s` starting at index `i`. */
  ghost predicate OccursAt(s: string, t: string, i: int) {
    0 <= i && i + |t| <= |s| && s[i..i + |t|] == t
  }

  /** Python's `t in s` for strings. */
  function Contains(s: string, t: string): (r: bool)
    ensures r <==> exists i :: OccursAt(s, t, i)
  {
    if |t| <= |s| && s[..|t|] == t then
      assert OccursAt(s, t, 0);
      true
    else if |s| == 0 then
      assert forall i :: !OccursAt(s, t, i);
      false
    else
      var r := Contains(s[1..], t);
      assert forall i :: OccursAt(s[1..], t, i) ==> OccursAt(s, t, i + 1) by {
        forall i | OccursAt(s[1..], t, i) ensures OccursAt(s, t, i + 1) {
          assert s[i + 1..i + 1 + |t|] == s[1..][i..i + |t|];
        }
      }
      assert forall i :: OccursAt(s, t, i) ==> OccursAt(s[1..], t, i - 1) by {
        forall i | OccursAt(s, t, i) ensures OccursAt(s[1..], t, i - 1) {
          assert i != 0;
          assert s[i..i + |t|] == s[1..][i - 1..i - 1 + |t|];
        }
      }
      r
  }

  lemma ContainsItself(s: string)
    ensures Contains(s, s)
  {
    assert OccursAt(s, s, 0);
  }

  /** A string cannot contain a text with a character it lacks. */
  lemma MissingCharNotContained(s: string, t: string, c: char)
    requires c in t && c !in s
    ensures !Contains(s, t)
  {
  }
}
