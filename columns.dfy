/** Column letters of a worksheet address and the bijective base-26 numeral
    they stand for: A = 1, ..., Z = 26, AA = 27, ...
    `ColToIndex` models `_col_to_index` of excel_mcp/utils.py; `ColumnLetters`
    specifies the `get_column_letter` helper the same file takes from openpyxl.
    Characters are ASCII: `str.isalpha` and `str.upper` are modelled on the
    26 Latin letters only. */
module Columns {

  /** `str.isalpha` on an ASCII character. */
  predicate IsAlpha(c: char) {
    'A' <= c <= 'Z' || 'a' <= c <= 'z'
  }

  predicate IsUpperLetter(c: char) {
    'A' <= c <= 'Z'
  }

  predicate AllUpper(s: string) {
    forall i :: 0 <= i < |s| ==> IsUpperLetter(s[i])
  }

  /** No character of `s` is a letter. */
  predicate NoLetters(s: string) {
    forall i :: 0 <= i < |s| ==> !IsAlpha(s[i])
  }

  /** `str.upper` on one character: lower-case ASCII letters become upper-case,
      everything else is left alone. */
  function Upper(c: char): (u: char)
    ensures IsAlpha(u) <==> IsAlpha(c)
    ensures IsAlpha(c) ==> IsUpperLetter(u)
    ensures IsUpperLetter(c) ==> u == c
  {
    if 'a' <= c <= 'z' then (c as int - 32) as char else c
  }

  /** `str.lower` on one character. */
  function Lower(c: char): (l: char)
    ensures Upper(l) == Upper(c)
  {
    if 'A' <= c <= 'Z' then (c as int + 32) as char else c
  }

  function UpperString(s: string): (u: string)
    ensures |u| == |s|
  {
    seq(|s|, i requires 0 <= i < |s| => Upper(s[i]))
  }

  function LowerString(s: string): (l: string)
    ensures |l| == |s|
  {
    seq(|s|, i requires 0 <= i < |s| => Lower(s[i]))
  }

  /** `''.join(filter(p, s))`: the characters of `s` that satisfy `p`, in order. */
  function Keep(s: string, p: char -> bool): (r: string)
    ensures |r| <= |s|
    ensures forall i :: 0 <= i < |r| ==> p(r[i])
  {
    if s == [] then []
    else Keep(s[..|s| - 1], p) + (if p(s[|s| - 1]) then [s[|s| - 1]] else [])
  }

  /** `''.join(filter(str.isalpha, s))` */
  function Letters(s: string): string {
    Keep(s, IsAlpha)
  }

  /** Position of a letter in the alphabet, counted from 1 (`ord(ch) - ord('A') + 1`). */
  function LetterValue(c: char): int {
    c as int - 'A' as int + 1
  }

  /** The bijective base-26 numeral denoted by a string of upper-case letters,
      read most significant letter first. */
  function ColumnNumber(letters: string): int {
    if letters == [] then 0
    else 26 * ColumnNumber(letters[..|letters| - 1]) + LetterValue(letters[|letters| - 1])
  }

  /** The column index `_col_to_index` assigns to any text: upper-case it, keep
      its letters, read them as a bijective base-26 numeral. */
  function ColumnValue(col: string): int {
    ColumnNumber(Letters(UpperString(col)))
  }

  /** `get_column_letter`: the letters of column `n`. openpyxl accepts only
      1 to 18278 and raises otherwise; the model extends it to every natural,
      with the empty string for 0, and is only applied to well-formed columns. */
  function ColumnLetters(n: nat): (s: string)
    ensures AllUpper(s)
    ensures s == [] <==> n == 0
    decreases n
  {
    if n == 0 then []
    else ColumnLetters((n - 1) / 26) + [('A' as int + (n - 1) % 26) as char]
  }

  /** `_col_to_index`: a loop over the upper-cased text that skips non-letters
      and accumulates `idx = idx * 26 + position`. */
  method ColToIndex(col: string) returns (idx: int)
    ensures idx == ColumnValue(col)
    ensures idx >= 0
    ensures idx == 0 <==> NoLetters(col)
  {
    var up := UpperString(col);
    idx := 0;
    for i := 0 to |up|
      invariant idx == ColumnNumber(Letters(up[..i]))
    {
      var ch := up[i];
      assert up[..i + 1] == up[..i] + [ch];
      LettersSnoc(up[..i], ch);
      if !IsAlpha(ch) {
        assert Letters(up[..i + 1]) == Letters(up[..i]);
        continue;
      }
      ColumnNumberSnoc(Letters(up[..i]), ch);
      idx := idx * 26 + (ch as int - 'A' as int + 1);
      assert idx == ColumnNumber(Letters(up[..i + 1]));
    }
    assert up[..|up|] == up;
    ColumnValueSign(col);
  }

  // ---------------------------------------------------------------------------
  // Filtering and case

  lemma {:induction false} KeepAppend(a: string, b: string, p: char -> bool)
    ensures Keep(a + b, p) == Keep(a, p) + Keep(b, p)
    decreases |b|
  {
    if b == [] {
      assert a + b == a;
    } else {
      var b' := b[..|b| - 1];
      assert (a + b)[..|a + b| - 1] == a + b';
      KeepAppend(a, b', p);
    }
  }

  lemma LettersSnoc(s: string, c: char)
    ensures Letters(s + [c]) == Letters(s) + (if IsAlpha(c) then [c] else [])
  {
    assert (s + [c])[..|s|] == s;
  }

  lemma {:induction false} KeepEmpty(s: string, p: char -> bool)
    ensures Keep(s, p) == [] <==> forall i :: 0 <= i < |s| ==> !p(s[i])
    decreases |s|
  {
    if s != [] {
      var s' := s[..|s| - 1];
      KeepEmpty(s', p);
      assert forall i :: 0 <= i < |s'| ==> s'[i] == s[i];
    }
  }

  lemma {:induction false} KeepAll(s: string, p: char -> bool)
    requires forall i :: 0 <= i < |s| ==> p(s[i])
    ensures Keep(s, p) == s
    decreases |s|
  {
    if s != [] {
      var s' := s[..|s| - 1];
      KeepAll(s', p);
      assert s' + [s[|s| - 1]] == s;
    }
  }

  lemma UpperStringAppend(a: string, b: string)
    ensures UpperString(a + b) == UpperString(a) + UpperString(b)
  {
    assert forall i :: 0 <= i < |a + b| ==> UpperString(a + b)[i] == (UpperString(a) + UpperString(b))[i];
  }

  /** Upper-casing and keeping the letters commute. */
  lemma {:induction false} UpperLetters(s: string)
    ensures UpperString(Letters(s)) == Letters(UpperString(s))
    decreases |s|
  {
    if s != [] {
      var s' := s[..|s| - 1];
      var c := s[|s| - 1];
      assert s == s' + [c];
      UpperLetters(s');
      UpperStringAppend(s', [c]);
      KeepAppend(UpperString(s'), UpperString([c]), IsAlpha);
      UpperStringAppend(Letters(s'), if IsAlpha(c) then [c] else []);
      assert UpperString([c]) == [Upper(c)];
      assert UpperString(s')[..|UpperString(s')|] == UpperString(s');
      assert Keep(UpperString([c]), IsAlpha) == Keep([] + [Upper(c)], IsAlpha);
      assert [] + [Upper(c)] == [Upper(c)];
      assert ([] + [Upper(c)])[..0] == [];
    }
  }

  /** The letters of an upper-cased text are upper-case letters. */
  lemma {:induction false} UpperCaseLetters(s: string)
    ensures AllUpper(Letters(UpperString(s)))
    decreases |s|
  {
    if s != [] {
      var s', c := s[..|s| - 1], s[|s| - 1];
      assert s == s' + [c];
      UpperCaseLetters(s');
      UpperStringAppend(s', [c]);
      assert UpperString([c]) == [Upper(c)];
      LettersSnoc(UpperString(s'), Upper(c));
    }
  }

  // ---------------------------------------------------------------------------
  // The numeral

  lemma {:induction false} ColumnNumberSign(s: string)
    requires AllUpper(s)
    ensures ColumnNumber(s) >= 0
    ensures ColumnNumber(s) == 0 <==> s == []
    decreases |s|
  {
    if s != [] {
      ColumnNumberSign(s[..|s| - 1]);
    }
  }

  /** `_col_to_index` gives 0 exactly for a text without letters, and a
      positive index otherwise. */
  lemma ColumnValueSign(col: string)
    ensures ColumnValue(col) >= 0
    ensures ColumnValue(col) == 0 <==> NoLetters(col)
  {
    UpperCaseLetters(col);
    ColumnNumberSign(Letters(UpperString(col)));
    KeepEmpty(UpperString(col), IsAlpha);
    assert forall i :: 0 <= i < |col| ==> UpperString(col)[i] == Upper(col[i]);
  }

  /** Appending a letter shifts the numeral one base-26 place. */
  lemma ColumnNumberSnoc(s: string, c: char)
    ensures ColumnNumber(s + [c]) == 26 * ColumnNumber(s) + LetterValue(c)
  {
    assert (s + [c])[..|s|] == s;
  }

  /** Decoding the letters of column `n` gives back `n`. */
  lemma {:induction false} NumberOfLetters(n: nat)
    ensures ColumnNumber(ColumnLetters(n)) == n
    decreases n
  {
    if n > 0 {
      var q, d := (n - 1) / 26, (n - 1) % 26;
      NumberOfLetters(q);
      ColumnNumberSnoc(ColumnLetters(q), ('A' as int + d) as char);
    }
  }

  /** Encoding the numeral of an upper-case letter string gives back the string. */
  lemma {:induction false} LettersOfNumber(s: string)
    requires AllUpper(s)
    ensures ColumnNumber(s) >= 0
    ensures ColumnLetters(ColumnNumber(s)) == s
    decreases |s|
  {
    ColumnNumberSign(s);
    if s != [] {
      var p, c := s[..|s| - 1], s[|s| - 1];
      assert s == p + [c];
      LettersOfNumber(p);
      var n := ColumnNumber(s);
      assert n == 26 * ColumnNumber(p) + LetterValue(c);
      assert (n - 1) / 26 == ColumnNumber(p) && (n - 1) % 26 == LetterValue(c) - 1;
    }
  }

  /** Distinct upper-case letter strings name distinct columns. */
  lemma ColumnNumberInjective(a: string, b: string)
    requires AllUpper(a) && AllUpper(b)
    requires ColumnNumber(a) == ColumnNumber(b)
    ensures a == b
  {
    LettersOfNumber(a);
    LettersOfNumber(b);
  }

  // ---------------------------------------------------------------------------
  // What `_col_to_index` ignores

  /** Case does not matter: a text, its upper-case and its lower-case form
      have the same index. */
  lemma CaseInsensitive(col: string)
    ensures ColumnValue(UpperString(col)) == ColumnValue(col)
    ensures ColumnValue(LowerString(col)) == ColumnValue(col)
  {
    assert UpperString(UpperString(col)) == UpperString(col);
    assert UpperString(LowerString(col)) == UpperString(col);
  }

  /** A non-letter inserted anywhere does not change the index. */
  lemma IgnoresNonLetter(col: string, i: nat, c: char)
    requires i <= |col|
    requires !IsAlpha(c)
    ensures ColumnValue(col[..i] + [c] + col[i..]) == ColumnValue(col)
  {
    var a, b := col[..i], col[i..];
    assert col == a + b;
    var ua, ub := UpperString(a), UpperString(b);
    UpperStringAppend(a + [c], b);
    UpperStringAppend(a, [c]);
    UpperStringAppend(a, b);
    assert UpperString([c]) == [Upper(c)];
    assert UpperString(col[..i] + [c] + col[i..]) == (ua + [Upper(c)]) + ub;
    KeepAppend(ua + [Upper(c)], ub, IsAlpha);
    LettersSnoc(ua, Upper(c));
    KeepAppend(ua, ub, IsAlpha);
    assert Letters(UpperString(col[..i] + [c] + col[i..])) == Letters(UpperString(col));
  }

  /** Keeping only the letters first, as `address_within_ranges` does, does
      not change the index. */
  lemma LettersFirst(col: string)
    ensures ColumnValue(Letters(col)) == ColumnValue(col)
  {
    UpperLetters(col);
    KeepAll(Letters(UpperString(col)), IsAlpha);
  }

  /** `_col_to_index(get_column_letter(n)) == n`: the round trip
      `collect_column_outputs` relies on when it rebuilds addresses. */
  lemma ColumnValueOfLetters(n: nat)
    ensures ColumnValue(ColumnLetters(n)) == n
  {
    var s := ColumnLetters(n);
    assert UpperString(s) == s;
    KeepAll(s, IsAlpha);
    NumberOfLetters(n);
  }

  lemma Examples()
    ensures ColumnValue("A") == 1 && ColumnValue("Z") == 26
    ensures ColumnValue("AA") == 27 && ColumnValue("BC") == 55
    ensures ColumnLetters(27) == "AA"
  {
  }
}
