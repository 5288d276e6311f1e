/** Containment of a qualified cell address (`Sheet1!B2`) in a list of
    qualified ranges (`Sheet1!A1:C3`): `address_within_ranges` of
    excel_mcp/utils.py. The function raises `ValueError` when a text it splits
    holds a second separator or a part it converts with `int` holds no digit;
    the model returns that outcome instead of excluding those inputs. */
module Ranges {
  import opened Columns

  datatype Option<T> = None | Some(value: T)

  /** What one call of `address_within_ranges` does. */
  datatype Outcome = Returned(within: bool) | RaisedValueError

  /** What the loop does with one entry of `ranges`: pass it over (no `!`, a
      different sheet, or no `:`), look at it and go on, stop with `True`, or
      raise. */
  datatype Verdict = Skipped | Outside | Inside | Fails

  predicate Passes(v: Verdict) {
    v == Skipped || v == Outside
  }

  // ---------------------------------------------------------------------------
  // Text helpers

  /** `str.isdigit` on an ASCII character. */
  predicate IsDigit(c: char) {
    '0' <= c <= '9'
  }

  /** `''.join(filter(str.isdigit, s))` */
  function Digits(s: string): string {
    Keep(s, IsDigit)
  }

  /** `int(ds)` for a non-empty string of decimal digits. */
  function DecimalValue(ds: string): int {
    if ds == [] then 0
    else 10 * DecimalValue(ds[..|ds| - 1]) + (ds[|ds| - 1] as int - '0' as int)
  }

  /** `str(n)` for a natural number. */
  function DecimalString(n: nat): (s: string)
    ensures s != []
    ensures forall i :: 0 <= i < |s| ==> IsDigit(s[i])
    decreases n
  {
    if n < 10 then [('0' as int + n) as char]
    else DecimalString(n / 10) + [('0' as int + n % 10) as char]
  }

  /** Index of the first occurrence of `c` in `s`. */
  function IndexOf(s: string, c: char): (i: nat)
    requires c in s
    ensures i < |s| && s[i] == c && c !in s[..i]
  {
    if s[0] == c then 0 else 1 + IndexOf(s[1..], c)
  }

  /** Two occurrences of `c` in `s`. */
  predicate TwoOrMore(s: string, c: char) {
    exists i, j :: 0 <= i < j < |s| && s[i] == c && s[j] == c
  }

  /** `a, b = s.split(sep)`: the two parts when `sep` occurs exactly once;
      `None` is the `ValueError` of unpacking any other number of parts. */
  function SplitOnce(s: string, sep: char): (r: Option<(string, string)>)
    ensures r.Some? ==> s == r.value.0 + [sep] + r.value.1
    ensures r.Some? ==> sep !in r.value.0 && sep !in r.value.1
    ensures r.None? <==> sep !in s || TwoOrMore(s, sep)
  {
    if sep !in s then None
    else
      var i := IndexOf(s, sep);
      if sep in s[i + 1..] then
        assert TwoOrMore(s, sep) by {
          var j :| 0 <= j < |s[i + 1..]| && s[i + 1..][j] == sep;
          assert s[i + 1 + j] == sep;
        }
        None
      else
        assert s == s[..i] + [sep] + s[i + 1..];
        assert !TwoOrMore(s, sep) by {
          assert forall j :: 0 <= j < i ==> s[j] == s[..i][j];
          assert forall j :: i < j < |s| ==> s[j] == s[i + 1..][j - i - 1];
        }
        Some((s[..i], s[i + 1..]))
  }

  /** `int(''.join(filter(str.isdigit, part)))`; `None` is the `ValueError`
      of `int('')`. */
  function RowOf(part: string): Option<int>
  {
    var ds := Digits(part);
    if ds == [] then None else Some(DecimalValue(ds))
  }

  // ---------------------------------------------------------------------------
  // The reference definition

  /** One entry of `ranges` against a target on `sheet` at (`col`, `row`):
      lines 40-53 of the loop body. */
  function EntryVerdict(sheet: string, row: int, col: int, entry: string): Verdict {
    if '!' !in entry then Skipped
    else match SplitOnce(entry, '!')
      case None => Fails
      case Some((rangeSheet, rangePart)) =>
        if rangeSheet != sheet || ':' !in rangePart then Skipped
        else match SplitOnce(rangePart, ':')
          case None => Fails
          case Some((start, end)) =>
            match (RowOf(start), RowOf(end))
            case (Some(startRow), Some(endRow)) =>
              if startRow <= row <= endRow
                 && ColumnValue(Letters(start)) <= col <= ColumnValue(Letters(end))
              then Inside
              else Outside
            case _ => Fails
  }

  /** The entries in order, stopping at the first that decides. */
  function ScanEntries(sheet: string, row: int, col: int, ranges: seq<string>): Outcome {
    if ranges == [] then Returned(false)
    else match EntryVerdict(sheet, row, col, ranges[0])
      case Inside => Returned(true)
      case Fails => RaisedValueError
      case _ => ScanEntries(sheet, row, col, ranges[1..])
  }

  /** The whole of `address_within_ranges`. */
  function WithinRanges(target: string, ranges: seq<string>): Outcome {
    if '!' !in target || ranges == [] then Returned(false)
    else match SplitOnce(target, '!')
      case None => RaisedValueError
      case Some((sheet, cell)) =>
        match RowOf(cell)
        case None => RaisedValueError
        case Some(row) => ScanEntries(sheet, row, ColumnValue(Letters(cell)), ranges)
  }

  // ---------------------------------------------------------------------------
  // The operation

  /** The body of the loop of `address_within_ranges` for one entry: skip it
      (no `!`, another sheet, no `:`), raise on a second `!` or `:` or on an
      end without digits, else compare the rows and then the columns. */
  method JudgeEntry(tgtSheet: string, tgtRow: int, tgtColIdx: int, entry: string) returns (v: Verdict)
    ensures v == EntryVerdict(tgtSheet, tgtRow, tgtColIdx, entry)
  {
    if '!' !in entry {
      return Skipped;
    }
    var parts := SplitOnce(entry, '!');
    if parts.None? {
      return Fails;
    }
    var (rangeSheet, rangePart) := parts.value;
    if rangeSheet != tgtSheet || ':' !in rangePart {
      return Skipped;
    }
    var bounds := SplitOnce(rangePart, ':');
    if bounds.None? {
      return Fails;
    }
    var (start, end) := bounds.value;
    var startCol := Letters(start);
    var startDigits := Digits(start);
    if startDigits == [] {
      return Fails;
    }
    var startRow := DecimalValue(startDigits);
    var endCol := Letters(end);
    var endDigits := Digits(end);
    if endDigits == [] {
      return Fails;
    }
    var endRow := DecimalValue(endDigits);
    if startRow <= tgtRow <= endRow {
      var startIdx := ColToIndex(startCol);
      var endIdx := ColToIndex(endCol);
      if startIdx <= tgtColIdx <= endIdx {
        return Inside;
      }
    }
    return Outside;
  }

  /** `address_within_ranges`: a loop over `ranges` that skips entries with no
      `!`, on another sheet or with no `:`, and returns on the first entry
      whose rows and columns both contain the target. */
  method AddressWithinRanges(target: string, ranges: seq<string>) returns (r: Outcome)
    ensures r == WithinRanges(target, ranges)
    ensures '!' !in target || ranges == [] ==> r == Returned(false)
  {
    if '!' !in target || |ranges| == 0 {
      return Returned(false);
    }
    var split := SplitOnce(target, '!');
    if split.None? {
      return RaisedValueError;
    }
    var (tgtSheet, tgtCell) := split.value;
    var tgtCol := Letters(tgtCell);
    var tgtDigits := Digits(tgtCell);
    if tgtDigits == [] {
      return RaisedValueError;
    }
    var tgtRow := DecimalValue(tgtDigits);
    var tgtColIdx := ColToIndex(tgtCol);

    for i := 0 to |ranges|
      invariant ScanEntries(tgtSheet, tgtRow, tgtColIdx, ranges[i..])
             == ScanEntries(tgtSheet, tgtRow, tgtColIdx, ranges)
    {
      assert ranges[i..][1..] == ranges[i + 1..];
      var verdict := JudgeEntry(tgtSheet, tgtRow, tgtColIdx, ranges[i]);
      if verdict == Inside {
        return Returned(true);
      } else if verdict == Fails {
        return RaisedValueError;
      }
    }
    assert ranges[|ranges|..] == [];
    return Returned(false);
  }

  // ---------------------------------------------------------------------------
  // Properties

  /** The verdicts of the entries, in order. */
  function Verdicts(sheet: string, row: int, col: int, ranges: seq<string>): seq<Verdict>
  {
    seq(|ranges|, i requires 0 <= i < |ranges| => EntryVerdict(sheet, row, col, ranges[i]))
  }

  /** The first verdict that is not a pass is `v`. */
  predicate FirstDecision(vs: seq<Verdict>, v: Verdict) {
    exists i :: 0 <= i < |vs| && vs[i] == v && forall j :: 0 <= j < i ==> Passes(vs[j])
  }

  /** The scan returns `True` exactly when some entry contains the target and
      every entry before it was passed over without raising; it raises exactly
      when an entry raises before any entry contains the target; otherwise,
      every entry passed over, it returns `False`. */
  lemma {:induction false} ScanEntriesDecides(sheet: string, row: int, col: int, ranges: seq<string>)
    ensures ScanEntries(sheet, row, col, ranges) == Returned(true)
        <==> FirstDecision(Verdicts(sheet, row, col, ranges), Inside)
    ensures ScanEntries(sheet, row, col, ranges) == RaisedValueError
        <==> FirstDecision(Verdicts(sheet, row, col, ranges), Fails)
    ensures ScanEntries(sheet, row, col, ranges) == Returned(false)
        <==> forall i :: 0 <= i < |ranges| ==> Passes(EntryVerdict(sheet, row, col, ranges[i]))
    decreases |ranges|
  {
    var vs := Verdicts(sheet, row, col, ranges);
    if ranges != [] {
      var rest := ranges[1..];
      ScanEntriesDecides(sheet, row, col, rest);
      assert vs[1..] == Verdicts(sheet, row, col, rest);
      assert forall i :: 1 <= i < |ranges| ==> ranges[i] == rest[i - 1];
      if Passes(vs[0]) {
        DecidedAfterPass(vs, Inside);
        DecidedAfterPass(vs, Fails);
      } else {
        assert vs[0] == Inside || vs[0] == Fails;
        assert FirstDecision(vs, vs[0]);
      }
    }
  }

  /** A verdict that passes at the front leaves the first decision to the rest. */
  lemma DecidedAfterPass(vs: seq<Verdict>, v: Verdict)
    requires vs != [] && Passes(vs[0]) && !Passes(v)
    ensures FirstDecision(vs, v) <==> FirstDecision(vs[1..], v)
  {
    var rest := vs[1..];
    if FirstDecision(rest, v) {
      var i :| 0 <= i < |rest| && rest[i] == v && forall j :: 0 <= j < i ==> Passes(rest[j]);
      assert vs[i + 1] == v;
      assert forall j :: 0 <= j < i + 1 ==> Passes(vs[j]) by {
        forall j | 0 <= j < i + 1 ensures Passes(vs[j]) {
          if j > 0 { assert vs[j] == rest[j - 1]; }
        }
      }
    }
    if FirstDecision(vs, v) {
      var i :| 0 <= i < |vs| && vs[i] == v && forall j :: 0 <= j < i ==> Passes(vs[j]);
      assert i > 0 && rest[i - 1] == v;
      assert forall j :: 0 <= j < i - 1 ==> Passes(rest[j]) by {
        forall j | 0 <= j < i - 1 ensures Passes(rest[j]) {
          assert rest[j] == vs[j + 1];
        }
      }
    }
  }

  // ---------------------------------------------------------------------------
  // Addresses and ranges written in their canonical form

  /** `<ColumnLetters><Row>`, e.g. `B2`. */
  function CellText(col: nat, row: nat): string {
    ColumnLetters(col) + DecimalString(row)
  }

  /** `<Sheet>!<ColumnLetters><Row>` */
  function AddressText(sheet: string, col: nat, row: nat): string {
    sheet + "!" + CellText(col, row)
  }

  /** A rectangular range on one sheet, as written: the start corner first. */
  datatype Area = Area(sheet: string, startCol: nat, startRow: nat, endCol: nat, endRow: nat)

  /** `<Sheet>!<Start>:<End>` */
  function AreaText(a: Area): string {
    a.sheet + "!" + (CellText(a.startCol, a.startRow) + ":" + CellText(a.endCol, a.endRow))
  }

  /** The area lies on `sheet` and its row and column bounds, as written, both
      hold the cell. An area whose start lies after its end covers nothing. */
  predicate Covers(a: Area, sheet: string, col: nat, row: nat) {
    a.sheet == sheet && a.startRow <= row <= a.endRow && a.startCol <= col <= a.endCol
  }

  lemma {:induction false} DecimalRoundTrip(n: nat)
    ensures DecimalValue(DecimalString(n)) == n
    decreases n
  {
    if n >= 10 {
      DecimalRoundTrip(n / 10);
      var s := DecimalString(n);
      assert s[..|s| - 1] == DecimalString(n / 10);
    }
  }

  /** `int` ignores leading zeros: `int("007") == 7`. */
  lemma {:induction false} LeadingZerosIgnored(ds: string)
    ensures DecimalValue(['0'] + ds) == DecimalValue(ds)
    decreases |ds|
  {
    if ds != [] {
      var init := ds[..|ds| - 1];
      assert (['0'] + ds)[..|ds|] == ['0'] + init;
      LeadingZerosIgnored(init);
    }
  }

  /** The row of a part is the number its digits spell, wherever the letters
      and other characters stand among them (`$B$12` and `B1x2` both give 12). */
  lemma RowOfDigits(part: string, n: nat)
    requires Digits(part) == DecimalString(n)
    ensures RowOf(part) == Some(n)
  {
    DecimalRoundTrip(n);
  }

  /** A text with one `sep` splits into the parts around it. */
  lemma SplitOnceUnique(a: string, sep: char, b: string)
    requires sep !in a && sep !in b
    ensures SplitOnce(a + [sep] + b, sep) == Some((a, b))
  {
    var s := a + [sep] + b;
    assert s[|a|] == sep;
    assert forall j :: 0 <= j < |a| ==> s[j] == a[j];
    assert forall j :: |a| < j < |s| ==> s[j] == b[j - |a| - 1];
    var r := SplitOnce(s, sep);
    assert r.Some?;
    var (x, y) := r.value;
    assert s[|x|] == sep;
    assert |x| == |a|;
    assert x == s[..|a|] by { assert (x + [sep] + y)[..|x|] == x; }
    assert a == s[..|a|];
    assert y == s[|a| + 1..] by { assert (x + [sep] + y)[|x| + 1..] == y; }
    assert b == s[|a| + 1..];
  }

  lemma CellCharacters(col: nat, row: nat)
    ensures forall i :: 0 <= i < |CellText(col, row)| ==>
      IsUpperLetter(CellText(col, row)[i]) || IsDigit(CellText(col, row)[i])
  {
    var l, d := ColumnLetters(col), DecimalString(row);
    assert forall i :: 0 <= i < |l + d| ==> (l + d)[i] == if i < |l| then l[i] else d[i - |l|];
  }

  /** The separators cannot occur in a canonical cell text. */
  lemma NoSeparatorsInCell(col: nat, row: nat)
    ensures '!' !in CellText(col, row) && ':' !in CellText(col, row)
  {
    CellCharacters(col, row);
  }

  /** A canonical cell text gives back its row and its column. */
  lemma CellParts(col: nat, row: nat)
    ensures RowOf(CellText(col, row)) == Some(row)
    ensures ColumnValue(Letters(CellText(col, row))) == col
  {
    var l, d := ColumnLetters(col), DecimalString(row);
    KeepAppend(l, d, IsAlpha);
    KeepAppend(l, d, IsDigit);
    KeepAll(l, IsAlpha);
    KeepAll(d, IsDigit);
    KeepEmpty(l, IsDigit);
    KeepEmpty(d, IsAlpha);
    assert Letters(CellText(col, row)) == l;
    assert Digits(CellText(col, row)) == d;
    DecimalRoundTrip(row);
    ColumnValueOfLetters(col);
  }

  /** The text after the `!` of a canonical range. */
  lemma AreaPart(a: Area)
    ensures AreaText(a) == a.sheet + ['!'] + (CellText(a.startCol, a.startRow) + [':'] + CellText(a.endCol, a.endRow))
    ensures '!' !in CellText(a.startCol, a.startRow) + [':'] + CellText(a.endCol, a.endRow)
    ensures ':' in CellText(a.startCol, a.startRow) + [':'] + CellText(a.endCol, a.endRow)
    ensures SplitOnce(CellText(a.startCol, a.startRow) + [':'] + CellText(a.endCol, a.endRow), ':')
         == Some((CellText(a.startCol, a.startRow), CellText(a.endCol, a.endRow)))
  {
    var start, end := CellText(a.startCol, a.startRow), CellText(a.endCol, a.endRow);
    NoSeparatorsInCell(a.startCol, a.startRow);
    NoSeparatorsInCell(a.endCol, a.endRow);
    var part := start + [':'] + end;
    assert forall i :: 0 <= i < |part| ==>
      part[i] == if i < |start| then start[i] else if i == |start| then ':' else end[i - |start| - 1];
    assert part[|start|] == ':';
    SplitOnceUnique(start, ':', end);
  }

  /** How the loop treats one range written in canonical form. */
  lemma AreaVerdict(a: Area, sheet: string, col: nat, row: nat)
    requires '!' !in a.sheet
    ensures EntryVerdict(sheet, row, col, AreaText(a)) ==
      if Covers(a, sheet, col, row) then Inside
      else if a.sheet == sheet then Outside
      else Skipped
  {
    var start, end := CellText(a.startCol, a.startRow), CellText(a.endCol, a.endRow);
    var part := start + [':'] + end;
    AreaPart(a);
    SplitOnceUnique(a.sheet, '!', part);
    assert (a.sheet + ['!'] + part)[|a.sheet|] == '!';
    assert SplitOnce(AreaText(a), '!') == Some((a.sheet, part));
    CellParts(a.startCol, a.startRow);
    CellParts(a.endCol, a.endRow);
  }

  /** The texts of a list of areas, in order. */
  function AreaTexts(areas: seq<Area>): seq<string>
  {
    seq(|areas|, i requires 0 <= i < |areas| => AreaText(areas[i]))
  }

  /** A canonical target splits into its sheet, row and column. */
  lemma TargetParts(sheet: string, col: nat, row: nat, ranges: seq<string>)
    requires '!' !in sheet
    requires ranges != []
    ensures WithinRanges(AddressText(sheet, col, row), ranges) == ScanEntries(sheet, row, col, ranges)
  {
    var cell := CellText(col, row);
    NoSeparatorsInCell(col, row);
    assert AddressText(sheet, col, row) == sheet + ['!'] + cell;
    SplitOnceUnique(sheet, '!', cell);
    assert (sheet + ['!'] + cell)[|sheet|] == '!';
    CellParts(col, row);
  }

  lemma {:induction false} ScanAreas(sheet: string, col: nat, row: nat, areas: seq<Area>)
    requires forall i :: 0 <= i < |areas| ==> '!' !in areas[i].sheet
    ensures ScanEntries(sheet, row, col, AreaTexts(areas))
         == Returned(exists i :: 0 <= i < |areas| && Covers(areas[i], sheet, col, row))
    decreases |areas|
  {
    if areas != [] {
      AreaVerdict(areas[0], sheet, col, row);
      assert AreaTexts(areas)[1..] == AreaTexts(areas[1..]);
      ScanAreas(sheet, col, row, areas[1..]);
      assert forall i :: 1 <= i < |areas| ==> areas[i] == areas[1..][i - 1];
    }
  }

  /** For a target and ranges all written in canonical form on sheets without
      `!`, `address_within_ranges` never raises, and returns `True` exactly when
      some range lies on the target's sheet and holds its row and its column. */
  lemma WithinAreas(sheet: string, col: nat, row: nat, areas: seq<Area>)
    requires '!' !in sheet
    requires forall i :: 0 <= i < |areas| ==> '!' !in areas[i].sheet
    ensures WithinRanges(AddressText(sheet, col, row), AreaTexts(areas))
         == Returned(exists i :: 0 <= i < |areas| && Covers(areas[i], sheet, col, row))
  {
    if areas != [] {
      TargetParts(sheet, col, row, AreaTexts(areas));
      ScanAreas(sheet, col, row, areas);
    }
  }

  /** A range whose start row or start column lies after its end never holds
      the target: the code does not reorder the corners. */
  lemma ReversedAreaNeverContains(a: Area, sheet: string, col: nat, row: nat)
    requires '!' !in sheet && '!' !in a.sheet
    requires a.startRow > a.endRow || a.startCol > a.endCol
    ensures WithinRanges(AddressText(sheet, col, row), [AreaText(a)]) == Returned(false)
  {
    WithinAreas(sheet, col, row, [a]);
    assert AreaTexts([a]) == [AreaText(a)];
  }

  /** Ranges on other sheets never hold the target, whatever their bounds. */
  lemma OtherSheetsNeverContain(sheet: string, col: nat, row: nat, areas: seq<Area>)
    requires '!' !in sheet
    requires forall i :: 0 <= i < |areas| ==> '!' !in areas[i].sheet && areas[i].sheet != sheet
    ensures WithinRanges(AddressText(sheet, col, row), AreaTexts(areas))
         == Returned(false)
  {
    WithinAreas(sheet, col, row, areas);
  }

  /** A target with a second `!` raises as soon as there is a range to scan. */
  lemma TargetWithTwoSheetsRaises(target: string, ranges: seq<string>)
    requires TwoOrMore(target, '!') && ranges != []
    ensures WithinRanges(target, ranges) == RaisedValueError
  {
    var i, j :| 0 <= i < j < |target| && target[i] == '!' && target[j] == '!';
    assert '!' in target;
  }

  /** An entry on the target's sheet whose start or end holds no digit raises
      when the loop reaches it: the code checks the rows only after `int`. */
  lemma RowlessEntryRaises(sheet: string, row: int, col: int, start: string, end: string)
    requires '!' !in sheet && '!' !in start && '!' !in end && ':' !in start && ':' !in end
    requires Digits(start) == [] || Digits(end) == []
    ensures EntryVerdict(sheet, row, col, sheet + "!" + start + ":" + end) == Fails
  {
    var part := start + [':'] + end;
    assert sheet + "!" + start + ":" + end == sheet + ['!'] + part;
    assert '!' !in part;
    SplitOnceUnique(sheet, '!', part);
    SplitOnceUnique(start, ':', end);
  }

  lemma SmallTexts()
    ensures CellText(1, 1) == "A1" && CellText(2, 2) == "B2" && CellText(3, 3) == "C3"
    ensures CellText(4, 1) == "D1" && CellText(4, 4) == "D4" && CellText(5, 5) == "E5"
  {
    assert ColumnLetters(1) == "A" && ColumnLetters(2) == "B" && ColumnLetters(3) == "C";
    assert ColumnLetters(4) == "D" && ColumnLetters(5) == "E";
    assert DecimalString(1) == "1" && DecimalString(2) == "2" && DecimalString(3) == "3";
    assert DecimalString(4) == "4" && DecimalString(5) == "5";
  }

  /** tests/test_utils.py, `test_address_inside` */
  lemma AddressInsideCase()
    ensures WithinRanges("Sheet1!B2", ["Sheet1!A1:C3", "Sheet2!D4:E5"]) == Returned(true)
  {
    var a, b := Area("Sheet1", 1, 1, 3, 3), Area("Sheet2", 4, 4, 5, 5);
    SmallTexts();
    assert AreaText(a) == "Sheet1!A1:C3" && AreaText(b) == "Sheet2!D4:E5";
    assert AreaTexts([a, b]) == ["Sheet1!A1:C3", "Sheet2!D4:E5"];
    assert AddressText("Sheet1", 2, 2) == "Sheet1!B2";
    WithinAreas("Sheet1", 2, 2, [a, b]);
    assert Covers(a, "Sheet1", 2, 2);
  }

  /** tests/test_utils.py, `test_address_outside` */
  lemma AddressOutsideCase()
    ensures WithinRanges("Sheet1!D1", ["Sheet1!A1:C3"]) == Returned(false)
  {
    var a := Area("Sheet1", 1, 1, 3, 3);
    SmallTexts();
    assert AreaText(a) == "Sheet1!A1:C3";
    assert AreaTexts([a]) == ["Sheet1!A1:C3"];
    assert AddressText("Sheet1", 4, 1) == "Sheet1!D1";
    WithinAreas("Sheet1", 4, 1, [a]);
  }

  /** tests/test_utils.py, `test_sheet_mismatch` */
  lemma SheetMismatchCase()
    ensures WithinRanges("Sheet2!A1", ["Sheet1!A1:C3"]) == Returned(false)
  {
    var a := Area("Sheet1", 1, 1, 3, 3);
    SmallTexts();
    assert AreaText(a) == "Sheet1!A1:C3";
    assert AreaTexts([a]) == ["Sheet1!A1:C3"];
    assert AddressText("Sheet2", 1, 1) == "Sheet2!A1";
    WithinAreas("Sheet2", 1, 1, [a]);
  }
}
