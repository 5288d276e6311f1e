/** The outputs of the cells around an anchor in its column:
    `collect_column_outputs` of excel_mcp/utils.py.

    Cells are keyed by their coordinates. The source keys them by canonical
    address text (`A4`), and builds the texts it looks up from the anchor's
    column letters and a row number; `ColumnValueOfLetters` shows that those
    letters name the anchor's column again, so a lookup of `f"{column}{r}"` is
    a lookup of `Coord(col, r)`. Whether a text output parses as a number
    (`float(...)` succeeding) is the parameter `isNumber`. */
module ColumnContext {
  import opened Columns

  /** A cell position: column index from 1 (A = 1) and row from 1. */
  datatype Coord = Coord(col: int, row: int)

  /** A cell's `output`: absent or `None`, a number, or a text. Every number
      is one `float` accepts: the `OverflowError` of an int beyond the float
      range is not modelled. */
  datatype Output = Null | Number(value: real) | Text(text: string)

  /** A cell's dictionary: its `output` and whether it has a `formula` key. */
  datatype CellInfo = CellInfo(output: Output, hasFormula: bool)

  /** The most cells the upward scan records. */
  const UpwardCap := 100
  /** The most cells the downward scan records. */
  const DownwardCap := 10
  /** `text_limit` when the caller gives none. */
  const DefaultTextLimit := 3

  /** The last column openpyxl addresses, ZZZ. */
  const MaxColumn := 18278

  /** A position `coordinate_to_tuple` accepts: a row from 1 and a column of
      one to three letters, so at most `MaxColumn`. */
  predicate WellFormed(c: Coord) {
    1 <= c.col <= MaxColumn && c.row >= 1
  }

  /** A cell counts as text when it has no formula key and `float` rejects its
      output; a number or a formula never does. */
  predicate IsText(info: CellInfo, isNumber: string -> bool) {
    !info.hasFormula &&
    match info.output
    case Number(_) => false
    case Text(t) => !isNumber(t)
    case Null => true
  }

  /** `valid`: the cells whose output is not `None`. */
  function ValidCells(cells: map<Coord, CellInfo>): map<Coord, CellInfo>
  {
    map k | k in cells && cells[k].output != Null :: cells[k]
  }

  // ---------------------------------------------------------------------------
  // The reference definition

  /** One scan: the valid cells, the anchor's column and row, `text_limit`
      and the number test. */
  datatype Scan = Scan(valid: map<Coord, CellInfo>, col: int, row: int, textLimit: int, isNumber: string -> bool)

  function ScanOf(cells: map<Coord, CellInfo>, anchor: Coord, textLimit: int, isNumber: string -> bool): Scan {
    Scan(ValidCells(cells), anchor.col, anchor.row, textLimit, isNumber)
  }

  /** Row `r` of the column holds a valid cell (a text one when `textual`). */
  predicate Counted(s: Scan, r: int, textual: bool) {
    Coord(s.col, r) in s.valid && (textual ==> IsText(s.valid[Coord(s.col, r)], s.isNumber))
  }

  /** How many rows in [lo, hi) of the column are `Counted`. */
  function CountRows(s: Scan, lo: int, hi: int, textual: bool): nat
    decreases hi - lo
  {
    if hi <= lo then 0
    else CountRows(s, lo, hi - 1, textual) + (if Counted(s, hi - 1, textual) then 1 else 0)
  }

  /** Scanning up, row `r` ends the scan: it is the 100th valid cell above the
      anchor, or a text cell at which the running count of text cells, which
      nothing resets, reaches `text_limit`. */
  predicate StopsUp(s: Scan, r: int) {
    Counted(s, r, false) &&
    (CountRows(s, r, s.row, false) >= UpwardCap ||
     (Counted(s, r, true) && CountRows(s, r, s.row, true) >= s.textLimit))
  }

  /** Scanning up reaches row `r`: no row between it and the anchor ended the scan. */
  predicate KeptUp(s: Scan, r: int) {
    forall r' :: r < r' < s.row ==> !StopsUp(s, r')
  }

  /** Scanning down, row `r` ends the scan: it is the 10th valid cell below the
      anchor, or a text cell. */
  predicate StopsDown(s: Scan, r: int) {
    Counted(s, r, false) &&
    (CountRows(s, s.row + 1, r + 1, false) >= DownwardCap || Counted(s, r, true))
  }

  /** Scanning down reaches row `r`. */
  predicate KeptDown(s: Scan, r: int) {
    forall r' :: s.row < r' < r ==> !StopsDown(s, r')
  }

  /** The upward scan records `k`. */
  predicate UpRecorded(s: Scan, k: Coord) {
    k.col == s.col && k in s.valid && 1 <= k.row < s.row && KeptUp(s, k.row)
  }

  /** The downward scan records `k`. */
  predicate DownRecorded(s: Scan, k: Coord) {
    k.col == s.col && k in s.valid && s.row < k.row && KeptDown(s, k.row)
  }

  /** `k` is a key of the result of `collect_column_outputs`. */
  predicate Collected(cells: map<Coord, CellInfo>, anchor: Coord, textLimit: int, isNumber: string -> bool, k: Coord) {
    var s := ScanOf(cells, anchor, textLimit, isNumber);
    (k == anchor && anchor in cells) || UpRecorded(s, k) || DownRecorded(s, k)
  }

  // ---------------------------------------------------------------------------
  // The operation

  /** `max(row of a for a in valid, default=default)` */
  method MaxRow(valid: map<Coord, CellInfo>, default: int) returns (m: int)
    ensures forall k | k in valid :: k.row <= m
    ensures valid == map[] ==> m == default
    ensures valid != map[] ==> exists k | k in valid :: k.row == m
  {
    var rest := valid.Keys;
    var seen := false;
    m := default;
    while rest != {}
      invariant rest <= valid.Keys
      invariant forall k | k in valid.Keys - rest :: k.row <= m
      invariant seen <==> rest != valid.Keys
      invariant !seen ==> m == default
      invariant seen ==> exists k | k in valid.Keys - rest :: k.row == m
      decreases rest
    {
      var k :| k in rest;
      if !seen || k.row > m {
        m := k.row;
      }
      seen := true;
      rest := rest - {k};
    }
    assert valid == map[] <==> valid.Keys == {};
  }

  /** The upward scan of `collect_column_outputs`: rows row - 1, row - 2, ...,
      1, recording each valid cell until the 100th one or the text cell at
      which the running count of text cells reaches `text_limit`. */
  method ScanUpward(valid: map<Coord, CellInfo>, column: string, row: int, textLimit: int,
                    isNumber: string -> bool, ghost s: Scan)
    returns (result: map<Coord, Output>)
    requires row >= 1
    requires s == Scan(valid, ColumnNumber(column), row, textLimit, isNumber)
    ensures forall k :: k in result <==> UpRecorded(s, k)
    ensures forall k | k in result :: k in valid && result[k] == valid[k].output
  {
    result := map[];
    var consecutiveText := 0;
    var current := row - 1;
    var inspected := 0;
    while current >= 1 && inspected < UpwardCap
      invariant 0 <= current < row
      invariant inspected == CountRows(s, current + 1, row, false) <= UpwardCap
      invariant consecutiveText == CountRows(s, current + 1, row, true)
      invariant KeptUp(s, current + 1)
      invariant current + 1 < row && StopsUp(s, current + 1) ==> inspected == UpwardCap
      invariant inspected == UpwardCap ==> StopsUp(s, current + 1)
      invariant result == Recorded(s, current + 1, row)
    {
      var addr := Coord(ColumnNumber(column), current);
      CountFront(s, current, row, false);
      CountFront(s, current, row, true);
      RecordedFront(s, current, row);
      if addr in valid {
        var info := valid[addr];
        result := result[addr := info.output];
        inspected := inspected + 1;
        if !info.hasFormula {
          var isNum := info.output.Number? || (info.output.Text? && isNumber(info.output.text));
          if !isNum {
            consecutiveText := consecutiveText + 1;
            if consecutiveText >= textLimit {
              // The scan ends here, with this row recorded.
              assert StopsUp(s, current);
              UpwardResult(s, current, result);
              return;
            }
          }
        }
      }
      current := current - 1;
    }
    // The scan ran out of rows or reached the cap.
    UpwardResult(s, current + 1, result);
  }

  /** The downward scan of `collect_column_outputs`: rows row + 1, row + 2,
      ..., no further than `maxRow`, adding each valid cell to `upper` until
      the 10th one or the first text cell. */
  method ScanDownward(valid: map<Coord, CellInfo>, column: string, row: int, maxRow: int,
                      isNumber: string -> bool, ghost s: Scan, upper: map<Coord, Output>)
    returns (result: map<Coord, Output>)
    requires s.valid == valid && s.col == ColumnNumber(column) && s.row == row && s.isNumber == isNumber
    requires forall k | k in valid :: k.row <= maxRow
    ensures forall k :: k in result <==> k in upper || DownRecorded(s, k)
    ensures forall k | k in result :: result[k] == if DownRecorded(s, k) then valid[k].output else upper[k]
  {
    result := upper;
    RecordedEmpty(upper, s, row + 1);
    var current := row + 1;
    var added := 0;
    while current <= maxRow && added < DownwardCap
      invariant row + 1 <= current
      invariant current <= maxRow + 1 || current == row + 1
      invariant added == CountRows(s, row + 1, current, false) <= DownwardCap
      invariant forall r :: row < r < current - 1 ==> !StopsDown(s, r)
      invariant row + 1 < current && StopsDown(s, current - 1) ==> added == DownwardCap
      invariant added == DownwardCap ==> StopsDown(s, current - 1)
      invariant result == upper + Recorded(s, row + 1, current)
      decreases maxRow - current
    {
      var addr := Coord(ColumnNumber(column), current);
      if addr in valid {
        var info := valid[addr];
        ExtendCounted(upper, s, row + 1, current);
        result := result[addr := info.output];
        added := added + 1;
        if !info.hasFormula {
          var isNum := info.output.Number? || (info.output.Text? && isNumber(info.output.text));
          if !isNum {
            // The scan ends at this text cell, with it recorded.
            assert StopsDown(s, current);
            DownwardResult(s, current, upper, result);
            return;
          }
        }
      } else {
        ExtendSkipped(upper, s, row + 1, current);
      }
      current := current + 1;
    }
    // The scan passed the last valid row or reached the cap.
    DownwardResult(s, current - 1, upper, result);
  }

  /** `collect_column_outputs`: scan up from the anchor, then add the anchor,
      then scan down, recording the outputs of the valid cells met. */
  method CollectColumnOutputs(cells: map<Coord, CellInfo>, anchor: Coord, isNumber: string -> bool,
                              textLimit: int := DefaultTextLimit)
    returns (result: map<Coord, Output>)
    requires WellFormed(anchor)
    requires forall k | k in cells && cells[k].output != Null :: WellFormed(k)
    ensures forall k :: k in result <==> Collected(cells, anchor, textLimit, isNumber, k)
    ensures forall k | k in result :: k in cells && result[k] == cells[k].output
    ensures forall k | k in result :: k.col == anchor.col
    ensures forall k | k in result && k != anchor :: cells[k].output != Null
    ensures anchor in result <==> anchor in cells
  {
    var row, colIdx := anchor.row, anchor.col;
    var column := ColumnLetters(colIdx);
    NumberOfLetters(colIdx);

    var valid := ValidCells(cells);
    ghost var s := ScanOf(cells, anchor, textLimit, isNumber);
    result := ScanUpward(valid, column, row, textLimit, isNumber, s);

    if anchor in cells {
      result := result[anchor := cells[anchor].output];
    }

    var maxRow := MaxRow(valid, row);
    result := ScanDownward(valid, column, row, maxRow, isNumber, s, result);
  }

  // ---------------------------------------------------------------------------
  // Lemmas the operation uses

  /** The outputs of the valid cells of the scanned column whose row lies in
      [lo, hi), added row by row from the bottom. */
  ghost function Recorded(s: Scan, lo: int, hi: int): map<Coord, Output>
    decreases hi - lo
  {
    if hi <= lo then map[]
    else if Counted(s, hi - 1, false) then
      Recorded(s, lo, hi - 1)[Coord(s.col, hi - 1) := s.valid[Coord(s.col, hi - 1)].output]
    else Recorded(s, lo, hi - 1)
  }

  /** The keys and values of `Recorded`. */
  lemma {:induction false} RecordedContents(s: Scan, lo: int, hi: int)
    ensures forall k :: k in Recorded(s, lo, hi) <==> k in s.valid && k.col == s.col && lo <= k.row < hi
    ensures forall k | k in Recorded(s, lo, hi) :: Recorded(s, lo, hi)[k] == s.valid[k].output
    decreases hi - lo
  {
    if lo < hi {
      RecordedContents(s, lo, hi - 1);
    }
  }

  /** `Recorded` grown from the top instead. */
  lemma {:induction false} RecordedFront(s: Scan, lo: int, hi: int)
    requires lo < hi
    ensures Recorded(s, lo, hi) ==
      if Counted(s, lo, false) then Recorded(s, lo + 1, hi)[Coord(s.col, lo) := s.valid[Coord(s.col, lo)].output]
      else Recorded(s, lo + 1, hi)
    decreases hi - lo
  {
    if lo + 1 < hi {
      RecordedFront(s, lo, hi - 1);
      RecordedContents(s, lo, hi);
      RecordedContents(s, lo + 1, hi);
    }
  }

  lemma RecordedEmpty(m: map<Coord, Output>, s: Scan, lo: int)
    ensures m + Recorded(s, lo, lo) == m
  {
  }

  /** One row more of the downward scan, on top of what is already recorded:
      a valid cell there is added, ... */
  lemma ExtendCounted(m: map<Coord, Output>, s: Scan, lo: int, hi: int)
    requires lo <= hi && Counted(s, hi, false)
    ensures (m + Recorded(s, lo, hi))[Coord(s.col, hi) := s.valid[Coord(s.col, hi)].output] == m + Recorded(s, lo, hi + 1)
  {
  }

  /** ... and a row without one changes nothing. */
  lemma ExtendSkipped(m: map<Coord, Output>, s: Scan, lo: int, hi: int)
    requires lo <= hi && !Counted(s, hi, false)
    ensures m + Recorded(s, lo, hi) == m + Recorded(s, lo, hi + 1)
  {
  }

  /** Counting from the low end of the interval. */
  lemma {:induction false} CountFront(s: Scan, lo: int, hi: int, textual: bool)
    requires lo < hi
    ensures CountRows(s, lo, hi, textual)
         == (if Counted(s, lo, textual) then 1 else 0) + CountRows(s, lo + 1, hi, textual)
    decreases hi - lo
  {
    if lo + 1 < hi {
      CountFront(s, lo, hi - 1, textual);
    }
  }

  /** Where the upward scan ends decides what it recorded: the rows from
      `bottom` up are exactly the rows it reaches. */
  lemma UpwardResult(s: Scan, bottom: int, result: map<Coord, Output>)
    requires 1 <= bottom <= s.row
    requires KeptUp(s, bottom)
    requires bottom == 1 || (bottom < s.row && StopsUp(s, bottom))
    requires result == Recorded(s, bottom, s.row)
    ensures forall k :: k in result <==> UpRecorded(s, k)
    ensures forall k | k in result :: k in s.valid && result[k] == s.valid[k].output
  {
    RecordedContents(s, bottom, s.row);
    forall r | 1 <= r < bottom
      ensures !KeptUp(s, r)
    {
      assert r < bottom < s.row && StopsUp(s, bottom);
    }
  }

  /** Where the downward scan ends decides what it added: the valid rows up to
      `top` are exactly the rows it reaches. */
  lemma DownwardResult(s: Scan, top: int, upper: map<Coord, Output>, result: map<Coord, Output>)
    requires s.row <= top
    requires forall r :: s.row < r < top ==> !StopsDown(s, r)
    requires (s.row < top && StopsDown(s, top)) || forall r :: r > top ==> !Counted(s, r, false)
    requires result == upper + Recorded(s, s.row + 1, top + 1)
    ensures forall k :: k in result <==> k in upper || DownRecorded(s, k)
    ensures forall k | k in result :: result[k] == if DownRecorded(s, k) then s.valid[k].output else upper[k]
  {
    RecordedContents(s, s.row + 1, top + 1);
    forall r | top < r && Counted(s, r, false)
      ensures !KeptDown(s, r)
    {
      assert s.row < top < r && StopsDown(s, top);
    }
  }

  // ---------------------------------------------------------------------------
  // Properties of the scans

  /** A cell whose output is `None` is invisible to both scans: dropping it,
      unless it is the anchor, changes nothing that is collected. */
  lemma NullCellsInvisible(cells: map<Coord, CellInfo>, anchor: Coord, textLimit: int,
                           isNumber: string -> bool, k: Coord)
    requires k in cells && cells[k].output == Null && k != anchor
    ensures forall c :: Collected(cells, anchor, textLimit, isNumber, c)
                    <==> Collected(cells - {k}, anchor, textLimit, isNumber, c)
  {
    assert ValidCells(cells) == ValidCells(cells - {k});
  }

  /** Counting down from `hi`, the count of rows reaches every value up to its
      total at some counted row. */
  lemma {:induction false} CountReachedFromAbove(s: Scan, lo: int, hi: int, textual: bool, n: int)
    requires 1 <= n
    ensures CountRows(s, lo, hi, textual) >= n ==>
      exists r :: lo <= r < hi && Counted(s, r, textual) && CountRows(s, r, hi, textual) == n
    decreases hi - lo
  {
    if lo < hi {
      CountFront(s, lo, hi, textual);
      CountReachedFromAbove(s, lo + 1, hi, textual, n);
      if CountRows(s, lo + 1, hi, textual) < n && CountRows(s, lo, hi, textual) >= n {
        assert Counted(s, lo, textual) && CountRows(s, lo, hi, textual) == n;
      }
    }
  }

  /** Counting up from `lo`, likewise. */
  lemma {:induction false} CountReachedFromBelow(s: Scan, lo: int, hi: int, textual: bool, n: int)
    requires 1 <= n
    ensures CountRows(s, lo, hi, textual) >= n ==>
      exists r :: lo <= r < hi && Counted(s, r, textual) && CountRows(s, lo, r + 1, textual) == n
    decreases hi - lo
  {
    if lo < hi {
      CountReachedFromBelow(s, lo, hi - 1, textual, n);
      if CountRows(s, lo, hi - 1, textual) < n && CountRows(s, lo, hi, textual) >= n {
        assert Counted(s, hi - 1, textual) && CountRows(s, lo, hi, textual) == n;
      }
    }
  }

  /** The upward scan records at most 100 cells: every row it reaches has at
      most 100 valid cells from there up to the anchor. */
  lemma UpwardAtMostCap(s: Scan, k: Coord)
    requires UpRecorded(s, k)
    ensures CountRows(s, k.row, s.row, false) <= UpwardCap
  {
    CountFront(s, k.row, s.row, false);
    CountReachedFromAbove(s, k.row + 1, s.row, false, UpwardCap);
    assert forall r :: k.row < r < s.row && Counted(s, r, false) && CountRows(s, r, s.row, false) == UpwardCap ==>
      StopsUp(s, r);
  }

  /** Above a recorded cell there are fewer text cells than `text_limit` (and
      none when `text_limit` is below 1): the text count is never reset. */
  lemma UpwardTextBelowLimit(s: Scan, k: Coord)
    requires UpRecorded(s, k)
    ensures CountRows(s, k.row + 1, s.row, true) < if s.textLimit < 1 then 1 else s.textLimit
  {
    var limit := if s.textLimit < 1 then 1 else s.textLimit;
    CountReachedFromAbove(s, k.row + 1, s.row, true, limit);
    assert forall r :: k.row < r < s.row && Counted(s, r, true) && CountRows(s, r, s.row, true) == limit ==>
      StopsUp(s, r);
  }

  /** The downward scan records at most 10 cells. */
  lemma DownwardAtMostCap(s: Scan, k: Coord)
    requires DownRecorded(s, k)
    ensures CountRows(s, s.row + 1, k.row + 1, false) <= DownwardCap
  {
    CountReachedFromBelow(s, s.row + 1, k.row, false, DownwardCap);
    assert forall r :: s.row < r < k.row && Counted(s, r, false) && CountRows(s, s.row + 1, r + 1, false) == DownwardCap ==>
      StopsDown(s, r);
  }

  /** The downward scan passes no text cell: the first one it meets is the
      last cell it records. */
  lemma DownwardNoTextBefore(s: Scan, k: Coord)
    requires DownRecorded(s, k)
    ensures CountRows(s, s.row + 1, k.row, true) == 0
  {
    CountReachedFromBelow(s, s.row + 1, k.row, true, 1);
    assert forall r :: s.row < r < k.row && Counted(s, r, true) ==> StopsDown(s, r);
  }

  // ---------------------------------------------------------------------------
  // Examples

  /** The column of the basic scan: a text header, a number, a formula cell, the
      anchor A4 and a text cell below it. */
  function BasicColumn(): map<Coord, CellInfo> {
    map[Coord(1, 1) := CellInfo(Text("Header"), false),
        Coord(1, 2) := CellInfo(Number(5.0), false),
        Coord(1, 3) := CellInfo(Text("x"), true),
        Coord(1, 4) := CellInfo(Number(10.0), false),
        Coord(1, 5) := CellInfo(Text("stop"), false)]
  }

  /** With `text_limit` 1 from A4, the upward scan reaches the header (the
      formula cell is not text) and the downward scan takes the text cell and
      stops: every cell is collected. */
  lemma BasicScanExample(isNumber: string -> bool)
    requires !isNumber("Header") && !isNumber("stop")
    ensures forall k :: Collected(BasicColumn(), Coord(1, 4), 1, isNumber, k) <==> k in BasicColumn()
  {
    var cells := BasicColumn();
    var s := ScanOf(cells, Coord(1, 4), 1, isNumber);
    assert s.valid == cells;
    assert !StopsUp(s, 2) && !StopsUp(s, 3);
    assert KeptUp(s, 1) && KeptUp(s, 2) && KeptUp(s, 3);
    assert UpRecorded(s, Coord(1, 1)) && UpRecorded(s, Coord(1, 2)) && UpRecorded(s, Coord(1, 3));
    assert DownRecorded(s, Coord(1, 5));
  }

  /** A column where a number sits between two text cells above the anchor A5. */
  function MixedColumn(): map<Coord, CellInfo> {
    map[Coord(1, 1) := CellInfo(Text("v"), false),
        Coord(1, 2) := CellInfo(Text("u"), false),
        Coord(1, 3) := CellInfo(Number(1.0), false),
        Coord(1, 4) := CellInfo(Text("t"), false),
        Coord(1, 5) := CellInfo(Number(2.0), false)]
  }

  /** The number at A3 does not reset the text count: with `text_limit` 2 the
      scan stops at A2, the second text cell, and never reaches A1. */
  lemma CounterNotReset(isNumber: string -> bool)
    requires !isNumber("t") && !isNumber("u")
    ensures Collected(MixedColumn(), Coord(1, 5), 2, isNumber, Coord(1, 2))
    ensures !Collected(MixedColumn(), Coord(1, 5), 2, isNumber, Coord(1, 1))
  {
    var cells := MixedColumn();
    var s := ScanOf(cells, Coord(1, 5), 2, isNumber);
    assert s.valid == cells;
    assert !StopsUp(s, 3) && !StopsUp(s, 4);
    assert KeptUp(s, 2);
    assert StopsUp(s, 2);
  }
}
