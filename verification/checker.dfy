/**
 The solution checker `isSolution` and its helpers. `__checkRow` and
 `__checkCol` accept a list exactly when every digit 1..9 occurs in it,
 which for nine cells means the list is a permutation of 1..9.
 `__checkBoxes` never empties its accumulator `vals`, so only the first
 box is really tested; `CheckEachBox` is the per-box test it was evidently
 meant to be.
 */
module Checker {
  import opened Grid
  import opened Boards
  import opened Lists
  import opened Candidates

  /** The loop `for num in range(num, 10): if num not in xs: return False`. */
  function EveryDigitFrom(xs: seq<int>, num: int): (ok: bool)
    requires 1 <= num <= 10
    ensures ok <==> forall d :: num <= d <= 9 ==> d in xs
    decreases 10 - num
  {
    if num == 10 then true
    else if num !in xs then false
    else EveryDigitFrom(xs, num + 1)
  }

  /** Every digit 1..9 occurs in `xs`. */
  function HasEveryDigit(xs: seq<int>): (ok: bool)
    ensures ok <==> forall d :: 1 <= d <= 9 ==> d in xs
  {
    EveryDigitFrom(xs, 1)
  }

  /** The nine entries are the digits 1..9, each once. */
  predicate IsDigitPermutation(xs: seq<int>) {
    && |xs| == 9
    && (forall i :: 0 <= i < |xs| ==> 1 <= xs[i] <= 9)
    && NoDup(xs)
  }

  /** `__checkRow`: every digit occurs; on nine cells, a permutation of 1..9. */
  function CheckRow(row: seq<int>): (ok: bool)
    ensures ok <==> forall d :: 1 <= d <= 9 ==> d in row
    ensures |row| == 9 ==> (ok <==> IsDigitPermutation(row))
  {
    assert |row| == 9 ==> (HasEveryDigit(row) <==> IsDigitPermutation(row)) by {
      if |row| == 9 {
        NineCellsHoldEveryDigit(row);
      }
    }
    HasEveryDigit(row)
  }

  /** `__checkCol`: the same test as `__checkRow`. */
  function CheckCol(col: seq<int>): (ok: bool)
    ensures ok <==> forall d :: 1 <= d <= 9 ==> d in col
    ensures |col| == 9 ==> (ok <==> IsDigitPermutation(col))
  {
    CheckRow(col)
  }

  // ---------------------------------------------------------------------
  // Nine cells hold every digit iff they are a permutation of 1..9.

  function ToSet(xs: seq<int>): set<int> {
    set x | x in xs
  }

  const DIGITS: seq<int> := [1, 2, 3, 4, 5, 6, 7, 8, 9]

  lemma {:induction false} ToSetSize(xs: seq<int>)
    ensures |ToSet(xs)| <= |xs|
    ensures |ToSet(xs)| == |xs| <==> NoDup(xs)
  {
    if |xs| > 0 {
      var t := xs[1..];
      ToSetSize(t);
      assert ToSet(xs) == {xs[0]} + ToSet(t);
      if xs[0] in t {
        assert ToSet(xs) == ToSet(t);
        var j :| 0 <= j < |t| && t[j] == xs[0];
        assert xs[0] == xs[j + 1];
      } else {
        assert |ToSet(xs)| == 1 + |ToSet(t)|;
        if NoDup(t) {
          forall i, j | 0 <= i < j < |xs| ensures xs[i] != xs[j] {
            if i > 0 {
              assert xs[i] == t[i - 1] && xs[j] == t[j - 1];
            } else {
              assert xs[j] == t[j - 1];
            }
          }
        }
        if NoDup(xs) {
          forall i, j | 0 <= i < j < |t| ensures t[i] != t[j] {
            assert t[i] == xs[i + 1] && t[j] == xs[j + 1];
          }
        }
      }
    } else {
      assert ToSet(xs) == {};
    }
  }

  lemma DigitSet()
    ensures forall d :: 1 <= d <= 9 ==> d in ToSet(DIGITS)
    ensures forall x :: x in ToSet(DIGITS) ==> 1 <= x <= 9
    ensures |ToSet(DIGITS)| == 9
  {
    ToSetSize(DIGITS);
    assert NoDup(DIGITS);
    forall d | 1 <= d <= 9 ensures d in DIGITS {
      assert DIGITS[d - 1] == d;
    }
  }

  lemma SubsetOfSameSize(a: set<int>, b: set<int>)
    requires a <= b && |b| <= |a|
    ensures a == b
  {
    assert b == a + (b - a);
    assert |b| == |a| + |b - a|;
    assert |b - a| == 0;
  }

  /** Nine cells show every digit exactly when they hold a permutation of 1..9. */
  lemma NineCellsHoldEveryDigit(row: seq<int>)
    requires |row| == 9
    ensures (forall d :: 1 <= d <= 9 ==> d in row) <==> IsDigitPermutation(row)
  {
    DigitSet();
    ToSetSize(row);
    var digits := ToSet(DIGITS);
    var vals := ToSet(row);
    if forall d :: 1 <= d <= 9 ==> d in row {
      assert digits <= vals;
      SubsetOfSameSize(digits, vals);
      forall i | 0 <= i < 9 ensures 1 <= row[i] <= 9 {
        assert row[i] in vals;
      }
    }
    if IsDigitPermutation(row) {
      assert vals <= digits;
      SubsetOfSameSize(vals, digits);
      forall d | 1 <= d <= 9 ensures d in row {
        assert d in digits;
        assert d in vals;
      }
    }
  }

  // ---------------------------------------------------------------------
  // The board-level checks.

  /** The values of row `r`, columns 1..9 (the list `__checkRows` builds). */
  function RowOf(b: Board, r: int): (row: seq<int>)
    requires HasAllCells(b) && 0 <= r < 9
    ensures |row| == 9 && forall c :: 0 <= c < 9 ==> row[c] == b[Name(r, c)]
  {
    seq(9, c requires 0 <= c < 9 => b[Name(r, c)])
  }

  /** The values of column `c`, rows A..I (the list `__checkCols` builds). */
  function ColOf(b: Board, c: int): (col: seq<int>)
    requires HasAllCells(b) && 0 <= c < 9
    ensures |col| == 9 && forall r :: 0 <= r < 9 ==> col[r] == b[Name(r, c)]
  {
    seq(9, r requires 0 <= r < 9 => b[Name(r, c)])
  }

  /** The values of box `k` in list order. */
  function BoxOf(b: Board, k: int): (vals: seq<int>)
    requires HasAllCells(b) && 0 <= k < 9
    ensures |BOXES[k]| == 9 && forall i :: 0 <= i < 9 ==> BOXES[k][i] in b
    ensures |vals| == 9 && forall i :: 0 <= i < 9 ==> vals[i] == b[BOXES[k][i]]
  {
    BoxCellsAreCells();
    BoxShapeAt(k);
    ValuesOf(BOXES[k], b)
  }

  /** `__checkRows` from row `r` on. */
  function CheckRowsFrom(b: Board, r: int): (ok: bool)
    requires HasAllCells(b) && 0 <= r <= 9
    ensures ok <==> forall r' :: r <= r' < 9 ==> IsDigitPermutation(RowOf(b, r'))
    decreases 9 - r
  {
    if r == 9 then true
    else if !CheckRow(RowOf(b, r)) then false
    else CheckRowsFrom(b, r + 1)
  }

  /** `__checkRows`: every row holds the digits 1..9 once each. */
  function CheckRows(b: Board): (ok: bool)
    requires HasAllCells(b)
    ensures ok <==> forall r :: 0 <= r < 9 ==> IsDigitPermutation(RowOf(b, r))
  {
    CheckRowsFrom(b, 0)
  }

  /** `__checkCols` from column `c` on. */
  function CheckColsFrom(b: Board, c: int): (ok: bool)
    requires HasAllCells(b) && 0 <= c <= 9
    ensures ok <==> forall c' :: c <= c' < 9 ==> IsDigitPermutation(ColOf(b, c'))
    decreases 9 - c
  {
    if c == 9 then true
    else if !CheckCol(ColOf(b, c)) then false
    else CheckColsFrom(b, c + 1)
  }

  /** `__checkCols`: every column holds the digits 1..9 once each. */
  function CheckCols(b: Board): (ok: bool)
    requires HasAllCells(b)
    ensures ok <==> forall c :: 0 <= c < 9 ==> IsDigitPermutation(ColOf(b, c))
  {
    CheckColsFrom(b, 0)
  }

  /** The loop of `__checkBoxes` from box `k` on, `vals` holding the values
      of every box before `k` (it is never reset). */
  function CheckBoxesFrom(b: Board, k: int, vals: seq<int>): (ok: bool)
    requires HasAllCells(b) && 0 <= k <= 9
    ensures k == 9 ==> ok
    ensures k < 9 ==> (ok <==> HasEveryDigit(vals + BoxOf(b, k)))
    decreases 9 - k
  {
    if k == 9 then true
    else
      var vals' := vals + BoxOf(b, k);
      if !HasEveryDigit(vals') then false
      else
        assert k + 1 < 9 ==> HasEveryDigit(vals' + BoxOf(b, k + 1)) by {
          if k + 1 < 9 {
            assert forall d :: d in vals' ==> d in vals' + BoxOf(b, k + 1);
          }
        }
        CheckBoxesFrom(b, k + 1, vals')
  }

  /** Once the accumulated values hold every digit, no later box can fail. */
  lemma {:induction false} CompleteAccumulatorPasses(b: Board, k: int, vals: seq<int>)
    requires HasAllCells(b) && 0 <= k <= 9
    requires HasEveryDigit(vals)
    ensures CheckBoxesFrom(b, k, vals)
    decreases 9 - k
  {
    if k < 9 {
      var vals' := vals + BoxOf(b, k);
      assert forall d :: d in vals ==> d in vals';
      CompleteAccumulatorPasses(b, k + 1, vals');
    }
  }

  /** `__checkBoxes` as written: because `vals` accumulates, it succeeds
      exactly when the first box (A1..C3) holds the digits 1..9; boxes 2-9
      are never really tested. */
  function CheckBoxes(b: Board): (ok: bool)
    requires HasAllCells(b)
    ensures ok <==> IsDigitPermutation(BoxOf(b, 0))
  {
    var first := BoxOf(b, 0);
    assert [] + first == first;
    assert HasEveryDigit(first) ==> CheckBoxesFrom(b, 1, first) by {
      if HasEveryDigit(first) {
        CompleteAccumulatorPasses(b, 1, first);
      }
    }
    NineCellsHoldEveryDigit(first);
    CheckBoxesFrom(b, 0, [])
  }

  /** `isSolution` as written: rows, columns, and the first box only. */
  function IsSolution(b: Board): (ok: bool)
    requires HasAllCells(b)
    ensures ok <==>
              && (forall r :: 0 <= r < 9 ==> IsDigitPermutation(RowOf(b, r)))
              && (forall c :: 0 <= c < 9 ==> IsDigitPermutation(ColOf(b, c)))
              && IsDigitPermutation(BoxOf(b, 0))
  {
    if !CheckRows(b) then false
    else if !CheckCols(b) then false
    else if !CheckBoxes(b) then false
    else true
  }

  // ---------------------------------------------------------------------
  // The evidently intended box check.

  /** Each box from `k` on holds the digits 1..9, `vals` reset per box. */
  function CheckEachBoxFrom(b: Board, k: int): (ok: bool)
    requires HasAllCells(b) && 0 <= k <= 9
    ensures ok <==> forall k' :: k <= k' < 9 ==> IsDigitPermutation(BoxOf(b, k'))
    decreases 9 - k
  {
    if k == 9 then true
    else
      NineCellsHoldEveryDigit(BoxOf(b, k));
      if !HasEveryDigit(BoxOf(b, k)) then false else CheckEachBoxFrom(b, k + 1)
  }

  /** Every box holds the digits 1..9 once each. */
  function CheckEachBox(b: Board): (ok: bool)
    requires HasAllCells(b)
    ensures ok <==> forall k :: 0 <= k < 9 ==> IsDigitPermutation(BoxOf(b, k))
  {
    CheckEachBoxFrom(b, 0)
  }

  /** A solved grid: each of the 27 regions holds the digits 1..9 once each. */
  ghost predicate ValidSudoku(b: Board)
    requires HasAllCells(b)
  {
    && (forall r :: 0 <= r < 9 ==> IsDigitPermutation(RowOf(b, r)))
    && (forall c :: 0 <= c < 9 ==> IsDigitPermutation(ColOf(b, c)))
    && (forall k :: 0 <= k < 9 ==> IsDigitPermutation(BoxOf(b, k)))
  }

  /** The full check the solver evidently intends: rows, columns and every box. */
  function IsValidSolution(b: Board): (ok: bool)
    requires HasAllCells(b)
    ensures ok <==> ValidSudoku(b)
  {
    CheckRows(b) && CheckCols(b) && CheckEachBox(b)
  }

  // ---------------------------------------------------------------------
  // A grid `isSolution` accepts although it is not solved: every row is a
  // cyclic shift of 1..9 and the shifts are chosen so that the columns and
  // the first box are complete, but box 4 (D1..F3) shows 3 twice.

  const SHIFTS: seq<int> := [0, 3, 6, 1, 2, 4, 5, 7, 8]

  /** The digit in row r, column c: 1..9 shifted cyclically by SHIFTS[r]. */
  function Shifted(r: int, c: int): int
    requires 0 <= r < 9 && 0 <= c < 9
  {
    Rotate(SHIFTS[r], c)
  }

  /** Digit c + 1 moved on by s places around 1..9. */
  function Rotate(s: int, c: int): (d: int)
    requires 0 <= s < 9 && 0 <= c < 9
    ensures 1 <= d <= 9
  {
    if s + c < 9 then s + c + 1 else s + c - 8
  }

  function ShiftedBoard(): (b: Board)
    ensures HasAllCells(b)
    ensures forall r, c :: 0 <= r < 9 && 0 <= c < 9 ==> b[Name(r, c)] == Shifted(r, c)
  {
    CellsHaveIndex();
    var b := map k | k in Cells :: Shifted(CellIndex(k) / 9, CellIndex(k) % 9);
    assert forall r, c :: 0 <= r < 9 && 0 <= c < 9 ==> Name(r, c) in b && b[Name(r, c)] == Shifted(r, c) by {
      forall r, c | 0 <= r < 9 && 0 <= c < 9 ensures Name(r, c) in b && b[Name(r, c)] == Shifted(r, c) {
        assert Name(r, c) in Cells;
        CellIndexOfName(r, c);
        RowMajorSplit(r, c);
      }
    }
    b
  }

  lemma ShiftInjective(x: int, y: int, c: int)
    requires 0 <= x < 9 && 0 <= y < 9 && 0 <= c < 9 && x != y
    ensures Rotate(x, c) != Rotate(y, c)
  {
  }

  lemma RotateInjective(s: int, i: int, j: int)
    requires 0 <= s < 9 && 0 <= i < 9 && 0 <= j < 9 && i != j
    ensures Rotate(s, i) != Rotate(s, j)
  {
  }

  lemma ShiftedRows(b: Board, r: int)
    requires HasAllCells(b) && 0 <= r < 9
    requires forall c :: 0 <= c < 9 ==> b[Name(r, c)] == Shifted(r, c)
    ensures IsDigitPermutation(RowOf(b, r))
  {
    var row := RowOf(b, r);
    forall i, j | 0 <= i < j < 9 ensures row[i] != row[j] {
      RotateInjective(SHIFTS[r], i, j);
    }
  }

  lemma ShiftedCols(b: Board, c: int)
    requires HasAllCells(b) && 0 <= c < 9
    requires forall r :: 0 <= r < 9 ==> b[Name(r, c)] == Shifted(r, c)
    ensures IsDigitPermutation(ColOf(b, c))
  {
    var col := ColOf(b, c);
    ShiftsDistinct();
    forall i, j | 0 <= i < j < 9 ensures col[i] != col[j] {
      assert col[i] == Shifted(i, c) && col[j] == Shifted(j, c);
      ShiftInjective(SHIFTS[i], SHIFTS[j], c);
    }
  }

  /** The row shifts are nine different numbers 0..8: `UNSHIFT` undoes them. */
  const UNSHIFT: seq<int> := [0, 3, 4, 1, 5, 6, 2, 7, 8]

  lemma ShiftsDistinct()
    ensures forall i :: 0 <= i < 9 ==> 0 <= SHIFTS[i] < 9 && UNSHIFT[SHIFTS[i]] == i
  {
    forall i | 0 <= i < 9 ensures 0 <= SHIFTS[i] < 9 && UNSHIFT[SHIFTS[i]] == i {
      assert i == 0 || i == 1 || i == 2 || i == 3 || i == 4 || i == 5 || i == 6 || i == 7 || i == 8;
    }
  }

  /** `isSolution` as written accepts a grid in which a box repeats a
      digit; the full check rejects it. */
  lemma IsSolutionAcceptsUnsolvedGrid()
    ensures IsSolution(ShiftedBoard())
    ensures !IsValidSolution(ShiftedBoard())
    ensures BoxOf(ShiftedBoard(), 3)[1] == BoxOf(ShiftedBoard(), 3)[3] == 3
  {
    var b := ShiftedBoard();
    forall r | 0 <= r < 9 ensures IsDigitPermutation(RowOf(b, r)) {
      ShiftedRows(b, r);
    }
    forall c | 0 <= c < 9 ensures IsDigitPermutation(ColOf(b, c)) {
      ShiftedCols(b, c);
    }
    ShiftedFirstBox(b);
    ShiftedFourthBox(b);
  }

  lemma ShiftedFirstBox(b: Board)
    requires HasAllCells(b)
    requires forall r, c :: 0 <= r < 9 && 0 <= c < 9 ==> b[Name(r, c)] == Shifted(r, c)
    ensures IsDigitPermutation(BoxOf(b, 0))
  {
    BoxShapeAt(0);
    var first := BoxOf(b, 0);
    forall i | 0 <= i < 9 ensures first[i] == i + 1 {
      var r, c := i / 3, i % 3;
      assert BOXES[0][i] == Name(r, c);
      assert first[i] == Shifted(r, c);
      assert 0 <= r < 3 && 0 <= c < 3 && i == 3 * r + c;
      ShiftedInFirstBlock(r, c);
    }
  }

  lemma ShiftedInFirstBlock(r: int, c: int)
    requires 0 <= r < 3 && 0 <= c < 3
    ensures Shifted(r, c) == 3 * r + c + 1
  {
    assert SHIFTS[r] == 3 * r by {
      assert r == 0 || r == 1 || r == 2;
    }
    assert 0 <= 3 * r + c < 9;
  }

  lemma ShiftedFourthBox(b: Board)
    requires HasAllCells(b)
    requires forall r, c :: 0 <= r < 9 && 0 <= c < 9 ==> b[Name(r, c)] == Shifted(r, c)
    ensures BoxOf(b, 3)[1] == BoxOf(b, 3)[3] == 3
  {
    BoxShapeAt(3);
    assert BOXES[3][1] == Name(3, 1) && BOXES[3][3] == Name(4, 0);
  }
}
