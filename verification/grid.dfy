/**
 The fixed topology of a 9x9 Sudoku grid: 81 cells named by a row letter
 and a column digit ("A1" .. "I9"), nine rows, nine columns and nine 3x3
 boxes. The boxes are the literal cell lists of the solver; the lemmas
 below tie them to the usual 3x3 arithmetic and show that they partition
 the grid.
 */
module Grid {

  /** Row labels, top to bottom. */
  const ROW: string := "ABCDEFGHI"
  /** Column labels, left to right. */
  const COL: string := "123456789"

  /** The cell in row `r` and column `c` (both 0-based): row letter then column digit. */
  function Name(r: int, c: int): string
    requires 0 <= r < 9 && 0 <= c < 9
  {
    [ROW[r], COL[c]]
  }

  // Boxes are numbered 1 2 3 / 4 5 6 / 7 8 9, cells within a box row by row.
  const BOX1: seq<string> := ["A1", "A2", "A3", "B1", "B2", "B3", "C1", "C2", "C3"]
  const BOX2: seq<string> := ["A4", "A5", "A6", "B4", "B5", "B6", "C4", "C5", "C6"]
  const BOX3: seq<string> := ["A7", "A8", "A9", "B7", "B8", "B9", "C7", "C8", "C9"]
  const BOX4: seq<string> := ["D1", "D2", "D3", "E1", "E2", "E3", "F1", "F2", "F3"]
  const BOX5: seq<string> := ["D4", "D5", "D6", "E4", "E5", "E6", "F4", "F5", "F6"]
  const BOX6: seq<string> := ["D7", "D8", "D9", "E7", "E8", "E9", "F7", "F8", "F9"]
  const BOX7: seq<string> := ["G1", "G2", "G3", "H1", "H2", "H3", "I1", "I2", "I3"]
  const BOX8: seq<string> := ["G4", "G5", "G6", "H4", "H5", "H6", "I4", "I5", "I6"]
  const BOX9: seq<string> := ["G7", "G8", "G9", "H7", "H8", "H9", "I7", "I8", "I9"]
  const BOXES: seq<seq<string>> := [BOX1, BOX2, BOX3, BOX4, BOX5, BOX6, BOX7, BOX8, BOX9]

  /** The 0-based box holding the cell in row `r`, column `c`. */
  function BoxIndex(r: int, c: int): (k: int)
    requires 0 <= r < 9 && 0 <= c < 9
    ensures 0 <= k < 9
  {
    3 * (r / 3) + c / 3
  }

  /** The position of that cell inside its box's list. */
  function PosInBox(r: int, c: int): (i: int)
    requires 0 <= r < 9 && 0 <= c < 9
    ensures 0 <= i < 9
  {
    3 * (r % 3) + c % 3
  }

  // The map (r, c) |-> (BoxIndex, PosInBox) is its own inverse: the
  // `i`-th cell of box `k` sits at row BoxIndex(k, i) and column
  // PosInBox(k, i). BoxRow and BoxCol name that inverse direction, so
  // their bodies coincide with BoxIndex and PosInBox.

  /** Row of the `i`-th cell of box `k`. */
  function BoxRow(k: int, i: int): (r: int)
    requires 0 <= k < 9 && 0 <= i < 9
    ensures 0 <= r < 9
  {
    3 * (k / 3) + i / 3
  }

  /** Column of the `i`-th cell of box `k`. */
  function BoxCol(k: int, i: int): (c: int)
    requires 0 <= k < 9 && 0 <= i < 9
    ensures 0 <= c < 9
  {
    3 * (k % 3) + i % 3
  }

  /** All 81 cell names. */
  const Cells: set<string> := set r, c | 0 <= r < 9 && 0 <= c < 9 :: Name(r, c)

  /** The `i`-th cell in row-major order. */
  function RowMajorCell(i: int): string
    requires 0 <= i < 81
  {
    Name(i / 9, i % 9)
  }

  lemma RowMajorCellOf(r: int, c: int)
    requires 0 <= r < 9 && 0 <= c < 9
    ensures 0 <= 9 * r + c < 81 && RowMajorCell(9 * r + c) == Name(r, c)
  {
    RowMajorSplit(r, c);
  }

  /** Position 9*r + c splits back into row r and column c. */
  lemma RowMajorSplit(r: int, c: int)
    requires 0 <= r < 9 && 0 <= c < 9
    ensures (9 * r + c) / 9 == r && (9 * r + c) % 9 == c
  {
  }

  /** The row-major position 9*r + c encoded by a cell name (row letter, column digit). */
  function CellIndex(k: string): int
    requires |k| >= 2
  {
    9 * (k[0] as int - 'A' as int) + (k[1] as int - '1' as int)
  }

  lemma LabelCodes()
    ensures forall r :: 0 <= r < 9 ==> ROW[r] as int == 'A' as int + r
    ensures forall c :: 0 <= c < 9 ==> COL[c] as int == '1' as int + c
  {
  }

  lemma CellIndexOfName(r: int, c: int)
    requires 0 <= r < 9 && 0 <= c < 9
    ensures CellIndex(Name(r, c)) == 9 * r + c
  {
    LabelCodes();
  }

  lemma CellIndexOfNames()
    ensures forall r, c :: 0 <= r < 9 && 0 <= c < 9 ==> CellIndex(Name(r, c)) == 9 * r + c
  {
    forall r, c | 0 <= r < 9 && 0 <= c < 9 ensures CellIndex(Name(r, c)) == 9 * r + c {
      CellIndexOfName(r, c);
    }
  }

  /** Distinct labels name distinct cells, and a name determines its row and column. */
  lemma NameInjective()
    ensures forall r, c, r', c' ::
              0 <= r < 9 && 0 <= c < 9 && 0 <= r' < 9 && 0 <= c' < 9 && Name(r, c) == Name(r', c')
              ==> r == r' && c == c'
  {
    forall r, c, r', c' | 0 <= r < 9 && 0 <= c < 9 && 0 <= r' < 9 && 0 <= c' < 9 && Name(r, c) == Name(r', c')
      ensures r == r' && c == c'
    {
      CellIndexOfName(r, c);
      CellIndexOfName(r', c');
    }
  }

  /** The hard-coded boxes are exactly the 3x3 blocks: box k is rows
      3*(k/3) .. +3 by columns 3*(k%3) .. +3, listed row by row. */
  lemma BoxShape()
    ensures |BOXES| == 9
    ensures forall k :: 0 <= k < 9 ==> |BOXES[k]| == 9
    ensures forall k, i :: 0 <= k < 9 && 0 <= i < 9 ==> BOXES[k][i] == Name(BoxRow(k, i), BoxCol(k, i))
  {
    forall k | 0 <= k < 9
      ensures |BOXES[k]| == 9
      ensures forall i :: 0 <= i < 9 ==> BOXES[k][i] == Name(BoxRow(k, i), BoxCol(k, i))
    {
      BoxShapeAt(k);
    }
  }

  /** Each cell sits in exactly one box position: the boxes hold 81 distinct
      cells, and every cell of the grid appears in the box `BoxIndex` at
      position `PosInBox`. Together the nine boxes partition the grid. */
  lemma BoxesPartition()
    ensures |BOXES| == 9 && forall k :: 0 <= k < 9 ==> |BOXES[k]| == 9
    ensures forall k, i, k', i' ::
              0 <= k < 9 && 0 <= i < 9 && 0 <= k' < 9 && 0 <= i' < 9 && BOXES[k][i] == BOXES[k'][i']
              ==> k == k' && i == i'
    ensures forall r, c :: 0 <= r < 9 && 0 <= c < 9 ==> BOXES[BoxIndex(r, c)][PosInBox(r, c)] == Name(r, c)
    ensures (set k, i | 0 <= k < 9 && 0 <= i < 9 :: BOXES[k][i]) == Cells
  {
    BoxShape();
    BoxesDistinct();
    CellInItsBox();
    BoxesCoverGrid();
  }

  lemma BoxesCoverGrid()
    ensures (set k, i | 0 <= k < 9 && 0 <= i < 9 :: BOXES[k][i]) == Cells
  {
    var boxed := set k, i | 0 <= k < 9 && 0 <= i < 9 :: BOXES[k][i];
    CellsAreBoxed(boxed);
    BoxedAreCells(boxed);
  }

  lemma CellsAreBoxed(boxed: set<string>)
    requires boxed == set k, i | 0 <= k < 9 && 0 <= i < 9 :: BOXES[k][i]
    ensures Cells <= boxed
  {
    forall s | s in Cells ensures s in boxed {
      var r, c :| 0 <= r < 9 && 0 <= c < 9 && s == Name(r, c);
      var k, i := BoxIndex(r, c), PosInBox(r, c);
      BoxShapeAt(k);
      BoxCoordinatesOfCell(r, c);
      assert s == BOXES[k][i];
    }
  }

  lemma BoxedAreCells(boxed: set<string>)
    requires boxed == set k, i | 0 <= k < 9 && 0 <= i < 9 :: BOXES[k][i]
    ensures boxed <= Cells
  {
    forall s | s in boxed ensures s in Cells {
      var k, i :| 0 <= k < 9 && 0 <= i < 9 && s == BOXES[k][i];
      BoxShapeAt(k);
      assert s == Name(BoxRow(k, i), BoxCol(k, i));
    }
  }

  /** Every cell name is two characters long and encodes a position 0..80. */
  lemma CellsHaveIndex()
    ensures forall k :: k in Cells ==> |k| >= 2 && 0 <= CellIndex(k) < 81
  {
    forall k | k in Cells ensures |k| >= 2 && 0 <= CellIndex(k) < 81 {
      var r, c :| 0 <= r < 9 && 0 <= c < 9 && k == Name(r, c);
      CellIndexOfName(r, c);
    }
  }

  /** Every entry of a box is one of the 81 cells. */
  lemma BoxCellsAreCells()
    ensures |BOXES| == 9
    ensures forall k :: 0 <= k < 9 ==> |BOXES[k]| == 9
    ensures forall k, i :: 0 <= k < 9 && 0 <= i < 9 ==> BOXES[k][i] in Cells
  {
    forall k, i | 0 <= k < 9 && 0 <= i < 9 ensures |BOXES[k]| == 9 && BOXES[k][i] in Cells {
      BoxShapeAt(k);
      assert BOXES[k][i] == Name(BoxRow(k, i), BoxCol(k, i));
    }
  }

  lemma BoxesDistinct()
    ensures |BOXES| == 9 && forall k :: 0 <= k < 9 ==> |BOXES[k]| == 9
    ensures forall k, i, k', i' ::
              0 <= k < 9 && 0 <= i < 9 && 0 <= k' < 9 && 0 <= i' < 9 && BOXES[k][i] == BOXES[k'][i']
              ==> k == k' && i == i'
  {
    BoxShape();
    forall k, i, k', i' | 0 <= k < 9 && 0 <= i < 9 && 0 <= k' < 9 && 0 <= i' < 9 &&
        BOXES[k][i] == BOXES[k'][i']
      ensures k == k' && i == i'
    {
      var r, c, r', c' := BoxRow(k, i), BoxCol(k, i), BoxRow(k', i'), BoxCol(k', i');
      CellIndexOfName(r, c);
      CellIndexOfName(r', c');
      assert Name(r, c) == Name(r', c');
      assert r == r' && c == c';
      BoxCoordinatesInjective(k, i, k', i');
    }
  }

  /** No cell occurs twice in one box's list. */
  lemma BoxHasNoDup(k: int)
    requires 0 <= k < 9
    ensures |BOXES[k]| == 9
    ensures forall i, j :: 0 <= i < 9 && 0 <= j < 9 && BOXES[k][i] == BOXES[k][j] ==> i == j
  {
    BoxesDistinct();
  }

  lemma CellInItsBox()
    ensures forall r, c :: 0 <= r < 9 && 0 <= c < 9 ==> BOXES[BoxIndex(r, c)][PosInBox(r, c)] == Name(r, c)
  {
    forall r, c | 0 <= r < 9 && 0 <= c < 9
      ensures BOXES[BoxIndex(r, c)][PosInBox(r, c)] == Name(r, c)
    {
      BoxShapeAt(BoxIndex(r, c));
      BoxCoordinatesOfCell(r, c);
    }
  }

  lemma BoxCoordinatesInjective(k: int, i: int, k': int, i': int)
    requires 0 <= k < 9 && 0 <= i < 9 && 0 <= k' < 9 && 0 <= i' < 9
    requires BoxRow(k, i) == BoxRow(k', i') && BoxCol(k, i) == BoxCol(k', i')
    ensures k == k' && i == i'
  {
    assert k / 3 == k' / 3 && i / 3 == i' / 3;
    assert k % 3 == k' % 3 && i % 3 == i' % 3;
  }

  lemma BoxCoordinatesOfCell(r: int, c: int)
    requires 0 <= r < 9 && 0 <= c < 9
    ensures BoxRow(BoxIndex(r, c), PosInBox(r, c)) == r
    ensures BoxCol(BoxIndex(r, c), PosInBox(r, c)) == c
  {
    var k, i := BoxIndex(r, c), PosInBox(r, c);
    assert k / 3 == r / 3 && k % 3 == c / 3;
    assert i / 3 == r % 3 && i % 3 == c % 3;
  }

  lemma BoxShapeAt(k: int)
    requires 0 <= k < 9
    ensures |BOXES[k]| == 9
    ensures forall i :: 0 <= i < 9 ==> BOXES[k][i] == Name(BoxRow(k, i), BoxCol(k, i))
  {
    if k == 0 { Box1Shape(); }
    else if k == 1 { Box2Shape(); }
    else if k == 2 { Box3Shape(); }
    else if k == 3 { Box4Shape(); }
    else if k == 4 { Box5Shape(); }
    else if k == 5 { Box6Shape(); }
    else if k == 6 { Box7Shape(); }
    else if k == 7 { Box8Shape(); }
    else { Box9Shape(); }
  }

  /** A list of nine names that runs over the 3x3 block with top-left
      cell (r0, c0), row by row. */
  lemma BlockShape(box: seq<string>, r0: int, c0: int)
    requires 0 <= r0 <= 6 && 0 <= c0 <= 6 && |box| == 9
    requires box[0] == Name(r0, c0) && box[1] == Name(r0, c0 + 1) && box[2] == Name(r0, c0 + 2)
    requires box[3] == Name(r0 + 1, c0) && box[4] == Name(r0 + 1, c0 + 1) && box[5] == Name(r0 + 1, c0 + 2)
    requires box[6] == Name(r0 + 2, c0) && box[7] == Name(r0 + 2, c0 + 1) && box[8] == Name(r0 + 2, c0 + 2)
    ensures forall i :: 0 <= i < 9 ==> box[i] == Name(r0 + i / 3, c0 + i % 3)
  {
    forall i | 0 <= i < 9 ensures box[i] == Name(r0 + i / 3, c0 + i % 3) {
      if i < 3 {
        assert i / 3 == 0 && i % 3 == i;
      } else if i < 6 {
        assert i / 3 == 1 && i % 3 == i - 3;
      } else {
        assert i / 3 == 2 && i % 3 == i - 6;
      }
    }
  }

  lemma Box1Shape()
    ensures |BOX1| == 9
    ensures forall i :: 0 <= i < 9 ==> BOX1[i] == Name(BoxRow(0, i), BoxCol(0, i))
  {
    assert BOX1 == [Name(0, 0), Name(0, 1), Name(0, 2), Name(1, 0), Name(1, 1), Name(1, 2), Name(2, 0), Name(2, 1), Name(2, 2)];
    BlockShape(BOX1, 0, 0);
    assert forall i :: 0 <= i < 9 ==> BoxRow(0, i) == 0 + i / 3 && BoxCol(0, i) == 0 + i % 3;
  }

  lemma Box2Shape()
    ensures |BOX2| == 9
    ensures forall i :: 0 <= i < 9 ==> BOX2[i] == Name(BoxRow(1, i), BoxCol(1, i))
  {
    assert BOX2 == [Name(0, 3), Name(0, 4), Name(0, 5), Name(1, 3), Name(1, 4), Name(1, 5), Name(2, 3), Name(2, 4), Name(2, 5)];
    BlockShape(BOX2, 0, 3);
    assert forall i :: 0 <= i < 9 ==> BoxRow(1, i) == 0 + i / 3 && BoxCol(1, i) == 3 + i % 3;
  }

  lemma Box3Shape()
    ensures |BOX3| == 9
    ensures forall i :: 0 <= i < 9 ==> BOX3[i] == Name(BoxRow(2, i), BoxCol(2, i))
  {
    assert BOX3 == [Name(0, 6), Name(0, 7), Name(0, 8), Name(1, 6), Name(1, 7), Name(1, 8), Name(2, 6), Name(2, 7), Name(2, 8)];
    BlockShape(BOX3, 0, 6);
    assert forall i :: 0 <= i < 9 ==> BoxRow(2, i) == 0 + i / 3 && BoxCol(2, i) == 6 + i % 3;
  }

  lemma Box4Shape()
    ensures |BOX4| == 9
    ensures forall i :: 0 <= i < 9 ==> BOX4[i] == Name(BoxRow(3, i), BoxCol(3, i))
  {
    assert BOX4 == [Name(3, 0), Name(3, 1), Name(3, 2), Name(4, 0), Name(4, 1), Name(4, 2), Name(5, 0), Name(5, 1), Name(5, 2)];
    BlockShape(BOX4, 3, 0);
    assert forall i :: 0 <= i < 9 ==> BoxRow(3, i) == 3 + i / 3 && BoxCol(3, i) == 0 + i % 3;
  }

  lemma Box5Shape()
    ensures |BOX5| == 9
    ensures forall i :: 0 <= i < 9 ==> BOX5[i] == Name(BoxRow(4, i), BoxCol(4, i))
  {
    assert BOX5 == [Name(3, 3), Name(3, 4), Name(3, 5), Name(4, 3), Name(4, 4), Name(4, 5), Name(5, 3), Name(5, 4), Name(5, 5)];
    BlockShape(BOX5, 3, 3);
    assert forall i :: 0 <= i < 9 ==> BoxRow(4, i) == 3 + i / 3 && BoxCol(4, i) == 3 + i % 3;
  }

  lemma Box6Shape()
    ensures |BOX6| == 9
    ensures forall i :: 0 <= i < 9 ==> BOX6[i] == Name(BoxRow(5, i), BoxCol(5, i))
  {
    assert BOX6 == [Name(3, 6), Name(3, 7), Name(3, 8), Name(4, 6), Name(4, 7), Name(4, 8), Name(5, 6), Name(5, 7), Name(5, 8)];
    BlockShape(BOX6, 3, 6);
    assert forall i :: 0 <= i < 9 ==> BoxRow(5, i) == 3 + i / 3 && BoxCol(5, i) == 6 + i % 3;
  }

  lemma Box7Shape()
    ensures |BOX7| == 9
    ensures forall i :: 0 <= i < 9 ==> BOX7[i] == Name(BoxRow(6, i), BoxCol(6, i))
  {
    assert BOX7 == [Name(6, 0), Name(6, 1), Name(6, 2), Name(7, 0), Name(7, 1), Name(7, 2), Name(8, 0), Name(8, 1), Name(8, 2)];
    BlockShape(BOX7, 6, 0);
    assert forall i :: 0 <= i < 9 ==> BoxRow(6, i) == 6 + i / 3 && BoxCol(6, i) == 0 + i % 3;
  }

  lemma Box8Shape()
    ensures |BOX8| == 9
    ensures forall i :: 0 <= i < 9 ==> BOX8[i] == Name(BoxRow(7, i), BoxCol(7, i))
  {
    assert BOX8 == [Name(6, 3), Name(6, 4), Name(6, 5), Name(7, 3), Name(7, 4), Name(7, 5), Name(8, 3), Name(8, 4), Name(8, 5)];
    BlockShape(BOX8, 6, 3);
    assert forall i :: 0 <= i < 9 ==> BoxRow(7, i) == 6 + i / 3 && BoxCol(7, i) == 3 + i % 3;
  }

  lemma Box9Shape()
    ensures |BOX9| == 9
    ensures forall i :: 0 <= i < 9 ==> BOX9[i] == Name(BoxRow(8, i), BoxCol(8, i))
  {
    assert BOX9 == [Name(6, 6), Name(6, 7), Name(6, 8), Name(7, 6), Name(7, 7), Name(7, 8), Name(8, 6), Name(8, 7), Name(8, 8)];
    BlockShape(BOX9, 6, 6);
    assert forall i :: 0 <= i < 9 ==> BoxRow(8, i) == 6 + i / 3 && BoxCol(8, i) == 6 + i % 3;
  }

}
