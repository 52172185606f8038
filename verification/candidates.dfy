/**
 Candidate computation: the digits a box is missing, the row and column
 tests, the filter that keeps the missing digits passing both tests, and
 the initial domains. The loop that fills every empty cell's domain with
 them is in `DomainInit`.
 */
module Candidates {
  import opened Grid
  import opened Boards
  import opened Lists

  /** Candidate digits per cell, in the order they were appended. */
  type Domains = map<string, seq<int>>

  /** The values of `cells` on board `b`, in list order. */
  function ValuesOf(cells: seq<string>, b: Board): (vals: seq<int>)
    requires forall i :: 0 <= i < |cells| ==> cells[i] in b
    ensures |vals| == |cells|
    ensures forall i :: 0 <= i < |cells| ==> vals[i] == b[cells[i]]
  {
    seq(|cells|, i requires 0 <= i < |cells| => b[cells[i]])
  }

  /** The digits `from` .. 9 that do not occur in `vals`, ascending. */
  function DigitsNotIn(vals: seq<int>, from: int): (r: seq<int>)
    requires 1 <= from <= 10
    ensures StrictlyAscending(r)
    ensures forall x :: x in r ==> from <= x
    ensures forall d :: d in r <==> from <= d <= 9 && d !in vals
    decreases 10 - from
  {
    if from == 10 then []
    else
      var head := if from in vals then [] else [from];
      var rest := DigitsNotIn(vals, from + 1);
      assert forall i :: 0 <= i < |rest| ==> from < rest[i] by {
        forall i | 0 <= i < |rest| ensures from < rest[i] {
          assert rest[i] in rest;
        }
      }
      head + rest
  }

  /** `__missingNums`: the digits 1..9 absent from the box, in ascending order. */
  function MissingNums(box: seq<string>, b: Board): (r: seq<int>)
    requires forall i :: 0 <= i < |box| ==> box[i] in b
    ensures StrictlyAscending(r)
    ensures forall d :: d in r <==> 1 <= d <= 9 && forall i :: 0 <= i < |box| ==> b[box[i]] != d
  {
    var r := DigitsNotIn(ValuesOf(box, b), 1);
    assert forall d :: d in r <==> 1 <= d <= 9 && forall i :: 0 <= i < |box| ==> b[box[i]] != d by {
      forall d ensures d in r <==> 1 <= d <= 9 && forall i :: 0 <= i < |box| ==> b[box[i]] != d {
        AbsentFromValues(box, b, d);
      }
    }
    r
  }

  /** A value is missing from `ValuesOf(cells, b)` exactly when no cell holds it. */
  lemma AbsentFromValues(cells: seq<string>, b: Board, d: int)
    requires forall i :: 0 <= i < |cells| ==> cells[i] in b
    ensures d !in ValuesOf(cells, b) <==> forall i :: 0 <= i < |cells| ==> b[cells[i]] != d
  {
    var vals := ValuesOf(cells, b);
    if d in vals {
      var i :| 0 <= i < |vals| && vals[i] == d;
      assert b[cells[i]] == d;
    }
  }

  /** The cells of the row labelled `rowLabel`, columns 1..9. */
  function RowCells(rowLabel: char): seq<string> {
    seq(9, i requires 0 <= i < 9 => [rowLabel, COL[i]])
  }

  /** The cells of the column labelled `colLabel`, rows A..I. */
  function ColCells(colLabel: char): seq<string> {
    seq(9, j requires 0 <= j < 9 => [ROW[j], colLabel])
  }

  /** `__isValidRow`: the candidate is none of the nine values of the row. */
  function IsValidRow(rowLabel: char, b: Board, candidate: int): (ok: bool)
    requires forall i :: 0 <= i < 9 ==> [rowLabel, COL[i]] in b
    ensures ok <==> forall i :: 0 <= i < 9 ==> b[[rowLabel, COL[i]]] != candidate
  {
    var row := ValuesOf(RowCells(rowLabel), b);
    assert forall i :: 0 <= i < 9 ==> row[i] == b[[rowLabel, COL[i]]];
    candidate !in row
  }

  /** `__isValidCol`: the candidate is none of the nine values of the column. */
  function IsValidCol(colLabel: char, b: Board, candidate: int): (ok: bool)
    requires forall j :: 0 <= j < 9 ==> [ROW[j], colLabel] in b
    ensures ok <==> forall j :: 0 <= j < 9 ==> b[[ROW[j], colLabel]] != candidate
  {
    var col := ValuesOf(ColCells(colLabel), b);
    assert forall j :: 0 <= j < 9 ==> col[j] == b[[ROW[j], colLabel]];
    candidate !in col
  }

  /** The row and column tests can be asked about `slot`. */
  predicate Testable(slot: string, b: Board) {
    && |slot| >= 2
    && (forall i :: 0 <= i < 9 ==> [slot[0], COL[i]] in b)
    && (forall j :: 0 <= j < 9 ==> [ROW[j], slot[1]] in b)
  }

  /** The elements of `nums` that pass both tests for `slot`, in their order:
      what the innermost loop of the domain initialisation appends. */
  function Admissible(nums: seq<int>, slot: string, b: Board): seq<int>
    requires Testable(slot, b)
  {
    if |nums| == 0 then []
    else
      var last := nums[|nums| - 1];
      Admissible(nums[..|nums| - 1], slot, b) + (if IsValidRow(slot[0], b, last) && IsValidCol(slot[1], b, last) then [last] else [])
  }

  /** Filtering keeps exactly the elements that pass both tests, and keeps an ascending list ascending. */
  lemma {:induction false} AdmissibleSpec(nums: seq<int>, slot: string, b: Board)
    requires Testable(slot, b)
    ensures forall x :: x in Admissible(nums, slot, b) <==> x in nums && IsValidRow(slot[0], b, x) && IsValidCol(slot[1], b, x)
    ensures StrictlyAscending(nums) ==> StrictlyAscending(Admissible(nums, slot, b))
  {
    if |nums| > 0 {
      var last := nums[|nums| - 1];
      var prefix := nums[..|nums| - 1];
      assert nums == prefix + [last];
      AdmissibleSpec(prefix, slot, b);
      var kept := Admissible(prefix, slot, b);
      if StrictlyAscending(nums) {
        forall i | 0 <= i < |kept| ensures kept[i] < last {
          assert kept[i] in prefix;
          var j :| 0 <= j < |prefix| && prefix[j] == kept[i];
          assert nums[j] == kept[i];
        }
        assert StrictlyAscending(prefix);
      }
    }
  }

  /** The domain `__initDomains` starts a cell with: its value if filled, empty otherwise. */
  function StartDomain(v: int): seq<int> {
    if v == 0 then [] else [v]
  }

  /** `__initDomains`, with the board as a parameter: every cell gets a
      domain; a filled cell's holds its value, an empty cell's is empty. */
  method InitDomains(b: Board) returns (domains: Domains)
    requires HasAllCells(b)
    ensures domains.Keys == Cells
    ensures forall r, c :: 0 <= r < 9 && 0 <= c < 9 ==> domains[Name(r, c)] == StartDomain(b[Name(r, c)])
  {
    CellIndexOfNames();
    domains := map[];
    for r := 0 to 9
      invariant forall k :: k in domains ==> k in Cells && |k| >= 2 && CellIndex(k) < 9 * r
      invariant forall r', c' :: 0 <= r' < r && 0 <= c' < 9 ==>
                  Name(r', c') in domains && domains[Name(r', c')] == StartDomain(b[Name(r', c')])
    {
      for c := 0 to 9
        invariant forall k :: k in domains ==> k in Cells && |k| >= 2 && CellIndex(k) < 9 * r + c
        invariant forall r', c' :: (0 <= r' < r && 0 <= c' < 9) || (r' == r && 0 <= c' < c) ==>
                    Name(r', c') in domains && domains[Name(r', c')] == StartDomain(b[Name(r', c')])
      {
        var slot := Name(r, c);
        assert slot in Cells;
        if b[slot] == 0 {
          domains := domains[slot := []];
        } else {
          domains := domains[slot := [b[slot]]];
        }
      }
    }
    forall k | k in Cells ensures k in domains {
      var r, c :| 0 <= r < 9 && 0 <= c < 9 && k == Name(r, c);
    }
  }
}
