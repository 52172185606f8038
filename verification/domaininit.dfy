/**
 The domain-initialisation loop at the start of `backtracking`: starting
 from `__initDomains`, walk the boxes in order and, for every empty cell,
 append each digit the box is missing that also passes the row and the
 column test. The result is characterised without reference to the loop:
 a filled cell's domain is its value, an empty cell's domain is the
 ascending list of digits that occur nowhere in its row, column or box.
 */
module DomainInit {
  import opened Grid
  import opened Boards
  import opened Lists
  import opened Candidates

  /** Digit `d` occurs in none of the row, the column and the 3x3 block of cell (r, c). */
  predicate Unused(b: Board, r: int, c: int, d: int)
    requires HasAllCells(b) && 0 <= r < 9 && 0 <= c < 9
  {
    && (forall j :: 0 <= j < 9 ==> b[Name(r, j)] != d)
    && (forall i :: 0 <= i < 9 ==> b[Name(i, c)] != d)
    && (forall i, j :: 0 <= i < 9 && 0 <= j < 9 && i / 3 == r / 3 && j / 3 == c / 3 ==> b[Name(i, j)] != d)
  }

  /** `ds` lists, in strictly ascending order, exactly the digits 1..9 unused around (r, c). */
  ghost predicate CandidateList(ds: seq<int>, b: Board, r: int, c: int)
    requires HasAllCells(b) && 0 <= r < 9 && 0 <= c < 9
  {
    && StrictlyAscending(ds)
    && forall d :: d in ds <==> 1 <= d <= 9 && Unused(b, r, c, d)
  }

  /** The domains the loop is meant to produce for board `b`. */
  ghost predicate InitialDomainsOf(b: Board, domains: Domains)
    requires HasAllCells(b)
  {
    && domains.Keys == Cells
    && forall r, c :: 0 <= r < 9 && 0 <= c < 9 ==>
         && (b[Name(r, c)] != 0 ==> domains[Name(r, c)] == [b[Name(r, c)]])
         && (b[Name(r, c)] == 0 ==> CandidateList(domains[Name(r, c)], b, r, c))
  }

  /** Every box cell can be looked up and tested on a board with all cells. */
  lemma BoxCellsUsable(b: Board)
    requires HasAllCells(b)
    ensures forall k, i :: 0 <= k < 9 && 0 <= i < 9 ==> BOXES[k][i] in b && Testable(BOXES[k][i], b)
  {
    BoxShape();
    forall k, i | 0 <= k < 9 && 0 <= i < 9 ensures BOXES[k][i] in b && Testable(BOXES[k][i], b) {
      var r, c := BoxRow(k, i), BoxCol(k, i);
      assert BOXES[k][i] == Name(r, c);
      assert forall j :: 0 <= j < 9 ==> [ROW[r], COL[j]] == Name(r, j);
      assert forall j :: 0 <= j < 9 ==> [ROW[j], COL[c]] == Name(j, c);
    }
  }

  /** The domain of the `i`-th cell of box `k` once the loop has visited it. */
  function VisitedDomain(b: Board, k: int, i: int): seq<int>
    requires HasAllCells(b) && 0 <= k < 9 && 0 <= i < 9
  {
    BoxCellsUsable(b);
    var slot := BOXES[k][i];
    if b[slot] != 0 then [b[slot]] else Admissible(MissingNums(BOXES[k], b), slot, b)
  }

  /** Lines 54-62 of `backtracking`, after `__initDomains`. */
  method BuildDomains(b: Board) returns (domains: Domains)
    requires HasAllCells(b)
    ensures InitialDomainsOf(b, domains)
  {
    domains := InitDomains(b);
    BoxCellsAreCells();
    forall k, i | 0 <= k < 9 && 0 <= i < 9
      ensures domains[BOXES[k][i]] == StartDomain(b[BOXES[k][i]])
    {
      BoxShapeAt(k);
    }
    for k := 0 to 9
      invariant domains.Keys == Cells
      invariant forall k', i' :: 0 <= k' < 9 && 0 <= i' < 9 ==>
                  domains[BOXES[k'][i']] == if k' < k then VisitedDomain(b, k', i') else StartDomain(b[BOXES[k'][i']])
    {
      ghost var before := domains;
      domains := FillBox(b, k, domains);
      forall k', i' | 0 <= k' < 9 && 0 <= i' < 9
        ensures domains[BOXES[k'][i']] == if k' < k + 1 then VisitedDomain(b, k', i') else StartDomain(b[BOXES[k'][i']])
      {
        if k' != k {
          OtherBoxCell(k, k', i');
        }
      }
    }
    VisitedDomainsMeetSpec(b, domains);
  }

  lemma OtherBoxCell(k: int, k': int, i': int)
    requires 0 <= k < 9 && 0 <= k' < 9 && 0 <= i' < 9 && k != k'
    ensures |BOXES[k]| == 9 && BOXES[k'][i'] !in BOXES[k]
  {
    BoxShapeAt(k);
    BoxesDistinct();
    assert forall i :: 0 <= i < 9 ==> BOXES[k][i] != BOXES[k'][i'];
  }

  /** One pass of the outer loop body: every empty cell of box `k` gets its candidates. */
  method FillBox(b: Board, k: int, domains: Domains) returns (domains': Domains)
    requires HasAllCells(b) && 0 <= k < 9
    requires domains.Keys == Cells
    requires forall i :: 0 <= i < 9 ==> BOXES[k][i] in domains && domains[BOXES[k][i]] == StartDomain(b[BOXES[k][i]])
    ensures domains'.Keys == Cells
    ensures forall i :: 0 <= i < 9 ==> BOXES[k][i] in domains' && domains'[BOXES[k][i]] == VisitedDomain(b, k, i)
    ensures forall key :: key in domains && key !in BOXES[k] ==> domains'[key] == domains[key]
  {
    BoxCellsUsable(b);
    BoxHasNoDup(k);
    var box := BOXES[k];
    domains' := domains;
    for i := 0 to 9
      invariant domains'.Keys == Cells
      invariant forall i' :: 0 <= i' < i ==> domains'[box[i']] == VisitedDomain(b, k, i')
      invariant forall i' :: i <= i' < 9 ==> domains'[box[i']] == domains[box[i']]
      invariant forall key :: key in domains && key !in box ==> domains'[key] == domains[key]
    {
      var slot := box[i];
      if b[slot] != 0 {
        continue;
      }
      domains' := FillSlot(b, box, slot, domains');
    }
  }

  /** Lines 59-62 for one empty `slot` of `box`: append, in ascending order,
      each digit the box is missing that passes both tests. */
  method FillSlot(b: Board, box: seq<string>, slot: string, domains: Domains) returns (domains': Domains)
    requires forall i :: 0 <= i < |box| ==> box[i] in b
    requires Testable(slot, b)
    requires slot in domains && domains[slot] == []
    ensures domains'.Keys == domains.Keys
    ensures domains'[slot] == Admissible(MissingNums(box, b), slot, b)
    ensures forall key :: key in domains && key != slot ==> domains'[key] == domains[key]
  {
    var missing := MissingNums(box, b);
    domains' := AppendAdmissible(missing, slot, b, domains);
  }

  /** The loop `for num in nums: if <row test> and <column test>: domains[slot].append(num)`. */
  method AppendAdmissible(nums: seq<int>, slot: string, b: Board, domains: Domains) returns (domains': Domains)
    requires Testable(slot, b)
    requires slot in domains && domains[slot] == []
    ensures domains'.Keys == domains.Keys
    ensures domains'[slot] == Admissible(nums, slot, b)
    ensures forall key :: key in domains && key != slot ==> domains'[key] == domains[key]
  {
    domains' := domains;
    for j := 0 to |nums|
      invariant domains'.Keys == domains.Keys
      invariant domains'[slot] == Admissible(nums[..j], slot, b)
      invariant forall key :: key in domains && key != slot ==> domains'[key] == domains[key]
    {
      var num := nums[j];
      assert nums[..j + 1][..j] == nums[..j];
      if IsValidRow(slot[0], b, num) && IsValidCol(slot[1], b, num) {
        domains' := domains'[slot := domains'[slot] + [num]];
      }
    }
    assert nums[..|nums|] == nums;
  }

  /** Once every box cell has been visited the domains are the intended ones. */
  lemma VisitedDomainsMeetSpec(b: Board, domains: Domains)
    requires HasAllCells(b)
    requires domains.Keys == Cells
    requires forall k, i :: 0 <= k < 9 && 0 <= i < 9 ==> BOXES[k][i] in domains && domains[BOXES[k][i]] == VisitedDomain(b, k, i)
    ensures InitialDomainsOf(b, domains)
  {
    forall r, c | 0 <= r < 9 && 0 <= c < 9
      ensures b[Name(r, c)] != 0 ==> domains[Name(r, c)] == [b[Name(r, c)]]
      ensures b[Name(r, c)] == 0 ==> CandidateList(domains[Name(r, c)], b, r, c)
    {
      VisitedCellMeetsSpec(b, domains, r, c);
    }
  }

  /** The same, for one cell: it is looked up through its box and position. */
  lemma VisitedCellMeetsSpec(b: Board, domains: Domains, r: int, c: int)
    requires HasAllCells(b) && 0 <= r < 9 && 0 <= c < 9
    requires forall k, i :: 0 <= k < 9 && 0 <= i < 9 ==> BOXES[k][i] in domains && domains[BOXES[k][i]] == VisitedDomain(b, k, i)
    ensures Name(r, c) in domains
    ensures b[Name(r, c)] != 0 ==> domains[Name(r, c)] == [b[Name(r, c)]]
    ensures b[Name(r, c)] == 0 ==> CandidateList(domains[Name(r, c)], b, r, c)
  {
    var k, i := BoxIndex(r, c), PosInBox(r, c);
    BoxShapeAt(k);
    BoxCoordinatesOfCell(r, c);
    assert Name(r, c) == BOXES[k][i];
    if b[Name(r, c)] == 0 {
      VisitedDomainIsCandidateList(b, k, i);
    }
  }

  /** An empty cell's visited domain: the box's missing digits that pass the
      row and column tests are exactly the digits unused around the cell. */
  lemma VisitedDomainIsCandidateList(b: Board, k: int, i: int)
    requires HasAllCells(b) && 0 <= k < 9 && 0 <= i < 9
    requires BOXES[k][i] in b && b[BOXES[k][i]] == 0
    ensures CandidateList(VisitedDomain(b, k, i), b, BoxRow(k, i), BoxCol(k, i))
  {
    BoxCellsUsable(b);
    var slot := BOXES[k][i];
    AdmissibleSpec(MissingNums(BOXES[k], b), slot, b);
    forall d ensures d in VisitedDomain(b, k, i) <==> 1 <= d <= 9 && Unused(b, BoxRow(k, i), BoxCol(k, i), d) {
      CandidateDigit(b, k, i, d);
    }
  }

  /** One digit at a time: it is in an empty cell's visited domain iff the
      box misses it and the row and column tests pass, i.e. iff it is unused
      around the cell. */
  lemma CandidateDigit(b: Board, k: int, i: int, d: int)
    requires HasAllCells(b) && 0 <= k < 9 && 0 <= i < 9
    requires BOXES[k][i] in b && b[BOXES[k][i]] == 0
    ensures d in VisitedDomain(b, k, i) <==> 1 <= d <= 9 && Unused(b, BoxRow(k, i), BoxCol(k, i), d)
  {
    BoxCellsUsable(b);
    BoxShapeAt(k);
    var r, c := BoxRow(k, i), BoxCol(k, i);
    var slot := BOXES[k][i];
    assert slot == Name(r, c);
    assert slot[0] == ROW[r] && slot[1] == COL[c];
    var missing := MissingNums(BOXES[k], b);
    assert VisitedDomain(b, k, i) == Admissible(missing, slot, b);
    AdmissibleSpec(missing, slot, b);
    RowTestIsRowScan(b, r, d);
    ColTestIsColScan(b, c, d);
    BoxValuesAreBlockValues(b, k, r, c, d);
  }

  /** The row test for the cell in row `r` scans exactly row `r`. */
  lemma RowTestIsRowScan(b: Board, r: int, d: int)
    requires HasAllCells(b) && 0 <= r < 9
    ensures forall j :: 0 <= j < 9 ==> [ROW[r], COL[j]] in b
    ensures IsValidRow(ROW[r], b, d) <==> forall j :: 0 <= j < 9 ==> b[Name(r, j)] != d
  {
    assert forall j :: 0 <= j < 9 ==> [ROW[r], COL[j]] == Name(r, j);
  }

  /** The column test for the cell in column `c` scans exactly column `c`. */
  lemma ColTestIsColScan(b: Board, c: int, d: int)
    requires HasAllCells(b) && 0 <= c < 9
    ensures forall j :: 0 <= j < 9 ==> [ROW[j], COL[c]] in b
    ensures IsValidCol(COL[c], b, d) <==> forall j :: 0 <= j < 9 ==> b[Name(j, c)] != d
  {
    assert forall j :: 0 <= j < 9 ==> [ROW[j], COL[c]] == Name(j, c);
  }

  /** Box `k`'s list holds the same cells as the 3x3 block around any of its cells. */
  lemma BoxValuesAreBlockValues(b: Board, k: int, r: int, c: int, d: int)
    requires HasAllCells(b) && 0 <= k < 9 && 0 <= r < 9 && 0 <= c < 9
    requires r / 3 == k / 3 && c / 3 == k % 3
    requires forall i :: 0 <= i < 9 ==> BOXES[k][i] in b
    ensures (forall i :: 0 <= i < 9 ==> b[BOXES[k][i]] != d) <==>
            (forall i, j :: 0 <= i < 9 && 0 <= j < 9 && i / 3 == r / 3 && j / 3 == c / 3 ==> b[Name(i, j)] != d)
  {
    if forall i :: 0 <= i < 9 ==> b[BOXES[k][i]] != d {
      BoxToBlock(b, k, r, c, d);
    }
    if forall i, j :: 0 <= i < 9 && 0 <= j < 9 && i / 3 == r / 3 && j / 3 == c / 3 ==> b[Name(i, j)] != d {
      BlockToBox(b, k, r, c, d);
    }
  }

  lemma BoxToBlock(b: Board, k: int, r: int, c: int, d: int)
    requires HasAllCells(b) && 0 <= k < 9 && 0 <= r < 9 && 0 <= c < 9
    requires r / 3 == k / 3 && c / 3 == k % 3
    requires forall i :: 0 <= i < 9 ==> BOXES[k][i] in b && b[BOXES[k][i]] != d
    ensures forall i, j :: 0 <= i < 9 && 0 <= j < 9 && i / 3 == r / 3 && j / 3 == c / 3 ==> b[Name(i, j)] != d
  {
    forall i, j | 0 <= i < 9 && 0 <= j < 9 && i / 3 == r / 3 && j / 3 == c / 3 ensures b[Name(i, j)] != d {
      BoxShapeAt(k);
      BoxCoordinatesOfCell(i, j);
      var p := PosInBox(i, j);
      assert BoxRow(k, p) == i && BoxCol(k, p) == j;
      assert Name(i, j) == BOXES[k][p];
    }
  }

  lemma BlockToBox(b: Board, k: int, r: int, c: int, d: int)
    requires HasAllCells(b) && 0 <= k < 9 && 0 <= r < 9 && 0 <= c < 9
    requires r / 3 == k / 3 && c / 3 == k % 3
    requires forall i :: 0 <= i < 9 ==> BOXES[k][i] in b
    requires forall i, j :: 0 <= i < 9 && 0 <= j < 9 && i / 3 == r / 3 && j / 3 == c / 3 ==> b[Name(i, j)] != d
    ensures forall i :: 0 <= i < 9 ==> b[BOXES[k][i]] != d
  {
    forall i | 0 <= i < 9 ensures b[BOXES[k][i]] != d {
      BoxShapeAt(k);
      assert BOXES[k][i] == Name(BoxRow(k, i), BoxCol(k, i));
      assert BoxRow(k, i) / 3 == r / 3 && BoxCol(k, i) / 3 == c / 3;
    }
  }
}
