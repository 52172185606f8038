# Sudoku grid operations, modelled in Dafny

This project models the grid operations of a small Sudoku solver, `sudoku/sudoku.py`, and proves properties about them. A board is a dictionary from the 81 cell names `"A1"` .. `"I9"` to integers, where 0 marks an empty cell. A cell's domain is the list of digits it may still take. The model keeps these shapes: `Board = map<string, int>` and `Domains = map<string, seq<int>>`.

The model covers these parts of the solver:

- **Grid topology** (`grid.dfy`, module `Grid`). Covers the row labels `ROW`, the column labels `COL` and the nine hard-coded box lists `BOXES`. It proves that box *k* holds rows `3*(k/3)`..`+2` × columns `3*(k%3)`..`+2`, listed row by row. It also proves that the nine boxes partition the 81 cells.
- **Text form** (`board.dfy`, module `Boards`):
  - `board_to_string`, and the dictionary comprehension that reads a line back into a board.
  - The parser returns `Ok(board)`, or `Err` naming the first index where Python would raise. This is an `IndexError` for a short line or a `ValueError` for a non-digit.
  - Both round trips are proved.
- **Candidates** (`candidates.dfy`, module `Candidates`, and `domaininit.dfy`, module `DomainInit`). Covers `__missingNums`, `__isValidRow`, `__isValidCol` and `__initDomains`, plus the loop in `backtracking` that fills every empty cell's domain. That loop is proved to leave each empty cell with exactly the digits its box, row and column do not use, in ascending order.
- **Solution check** (`checker.dfy`, module `Checker`). Covers `isSolution` and its helpers. `__checkBoxes` never clears its accumulator, so as written it only tests the first box. The model keeps that behaviour and adds the intended per-box check beside it (see Findings).
- **Forward checking** (`forward.dfy`, module `ForwardCheck`). Covers `__forwardChecking`, modelled as a function that returns the flag together with the updated domains. The domains include the removals already made when the function gives up. Its behaviour is proved against a loop-free description (`PrunedAsSpecified`).
- **Lists** (`lists.dfy`, module `Lists`). Small list facts: Python's `list.remove`, and filtering a value out.

## Model

| member | source | states |
|---|---|---|
| Grid.BoxShape | sudoku/sudoku.py:16-25 | there are nine boxes of nine cells; entry i of box k is the cell in row 3*(k/3)+i/3 and column 3*(k%3)+i%3 |
| Grid.BoxShapeAt | sudoku/sudoku.py:16-25 | the same shape, for one box at a time |
| Grid.BoxesPartition | sudoku/sudoku.py:16-27 | no cell is listed twice across the nine boxes; every cell (r, c) sits in box BoxIndex(r, c) at position PosInBox(r, c); together the boxes list exactly the 81 cells |
| Grid.BoxesDistinct | sudoku/sudoku.py:16-25 | two box entries are the same cell only when they are the same entry |
| Grid.BoxesCoverGrid | sudoku/sudoku.py:16-27 | the set of all box entries is the set of the 81 cell names |
| Grid.CellInItsBox | sudoku/sudoku.py:16-27 | cell (r, c) is entry 3*(r%3)+c%3 of box 3*(r/3)+c/3 |
| Grid.BoxCellsAreCells | sudoku/sudoku.py:16-27 | every box entry is one of the 81 cell names |
| Grid.NameInjective | sudoku/sudoku.py:26-27 | a row letter followed by a column digit names a unique cell: different (row, column) pairs give different names |
| Grid.RowMajorCellOf | sudoku/sudoku.py:43-45 | the writing order visits cell (r, c) at position 9r+c |
| Lists.RemoveFirst | sudoku/sudoku.py:189 | `list.remove(v)` deletes the first occurrence of `v`; the other elements keep their order (and so the multiset loses exactly one `v`) |
| Lists.RemoveFirstOfDistinct | sudoku/sudoku.py:189 | on a list without duplicates, `list.remove(v)` equals filtering `v` out and keeping the other elements in order |
| Lists.WithoutKeepsNoDup | sudoku/sudoku.py:189 | filtering a value out keeps a duplicate-free list duplicate-free |
| Boards.Show | sudoku/sudoku.py:45 | `str` of a value 0..9 is that single digit character |
| Boards.ShowNat | sudoku/sudoku.py:45 | `str` of a natural number is a non-empty string of decimal digits that reads back as that number, and it starts with '0' only for 0 |
| Boards.RowMajorValues | sudoku/sudoku.py:42-45 | the collected values are 81, and value 9r+c is the value of the cell in row r, column c |
| Boards.ShowAllDigits | sudoku/sudoku.py:45-46 | joining the `str` of values 0..9 gives one character per value: character i is the digit of value i |
| Boards.ShowAll | sudoku/sudoku.py:45-46 | no contract; see Boards.ShowAllDigits |
| Boards.BoardToString | sudoku/sudoku.py:40-46 | no contract; see Boards.BoardToStringDigits and the two round trips |
| Boards.BoardToStringDigits | sudoku/sudoku.py:40-46 | for a board of values 0..9 the text has 81 characters, and character 9r+c is the digit of row r, column c |
| Boards.Parse | sudoku/sudoku.py:252-253 | succeeds iff the first 81 characters exist and are digits; on success the board has exactly the 81 cells, each with value 0..9 read from character 9r+c; on failure the error names the first index in row-major order that is missing or not a digit. The same comprehension appears at lines 214-215 |
| Boards.BoardOf | sudoku/sudoku.py:252-253 | on a readable line, the comprehension builds a board with exactly the 81 cells whose values are the digits at 9r+c |
| Boards.FirstUnreadable | sudoku/sudoku.py:252-253 | no contract; see Boards.FirstUnreadableSpec |
| Boards.FirstUnreadableSpec | sudoku/sudoku.py:252-253 | scanning from a readable prefix finds no error iff the whole line is readable; any error it reports is the first missing or non-digit index |
| Boards.ParseBoardToString | sudoku/sudoku.py:40-46 | parsing the written text of a board with exactly the 81 cells and values 0..9 gives back that board |
| Boards.BoardToStringParse | sudoku/sudoku.py:252-253 | writing the board parsed from a readable line gives back the line's first 81 characters |
| Candidates.ValuesOf | sudoku/sudoku.py:109-111 | the list of values has one entry per cell, the value of that cell, in the same order |
| Candidates.DigitsNotIn | sudoku/sudoku.py:112-115 | the digits from `from` to 9 that are absent from the values, strictly ascending |
| Candidates.MissingNums | sudoku/sudoku.py:107-116 | the result is strictly ascending; a number is in it iff it is a digit 1..9 that no cell of the box holds |
| Candidates.AbsentFromValues | sudoku/sudoku.py:109-115 | a number is absent from the collected values iff no cell of the list holds it |
| Candidates.IsValidRow | sudoku/sudoku.py:118-123 | true iff no cell of the row holds the candidate |
| Candidates.IsValidCol | sudoku/sudoku.py:125-130 | true iff no cell of the column holds the candidate |
| Candidates.RowCells | sudoku/sudoku.py:120-121 | no contract; see Candidates.IsValidRow |
| Candidates.ColCells | sudoku/sudoku.py:127-128 | no contract; see Candidates.IsValidCol |
| Candidates.Admissible | sudoku/sudoku.py:59-62 | no contract; see Candidates.AdmissibleSpec |
| Candidates.AdmissibleSpec | sudoku/sudoku.py:59-62 | the appended numbers are exactly those of the missing list that pass both the row and the column test; an ascending input gives an ascending domain |
| Candidates.InitDomains | sudoku/sudoku.py:94-105 | every one of the 81 cells gets a domain and no other key does; a filled cell's domain is [its value]; an empty cell's is [] |
| DomainInit.BuildDomains | sudoku/sudoku.py:54-62 | the domains have exactly the 81 cells as keys; a filled cell keeps [its value]; an empty cell's domain lists, strictly ascending, exactly the digits 1..9 absent from its row, its column and its 3x3 block |
| DomainInit.FillBox | sudoku/sudoku.py:55-62 | one pass over a box gives each of its cells the domain the loop computes and changes no cell outside the box |
| DomainInit.FillSlot | sudoku/sudoku.py:57-62 | an empty cell receives the box's missing numbers that pass the row and column tests, in order; no other domain changes |
| DomainInit.AppendAdmissible | sudoku/sudoku.py:59-62 | appending, one by one, the numbers that pass both tests gives the filtered list; no other domain changes |
| DomainInit.VisitedDomainsMeetSpec | sudoku/sudoku.py:54-62 | domains as the loop leaves them meet the row/column/block description above |
| DomainInit.VisitedDomainIsCandidateList | sudoku/sudoku.py:59-62 | for an empty cell, the filtered missing numbers of its box are exactly the digits unused in its row, column and block, ascending |
| DomainInit.CandidateDigit | sudoku/sudoku.py:59-62 | for an empty cell, a digit is in its filtered domain iff no cell of its row, column or block holds it |
| DomainInit.BoxValuesAreBlockValues | sudoku/sudoku.py:16-25 | a digit is absent from box k iff it is absent from the 3x3 block of any cell of box k |
| Checker.EveryDigitFrom | sudoku/sudoku.py:149-154 | the loop over num from a start to 9 succeeds iff each of those numbers occurs in the list |
| Checker.HasEveryDigit | sudoku/sudoku.py:149-154 | true iff every digit 1..9 occurs in the list |
| Checker.CheckRow | sudoku/sudoku.py:149-154 | true iff every digit 1..9 occurs; for a list of nine values, iff it is a permutation of 1..9 (values 1..9, no duplicates) |
| Checker.CheckCol | sudoku/sudoku.py:167-170 | the same as `__checkRow`, on a column |
| Checker.NineCellsHoldEveryDigit | sudoku/sudoku.py:149-154 | nine values contain every digit 1..9 iff they are a permutation of 1..9 |
| Checker.RowOf | sudoku/sudoku.py:139-142 | the row list has the nine values of the row, columns 1..9 |
| Checker.ColOf | sudoku/sudoku.py:157-160 | the column list has the nine values of the column, rows A..I |
| Checker.BoxOf | sudoku/sudoku.py:174-176 | the box list has the nine values of the box's cells, in box order |
| Checker.CheckRowsFrom | sudoku/sudoku.py:138-147 | the loop from row r on succeeds iff each of those rows is a permutation of 1..9 |
| Checker.CheckRows | sudoku/sudoku.py:138-147 | true iff every row is a permutation of 1..9 |
| Checker.CheckColsFrom | sudoku/sudoku.py:156-165 | the loop from column c on succeeds iff each of those columns is a permutation of 1..9 |
| Checker.CheckCols | sudoku/sudoku.py:156-165 | true iff every column is a permutation of 1..9 |
| Checker.CompleteAccumulatorPasses | sudoku/sudoku.py:172-181 | once the never-cleared accumulator holds every digit, no later box can make the check fail |
| Checker.CheckBoxesFrom | sudoku/sudoku.py:172-181 | as written, with `vals` never cleared: from box k on, the loop succeeds iff the values accumulated so far plus box k hold every digit 1..9, so once that happens no later box can make it fail (later boxes are still read and appended) |
| Checker.CheckBoxes | sudoku/sudoku.py:172-181 | as written: true iff the first box (A1..C3) is a permutation of 1..9, whatever boxes 2-9 hold |
| Checker.IsSolution | sudoku/sudoku.py:132-136 | true iff every row and every column is a permutation of 1..9 and the first box is too |
| Checker.IsSolutionAcceptsUnsolvedGrid | sudoku/sudoku.py:132-181 | there is a grid with complete rows, columns and first box that `isSolution` accepts although box D1..F3 shows 3 twice; the corrected check rejects it |
| Checker.ShiftedFirstBox | sudoku/sudoku.py:172-181 | on that grid the first box holds 1..9 in order |
| Checker.ShiftedFourthBox | sudoku/sudoku.py:172-181 | on that grid box D1..F3 holds 3 at positions 1 and 3 |
| Checker.CheckEachBoxFrom | sudoku/sudoku.py:172-181 | corrected, with the accumulator cleared per box: from box k on, succeeds iff each box is a permutation of 1..9 |
| Checker.CheckEachBox | sudoku/sudoku.py:172-181 | corrected: true iff every box is a permutation of 1..9 |
| Checker.IsValidSolution | sudoku/sudoku.py:132-136 | corrected: true iff all 27 rows, columns and boxes are permutations of 1..9 |
| ForwardCheck.PruneEach | sudoku/sudoku.py:185-189 | one loop keeps the set of domain keys |
| ForwardCheck.ForwardChecking | sudoku/sudoku.py:183-206 | the three loops with their early returns behave as one loop over box, row and column cells in that order |
| ForwardCheck.Peers | sudoku/sudoku.py:185-205 | no contract; see ForwardCheck.ForwardChecking: the box cells, then the row cells, then the column cells |
| ForwardCheck.PruneEachAppend | sudoku/sudoku.py:183-206 | running a loop over xs and then, if it succeeded, over ys is the loop over xs followed by ys |
| ForwardCheck.FirstConflict | sudoku/sudoku.py:185-189 | the position of the first visited cell whose domain is exactly [val], or the number of cells if none is |
| ForwardCheck.PruneEachSpec | sudoku/sudoku.py:185-189 | with duplicate-free domains, a loop fails iff a visited cell's domain is [val]. Cells visited before the first such cell lose val and keep their other values in order. Every other domain is unchanged, on failure too. All domains stay duplicate-free |
| ForwardCheck.FirstConflictAgree | sudoku/sudoku.py:185-189 | changing a domain that is [val] neither before nor after does not move the first conflict |
| ForwardCheck.PruneEachSucceeds | sudoku/sudoku.py:185-189 | with duplicate-free domains, a loop succeeds iff no visited cell's domain is [val]; then every visited domain has lost val, order kept, and every other domain is unchanged |
| ForwardCheck.ForwardCheckingSpec | sudoku/sudoku.py:183-206 | returns True iff no box, row or column cell (the assigned cell included) has domain [val]. On True, each of those cells has lost val with the order of its other values kept, and all other domains are unchanged. On False, the cell where it stopped has domain [val], and only the cells visited before it have lost val |
| ForwardCheck.AssignedCellStopsForwardChecking | sudoku/sudoku.py:66-69 | at the call in `backtracking` the assigned cell is in the box with domain [val], so the call returns False and no cell outside the box loses val, whatever the other domains hold (duplicates included) |
| ForwardCheck.StopsBy | sudoku/sudoku.py:185-189 | if a visited cell's domain is [val], the loop returns False no later than that cell, and only cells visited before it can have changed; no assumption about duplicates |
| ForwardCheck.Except | sudoku/sudoku.py:183-206 | the visited cells without the assigned cell |
| ForwardCheck.ForwardCheckPeers | sudoku/sudoku.py:183-206 | corrected: the same three loops, skipping the assigned cell |
| ForwardCheck.ForwardCheckPeersSpec | sudoku/sudoku.py:183-206 | corrected, with duplicate-free domains, after writing val into a cell whose domain is [val]: succeeds iff no other peer's domain is [val]; then every other peer has lost val (order kept), the assigned cell keeps [val], and all other domains are unchanged |
| ForwardCheck.InitialDomainsAreDistinct | sudoku/sudoku.py:54-62 | the domains as they stand after the whole initialisation loop have no duplicates, so the duplicate-free forward-checking results apply to them; it says nothing about domains in the middle of the loop |

## Left out

- Printing is not modelled. This covers `print_board` (lines 30-37), the diagnostic `print` calls inside the checks and `__tryTwos`, and the whole `__main__` block (lines 208-270). That block reads `sys.argv` or `sudokus_start.txt`, skips lines shorter than 9 characters, and writes `output.txt`. It is input/output around the modelled functions.
- The recursive part of `backtracking` (lines 66-75) is not modelled, and neither are `__tryTwos` (lines 77-89) and `__candidateWorks` (lines 91-92). The code is unfinished:
  - `__candidateWorks` has no body, so the file does not even parse;
  - the result of the recursive call is ignored;
  - the MRV call is commented out.
  The only property stated about this code is the line-69 call, under Findings.
- MRV selection and a full search are not modelled: they do not appear in the code.
- DomainInit.BuildDomains: runs the loop of lines 54-62 as if lines 66-70 were absent. In the source those lines run after each box, so they can write digits into the board before later boxes are visited, and they recurse.
- Candidates.InitDomains: takes the board as a parameter. `__initDomains` reads a module-level `board` variable, which exists only when the script runs as a program.
- Boards.Parse: treats only '0'..'9' as digits. Python's `int()` also accepts other Unicode decimal digits, such as Arabic-Indic digits, and the model reports those as `NotADigit`.
- Requires clauses stand for Python's `KeyError` and `IndexError` paths. The operations that look cells up (IsValidRow, IsValidCol, MissingNums, InitDomains, the checks, ForwardChecking) require that the cells they read are present, and that the assigned cell name has at least two characters. The model does not represent the exception.
- ForwardCheck.ForwardCheckingSpec: requires every domain to be free of duplicates. With duplicates, `list.remove` would drop only the first copy of val, and the description in terms of filtering would not hold. ForwardCheck.InitialDomainsAreDistinct shows that the domains are duplicate-free once the initialisation loop of lines 54-62 has run; it does not cover the call at line 69, which happens in the middle of that loop. That call is described by ForwardCheck.AssignedCellStopsForwardChecking, which needs no such requirement.
- ForwardCheck.PruneEachSpec: has the same duplicate-free requirement, for the same reason.
- The model uses unbounded integers. Python integers are unbounded too, so nothing is lost.

## Findings

| source | as written | input that shows it | evidently intended | confidence | as-written member | corrected member |
|---|---|---|---|---|---|---|
| sudoku/sudoku.py:172-181 | `vals` is created once before the loop over boxes and never cleared, so after the first box every digit is already present and boxes 2-9 are never really tested | row r is 1..9 shifted cyclically by [0,3,6,1,2,4,5,7,8][r]: all rows, all columns and box A1..C3 are complete, yet box D1..F3 holds 3 at D2 and E1; `isSolution` returns True | each box holds every digit 1..9 (clear `vals` per box) | not executed; high | Checker.CheckBoxes (counterexample: Checker.IsSolutionAcceptsUnsolvedGrid) | Checker.CheckEachBox, Checker.IsValidSolution |
| sudoku/sudoku.py:66-69 | `__forwardChecking` is called with the assigned cell's own box while that cell's domain is [val]; the box loop reaches the cell, finds val in a domain of length 1 and returns False, so row and column peers are never pruned (and the False is ignored) | any board on which an empty cell gets the single-candidate domain [v] during initialisation, e.g. a cell whose row, column and box together use eight different digits | remove val from every other cell of the box, row and column, failing only if another peer's domain is [val] | not executed; high | ForwardCheck.AssignedCellStopsForwardChecking | ForwardCheck.ForwardCheckPeers (property: ForwardCheck.ForwardCheckPeersSpec) |
