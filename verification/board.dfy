/**
 Boards and their 81-character text form. A board maps every cell name
 ("A1" .. "I9") to an integer, 0 meaning an empty cell. `BoardToString`
 writes the values row by row; `Parse` reads the first 81 characters of a
 line back into a board, failing the way Python's indexing and `int()` fail.
 */
module Boards {
  import opened Grid

  type Board = map<string, int>

  datatype Result<T, E> = Ok(value: T) | Err(error: E)

  /** Why a line is not a board: it ends before index `index`, or the
      character there is not a decimal digit. */
  datatype ParseError = MissingChar(index: nat) | NotADigit(index: nat, ch: char)

  /** Every cell has a value (no lookup of a cell raises a KeyError). */
  predicate HasAllCells(b: Board) {
    forall r, c :: 0 <= r < 9 && 0 <= c < 9 ==> Name(r, c) in b
  }

  /** A board as the parser produces it: exactly the 81 cells, values 0..9. */
  predicate IsDigitBoard(b: Board) {
    && b.Keys == Cells
    && forall s :: s in b ==> 0 <= b[s] <= 9
  }

  predicate IsDigit(ch: char) {
    '0' <= ch <= '9'
  }

  function DigitChar(d: int): (ch: char)
    requires 0 <= d <= 9
    ensures IsDigit(ch) && DigitValue(ch) == d
  {
    ('0' as int + d) as char
  }

  function DigitValue(ch: char): (d: int)
    requires IsDigit(ch)
    ensures 0 <= d <= 9
  {
    ch as int - '0' as int
  }

  /** Python's `str(n)` for an integer: decimal digits, a leading '-' when negative. */
  function Show(n: int): (s: string)
    ensures 0 <= n <= 9 ==> s == [DigitChar(n)]
  {
    if n < 0 then "-" + ShowNat(-n) else ShowNat(n)
  }

  /** `str` of a natural number: its decimal digits, most significant
      first, with no leading zero. */
  function ShowNat(n: nat): (s: string)
    ensures |s| >= 1
    ensures forall i :: 0 <= i < |s| ==> IsDigit(s[i])
    ensures DecimalValue(s) == n
    ensures s[0] == '0' <==> n == 0
  {
    if n < 10 then [DigitChar(n)]
    else
      var s := ShowNat(n / 10) + [DigitChar(n % 10)];
      assert s[..|s| - 1] == ShowNat(n / 10);
      s
  }

  /** The number a string of decimal digits spells, most significant first. */
  function DecimalValue(s: string): int
    requires forall i :: 0 <= i < |s| ==> IsDigit(s[i])
  {
    if |s| == 0 then 0 else 10 * DecimalValue(s[..|s| - 1]) + DigitValue(s[|s| - 1])
  }

  /** The cell values in row-major order: rows A..I, each from column 1 to 9. */
  function RowMajorValues(b: Board): (vals: seq<int>)
    requires HasAllCells(b)
    ensures |vals| == 81
    ensures forall r, c :: 0 <= r < 9 && 0 <= c < 9 ==> vals[9 * r + c] == b[Name(r, c)]
  {
    var vals := seq(81, i requires 0 <= i < 81 => b[RowMajorCell(i)]);
    assert forall r, c :: 0 <= r < 9 && 0 <= c < 9 ==> vals[9 * r + c] == b[Name(r, c)] by {
      forall r, c | 0 <= r < 9 && 0 <= c < 9 ensures vals[9 * r + c] == b[Name(r, c)] {
        RowMajorCellOf(r, c);
      }
    }
    vals
  }

  /** `''.join` of the `str` of each value. */
  function ShowAll(vals: seq<int>): string {
    if |vals| == 0 then "" else Show(vals[0]) + ShowAll(vals[1..])
  }

  /** `board_to_string`: the values of rows A..I, each from column 1 to 9, written one after the other. */
  function BoardToString(b: Board): string
    requires HasAllCells(b)
  {
    ShowAll(RowMajorValues(b))
  }

  /** Values that are single digits are written one character each. */
  lemma {:induction false} ShowAllDigits(vals: seq<int>)
    requires forall i :: 0 <= i < |vals| ==> 0 <= vals[i] <= 9
    ensures |ShowAll(vals)| == |vals|
    ensures forall i :: 0 <= i < |vals| ==> ShowAll(vals)[i] == DigitChar(vals[i])
  {
    if |vals| > 0 {
      ShowAllDigits(vals[1..]);
      assert ShowAll(vals) == [DigitChar(vals[0])] + ShowAll(vals[1..]);
    }
  }

  /** For a board of single digits the text has one character per cell:
      character 9*r + c is the digit in row r, column c. */
  lemma BoardToStringDigits(b: Board)
    requires HasAllCells(b)
    requires forall r, c :: 0 <= r < 9 && 0 <= c < 9 ==> 0 <= b[Name(r, c)] <= 9
    ensures |BoardToString(b)| == 81
    ensures forall i :: 0 <= i < 81 ==> IsDigit(BoardToString(b)[i])
    ensures forall r, c :: 0 <= r < 9 && 0 <= c < 9 ==> BoardToString(b)[9 * r + c] == DigitChar(b[Name(r, c)])
  {
    var vals := RowMajorValues(b);
    forall i | 0 <= i < 81 ensures 0 <= vals[i] <= 9 {
      var r, c := i / 9, i % 9;
      assert i == 9 * r + c;
    }
    ShowAllDigits(vals);
  }

  lemma DigitRoundTrip(ch: char)
    requires IsDigit(ch)
    ensures DigitChar(DigitValue(ch)) == ch
  {
  }

  /** The first index below 81, at or after `i`, that the parser cannot read. */
  function FirstUnreadable(s: string, i: nat): (e: Result<(), ParseError>)
    requires i <= 81
    decreases 81 - i
  {
    if i == 81 then Ok(())
    else if i >= |s| then Err(MissingChar(i))
    else if !IsDigit(s[i]) then Err(NotADigit(i, s[i]))
    else FirstUnreadable(s, i + 1)
  }

  /** A line the parser accepts: at least 81 characters, the first 81 digits. */
  predicate Readable(s: string) {
    |s| >= 81 && forall i :: 0 <= i < 81 ==> IsDigit(s[i])
  }

  /** The inline parser `{ROW[r] + COL[c]: int(line[9*r+c]) for r in range(9) for c in range(9)}`.
      Characters after the 81st are ignored; the error is the one raised at the
      first unreadable index, in the comprehension's row-major order. */
  function Parse(s: string): (res: Result<Board, ParseError>)
    ensures res.Ok? <==> Readable(s)
    ensures res.Ok? ==> IsDigitBoard(res.value)
    ensures res.Ok? ==> forall r, c :: 0 <= r < 9 && 0 <= c < 9 ==> res.value[Name(r, c)] == DigitValue(s[9 * r + c])
    ensures res.Err? ==> ParseFailsAt(s, res.error)
  {
    match FirstUnreadable(s, 0)
    case Err(e) =>
      FirstUnreadableSpec(s, 0);
      Err(e)
    case Ok(_) =>
      FirstUnreadableSpec(s, 0);
      Ok(BoardOf(s))
  }

  /** The dictionary comprehension itself, on a line it can read: cell
      (r, c) takes the digit at position 9*r + c. */
  function BoardOf(s: string): (b: Board)
    requires Readable(s)
    ensures IsDigitBoard(b)
    ensures forall r, c :: 0 <= r < 9 && 0 <= c < 9 ==> b[Name(r, c)] == DigitValue(s[9 * r + c])
  {
    CellsHaveIndex();
    var b := map k | k in Cells :: DigitValue(s[CellIndex(k)]);
    assert forall r, c :: 0 <= r < 9 && 0 <= c < 9 ==> b[Name(r, c)] == DigitValue(s[9 * r + c]) by {
      forall r, c | 0 <= r < 9 && 0 <= c < 9 ensures Name(r, c) in b && b[Name(r, c)] == DigitValue(s[9 * r + c]) {
        assert Name(r, c) in Cells;
        CellIndexOfName(r, c);
      }
    }
    b
  }

  /** `e` is the error for the first index below 81 that cannot be read. */
  ghost predicate ParseFailsAt(s: string, e: ParseError) {
    && e.index < 81
    && e.index <= |s|
    && (forall j :: 0 <= j < e.index ==> IsDigit(s[j]))
    && (match e
        case MissingChar(i) => i == |s|
        case NotADigit(i, ch) => i < |s| && ch == s[i] && !IsDigit(ch))
  }

  lemma {:induction false} FirstUnreadableSpec(s: string, i: nat)
    requires i <= 81 && i <= |s|
    requires forall j :: 0 <= j < i ==> IsDigit(s[j])
    ensures FirstUnreadable(s, i).Ok? <==> Readable(s)
    ensures FirstUnreadable(s, i).Err? ==> ParseFailsAt(s, FirstUnreadable(s, i).error)
    decreases 81 - i
  {
    if i < 81 && i < |s| && IsDigit(s[i]) {
      FirstUnreadableSpec(s, i + 1);
    }
  }

  /** Round trip: writing a parsed-form board and parsing the text gives the board back. */
  lemma ParseBoardToString(b: Board)
    requires IsDigitBoard(b)
    ensures Parse(BoardToString(b)) == Ok(b)
  {
    DigitBoardIsReadable(b);
    var b' := Parse(BoardToString(b)).value;
    SameCellValuesSameBoard(b, b');
  }

  /** The text of a parsed-form board is one the parser reads, digit for digit. */
  lemma DigitBoardIsReadable(b: Board)
    requires IsDigitBoard(b)
    ensures HasAllCells(b)
    ensures Readable(BoardToString(b))
    ensures forall r, c :: 0 <= r < 9 && 0 <= c < 9 ==> BoardToString(b)[9 * r + c] == DigitChar(b[Name(r, c)])
  {
    assert HasAllCells(b) by {
      forall r, c | 0 <= r < 9 && 0 <= c < 9 ensures Name(r, c) in b {
        assert Name(r, c) in Cells;
      }
    }
    BoardToStringDigits(b);
  }

  /** Two parsed-form boards that agree on every cell are the same board. */
  lemma SameCellValuesSameBoard(b: Board, b': Board)
    requires IsDigitBoard(b) && IsDigitBoard(b')
    requires forall r, c :: 0 <= r < 9 && 0 <= c < 9 ==> b'[Name(r, c)] == b[Name(r, c)]
    ensures b' == b
  {
    forall k | k in b ensures b'[k] == b[k] {
      var r, c :| 0 <= r < 9 && 0 <= c < 9 && k == Name(r, c);
    }
  }

  /** Round trip the other way: the written form of a parsed line is the line's first 81 characters. */
  lemma BoardToStringParse(s: string)
    requires Readable(s)
    ensures Parse(s).Ok?
    ensures BoardToString(Parse(s).value) == s[..81]
  {
    var b := Parse(s).value;
    BoardToStringDigits(b);
    var t := BoardToString(b);
    forall i | 0 <= i < 81 ensures t[i] == s[i] {
      var r, c := i / 9, i % 9;
      assert i == 9 * r + c;
      assert t[i] == DigitChar(b[Name(r, c)]);
      assert b[Name(r, c)] == DigitValue(s[i]);
      DigitRoundTrip(s[i]);
    }
  }
}
