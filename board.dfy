/** The board of the game and the win check.

    A board is a 3×3 grid of cells stored row by row. `WinnerOf` scans the
    fixed table of eight winning lines over the row-major flattening of the
    board and reports the first line whose three cells hold the same mark;
    `CalculateWinner` is the same scan written as the loop it is in the
    program, proved to agree with `WinnerOf`. `ReferenceWinner` states the
    same rule in grid coordinates, without the table, and the two are proved
    equal. */
module Board {

  /** A square: empty (the program's `null`) or one player's mark. */
  datatype Cell = Empty | X | O

  /** A board, as a sequence of rows. Boards are values, so every copy of one
      (in the history, in the current state) is independent of the others. */
  type Matrix = seq<seq<Cell>>

  /** A position in the row-major flattening of a 3×3 board. */
  type Index = i: nat | i < 9

  /** The side of the board the game is played on. */
  const Size: nat := 3

  /** `m` has `n` rows of `n` cells each. */
  predicate IsSquare(m: Matrix, n: nat)
  {
    |m| == n && forall r :: 0 <= r < n ==> |m[r]| == n
  }

  /** `m` is a 3×3 board. */
  predicate IsBoard(m: Matrix)
  {
    IsSquare(m, Size)
  }

  /** Every cell of the 3×3 board `m` holds a mark. */
  predicate Full(m: Matrix)
    requires IsBoard(m)
  {
    forall r, c :: 0 <= r < Size && 0 <= c < Size ==> m[r][c] != Empty
  }

  /** An `n`×`n` board of empty cells. */
  function CreateMatrix(n: nat): (m: Matrix)
    ensures IsSquare(m, n)
    ensures forall r, c :: 0 <= r < n && 0 <= c < n ==> m[r][c] == Empty
  {
    seq(n, _ => seq(n, _ => Empty))
  }

  /** The board `m` with cell (`r`, `c`) set to `v`; `m` itself is a value and
      is not changed. */
  function Place(m: Matrix, r: nat, c: nat, v: Cell): (m': Matrix)
    requires IsBoard(m) && r < Size && c < Size
    ensures IsBoard(m')
    ensures m'[r][c] == v
    ensures forall i, j :: 0 <= i < Size && 0 <= j < Size && (i != r || j != c) ==> m'[i][j] == m[i][j]
  {
    m[r := m[r][c := v]]
  }

  /** The rows of `m` laid end to end. */
  function Flatten(m: Matrix): seq<Cell>
  {
    if |m| == 0 then [] else m[0] + Flatten(m[1..])
  }

  lemma {:induction false} FlattenLength(m: Matrix, n: nat)
    requires forall i :: 0 <= i < |m| ==> |m[i]| == n
    ensures |Flatten(m)| == |m| * n
  {
    if |m| > 0 {
      FlattenLength(m[1..], n);
      assert |m| * n == n + (|m| - 1) * n;
    }
  }

  /** Cell (`r`, `c`) of a board with rows of length `n` sits at position
      `r * n + c` of its flattening. */
  lemma {:induction false} FlattenIndex(m: Matrix, n: nat, r: nat, c: nat)
    requires forall i :: 0 <= i < |m| ==> |m[i]| == n
    requires r < |m| && c < n
    ensures r * n + c < |Flatten(m)|
    ensures Flatten(m)[r * n + c] == m[r][c]
  {
    assert Flatten(m) == m[0] + Flatten(m[1..]);
    if r > 0 {
      var rest := m[1..];
      FlattenIndex(rest, n, r - 1, c);
      var k := (r - 1) * n + c;
      assert r * n + c == n + k by {
        assert r * n == (r - 1) * n + n;
      }
      assert Flatten(m)[n + k] == Flatten(rest)[k];
    }
  }

  /** The flattening of a 3×3 board has nine cells, cell (`r`, `c`) at `r * 3 + c`. */
  lemma FlatBoard(m: Matrix)
    requires IsBoard(m)
    ensures |Flatten(m)| == 9
    ensures forall r, c :: 0 <= r < Size && 0 <= c < Size ==> Flatten(m)[r * 3 + c] == m[r][c]
  {
    FlattenLength(m, Size);
    forall r, c | 0 <= r < Size && 0 <= c < Size
      ensures Flatten(m)[r * 3 + c] == m[r][c]
    {
      FlattenIndex(m, Size, r, c);
    }
  }

  /** The winning lines, as positions in the flattened board, in the order
      they are checked: the three rows, the three columns, the two diagonals. */
  const Lines: seq<(Index, Index, Index)> := [
    (0, 1, 2), (3, 4, 5), (6, 7, 8),
    (0, 3, 6), (1, 4, 7), (2, 5, 8),
    (0, 4, 8), (2, 4, 6)
  ]

  /** Three cells that hold the same mark. */
  predicate Same3(x: Cell, y: Cell, z: Cell)
  {
    x != Empty && x == y && x == z
  }

  /** Line number `i` of the table is complete on the flattened board `flat`. */
  predicate LineWon(flat: seq<Cell>, i: nat)
    requires |flat| == 9 && i < |Lines|
  {
    var (a, b, c) := Lines[i];
    Same3(flat[a], flat[b], flat[c])
  }

  /** Line number `j` is complete and no line before it in the table is. */
  predicate IsFirstWin(flat: seq<Cell>, j: nat)
    requires |flat| == 9 && j < |Lines|
  {
    LineWon(flat, j) && forall k :: 0 <= k < j ==> !LineWon(flat, k)
  }

  /** The positions of line number `i`, as the program reports them. */
  function LineCells(i: nat): seq<nat>
    requires i < |Lines|
  {
    var (a, b, c) := Lines[i];
    [a, b, c]
  }

  /** What the win check reports: no winner, or the winning mark and its line. */
  datatype Outcome = NoWinner | Won(winner: Cell, line: seq<nat>)

  /** The number of the first complete line at or after `i`, or `|Lines|` if
      there is none. */
  function FirstLine(flat: seq<Cell>, i: nat): (j: nat)
    requires |flat| == 9 && i <= |Lines|
    ensures i <= j <= |Lines|
    ensures j < |Lines| ==> LineWon(flat, j)
    ensures forall k :: i <= k < j ==> !LineWon(flat, k)
    decreases |Lines| - i
  {
    if i == |Lines| then i
    else if LineWon(flat, i) then i
    else FirstLine(flat, i + 1)
  }

  /** The first complete line of the table, and the mark on it. */
  function WinnerOf(m: Matrix): (r: Outcome)
    requires IsBoard(m)
    ensures |Flatten(m)| == 9
    ensures r.NoWinner? <==> forall j :: 0 <= j < |Lines| ==> !LineWon(Flatten(m), j)
    ensures r.Won? ==> exists j :: 0 <= j < |Lines| && IsFirstWin(Flatten(m), j) && r.line == LineCells(j)
    ensures forall j :: 0 <= j < |Lines| && IsFirstWin(Flatten(m), j) ==>
              r == Won(Flatten(m)[Lines[j].0], LineCells(j))
    ensures r.Won? ==> (r.winner != Empty && |r.line| == 3 &&
                        forall k :: 0 <= k < 3 ==> r.line[k] < 9 && Flatten(m)[r.line[k]] == r.winner)
  {
    FlatBoard(m);
    var flat := Flatten(m);
    var j := FirstLine(flat, 0);
    if j == |Lines| then NoWinner
    else
      assert IsFirstWin(flat, j);
      var (a, b, c) := Lines[j];
      Won(flat[a], [a, b, c])
  }

  /** The win check as the program runs it: a loop over the line table that
      returns at the first complete line. */
  method CalculateWinner(matrix: Matrix) returns (r: Outcome)
    requires IsBoard(matrix)
    ensures r == WinnerOf(matrix)
  {
    FlatBoard(matrix);
    var flat := Flatten(matrix);
    for i := 0 to |Lines|
      invariant forall k :: 0 <= k < i ==> !LineWon(flat, k)
    {
      var (a, b, c) := Lines[i];
      if flat[a] != Empty && flat[a] == flat[b] && flat[a] == flat[c] {
        assert IsFirstWin(flat, i);
        return Won(flat[a], [a, b, c]);
      }
    }
    return NoWinner;
  }

  /** The first complete row at or below row `r`, in grid coordinates. */
  function RowWinner(m: Matrix, r: nat): Outcome
    requires IsBoard(m) && r <= Size
    decreases Size - r
  {
    if r == Size then NoWinner
    else if Same3(m[r][0], m[r][1], m[r][2]) then Won(m[r][0], [r * 3, r * 3 + 1, r * 3 + 2])
    else RowWinner(m, r + 1)
  }

  /** The first complete column at or right of column `c`, in grid coordinates. */
  function ColumnWinner(m: Matrix, c: nat): Outcome
    requires IsBoard(m) && c <= Size
    decreases Size - c
  {
    if c == Size then NoWinner
    else if Same3(m[0][c], m[1][c], m[2][c]) then Won(m[0][c], [c, c + 3, c + 6])
    else ColumnWinner(m, c + 1)
  }

  /** The win rule stated on the grid: the first complete row, else the first
      complete column, else the main diagonal, else the anti-diagonal. */
  function ReferenceWinner(m: Matrix): Outcome
    requires IsBoard(m)
  {
    var rows := RowWinner(m, 0);
    var columns := ColumnWinner(m, 0);
    if rows.Won? then rows
    else if columns.Won? then columns
    else if Same3(m[0][0], m[1][1], m[2][2]) then Won(m[0][0], [0, 4, 8])
    else if Same3(m[0][2], m[1][1], m[2][0]) then Won(m[0][2], [2, 4, 6])
    else NoWinner
  }

  /** Some row, column or diagonal of `m` holds three equal marks. */
  predicate HasThreeInARow(m: Matrix)
    requires IsBoard(m)
  {
    (exists r :: 0 <= r < Size && Same3(m[r][0], m[r][1], m[r][2])) ||
    (exists c :: 0 <= c < Size && Same3(m[0][c], m[1][c], m[2][c])) ||
    Same3(m[0][0], m[1][1], m[2][2]) ||
    Same3(m[0][2], m[1][1], m[2][0])
  }

  /** The table scan reports exactly what the grid rule does: the same winner,
      the same line, and the same tie-break (rows, then columns, then
      diagonals, each in order). */
  lemma WinnerOfIsReference(m: Matrix)
    requires IsBoard(m)
    ensures WinnerOf(m) == ReferenceWinner(m)
  {
    FlatBoard(m);
    var flat := Flatten(m);
    assert flat[0] == m[0][0] && flat[1] == m[0][1] && flat[2] == m[0][2];
    assert flat[3] == m[1][0] && flat[4] == m[1][1] && flat[5] == m[1][2];
    assert flat[6] == m[2][0] && flat[7] == m[2][1] && flat[8] == m[2][2];
    assert FirstLine(flat, 0) == if LineWon(flat, 0) then 0 else FirstLine(flat, 1);
    assert FirstLine(flat, 1) == if LineWon(flat, 1) then 1 else FirstLine(flat, 2);
    assert FirstLine(flat, 2) == if LineWon(flat, 2) then 2 else FirstLine(flat, 3);
    assert FirstLine(flat, 3) == if LineWon(flat, 3) then 3 else FirstLine(flat, 4);
    assert FirstLine(flat, 4) == if LineWon(flat, 4) then 4 else FirstLine(flat, 5);
    assert FirstLine(flat, 5) == if LineWon(flat, 5) then 5 else FirstLine(flat, 6);
    assert FirstLine(flat, 6) == if LineWon(flat, 6) then 6 else FirstLine(flat, 7);
    assert FirstLine(flat, 7) == if LineWon(flat, 7) then 7 else FirstLine(flat, 8);
    assert RowWinner(m, 1) == if Same3(m[1][0], m[1][1], m[1][2]) then Won(m[1][0], [3, 4, 5]) else RowWinner(m, 2);
    assert RowWinner(m, 2) == if Same3(m[2][0], m[2][1], m[2][2]) then Won(m[2][0], [6, 7, 8]) else NoWinner;
    assert ColumnWinner(m, 1) == if Same3(m[0][1], m[1][1], m[2][1]) then Won(m[0][1], [1, 4, 7]) else ColumnWinner(m, 2);
    assert ColumnWinner(m, 2) == if Same3(m[0][2], m[1][2], m[2][2]) then Won(m[0][2], [2, 5, 8]) else NoWinner;
  }

  /** No winner is reported exactly when no row, column or diagonal holds
      three equal marks. */
  lemma NoWinnerIffNoThreeInARow(m: Matrix)
    requires IsBoard(m)
    ensures WinnerOf(m).NoWinner? <==> !HasThreeInARow(m)
  {
    WinnerOfIsReference(m);
    assert RowWinner(m, 1) == if Same3(m[1][0], m[1][1], m[1][2]) then Won(m[1][0], [3, 4, 5]) else RowWinner(m, 2);
    assert RowWinner(m, 2) == if Same3(m[2][0], m[2][1], m[2][2]) then Won(m[2][0], [6, 7, 8]) else NoWinner;
    assert ColumnWinner(m, 1) == if Same3(m[0][1], m[1][1], m[2][1]) then Won(m[0][1], [1, 4, 7]) else ColumnWinner(m, 2);
    assert ColumnWinner(m, 2) == if Same3(m[0][2], m[1][2], m[2][2]) then Won(m[0][2], [2, 5, 8]) else NoWinner;
  }

  /** A reported line is on the board: its three cells, in grid coordinates,
      all hold the winning mark. */
  lemma WinningLineOnGrid(m: Matrix)
    requires IsBoard(m) && WinnerOf(m).Won?
    ensures forall k, r, c :: 0 <= k < 3 && 0 <= r < Size && 0 <= c < Size && WinnerOf(m).line[k] == r * 3 + c ==>
              m[r][c] == WinnerOf(m).winner
  {
    FlatBoard(m);
  }

  /** The number of marked cells of a row. */
  function Count(row: seq<Cell>): nat
  {
    if |row| == 0 then 0 else (if row[0] != Empty then 1 else 0) + Count(row[1..])
  }

  /** The number of marked cells of a board. */
  function Filled(m: Matrix): nat
  {
    if |m| == 0 then 0 else Count(m[0]) + Filled(m[1..])
  }

  lemma {:induction false} CountUpdate(row: seq<Cell>, c: nat, v: Cell)
    requires c < |row|
    ensures Count(row[c := v]) + (if row[c] != Empty then 1 else 0) == Count(row) + (if v != Empty then 1 else 0)
  {
    if c > 0 {
      CountUpdate(row[1..], c - 1, v);
      assert row[c := v][1..] == row[1..][c - 1 := v];
    }
  }

  lemma {:induction false} FilledUpdate(m: Matrix, r: nat, row: seq<Cell>)
    requires r < |m|
    ensures Filled(m[r := row]) + Count(m[r]) == Filled(m) + Count(row)
  {
    if r > 0 {
      FilledUpdate(m[1..], r - 1, row);
      assert m[r := row][1..] == m[1..][r - 1 := row];
    }
  }

  lemma {:induction false} CountBound(row: seq<Cell>)
    ensures Count(row) <= |row|
    ensures Count(row) == |row| <==> forall i :: 0 <= i < |row| ==> row[i] != Empty
    ensures Count(row) == 0 <==> forall i :: 0 <= i < |row| ==> row[i] == Empty
  {
    if |row| > 0 {
      CountBound(row[1..]);
      assert forall i :: 0 < i < |row| ==> row[i] == row[1..][i - 1];
    }
  }

  /** The count of a 3×3 board, row by row. */
  lemma FilledRows(m: Matrix)
    requires IsBoard(m)
    ensures Filled(m) == Count(m[0]) + Count(m[1]) + Count(m[2])
  {
    assert m[1..][0] == m[1] && m[1..][1..] == m[2..];
    assert m[2..][0] == m[2] && m[2..][1..] == [];
    assert Filled(m[2..]) == Count(m[2]);
  }

  /** A marked cell placed on an empty one raises the count by one. */
  lemma PlaceFills(m: Matrix, r: nat, c: nat, v: Cell)
    requires IsBoard(m) && r < Size && c < Size
    requires m[r][c] == Empty && v != Empty
    ensures Filled(Place(m, r, c, v)) == Filled(m) + 1
  {
    CountUpdate(m[r], c, v);
    FilledUpdate(m, r, m[r][c := v]);
  }

  /** A board has at most nine marks, and nine exactly when it is full. */
  lemma FilledBoard(m: Matrix)
    requires IsBoard(m)
    ensures Filled(m) <= 9
    ensures Filled(m) == 9 <==> Full(m)
  {
    FilledRows(m);
    CountBound(m[0]);
    CountBound(m[1]);
    CountBound(m[2]);
  }

  /** The board the game starts from has no marks. */
  lemma EmptyBoardUnfilled()
    ensures Filled(CreateMatrix(Size)) == 0
  {
    var m := CreateMatrix(Size);
    FilledRows(m);
    CountBound(m[0]);
    CountBound(m[1]);
    CountBound(m[2]);
  }
}
