/** The game engine of the App component: the current board, the history of
    boards with the move that produced each, whose turn it is and the
    highlighted cell.

    `Click` and `Jump` are the state changes of a click on a cell and of a
    jump back to a history entry, written as functions of the state; the
    class `Game` holds the state in fields and its methods `HandleClick` and
    `JumpTo` are proved to change it as those functions say. `DeriveView` is
    the status line and winning line shown for a state. `ValidState` is the
    invariant every reachable state keeps. */
module Game {
  import opened Board

  /** The move recorded with a history entry. The first entry has none (the
      program records it with no row, no column and an empty play). */
  datatype Move = Initial | Placed(r: nat, c: nat, play: Cell)

  /** One history entry: a move and the board right after it. */
  datatype Entry = Entry(move: Move, matrix: Matrix)

  /** The highlighted cell: none at the start, else the cell of the last move. */
  datatype Selection = NoSelection | At(r: nat, c: nat)

  /** The state the component keeps. */
  datatype State = State(matrix: Matrix, history: seq<Entry>, xPlayer: bool, selected: Selection)

  /** The status line. */
  datatype Status = Winner(w: Cell) | Draw | NextPlayer(p: Cell)

  /** What is shown for a state: the status line and the cells of the
      winning line (none while there is no winner). */
  datatype View = View(status: Status, winLine: seq<nat>)

  /** The mark of the player to move. */
  function PlayOf(xPlayer: bool): Cell
  {
    if xPlayer then X else O
  }

  /** The cell a recorded move selects. */
  function SelectionOf(m: Move): Selection
  {
    match m
    case Initial => NoSelection
    case Placed(r, c, _) => At(r, c)
  }

  /** The first history entry: no move, an empty board. */
  const StartEntry: Entry := Entry(Initial, CreateMatrix(Size))

  /** The state the game starts in: an empty board, X to move. */
  function Start(): State
  {
    State(CreateMatrix(Size), [StartEntry], true, NoSelection)
  }

  /** A click on the empty cell (`row`, `col`): ignored on a board that has a
      winner, otherwise the player to move marks the cell, the turn passes,
      the new board is recorded in the history and the cell is selected. */
  function Click(s: State, row: nat, col: nat): (t: State)
    requires IsBoard(s.matrix) && row < Size && col < Size && s.matrix[row][col] == Empty
    ensures IsBoard(t.matrix)
    ensures WinnerOf(s.matrix).Won? ==> t == s
    ensures WinnerOf(s.matrix).NoWinner? ==>
              && t.matrix[row][col] == PlayOf(s.xPlayer)
              && (forall i, j :: 0 <= i < Size && 0 <= j < Size && (i != row || j != col) ==>
                    t.matrix[i][j] == s.matrix[i][j])
              && t.xPlayer == !s.xPlayer
              && t.selected == At(row, col)
              && |t.history| == |s.history| + 1
              && t.history[..|s.history|] == s.history
              && t.history[|s.history|] == Entry(Placed(row, col, PlayOf(s.xPlayer)), t.matrix)
  {
    if WinnerOf(s.matrix).Won? then s
    else
      var play := PlayOf(s.xPlayer);
      var m := Place(s.matrix, row, col, play);
      assert (s.history + [Entry(Placed(row, col, play), m)])[..|s.history|] == s.history;
      State(m, s.history + [Entry(Placed(row, col, play), m)], !s.xPlayer, At(row, col))
  }

  /** A jump to history entry `k`: the history is cut after that entry, its
      board is restored, the player after its move is to move (X after the
      first entry) and its cell is selected. */
  function Jump(s: State, k: nat): (t: State)
    requires k < |s.history|
    ensures t.history == s.history[..k + 1]
    ensures t.matrix == s.history[k].matrix
    ensures !t.xPlayer <==> s.history[k].move.Placed? && s.history[k].move.play == X
    ensures t.selected == SelectionOf(s.history[k].move)
  {
    var step := s.history[k];
    var xNext := if step.move.Placed? && step.move.play == X then false else true;
    State(step.matrix, s.history[..k + 1], xNext, SelectionOf(step.move))
  }

  /** The status line and winning line for a board, the length of the
      history and the turn. */
  function DeriveView(m: Matrix, historyLength: nat, xPlayer: bool): (v: View)
    requires IsBoard(m)
    ensures v.status.Winner? <==> HasThreeInARow(m)
    ensures v.status.Winner? ==> WinnerOf(m).Won? && v.status.w == WinnerOf(m).winner && v.winLine == WinnerOf(m).line
    ensures v.status == Draw <==> !HasThreeInARow(m) && historyLength == 10
    ensures v.status.NextPlayer? <==> !HasThreeInARow(m) && historyLength != 10
    ensures v.status.NextPlayer? ==> v.status.p == PlayOf(xPlayer)
    ensures !v.status.Winner? ==> v.winLine == []
  {
    NoWinnerIffNoThreeInARow(m);
    match WinnerOf(m)
    case NoWinner =>
      if historyLength == 10 then View(Draw, [])
      else View(NextPlayer(PlayOf(xPlayer)), [])
    case Won(w, line) => View(Winner(w), line)
  }

  /** The status line as text. */
  function StatusText(s: Status): string
  {
    match s
    case Winner(w) => "Winner: " + CellText(w)
    case Draw => "Draw"
    case NextPlayer(p) => "Next player: " + CellText(p)
  }

  /** The text of a mark. */
  function CellText(c: Cell): string
  {
    match c
    case Empty => ""
    case X => "X"
    case O => "O"
  }

  /** Cell (`r`, `c`) is highlighted: it is the selected cell, or its
      row-major position is on the winning line. */
  predicate IsHighlighted(selected: Selection, winLine: seq<nat>, r: nat, c: nat)
  {
    (selected.At? && selected.r == r && selected.c == c) || (r * 3 + c) in winLine
  }

  /** Entry `e`, number `i` of the history, follows `prev` by one legal move:
      `prev` has no winner, the move is on an empty cell, the mark is X on
      odd entries and O on even ones, and `e`'s board is `prev`'s with that
      cell marked. */
  predicate Follows(prev: Entry, e: Entry, i: nat)
  {
    && IsBoard(prev.matrix)
    && WinnerOf(prev.matrix).NoWinner?
    && e.move.Placed?
    && e.move.r < Size && e.move.c < Size
    && prev.matrix[e.move.r][e.move.c] == Empty
    && e.move.play == (if i % 2 == 1 then X else O)
    && e.matrix == Place(prev.matrix, e.move.r, e.move.c, e.move.play)
  }

  /** A history the game can produce: it starts at the empty board and each
      entry follows the one before it. */
  predicate ValidHistory(h: seq<Entry>)
  {
    && |h| >= 1
    && h[0] == StartEntry
    && forall i :: 1 <= i < |h| ==> Follows(h[i - 1], h[i], i)
  }

  /** The invariant of the state: a valid history whose last entry is the
      current board, X to move after an even number of moves, and the cell of
      the last move selected. */
  predicate ValidState(s: State)
  {
    && ValidHistory(s.history)
    && IsBoard(s.matrix)
    && s.matrix == s.history[|s.history| - 1].matrix
    && s.xPlayer == (|s.history| % 2 == 1)
    && s.selected == SelectionOf(s.history[|s.history| - 1].move)
  }

  /** Every entry of a valid history holds a board, and entry `i` holds
      exactly `i` marks; so there are at most ten entries. */
  lemma {:induction false} HistoryCountsMoves(h: seq<Entry>)
    requires ValidHistory(h)
    ensures forall i :: 0 <= i < |h| ==> IsBoard(h[i].matrix) && Filled(h[i].matrix) == i
    ensures |h| <= 10
  {
    if |h| == 1 {
      EmptyBoardUnfilled();
    } else {
      var n := |h| - 1;
      assert ValidHistory(h[..n]) by {
        assert forall i :: 0 <= i < n ==> h[..n][i] == h[i];
      }
      HistoryCountsMoves(h[..n]);
      assert forall i :: 0 <= i < n ==> h[..n][i] == h[i];
      assert Follows(h[n - 1], h[n], n);
      PlaceFills(h[n - 1].matrix, h[n].move.r, h[n].move.c, h[n].move.play);
    }
    FilledBoard(h[|h| - 1].matrix);
  }

  /** The starting state is valid. */
  lemma StartIsValid()
    ensures ValidState(Start())
  {
  }

  /** A click on an empty cell keeps the state valid. */
  lemma ClickPreservesValid(s: State, row: nat, col: nat)
    requires ValidState(s)
    requires row < Size && col < Size
    requires IsBoard(s.matrix) && s.matrix[row][col] == Empty
    ensures ValidState(Click(s, row, col))
  {
    var t := Click(s, row, col);
    if WinnerOf(s.matrix).NoWinner? {
      var n := |s.history|;
      assert t.history[n - 1] == s.history[n - 1];
      assert Follows(t.history[n - 1], t.history[n], n);
      forall i | 1 <= i < n + 1 ensures Follows(t.history[i - 1], t.history[i], i) {
        if i < n {
          assert t.history[i - 1] == s.history[i - 1] && t.history[i] == s.history[i];
        }
      }
    }
  }

  /** An accepted move is one more move: the history grows by one entry and
      the new board holds one more mark, so the history is always one entry
      longer than the number of marks on the board. */
  lemma ClickCountsOneMove(s: State, row: nat, col: nat)
    requires ValidState(s)
    requires row < Size && col < Size
    requires IsBoard(s.matrix) && s.matrix[row][col] == Empty
    requires WinnerOf(s.matrix).NoWinner?
    ensures Filled(Click(s, row, col).matrix) == Filled(s.matrix) + 1
    ensures |Click(s, row, col).history| == Filled(Click(s, row, col).matrix) + 1
  {
    HistoryCountsMoves(s.history);
    PlaceFills(s.matrix, row, col, PlayOf(s.xPlayer));
  }

  /** X makes the first move. */
  lemma FirstMoveIsX(h: seq<Entry>)
    requires ValidHistory(h)
    requires |h| >= 2
    ensures h[1].move.Placed? && h[1].move.play == X
  {
    assert Follows(h[0], h[1], 1);
  }

  /** The turn alternates: no two consecutive moves are made with the same
      mark. */
  lemma TurnsAlternate(h: seq<Entry>, i: nat)
    requires ValidHistory(h)
    requires 1 <= i < |h| - 1
    ensures h[i].move.Placed? && h[i + 1].move.Placed? && h[i].move.play != h[i + 1].move.play
  {
    assert Follows(h[i - 1], h[i], i);
    assert Follows(h[i], h[i + 1], i + 1);
  }

  /** A jump keeps the state valid, and X moves next exactly after an even
      number of moves. */
  lemma JumpPreservesValid(s: State, k: nat)
    requires ValidState(s)
    requires k < |s.history|
    ensures ValidState(Jump(s, k))
    ensures Jump(s, k).xPlayer == (k % 2 == 0)
  {
    var h := s.history;
    var t := Jump(s, k);
    var p := h[..k + 1];
    assert t.history == p;
    assert ValidHistory(p) by {
      assert p[0] == h[0];
      forall i | 1 <= i < |p| ensures Follows(p[i - 1], p[i], i) {
        assert p[i - 1] == h[i - 1] && p[i] == h[i];
      }
    }
    assert p[|p| - 1] == h[k];
    if k > 0 {
      assert Follows(h[k - 1], h[k], k);
      assert IsBoard(t.matrix);
    } else {
      assert h[k] == StartEntry;
    }
  }

  /** Jumping to the same entry twice gives the same state as jumping once. */
  lemma JumpIdempotent(s: State, k: nat)
    requires k < |s.history|
    ensures k < |Jump(s, k).history|
    ensures Jump(Jump(s, k), k) == Jump(s, k)
  {
    var t := Jump(s, k);
    assert t.history[k] == s.history[k];
    assert t.history[..k + 1] == t.history;
  }

  /** Jumping to the first entry starts the game over. */
  lemma JumpToStart(s: State)
    requires ValidState(s)
    ensures Jump(s, 0) == Start()
  {
    assert s.history[..1] == [StartEntry];
  }

  /** A jump restores the board as it was after the first `k` moves: entry
      `k`'s board with `k` marks, and the history up to it. */
  lemma JumpRestoresEntry(s: State, k: nat)
    requires ValidState(s)
    requires k < |s.history|
    ensures Jump(s, k).history == s.history[..k + 1]
    ensures Jump(s, k).matrix == s.history[k].matrix
    ensures IsBoard(Jump(s, k).matrix) && Filled(Jump(s, k).matrix) == k
  {
    HistoryCountsMoves(s.history);
  }

  /** In a state the game can reach, the status is Draw exactly when the
      board is full and no line holds three equal marks. */
  lemma DrawIffFullWithoutLine(s: State)
    requires ValidState(s)
    ensures IsBoard(s.matrix)
    ensures DeriveView(s.matrix, |s.history|, s.xPlayer).status == Draw <==>
              Full(s.matrix) && !HasThreeInARow(s.matrix)
  {
    HistoryCountsMoves(s.history);
    FilledBoard(s.matrix);
  }

  /** The status line shown for a board: "Winner: " and the winning mark
      when a line holds three equal marks, whatever the length of the
      history; else "Draw" with ten history entries; else "Next player: "
      and the mark of the player to move. */
  lemma StatusLine(m: Matrix, historyLength: nat, xPlayer: bool)
    requires IsBoard(m)
    ensures var text := StatusText(DeriveView(m, historyLength, xPlayer).status);
            if HasThreeInARow(m) then
              (WinnerOf(m).winner == X && text == "Winner: X") || (WinnerOf(m).winner == O && text == "Winner: O")
            else if historyLength == 10 then text == "Draw"
            else text == (if xPlayer then "Next player: X" else "Next player: O")
  {
    var v := DeriveView(m, historyLength, xPlayer);
    if v.status.Winner? {
      assert v.status.w != Empty;
    }
  }

  /** The highlighted cells: the selected cell and, when there is a winner,
      the three cells of the winning line, each of which holds the winning
      mark. The position `r * 3 + c` is the one the win check uses. */
  lemma HighlightShowsWinningLine(m: Matrix, historyLength: nat, xPlayer: bool, selected: Selection, r: nat, c: nat)
    requires IsBoard(m) && r < Size && c < Size
    ensures var v := DeriveView(m, historyLength, xPlayer);
            IsHighlighted(selected, v.winLine, r, c) <==>
              selected == At(r, c) || (v.status.Winner? && (r * 3 + c) in WinnerOf(m).line)
    ensures var v := DeriveView(m, historyLength, xPlayer);
            v.status.Winner? && (r * 3 + c) in v.winLine ==> m[r][c] == v.status.w
  {
    var v := DeriveView(m, historyLength, xPlayer);
    if v.status.Winner? && (r * 3 + c) in v.winLine {
      FlatBoard(m);
      var k :| 0 <= k < 3 && v.winLine[k] == r * 3 + c;
      assert Flatten(m)[r * 3 + c] == m[r][c];
    }
  }

  /** The state of the component. */
  class Game {
    var matrix: Matrix
    var history: seq<Entry>
    var xPlayer: bool
    var selected: Selection

    /** The fields as a state value. */
    function Current(): State
      reads this
    {
      State(matrix, history, xPlayer, selected)
    }

    ghost predicate Valid()
      reads this
    {
      ValidState(Current())
    }

    constructor ()
      ensures Valid()
      ensures Current() == Start()
    {
      matrix := CreateMatrix(Size);
      history := [Entry(Initial, CreateMatrix(Size))];
      xPlayer := true;
      selected := NoSelection;
    }

    /** The status line and winning line shown for the current state. */
    function CurrentView(): View
      reads this
      requires IsBoard(matrix)
    {
      DeriveView(matrix, |history|, xPlayer)
    }

    /** A click on the empty cell (`row`, `col`). */
    method HandleClick(row: nat, col: nat)
      requires Valid()
      requires row < Size && col < Size && matrix[row][col] == Empty
      modifies this
      ensures Valid()
      ensures Current() == Click(old(Current()), row, col)
      ensures old(WinnerOf(matrix)).Won? ==> unchanged(this)
    {
      ClickPreservesValid(Current(), row, col);
      var mCopy := matrix;
      var outcome := CalculateWinner(mCopy);
      if outcome.NoWinner? {
        var play := if xPlayer then X else O;
        mCopy := mCopy[row := mCopy[row][col := play]];
        matrix := mCopy;
        xPlayer := !xPlayer;
        history := history + [Entry(Placed(row, col, play), mCopy)];
        selected := At(row, col);
      }
    }

    /** A jump to history entry `move`. */
    method JumpTo(move: nat)
      requires Valid()
      requires move < |history|
      modifies this
      ensures Valid()
      ensures Current() == Jump(old(Current()), move)
      ensures history == old(history[..move + 1])
      ensures matrix == old(history[move].matrix)
      ensures !xPlayer <==> old(history[move].move.Placed? && history[move].move.play == X)
      ensures selected == SelectionOf(old(history[move].move))
    {
      JumpPreservesValid(Current(), move);
      var step := history[move];
      var hCopy := history[..move + 1];
      var play := if step.move.Placed? && step.move.play == X then false else true;
      matrix := step.matrix;
      xPlayer := play;
      history := hCopy;
      selected := SelectionOf(step.move);
    }
  }
}
