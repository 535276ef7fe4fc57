/** Two complete games played through the engine: one won by X on the top
    row, one ending in a draw. */
module Scenarios {
  import opened Board
  import opened Game

  /** The board of the winning game after its five moves:
        X X X
        O O .
        . . .   */
  function RowWinBoard(): Matrix
  {
    [[X, X, X], [O, O, Empty], [Empty, Empty, Empty]]
  }

  /** The board of the drawn game after its nine moves:
        X O X
        X O O
        O X X   */
  function DrawBoard(): Matrix
  {
    [[X, O, X], [X, O, O], [O, X, X]]
  }

  /** Two 3×3 boards compared row by row. */
  predicate SameRows(a: Matrix, b: Matrix)
  {
    |a| == 3 && |b| == 3 && a[0] == b[0] && a[1] == b[1] && a[2] == b[2]
  }

  /** A click on (`row`, `col`) of `g` when its board is `before` and has no
      winner: the board becomes `after`. */
  method Play(g: Game, row: nat, col: nat, ghost before: Matrix, ghost after: Matrix)
    requires g.Valid() && g.matrix == before
    requires row < Size && col < Size && before[row][col] == Empty
    requires SameRows(after, Place(before, row, col, PlayOf(g.xPlayer)))
    requires ReferenceWinner(before).NoWinner?
    modifies g
    ensures g.Valid() && g.matrix == after
    ensures g.xPlayer == !old(g.xPlayer)
    ensures |g.history| == old(|g.history|) + 1
  {
    WinnerOfIsReference(before);
    g.HandleClick(row, col);
    assert after == g.matrix;
  }

  /** X plays (0,0), (0,1), (0,2) and O plays (1,1), (1,0): X wins on the
      top row, a further click is ignored, and a jump to the first entry
      starts the game over. */
  method RowWinGame()
  {
    var g := new Game();
    var e := Empty;
    assert SameRows(g.matrix, [[e, e, e], [e, e, e], [e, e, e]]);
    Play(g, 0, 0, [[e, e, e], [e, e, e], [e, e, e]], [[X, e, e], [e, e, e], [e, e, e]]);
    Play(g, 1, 1, [[X, e, e], [e, e, e], [e, e, e]], [[X, e, e], [e, O, e], [e, e, e]]);
    Play(g, 0, 1, [[X, e, e], [e, O, e], [e, e, e]], [[X, X, e], [e, O, e], [e, e, e]]);
    Play(g, 1, 0, [[X, X, e], [e, O, e], [e, e, e]], [[X, X, e], [O, O, e], [e, e, e]]);
    Play(g, 0, 2, [[X, X, e], [O, O, e], [e, e, e]], RowWinBoard());
    assert |g.history| == 6;
    WinnerOfIsReference(g.matrix);
    assert g.CurrentView() == View(Winner(X), [0, 1, 2]);
    assert StatusText(g.CurrentView().status) == "Winner: X";
    var before := g.Current();
    g.HandleClick(2, 2);
    assert g.Current() == before;
    g.JumpTo(0);
    JumpToStart(before);
    assert g.Current() == Start();
    assert StatusText(g.CurrentView().status) == "Next player: X" by {
      NoWinnerIffNoThreeInARow(g.matrix);
      StatusLine(g.matrix, |g.history|, g.xPlayer);
    }
  }

  /** Nine moves that fill the board without three in a row end in a draw. */
  method DrawGame()
  {
    var g := new Game();
    var e := Empty;
    assert SameRows(g.matrix, [[e, e, e], [e, e, e], [e, e, e]]);
    Play(g, 0, 0, [[e, e, e], [e, e, e], [e, e, e]], [[X, e, e], [e, e, e], [e, e, e]]);
    Play(g, 0, 1, [[X, e, e], [e, e, e], [e, e, e]], [[X, O, e], [e, e, e], [e, e, e]]);
    Play(g, 0, 2, [[X, O, e], [e, e, e], [e, e, e]], [[X, O, X], [e, e, e], [e, e, e]]);
    Play(g, 1, 1, [[X, O, X], [e, e, e], [e, e, e]], [[X, O, X], [e, O, e], [e, e, e]]);
    Play(g, 1, 0, [[X, O, X], [e, O, e], [e, e, e]], [[X, O, X], [X, O, e], [e, e, e]]);
    Play(g, 1, 2, [[X, O, X], [X, O, e], [e, e, e]], [[X, O, X], [X, O, O], [e, e, e]]);
    Play(g, 2, 1, [[X, O, X], [X, O, O], [e, e, e]], [[X, O, X], [X, O, O], [e, X, e]]);
    Play(g, 2, 0, [[X, O, X], [X, O, O], [e, X, e]], [[X, O, X], [X, O, O], [O, X, e]]);
    Play(g, 2, 2, [[X, O, X], [X, O, O], [O, X, e]], DrawBoard());
    assert |g.history| == 10;
    WinnerOfIsReference(g.matrix);
    assert g.CurrentView() == View(Draw, []);
    assert StatusText(g.CurrentView().status) == "Draw";
  }
}
