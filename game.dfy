/** The game session: the board, whose turn it is and the game-over flag,
    with the operations that change them: the player's click, the
    computer's move, the game-over check that follows every change, and
    reset. */
module Game {
  import opened Rules
  import opened Search

  class TicTacToe {
    var board: Board
    /** True when the player moves next. */
    var isXNext: bool
    var gameOver: bool

    /** The game-over flag is raised only on a finished board. */
    ghost predicate OverOnlyWhenFinished()
      reads this
    {
      gameOver ==> Finished(board)
    }

    /** A new session: empty board, the player to move, game not over. */
    constructor ()
      ensures board == EmptyBoard && isXNext && !gameOver
      ensures OverOnlyWhenFinished()
    {
      board := EmptyBoard;
      isXNext := true;
      gameOver := false;
    }

    /** The player clicks cell `index`: ignored when the cell is occupied,
        a line is filled or the game is over; otherwise the player's mark
        goes into that cell and the computer moves next. */
    method HandleClick(index: Index)
      modifies this
      ensures old(board[index] != Empty || Winner(board) != Empty || gameOver) ==>
        board == old(board) && isXNext == old(isXNext) && gameOver == old(gameOver)
      ensures old(board[index] == Empty && Winner(board) == Empty && !gameOver) ==>
        board == old(board)[index := Player] && !isXNext && !gameOver
      ensures old(OverOnlyWhenFinished()) ==> OverOnlyWhenFinished()
    {
      if board[index] != Empty || Winner(board) != Empty || gameOver {
        return;
      }
      board := board[index := Player];
      isXNext := false;
    }

    /** The computer's move on `newBoard`, a copy of the board: it probes
        every empty cell with minimax, restoring the cell after each probe,
        keeps the first cell with the strictly greatest score, and commits
        the computer's mark there, handing the turn back to the player. On
        a full board nothing changes. */
    method ComputerPlay(newBoard: array<Cell>)
      requires newBoard.Length == 9
      modifies this, newBoard
      ensures gameOver == old(gameOver)
      ensures ChooseMove(old(newBoard[..])).None? ==>
        newBoard[..] == old(newBoard[..]) && board == old(board) && isXNext == old(isXNext)
      ensures ChooseMove(old(newBoard[..])).Some? ==>
        var m := ChooseMove(old(newBoard[..])).value;
        && old(newBoard[m]) == Empty
        && newBoard[..] == old(newBoard[..])[m := Computer]
        && board == newBoard[..]
        && isXNext
    {
      ghost var b: Board := newBoard[..];
      var bestMove: Option<Index> := None;
      var bestScore := NegInf;
      var idx := 0;
      while idx < 9
        invariant 0 <= idx <= 9
        invariant newBoard[..] == b
        invariant Pick(bestScore, bestMove) == Scan(b, Probes(b), idx)
        modifies newBoard
      {
        if newBoard[idx] == Empty {
          newBoard[idx] := Computer;
          assert newBoard[..] == b[idx := Computer];
          var score := Minimax(newBoard, 0, false);
          assert score == Probes(b)(idx);
          newBoard[idx] := Empty;
          assert newBoard[..] == b;
          if Greater(Finite(score), bestScore) {
            bestScore := Finite(score);
            bestMove := Some(idx);
          }
        }
        ScanStep(b, Probes(b), idx);
        idx := idx + 1;
      }
      if bestMove.Some? {
        newBoard[bestMove.value] := Computer;
        board := newBoard[..];
        isXNext := true;
      }
    }

    /** The check that runs after every change of the board, the turn or
        the flag: a filled line or a full board ends the game; otherwise,
        when it is the computer's turn, the computer moves on a copy of the
        board. */
    method Settle()
      modifies this
      ensures Finished(old(board)) ==>
        gameOver && board == old(board) && isXNext == old(isXNext)
      ensures !Finished(old(board)) && !old(isXNext) && !old(gameOver) ==>
        && ChooseMove(old(board)).Some?
        && board == old(board)[ChooseMove(old(board)).value := Computer]
        && isXNext && !gameOver
      ensures !Finished(old(board)) && (old(isXNext) || old(gameOver)) ==>
        board == old(board) && isXNext == old(isXNext) && gameOver == old(gameOver)
      ensures old(OverOnlyWhenFinished()) ==> OverOnlyWhenFinished()
    {
      var winner := Winner(board);
      if winner != Empty || IsFull(board) {
        gameOver := true;
      } else if !isXNext && !gameOver {
        var current := board;
        var copy := new Cell[9](i requires 0 <= i < 9 => current[i]);
        assert copy[..] == current;
        ComputerPlay(copy);
      }
    }

    /** Reset: empty board, the player to move, game not over. */
    method ResetGame()
      modifies this
      ensures board == EmptyBoard && isXNext && !gameOver
      ensures OverOnlyWhenFinished()
    {
      board := EmptyBoard;
      isXNext := true;
      gameOver := false;
    }
  }
}
