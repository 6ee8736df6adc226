/** The computer's search: the minimax score of a board, the one-ply scan
    that picks the computer's move, and the in-place minimax method that
    probes a cell, recurses and restores the cell. */
module Search {
  import opened Rules

  datatype Option<T> = None | Some(value: T)

  /** The values the search's score variables take: whole numbers and the
      two infinities the best-score accumulators start from. */
  datatype Extended = NegInf | Finite(n: int) | PosInf

  /** `x <= y` on extended numbers. */
  predicate AtMost(x: Extended, y: Extended) {
    x.NegInf? || y.PosInf? || (x.Finite? && y.Finite? && x.n <= y.n)
  }

  /** `x > y` on extended numbers, the comparison of the move scan. */
  predicate Greater(x: Extended, y: Extended)
    ensures Greater(x, y) <==> !AtMost(x, y)
  {
    match (x, y)
    case (NegInf, _) => false
    case (_, PosInf) => false
    case (PosInf, _) => true
    case (Finite(m), NegInf) => true
    case (Finite(m), Finite(n)) => m > n
  }

  /** `Math.max`: the larger argument. */
  function Max(x: Extended, y: Extended): (r: Extended)
    ensures r == x || r == y
    ensures AtMost(x, r) && AtMost(y, r)
  {
    if AtMost(x, y) then y else x
  }

  /** `Math.min`: the smaller argument. */
  function Min(x: Extended, y: Extended): (r: Extended)
    ensures r == x || r == y
    ensures AtMost(r, x) && AtMost(r, y)
  {
    if AtMost(x, y) then x else y
  }

  /** The mark the side to move writes: the computer maximizes, the player
      minimizes. */
  function Mark(maximizing: bool): (m: Cell)
    ensures m != Empty
  {
    if maximizing then Computer else Player
  }

  /** The minimax score of board `b` at search depth `depth`: a computer
      line scores `10 - depth`, a player line `depth - 10`, a full board
      without a line 0; any other board scores the best of its moves for
      the side to move. */
  function Score(b: Board, depth: nat, maximizing: bool): int
    decreases EmptyCount(b), 1, 0
  {
    var winner := Winner(b);
    if winner == Computer then 10 - depth
    else if winner == Player then depth - 10
    else if IsFull(b) then 0
    else Best(b, depth, maximizing, 9).n
  }

  /** The best-score accumulator after the loop has visited cells
      `0 .. n - 1`: it starts at minus infinity for the maximizer (plus
      infinity for the minimizer) and folds in the score of every empty
      cell with `Math.max` (`Math.min`). */
  function Best(b: Board, depth: nat, maximizing: bool, n: nat): (r: Extended)
    requires n <= 9
    ensures r.Finite? <==> exists i | 0 <= i < n :: b[i] == Empty
    ensures maximizing ==> !r.PosInf?
    ensures !maximizing ==> !r.NegInf?
    decreases EmptyCount(b), 0, n
  {
    if n == 0 then (if maximizing then NegInf else PosInf)
    else
      var acc := Best(b, depth, maximizing, n - 1);
      if b[n - 1] != Empty then acc
      else
        var score := Score(b[n - 1 := Mark(maximizing)], depth + 1, !maximizing);
        if maximizing then Max(Finite(score), acc) else Min(Finite(score), acc)
  }

  /** The score of the move at cell `i` for the side to move. */
  function Child(b: Board, depth: nat, maximizing: bool, i: Index): int {
    Score(b[i := Mark(maximizing)], depth + 1, !maximizing)
  }

  /** `r` is the score of a finished board reached at some depth in
      `lo .. hi`: 0 for a draw, `10 - d` for a computer win at depth `d`,
      `d - 10` for a player win at depth `d`. */
  predicate TerminalScore(r: int, lo: int, hi: int) {
    r == 0 || lo <= 10 - r <= hi || lo <= r + 10 <= hi
  }

  /** Every score is the value of a finished board reached between the
      current depth and the depth at which the board is full. */
  lemma {:induction false} ScoreRange(b: Board, depth: nat, maximizing: bool)
    ensures TerminalScore(Score(b, depth, maximizing), depth, depth + EmptyCount(b))
    decreases EmptyCount(b), 1, 0
  {
    if Winner(b) == Empty && !IsFull(b) {
      BestRange(b, depth, maximizing, 9);
    }
  }

  /** The accumulator holds only such values, one move deeper. */
  lemma {:induction false} BestRange(b: Board, depth: nat, maximizing: bool, n: nat)
    requires n <= 9
    ensures Best(b, depth, maximizing, n).Finite? ==>
      TerminalScore(Best(b, depth, maximizing, n).n, depth + 1, depth + EmptyCount(b))
    decreases EmptyCount(b), 0, n
  {
    if n > 0 {
      BestRange(b, depth, maximizing, n - 1);
      BestStep(b, depth, maximizing, n - 1);
      if b[n - 1] == Empty {
        ScoreRange(b[n - 1 := Mark(maximizing)], depth + 1, !maximizing);
      }
    }
  }

  /** When every line of play ends by move 9, the score lies between
      `depth - 10` and `10 - depth`, and it reaches `10 - depth` exactly
      when the computer already has a line and `depth - 10` exactly when
      the player does. */
  lemma ScoreBounds(b: Board, depth: nat, maximizing: bool)
    requires depth + EmptyCount(b) <= 9
    ensures depth - 10 <= Score(b, depth, maximizing) <= 10 - depth
    ensures Score(b, depth, maximizing) == 10 - depth <==> Winner(b) == Computer
    ensures Score(b, depth, maximizing) == depth - 10 <==> Winner(b) == Player
  {
    if Winner(b) == Empty && !IsFull(b) {
      BestRange(b, depth, maximizing, 9);
    }
  }

  /** The terminal scores, stated by who holds a line: a board where only
      the computer holds a line scores `10 - depth` even when it is full,
      one where only the player does scores `depth - 10`, and a full board
      without any line scores 0. */
  lemma TerminalScores(b: Board, depth: nat, maximizing: bool)
    ensures HasLine(b, Computer) && !HasLine(b, Player) ==> Score(b, depth, maximizing) == 10 - depth
    ensures HasLine(b, Player) && !HasLine(b, Computer) ==> Score(b, depth, maximizing) == depth - 10
    ensures IsFull(b) && !HasLine(b, Player) && !HasLine(b, Computer) ==> Score(b, depth, maximizing) == 0
  {
  }

  /** One step of the accumulator: visiting cell `n`. */
  lemma BestStep(b: Board, depth: nat, maximizing: bool, n: Index)
    ensures Best(b, depth, maximizing, n + 1) ==
      if b[n] != Empty then Best(b, depth, maximizing, n)
      else if maximizing then Max(Finite(Child(b, depth, maximizing, n)), Best(b, depth, maximizing, n))
      else Min(Finite(Child(b, depth, maximizing, n)), Best(b, depth, maximizing, n))
  {
  }

  /** The accumulator is at least (maximizer) or at most (minimizer) the
      score of every empty cell it has visited. */
  lemma {:induction false} BestIsBound(b: Board, depth: nat, maximizing: bool, n: nat)
    requires n <= 9
    ensures Best(b, depth, maximizing, n).Finite? ==>
      forall i: Index | i < n && b[i] == Empty ::
        if maximizing then Child(b, depth, maximizing, i) <= Best(b, depth, maximizing, n).n
        else Best(b, depth, maximizing, n).n <= Child(b, depth, maximizing, i)
  {
    var r := Best(b, depth, maximizing, n);
    if n > 0 && r.Finite? {
      var acc := Best(b, depth, maximizing, n - 1);
      BestIsBound(b, depth, maximizing, n - 1);
      BestStep(b, depth, maximizing, n - 1);
      forall i: Index | i < n && b[i] == Empty
        ensures if maximizing then Child(b, depth, maximizing, i) <= r.n
                else r.n <= Child(b, depth, maximizing, i)
      {
        if i < n - 1 {
          assert acc.Finite? && AtMost(if maximizing then acc else r, if maximizing then r else acc);
        }
      }
    }
  }

  /** A finite accumulator is the score of some empty cell it has visited. */
  lemma {:induction false} BestIsAttained(b: Board, depth: nat, maximizing: bool, n: nat)
    requires n <= 9
    ensures Best(b, depth, maximizing, n).Finite? ==>
      exists i: Index | i < n && b[i] == Empty :: Child(b, depth, maximizing, i) == Best(b, depth, maximizing, n).n
  {
    if n > 0 {
      BestIsAttained(b, depth, maximizing, n - 1);
      var acc := Best(b, depth, maximizing, n - 1);
      if b[n - 1] == Empty {
        BestStep(b, depth, maximizing, n - 1);
        var last: Index := n - 1;
        if Best(b, depth, maximizing, n).n != Child(b, depth, maximizing, last) {
          var j: Index :| j < n - 1 && b[j] == Empty && Child(b, depth, maximizing, j) == acc.n;
        }
      }
    }
  }

  /** On a board with no line and an empty cell, the score is the maximum
      (for the computer) or the minimum (for the player) of the scores one
      move deeper, over all empty cells: a finite number that some move
      attains and no move beats. */
  lemma ScoreIsOptimal(b: Board, depth: nat, maximizing: bool)
    requires Winner(b) == Empty && !IsFull(b)
    ensures exists i: Index | b[i] == Empty :: Child(b, depth, maximizing, i) == Score(b, depth, maximizing)
    ensures forall i: Index | b[i] == Empty ::
      if maximizing then Child(b, depth, maximizing, i) <= Score(b, depth, maximizing)
      else Score(b, depth, maximizing) <= Child(b, depth, maximizing, i)
  {
    BestIsBound(b, depth, maximizing, 9);
    BestIsAttained(b, depth, maximizing, 9);
  }

  /** The score the move scan gives cell `i`: the computer plays there and
      the player answers at depth 0. */
  function Probe(b: Board, i: Index): int {
    Score(b[i := Computer], 0, false)
  }

  /** The probe scores of all cells of `b`, as the move scan consumes them. */
  function Probes(b: Board): Index -> int {
    (i: Index) => Probe(b, i)
  }

  /** The two locals of the move scan after it has visited cells
      `0 .. n - 1`: the best score so far and the cell that first reached
      it. */
  datatype Pick = Pick(bestScore: Extended, bestMove: Option<Index>)

  /** The move scan over cells `0 .. n - 1`, where empty cell `i` scores
      `score(i)`: a cell replaces the current pick only when its score is
      strictly greater. */
  function Scan(b: Board, score: Index -> int, n: nat): (p: Pick)
    requires n <= 9
    ensures p.bestMove.Some? <==> exists i | 0 <= i < n :: b[i] == Empty
    ensures p.bestMove.None? ==> p.bestScore == NegInf
    ensures p.bestMove.Some? ==>
      var m := p.bestMove.value;
      m < n && b[m] == Empty && p.bestScore == Finite(score(m))
  {
    if n == 0 then Pick(NegInf, None)
    else
      var p := Scan(b, score, n - 1);
      if b[n - 1] != Empty then p
      else if Greater(Finite(score(n - 1)), p.bestScore) then Pick(Finite(score(n - 1)), Some(n - 1))
      else p
  }

  /** One step of the scan: visiting cell `n`. */
  lemma ScanStep(b: Board, score: Index -> int, n: Index)
    ensures Scan(b, score, n + 1) ==
      if b[n] != Empty then Scan(b, score, n)
      else if Greater(Finite(score(n)), Scan(b, score, n).bestScore) then Pick(Finite(score(n)), Some(n))
      else Scan(b, score, n)
  {
  }

  /** The scan keeps the first cell of greatest score: no empty cell it has
      visited scores more, and every empty cell before the kept one scores
      strictly less. */
  lemma {:induction false} ScanIsFirstArgmax(b: Board, score: Index -> int, n: nat)
    requires n <= 9
    ensures Scan(b, score, n).bestMove.Some? ==>
      forall i: Index | i < n && b[i] == Empty :: score(i) <= score(Scan(b, score, n).bestMove.value)
    ensures Scan(b, score, n).bestMove.Some? ==>
      forall i: Index | i < Scan(b, score, n).bestMove.value && b[i] == Empty ::
        score(i) < score(Scan(b, score, n).bestMove.value)
  {
    if n > 0 {
      ScanIsFirstArgmax(b, score, n - 1);
      ScanStep(b, score, n - 1);
    }
  }

  /** The computer's move: the lowest-index empty cell whose probe score is
      the maximum over all empty cells, or `None` on a full board. */
  function ChooseMove(b: Board): (m: Option<Index>)
    ensures m.Some? <==> !IsFull(b)
    ensures m.Some? ==> b[m.value] == Empty
    ensures m.Some? ==> forall i: Index | b[i] == Empty :: Probe(b, i) <= Probe(b, m.value)
    ensures m.Some? ==> forall i: Index | i < m.value && b[i] == Empty :: Probe(b, i) < Probe(b, m.value)
  {
    ScanIsFirstArgmax(b, Probes(b), 9);
    Scan(b, Probes(b), 9).bestMove
  }

  /** Every score the move scan sees lies between -10 and 10, and it is 10
      exactly when the probed cell completes a computer line. */
  lemma ProbeBounds(b: Board, i: Index)
    ensures -10 <= Probe(b, i) <= 10
    ensures Probe(b, i) == 10 <==> Winner(b[i := Computer]) == Computer
  {
    EmptyCountBound(b[i := Computer]);
    ScoreBounds(b[i := Computer], 0, false);
  }

  /** When some empty cell completes a line for the computer, the chosen
      move completes a line too: such a cell scores 10, and no cell scores
      more. */
  lemma ChooseMoveTakesWin(b: Board, i: Index)
    requires b[i] == Empty && Winner(b[i := Computer]) == Computer
    ensures ChooseMove(b).Some?
    ensures Probe(b, ChooseMove(b).value) == 10
    ensures Winner(b[ChooseMove(b).value := Computer]) == Computer
  {
    ProbeBounds(b, i);
    ProbeBounds(b, ChooseMove(b).value);
  }

  /** When exactly one empty cell completes a computer line, the computer
      plays there. */
  lemma ChooseMoveTakesOnlyWin(b: Board, i: Index)
    requires b[i] == Empty && Winner(b[i := Computer]) == Computer
    requires forall j: Index | b[j] == Empty && j != i :: Winner(b[j := Computer]) != Computer
    ensures ChooseMove(b) == Some(i)
  {
    ChooseMoveTakesWin(b, i);
  }

  /** The player holds cells 0 and 1, the computer cells 3 and 4, and the
      rest is empty: the computer completes its row at cell 5 rather than
      block the player's row at cell 2. */
  lemma CompletesRowOverBlocking(b: Board)
    requires b[0] == Player && b[1] == Player && b[2] == Empty
    requires b[3] == Computer && b[4] == Computer && b[5] == Empty
    requires b[6] == Empty && b[7] == Empty && b[8] == Empty
    ensures ChooseMove(b) == Some(5)
  {
    var win := b[5 := Computer];
    assert !Completed(win, 0) && Completed(win, 1);
    assert WinnerFrom(win, 0) == Computer;
    forall j: Index | b[j] == Empty && j != 5 ensures Winner(b[j := Computer]) != Computer {
      NoComputerLine(b[j := Computer]);
    }
    ChooseMoveTakesOnlyWin(b, 5);
  }

  /** The board of the scenario above with the computer's mark added in
      cell 2, 6, 7 or 8 holds no computer line. */
  lemma NoComputerLine(c: Board)
    requires c[0] == Player && c[1] == Player && c[3] == Computer && c[4] == Computer && c[5] == Empty
    requires c[2] == Empty || (c[6] == Empty && c[7] == Empty && c[8] == Empty)
    requires (c[6] != Empty ==> c[7] == Empty && c[8] == Empty) && (c[7] != Empty ==> c[8] == Empty)
    ensures Winner(c) != Computer
  {
  }

  /** Minimax over the board array, probing each empty cell in place: it
      writes the mark of the side to move, recurses one level deeper with
      the roles swapped, and resets the cell to empty. */
  method Minimax(newBoard: array<Cell>, depth: nat, isMaximizing: bool) returns (score: int)
    requires newBoard.Length == 9
    modifies newBoard
    ensures newBoard[..] == old(newBoard[..])
    ensures score == Score(old(newBoard[..]), depth, isMaximizing)
    decreases EmptyCount(newBoard[..])
  {
    ghost var b: Board := newBoard[..];
    var winner := Winner(newBoard[..]);
    if winner == Computer { return 10 - depth; }
    if winner == Player { return depth - 10; }
    if IsFull(newBoard[..]) { return 0; }

    if isMaximizing {
      var bestScore := NegInf;
      var idx := 0;
      while idx < 9
        invariant 0 <= idx <= 9
        invariant newBoard[..] == b
        invariant bestScore == Best(b, depth, true, idx)
      {
        if newBoard[idx] == Empty {
          newBoard[idx] := Computer;
          assert newBoard[..] == b[idx := Computer];
          var s := Minimax(newBoard, depth + 1, false);
          assert s == Child(b, depth, true, idx);
          newBoard[idx] := Empty;
          assert newBoard[..] == b;
          bestScore := Max(Finite(s), bestScore);
        }
        BestStep(b, depth, true, idx);
        idx := idx + 1;
      }
      score := bestScore.n;
    } else {
      var bestScore := PosInf;
      var idx := 0;
      while idx < 9
        invariant 0 <= idx <= 9
        invariant newBoard[..] == b
        invariant bestScore == Best(b, depth, false, idx)
      {
        if newBoard[idx] == Empty {
          newBoard[idx] := Player;
          assert newBoard[..] == b[idx := Player];
          var s := Minimax(newBoard, depth + 1, true);
          assert s == Child(b, depth, false, idx);
          newBoard[idx] := Empty;
          assert newBoard[..] == b;
          bestScore := Min(Finite(s), bestScore);
        }
        BestStep(b, depth, false, idx);
        idx := idx + 1;
      }
      score := bestScore.n;
    }
  }
}
