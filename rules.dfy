/** The board of the game and the rules that read it: the eight winning
    lines, the winner check and the fullness check. */
module Rules {

  /** One square of the board: empty (`null`), the human player's mark
      (the light-blue heart) or the computer's mark (the pink heart). */
  datatype Cell = Empty | Player | Computer

  /** A cell index of the 3x3 board, row by row. */
  type Index = i: nat | i < 9

  /** The nine squares, in the order the board array holds them. */
  type Board = b: seq<Cell> | |b| == 9
    witness [Empty, Empty, Empty, Empty, Empty, Empty, Empty, Empty, Empty]

  /** The board a session starts from and returns to on reset. */
  const EmptyBoard: Board := [Empty, Empty, Empty, Empty, Empty, Empty, Empty, Empty, Empty]

  /** The eight winning lines in the order the winner check scans them:
      three rows, three columns, two diagonals. */
  const Lines: seq<(Index, Index, Index)> := [
    (0, 1, 2), (3, 4, 5), (6, 7, 8),
    (0, 3, 6), (1, 4, 7), (2, 5, 8),
    (0, 4, 8), (2, 4, 6)
  ]

  /** Line `j` holds three equal, non-empty cells. */
  predicate Completed(b: Board, j: nat)
    requires j < |Lines|
  {
    var (x, y, z) := Lines[j];
    b[x] != Empty && b[x] == b[y] && b[x] == b[z]
  }

  /** Mark `m` fills line `j`. */
  predicate Owns(b: Board, j: nat, m: Cell)
    requires j < |Lines|
  {
    Completed(b, j) && b[Lines[j].0] == m
  }

  /** Mark `m` fills at least one of the eight lines. */
  ghost predicate HasLine(b: Board, m: Cell) {
    exists j | 0 <= j < |Lines| :: Owns(b, j, m)
  }

  /** The scan of the winner check from line `k` on: the mark of the first
      completed line, or `Empty` (`null`) when none is completed. */
  function WinnerFrom(b: Board, k: nat): (r: Cell)
    requires k <= |Lines|
    ensures r != Empty <==> exists j | k <= j < |Lines| :: Completed(b, j)
    ensures r != Empty ==>
      exists j | k <= j < |Lines| :: Owns(b, j, r) && forall i | k <= i < j :: !Completed(b, i)
    decreases |Lines| - k
  {
    if k == |Lines| then Empty
    else if Completed(b, k) then
      assert Owns(b, k, b[Lines[k].0]);
      b[Lines[k].0]
    else WinnerFrom(b, k + 1)
  }

  /** The winner check: the mark that fills a line, or `Empty` when no line
      is filled. When both marks fill a line, the first line in scan order
      decides. */
  function Winner(b: Board): (r: Cell)
    ensures r != Empty <==> HasLine(b, Player) || HasLine(b, Computer)
    ensures r != Empty ==> HasLine(b, r)
    ensures r != Empty ==>
      exists j | 0 <= j < |Lines| :: Owns(b, j, r) && forall i | 0 <= i < j :: !Completed(b, i)
  {
    var r := WinnerFrom(b, 0);
    assert r != Empty ==> HasLine(b, r);
    assert HasLine(b, Player) || HasLine(b, Computer) ==> exists j | 0 <= j < |Lines| :: Completed(b, j);
    r
  }

  /** No square is empty. */
  predicate IsFull(b: Board) {
    forall i | 0 <= i < 9 :: b[i] != Empty
  }

  /** The number of empty squares; it measures how much of the game is left. */
  function EmptyCount(s: seq<Cell>): nat {
    multiset(s)[Empty]
  }

  /** The game-over rule: a line is filled or the board is full. */
  predicate Finished(b: Board) {
    Winner(b) != Empty || IsFull(b)
  }

  lemma EmptyCountBound(s: seq<Cell>)
    ensures EmptyCount(s) <= |s|
  {
  }
}
