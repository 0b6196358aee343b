/** The tic-tac-toe engine: board scoring, the recursive minimax search and
    the choice of the computer's next move.

    The board is passed by value in the program, so every simulated move is
    made on a copy; here a board is an immutable sequence and "undoing" a
    move is not needed. The score constants come from a header that is not
    part of this model: X wins 10, O wins -10, a draw 0, and -1 for a game
    still in progress. */
module Minimax {
  import opened Common

  datatype Square = Empty | X | O

  const ROWS: nat := 3
  const COLUMNS: nat := 3
  const SQUARES: nat := 9

  /** A 3 by 3 board in row-major order: square (r, c) is element 3r + c. */
  type Board = b: seq<Square> | |b| == SQUARES
    witness [Empty, Empty, Empty, Empty, Empty, Empty, Empty, Empty, Empty]

  datatype Location = Location(row: nat, column: nat)

  predicate OnBoard(l: Location) {
    l.row < ROWS && l.column < COLUMNS
  }

  /** The row-major index of a square, and back. */
  function Index(l: Location): (i: nat)
    requires OnBoard(l)
    ensures i < SQUARES
  {
    COLUMNS * l.row + l.column
  }

  function LocationOf(i: nat): (l: Location)
    requires i < SQUARES
    ensures OnBoard(l) && Index(l) == i
  {
    Location(i / COLUMNS, i % COLUMNS)
  }

  function At(b: Board, row: nat, column: nat): Square
    requires row < ROWS && column < COLUMNS
  {
    b[COLUMNS * row + column]
  }

  const X_WINNING_SCORE: int := 10
  const O_WINNING_SCORE: int := -10
  const DRAW_SCORE: int := 0
  const NOT_ENDGAME: int := -1

  /** minimax_initBoard. */
  function InitBoard(): (b: Board)
    ensures forall i :: 0 <= i < SQUARES ==> b[i] == Empty
    ensures Count(b, Empty) == SQUARES
  {
    var b: Board := seq(SQUARES, _ => Empty);
    AllEmptyCount(b);
    b
  }

  /** The number of squares holding `v`. */
  function Count(s: seq<Square>, v: Square): (n: nat)
    ensures n <= |s|
  {
    if |s| == 0 then 0 else (if s[0] == v then 1 else 0) + Count(s[1..], v)
  }

  lemma {:induction false} AllEmptyCount(s: seq<Square>)
    requires forall i :: 0 <= i < |s| ==> s[i] == Empty
    ensures Count(s, Empty) == |s|
    ensures Count(s, X) == 0 && Count(s, O) == 0
  {
    if |s| > 0 {
      AllEmptyCount(s[1..]);
    }
  }

  /** Overwriting one square moves one unit of count from its old content
      to its new one. */
  lemma {:induction false} UpdateCount(s: seq<Square>, i: nat, m: Square, v: Square)
    requires i < |s|
    ensures Count(s[i := m], v) ==
              Count(s, v) - (if s[i] == v then 1 else 0) + (if m == v then 1 else 0)
  {
    if i > 0 {
      assert s[i := m][1..] == s[1..][i - 1 := m];
      UpdateCount(s[1..], i - 1, m, v);
    } else {
      assert s[i := m][1..] == s[1..];
    }
  }

  lemma UpdateCounts(s: seq<Square>, i: nat, m: Square)
    requires i < |s|
    ensures forall v :: Count(s[i := m], v) ==
              Count(s, v) - (if s[i] == v then 1 else 0) + (if m == v then 1 else 0)
  {
    forall v
      ensures Count(s[i := m], v) == Count(s, v) - (if s[i] == v then 1 else 0) + (if m == v then 1 else 0)
    {
      UpdateCount(s, i, m, v);
    }
  }

  /** A square with nothing on it exists exactly when the count is positive. */
  lemma {:induction false} CountEmptyPositive(s: seq<Square>)
    ensures Count(s, Empty) > 0 <==> exists i :: 0 <= i < |s| && s[i] == Empty
  {
    if |s| > 0 {
      CountEmptyPositive(s[1..]);
      if s[0] != Empty && exists i :: 0 <= i < |s| && s[i] == Empty {
        var i :| 0 <= i < |s| && s[i] == Empty;
        assert s[1..][i - 1] == Empty;
      }
      if exists i :: 0 <= i < |s[1..]| && s[1..][i] == Empty {
        var i :| 0 <= i < |s[1..]| && s[1..][i] == Empty;
        assert s[i + 1] == Empty;
      }
    }
  }

  /** The mark of the player to move. */
  function Mark(xTurn: bool): Square {
    if xTurn then X else O
  }

  /** The player who made the previous move: O when it is X's turn. */
  function LastMover(xTurn: bool): (p: Square)
    ensures p != Empty && p != Mark(xTurn)
  {
    if xTurn then O else X
  }

  function WinningScore(p: Square): int
    requires p != Empty
  {
    if p == X then X_WINNING_SCORE else O_WINNING_SCORE
  }

  /** Places a mark on a square and changes no other square. */
  function Place(b: Board, i: nat, m: Square): (r: Board)
    requires i < SQUARES
    ensures r[i] == m
    ensures forall j :: 0 <= j < SQUARES && j != i ==> r[j] == b[j]
    ensures forall v :: Count(r, v) == Count(b, v) - (if b[i] == v then 1 else 0) + (if m == v then 1 else 0)
  {
    UpdateCounts(b, i, m);
    b[i := m]
  }

  /** Emptying the square just filled gives the board back: every simulated
      move is undone. */
  lemma PlaceUndo(b: Board, i: nat, m: Square)
    requires i < SQUARES && b[i] == Empty
    ensures Place(Place(b, i, m), i, Empty) == b
  {
  }

  predicate Row(b: Board, r: nat, p: Square)
    requires r < ROWS
  {
    forall c :: 0 <= c < COLUMNS ==> At(b, r, c) == p
  }

  predicate Column(b: Board, c: nat, p: Square)
    requires c < COLUMNS
  {
    forall r :: 0 <= r < ROWS ==> At(b, r, c) == p
  }

  /** The squares (r, r). */
  predicate Diagonal(b: Board, p: Square) {
    forall r :: 0 <= r < ROWS ==> At(b, r, r) == p
  }

  /** Square (r, 2 - r) of the anti-diagonal. */
  function AntiAt(b: Board, r: nat): Square
    requires r < ROWS
  {
    At(b, r, ROWS - r - 1)
  }

  /** The squares (r, 2 - r). */
  predicate AntiDiagonal(b: Board, p: Square) {
    forall r :: 0 <= r < ROWS ==> AntiAt(b, r) == p
  }

  /** `p` holds a whole row, column or diagonal. */
  predicate HasLine(b: Board, p: Square) {
    || (exists r :: 0 <= r < ROWS && Row(b, r, p))
    || (exists c :: 0 <= c < COLUMNS && Column(b, c, p))
    || Diagonal(b, p)
    || AntiDiagonal(b, p)
  }

  predicate HasEmpty(b: Board) {
    exists i :: 0 <= i < SQUARES && b[i] == Empty
  }

  /** What the board's score means: the previous mover's winning score if
      they hold a line, otherwise "not over" while a square is empty, and a
      draw on a full board. Only the previous mover's lines are looked at. */
  function Score(b: Board, xTurn: bool): (s: int)
    ensures s == NOT_ENDGAME <==> !HasLine(b, LastMover(xTurn)) && HasEmpty(b)
  {
    var p := LastMover(xTurn);
    if HasLine(b, p) then WinningScore(p)
    else if HasEmpty(b) then NOT_ENDGAME
    else DRAW_SCORE
  }

  /** minimax_isGameOver. */
  function IsGameOver(score: int): (r: bool)
    ensures score in {X_WINNING_SCORE, O_WINNING_SCORE, DRAW_SCORE} ==> r
    ensures score == NOT_ENDGAME ==> !r
  {
    score != NOT_ENDGAME
  }

  /** The game is over exactly when the previous mover holds a line or the
      board is full. */
  lemma GameOverIffFinished(b: Board, xTurn: bool)
    ensures IsGameOver(Score(b, xTurn)) <==> HasLine(b, LastMover(xTurn)) || !HasEmpty(b)
  {
  }

  /** A fresh board is not over, whoever is to move. */
  lemma InitBoardNotOver(xTurn: bool)
    ensures !IsGameOver(Score(InitBoard(), xTurn))
  {
    var b := InitBoard();
    assert b[0] == Empty;
    NoLineOfEmpties(b, LastMover(xTurn));
  }

  /** A player holds no line on a board whose squares are all empty. */
  lemma NoLineOfEmpties(b: Board, p: Square)
    requires p != Empty
    requires forall i :: 0 <= i < SQUARES ==> b[i] == Empty
    ensures !HasLine(b, p)
  {
    forall r | 0 <= r < ROWS
      ensures !Row(b, r, p) && !Column(b, r, p)
    {
      assert At(b, r, 0) == Empty;
      assert At(b, 0, r) == Empty;
    }
    assert At(b, 0, 0) == Empty && AntiAt(b, 0) == Empty;
  }

  /** minimax_computeBoardScore with the program's loops: rows, columns, the
      diagonal, the anti-diagonal, then the scan for an empty square. */
  method ComputeBoardScore(b: Board, xTurn: bool) returns (s: int)
    ensures s == Score(b, xTurn)
    ensures s == WinningScore(LastMover(xTurn)) <==> HasLine(b, LastMover(xTurn))
    ensures s == DRAW_SCORE <==> !HasLine(b, LastMover(xTurn)) && !HasEmpty(b)
  {
    var p := LastMover(xTurn);
    var row := 0;
    while row < ROWS
      invariant row <= ROWS
      invariant forall r :: 0 <= r < row ==> !Row(b, r, p)
    {
      var win := true;
      var col := 0;
      while col < COLUMNS
        invariant col <= COLUMNS
        invariant forall c :: 0 <= c < col ==> At(b, row, c) == p
      {
        if At(b, row, col) != p {
          win := false;
          break;
        }
        col := col + 1;
      }
      if win {
        assert Row(b, row, p);
        return WinningScore(p);
      }
      row := row + 1;
    }
    var col := 0;
    while col < COLUMNS
      invariant col <= COLUMNS
      invariant forall c :: 0 <= c < col ==> !Column(b, c, p)
    {
      var win := true;
      var r := 0;
      while r < ROWS
        invariant r <= ROWS
        invariant forall k :: 0 <= k < r ==> At(b, k, col) == p
      {
        if At(b, r, col) != p {
          win := false;
          break;
        }
        r := r + 1;
      }
      if win {
        assert Column(b, col, p);
        return WinningScore(p);
      }
      col := col + 1;
    }
    var diagonal := true;
    var r := 0;
    while r < ROWS
      invariant r <= ROWS
      invariant forall k :: 0 <= k < r ==> At(b, k, k) == p
    {
      if At(b, r, r) != p {
        diagonal := false;
        break;
      }
      r := r + 1;
    }
    if diagonal {
      return WinningScore(p);
    }
    var anti := true;
    r := 0;
    while r < ROWS
      invariant r <= ROWS
      invariant forall k :: 0 <= k < r ==> AntiAt(b, k) == p
    {
      if AntiAt(b, r) != p {
        anti := false;
        break;
      }
      r := r + 1;
    }
    if anti {
      return WinningScore(p);
    }
    assert !HasLine(b, p);
    var i := 0;
    while i < SQUARES
      invariant i <= SQUARES
      invariant forall k :: 0 <= k < i ==> b[k] != Empty
    {
      if b[i] == Empty {
        assert HasEmpty(b);
        return NOT_ENDGAME;
      }
      i := i + 1;
    }
    return DRAW_SCORE;
  }

  /** The empty squares at index `from` or later, in row-major order. */
  function EmptyFrom(b: Board, from: nat): (moves: seq<nat>)
    requires from <= SQUARES
    ensures forall k :: 0 <= k < |moves| ==> from <= moves[k] < SQUARES && b[moves[k]] == Empty
    ensures forall i :: from <= i < SQUARES && b[i] == Empty ==> i in moves
    ensures forall k, l :: 0 <= k < l < |moves| ==> moves[k] < moves[l]
    decreases SQUARES - from
  {
    if from == SQUARES then []
    else if b[from] == Empty then [from] + EmptyFrom(b, from + 1)
    else EmptyFrom(b, from + 1)
  }

  /** The squares the search simulates, in the order the nested row and
      column loops visit them. */
  function Moves(b: Board): (moves: seq<nat>)
    ensures forall k :: 0 <= k < |moves| ==> moves[k] < SQUARES && b[moves[k]] == Empty
    ensures forall i :: 0 <= i < SQUARES && b[i] == Empty ==> i in moves
    ensures forall k, l :: 0 <= k < l < |moves| ==> moves[k] < moves[l]
  {
    EmptyFrom(b, 0)
  }

  /** `a` is at least as good as `b` for the player to move: X maximises,
      O minimises. */
  predicate AtLeastAsGood(a: int, b: int, xTurn: bool) {
    if xTurn then a >= b else a <= b
  }

  /** The selection loop after the search: scanning left to right and
      replacing the best so far whenever a score is at least as good (>= for
      X, <= for O), so the LAST best score wins. */
  function BestIndex(scores: seq<int>, xTurn: bool): (r: nat)
    requires |scores| > 0
    ensures r < |scores|
    ensures forall j :: 0 <= j < |scores| ==> AtLeastAsGood(scores[r], scores[j], xTurn)
    ensures forall j :: r < j < |scores| ==> !AtLeastAsGood(scores[j], scores[r], xTurn)
    decreases |scores|
  {
    if |scores| == 1 then 0
    else
      var k := BestIndex(scores[..|scores| - 1], xTurn);
      if AtLeastAsGood(scores[|scores| - 1], scores[k], xTurn) then |scores| - 1 else k
  }

  /** The recursive search: the depth-biased score of a finished board, or
      the best of the scores of every move available to the player. Values
      never leave [-10 - d, 10 + d], where d is the deepest depth the search
      can reach from here, so they fit a small signed type. */
  function Minimax(b: Board, xTurn: bool, depth: nat): (v: int)
    ensures
      var s := Score(b, xTurn);
      s != NOT_ENDGAME ==> v == (if xTurn then s + depth else s - depth)
    ensures -10 - (depth + Count(b, Empty)) <= v <= 10 + depth + Count(b, Empty)
    decreases Count(b, Empty), 1
  {
    var s := Score(b, xTurn);
    if s != NOT_ENDGAME then
      (if xTurn then s + depth else s - depth)
    else
      CountEmptyPositive(b);
      var scores := MoveScores(b, xTurn, depth);
      scores[BestIndex(scores, xTurn)]
  }

  /** The score of every available move, in the order they are simulated. */
  function MoveScores(b: Board, xTurn: bool, depth: nat): (scores: seq<int>)
    ensures |scores| == |Moves(b)|
    ensures HasEmpty(b) ==> |scores| > 0
    ensures forall k :: 0 <= k < |scores| ==> -10 - (depth + Count(b, Empty)) <= scores[k] <= 10 + depth + Count(b, Empty)
    decreases Count(b, Empty), 0
  {
    var moves := Moves(b);
    assert HasEmpty(b) ==> |moves| > 0 by {
      if HasEmpty(b) {
        var i :| 0 <= i < SQUARES && b[i] == Empty;
        assert i in moves;
      }
    }
    seq(|moves|, k requires 0 <= k < |moves| =>
      Minimax(Place(b, moves[k], Mark(xTurn)), !xTurn, depth + 1))
  }

  /** On an unfinished board the search's value is the best value over the
      available moves: no move is better for the player to move, and some
      move achieves it. */
  lemma MinimaxOptimal(b: Board, xTurn: bool, depth: nat)
    requires !IsGameOver(Score(b, xTurn))
    ensures |Moves(b)| > 0
    ensures forall k :: 0 <= k < |Moves(b)| ==>
              AtLeastAsGood(Minimax(b, xTurn, depth), MoveScores(b, xTurn, depth)[k], xTurn)
    ensures exists k :: 0 <= k < |Moves(b)| && Minimax(b, xTurn, depth) == MoveScores(b, xTurn, depth)[k]
  {
    var k := BestIndex(MoveScores(b, xTurn, depth), xTurn);
    assert Minimax(b, xTurn, depth) == MoveScores(b, xTurn, depth)[k];
  }

  /** The score of playing square `i` now: the search value of the board
      after the move, one level deeper, with the other player to move. */
  function MoveValue(b: Board, xTurn: bool, i: nat): int
    requires i < SQUARES
  {
    Minimax(Place(b, i, Mark(xTurn)), !xTurn, 1)
  }

  /** minimax_computeNextMove. `lastChoice` is the value the program's
      static `choice` holds from the previous search, returned unchanged when
      the board is already finished (the search then records no move). On an
      unfinished board the move is an empty square whose value is best for
      the player to move, and the last such square in row-major order. */
  function ComputeNextMove(b: Board, xTurn: bool, lastChoice: Location): (l: Location)
    ensures IsGameOver(Score(b, xTurn)) ==> l == lastChoice
    ensures !IsGameOver(Score(b, xTurn)) ==>
              && OnBoard(l) && b[Index(l)] == Empty
              && (forall i :: 0 <= i < SQUARES && b[i] == Empty ==>
                    AtLeastAsGood(MoveValue(b, xTurn, Index(l)), MoveValue(b, xTurn, i), xTurn))
              && (forall i :: Index(l) < i < SQUARES && b[i] == Empty ==>
                    !AtLeastAsGood(MoveValue(b, xTurn, i), MoveValue(b, xTurn, Index(l)), xTurn))
  {
    if IsGameOver(Score(b, xTurn)) then lastChoice
    else
      MinimaxOptimal(b, xTurn, 0);
      var moves := Moves(b);
      var scores := MoveScores(b, xTurn, 0);
      var k := BestIndex(scores, xTurn);
      NextMoveIsBest(b, xTurn, k);
      LocationOf(moves[k])
  }

  /** The move the selection loop picks is best among all empty squares and
      strictly better than every later one. */
  lemma NextMoveIsBest(b: Board, xTurn: bool, k: nat)
    requires !IsGameOver(Score(b, xTurn))
    requires |Moves(b)| > 0
    requires k == BestIndex(MoveScores(b, xTurn, 0), xTurn)
    ensures forall i :: 0 <= i < SQUARES && b[i] == Empty ==>
              AtLeastAsGood(MoveValue(b, xTurn, Moves(b)[k]), MoveValue(b, xTurn, i), xTurn)
    ensures forall i :: Moves(b)[k] < i < SQUARES && b[i] == Empty ==>
              !AtLeastAsGood(MoveValue(b, xTurn, i), MoveValue(b, xTurn, Moves(b)[k]), xTurn)
  {
    var moves := Moves(b);
    var scores := MoveScores(b, xTurn, 0);
    forall i | 0 <= i < SQUARES && b[i] == Empty
      ensures AtLeastAsGood(MoveValue(b, xTurn, moves[k]), MoveValue(b, xTurn, i), xTurn)
      ensures moves[k] < i ==> !AtLeastAsGood(MoveValue(b, xTurn, i), MoveValue(b, xTurn, moves[k]), xTurn)
    {
      assert i in moves;
      var j :| 0 <= j < |moves| && moves[j] == i;
      assert scores[j] == MoveValue(b, xTurn, i);
      assert scores[k] == MoveValue(b, xTurn, moves[k]);
      if moves[k] < i {
        assert !(j < k) && j != k;
      }
    }
  }
}
