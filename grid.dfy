/**
  The tic-tac-toe board and its turn rules: the empty board, whose turn it
  is, which squares are free, and the board a move produces.
 */
module Grid {

  /** One square: empty (Python's None) or holding a player's mark. */
  datatype Cell = Empty | X | O

  /** A 3x3 board, indexed row first. */
  type Board = b: seq<seq<Cell>> | |b| == 3 && forall i | 0 <= i < 3 :: |b[i]| == 3
    witness [[Empty, Empty, Empty], [Empty, Empty, Empty], [Empty, Empty, Empty]]

  /** A move (i, j): row i, column j. */
  type Action = (int, int)

  /** The outcome of an operation that may raise Python's IndexError. */
  datatype Outcome<T> = Ok(value: T) | IndexError

  predicate InBounds(a: Action) {
    0 <= a.0 < 3 && 0 <= a.1 < 3
  }

  /** A legal move: an empty square on the board. */
  predicate IsMove(b: Board, a: Action) {
    InBounds(a) && b[a.0][a.1] == Empty
  }

  predicate Full(b: Board) {
    forall i, j | 0 <= i < 3 && 0 <= j < 3 :: b[i][j] != Empty
  }

  // ---------------------------------------------------------------------------
  // Counting marks

  function Indicator(c: Cell, m: Cell): nat {
    if c == m then 1 else 0
  }

  /** Number of squares of the row r that hold m. */
  function RowCount(r: seq<Cell>, m: Cell): nat {
    if r == [] then 0 else RowCount(r[..|r| - 1], m) + Indicator(r[|r| - 1], m)
  }

  /** Number of squares of the rows g that hold m. */
  function GridCount(g: seq<seq<Cell>>, m: Cell): nat {
    if g == [] then 0 else GridCount(g[..|g| - 1], m) + RowCount(g[|g| - 1], m)
  }

  function Count(b: Board, m: Cell): nat {
    GridCount(b, m)
  }

  /** The count of a board, row by row. */
  lemma CountByRows(b: Board, m: Cell)
    ensures Count(b, m) == RowCount(b[0], m) + RowCount(b[1], m) + RowCount(b[2], m)
  {
    assert b[..3] == b;
    assert b[..2][..1] == b[..1];
    assert b[..1][..0] == [];
    assert GridCount(b[..1], m) == RowCount(b[0], m);
    assert GridCount(b[..2], m) == GridCount(b[..1], m) + RowCount(b[1], m);
  }

  /** Writing v at position j changes the count of m by what left and what came in. */
  lemma {:induction false} RowCountUpdate(r: seq<Cell>, j: int, v: Cell, m: Cell)
    requires 0 <= j < |r|
    ensures RowCount(r[j := v], m) == RowCount(r, m) - Indicator(r[j], m) + Indicator(v, m)
  {
    var n := |r| - 1;
    if j < n {
      assert r[j := v][..n] == r[..n][j := v];
      RowCountUpdate(r[..n], j, v, m);
    } else {
      assert r[j := v][..n] == r[..n];
    }
  }

  lemma {:induction false} GridCountUpdate(g: seq<seq<Cell>>, i: int, j: int, v: Cell, m: Cell)
    requires 0 <= i < |g| && 0 <= j < |g[i]|
    ensures GridCount(g[i := g[i][j := v]], m) == GridCount(g, m) - Indicator(g[i][j], m) + Indicator(v, m)
  {
    var n := |g| - 1;
    var g' := g[i := g[i][j := v]];
    if i < n {
      assert g'[..n] == g[..n][i := g[i][j := v]];
      GridCountUpdate(g[..n], i, j, v, m);
    } else {
      assert g'[..n] == g[..n];
      RowCountUpdate(g[i], j, v, m);
    }
  }

  /** A row holds no m exactly when its count of m is zero. */
  lemma {:induction false} RowCountZero(r: seq<Cell>, m: Cell)
    ensures RowCount(r, m) == 0 <==> forall k | 0 <= k < |r| :: r[k] != m
  {
    if r != [] {
      var n := |r| - 1;
      RowCountZero(r[..n], m);
      assert forall k | 0 <= k < n :: r[..n][k] == r[k];
    }
  }

  /** Every square holds exactly one of the three values. */
  lemma {:induction false} RowCountPartition(r: seq<Cell>)
    ensures RowCount(r, X) + RowCount(r, O) + RowCount(r, Empty) == |r|
  {
    if r != [] {
      RowCountPartition(r[..|r| - 1]);
    }
  }

  lemma CountPartition(b: Board)
    ensures Count(b, X) + Count(b, O) + Count(b, Empty) == 9
  {
    RowCountPartition(b[0]);
    RowCountPartition(b[1]);
    RowCountPartition(b[2]);
    CountByRows(b, X);
    CountByRows(b, O);
    CountByRows(b, Empty);
  }

  /** The board is full exactly when no square counts as empty. */
  lemma FullIffNoEmptySquare(b: Board)
    ensures Full(b) <==> Count(b, Empty) == 0
  {
    RowCountZero(b[0], Empty);
    RowCountZero(b[1], Empty);
    RowCountZero(b[2], Empty);
    CountByRows(b, Empty);
  }

  // ---------------------------------------------------------------------------
  // initial_state

  function InitialState(): (b: Board)
    ensures forall i, j | 0 <= i < 3 && 0 <= j < 3 :: b[i][j] == Empty
  {
    [[Empty, Empty, Empty], [Empty, Empty, Empty], [Empty, Empty, Empty]]
  }

  lemma InitialStateCounts()
    ensures Count(InitialState(), X) == 0 && Count(InitialState(), O) == 0
    ensures Count(InitialState(), Empty) == 9
    ensures ToMove(InitialState()) == X
  {
    var b := InitialState();
    RowCountZero(b[0], X);
    RowCountZero(b[1], X);
    RowCountZero(b[2], X);
    RowCountZero(b[0], O);
    RowCountZero(b[1], O);
    RowCountZero(b[2], O);
    CountByRows(b, X);
    CountByRows(b, O);
    CountPartition(b);
  }

  // ---------------------------------------------------------------------------
  // player

  /** Whose turn it is: O once X has more marks on the board, X otherwise. */
  function ToMove(b: Board): Cell {
    if Count(b, X) > Count(b, O) then O else X
  }

  /** The counts of a board reached by alternating moves from the empty board. */
  predicate Balanced(b: Board) {
    Count(b, X) == Count(b, O) || Count(b, X) == Count(b, O) + 1
  }

  /** Counts the marks square by square, as the source's two nested loops do. */
  method Player(b: Board) returns (p: Cell)
    ensures p == ToMove(b)
    ensures p == O <==> Count(b, X) > Count(b, O)
    ensures p == X <==> Count(b, X) <= Count(b, O)
  {
    var xCount, oCount := 0, 0;
    for i := 0 to 3
      invariant xCount == GridCount(b[..i], X) && oCount == GridCount(b[..i], O)
    {
      for j := 0 to 3
        invariant xCount == GridCount(b[..i], X) + RowCount(b[i][..j], X)
        invariant oCount == GridCount(b[..i], O) + RowCount(b[i][..j], O)
      {
        assert b[i][..j + 1][..j] == b[i][..j];
        if b[i][j] == X {
          xCount := xCount + 1;
        } else if b[i][j] == O {
          oCount := oCount + 1;
        }
      }
      assert b[i][..3] == b[i];
      assert b[..i + 1][..i] == b[..i];
    }
    assert b[..3] == b;
    if xCount > oCount {
      return O;
    }
    return X;
  }

  /**
    On boards reached by legal play the turn alternates: a move keeps the
    counts balanced, adds one mark of the mover, and hands the turn over.
   */
  lemma MoveAlternates(b: Board, a: Action)
    requires Balanced(b) && IsMove(b, a)
    ensures Count(Result(b, a), ToMove(b)) == Count(b, ToMove(b)) + 1
    ensures Balanced(Result(b, a))
    ensures ToMove(Result(b, a)) != ToMove(b)
  {
    var p := ToMove(b);
    GridCountUpdate(b, a.0, a.1, p, X);
    GridCountUpdate(b, a.0, a.1, p, O);
  }

  // ---------------------------------------------------------------------------
  // actions

  /** The source's actions: the free squares, collected by scanning the rows in order. */
  method Actions(b: Board) returns (s: set<Action>)
    ensures forall a :: a in s <==> IsMove(b, a)
    ensures s == {} <==> Full(b)
  {
    s := {};
    for i := 0 to 3
      invariant forall a :: a in s <==> IsMove(b, a) && a.0 < i
    {
      for j := 0 to 3
        invariant forall a :: a in s <==> IsMove(b, a) && (a.0 < i || (a.0 == i && a.1 < j))
      {
        if b[i][j] == Empty {
          s := s + {(i, j)};
        }
      }
    }
    if !Full(b) {
      var i, j :| 0 <= i < 3 && 0 <= j < 3 && b[i][j] == Empty;
      assert IsMove(b, (i, j));
    }
  }

  /** Every square, in row-major order. */
  const AllSquares: seq<Action> := [(0, 0), (0, 1), (0, 2), (1, 0), (1, 1), (1, 2), (2, 0), (2, 1), (2, 2)]

  function FreeAmong(b: Board, squares: seq<Action>): (r: seq<Action>)
    requires forall a | a in squares :: InBounds(a)
    ensures forall a :: a in r <==> a in squares && IsMove(b, a)
  {
    if squares == [] then []
    else
      var rest := FreeAmong(b, squares[1..]);
      if IsMove(b, squares[0]) then [squares[0]] + rest else rest
  }

  /** The free squares listed in row-major order, for folding over them. */
  function MoveList(b: Board): (r: seq<Action>)
    ensures forall a :: a in r <==> IsMove(b, a)
    ensures r == [] <==> Full(b)
  {
    var r := FreeAmong(b, AllSquares);
    assert forall a | InBounds(a) :: a in AllSquares by {
      forall a | InBounds(a) ensures a in AllSquares {
        assert a == (a.0, a.1);
      }
    }
    assert r == [] <==> Full(b) by {
      if !Full(b) {
        var i, j :| 0 <= i < 3 && 0 <= j < 3 && b[i][j] == Empty;
        assert (i, j) in r;
      }
      if r != [] {
        assert IsMove(b, r[0]);
      }
    }
    r
  }

  // ---------------------------------------------------------------------------
  // result

  /**
    The board after a move at a: a copy of b in which a free square receives
    the mark of the player to move; an occupied square leaves the copy as it
    was, without raising.
   */
  function Result(b: Board, a: Action): (r: Board)
    requires InBounds(a)
    ensures forall i, j | 0 <= i < 3 && 0 <= j < 3 && (i, j) != a :: r[i][j] == b[i][j]
    ensures IsMove(b, a) ==> r[a.0][a.1] == ToMove(b)
    ensures !IsMove(b, a) ==> r == b
    ensures IsMove(b, a) ==> Count(r, Empty) == Count(b, Empty) - 1
  {
    if b[a.0][a.1] == Empty then
      GridCountUpdate(b, a.0, a.1, ToMove(b), Empty);
      b[a.0 := b[a.0][a.1 := ToMove(b)]]
    else
      b
  }

  /**
    The explicit bounds check at the head of the source's result: the actions
    it raises IndexError for. It never refuses a square of the board.
   */
  predicate GuardRejects(a: Action): (rejected: bool)
    ensures rejected ==> !InBounds(a)
  {
    a.0 < 0 || a.1 > 9
  }

  /**
    The guard lets through an action off the board: a negative column. The
    checked result refuses it.
   */
  lemma GuardLetsNegativeColumnThrough()
    ensures !GuardRejects((0, -1)) && !InBounds((0, -1))
    ensures ResultChecked(InitialState(), (0, -1)) == IndexError
  {
  }

  /** result with the bounds check the guard evidently meant: every action off the board raises IndexError. */
  function ResultChecked(b: Board, a: Action): (r: Outcome<Board>)
    ensures r.Ok? <==> InBounds(a)
    ensures r.Ok? ==> r.value == Result(b, a)
    ensures GuardRejects(a) ==> r == IndexError
  {
    if InBounds(a) then Ok(Result(b, a)) else IndexError
  }
}
