/**
  When the game is over and how it ended: the winner, the utility of a
  board for X, and whether a board is terminal.
 */
module GameEnd {
  import opened Grid

  /** Three squares that win when one mark fills them all. */
  type Line = (Action, Action, Action)

  /** The eight winning lines: rows 0..2, columns 0..2, then the two diagonals. */
  function LineAt(k: int): Line
    requires 0 <= k < 8
  {
    if k < 3 then ((k, 0), (k, 1), (k, 2))
    else if k < 6 then ((0, k - 3), (1, k - 3), (2, k - 3))
    else if k == 6 then ((0, 0), (1, 1), (2, 2))
    else ((0, 2), (1, 1), (2, 0))
  }

  function At(b: Board, a: Action): Cell {
    if InBounds(a) then b[a.0][a.1] else Empty
  }

  /** Mark m fills all three squares of line l. */
  predicate Fills(b: Board, l: Line, m: Cell) {
    At(b, l.0) == m && At(b, l.1) == m && At(b, l.2) == m
  }

  /** Mark m (X or O) completes some row, column or diagonal. */
  predicate HasLine(b: Board, m: Cell) {
    m != Empty && exists k :: 0 <= k < 8 && Fills(b, LineAt(k), m)
  }

  // ---------------------------------------------------------------------------
  // winner

  predicate RowWins(b: Board, i: int)
    requires 0 <= i < 3
  {
    b[i][0] != Empty && b[i][0] == b[i][1] == b[i][2]
  }

  predicate ColumnWins(b: Board, i: int)
    requires 0 <= i < 3
  {
    b[0][i] != Empty && b[0][i] == b[1][i] == b[2][i]
  }

  /** The diagonal test: the centre is a mark that one of the diagonals repeats. */
  function DiagonalWinner(b: Board): Cell {
    if b[1][1] != Empty && (b[0][0] == b[1][1] == b[2][2] || b[0][2] == b[1][1] == b[2][0]) then b[1][1]
    else Empty
  }

  /** The scan from index i on: row i, then column i, then the next index, then the diagonals. */
  function ScanFrom(b: Board, i: int): Cell
    requires 0 <= i <= 3
    decreases 3 - i
  {
    if i == 3 then DiagonalWinner(b)
    else if RowWins(b, i) then b[i][0]
    else if ColumnWins(b, i) then b[0][i]
    else ScanFrom(b, i + 1)
  }

  /**
    The mark of the first complete line the scan meets, or Empty (None) when
    there is none. A mark is only reported when it completes a line.
   */
  function Winner(b: Board): (w: Cell)
    ensures w != Empty ==> HasLine(b, w)
  {
    ScanSound(b, 0);
    ScanFrom(b, 0)
  }

  lemma {:induction false} ScanSound(b: Board, i: int)
    requires 0 <= i <= 3
    ensures ScanFrom(b, i) != Empty ==> HasLine(b, ScanFrom(b, i))
    decreases 3 - i
  {
    if i == 3 {
      if DiagonalWinner(b) != Empty {
        if b[0][0] == b[1][1] == b[2][2] {
          assert Fills(b, LineAt(6), b[1][1]);
        } else {
          assert Fills(b, LineAt(7), b[1][1]);
        }
      }
    } else if RowWins(b, i) {
      assert Fills(b, LineAt(i), b[i][0]);
    } else if ColumnWins(b, i) {
      assert Fills(b, LineAt(i + 3), b[0][i]);
    } else {
      ScanSound(b, i + 1);
    }
  }

  lemma {:induction false} ScanEmpty(b: Board, i: int)
    requires 0 <= i <= 3
    requires ScanFrom(b, i) == Empty
    ensures forall r | i <= r < 3 :: !RowWins(b, r) && !ColumnWins(b, r)
    ensures DiagonalWinner(b) == Empty
    decreases 3 - i
  {
    if i < 3 {
      ScanEmpty(b, i + 1);
    }
  }

  /** No winner is reported only when neither mark completes a line. */
  lemma WinnerComplete(b: Board)
    ensures Winner(b) == Empty <==> !HasLine(b, X) && !HasLine(b, O)
  {
    if Winner(b) == Empty {
      ScanEmpty(b, 0);
      forall m, k | m != Empty && 0 <= k < 8
        ensures !Fills(b, LineAt(k), m)
      {
        if k < 3 {
          assert !RowWins(b, k);
        } else if k < 6 {
          assert !ColumnWins(b, k - 3);
        }
      }
    }
  }

  /** When exactly one mark completes a line, that mark is the winner. */
  lemma WinnerUnique(b: Board, m: Cell)
    requires HasLine(b, m) && !HasLine(b, if m == X then O else X)
    ensures Winner(b) == m
  {
    WinnerComplete(b);
  }

  // ---------------------------------------------------------------------------
  // utility and terminal

  /** 1 when X has won, -1 when O has won, 0 otherwise. */
  function Utility(b: Board): (u: int)
    ensures -1 <= u <= 1
  {
    var w := Winner(b);
    if w == X then 1
    else if w == O then -1
    else 0
  }

  /** What the utility says about the winner and the lines on the board. */
  lemma UtilityMeaning(b: Board)
    ensures Utility(b) == 1 <==> Winner(b) == X
    ensures Utility(b) == -1 <==> Winner(b) == O
    ensures Utility(b) == 1 ==> HasLine(b, X)
    ensures Utility(b) == -1 ==> HasLine(b, O)
    ensures Utility(b) == 0 <==> !HasLine(b, X) && !HasLine(b, O)
    ensures HasLine(b, X) && !HasLine(b, O) ==> Utility(b) == 1
    ensures HasLine(b, O) && !HasLine(b, X) ==> Utility(b) == -1
  {
    WinnerComplete(b);
  }

  /**
    The game is over: someone has won, or there is no action left (Actions
    returns the empty set exactly when the board is full).
   */
  predicate Terminal(b: Board): (t: bool)
    ensures t <==> HasLine(b, X) || HasLine(b, O) || Full(b)
  {
    UtilityMeaning(b);
    Utility(b) != 0 || Full(b)
  }

  /** A board still in play has an empty square: the measure the search recurses on is positive. */
  lemma InPlayHasFreeSquare(b: Board)
    requires !Terminal(b)
    ensures Count(b, Empty) >= 1
  {
    FullIffNoEmptySquare(b);
  }
}
