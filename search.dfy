/**
  Exhaustive minimax over the game tree: the value of a board for the
  maximiser (X) and the minimiser (O), and the move the search picks.
 */
module Search {
  import opened Grid
  import opened GameEnd

  datatype Option<T> = None | Some(value: T)

  /** Stand-ins for the source's -math.inf and math.inf: below and above every utility. */
  const NegInf: int := -2
  const PosInf: int := 2

  function Max(x: int, y: int): int {
    if x < y then y else x
  }

  function Min(x: int, y: int): int {
    if x < y then x else y
  }

  // ---------------------------------------------------------------------------
  // The minimax values, as functions

  /** Every entry of moves is a free square of b. */
  predicate AllMoves(b: Board, moves: seq<Action>) {
    forall k | 0 <= k < |moves| :: IsMove(b, moves[k])
  }

  /** The value of b when the maximiser is to choose: the utility at the end of the game, else the best successor's MinScore. */
  function MaxScore(b: Board): (r: int)
    ensures -1 <= r <= 1
    ensures Terminal(b) ==> r == Utility(b)
    decreases Count(b, Empty), 1
  {
    if Terminal(b) then Utility(b)
    else
      var replies := MinReplies(b, MoveList(b));
      MaxOfIsMaximum(replies);
      MaxOf(replies)
  }

  /** The value of b when the minimiser is to choose. */
  function MinScore(b: Board): (r: int)
    ensures -1 <= r <= 1
    ensures Terminal(b) ==> r == Utility(b)
    decreases Count(b, Empty), 1
  {
    if Terminal(b) then Utility(b)
    else
      var replies := MaxReplies(b, MoveList(b));
      MinOfIsMinimum(replies);
      MinOf(replies)
  }

  /** The MinScore of the board each move leads to, in the order of moves. */
  function MinReplies(b: Board, moves: seq<Action>): (r: seq<int>)
    requires AllMoves(b, moves)
    ensures |r| == |moves|
    ensures forall k | 0 <= k < |r| :: -1 <= r[k] <= 1
    decreases Count(b, Empty), 0
  {
    seq(|moves|, k requires 0 <= k < |moves| && IsMove(b, moves[k]) => MinScore(Result(b, moves[k])))
  }

  /** The MaxScore of the board each move leads to, in the order of moves. */
  function MaxReplies(b: Board, moves: seq<Action>): (r: seq<int>)
    requires AllMoves(b, moves)
    ensures |r| == |moves|
    ensures forall k | 0 <= k < |r| :: -1 <= r[k] <= 1
    decreases Count(b, Empty), 0
  {
    seq(|moves|, k requires 0 <= k < |moves| && IsMove(b, moves[k]) => MaxScore(Result(b, moves[k])))
  }

  /** The source's loop `value = max(value, ...)` from value = -inf, over the scores in order. */
  function MaxOf(s: seq<int>): int {
    if s == [] then NegInf else Max(MaxOf(s[..|s| - 1]), s[|s| - 1])
  }

  /** The source's loop `value = min(value, ...)` from value = inf, over the scores in order. */
  function MinOf(s: seq<int>): int {
    if s == [] then PosInf else Min(MinOf(s[..|s| - 1]), s[|s| - 1])
  }

  /** Visiting one more move extends the replies by that move's MinScore. */
  lemma MinRepliesAppend(b: Board, moves: seq<Action>, a: Action)
    requires AllMoves(b, moves) && IsMove(b, a)
    ensures AllMoves(b, moves + [a])
    ensures MinReplies(b, moves + [a]) == MinReplies(b, moves) + [MinScore(Result(b, a))]
  {
    assert forall k | 0 <= k < |moves| :: (moves + [a])[k] == moves[k];
  }

  /** Visiting one more move extends the replies by that move's MaxScore. */
  lemma MaxRepliesAppend(b: Board, moves: seq<Action>, a: Action)
    requires AllMoves(b, moves) && IsMove(b, a)
    ensures AllMoves(b, moves + [a])
    ensures MaxReplies(b, moves + [a]) == MaxReplies(b, moves) + [MaxScore(Result(b, a))]
  {
    assert forall k | 0 <= k < |moves| :: (moves + [a])[k] == moves[k];
  }

  lemma MaxOfAppend(s: seq<int>, x: int)
    ensures MaxOf(s + [x]) == Max(MaxOf(s), x)
  {
    assert (s + [x])[..|s|] == s;
  }

  lemma MinOfAppend(s: seq<int>, x: int)
    ensures MinOf(s + [x]) == Min(MinOf(s), x)
  {
    assert (s + [x])[..|s|] == s;
  }

  /** The running maximum is an upper bound of the scores that one of them attains; NegInf for no score. */
  lemma {:induction false} MaxOfIsMaximum(s: seq<int>)
    ensures s == [] ==> MaxOf(s) == NegInf
    ensures forall k | 0 <= k < |s| :: s[k] <= MaxOf(s)
    ensures MaxOf(s) == NegInf || exists k | 0 <= k < |s| :: s[k] == MaxOf(s)
  {
    if s != [] {
      var n := |s| - 1;
      var front := s[..n];
      MaxOfIsMaximum(front);
      assert forall k | 0 <= k < n :: front[k] == s[k];
      if s[n] < MaxOf(s) && MaxOf(s) != NegInf {
        var k :| 0 <= k < n && front[k] == MaxOf(front);
        assert s[k] == MaxOf(s);
      }
    }
  }

  /** The running minimum is a lower bound of the scores that one of them attains; PosInf for no score. */
  lemma {:induction false} MinOfIsMinimum(s: seq<int>)
    ensures s == [] ==> MinOf(s) == PosInf
    ensures forall k | 0 <= k < |s| :: MinOf(s) <= s[k]
    ensures MinOf(s) == PosInf || exists k | 0 <= k < |s| :: s[k] == MinOf(s)
  {
    if s != [] {
      var n := |s| - 1;
      var front := s[..n];
      MinOfIsMinimum(front);
      assert forall k | 0 <= k < n :: front[k] == s[k];
      if MinOf(s) < s[n] && MinOf(s) != PosInf {
        var k :| 0 <= k < n && front[k] == MinOf(front);
        assert s[k] == MinOf(s);
      }
    }
  }

  /** A bound that one of the scores attains is their running maximum. */
  lemma MaxOfEquals(s: seq<int>, m: int)
    requires NegInf <= m
    requires forall k | 0 <= k < |s| :: s[k] <= m
    requires exists k | 0 <= k < |s| :: s[k] == m
    ensures MaxOf(s) == m
  {
    MaxOfIsMaximum(s);
  }

  /** A bound that one of the scores attains is their running minimum. */
  lemma MinOfEquals(s: seq<int>, m: int)
    requires m <= PosInf
    requires forall k | 0 <= k < |s| :: m <= s[k]
    requires exists k | 0 <= k < |s| :: s[k] == m
    ensures MinOf(s) == m
  {
    MinOfIsMinimum(s);
  }

  /** On a board still in play, MaxScore is the largest MinScore of a successor, and some move reaches it. */
  lemma MaxScoreIsBest(b: Board)
    requires !Terminal(b)
    ensures forall a | IsMove(b, a) :: MinScore(Result(b, a)) <= MaxScore(b)
    ensures exists a | IsMove(b, a) :: MinScore(Result(b, a)) == MaxScore(b)
  {
    var moves := MoveList(b);
    var replies := MinReplies(b, moves);
    MaxOfIsMaximum(replies);
    forall a | IsMove(b, a) ensures MinScore(Result(b, a)) <= MaxScore(b) {
      var k :| 0 <= k < |moves| && moves[k] == a;
      assert replies[k] == MinScore(Result(b, a));
    }
    var k :| 0 <= k < |replies| && replies[k] == MaxScore(b);
    assert IsMove(b, moves[k]);
  }

  /** On a board still in play, MinScore is the smallest MaxScore of a successor, and some move reaches it. */
  lemma MinScoreIsBest(b: Board)
    requires !Terminal(b)
    ensures forall a | IsMove(b, a) :: MinScore(b) <= MaxScore(Result(b, a))
    ensures exists a | IsMove(b, a) :: MaxScore(Result(b, a)) == MinScore(b)
  {
    var moves := MoveList(b);
    var replies := MaxReplies(b, moves);
    MinOfIsMinimum(replies);
    forall a | IsMove(b, a) ensures MinScore(b) <= MaxScore(Result(b, a)) {
      var k :| 0 <= k < |moves| && moves[k] == a;
      assert replies[k] == MaxScore(Result(b, a));
    }
    var k :| 0 <= k < |replies| && replies[k] == MinScore(b);
    assert IsMove(b, moves[k]);
  }

  /**
    Visiting every free square in any order, the replies are the successors'
    MinScores, none above MaxScore(b), and one of them equal to it.
   */
  lemma MinRepliesPeak(b: Board, order: seq<Action>)
    requires !Terminal(b) && AllMoves(b, order)
    requires forall a | IsMove(b, a) :: a in order
    ensures forall k | 0 <= k < |order| :: MinReplies(b, order)[k] <= MaxScore(b)
    ensures exists k | 0 <= k < |order| :: MinReplies(b, order)[k] == MaxScore(b)
  {
    var replies := MinReplies(b, order);
    MaxScoreIsBest(b);
    forall k | 0 <= k < |order|
      ensures replies[k] <= MaxScore(b)
    {
      assert IsMove(b, order[k]);
      assert replies[k] == MinScore(Result(b, order[k]));
    }
    var a0 :| IsMove(b, a0) && MinScore(Result(b, a0)) == MaxScore(b);
    var k :| 0 <= k < |order| && order[k] == a0;
    assert replies[k] == MinScore(Result(b, a0));
  }

  /**
    Visiting every free square in any order, the replies are the successors'
    MaxScores, none below MinScore(b), and one of them equal to it.
   */
  lemma MaxRepliesPeak(b: Board, order: seq<Action>)
    requires !Terminal(b) && AllMoves(b, order)
    requires forall a | IsMove(b, a) :: a in order
    ensures forall k | 0 <= k < |order| :: MinScore(b) <= MaxReplies(b, order)[k]
    ensures exists k | 0 <= k < |order| :: MaxReplies(b, order)[k] == MinScore(b)
  {
    var replies := MaxReplies(b, order);
    MinScoreIsBest(b);
    forall k | 0 <= k < |order|
      ensures MinScore(b) <= replies[k]
    {
      assert IsMove(b, order[k]);
      assert replies[k] == MaxScore(Result(b, order[k]));
    }
    var a0 :| IsMove(b, a0) && MaxScore(Result(b, a0)) == MinScore(b);
    var k :| 0 <= k < |order| && order[k] == a0;
    assert replies[k] == MaxScore(Result(b, a0));
  }

  /** The running maximum ends at MaxScore whatever order the loop visits the free squares in. */
  lemma MaxValueOrderFree(b: Board, order: seq<Action>)
    requires !Terminal(b) && AllMoves(b, order)
    requires forall a | IsMove(b, a) :: a in order
    ensures MaxOf(MinReplies(b, order)) == MaxScore(b)
  {
    MinRepliesPeak(b, order);
    MaxOfEquals(MinReplies(b, order), MaxScore(b));
  }

  /** The running minimum ends at MinScore whatever order the loop visits the free squares in. */
  lemma MinValueOrderFree(b: Board, order: seq<Action>)
    requires !Terminal(b) && AllMoves(b, order)
    requires forall a | IsMove(b, a) :: a in order
    ensures MinOf(MaxReplies(b, order)) == MinScore(b)
  {
    MaxRepliesPeak(b, order);
    MinOfEquals(MaxReplies(b, order), MinScore(b));
  }

  /** A move that completes a line for X gives the maximiser the value +1. */
  lemma WinningMoveForX(b: Board, a: Action)
    requires !Terminal(b) && IsMove(b, a)
    requires HasLine(Result(b, a), X) && !HasLine(Result(b, a), O)
    ensures MaxScore(b) == 1
  {
    UtilityMeaning(Result(b, a));
    MaxScoreIsBest(b);
  }

  /** A move that completes a line for O gives the minimiser the value -1. */
  lemma WinningMoveForO(b: Board, a: Action)
    requires !Terminal(b) && IsMove(b, a)
    requires HasLine(Result(b, a), O) && !HasLine(Result(b, a), X)
    ensures MinScore(b) == -1
  {
    UtilityMeaning(Result(b, a));
    MinScoreIsBest(b);
  }

  // ---------------------------------------------------------------------------
  // max_value and min_value

  /** One turn of max_value's loop: the running maximum takes in the reply of one more move. */
  lemma MaxValueStep(b: Board, seen: seq<Action>, a: Action)
    requires AllMoves(b, seen) && IsMove(b, a)
    ensures AllMoves(b, seen + [a])
    ensures MaxOf(MinReplies(b, seen + [a])) == Max(MaxOf(MinReplies(b, seen)), MinScore(Result(b, a)))
  {
    MinRepliesAppend(b, seen, a);
    MaxOfAppend(MinReplies(b, seen), MinScore(Result(b, a)));
  }

  /** One turn of min_value's loop: the running minimum takes in the reply of one more move. */
  lemma MinValueStep(b: Board, seen: seq<Action>, a: Action)
    requires AllMoves(b, seen) && IsMove(b, a)
    ensures AllMoves(b, seen + [a])
    ensures MinOf(MaxReplies(b, seen + [a])) == Min(MinOf(MaxReplies(b, seen)), MaxScore(Result(b, a)))
  {
    MaxRepliesAppend(b, seen, a);
    MinOfAppend(MaxReplies(b, seen), MaxScore(Result(b, a)));
  }

  /** The source's max_value: the utility of a finished game, else a loop keeping the largest min_value of a successor. */
  method MaxValue(b: Board) returns (v: int)
    ensures v == MaxScore(b)
    decreases Count(b, Empty)
  {
    if Terminal(b) {
      return Utility(b);
    }
    v := NegInf;
    var todo := Actions(b);
    ghost var seen: seq<Action> := [];
    while todo != {}
      invariant AllMoves(b, seen)
      invariant forall a :: IsMove(b, a) <==> a in todo || a in seen
      invariant v == MaxOf(MinReplies(b, seen))
      decreases |todo|
    {
      var a :| a in todo;
      assert IsMove(b, a);
      var s := MinValue(Result(b, a));
      MaxValueStep(b, seen, a);
      v := Max(v, s);
      todo, seen := todo - {a}, seen + [a];
    }
    MaxValueOrderFree(b, seen);
  }

  /** The source's min_value: the utility of a finished game, else a loop keeping the smallest max_value of a successor. */
  method MinValue(b: Board) returns (v: int)
    ensures v == MinScore(b)
    decreases Count(b, Empty)
  {
    if Terminal(b) {
      return Utility(b);
    }
    v := PosInf;
    var todo := Actions(b);
    ghost var seen: seq<Action> := [];
    while todo != {}
      invariant AllMoves(b, seen)
      invariant forall a :: IsMove(b, a) <==> a in todo || a in seen
      invariant v == MinOf(MaxReplies(b, seen))
      decreases |todo|
    {
      var a :| a in todo;
      assert IsMove(b, a);
      var s := MaxValue(Result(b, a));
      MinValueStep(b, seen, a);
      v := Min(v, s);
      todo, seen := todo - {a}, seen + [a];
    }
    MinValueOrderFree(b, seen);
  }

  // ---------------------------------------------------------------------------
  // minimax

  /** Row-major order on squares: (i, j) strictly before (i', j'). */
  predicate SquareBefore(a: Action, a': Action) {
    a.0 < a'.0 || (a.0 == a'.0 && a.1 < a'.1)
  }

  /** Python's order on the lists [score, (i, j)]: by score, then by square. */
  predicate KeyLess(k: (int, Action), k': (int, Action)) {
    k.0 < k'.0 || (k.0 == k'.0 && SquareBefore(k.1, k'.1))
  }

  /**
    The first entry of sorted(moves, reverse=reverse): the least entry in
    Python's order, or the greatest one when reverse is set.
   */
  function FirstSorted(moves: seq<(int, Action)>, reverse: bool): (m: (int, Action))
    requires moves != []
    ensures m in moves
    ensures forall k | k in moves :: if reverse then !KeyLess(m, k) else !KeyLess(k, m)
  {
    if |moves| == 1 then moves[0]
    else
      var rest := FirstSorted(moves[1..], reverse);
      assert forall k | k in moves :: k == moves[0] || k in moves[1..];
      if reverse then (if KeyLess(rest, moves[0]) then moves[0] else rest)
      else (if KeyLess(moves[0], rest) then moves[0] else rest)
  }

  /** The list minimax builds: the pair [score, action] for each move, in the order visited. */
  function Tagged(scores: seq<int>, moves: seq<Action>): (r: seq<(int, Action)>)
    requires |scores| == |moves|
    ensures |r| == |moves|
  {
    seq(|moves|, k requires 0 <= k < |moves| => (scores[k], moves[k]))
  }

  lemma TaggedAppend(scores: seq<int>, moves: seq<Action>, x: int, a: Action)
    requires |scores| == |moves|
    ensures Tagged(scores + [x], moves + [a]) == Tagged(scores, moves) + [(x, a)]
  {
  }

  /**
    The first entry of the sorted list is one of the pairs. Sorting in
    descending order puts first a pair of the greatest score m, with the
    latest square among those of score m; ascending order puts first a pair
    of the least score m, with the earliest square among those of score m.
   */
  lemma FirstOfTagged(scores: seq<int>, moves: seq<Action>, reverse: bool, m: int)
    requires |scores| == |moves|
    requires forall k | 0 <= k < |scores| :: if reverse then scores[k] <= m else m <= scores[k]
    requires exists k | 0 <= k < |scores| :: scores[k] == m
    ensures moves != []
    ensures var best := FirstSorted(Tagged(scores, moves), reverse);
      exists i | 0 <= i < |moves| :: best == (m, moves[i])
    ensures var best := FirstSorted(Tagged(scores, moves), reverse);
      forall j | 0 <= j < |moves| && scores[j] == m ::
        if reverse then !SquareBefore(best.1, moves[j]) else !SquareBefore(moves[j], best.1)
  {
    var tagged := Tagged(scores, moves);
    var best := FirstSorted(tagged, reverse);
    var i :| 0 <= i < |tagged| && tagged[i] == best;
    var i0 :| 0 <= i0 < |scores| && scores[i0] == m;
    assert tagged[i0] in tagged;
    forall j | 0 <= j < |moves| && scores[j] == m
      ensures if reverse then !SquareBefore(best.1, moves[j]) else !SquareBefore(moves[j], best.1)
    {
      assert tagged[j] in tagged;
    }
  }

  /** The first pair of X's sorted list names a free square of score MaxScore(b). */
  lemma BestForXIsOptimal(b: Board, order: seq<Action>)
    requires AllMoves(b, order) && order != []
    requires exists i | 0 <= i < |order| :: FirstSorted(Tagged(MinReplies(b, order), order), true) == (MaxScore(b), order[i])
    ensures var best := FirstSorted(Tagged(MinReplies(b, order), order), true);
      IsMove(b, best.1) && MinScore(Result(b, best.1)) == MaxScore(b)
  {
    var replies := MinReplies(b, order);
    var best := FirstSorted(Tagged(replies, order), true);
    var i :| 0 <= i < |order| && best == (MaxScore(b), order[i]);
    assert IsMove(b, order[i]);
    assert replies[i] == MinScore(Result(b, order[i]));
  }

  /** No square of score MaxScore(b) comes after the first pair of X's sorted list. */
  lemma BestForXIsLatest(b: Board, order: seq<Action>)
    requires AllMoves(b, order) && order != []
    requires forall a | IsMove(b, a) :: a in order
    requires forall j | 0 <= j < |order| && MinReplies(b, order)[j] == MaxScore(b) ::
      !SquareBefore(FirstSorted(Tagged(MinReplies(b, order), order), true).1, order[j])
    ensures forall a | IsMove(b, a) && MinScore(Result(b, a)) == MaxScore(b) ::
      !SquareBefore(FirstSorted(Tagged(MinReplies(b, order), order), true).1, a)
  {
    var replies := MinReplies(b, order);
    forall a | IsMove(b, a) && MinScore(Result(b, a)) == MaxScore(b)
      ensures !SquareBefore(FirstSorted(Tagged(replies, order), true).1, a)
    {
      var j :| 0 <= j < |order| && order[j] == a;
      assert replies[j] == MaxScore(b);
    }
  }

  /** The first pair of O's sorted list names a free square of score MinScore(b). */
  lemma BestForOIsOptimal(b: Board, order: seq<Action>)
    requires AllMoves(b, order) && order != []
    requires exists i | 0 <= i < |order| :: FirstSorted(Tagged(MaxReplies(b, order), order), false) == (MinScore(b), order[i])
    ensures var best := FirstSorted(Tagged(MaxReplies(b, order), order), false);
      IsMove(b, best.1) && MaxScore(Result(b, best.1)) == MinScore(b)
  {
    var replies := MaxReplies(b, order);
    var best := FirstSorted(Tagged(replies, order), false);
    var i :| 0 <= i < |order| && best == (MinScore(b), order[i]);
    assert IsMove(b, order[i]);
    assert replies[i] == MaxScore(Result(b, order[i]));
  }

  /** No square of score MinScore(b) comes before the first pair of O's sorted list. */
  lemma BestForOIsEarliest(b: Board, order: seq<Action>)
    requires AllMoves(b, order) && order != []
    requires forall a | IsMove(b, a) :: a in order
    requires forall j | 0 <= j < |order| && MaxReplies(b, order)[j] == MinScore(b) ::
      !SquareBefore(order[j], FirstSorted(Tagged(MaxReplies(b, order), order), false).1)
    ensures forall a | IsMove(b, a) && MaxScore(Result(b, a)) == MinScore(b) ::
      !SquareBefore(a, FirstSorted(Tagged(MaxReplies(b, order), order), false).1)
  {
    var replies := MaxReplies(b, order);
    forall a | IsMove(b, a) && MaxScore(Result(b, a)) == MinScore(b)
      ensures !SquareBefore(a, FirstSorted(Tagged(replies, order), false).1)
    {
      var j :| 0 <= j < |order| && order[j] == a;
      assert replies[j] == MinScore(b);
    }
  }

  /**
    When X is to move, the first entry of the list sorted in descending order
    is a free square of best MinScore, and no other square of that score comes
    after it in row-major order.
   */
  lemma SortedFirstForX(b: Board, order: seq<Action>)
    requires !Terminal(b) && AllMoves(b, order)
    requires forall a | IsMove(b, a) :: a in order
    ensures order != []
    ensures var best := FirstSorted(Tagged(MinReplies(b, order), order), true);
      && IsMove(b, best.1)
      && MinScore(Result(b, best.1)) == MaxScore(b)
      && forall a | IsMove(b, a) && MinScore(Result(b, a)) == MaxScore(b) :: !SquareBefore(best.1, a)
  {
    MinRepliesPeak(b, order);
    FirstOfTagged(MinReplies(b, order), order, true, MaxScore(b));
    BestForXIsOptimal(b, order);
    BestForXIsLatest(b, order);
  }

  /**
    When O is to move, the first entry of the list sorted in ascending order
    is a free square of least MaxScore, and no other square of that score
    comes before it in row-major order.
   */
  lemma SortedFirstForO(b: Board, order: seq<Action>)
    requires !Terminal(b) && AllMoves(b, order)
    requires forall a | IsMove(b, a) :: a in order
    ensures order != []
    ensures var best := FirstSorted(Tagged(MaxReplies(b, order), order), false);
      && IsMove(b, best.1)
      && MaxScore(Result(b, best.1)) == MinScore(b)
      && forall a | IsMove(b, a) && MaxScore(Result(b, a)) == MinScore(b) :: !SquareBefore(a, best.1)
  {
    MaxRepliesPeak(b, order);
    FirstOfTagged(MaxReplies(b, order), order, false, MinScore(b));
    BestForOIsOptimal(b, order);
    BestForOIsEarliest(b, order);
  }

  /** One turn of minimax's loop for X: the list gains the pair [min_value of the successor, action]. */
  lemma ScoredStepForX(b: Board, seen: seq<Action>, a: Action)
    requires AllMoves(b, seen) && IsMove(b, a)
    ensures AllMoves(b, seen + [a])
    ensures Tagged(MinReplies(b, seen + [a]), seen + [a]) == Tagged(MinReplies(b, seen), seen) + [(MinScore(Result(b, a)), a)]
  {
    MinRepliesAppend(b, seen, a);
    TaggedAppend(MinReplies(b, seen), seen, MinScore(Result(b, a)), a);
  }

  /** One turn of minimax's loop for O: the list gains the pair [max_value of the successor, action]. */
  lemma ScoredStepForO(b: Board, seen: seq<Action>, a: Action)
    requires AllMoves(b, seen) && IsMove(b, a)
    ensures AllMoves(b, seen + [a])
    ensures Tagged(MaxReplies(b, seen + [a]), seen + [a]) == Tagged(MaxReplies(b, seen), seen) + [(MaxScore(Result(b, a)), a)]
  {
    MaxRepliesAppend(b, seen, a);
    TaggedAppend(MaxReplies(b, seen), seen, MaxScore(Result(b, a)), a);
  }

  /**
    The source's minimax: None on a finished game; otherwise a free square
    whose score is optimal for the player to move, the greatest such square
    for X and the least for O.
   */
  method Minimax(b: Board) returns (choice: Option<Action>)
    ensures choice.None? <==> Terminal(b)
    ensures choice.Some? ==> IsMove(b, choice.value)
    ensures choice.Some? && ToMove(b) == X ==>
      && MinScore(Result(b, choice.value)) == MaxScore(b)
      && forall a | IsMove(b, a) && MinScore(Result(b, a)) == MaxScore(b) :: !SquareBefore(choice.value, a)
    ensures choice.Some? && ToMove(b) == O ==>
      && MaxScore(Result(b, choice.value)) == MinScore(b)
      && forall a | IsMove(b, a) && MaxScore(Result(b, a)) == MinScore(b) :: !SquareBefore(a, choice.value)
  {
    if Terminal(b) {
      return None;
    }
    var p := Player(b);
    var todo := Actions(b);
    var moves: seq<(int, Action)> := [];
    ghost var seen: seq<Action> := [];
    while todo != {}
      invariant AllMoves(b, seen)
      invariant forall a :: IsMove(b, a) <==> a in todo || a in seen
      invariant p == X ==> moves == Tagged(MinReplies(b, seen), seen)
      invariant p != X ==> moves == Tagged(MaxReplies(b, seen), seen)
      decreases |todo|
    {
      var a :| a in todo;
      var score;
      assert IsMove(b, a);
      if p == X {
        score := MinValue(Result(b, a));
        ScoredStepForX(b, seen, a);
      } else {
        score := MaxValue(Result(b, a));
        ScoredStepForO(b, seen, a);
      }
      moves := moves + [(score, a)];
      todo, seen := todo - {a}, seen + [a];
    }
    if p == X {
      SortedFirstForX(b, seen);
    } else {
      SortedFirstForO(b, seen);
    }
    var best := FirstSorted(moves, p == X);
    choice := Some(best.1);
  }
}
