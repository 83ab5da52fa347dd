# Tic-tac-toe engine, modelled in Dafny

This project models the game engine of the tic-tac-toe player in
`projects/tictactoe/tictactoe.py` and proves what it computes:

- the board and its turn rules (`initial_state`, `player`, `actions`, `result`),
  in module `Grid` (`grid.dfy`);
- the end of the game (`winner`, `utility`, `terminal`), in module `GameEnd`
  (`game_end.dfy`);
- the search (`max_value`, `min_value`, `minimax`), in module `Search`
  (`search.dfy`).

A board is a 3x3 `seq<seq<Cell>>` with `datatype Cell = Empty | X | O`
(`Empty` is Python's `None`). An action is a pair of integers `(i, j)`.

The functions whose Python bodies are loops are methods with loops:
`Player`, `Actions`, `MaxValue`, `MinValue` and `Minimax`. Each one is proved
against a specification function. `Player` agrees with `ToMove`, which
compares the X and O counts. `Actions` returns exactly the free squares.
`MaxValue` and `MinValue` return `MaxScore` and `MinScore`, the game-tree
values defined by recursion. `Minimax` returns a move that is optimal under
those values and breaks ties as Python's `sorted` does. The properties of the
specification functions are lemmas: the values are the best over all
successors, and the result does not depend on the order in which the set of
actions is visited.

Facts about the code that the model keeps:

- `max_value` and `min_value` visit every action. There is no pruning and no
  early exit on +1 or -1.
- `minimax` breaks ties by sorting the `[score, action]` pairs. X gets the
  greatest square among the best scores, and O gets the least.
- `result` returns an unchanged copy of the board for an occupied square, and
  `Result` does the same.
- The guard in `result` rejects only a negative row or a column above 9 (see
  Findings).

## Model

| member | source | states |
|---|---|---|
| Grid.InitialState | projects/tictactoe/tictactoe.py:12-18 | every square of the starting board is empty |
| Grid.InitialStateCounts | projects/tictactoe/tictactoe.py:12-38 | the starting board has no X and no O and nine empty squares, so X moves first |
| Grid.Player | projects/tictactoe/tictactoe.py:21-38 | the counting loop returns ToMove(b): O exactly when the board holds more X than O, and X when the X count is at most the O count |
| Grid.MoveAlternates | projects/tictactoe/tictactoe.py:53-68 | on a board with balanced counts, a legal move adds one mark of the player to move, keeps the counts balanced and passes the turn to the other player |
| Grid.Actions | projects/tictactoe/tictactoe.py:40-51 | the returned set holds exactly the on-board squares that are empty; it is empty exactly when the board is full |
| Grid.MoveList | projects/tictactoe/tictactoe.py:40-51 | the free squares as a row-major list: an action is in it exactly when it is a legal move, and it is empty exactly when the board is full |
| Grid.Result | projects/tictactoe/tictactoe.py:53-68 | all squares other than the action's are unchanged; a free square receives the mark of the player to move and the board has one empty square fewer; an occupied square gives back the board unchanged |
| Grid.GuardRejects | projects/tictactoe/tictactoe.py:58-59 | the guard as written (a negative row or a column above 9); it never refuses a square of the board |
| Grid.GuardLetsNegativeColumnThrough | projects/tictactoe/tictactoe.py:58-59 | the guard passes (0, -1), which is off the board; the checked result refuses that action |
| Grid.ResultChecked | projects/tictactoe/tictactoe.py:53-68 | succeeds exactly for on-board actions, with the board Result gives; raises IndexError for every action the source's guard rejects |
| GameEnd.Winner | projects/tictactoe/tictactoe.py:70-87 | the scan of rows, columns and diagonals reports a mark only when that mark fills a whole row, column or diagonal |
| GameEnd.WinnerComplete | projects/tictactoe/tictactoe.py:70-87 | the scan returns None exactly when neither X nor O fills a row, column or diagonal |
| GameEnd.WinnerUnique | projects/tictactoe/tictactoe.py:70-87 | when exactly one mark fills a line, the scan returns that mark |
| GameEnd.Utility | projects/tictactoe/tictactoe.py:97-110 | the utility is -1, 0 or 1 |
| GameEnd.UtilityMeaning | projects/tictactoe/tictactoe.py:97-110 | the utility is 1 exactly when the winner is X, -1 exactly when it is O, and 0 exactly when no mark fills a line |
| GameEnd.Terminal | projects/tictactoe/tictactoe.py:89-95 | a board is terminal exactly when X or O fills a line or no square is free |
| GameEnd.InPlayHasFreeSquare | projects/tictactoe/tictactoe.py:89-95 | a board that is not terminal has at least one empty square, so the search below it always has a move and the empty count can fall |
| Search.MaxScore | projects/tictactoe/tictactoe.py:131-140 | the maximiser's value lies in -1..1, so the -inf start is always overwritten; on a terminal board it is the utility |
| Search.MinScore | projects/tictactoe/tictactoe.py:142-151 | the minimiser's value lies in -1..1, so the +inf start is always overwritten; on a terminal board it is the utility |
| Search.MinReplies | projects/tictactoe/tictactoe.py:138-139 | one reply value per visited action, each in -1..1 |
| Search.MaxReplies | projects/tictactoe/tictactoe.py:149-150 | one reply value per visited action, each in -1..1 |
| Search.MaxOfIsMaximum | projects/tictactoe/tictactoe.py:137-139 | the running maximum from -inf is at least every score and equals one of them, unless it is still -inf |
| Search.MinOfIsMinimum | projects/tictactoe/tictactoe.py:148-150 | the running minimum from +inf is at most every score and equals one of them, unless it is still +inf |
| Search.MaxScoreIsBest | projects/tictactoe/tictactoe.py:131-140 | on a board still in play, the maximiser's value is at least the minimiser's value after every legal move, and some legal move reaches it |
| Search.MinScoreIsBest | projects/tictactoe/tictactoe.py:142-151 | on a board still in play, the minimiser's value is at most the maximiser's value after every legal move, and some legal move reaches it |
| Search.MinRepliesPeak | projects/tictactoe/tictactoe.py:138-139 | visiting all free squares in any order, no reply exceeds MaxScore and one reply equals it |
| Search.MaxRepliesPeak | projects/tictactoe/tictactoe.py:149-150 | visiting all free squares in any order, no reply is below MinScore and one reply equals it |
| Search.MaxValueOrderFree | projects/tictactoe/tictactoe.py:137-140 | the running maximum over the replies ends at MaxScore whatever order the set of actions is visited in |
| Search.MinValueOrderFree | projects/tictactoe/tictactoe.py:148-151 | the running minimum over the replies ends at MinScore whatever order the set of actions is visited in |
| Search.MaxValueStep | projects/tictactoe/tictactoe.py:138-139 | one turn of the loop: the running maximum takes in the reply of one more action |
| Search.MinValueStep | projects/tictactoe/tictactoe.py:149-150 | one turn of the loop: the running minimum takes in the reply of one more action |
| Search.MaxValue | projects/tictactoe/tictactoe.py:131-140 | the loop returns MaxScore(b): the utility on a terminal board, otherwise the largest min_value of a successor |
| Search.MinValue | projects/tictactoe/tictactoe.py:142-151 | the loop returns MinScore(b): the utility on a terminal board, otherwise the smallest max_value of a successor |
| Search.WinningMoveForX | projects/tictactoe/tictactoe.py:131-140 | if X has a move that completes a line (and O has none), the maximiser's value is 1 |
| Search.WinningMoveForO | projects/tictactoe/tictactoe.py:142-151 | if O has a move that completes a line (and X has none), the minimiser's value is -1 |
| Search.FirstSorted | projects/tictactoe/tictactoe.py:129 | the first entry of the sorted list is one of its entries and is the least in Python's list order, or the greatest when reverse is set |
| Search.FirstOfTagged | projects/tictactoe/tictactoe.py:127-129 | over [score, action] pairs, the first entry after sorting holds the best score m; descending order puts first the latest square of score m, ascending order the earliest |
| Search.TaggedAppend | projects/tictactoe/tictactoe.py:127 | appending [score, action] extends the list of pairs by that pair |
| Search.ScoredStepForX | projects/tictactoe/tictactoe.py:124-127 | one turn of the loop for X: the list gains [min_value of the successor, action] |
| Search.ScoredStepForO | projects/tictactoe/tictactoe.py:124-127 | one turn of the loop for O: the list gains [max_value of the successor, action] |
| Search.BestForXIsOptimal | projects/tictactoe/tictactoe.py:124-129 | the first pair of X's sorted list names a legal move whose successor's min_value is MaxScore(b) |
| Search.BestForXIsLatest | projects/tictactoe/tictactoe.py:124-129 | no legal move of that optimal value comes after X's choice in row-major order |
| Search.BestForOIsOptimal | projects/tictactoe/tictactoe.py:124-129 | the first pair of O's sorted list names a legal move whose successor's max_value is MinScore(b) |
| Search.BestForOIsEarliest | projects/tictactoe/tictactoe.py:124-129 | no legal move of that optimal value comes before O's choice in row-major order |
| Search.SortedFirstForX | projects/tictactoe/tictactoe.py:124-129 | for X, the move sorting picks is legal and optimal, and it is the greatest square among the optimal moves |
| Search.SortedFirstForO | projects/tictactoe/tictactoe.py:124-129 | for O, the move sorting picks is legal and optimal, and it is the least square among the optimal moves |
| Search.Minimax | projects/tictactoe/tictactoe.py:113-129 | None exactly on a terminal board; otherwise a legal move whose score is optimal for the player to move, the greatest such square for X and the least for O |

## Left out

- Alpha-beta pruning and an early exit on a +1 or -1 value are not modelled, because the code has neither.
- Result: Python's deep copy and in-place assignment are modelled as building a new sequence value. Boards are values in Dafny, so there is no aliasing to track.
- Result: it requires an on-board action. What Python does with an action that passes the guard but is off the board is not modelled. That covers a column from -3 to -1, which Python reads from the end of the row. Every other off-board action raises IndexError, either at the guard or at the list access. The guard itself is `GuardRejects`, and `ResultChecked` is the corrected operation.
- Search.MaxScore, Search.MinScore: `math.inf` and `-math.inf` are the integers 2 and -2. These are outside the range of every utility, which is all the loop relies on.
- Search.Minimax: it models only the first entry of `sorted(...)`, not the whole sorted list. The pairs are all distinct because the actions are, so that entry is the extreme one in Python's list order.
- The methods visit the set of actions in an arbitrary order (`:|`), since Python's set order is not specified. The lemmas show that the results do not depend on that order.
- GameEnd.Terminal: it tests `len(actions(board)) == 0` as "the board is full". A function cannot call the `Actions` method, and the postcondition of `Actions` states that the two agree.
- The cell values are a datatype rather than the strings "X" and "O" and `None`. The source compares them only for equality.
- The other projects of the repository are not part of this model. projects/heredity/heredity.py does floating-point probability and file I/O. projects/pagerank/pagerank.py does filesystem crawling, random sampling and floating-point iteration. projects/traffic/traffic.py wraps image and machine-learning libraries.
- The graphical runner that drives the engine is not part of this model.

## Findings

| source | as written | input that shows it | evidently intended | confidence | as-written member | corrected member |
|---|---|---|---|---|---|---|
| projects/tictactoe/tictactoe.py:58-59 | the guard raises IndexError only when the row is negative or the column is above 9 | action (0, -1) on the empty board passes the guard although it is off the board; Python then reads column -1 as column 2 and places X at (0, 2) | raise IndexError for every action outside the 3x3 board | medium, not executed | Grid.GuardLetsNegativeColumnThrough | Grid.ResultChecked |
