# Tic-tac-toe engine: board rules and alpha-beta minimax

This project models `tictactoe.py`, a tic-tac-toe decision engine, in Dafny and proves
properties of the model. Nothing here runs the program. It has three modules:

- `TicTacToe` (`tictactoe.dfy`) covers the board rules: the empty board, whose turn it is,
  the legal moves, the successor board, the winner scan, game over and the score. A
  board is an immutable `seq<seq<Cell>>` of three rows of three cells. `Result`
  builds a new value, which is what `copy.deepcopy` gives the source. An illegal
  move yields `InvalidAction` instead of raising. Next to the scan that `winner`
  performs are two independent descriptions: the eight lines (`LINES`, `HasLine`)
  and the sixteen (line, mark) tests in scan order (`SCAN_ORDER`, `FirstOwner`).
- `Pruning` (`pruning.dfy`) holds the board-independent arithmetic of the search:
  - `Best`, the max/min fold over a set of move values;
  - `FailSoft`, what an alpha-beta result promises for a window;
  - the loop invariants of `max_value`, `min_value` and `minimax`, with the lemmas
    that carry each invariant through one iteration and out of the loop.
- `Search` (`search.dfy`) holds `MinimaxValue`, the plain unpruned minimax
  recursion, and the three search loops as methods proved against it:
  `MaxValue`, `MinValue` and `Minimax`.

`math.inf` is replaced by the integers `NEG_INF = -2` and `POS_INF = 2`. Every score
lies in {-1, 0, 1}, so every comparison the source makes has the same outcome.

Python iterates over a set in an unspecified order. The loops pick the next move
with `:|`, which is an arbitrary choice, so each proof holds for every order. To
state which move wins a tie, `Minimax` returns the order it used as a ghost output
`order`, and the position `pick` of the chosen move in it.

The `if not available_actions` branches of `max_value` and `min_value`
(tictactoe.py:138-139, tictactoe.py:154-155) cannot be taken: they come right after
the `terminal` check, and a board that is not terminal has a legal move. The model
states this as an `assert` at that point, not as a branch.

## Root scoring as written

`minimax` does not swap roles at the root.
- When X is to move, it scores each move with `max_value` of the successor
  (tictactoe.py:118), although O moves next on it.
- When O is to move, it scores each move with `min_value` (tictactoe.py:125).

The docstring of `minimax` (tictactoe.py:104-106) promises "the optimal action",
which only the textbook version gives: X's moves scored with `min_value`, and O's
with `max_value`. The model follows the code. `RootValues` scores move `a` as
`ChildValues(b, Player(b) == X)[a]`, that is, with the same role as the side to
move. `Minimax` is proved optimal with respect to that score. Plain minimax would
instead use `ChildValues(b, Player(b) != X)`, the scores `MinimaxValue` itself
folds.

## Model

| member | source | states |
|---|---|---|
| TicTacToe.InitialState | tictactoe.py:13-19 | every one of the nine cells of the initial board is empty |
| TicTacToe.InitialStateFacts | tictactoe.py:13-27 | the initial board has no marks, X is to move, there are nine legal moves, nobody has won and the game is not over |
| TicTacToe.PlayerParity | tictactoe.py:22-27 | X is to move exactly when the number of non-empty cells is even, and O exactly when it is odd |
| TicTacToe.ActionsCount | tictactoe.py:29-34 | the number of legal moves plus the number of marks is nine |
| TicTacToe.EmptyPrefixSize | tictactoe.py:33 | the legal moves of a row prefix are as many as its empty cells |
| TicTacToe.CountPartition | tictactoe.py:26 | on any list, the counts of X, O and empty add up to its length |
| TicTacToe.Result | tictactoe.py:37-50 | the move is rejected exactly when it is off the board or the cell is taken; otherwise the cell receives the player to move, every other cell is unchanged, and the legal moves lose exactly that cell, so there is one fewer |
| TicTacToe.ResultAlternates | tictactoe.py:37-50 | a legal move succeeds, adds exactly one mark, passes the turn to the other player and is no longer legal afterwards |
| TicTacToe.BalancedPlayer | tictactoe.py:22-27 | on a board where X has as many marks as O or one more, X is to move exactly when the counts are equal |
| TicTacToe.ResultKeepsBalance | tictactoe.py:41-50 | a legal move adds one mark of the player to move, leaves the other player's count alone, and keeps the X/O balance of a legal game |
| TicTacToe.WinnerScanOrder | tictactoe.py:53-74 | the winner is the mark of the first successful test in the fixed order: each row X then O, each column X then O, X on either diagonal, then O on either diagonal |
| TicTacToe.FirstOwnerSpec | tictactoe.py:53-74 | a scan over a list of tests reports nothing exactly when every test fails, and otherwise the mark of a successful test that no earlier test precedes |
| TicTacToe.RowsScan | tictactoe.py:57-61 | the row loop, and whatever follows it, agrees with the tests from row k onwards |
| TicTacToe.ColumnsScan | tictactoe.py:63-67 | the column loop, and whatever follows it, agrees with the tests from column col onwards |
| TicTacToe.DiagonalsScan | tictactoe.py:69-74 | the diagonal checks agree with the last four tests: X on either diagonal before O on either |
| TicTacToe.WinnerLines | tictactoe.py:53-74 | a winner is X or O and owns a complete row, column or diagonal; there is no winner exactly when neither mark owns a line |
| TicTacToe.WinnerUnambiguous | tictactoe.py:53-74 | when at most one mark owns a line, the winner is X exactly when X owns a line, and O exactly when O does |
| TicTacToe.TerminalIff | tictactoe.py:76-87 | the game is over exactly when some mark owns a line or all nine cells are marked |
| TicTacToe.UtilityScore | tictactoe.py:90-100 | the score is -1, 0 or 1; 1 only if X owns a line, -1 only if O owns one, 0 exactly when neither does |
| Search.MinimaxValue | tictactoe.py:132-162 | the unpruned value of a board lies in {-1, 0, 1} |
| Search.ChildValues | tictactoe.py:141-145 | there is one successor value for each legal move, and each lies in {-1, 0, 1} |
| Search.MaxExtremal | tictactoe.py:141-145 | on a board that is not over, the maximizing value is at least the value of every move and equals the value of some move |
| Search.MinExtremal | tictactoe.py:157-161 | on a board that is not over, the minimizing value is at most the value of every move and equals the value of some move |
| Pruning.BestBounds | tictactoe.py:141-145 | the fold over a set of moves bounds the value of every move in the set: from above when maximizing, from below when minimizing |
| Pruning.BestAttained | tictactoe.py:141-145 | the fold over a set of moves equals the value of one of them |
| Pruning.BestInsert | tictactoe.py:141-145 | adding a move to the set folds its value in with max or min, so the value does not depend on the order in which the set is visited |
| Pruning.FullWindowExact | tictactoe.py:112-113 | a fail-soft result for the window (-inf, +inf) is the exact value |
| Pruning.MaxLoopStep | tictactoe.py:141-145 | one iteration of max_value's loop keeps its invariant; when it cuts off, the score is already a lower bound of the true maximum |
| Pruning.MaxLoopDone | tictactoe.py:141-146 | after a max_value loop with no cutoff, the score lies in {-1, 0, 1} and is fail-soft for the maximum over all moves |
| Pruning.MinLoopStep | tictactoe.py:157-161 | one iteration of min_value's loop keeps its invariant; when it cuts off, the score is already an upper bound of the true minimum |
| Pruning.MinLoopDone | tictactoe.py:157-162 | after a min_value loop with no cutoff, the score lies in {-1, 0, 1} and is fail-soft for the minimum over all moves |
| Pruning.RootLoopStep | tictactoe.py:116-128 | one iteration of minimax's loop keeps its invariant: the first move whose score no other beats, with the strict comparison |
| Pruning.RootLoopDone | tictactoe.py:116-130 | after the root loop the order lists every legal move once, a move is chosen, no move beats it, and every move before it in the order is strictly worse |
| Search.MinValueAfter | tictactoe.py:142 | min_value of the successor is in {-1, 0, 1} and fail-soft for that move's unpruned value |
| Search.MaxValueAfter | tictactoe.py:158 | max_value of the successor is in {-1, 0, 1} and fail-soft for that move's unpruned value |
| Search.MaxValue | tictactoe.py:132-146 | it terminates, because the legal moves shrink; it returns a value in {-1, 0, 1}, the utility on a finished board, and a fail-soft bound of the unpruned maximizing value for any proper window (exact inside it); for the window (-inf, +inf) it is exactly the unpruned value |
| Search.MinValue | tictactoe.py:148-162 | the mirror image of MaxValue for the minimizing side |
| Search.RootValues | tictactoe.py:115-128 | the root scores moves with max_value when X is to move and with min_value when O is, giving one score per legal move |
| Search.Minimax | tictactoe.py:103-130 | None exactly on a finished board; otherwise a legal move whose root score no other move beats (highest for X, lowest for O), and the first such move in the iteration order it reports as ghost output |

## Left out

- Input and output: the file has none. The board is a parameter, and nothing from
  outside is read.
- `copy.deepcopy`: boards are values, so the argument of `Result` cannot change.
  That `result` leaves its input board unchanged therefore holds by construction
  and is not a separate lemma.
- The exception `Exception("Invalid action")`: it becomes the value `InvalidAction`.
  Its type and message are not modelled.
- Malformed boards: the `Board` type admits only 3×3 grids, and `Cell` only X, O and
  empty. The source accepts any nested list; the model does not. Nor does it model
  a board whose rows are one shared list, such as `[[EMPTY] * 3] * 3`:
  `copy.deepcopy` keeps the sharing, so `result` on it marks column j in every
  row. No board reached from `initial_state` shares rows.
- Unreachable boards: the source never checks that a board arises from a legal game.
  Only `WinnerUnambiguous` and the balance lemmas assume such a property, and
  each states it as an explicit precondition.
- Floating-point infinities: `math.inf` is modelled as the integers ±2. No other
  floating-point value occurs.
- Set iteration order: it is an arbitrary choice in every loop, and no particular
  order of CPython's set is modelled.
- Search.Minimax: it is specified against `RootValues`, the scores the code
  computes, and not against the value of the game. The difference is in "Root
  scoring as written" above.
- Search.Minimax: the tie-break clause is stated against the ghost `order` that
  the method itself returns. A caller learns from it only that some move with the
  best root score is chosen; the first-occurrence rule of the strict `>` and `<`
  (tictactoe.py:119, tictactoe.py:126) is proved about that order, not about an
  order the caller fixes.
- The value of particular positions: no lemma computes `MinimaxValue` of a given
  board, for example that the empty board is a draw. Evaluating the game tree
  symbolically is beyond what the verifier does cheaply.
- `MinValueAfter` and `MaxValueAfter`: these are the calls
  `min_value(result(board, action), alpha, beta)` and
  `max_value(result(board, action), alpha, beta)`, written as methods of their own.
  The search loops stay small enough to verify this way. They add no behaviour.
