/** The board utilities of the tic-tac-toe engine: whose turn it is, which
    moves are legal, the successor board, the winner, termination and the score
    of a finished game. A board is an immutable value: Result builds a new one
    and never touches its argument. */
module TicTacToe {

  /** A cell holds one of the two marks or nothing. */
  datatype Cell = X | O | Empty

  datatype Option<T> = None | Some(value: T)

  /** A board: three rows of three cells each. */
  type Board = b: seq<seq<Cell>> | |b| == 3 && forall i :: 0 <= i < 3 ==> |b[i]| == 3
    witness [[Empty, Empty, Empty], [Empty, Empty, Empty], [Empty, Empty, Empty]]

  /** A move: a (row, column) pair. Any pair of integers can be asked for;
      Result rejects those that are not legal. */
  type Action = (int, int)

  /** Outcome of Result: the successor board, or the "Invalid action"
      exception that result raises (tictactoe.py:45-46). */
  datatype MoveResult = Moved(board: Board) | InvalidAction

  predicate InBounds(a: Action) {
    0 <= a.0 < 3 && 0 <= a.1 < 3
  }

  function InitialState(): (b: Board)
    ensures forall i, j :: 0 <= i < 3 && 0 <= j < 3 ==> b[i][j] == Empty
  {
    [[Empty, Empty, Empty],
     [Empty, Empty, Empty],
     [Empty, Empty, Empty]]
  }

  /** The number of occurrences of c in s (Python's list.count). */
  function Count(s: seq<Cell>, c: Cell): (n: nat)
    ensures n <= |s|
  {
    if s == [] then 0 else Count(s[..|s| - 1], c) + (if s[|s| - 1] == c then 1 else 0)
  }

  /** Number of marks on a row: row.count(X) + row.count(O). */
  function RowMarks(row: seq<Cell>): nat {
    Count(row, X) + Count(row, O)
  }

  /** Number of non-empty cells: the sum of RowMarks over the rows. */
  function Marks(b: Board): nat {
    RowMarks(b[0]) + RowMarks(b[1]) + RowMarks(b[2])
  }

  /** Number of cells holding m. */
  function MarkCount(b: Board, m: Cell): nat {
    Count(b[0], m) + Count(b[1], m) + Count(b[2], m)
  }

  /** The player to move: X after an even number of marks, O otherwise. */
  function Player(b: Board): Cell {
    if Marks(b) % 2 == 0 then X else O
  }

  function Opponent(p: Cell): Cell {
    if p == X then O else X
  }

  /** The set of empty coordinates. */
  function Actions(b: Board): set<Action> {
    set i, j | 0 <= i < 3 && 0 <= j < 3 && b[i][j] == Empty :: (i, j)
  }

  /** The board after the player to move marks cell a; InvalidAction when a
      is not a legal move. */
  function Result(b: Board, a: Action): (r: MoveResult)
    ensures r.InvalidAction? <==> !InBounds(a) || b[a.0][a.1] != Empty
    ensures r.Moved? ==> r.board[a.0][a.1] == Player(b)
    ensures r.Moved? ==> forall i, j :: 0 <= i < 3 && 0 <= j < 3 && (i, j) != a ==> r.board[i][j] == b[i][j]
    ensures r.Moved? ==> Actions(r.board) == Actions(b) - {a} && |Actions(r.board)| == |Actions(b)| - 1
  {
    var currentPlayer := Player(b);
    var validActions := Actions(b);
    if a !in validActions then InvalidAction
    else
      var next := b[a.0 := b[a.0][a.1 := currentPlayer]];
      assert Actions(next) == validActions - {a} by {
        forall c | c in Actions(next) ensures c in validActions - {a} { }
        forall c | c in validActions - {a} ensures c in Actions(next) {
          assert next[c.0][c.1] == b[c.0][c.1];
        }
      }
      Moved(next)
  }

  // ----- Lines -------------------------------------------------------------

  /** Does every cell of the column hold m? */
  predicate ColumnAll(b: Board, col: nat, m: Cell)
    requires col < 3
  {
    forall row :: 0 <= row < 3 ==> b[row][col] == m
  }

  predicate DiagonalAll(b: Board, m: Cell) {
    forall i :: 0 <= i < 3 ==> b[i][i] == m
  }

  predicate AntiDiagonalAll(b: Board, m: Cell) {
    forall i :: 0 <= i < 3 ==> b[i][2 - i] == m
  }

  /** The winner: rows first (X before O on each row), then columns (X before
      O on each column), then X on either diagonal, then O on either diagonal. */
  function Winner(b: Board): Option<Cell> {
    RowWinner(b, 0)
  }

  function RowWinner(b: Board, k: nat): Option<Cell>
    requires k <= 3
    decreases 3 - k
  {
    if k == 3 then ColumnWinner(b, 0)
    else if Count(b[k], X) == 3 then Some(X)
    else if Count(b[k], O) == 3 then Some(O)
    else RowWinner(b, k + 1)
  }

  function ColumnWinner(b: Board, col: nat): Option<Cell>
    requires col <= 3
    decreases 3 - col
  {
    if col == 3 then DiagonalWinner(b)
    else if ColumnAll(b, col, X) then Some(X)
    else if ColumnAll(b, col, O) then Some(O)
    else ColumnWinner(b, col + 1)
  }

  function DiagonalWinner(b: Board): Option<Cell> {
    if DiagonalAll(b, X) || AntiDiagonalAll(b, X) then Some(X)
    else if DiagonalAll(b, O) || AntiDiagonalAll(b, O) then Some(O)
    else None
  }

  /** The game is over: somebody has won, or no cell is left. */
  predicate Terminal(b: Board) {
    Winner(b).Some? || Actions(b) == {}
  }

  /** 1 when X has won, -1 when O has won, 0 otherwise. */
  function Utility(b: Board): int {
    var gameWinner := Winner(b);
    if gameWinner == Some(X) then 1
    else if gameWinner == Some(O) then -1
    else 0
  }

  // ----- An independent description of the eight lines -------------------

  const LINES: seq<seq<Action>> := [
    [(0, 0), (0, 1), (0, 2)], [(1, 0), (1, 1), (1, 2)], [(2, 0), (2, 1), (2, 2)],
    [(0, 0), (1, 0), (2, 0)], [(0, 1), (1, 1), (2, 1)], [(0, 2), (1, 2), (2, 2)],
    [(0, 0), (1, 1), (2, 2)], [(0, 2), (1, 1), (2, 0)]
  ]

  /** Every cell of line holds m. */
  predicate Uniform(b: Board, line: seq<Action>, m: Cell) {
    forall a :: a in line ==> InBounds(a) && b[a.0][a.1] == m
  }

  /** Some row, column or diagonal consists of three m. */
  predicate HasLine(b: Board, m: Cell) {
    exists k :: 0 <= k < |LINES| && Uniform(b, LINES[k], m)
  }

  /** The (line, mark) tests in the order the winner scan makes them. */
  const SCAN_ORDER: seq<(seq<Action>, Cell)> := [
    (LINES[0], X), (LINES[0], O), (LINES[1], X), (LINES[1], O), (LINES[2], X), (LINES[2], O),
    (LINES[3], X), (LINES[3], O), (LINES[4], X), (LINES[4], O), (LINES[5], X), (LINES[5], O),
    (LINES[6], X), (LINES[7], X), (LINES[6], O), (LINES[7], O)
  ]

  /** The mark of the first test in checks that succeeds. */
  function FirstOwner(b: Board, checks: seq<(seq<Action>, Cell)>): Option<Cell> {
    if checks == [] then None
    else if Uniform(b, checks[0].0, checks[0].1) then Some(checks[0].1)
    else FirstOwner(b, checks[1..])
  }

  // ----- Counting ----------------------------------------------------------

  lemma {:induction false} Count3(s: seq<Cell>, c: Cell)
    requires |s| == 3
    ensures Count(s, c) == (if s[0] == c then 1 else 0) + (if s[1] == c then 1 else 0) + (if s[2] == c then 1 else 0)
  {
    var s2, s1 := s[..2], s[..1];
    assert s2[..1] == s1 && s1[..0] == [];
    assert Count(s1, c) == (if s[0] == c then 1 else 0);
    assert Count(s2, c) == Count(s1, c) + (if s[1] == c then 1 else 0);
  }

  /** Every cell is X, O or empty. */
  lemma {:induction false} CountPartition(s: seq<Cell>)
    ensures Count(s, X) + Count(s, O) + Count(s, Empty) == |s|
  {
    if s != [] {
      CountPartition(s[..|s| - 1]);
    }
  }

  /** The legal moves on row i among its first n columns. */
  function EmptyPrefix(b: Board, i: int, n: int): set<Action>
    requires 0 <= i < 3 && 0 <= n <= 3
  {
    set j | 0 <= j < n && b[i][j] == Empty :: (i, j)
  }

  lemma {:induction false} EmptyPrefixSize(b: Board, i: int, n: int)
    requires 0 <= i < 3 && 0 <= n <= 3
    ensures |EmptyPrefix(b, i, n)| == Count(b[i][..n], Empty)
  {
    if n > 0 {
      EmptyPrefixSize(b, i, n - 1);
      assert b[i][..n][..n - 1] == b[i][..n - 1];
      if b[i][n - 1] == Empty {
        assert EmptyPrefix(b, i, n) == EmptyPrefix(b, i, n - 1) + {(i, n - 1)};
      } else {
        assert EmptyPrefix(b, i, n) == EmptyPrefix(b, i, n - 1);
      }
    }
  }

  /** The number of legal moves plus the number of marks is nine. */
  lemma ActionsCount(b: Board)
    ensures |Actions(b)| + Marks(b) == 9
  {
    var r0, r1, r2 := EmptyPrefix(b, 0, 3), EmptyPrefix(b, 1, 3), EmptyPrefix(b, 2, 3);
    assert Actions(b) == r0 + r1 + r2;
    assert r0 * r1 == {} && (r0 + r1) * r2 == {};
    EmptyPrefixSize(b, 0, 3);
    EmptyPrefixSize(b, 1, 3);
    EmptyPrefixSize(b, 2, 3);
    assert b[0][..3] == b[0] && b[1][..3] == b[1] && b[2][..3] == b[2];
    CountPartition(b[0]);
    CountPartition(b[1]);
    CountPartition(b[2]);
  }

  /** X is to move exactly when an even number of cells is non-empty. */
  lemma PlayerParity(b: Board)
    ensures Player(b) == X <==> (9 - |Actions(b)|) % 2 == 0
    ensures Player(b) == O <==> (9 - |Actions(b)|) % 2 == 1
  {
    ActionsCount(b);
  }

  /** The empty board: X to move, nine legal moves, game not over. */
  lemma InitialStateFacts()
    ensures Marks(InitialState()) == 0 && Player(InitialState()) == X
    ensures |Actions(InitialState())| == 9
    ensures Winner(InitialState()) == None && !Terminal(InitialState())
  {
    var b := InitialState();
    Count3(b[0], X); Count3(b[1], X); Count3(b[2], X);
    Count3(b[0], O); Count3(b[1], O); Count3(b[2], O);
    ActionsCount(b);
  }

  /** A legal move adds one mark and hands the turn to the other player. */
  lemma ResultAlternates(b: Board, a: Action)
    requires a in Actions(b)
    ensures Result(b, a).Moved?
    ensures Marks(Result(b, a).board) == Marks(b) + 1
    ensures Player(Result(b, a).board) == Opponent(Player(b))
    ensures a !in Actions(Result(b, a).board)
  {
    ActionsCount(b);
    ActionsCount(Result(b, a).board);
  }

  /** X has as many marks as O, or one more: the alternation invariant. */
  predicate Balanced(b: Board) {
    MarkCount(b, X) == MarkCount(b, O) || MarkCount(b, X) == MarkCount(b, O) + 1
  }

  /** On a balanced board the parity rule names X exactly when the counts are equal. */
  lemma BalancedPlayer(b: Board)
    requires Balanced(b)
    ensures Player(b) == X <==> MarkCount(b, X) == MarkCount(b, O)
  {
  }

  /** A legal move keeps the board balanced: the mover's count grows by one. */
  lemma ResultKeepsBalance(b: Board, a: Action)
    requires a in Actions(b)
    ensures Result(b, a).Moved?
    ensures MarkCount(Result(b, a).board, Player(b)) == MarkCount(b, Player(b)) + 1
    ensures MarkCount(Result(b, a).board, Opponent(Player(b))) == MarkCount(b, Opponent(Player(b)))
    ensures Balanced(b) ==> Balanced(Result(b, a).board)
  {
    var p := Player(b);
    var (i, j) := a;
    var row := b[i][j := p];
    assert Result(b, a).board == b[i := row];
    Count3(row, p); Count3(b[i], p);
    Count3(row, Opponent(p)); Count3(b[i], Opponent(p));
    MarkCountUpdate(b, i, row, p);
    MarkCountUpdate(b, i, row, Opponent(p));
    if Balanced(b) {
      BalancedPlayer(b);
    }
  }

  lemma MarkCountUpdate(b: Board, i: int, row: seq<Cell>, m: Cell)
    requires 0 <= i < 3 && |row| == 3
    ensures MarkCount(b[i := row], m) == MarkCount(b, m) - Count(b[i], m) + Count(row, m)
  {
  }

  // ----- The winner scan against the eight lines --------------------------

  lemma UniformThree(b: Board, line: seq<Action>, m: Cell)
    requires |line| == 3
    ensures Uniform(b, line, m) <==>
      (InBounds(line[0]) && b[line[0].0][line[0].1] == m) &&
      (InBounds(line[1]) && b[line[1].0][line[1].1] == m) &&
      (InBounds(line[2]) && b[line[2].0][line[2].1] == m)
  {
    if Uniform(b, line, m) {
      assert line[0] in line && line[1] in line && line[2] in line;
    }
  }

  lemma RowLine(b: Board, k: int, m: Cell)
    requires 0 <= k < 3
    ensures Uniform(b, LINES[k], m) <==> Count(b[k], m) == 3
  {
    Count3(b[k], m);
    assert LINES[k] == [(k, 0), (k, 1), (k, 2)];
    UniformThree(b, LINES[k], m);
  }

  lemma ColumnLine(b: Board, col: int, m: Cell)
    requires 0 <= col < 3
    ensures Uniform(b, LINES[3 + col], m) <==> ColumnAll(b, col, m)
  {
    assert LINES[3 + col] == [(0, col), (1, col), (2, col)];
    UniformThree(b, LINES[3 + col], m);
  }

  lemma DiagonalLines(b: Board, m: Cell)
    ensures Uniform(b, LINES[6], m) <==> DiagonalAll(b, m)
    ensures Uniform(b, LINES[7], m) <==> AntiDiagonalAll(b, m)
  {
    UniformThree(b, LINES[6], m);
    UniformThree(b, LINES[7], m);
  }

  lemma FirstOwnerAt(b: Board, checks: seq<(seq<Action>, Cell)>, k: int)
    requires 0 <= k < |checks|
    ensures FirstOwner(b, checks[k..]) ==
      if Uniform(b, checks[k].0, checks[k].1) then Some(checks[k].1) else FirstOwner(b, checks[k + 1..])
  {
    assert checks[k..][1..] == checks[k + 1..];
  }

  lemma DiagonalsScan(b: Board)
    ensures DiagonalWinner(b) == FirstOwner(b, SCAN_ORDER[12..])
  {
    DiagonalLines(b, X);
    DiagonalLines(b, O);
    FirstOwnerAt(b, SCAN_ORDER, 12);
    FirstOwnerAt(b, SCAN_ORDER, 13);
    FirstOwnerAt(b, SCAN_ORDER, 14);
    FirstOwnerAt(b, SCAN_ORDER, 15);
    assert SCAN_ORDER[16..] == [];
  }

  lemma {:induction false} ColumnsScan(b: Board, col: nat)
    requires col <= 3
    ensures ColumnWinner(b, col) == FirstOwner(b, SCAN_ORDER[6 + 2 * col..])
    decreases 3 - col
  {
    if col == 3 {
      DiagonalsScan(b);
    } else {
      ColumnsScan(b, col + 1);
      ColumnLine(b, col, X);
      ColumnLine(b, col, O);
      ScanIndexCorrect(3 + col, X);
      ScanIndexCorrect(3 + col, O);
      FirstOwnerAt(b, SCAN_ORDER, 6 + 2 * col);
      FirstOwnerAt(b, SCAN_ORDER, 7 + 2 * col);
    }
  }

  lemma {:induction false} RowsScan(b: Board, k: nat)
    requires k <= 3
    ensures RowWinner(b, k) == FirstOwner(b, SCAN_ORDER[2 * k..])
    decreases 3 - k
  {
    if k == 3 {
      ColumnsScan(b, 0);
    } else {
      RowsScan(b, k + 1);
      RowLine(b, k, X);
      RowLine(b, k, O);
      ScanIndexCorrect(k, X);
      ScanIndexCorrect(k, O);
      FirstOwnerAt(b, SCAN_ORDER, 2 * k);
      FirstOwnerAt(b, SCAN_ORDER, 2 * k + 1);
    }
  }

  /** The winner is the mark of the first successful test in SCAN_ORDER:
      each row X then O, each column X then O, both diagonals for X, then both
      diagonals for O. */
  lemma WinnerScanOrder(b: Board)
    ensures Winner(b) == FirstOwner(b, SCAN_ORDER)
  {
    RowsScan(b, 0);
  }

  /** FirstOwner finds the first successful test, and only fails if every test fails. */
  lemma {:induction false} FirstOwnerSpec(b: Board, checks: seq<(seq<Action>, Cell)>)
    ensures FirstOwner(b, checks).None? <==> forall k :: 0 <= k < |checks| ==> !Uniform(b, checks[k].0, checks[k].1)
    ensures FirstOwner(b, checks).Some? ==>
      exists k :: 0 <= k < |checks| && Uniform(b, checks[k].0, checks[k].1) &&
        checks[k].1 == FirstOwner(b, checks).value &&
        forall i :: 0 <= i < k ==> !Uniform(b, checks[i].0, checks[i].1)
  {
    if checks != [] {
      var rest := checks[1..];
      FirstOwnerSpec(b, rest);
      if Uniform(b, checks[0].0, checks[0].1) {
        assert FirstOwner(b, checks).value == checks[0].1;
      } else {
        assert forall k :: 1 <= k < |checks| ==> checks[k] == rest[k - 1];
        if FirstOwner(b, rest).Some? {
          var k :| 0 <= k < |rest| && Uniform(b, rest[k].0, rest[k].1) &&
            rest[k].1 == FirstOwner(b, rest).value &&
            forall i :: 0 <= i < k ==> !Uniform(b, rest[i].0, rest[i].1);
          assert checks[k + 1] == rest[k];
        }
      }
    }
  }

  /** Position in SCAN_ORDER of the test of line j for mark m. */
  function ScanIndex(j: int, m: Cell): int {
    if j < 6 then 2 * j + (if m == X then 0 else 1)
    else 12 + (j - 6) + (if m == X then 0 else 2)
  }

  /** Index in LINES of the line that test k of SCAN_ORDER looks at. */
  function ScanLine(k: int): int {
    if k < 12 then k / 2 else if k % 2 == 0 then 6 else 7
  }

  lemma ScanLineCorrect(k: int)
    requires 0 <= k < |SCAN_ORDER|
    ensures 0 <= ScanLine(k) < |LINES| && SCAN_ORDER[k].0 == LINES[ScanLine(k)]
    ensures SCAN_ORDER[k].1 == X || SCAN_ORDER[k].1 == O
  {
  }

  lemma ScanIndexCorrect(j: int, m: Cell)
    requires 0 <= j < |LINES| && (m == X || m == O)
    ensures 0 <= ScanIndex(j, m) < |SCAN_ORDER| && SCAN_ORDER[ScanIndex(j, m)] == (LINES[j], m)
  {
  }

  lemma FirstOwnerNoneAt(b: Board, checks: seq<(seq<Action>, Cell)>, k: int)
    requires FirstOwner(b, checks).None? && 0 <= k < |checks|
    ensures !Uniform(b, checks[k].0, checks[k].1)
  {
    FirstOwnerSpec(b, checks);
  }

  lemma ScanOwnerSome(b: Board)
    requires FirstOwner(b, SCAN_ORDER).Some?
    ensures var m := FirstOwner(b, SCAN_ORDER).value; (m == X || m == O) && HasLine(b, m)
  {
    FirstOwnerSpec(b, SCAN_ORDER);
    var m := FirstOwner(b, SCAN_ORDER).value;
    var k :| 0 <= k < |SCAN_ORDER| && Uniform(b, SCAN_ORDER[k].0, SCAN_ORDER[k].1) && SCAN_ORDER[k].1 == m;
    ScanLineCorrect(k);
    assert Uniform(b, LINES[ScanLine(k)], m);
  }

  lemma ScanOwnerNone(b: Board)
    ensures FirstOwner(b, SCAN_ORDER).None? <==> !HasLine(b, X) && !HasLine(b, O)
  {
    if FirstOwner(b, SCAN_ORDER).Some? {
      ScanOwnerSome(b);
    } else {
      forall m, j | (m == X || m == O) && 0 <= j < |LINES| ensures !Uniform(b, LINES[j], m) {
        ScanIndexCorrect(j, m);
        FirstOwnerNoneAt(b, SCAN_ORDER, ScanIndex(j, m));
      }
    }
  }

  /** The winner owns a complete line, and there is no winner exactly when
      neither mark owns one. */
  lemma WinnerLines(b: Board)
    ensures Winner(b).Some? ==> (Winner(b).value == X || Winner(b).value == O) && HasLine(b, Winner(b).value)
    ensures Winner(b).None? <==> !HasLine(b, X) && !HasLine(b, O)
  {
    WinnerScanOrder(b);
    ScanOwnerNone(b);
    if Winner(b).Some? {
      ScanOwnerSome(b);
    }
  }

  /** When at most one mark owns a line (every board of a legal game), the
      scan order does not matter: the winner is the mark that owns a line. */
  lemma WinnerUnambiguous(b: Board)
    requires !(HasLine(b, X) && HasLine(b, O))
    ensures Winner(b) == Some(X) <==> HasLine(b, X)
    ensures Winner(b) == Some(O) <==> HasLine(b, O)
  {
    WinnerLines(b);
  }

  /** The game is over exactly when a mark owns a line or all nine cells are marked. */
  lemma TerminalIff(b: Board)
    ensures Terminal(b) <==> HasLine(b, X) || HasLine(b, O) || Marks(b) == 9
  {
    WinnerLines(b);
    ActionsCount(b);
  }

  /** The score lies in {-1, 0, 1}: 1 only if X owns a line, -1 only if O
      owns one, and 0 exactly when neither does. */
  lemma UtilityScore(b: Board)
    ensures Utility(b) == -1 || Utility(b) == 0 || Utility(b) == 1
    ensures Utility(b) == 1 ==> HasLine(b, X)
    ensures Utility(b) == -1 ==> HasLine(b, O)
    ensures Utility(b) == 0 <==> !HasLine(b, X) && !HasLine(b, O)
  {
    WinnerLines(b);
  }
}
