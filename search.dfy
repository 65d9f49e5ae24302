/** Adversarial search: minimax with alpha-beta pruning, and the choice of a
    move at the root. The search loops become methods; each is proved against
    MinimaxValue, the plain (unpruned) minimax recursion. */
module Search {
  import opened TicTacToe
  import opened Pruning

  /** The plain minimax value of b: its utility when the game is over, and
      otherwise the best, for the side to move, of the values of the
      successors, which are valued with the roles swapped. It does not
      consult Player: like max_value and min_value, it only alternates. */
  ghost function MinimaxValue(b: Board, maximizing: bool): (v: int)
    ensures -1 <= v <= 1
    decreases |Actions(b)|, 2
  {
    if Terminal(b) then
      UtilityScore(b);
      Utility(b)
    else
      var values := ChildValues(b, !maximizing);
      Best(values, Actions(b), maximizing)
  }

  /** The minimax value of the successor of every available move, with
      `maximizing` to move there. */
  ghost function ChildValues(b: Board, maximizing: bool): (values: map<Action, int>)
    ensures values.Keys == Actions(b)
    ensures forall a :: a in values ==> -1 <= values[a] <= 1
    decreases |Actions(b)|, 1
  {
    map a | a in Actions(b) :: ChildValue(b, a, maximizing)
  }

  /** The minimax value of the successor that move a leads to. */
  ghost function ChildValue(b: Board, a: Action, maximizing: bool): (v: int)
    requires a in Actions(b)
    ensures -1 <= v <= 1
    decreases |Actions(b)|, 0
  {
    var next := Result(b, a);
    assert next.Moved? && |Actions(next.board)| < |Actions(b)|;
    MinimaxValue(next.board, maximizing)
  }

  /** The entry of ChildValues for move a is the value of its successor. */
  lemma ChildValuesAt(b: Board, a: Action, maximizing: bool)
    requires a in Actions(b)
    ensures Result(b, a).Moved?
    ensures ChildValues(b, maximizing)[a] == MinimaxValue(Result(b, a).board, maximizing)
  {
  }

  /** On a board that is not over, the maximizing value bounds the value of
      every move from above and is attained by one of them. */
  lemma MaxExtremal(b: Board)
    requires !Terminal(b)
    ensures forall a :: a in Actions(b) ==> ChildValues(b, false)[a] <= MinimaxValue(b, true)
    ensures exists a :: a in Actions(b) && ChildValues(b, false)[a] == MinimaxValue(b, true)
  {
    var values := ChildValues(b, false);
    forall a | a in Actions(b)
      ensures values[a] <= MinimaxValue(b, true)
    {
      BestBounds(values, Actions(b), true, a);
    }
    var a := BestAttained(values, Actions(b), true);
  }

  /** On a board that is not over, the minimizing value bounds the value of
      every move from below and is attained by one of them. */
  lemma MinExtremal(b: Board)
    requires !Terminal(b)
    ensures forall a :: a in Actions(b) ==> MinimaxValue(b, false) <= ChildValues(b, true)[a]
    ensures exists a :: a in Actions(b) && ChildValues(b, true)[a] == MinimaxValue(b, false)
  {
    var values := ChildValues(b, true);
    forall a | a in Actions(b)
      ensures MinimaxValue(b, false) <= values[a]
    {
      BestBounds(values, Actions(b), false, a);
    }
    var a := BestAttained(values, Actions(b), false);
  }

  /** min_value(result(board, action), alpha, beta), the call in max_value's
      loop: fail-soft with respect to the entry of ChildValues for the move. */
  method MinValueAfter(b: Board, action: Action, alpha: int, beta: int) returns (score: int)
    requires action in Actions(b)
    ensures -1 <= score <= 1
    ensures alpha < beta ==> FailSoft(score, ChildValues(b, false)[action], alpha, beta)
    decreases |Actions(b)|, 0
  {
    score := MinValue(Result(b, action).board, alpha, beta);
    ChildValuesAt(b, action, false);
  }

  /** max_value(result(board, action), alpha, beta), the call in min_value's
      loop: fail-soft with respect to the entry of ChildValues for the move. */
  method MaxValueAfter(b: Board, action: Action, alpha: int, beta: int) returns (score: int)
    requires action in Actions(b)
    ensures -1 <= score <= 1
    ensures alpha < beta ==> FailSoft(score, ChildValues(b, true)[action], alpha, beta)
    decreases |Actions(b)|, 0
  {
    score := MaxValue(Result(b, action).board, alpha, beta);
    ChildValuesAt(b, action, true);
  }

  /** max_value: the maximizing side of the pruned search. */
  method MaxValue(b: Board, alpha: int, beta: int) returns (score: int)
    ensures -1 <= score <= 1
    ensures Terminal(b) ==> score == Utility(b)
    ensures alpha < beta ==> FailSoft(score, MinimaxValue(b, true), alpha, beta)
    ensures alpha == NEG_INF && beta == POS_INF ==> score == MinimaxValue(b, true)
    decreases |Actions(b)|, 1
  {
    if Terminal(b) {
      UtilityScore(b);
      return Utility(b);
    }
    score := NEG_INF;
    var availableActions := Actions(b);
    // max_value's `if not available_actions` branch (tictactoe.py:138-139) cannot be taken here.
    assert availableActions != {};

    ghost var values := ChildValues(b, false);
    var runningAlpha := alpha;
    var remaining := availableActions;
    ghost var done: set<Action> := {};
    ghost var cut := false;
    while remaining != {}
      invariant remaining <= availableActions
      invariant MaxLoop(values, availableActions, remaining, done, alpha, beta, score, runningAlpha)
      decreases |remaining|
    {
      var action :| action in remaining;
      var childScore := MinValueAfter(b, action, runningAlpha, beta);
      MaxLoopStep(values, availableActions, remaining, done, alpha, beta, score, runningAlpha, action, childScore);
      remaining := remaining - {action};
      done := done + {action};
      score := Max(score, childScore);
      runningAlpha := Max(runningAlpha, score);
      if beta <= runningAlpha {
        cut := true;
        break;
      }
    }
    if !cut {
      MaxLoopDone(values, availableActions, done, alpha, beta, score, runningAlpha);
    }
  }

  /** min_value: the minimizing side of the pruned search. */
  method MinValue(b: Board, alpha: int, beta: int) returns (score: int)
    ensures -1 <= score <= 1
    ensures Terminal(b) ==> score == Utility(b)
    ensures alpha < beta ==> FailSoft(score, MinimaxValue(b, false), alpha, beta)
    ensures alpha == NEG_INF && beta == POS_INF ==> score == MinimaxValue(b, false)
    decreases |Actions(b)|, 1
  {
    if Terminal(b) {
      UtilityScore(b);
      return Utility(b);
    }
    score := POS_INF;
    var availableActions := Actions(b);
    // min_value's `if not available_actions` branch (tictactoe.py:154-155) cannot be taken here.
    assert availableActions != {};

    ghost var values := ChildValues(b, true);
    var runningBeta := beta;
    var remaining := availableActions;
    ghost var done: set<Action> := {};
    ghost var cut := false;
    while remaining != {}
      invariant remaining <= availableActions
      invariant MinLoop(values, availableActions, remaining, done, alpha, beta, score, runningBeta)
      decreases |remaining|
    {
      var action :| action in remaining;
      var childScore := MaxValueAfter(b, action, alpha, runningBeta);
      MinLoopStep(values, availableActions, remaining, done, alpha, beta, score, runningBeta, action, childScore);
      remaining := remaining - {action};
      done := done + {action};
      score := Min(score, childScore);
      runningBeta := Min(runningBeta, score);
      if runningBeta <= alpha {
        cut := true;
        break;
      }
    }
    if !cut {
      MinLoopDone(values, availableActions, done, alpha, beta, score, runningBeta);
    }
  }

  /** The value minimax gives move a at the root. As written, the root does
      not swap roles: when X is to move it scores each successor with
      max_value, and when O is to move with min_value. */
  ghost function RootValues(b: Board): (values: map<Action, int>)
    ensures values.Keys == Actions(b)
  {
    ChildValues(b, Player(b) == X)
  }

  /** minimax: None on a finished game; otherwise the move of the side to
      move whose root value is best, the first such move in iteration order.
      order is that (unspecified) iteration order of the set of moves and
      pick the position of the chosen move in it. */
  method Minimax(b: Board) returns (bestAction: Option<Action>, ghost order: seq<Action>, ghost pick: nat)
    ensures bestAction.None? <==> Terminal(b)
    ensures !Terminal(b) ==> Enumerates(order, Actions(b))
    ensures bestAction.Some? ==> pick < |order| && order[pick] == bestAction.value && bestAction.value in Actions(b)
    ensures bestAction.Some? ==> forall a :: a in Actions(b) ==>
      !Improves(Player(b) == X, RootValues(b)[a], RootValues(b)[bestAction.value])
    ensures bestAction.Some? ==> forall i :: 0 <= i < pick ==>
      Improves(Player(b) == X, RootValues(b)[bestAction.value], RootValues(b)[order[i]])
  {
    order, pick := [], 0;
    if Terminal(b) {
      return None, order, pick;
    }
    var availableActions := Actions(b);
    assert availableActions != {};
    bestAction := None;
    var alpha := NEG_INF;
    var beta := POS_INF;
    ghost var values := RootValues(b);
    var remaining := availableActions;

    if Player(b) == X {
      var bestScore := NEG_INF;
      while remaining != {}
        invariant remaining <= availableActions
        invariant RootLoop(values, true, availableActions, remaining, order, bestAction, bestScore, pick)
        decreases |remaining|
      {
        var action :| action in remaining;
        var score := MaxValueAfter(b, action, alpha, beta);
        FullWindowExact(score, values[action]);
        RootLoopStep(values, true, availableActions, remaining, order, bestAction, bestScore, pick, action, score);
        if score > bestScore {
          bestScore := score;
          bestAction := Some(action);
          pick := |order|;
        }
        order := order + [action];
        remaining := remaining - {action};
      }
      RootLoopDone(values, true, availableActions, order, bestAction, bestScore, pick);
    } else {
      var bestScore := POS_INF;
      while remaining != {}
        invariant remaining <= availableActions
        invariant RootLoop(values, false, availableActions, remaining, order, bestAction, bestScore, pick)
        decreases |remaining|
      {
        var action :| action in remaining;
        var score := MinValueAfter(b, action, alpha, beta);
        FullWindowExact(score, values[action]);
        RootLoopStep(values, false, availableActions, remaining, order, bestAction, bestScore, pick, action, score);
        if score < bestScore {
          bestScore := score;
          bestAction := Some(action);
          pick := |order|;
        }
        order := order + [action];
        remaining := remaining - {action};
      }
      RootLoopDone(values, false, availableActions, order, bestAction, bestScore, pick);
    }
  }
}
