/** The arithmetic of the search, independent of the board: the fold that
    picks the best of a set of move values, what a fail-soft alpha-beta
    result promises, and the invariants of the three search loops together
    with the lemmas that carry them from one iteration to the next. */
module Pruning {
  import opened TicTacToe

  /** Stand-ins for the float -inf and +inf: every score lies in {-1, 0, 1}. */
  const NEG_INF: int := -2
  const POS_INF: int := 2

  function Max(x: int, y: int): int {
    if x >= y then x else y
  }

  function Min(x: int, y: int): int {
    if x <= y then x else y
  }

  /** The largest (maximizing) or smallest (not maximizing) of the values of
      the moves in acts, folded one move at a time. */
  ghost function Best(values: map<Action, int>, acts: set<Action>, maximizing: bool): (v: int)
    requires acts != {} && acts <= values.Keys
    ensures (forall a :: a in acts ==> -1 <= values[a] <= 1) ==> -1 <= v <= 1
    decreases acts
  {
    var a :| a in acts;
    if acts == {a} then values[a]
    else
      var rest := Best(values, acts - {a}, maximizing);
      if maximizing then Max(values[a], rest) else Min(values[a], rest)
  }

  /** One unfolding of Best, naming the move it takes first. */
  lemma BestStep(values: map<Action, int>, acts: set<Action>, maximizing: bool) returns (x: Action)
    requires acts != {} && acts <= values.Keys
    ensures x in acts
    ensures acts == {x} ==> Best(values, acts, maximizing) == values[x]
    ensures acts != {x} && maximizing ==> Best(values, acts, true) == Max(values[x], Best(values, acts - {x}, true))
    ensures acts != {x} && !maximizing ==> Best(values, acts, false) == Min(values[x], Best(values, acts - {x}, false))
  {
    x :| x in acts && Best(values, acts, maximizing) ==
      if acts == {x} then values[x]
      else if maximizing then Max(values[x], Best(values, acts - {x}, maximizing))
      else Min(values[x], Best(values, acts - {x}, maximizing));
  }

  /** Best bounds every value in acts: from above when maximizing, from
      below otherwise. */
  lemma {:induction false} BestBounds(values: map<Action, int>, acts: set<Action>, maximizing: bool, a: Action)
    requires acts != {} && acts <= values.Keys && a in acts
    ensures if maximizing then values[a] <= Best(values, acts, maximizing)
            else Best(values, acts, maximizing) <= values[a]
    decreases acts
  {
    var x := BestStep(values, acts, maximizing);
    if a != x {
      BestBounds(values, acts - {x}, maximizing, a);
    }
  }

  /** Best is the value of one of the moves in acts. */
  lemma {:induction false} BestAttained(values: map<Action, int>, acts: set<Action>, maximizing: bool)
    returns (a: Action)
    requires acts != {} && acts <= values.Keys
    ensures a in acts && values[a] == Best(values, acts, maximizing)
    decreases acts
  {
    var x := BestStep(values, acts, maximizing);
    if acts == {x} {
      a := x;
    } else {
      var y := BestAttained(values, acts - {x}, maximizing);
      a := if Best(values, acts, maximizing) == values[x] then x else y;
    }
  }

  /** Adding one move to acts folds its value in with Max or Min: the value
      does not depend on the order in which the moves are taken. */
  lemma BestInsert(values: map<Action, int>, acts: set<Action>, a: Action, maximizing: bool)
    requires acts + {a} <= values.Keys
    ensures Best(values, acts + {a}, maximizing) ==
      if acts == {} then values[a]
      else if maximizing then Max(Best(values, acts, maximizing), values[a])
      else Min(Best(values, acts, maximizing), values[a])
  {
    var bigger := acts + {a};
    if acts == {} {
      var x := BestStep(values, bigger, maximizing);
    } else {
      var x := BestAttained(values, bigger, maximizing);
      var y := BestAttained(values, acts, maximizing);
      BestBounds(values, bigger, maximizing, a);
      BestBounds(values, bigger, maximizing, y);
      if x != a {
        BestBounds(values, acts, maximizing, x);
      }
    }
  }

  /** What a fail-soft alpha-beta search promises about its result r when
      the true value is v and the window is (alpha, beta): r is exact inside
      the window, an upper bound of v at or below alpha, and a lower bound of
      v at or above beta. */
  predicate FailSoft(r: int, v: int, alpha: int, beta: int) {
    (r <= alpha ==> v <= r) &&
    (beta <= r ==> r <= v) &&
    (alpha < r < beta ==> r == v)
  }

  /** With the full window (NEG_INF, POS_INF), a fail-soft result is the exact value. */
  lemma FullWindowExact(r: int, v: int)
    requires -1 <= r <= 1 && FailSoft(r, v, NEG_INF, POS_INF)
    ensures r == v
  {
  }

  /** The loop invariant of max_value after the moves in done have been
      searched and those in remaining have not: score is the running maximum
      and runningAlpha the raised lower bound; inside the window, score is
      fail-soft with respect to the best value found so far. */
  ghost predicate MaxLoop(values: map<Action, int>, available: set<Action>, remaining: set<Action>,
                          done: set<Action>, alpha: int, beta: int, score: int, runningAlpha: int)
  {
    available <= values.Keys && remaining <= available && done == available - remaining &&
    (done == {} ==> score == NEG_INF && runningAlpha == alpha) &&
    (done != {} ==> -1 <= score <= 1 && runningAlpha == Max(alpha, score)) &&
    (alpha < beta ==> runningAlpha < beta) &&
    (alpha < beta && done != {} ==> Best(values, done, true) <= score) &&
    (alpha < beta && done != {} && alpha < score ==> Best(values, done, true) == score)
  }

  /** One iteration of max_value's loop keeps MaxLoop, given the fail-soft
      score of the move it searches; when the iteration cuts off, score is
      already a lower bound of the best over all moves. */
  lemma MaxLoopStep(values: map<Action, int>, available: set<Action>, remaining: set<Action>,
                    done: set<Action>, alpha: int, beta: int, score: int, runningAlpha: int,
                    action: Action, childScore: int)
    requires MaxLoop(values, available, remaining, done, alpha, beta, score, runningAlpha)
    requires action in remaining && -1 <= childScore <= 1
    requires runningAlpha < beta ==> FailSoft(childScore, values[action], runningAlpha, beta)
    ensures Max(runningAlpha, Max(score, childScore)) < beta ==>
              MaxLoop(values, available, remaining - {action}, done + {action}, alpha, beta,
                      Max(score, childScore), Max(runningAlpha, Max(score, childScore)))
    ensures beta <= Max(runningAlpha, Max(score, childScore)) ==> -1 <= Max(score, childScore) <= 1
    ensures beta <= Max(runningAlpha, Max(score, childScore)) && alpha < beta ==>
              Max(score, childScore) <= Best(values, available, true)
  {
    var remaining', done' := remaining - {action}, done + {action};
    assert done' == available - remaining';
    BestInsert(values, done, action, true);
    if beta <= Max(runningAlpha, Max(score, childScore)) && alpha < beta {
      BestBounds(values, available, true, action);
    }
  }

  /** When max_value's loop has searched every move, score is fail-soft
      with respect to the best value of all of them. */
  lemma MaxLoopDone(values: map<Action, int>, available: set<Action>, done: set<Action>,
                    alpha: int, beta: int, score: int, runningAlpha: int)
    requires available != {}
    requires MaxLoop(values, available, {}, done, alpha, beta, score, runningAlpha)
    ensures -1 <= score <= 1
    ensures alpha < beta ==> FailSoft(score, Best(values, available, true), alpha, beta)
  {
    assert done == available;
  }

  /** The loop invariant of min_value, the mirror image of MaxLoop. */
  ghost predicate MinLoop(values: map<Action, int>, available: set<Action>, remaining: set<Action>,
                          done: set<Action>, alpha: int, beta: int, score: int, runningBeta: int)
  {
    available <= values.Keys && remaining <= available && done == available - remaining &&
    (done == {} ==> score == POS_INF && runningBeta == beta) &&
    (done != {} ==> -1 <= score <= 1 && runningBeta == Min(beta, score)) &&
    (alpha < beta ==> alpha < runningBeta) &&
    (alpha < beta && done != {} ==> score <= Best(values, done, false)) &&
    (alpha < beta && done != {} && score < beta ==> Best(values, done, false) == score)
  }

  /** One iteration of min_value's loop keeps MinLoop; when it cuts off,
      score is already an upper bound of the best over all moves. */
  lemma MinLoopStep(values: map<Action, int>, available: set<Action>, remaining: set<Action>,
                    done: set<Action>, alpha: int, beta: int, score: int, runningBeta: int,
                    action: Action, childScore: int)
    requires MinLoop(values, available, remaining, done, alpha, beta, score, runningBeta)
    requires action in remaining && -1 <= childScore <= 1
    requires alpha < runningBeta ==> FailSoft(childScore, values[action], alpha, runningBeta)
    ensures alpha < Min(runningBeta, Min(score, childScore)) ==>
              MinLoop(values, available, remaining - {action}, done + {action}, alpha, beta,
                      Min(score, childScore), Min(runningBeta, Min(score, childScore)))
    ensures Min(runningBeta, Min(score, childScore)) <= alpha ==> -1 <= Min(score, childScore) <= 1
    ensures Min(runningBeta, Min(score, childScore)) <= alpha && alpha < beta ==>
              Best(values, available, false) <= Min(score, childScore)
  {
    var remaining', done' := remaining - {action}, done + {action};
    assert done' == available - remaining';
    BestInsert(values, done, action, false);
    if Min(runningBeta, Min(score, childScore)) <= alpha && alpha < beta {
      BestBounds(values, available, false, action);
    }
  }

  /** When min_value's loop has searched every move, score is fail-soft
      with respect to the best value of all of them. */
  lemma MinLoopDone(values: map<Action, int>, available: set<Action>, done: set<Action>,
                    alpha: int, beta: int, score: int, runningBeta: int)
    requires available != {}
    requires MinLoop(values, available, {}, done, alpha, beta, score, runningBeta)
    ensures -1 <= score <= 1
    ensures alpha < beta ==> FailSoft(score, Best(values, available, false), alpha, beta)
  {
    assert done == available;
  }

  /** x is strictly better than y for the side that is maximizing (or not). */
  predicate Improves(maximizing: bool, x: int, y: int) {
    if maximizing then x > y else x < y
  }

  /** order lists every element of s exactly once. */
  ghost predicate Enumerates(order: seq<Action>, s: set<Action>) {
    (forall i, j :: 0 <= i < j < |order| ==> order[i] != order[j]) &&
    (forall a :: a in s <==> a in order)
  }

  /** The loop invariant of minimax's root loop: order lists the moves taken
      so far, in the order taken; bestAction is the first of them whose value
      no other beats, and bestScore its value, or None and the sentinel
      before the first move. */
  ghost predicate RootLoop(values: map<Action, int>, maximizing: bool, available: set<Action>,
                           remaining: set<Action>, order: seq<Action>, bestAction: Option<Action>,
                           bestScore: int, pick: nat)
  {
    available <= values.Keys && remaining <= available &&
    (forall i :: 0 <= i < |order| ==> order[i] in available && order[i] !in remaining) &&
    (forall i, j :: 0 <= i < j < |order| ==> order[i] != order[j]) &&
    (forall a :: a in available && a !in remaining ==> a in order) &&
    (bestAction.None? <==> order == []) &&
    (bestAction.None? ==> bestScore == if maximizing then NEG_INF else POS_INF) &&
    (bestAction.Some? ==>
      pick < |order| && order[pick] == bestAction.value && bestScore == values[bestAction.value] &&
      (forall i :: 0 <= i < |order| ==> !Improves(maximizing, values[order[i]], bestScore)) &&
      (forall i :: 0 <= i < pick ==> Improves(maximizing, bestScore, values[order[i]])))
  }

  /** One iteration of the root loop keeps RootLoop, given the exact value
      score of the move it takes. */
  lemma RootLoopStep(values: map<Action, int>, maximizing: bool, available: set<Action>,
                     remaining: set<Action>, order: seq<Action>, bestAction: Option<Action>,
                     bestScore: int, pick: nat, action: Action, score: int)
    requires RootLoop(values, maximizing, available, remaining, order, bestAction, bestScore, pick)
    requires action in remaining && score == values[action] && -1 <= score <= 1
    ensures Improves(maximizing, score, bestScore) ==>
      RootLoop(values, maximizing, available, remaining - {action}, order + [action],
               Some(action), score, |order|)
    ensures !Improves(maximizing, score, bestScore) ==>
      RootLoop(values, maximizing, available, remaining - {action}, order + [action],
               bestAction, bestScore, pick)
  {
    var order' := order + [action];
    assert forall i :: 0 <= i < |order| ==> order'[i] == order[i];
    assert order'[|order|] == action;
  }

  /** When the root loop has taken every move of a non-empty set, it has
      chosen one, order lists them all, and no move beats the chosen one. */
  lemma RootLoopDone(values: map<Action, int>, maximizing: bool, available: set<Action>,
                     order: seq<Action>, bestAction: Option<Action>, bestScore: int, pick: nat)
    requires available != {}
    requires RootLoop(values, maximizing, available, {}, order, bestAction, bestScore, pick)
    ensures Enumerates(order, available)
    ensures bestAction.Some? && pick < |order| && order[pick] == bestAction.value
    ensures forall a :: a in available ==> !Improves(maximizing, values[a], values[bestAction.value])
    ensures forall i :: 0 <= i < pick ==> Improves(maximizing, values[bestAction.value], values[order[i]])
  {
    var a :| a in available;
    assert a in order;
    forall c | c in available
      ensures !Improves(maximizing, values[c], values[bestAction.value])
    {
      assert c in order;
      var i :| 0 <= i < |order| && order[i] == c;
    }
  }
}
