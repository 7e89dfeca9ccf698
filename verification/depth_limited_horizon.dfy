/** Depth-limited alpha-beta is full alpha-beta on the game cut off at the
    search horizon: every non-terminal state at depth >= maxDepth is replaced
    by a terminal state worth its cutoff score to the root player. */
module DepthLimitedHorizon {
  import opened ExtInt
  import opened Game
  import opened MinimaxSpec
  import opened Optional
  import AB = AlphaBeta
  import DL = DepthLimited
  import opened AlphaBetaWindow
  import opened AlphaBetaChoice

  /** The utility for First of a terminal state worth `s` to player `p`. */
  function UtilityForFirst(p: Player, s: int): (u: int)
    ensures Utility(Terminal(First, u), p) == s
  {
    if p == First then s else -s
  }

  /** `t`, searched from `depth`, with the states at the horizon made terminal. */
  function Truncate(t: Tree, p: Player, depth: int, maxDepth: int, hasHeuristic: bool): (r: Tree)
    ensures r.Terminal? <==> t.Terminal? || depth >= maxDepth
    ensures r.Inner? ==> |r.kids| == |t.kids|
    decreases t
  {
    match t
    case Terminal(_, _) => t
    case Inner(mover, h, kids) =>
      if depth >= maxDepth then Terminal(mover, UtilityForFirst(p, DL.CutoffScore(t, hasHeuristic)))
      else Inner(mover, h, seq(|kids|, k requires 0 <= k < |kids| =>
                                  Truncate(kids[k], p, depth + 1, maxDepth, hasHeuristic)))
  }

  /** The root keeps its actions; each child is cut off from depth 1. */
  function Horizon(t: Tree, maxDepth: int, hasHeuristic: bool): (r: Tree)
    ensures NumActions(r) == NumActions(t) && r.toMove == t.toMove
  {
    match t
    case Terminal(_, _) => t
    case Inner(mover, h, kids) =>
      Inner(mover, h, seq(|kids|, k requires 0 <= k < |kids| =>
                             Truncate(kids[k], mover, 1, maxDepth, hasHeuristic)))
  }

  lemma {:induction false} MaxValueIsTruncated(t: Tree, p: Player, a: Ext, b: Ext,
                                               depth: int, maxDepth: int, hasHeuristic: bool)
    ensures DL.MaxValue(t, p, a, b, depth, maxDepth, hasHeuristic)
         == AB.MaxValue(Truncate(t, p, depth, maxDepth, hasHeuristic), p, a, b).value
    decreases t, 2, 0
  {
    if t.Inner? && depth < maxDepth {
      MaxLoopIsTruncated(t, p, 0, NegInf, a, b, depth, maxDepth, hasHeuristic);
    }
  }

  lemma {:induction false} MinValueIsTruncated(t: Tree, p: Player, a: Ext, b: Ext,
                                               depth: int, maxDepth: int, hasHeuristic: bool)
    ensures DL.MinValue(t, p, a, b, depth, maxDepth, hasHeuristic)
         == AB.MinValue(Truncate(t, p, depth, maxDepth, hasHeuristic), p, a, b).value
    decreases t, 2, 0
  {
    if t.Inner? && depth < maxDepth {
      MinLoopIsTruncated(t, p, 0, PosInf, a, b, depth, maxDepth, hasHeuristic);
    }
  }

  lemma {:induction false} MaxLoopIsTruncated(t: Tree, p: Player, i: nat, v: Ext, a: Ext, b: Ext,
                                              depth: int, maxDepth: int, hasHeuristic: bool)
    requires t.Inner? && i <= |t.kids| && depth < maxDepth
    ensures DL.MaxLoop(t, p, i, v, a, b, depth, maxDepth, hasHeuristic)
         == AB.MaxLoop(Truncate(t, p, depth, maxDepth, hasHeuristic), p, i, v, a, b).value
    decreases t, 1, |t.kids| - i
  {
    if i < |t.kids| {
      MinValueIsTruncated(t.kids[i], p, a, b, depth + 1, maxDepth, hasHeuristic);
      var v' := Max(v, DL.MinValue(t.kids[i], p, a, b, depth + 1, maxDepth, hasHeuristic));
      if !Le(b, v') {
        MaxLoopIsTruncated(t, p, i + 1, v', Max(a, v'), b, depth, maxDepth, hasHeuristic);
      }
    }
  }

  lemma {:induction false} MinLoopIsTruncated(t: Tree, p: Player, i: nat, v: Ext, a: Ext, b: Ext,
                                              depth: int, maxDepth: int, hasHeuristic: bool)
    requires t.Inner? && i <= |t.kids| && depth < maxDepth
    ensures DL.MinLoop(t, p, i, v, a, b, depth, maxDepth, hasHeuristic)
         == AB.MinLoop(Truncate(t, p, depth, maxDepth, hasHeuristic), p, i, v, a, b).value
    decreases t, 1, |t.kids| - i
  {
    if i < |t.kids| {
      MaxValueIsTruncated(t.kids[i], p, a, b, depth + 1, maxDepth, hasHeuristic);
      var v' := Min(v, DL.MaxValue(t.kids[i], p, a, b, depth + 1, maxDepth, hasHeuristic));
      if !Le(v', a) {
        MinLoopIsTruncated(t, p, i + 1, v', a, Min(b, v'), depth, maxDepth, hasHeuristic);
      }
    }
  }

  lemma {:induction false} RootLoopIsHorizon(t: Tree, i: nat, v: Ext, a: Ext, best: Option<nat>,
                                             maxDepth: int, hasHeuristic: bool)
    requires t.Inner? && i <= |t.kids|
    ensures DL.RootLoop(t, t.toMove, i, v, a, best, maxDepth, hasHeuristic)
         == AB.RootLoop(Horizon(t, maxDepth, hasHeuristic), t.toMove, i, v, a, best)
    decreases |t.kids| - i
  {
    if i < |t.kids| {
      MinValueIsTruncated(t.kids[i], t.toMove, a, PosInf, 1, maxDepth, hasHeuristic);
      var av := DL.MinValue(t.kids[i], t.toMove, a, PosInf, 1, maxDepth, hasHeuristic);
      if Lt(v, av) {
        RootLoopIsHorizon(t, i + 1, av, Max(a, av), Some(i), maxDepth, hasHeuristic);
      } else {
        RootLoopIsHorizon(t, i + 1, v, Max(a, v), best, maxDepth, hasHeuristic);
      }
    }
  }

  /** The depth-limited player chooses what full alpha-beta chooses on the horizon game. */
  lemma ChooseMoveIsHorizon(t: Tree, maxDepth: int, hasHeuristic: bool)
    ensures DL.ChooseMove(t, maxDepth, hasHeuristic) == AB.ChooseMove(Horizon(t, maxDepth, hasHeuristic))
  {
    if t.Inner? {
      RootLoopIsHorizon(t, 0, NegInf, NegInf, None, maxDepth, hasHeuristic);
    }
  }

  /** Fail-soft window property of the depth-limited search, against the
      depth-limited minimax value (cutoff states scored by heuristic or 0). */
  lemma LimitedWindow(t: Tree, p: Player, a: Ext, b: Ext, depth: int, maxDepth: int, hasHeuristic: bool)
    requires Lt(a, b)
    ensures FailSoft(DL.MaxValue(t, p, a, b, depth, maxDepth, hasHeuristic),
                     Minimax(Truncate(t, p, depth, maxDepth, hasHeuristic), p, true), a, b)
    ensures FailSoft(DL.MinValue(t, p, a, b, depth, maxDepth, hasHeuristic),
                     Minimax(Truncate(t, p, depth, maxDepth, hasHeuristic), p, false), a, b)
  {
    MaxValueIsTruncated(t, p, a, b, depth, maxDepth, hasHeuristic);
    MinValueIsTruncated(t, p, a, b, depth, maxDepth, hasHeuristic);
    MaxValueWindow(Truncate(t, p, depth, maxDepth, hasHeuristic), p, a, b);
    MinValueWindow(Truncate(t, p, depth, maxDepth, hasHeuristic), p, a, b);
  }

  /** The depth-limited player returns the first action maximising the
      depth-limited minimax value. */
  lemma LimitedChooseMoveIsFirstMax(t: Tree, maxDepth: int, hasHeuristic: bool)
    ensures var vals := RootValues(Horizon(t, maxDepth, hasHeuristic), t.toMove);
            match DL.ChooseMove(t, maxDepth, hasHeuristic)
            case Some(k) => IsFirstMax(vals, NumActions(t), k)
            case None => forall j :: 0 <= j < NumActions(t) ==> vals[j] == NegInf
  {
    ChooseMoveIsHorizon(t, maxDepth, hasHeuristic);
    ChooseMoveIsFirstMax(Horizon(t, maxDepth, hasHeuristic));
  }

  /** Every non-terminal state of `t`, taken to sit at `depth`, lies above the cutoff. */
  predicate WithinHorizon(t: Tree, depth: int, maxDepth: int)
    decreases t
  {
    match t
    case Terminal(_, _) => true
    case Inner(_, _, kids) =>
      depth < maxDepth && forall k :: 0 <= k < |kids| ==> WithinHorizon(kids[k], depth + 1, maxDepth)
  }

  /** Within the horizon nothing is cut off. */
  lemma {:induction false} TruncateWithinHorizon(t: Tree, p: Player, depth: int, maxDepth: int, hasHeuristic: bool)
    requires WithinHorizon(t, depth, maxDepth)
    ensures Truncate(t, p, depth, maxDepth, hasHeuristic) == t
    decreases t
  {
    match t
    case Terminal(_, _) =>
    case Inner(mover, h, kids) =>
      var r := Truncate(t, p, depth, maxDepth, hasHeuristic);
      forall k | 0 <= k < |kids|
        ensures r.kids[k] == kids[k]
      {
        TruncateWithinHorizon(kids[k], p, depth + 1, maxDepth, hasHeuristic);
      }
  }

  /** When every non-terminal state below the root sits at depth < maxDepth,
      the depth-limited search computes exactly the full-depth alpha-beta
      values and chooses the same action.  The root itself is never cut off. */
  lemma LimitedAgreesWithFull(t: Tree, maxDepth: int, hasHeuristic: bool)
    requires forall k :: 0 <= k < NumActions(t) ==> WithinHorizon(t.kids[k], 1, maxDepth)
    ensures DL.ChooseMove(t, maxDepth, hasHeuristic) == AB.ChooseMove(t)
    ensures forall k, a, b :: 0 <= k < NumActions(t) ==>
              DL.MinValue(t.kids[k], t.toMove, a, b, 1, maxDepth, hasHeuristic)
              == AB.MinValue(t.kids[k], t.toMove, a, b).value
  {
    ChooseMoveIsHorizon(t, maxDepth, hasHeuristic);
    if t.Inner? {
      var r := Horizon(t, maxDepth, hasHeuristic);
      forall k | 0 <= k < |t.kids|
        ensures r.kids[k] == t.kids[k]
        ensures forall a, b :: DL.MinValue(t.kids[k], t.toMove, a, b, 1, maxDepth, hasHeuristic)
                               == AB.MinValue(t.kids[k], t.toMove, a, b).value
      {
        TruncateWithinHorizon(t.kids[k], t.toMove, 1, maxDepth, hasHeuristic);
        forall a, b
          ensures DL.MinValue(t.kids[k], t.toMove, a, b, 1, maxDepth, hasHeuristic)
                  == AB.MinValue(t.kids[k], t.toMove, a, b).value
        {
          MinValueIsTruncated(t.kids[k], t.toMove, a, b, 1, maxDepth, hasHeuristic);
        }
      }
      assert r == t;
    }
  }

  /** Direct score of a state as a root child: its utility, or its cutoff score. */
  function DirectScore(t: Tree, p: Player, hasHeuristic: bool): int {
    if t.Terminal? then Utility(t, p) else DL.CutoffScore(t, hasHeuristic)
  }

  /** With maxDepth <= 1 every root child is scored directly and no grandchild
      state is generated: the horizon game has only terminal children. */
  lemma ShallowSearchScoresDirectly(t: Tree, maxDepth: int, hasHeuristic: bool)
    requires maxDepth <= 1
    ensures forall k :: 0 <= k < NumActions(t) ==> Horizon(t, maxDepth, hasHeuristic).kids[k].Terminal?
    ensures forall k, a, b :: 0 <= k < NumActions(t) ==>
              DL.MinValue(t.kids[k], t.toMove, a, b, 1, maxDepth, hasHeuristic)
              == Fin(DirectScore(t.kids[k], t.toMove, hasHeuristic))
  {
  }

  /** The terminal test is made before the depth cutoff. */
  lemma TerminalBeatsCutoff(t: Tree, p: Player, a: Ext, b: Ext, depth: int, maxDepth: int, hasHeuristic: bool)
    requires t.Terminal?
    ensures DL.MaxValue(t, p, a, b, depth, maxDepth, hasHeuristic) == Fin(Utility(t, p))
    ensures DL.MinValue(t, p, a, b, depth, maxDepth, hasHeuristic) == Fin(Utility(t, p))
  {
  }

  /** A non-terminal state at or past the cutoff scores its heuristic, or exactly 0. */
  lemma CutoffPolicy(t: Tree, p: Player, a: Ext, b: Ext, depth: int, maxDepth: int, hasHeuristic: bool)
    requires t.Inner? && depth >= maxDepth
    ensures DL.MaxValue(t, p, a, b, depth, maxDepth, hasHeuristic) == Fin(if hasHeuristic then t.h else 0)
    ensures DL.MinValue(t, p, a, b, depth, maxDepth, hasHeuristic) == Fin(if hasHeuristic then t.h else 0)
  {
  }
}
