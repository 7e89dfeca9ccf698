/** Depth-limited alpha-beta (`minimax_limited_pruning_player`).  The root's
    children are searched at depth 1 and every recursive call is one level
    deeper.  A terminal state returns its utility whatever the depth; a
    non-terminal state at `depth >= maxDepth` returns the game's heuristic when
    the game has one, and 0 otherwise.  Recursion is bounded by
    `maxDepth - depth` alone, not by the size of the game. */
module DepthLimited {
  import opened ExtInt
  import opened Game
  import opened Optional

  /** Remaining depth before the cutoff. */
  function Gap(depth: int, maxDepth: int): nat {
    if depth < maxDepth then maxDepth - depth else 0
  }

  /** Score of a non-terminal state at the cutoff: the heuristic, or the
      neutral fallback 0 when the game has no heuristic. */
  function CutoffScore(t: Tree, hasHeuristic: bool): int
    requires t.Inner?
  {
    if hasHeuristic then t.h else 0
  }

  /** `max_value(state, a, b, current_depth)`. */
  function MaxValue(t: Tree, p: Player, a: Ext, b: Ext, depth: int, maxDepth: int, hasHeuristic: bool): Ext
    decreases Gap(depth, maxDepth), 2, 0
  {
    if t.Terminal? then Fin(Utility(t, p))
    else if depth >= maxDepth then Fin(CutoffScore(t, hasHeuristic))
    else MaxLoop(t, p, 0, NegInf, a, b, depth, maxDepth, hasHeuristic)
  }

  function MaxLoop(t: Tree, p: Player, i: nat, v: Ext, a: Ext, b: Ext,
                   depth: int, maxDepth: int, hasHeuristic: bool): Ext
    requires t.Inner? && i <= |t.kids| && depth < maxDepth
    decreases Gap(depth, maxDepth), 1, |t.kids| - i
  {
    if i == |t.kids| then v
    else
      var v' := Max(v, MinValue(t.kids[i], p, a, b, depth + 1, maxDepth, hasHeuristic));
      if Le(b, v') then v'
      else MaxLoop(t, p, i + 1, v', Max(a, v'), b, depth, maxDepth, hasHeuristic)
  }

  /** `min_value(state, a, b, current_depth)`. */
  function MinValue(t: Tree, p: Player, a: Ext, b: Ext, depth: int, maxDepth: int, hasHeuristic: bool): Ext
    decreases Gap(depth, maxDepth), 2, 0
  {
    if t.Terminal? then Fin(Utility(t, p))
    else if depth >= maxDepth then Fin(CutoffScore(t, hasHeuristic))
    else MinLoop(t, p, 0, PosInf, a, b, depth, maxDepth, hasHeuristic)
  }

  function MinLoop(t: Tree, p: Player, i: nat, v: Ext, a: Ext, b: Ext,
                   depth: int, maxDepth: int, hasHeuristic: bool): Ext
    requires t.Inner? && i <= |t.kids| && depth < maxDepth
    decreases Gap(depth, maxDepth), 1, |t.kids| - i
  {
    if i == |t.kids| then v
    else
      var v' := Min(v, MaxValue(t.kids[i], p, a, b, depth + 1, maxDepth, hasHeuristic));
      if Le(v', a) then v'
      else MinLoop(t, p, i + 1, v', a, Min(b, v'), depth, maxDepth, hasHeuristic)
  }

  /** `minimax_limited_pruning_player(game, state, max_depth)`. */
  function ChooseMove(t: Tree, maxDepth: int, hasHeuristic: bool): Option<nat> {
    match t
    case Terminal(_, _) => None
    case Inner(p, _, _) => RootLoop(t, p, 0, NegInf, NegInf, None, maxDepth, hasHeuristic)
  }

  /** The root loop: each child is searched as a min node at depth 1. */
  function RootLoop(t: Tree, p: Player, i: nat, v: Ext, a: Ext, best: Option<nat>,
                    maxDepth: int, hasHeuristic: bool): Option<nat>
    requires t.Inner? && i <= |t.kids|
    decreases |t.kids| - i
  {
    if i == |t.kids| then best
    else
      var av := MinValue(t.kids[i], p, a, PosInf, 1, maxDepth, hasHeuristic);
      if Lt(v, av) then RootLoop(t, p, i + 1, av, Max(a, av), Some(i), maxDepth, hasHeuristic)
      else RootLoop(t, p, i + 1, v, Max(a, v), best, maxDepth, hasHeuristic)
  }
}
