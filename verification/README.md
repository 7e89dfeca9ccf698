# Adversarial search engine: move choosers in Dafny

This project models the three move choosers of the adversarial search engine:

- `minimax_pruning_player`: alpha-beta minimax searched to the terminal states;
- `minimax_limited_pruning_player`: alpha-beta cut off at `max_depth`, where a non-terminal state is scored by the game's heuristic, or by 0 when the game has none;
- `mcts_player`: Monte Carlo tree search with root pre-expansion, UCB1 selection, expansion on the second visit, random rollouts and backpropagation.

Each chooser is modelled together with the properties that make it correct.

The game is a finite game tree (`Game.Tree`):

- A state is a subtree, and its actions are its child indices in order.
- A terminal state carries its utility for the first player. The game is zero-sum, so the other player's utility is its negation.
- A non-terminal state carries the value its heuristic would report.
- `game.result` is `Successor`, `game.actions` / `state.moves` is `Moves`, and `game.utility` is `Utility`.
- `numpy`'s infinities are the extended integers of `ExtInt`.

Plain minimax (`MinimaxSpec.Minimax`) is used only as the reference value for the alpha-beta searches. It models no file.

Main results:

- **Full alpha-beta.** Both value functions are fail-soft with respect to the minimax value: for every window `a < b`, a result inside the window is exact, a result at or below `a` bounds the value from above, and a result at or above `b` bounds it from below. With the root's window they are exact. The root loop returns the *first* action, in action order, with the greatest minimax value.
- **Depth-limited alpha-beta.** The search is exactly full alpha-beta run on the game cut off at the horizon, so it inherits every property above against the depth-limited minimax value. When no non-terminal state below the root lies at or below the horizon, it returns the same action as the full search.
- **MCTS.** The tree is an immutable value. Backpropagation updates the nodes on the root-to-leaf path.
  - An invariant holds at every node and is kept by every iteration: one child per legal move, in order; a never-visited node below the root is unexpanded (the root itself is expanded before any visit); the children's visits sum to at most the node's visits, and at the root to exactly its visits.
  - The search is pinned down completely: the root after the loop is `Run` of the pre-expanded root, the tree that applying one iteration after another builds.
  - The first `|moves|` iterations visit the root's children in order, once each.
  - The final choice is the first child with the greatest win rate.
  - It fails exactly when the root has no children (`max` of an empty list) or some root child was never visited (a division by zero).

Behaviour of the code that the model keeps as written:

- The final choice of `mcts.py` divides by zero when `iterations` is below the number of root moves, for example `iterations = 0` with any move available. It neither returns a move nor ranks an unvisited child as minus infinity. The model returns `Err(ZeroDivision)` and proves exactly when this happens (`MctsPlayer.ChooseMove`).
- `wins` accumulates the raw utility, including negative ones, so `0 <= wins <= visits` is not an invariant of the code. A draw adds 0.5 when it comes from a rollout, but 0 when the selected leaf is itself terminal (`MctsIteration.IterateReward`).
- Every node's `wins` are counted for the root player, including nodes where the opponent is to move. Selection therefore maximises the root player's UCB1 score at every level.

## Model

| member | source | states |
|---|---|---|
| AlphaBeta.MaxValue | minimax_pruning.py:12-22 | a max node evaluates at most as many terminal utilities as there are terminal states below it |
| AlphaBeta.MaxLoop | minimax_pruning.py:16-22 | the max node's action loop from action `i` evaluates at most the terminal states below actions `i..` |
| AlphaBeta.MinValue | minimax_pruning.py:24-34 | a min node evaluates at most as many terminal utilities as there are terminal states below it |
| AlphaBeta.MinLoop | minimax_pruning.py:28-34 | the min node's action loop from action `i` evaluates at most the terminal states below actions `i..` |
| AlphaBetaWindow.MaxValueWindow | minimax_pruning.py:12-22 | for any window a < b, `max_value` is fail-soft with respect to the true minimax value of a max node |
| AlphaBetaWindow.MinValueWindow | minimax_pruning.py:24-34 | for any window a < b, `min_value` is fail-soft with respect to the true minimax value of a min node |
| AlphaBetaWindow.MaxStepWindow | minimax_pruning.py:18-21 | folding a child result that is fail-soft for the narrowed window `(max(a, v), b)` into `v` keeps `v` fail-soft for the caller's window over one more child |
| AlphaBetaWindow.MinStepWindow | minimax_pruning.py:30-33 | folding a child result that is fail-soft for the narrowed window `(a, min(b, v))` into `v` keeps `v` fail-soft for the caller's window over one more child |
| AlphaBetaWindow.CutAboveWindow | minimax_pruning.py:19-20 | returning early at `v >= b` is sound: the result stays fail-soft for the true value, which the remaining children can only raise |
| AlphaBetaWindow.CutBelowWindow | minimax_pruning.py:31-32 | returning early at `v <= a` is sound: the result stays fail-soft for the true value, which the remaining children can only lower |
| AlphaBetaWindow.MaxLoopWindow | minimax_pruning.py:16-22 | loop invariant: cutting off at `v >= b` and raising alpha to `max(a, v)` keeps the running value fail-soft for the caller's window |
| AlphaBetaWindow.MinLoopWindow | minimax_pruning.py:28-34 | loop invariant: cutting off at `v <= a` and lowering beta to `min(b, v)` keeps the running value fail-soft for the caller's window |
| AlphaBetaChoice.FullWindowExact | minimax_pruning.py:7-8 | with the initial window (-inf, +inf) both value functions return the exact minimax value |
| AlphaBetaChoice.RootLoopFirstMax | minimax_pruning.py:38-43 | root loop invariant: alpha is the best value so far and `best_action` is the first action reaching it |
| AlphaBetaChoice.ChooseMoveIsFirstMax | minimax_pruning.py:36-45 | the chosen action is the first one with maximal minimax value; None only if there is no action or every value is -inf |
| AlphaBetaChoice.ChooseMoveNoneIff | minimax_pruning.py:36-45 | when every non-terminal state has an action, the result is None exactly when the root has no action, and otherwise is a legal action |
| AlphaBetaChoice.MaxCutoffIgnoresRest | minimax_pruning.py:19-20 | once `v >= b` the max node's result does not depend on the remaining actions |
| AlphaBetaChoice.MinCutoffIgnoresRest | minimax_pruning.py:31-32 | once `v <= a` the min node's result does not depend on the remaining actions |
| AlphaBetaChoice.PruningSavesEvaluations | minimax_pruning.py:28-33 | on a two-by-two game the second min node is cut off after its first utility, so 3 of 4 utilities are evaluated |
| DepthLimitedHorizon.Truncate | minimax_limited_pruning.py:17-22 | a state becomes terminal in the cut-off game exactly when it is terminal or lies at or past `max_depth`; other states keep their actions |
| DepthLimitedHorizon.MaxValueIsTruncated | minimax_limited_pruning.py:13-30 | the depth-limited `max_value` equals full alpha-beta's `max_value` on the game cut off at the horizon |
| DepthLimitedHorizon.MinValueIsTruncated | minimax_limited_pruning.py:32-47 | the depth-limited `min_value` equals full alpha-beta's `min_value` on the cut-off game |
| DepthLimitedHorizon.MaxLoopIsTruncated | minimax_limited_pruning.py:24-30 | the depth-limited max loop, with children one level deeper, equals the full max loop on the cut-off game |
| DepthLimitedHorizon.MinLoopIsTruncated | minimax_limited_pruning.py:41-47 | the depth-limited min loop, with children one level deeper, equals the full min loop on the cut-off game |
| DepthLimitedHorizon.RootLoopIsHorizon | minimax_limited_pruning.py:49-56 | the root loop, searching each child at depth 1, equals full alpha-beta's root loop on the cut-off game |
| DepthLimitedHorizon.ChooseMoveIsHorizon | minimax_limited_pruning.py:49-58 | `minimax_limited_pruning_player` chooses what `minimax_pruning_player` chooses on the cut-off game |
| DepthLimitedHorizon.LimitedWindow | minimax_limited_pruning.py:13-47 | both depth-limited value functions are fail-soft with respect to the depth-limited minimax value |
| DepthLimitedHorizon.LimitedChooseMoveIsFirstMax | minimax_limited_pruning.py:49-58 | the chosen action is the first one with maximal depth-limited minimax value |
| DepthLimitedHorizon.TruncateWithinHorizon | minimax_limited_pruning.py:18 | when every non-terminal state lies above `max_depth` the cutoff never fires and the game is unchanged |
| DepthLimitedHorizon.LimitedAgreesWithFull | minimax_limited_pruning.py:49-58 | when every non-terminal state below the root lies above `max_depth` (the root's own depth is never cut off), the depth-limited player returns the same action and child values as full alpha-beta |
| DepthLimitedHorizon.ShallowSearchScoresDirectly | minimax_limited_pruning.py:52 | with `max_depth <= 1` each root child is scored directly by its utility or heuristic, and no deeper state is searched |
| DepthLimitedHorizon.TerminalBeatsCutoff | minimax_limited_pruning.py:14-15 | a terminal state returns its utility whatever its depth |
| DepthLimitedHorizon.CutoffPolicy | minimax_limited_pruning.py:18-22 | a non-terminal state at or past the cutoff returns the heuristic if the game has one, and exactly 0 otherwise |
| MctsNode.NewNode | mcts.py:16-23 | a new node has the given state and move, no visits, no wins, no children, and every legal move unexplored in order |
| MctsNode.Expansion | mcts.py:44-52 | one fresh child per unexplored move, in order, appended after the existing children, with the successor state; unexplored becomes empty and the stats are unchanged |
| MctsNode.ArgMax | mcts.py:42 | the index returned is the first maximum of the keys, as Python's `max` keeps the first maximal element |
| MctsNode.Selection | mcts.py:26-42 | the first unvisited child when there is one, otherwise the first child with the greatest UCB1 score |
| MctsNode.Rollout | mcts.py:54-69 | the playout ends at a terminal state reachable from the start state, and returns its utility for the given player |
| MctsNode.Backprop | mcts.py:72-83 | the node gains one visit and the value in wins, and only the child on the path changes |
| MctsNode.Descend | mcts.py:107-108 | the path ends at a node without children, and every step is the child `selection()` picks at the node reached so far |
| MctsNode.FollowsSelectionStep | mcts.py:107-108 | step `j` of a selection path is `selection()` applied to the node that the first `j` steps reach |
| MctsInvariant.BackpropOk | mcts.py:72-83 | backpropagation keeps the tree invariant, and the root's children's visit sum grows by one |
| MctsInvariant.BackpropPathOnly | mcts.py:79-83 | exactly the nodes on the path from the leaf to the root gain one visit and the value; every other node is unchanged |
| MctsInvariant.ExpansionOk | mcts.py:44-52 | expanding a leaf that has all its moves unexplored keeps the tree invariant |
| MctsInvariant.VisitsDominateChildren | mcts.py:79-83 | a consequence of the tree invariant that backpropagation keeps: at every node reachable from the root, the children's visits add up to at most the node's visits, so no child is visited more often than its parent |
| MctsIteration.PreExpand | mcts.py:97-101 | the root before the loop has one unvisited, childless child per legal move, in move order, and satisfies the root invariant |
| MctsIteration.ExpandLeafOk | mcts.py:114-116 | expanding a visited non-terminal leaf keeps the root invariant and the root's visit counts, and its first new child is a reachable fresh leaf |
| MctsIteration.Iterate | mcts.py:103-120 | one iteration keeps the root invariant, adds one root visit, and never lowers a root child's visits |
| MctsIteration.IterateVisitsFirstUnvisited | mcts.py:104-120 | when the children before `k` are visited and child `k` is not, the iteration visits exactly child `k` |
| MctsIteration.IterateReward | mcts.py:110-120 | the root's wins grow by the raw utility of a terminal selected leaf, or by the reward of a terminal state reachable from the leaf, with a draw counted as 0.5 |
| MctsIteration.IterateExpandsVisitedLeaf | mcts.py:114-117 | a visited non-terminal leaf gets one child per legal move, and only the first of them is visited |
| MctsIteration.IterateKeepsOtherLeaf | mcts.py:111-117 | a terminal or never-visited leaf is not expanded and gains one visit |
| MctsPlayer.FinalMove | mcts.py:122-124 | fails with no children or with an unvisited child (both directions); otherwise returns the move of the first child with the greatest win rate |
| MctsPlayer.Run | mcts.py:103-120 | the tree after any number of iterations from a root that satisfies the root invariant still satisfies it |
| MctsPlayer.RunStep | mcts.py:103-120 | a run of `n + 1` iterations is a run of `n` iterations followed by iteration `n` |
| MctsPlayer.RunStepShape | mcts.py:103-120 | one more iteration adds one visit at the root, keeps its state and number of children, and takes no visit away from any child |
| MctsPlayer.RunStepFirstUnvisited | mcts.py:103-120 | when the root's children before `k` are visited and child `k` is not, the next iteration adds a visit to child `k` and to no other root child |
| MctsPlayer.RunShape | mcts.py:103-120 | after `n` iterations the root has gained `n` visits and kept its state and number of children |
| MctsPlayer.RunFirstVisits | mcts.py:100-120 | from a pre-expanded root with unvisited children, after `n <= |moves|` iterations exactly the first `n` children have one visit each and the rest none |
| MctsPlayer.RunAllVisited | mcts.py:100-120 | from a pre-expanded root with unvisited children, after at least `|moves|` iterations every child has been visited |
| MctsPlayer.Loop | mcts.py:103-120 | the loop's tree after `n` passes is `Run` of its starting tree for `n` iterations, pass `i` drawing its rollout as iteration `i` |
| MctsPlayer.Search | mcts.py:97-120 | the searched root is `Run(PreExpand(t), ...)` for `max(iterations, 0)` iterations; it has one visit per iteration and one child per move; the first `|moves|` iterations visit the root's children in order, once each, and after that every child is visited |
| MctsPlayer.ChooseMove | mcts.py:85-124 | the result is `FinalMove` (the move of the first child with the greatest win rate, or the error) of the tree `Run` builds from `PreExpand(t)` in `max(iterations, 0)` iterations; with moves available a move is returned exactly when `iterations >= |moves|`, and it is legal; otherwise the result is a division by zero, or no children when there is no move |

## Left out

- `main.py` and `manual_player.py` are not part of this model. They hold console input, display and the loop that plays repeated games and collects statistics.
- The concrete games (tic-tac-toe, Reversi) and the random player are not part of this model. Every search works against the generic game tree of `Game`.
- `minimax.py` (plain minimax) is not part of this model. Its value is restated as the reference `MinimaxSpec.Minimax`.
- The UCB1 arithmetic (`c = 1.4`, `log`, `sqrt`, floating point) is not modelled. It is a caller-supplied function `Ucb` of a child's wins and visits and the parent's visits. An unvisited child still scores +infinity, as in the source.
- `random.choice` in the rollout is a caller-supplied function `Rng` of the iteration number and the playout step. The model picks the move it names modulo the number of legal moves.
- Python floats become exact reals for `wins` and win rates, and exact integers for utilities and heuristic values. Rounding is not modelled.
- `MCTSNode.player` is never read by the search and is not modelled. `MCTSNode.game` is not a field: the game is fixed and implicit in the tree value, and its `result`, `terminal_test` and `utility` are `Successor`, the `Terminal?` test and `Utility`. Parent links are implicit in the tree value too.
- The default parameters (`max_depth = 3`, `iterations = 2000`) are not fixed. Every chooser takes them as explicit parameters.
- Whether the game has a heuristic (`hasattr`) is a property of the game, not of a state. It is the boolean `hasHeuristic`.
- A terminal state offers no actions in the model. A chooser called at a terminal root returns no move, which is what the source does when `game.actions` of a terminal state is empty.
- DepthLimited.MaxValue: the depth-limited value functions carry no contract of their own. Everything about them is stated by the `DepthLimitedHorizon` lemmas, which reduce them to the full search.
- AlphaBeta.ChooseMove: the full-search chooser carries no contract of its own. Its properties are the `AlphaBetaChoice` lemmas.
- MctsPlayer.ChooseMove, MctsPlayer.Search and MctsNode.Rollout require the game contract (`Game.WellFormed`: every non-terminal state has a move). The source raises `IndexError` when it reaches a non-terminal state without moves, through `random.choice` of an empty list in the rollout or `children[0]` after an empty expansion. It runs normally when such a state is never reached. These errors are not modelled.
- MctsNode.Reward: the draw-to-0.5 mapping carries no contract of its own. It is stated by `MctsIteration.IterateReward`.
- MctsNode.UcbKey: the +infinity key of an unvisited child carries no contract of its own. It is stated by `MctsNode.Selection`, whose ensures pick the first unvisited child.
- AlphaBeta.RootLoop: the root action loop of the full search carries no contract of its own. It is stated by `AlphaBetaChoice.RootLoopFirstMax`.
- DepthLimited.RootLoop: the root action loop of the depth-limited search carries no contract of its own. It is stated by `DepthLimitedHorizon.RootLoopIsHorizon`.
- DepthLimited.ChooseMove: the depth-limited chooser carries no contract of its own. It is stated by `DepthLimitedHorizon.ChooseMoveIsHorizon`, `DepthLimitedHorizon.LimitedChooseMoveIsFirstMax` and `DepthLimitedHorizon.LimitedAgreesWithFull`.
- That alpha only rises and beta only falls inside a node holds by construction (`max(a, v)`, `min(b, v)`) and is not stated separately.
