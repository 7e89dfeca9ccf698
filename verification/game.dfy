/** The abstract game every search works against, as a finite game tree.
    A state is a subtree; its actions are the indices of its children. */
module Game {

  datatype Player = First | Second

  /** `u` is the utility of a terminal state for player First; the game is
      zero-sum, so Second's utility is `-u`.  `h` is the value the game's
      optional heuristic would report for a non-terminal state. */
  datatype Tree =
    | Terminal(toMove: Player, u: int)
    | Inner(toMove: Player, h: int, kids: seq<Tree>)

  /** `game.utility(state, player)`, defined at terminal states only. */
  function Utility(t: Tree, p: Player): int
    requires t.Terminal?
  {
    if p == First then t.u else -t.u
  }

  /** Number of legal actions; a terminal state offers none. */
  function NumActions(t: Tree): nat {
    if t.Terminal? then 0 else |t.kids|
  }

  /** `state.moves` / `game.actions(state)`: every legal action, in order. */
  function Moves(t: Tree): (ms: seq<nat>)
    ensures |ms| == NumActions(t)
    ensures forall k :: 0 <= k < |ms| ==> ms[k] == k
  {
    seq(NumActions(t), k => k)
  }

  /** `game.result(state, action)`. */
  function Successor(t: Tree, m: nat): Tree
    requires m < NumActions(t)
  {
    t.kids[m]
  }

  /** The game contract: every non-terminal state has at least one action. */
  predicate WellFormed(t: Tree) {
    match t
    case Terminal(_, _) => true
    case Inner(_, _, kids) =>
      |kids| > 0 && forall k :: 0 <= k < |kids| ==> WellFormed(kids[k])
  }
}
