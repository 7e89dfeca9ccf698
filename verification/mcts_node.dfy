/** The MCTS search node (`MCTSNode`) as an immutable value.  A node owns its
    children; the parent link of the source is implicit: a node's parent is the
    node whose `children` hold it, and a position in the tree is the path of
    child indices from the root. */
module MctsNode {
  import opened Game
  import opened Optional

  /** The UCB1 score of a visited child from (wins, visits, parent visits).
      The floating-point formula is not modelled, only that it is a function
      of these three numbers. */
  type Ucb = (real, nat, nat) -> real

  /** The rollout's random source: `rng(iteration, step)` picks, modulo the
      number of legal moves, the move `random.choice` would return. */
  type Rng = (nat, nat) -> nat

  datatype Node = Node(state: Tree, move: Option<nat>, visits: nat, wins: real,
                       unexplored: seq<nat>, children: seq<Node>)

  /** `MCTSNode(game, state, parent, move)`. */
  function NewNode(state: Tree, move: Option<nat>): (n: Node)
    ensures n.state == state && n.move == move
    ensures n.visits == 0 && n.wins == 0.0 && n.children == []
    ensures |n.unexplored| == NumActions(state)
    ensures forall k :: 0 <= k < |n.unexplored| ==> n.unexplored[k] == k
  {
    Node(state, move, 0, 0.0, Moves(state), [])
  }

  /** Every unexplored move is a legal action of the node's state. */
  predicate LegalUnexplored(n: Node) {
    forall k :: 0 <= k < |n.unexplored| ==> n.unexplored[k] < NumActions(n.state)
  }

  /** `expansion()`: one new child per unexplored move, in order, appended
      after the existing children; the unexplored list is then emptied. */
  function Expansion(n: Node): (r: Node)
    requires LegalUnexplored(n)
    ensures r.state == n.state && r.move == n.move && r.visits == n.visits && r.wins == n.wins
    ensures r.unexplored == []
    ensures |r.children| == |n.children| + |n.unexplored|
    ensures forall j :: 0 <= j < |n.children| ==> r.children[j] == n.children[j]
    ensures forall k :: 0 <= k < |n.unexplored| ==>
              var c := r.children[|n.children| + k];
              && c.move == Some(n.unexplored[k])
              && c.state == Successor(n.state, n.unexplored[k])
              && c.visits == 0 && c.wins == 0.0 && c.children == []
              && c.unexplored == Moves(c.state)
  {
    var added := seq(|n.unexplored|, k requires 0 <= k < |n.unexplored| =>
                       NewNode(Successor(n.state, n.unexplored[k]), Some(n.unexplored[k])));
    n.(children := n.children + added, unexplored := [])
  }

  /** A selection key: an unvisited child scores +inf. */
  datatype Key = Finite(x: real) | Infinite

  predicate KeyLt(x: Key, y: Key) {
    (x.Finite? && y.Infinite?) || (x.Finite? && y.Finite? && x.x < y.x)
  }

  /** `k` is the first of the first `n` keys holding their maximum. */
  predicate IsFirstMaxKey(keys: seq<Key>, n: nat, k: nat) {
    && k < n <= |keys|
    && (forall j :: 0 <= j < n ==> !KeyLt(keys[k], keys[j]))
    && (forall j :: 0 <= j < k ==> KeyLt(keys[j], keys[k]))
  }

  /** Python's `max(items, key=...)` scanning from `i`: the first maximum wins,
      a later item replaces it only when strictly greater. */
  function ArgMax(keys: seq<Key>, i: nat, best: nat): (r: nat)
    requires best < i <= |keys| && IsFirstMaxKey(keys, i, best)
    ensures IsFirstMaxKey(keys, |keys|, r)
    decreases |keys| - i
  {
    if i == |keys| then best
    else if KeyLt(keys[best], keys[i]) then ArgMax(keys, i + 1, i)
    else ArgMax(keys, i + 1, best)
  }

  /** `ucb1(child)`. */
  function UcbKey(c: Node, parentVisits: nat, ucb: Ucb): Key {
    if c.visits == 0 then Infinite else Finite(ucb(c.wins, c.visits, parentVisits))
  }

  function UcbKeys(n: Node, ucb: Ucb): (keys: seq<Key>)
    ensures |keys| == |n.children|
  {
    seq(|n.children|, j requires 0 <= j < |n.children| => UcbKey(n.children[j], n.visits, ucb))
  }

  /** `selection()`: the first unvisited child when there is one, otherwise
      the first child with the greatest UCB1 score. */
  function Selection(n: Node, ucb: Ucb): (r: nat)
    requires |n.children| > 0
    ensures r < |n.children|
    ensures (exists j :: 0 <= j < |n.children| && n.children[j].visits == 0) ==>
              n.children[r].visits == 0 && forall j :: 0 <= j < r ==> n.children[j].visits > 0
    ensures (forall j :: 0 <= j < |n.children| ==> n.children[j].visits > 0) ==>
              && (forall j :: 0 <= j < |n.children| ==>
                    ucb(n.children[j].wins, n.children[j].visits, n.visits)
                    <= ucb(n.children[r].wins, n.children[r].visits, n.visits))
              && (forall j :: 0 <= j < r ==>
                    ucb(n.children[j].wins, n.children[j].visits, n.visits)
                    < ucb(n.children[r].wins, n.children[r].visits, n.visits))
  {
    var keys := UcbKeys(n, ucb);
    var r := ArgMax(keys, 1, 0);
    assert forall j :: 0 <= j < |n.children| ==> keys[j] == UcbKey(n.children[j], n.visits, ucb);
    r
  }

  /** Some terminal state below `t` is worth `u` to player `p`. */
  ghost predicate Reaches(t: Tree, p: Player, u: int)
    decreases t
  {
    match t
    case Terminal(_, _) => Utility(t, p) == u
    case Inner(_, _, kids) => exists k :: 0 <= k < |kids| && Reaches(kids[k], p, u)
  }

  /** The random playout of `rollout()`: follow the chosen legal moves until a
      terminal state and return its utility for `p`. */
  function Rollout(t: Tree, p: Player, rng: Rng, iteration: nat, step: nat): (u: int)
    requires WellFormed(t)
    ensures Reaches(t, p, u)
    decreases t
  {
    match t
    case Terminal(_, _) => Utility(t, p)
    case Inner(_, _, kids) =>
      var k := rng(iteration, step) % |kids|;
      var u := Rollout(kids[k], p, rng, iteration, step + 1);
      assert Reaches(kids[k], p, u);
      u
  }

  /** The reward `rollout()` returns: a draw (utility 0) counts 0.5, any other
      utility passes through unchanged. */
  function Reward(u: int): real {
    if u != 0 then u as real else 0.5
  }

  /** `path` leads from `n` through existing children. */
  predicate ValidPath(n: Node, path: seq<nat>)
    decreases |path|
  {
    path == [] || (path[0] < |n.children| && ValidPath(n.children[path[0]], path[1..]))
  }

  /** The node at the end of `path`. */
  function At(n: Node, path: seq<nat>): Node
    requires ValidPath(n, path)
    decreases |path|
  {
    if path == [] then n else At(n.children[path[0]], path[1..])
  }

  /** The tree with the node at the end of `path` replaced by `x`. */
  function Replace(n: Node, path: seq<nat>, x: Node): (r: Node)
    requires ValidPath(n, path)
    ensures ValidPath(r, path) && At(r, path) == x
    ensures path != [] ==>
              && r.state == n.state && r.move == n.move && r.visits == n.visits && r.wins == n.wins
              && r.unexplored == n.unexplored && |r.children| == |n.children|
              && forall j :: 0 <= j < |n.children| && j != path[0] ==> r.children[j] == n.children[j]
    decreases |path|
  {
    if path == [] then x
    else
      var c := Replace(n.children[path[0]], path[1..], x);
      var r := n.(children := n.children[path[0] := c]);
      assert r.children[path[0]] == c;
      r
  }

  /** `backpropagation(value)` from the node at the end of `path`: every node
      from there up to the root gains one visit and `value` in wins. */
  function Backprop(n: Node, path: seq<nat>, value: real): (r: Node)
    requires ValidPath(n, path)
    ensures r.visits == n.visits + 1 && r.wins == n.wins + value
    ensures r.state == n.state && r.move == n.move && r.unexplored == n.unexplored
    ensures |r.children| == |n.children|
    ensures forall j :: 0 <= j < |n.children| && (path == [] || j != path[0]) ==> r.children[j] == n.children[j]
    ensures path != [] ==> r.children[path[0]].visits == n.children[path[0]].visits + 1
    decreases |path|
  {
    if path == [] then n.(visits := n.visits + 1, wins := n.wins + value)
    else
      var c := Backprop(n.children[path[0]], path[1..], value);
      n.(visits := n.visits + 1, wins := n.wins + value, children := n.children[path[0] := c])
  }

  /** `path` is what repeated `selection()` produces: at every node it passes
      through, the next step is the child `selection()` picks there, and it
      stops exactly at the first node without children. */
  predicate FollowsSelection(n: Node, path: seq<nat>, ucb: Ucb)
    decreases |path|
  {
    if path == [] then n.children == []
    else n.children != [] && path[0] == Selection(n, ucb)
         && FollowsSelection(n.children[path[0]], path[1..], ucb)
  }

  /** The selection phase of an iteration: descend by `selection()` while the
      current node has children. */
  function Descend(n: Node, ucb: Ucb): (path: seq<nat>)
    ensures ValidPath(n, path) && At(n, path).children == []
    ensures FollowsSelection(n, path, ucb)
    decreases n
  {
    if n.children == [] then []
    else
      var i := Selection(n, ucb);
      var rest := Descend(n.children[i], ucb);
      assert ([i] + rest)[1..] == rest;
      [i] + rest
  }

  /** Step `j` of a selection path is `selection()` at the node that the
      first `j` steps reach. */
  lemma {:induction false} FollowsSelectionStep(n: Node, path: seq<nat>, ucb: Ucb, j: nat)
    requires FollowsSelection(n, path, ucb) && j < |path|
    ensures ValidPath(n, path[..j]) && At(n, path[..j]).children != []
    ensures path[j] == Selection(At(n, path[..j]), ucb)
    decreases j
  {
    if j == 0 {
      assert path[..0] == [];
    } else {
      FollowsSelectionStep(n.children[path[0]], path[1..], ucb, j - 1);
      assert path[..j][0] == path[0] && path[..j][1..] == path[1..][..j - 1];
    }
  }
}
