/** One iteration of `mcts_player`'s main loop (selection, expansion,
    rollout, backpropagation) and the root pre-expansion before the loop. */
module MctsIteration {
  import opened Game
  import opened Optional
  import opened MctsNode
  import opened MctsInvariant

  lemma PreExpandOk(t: Tree, kids: seq<Node>)
    requires WellFormed(t)
    requires |kids| == NumActions(t)
    requires forall k :: 0 <= k < |kids| ==> kids[k] == NewNode(Successor(t, k), Some(k))
    ensures RootOk(NewNode(t, None).(children := kids))
  {
    var root := NewNode(t, None).(children := kids);
    forall k | 0 <= k < |kids|
      ensures TreeOk(kids[k])
    {
      assert WellFormed(t.kids[k]);
      SumVisitsZero(kids[k].children);
    }
    SumVisitsZero(kids);
    assert NodeOk(root);
  }

  /** The root before the first iteration: one unvisited child per legal move,
      in move order.  The root's own unexplored list is not cleared. */
  function PreExpand(t: Tree): (root: Node)
    requires WellFormed(t)
    ensures RootOk(root)
    ensures root.state == t && root.move == None && root.visits == 0 && root.wins == 0.0
    ensures root.unexplored == Moves(t)
    ensures |root.children| == NumActions(t)
    ensures forall k :: 0 <= k < |root.children| ==>
              && root.children[k].move == Some(k) && root.children[k].state == Successor(t, k)
              && root.children[k].visits == 0 && root.children[k].wins == 0.0
              && root.children[k].children == []
  {
    var kids := seq(NumActions(t), k requires 0 <= k < NumActions(t) => NewNode(Successor(t, k), Some(k)));
    PreExpandOk(t, kids);
    NewNode(t, None).(children := kids)
  }

  /** Expanding the visited non-terminal leaf at the end of `path` keeps the
      root invariant and makes its first new child a reachable fresh leaf. */
  lemma {:induction false} ExpandLeafOk(root: Node, path: seq<nat>)
    requires RootOk(root) && ValidPath(root, path)
    requires At(root, path).children == [] && At(root, path).state.Inner? && At(root, path).visits > 0
    ensures LegalUnexplored(At(root, path))
    ensures var grown := Replace(root, path, Expansion(At(root, path)));
            && RootOk(grown)
            && grown.visits == root.visits && grown.wins == root.wins && grown.state == root.state
            && |grown.children| == |root.children|
            && (forall j :: 0 <= j < |root.children| ==> grown.children[j].visits == root.children[j].visits)
            && ValidPath(grown, path + [0])
            && At(grown, path + [0]).children == []
            && |At(root, path).state.kids| > 0
            && At(grown, path + [0]).state == At(root, path).state.kids[0]
            && WellFormed(At(grown, path + [0]).state)
  {
    var leaf := At(root, path);
    AtOk(root, path);
    ExpansionOk(leaf);
    var x := Expansion(leaf);
    assert path != [];
    ReplaceOk(root, path, x);
    var grown := Replace(root, path, x);
    ValidPathExtend(grown, path, 0);
    AtOk(grown, path + [0]);
  }

  /** One iteration of the main loop.  The reward is the raw utility when the
      selected leaf is terminal, and the rollout's reward (draw = 0.5)
      otherwise; a leaf is expanded only when it is non-terminal and has been
      visited before, and then its first new child is evaluated. */
  function Iterate(root: Node, p: Player, ucb: Ucb, rng: Rng, iteration: nat): (r: Node)
    requires RootOk(root)
    ensures RootOk(r)
    ensures r.visits == root.visits + 1 && r.state == root.state
    ensures |r.children| == |root.children|
    ensures forall j :: 0 <= j < |root.children| ==> root.children[j].visits <= r.children[j].visits
  {
    var path := Descend(root, ucb);
    var leaf := At(root, path);
    AtOk(root, path);
    if leaf.state.Terminal? then
      var value := Utility(leaf.state, p) as real;
      BackpropRootOk(root, path, value);
      Backprop(root, path, value)
    else if leaf.visits > 0 then
      ExpandLeafOk(root, path);
      var grown := Replace(root, path, Expansion(leaf));
      var child := At(grown, path + [0]);
      var value := Reward(Rollout(child.state, p, rng, iteration, 0));
      BackpropRootOk(grown, path + [0], value);
      Backprop(grown, path + [0], value)
    else
      var value := Reward(Rollout(leaf.state, p, rng, iteration, 0));
      BackpropRootOk(root, path, value);
      Backprop(root, path, value)
  }

  /** An iteration whose root has an unvisited child `k` after visited
      children `0 .. k-1` evaluates exactly child `k`. */
  lemma IterateVisitsFirstUnvisited(root: Node, p: Player, ucb: Ucb, rng: Rng, iteration: nat, k: nat)
    requires RootOk(root) && k < |root.children| && root.children[k].visits == 0
    requires forall j :: 0 <= j < k ==> root.children[j].visits > 0
    ensures forall j :: 0 <= j < |root.children| ==>
              Iterate(root, p, ucb, rng, iteration).children[j].visits
              == root.children[j].visits + (if j == k then 1 else 0)
  {
    assert NodeOk(root);
    var path := Descend(root, ucb);
    assert path[0] == k;
    assert root.children[k].children == [];
    assert path == [k];
  }

  /** The reward one iteration adds at the root: the raw utility when the
      selected leaf is terminal (a draw adds 0), otherwise the rollout reward of
      some terminal state below the leaf, with a draw counted as 0.5. */
  lemma IterateReward(root: Node, p: Player, ucb: Ucb, rng: Rng, iteration: nat)
    requires RootOk(root)
    ensures var leaf := At(root, Descend(root, ucb));
            var r := Iterate(root, p, ucb, rng, iteration);
            && (leaf.state.Terminal? ==> r.wins == root.wins + Utility(leaf.state, p) as real)
            && (leaf.state.Inner? ==> exists u :: Reaches(leaf.state, p, u) && r.wins == root.wins + Reward(u))
  {
    var path := Descend(root, ucb);
    var leaf := At(root, path);
    AtOk(root, path);
    if leaf.state.Inner? {
      if leaf.visits > 0 {
        ExpandLeafOk(root, path);
        var grown := Replace(root, path, Expansion(leaf));
        var child := At(grown, path + [0]);
        var u := Rollout(child.state, p, rng, iteration, 0);
        assert Reaches(leaf.state.kids[0], p, u);
        assert Reaches(leaf.state, p, u);
      } else {
        var u := Rollout(leaf.state, p, rng, iteration, 0);
        assert Reaches(leaf.state, p, u);
      }
    }
  }

  /** Backpropagating through the first child of the node at `path` adds one
      visit to that node and to its first child, and none to its siblings. */
  lemma BackpropFirstChild(n: Node, path: seq<nat>, value: real)
    requires ValidPath(n, path) && |At(n, path).children| > 0
    ensures ValidPath(n, path + [0])
    ensures var r := Backprop(n, path + [0], value);
            && ValidPath(r, path)
            && At(r, path).visits == At(n, path).visits + 1
            && |At(r, path).children| == |At(n, path).children|
            && forall k :: 0 <= k < |At(n, path).children| ==>
                 && ValidPath(r, path + [k])
                 && At(r, path + [k]).visits == At(n, path).children[k].visits + (if k == 0 then 1 else 0)
  {
    ValidPathExtend(n, path, 0);
    var r := Backprop(n, path + [0], value);
    assert IsPrefix(path, path + [0]) by {
      assert (path + [0])[..|path|] == path;
    }
    BackpropPathOnly(n, path + [0], value, path);
    forall k | 0 <= k < |At(n, path).children|
      ensures ValidPath(r, path + [k])
      ensures At(r, path + [k]).visits == At(n, path).children[k].visits + (if k == 0 then 1 else 0)
    {
      ValidPathExtend(n, path, k);
      assert IsPrefix(path + [k], path + [0]) <==> k == 0 by {
        assert (path + [k])[|path|] == k;
        assert (path + [0])[..|path| + 1] == path + [0];
      }
      BackpropPathOnly(n, path + [0], value, path + [k]);
    }
  }

  /** A selected leaf that is non-terminal and was visited before is expanded:
      it gets one child per legal move, and only the first new child is
      evaluated. */
  lemma {:induction false} IterateExpandsVisitedLeaf(root: Node, p: Player, ucb: Ucb, rng: Rng, iteration: nat)
    requires RootOk(root)
    requires At(root, Descend(root, ucb)).state.Inner? && At(root, Descend(root, ucb)).visits > 0
    ensures var path := Descend(root, ucb);
            var leaf := At(root, path);
            var r := Iterate(root, p, ucb, rng, iteration);
            && ValidPath(r, path)
            && |At(r, path).children| == NumActions(leaf.state)
            && At(r, path).visits == leaf.visits + 1
            && forall k :: 0 <= k < NumActions(leaf.state) ==>
                 ValidPath(r, path + [k]) && At(r, path + [k]).visits == (if k == 0 then 1 else 0)
  {
    var path := Descend(root, ucb);
    var leaf := At(root, path);
    AtOk(root, path);
    ExpandLeafOk(root, path);
    assert NodeOk(leaf);
    var x := Expansion(leaf);
    var grown := Replace(root, path, x);
    assert At(grown, path) == x;
    var child := At(grown, path + [0]);
    var value := Reward(Rollout(child.state, p, rng, iteration, 0));
    assert Iterate(root, p, ucb, rng, iteration) == Backprop(grown, path + [0], value);
    BackpropFirstChild(grown, path, value);
  }

  /** Any other selected leaf (terminal, or never visited) is not expanded:
      it stays a leaf and is itself evaluated. */
  lemma {:induction false} IterateKeepsOtherLeaf(root: Node, p: Player, ucb: Ucb, rng: Rng, iteration: nat)
    requires RootOk(root)
    requires At(root, Descend(root, ucb)).state.Terminal? || At(root, Descend(root, ucb)).visits == 0
    ensures var path := Descend(root, ucb);
            var r := Iterate(root, p, ucb, rng, iteration);
            && ValidPath(r, path)
            && At(r, path).children == []
            && At(r, path).visits == At(root, path).visits + 1
  {
    var path := Descend(root, ucb);
    var leaf := At(root, path);
    AtOk(root, path);
    var value := if leaf.state.Terminal? then Utility(leaf.state, p) as real
                 else Reward(Rollout(leaf.state, p, rng, iteration, 0));
    assert Iterate(root, p, ucb, rng, iteration) == Backprop(root, path, value);
    assert IsPrefix(path, path);
    BackpropPathOnly(root, path, value, path);
  }
}
