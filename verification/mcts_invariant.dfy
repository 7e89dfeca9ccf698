/** The shape and visit-count invariants of an MCTS tree built by
    `mcts_player`, and the node operations that preserve them. */
module MctsInvariant {
  import opened Game
  import opened Optional
  import opened MctsNode

  /** Total visits of a list of children. */
  function SumVisits(cs: seq<Node>): nat {
    if cs == [] then 0 else cs[0].visits + SumVisits(cs[1..])
  }

  /** One node's invariant:
      - its state obeys the game contract;
      - a leaf still lists every legal move as unexplored;
      - once expanded it has exactly one child per legal move, in move order;
      - a child that has never been visited has never been expanded;
      - it has been visited at least as often as all its children together. */
  ghost predicate NodeOk(n: Node) {
    && WellFormed(n.state)
    && (n.children == [] ==> n.unexplored == Moves(n.state))
    && (n.children == [] || |n.children| == NumActions(n.state))
    && (forall k :: 0 <= k < |n.children| ==>
          n.children[k].move == Some(k) && n.children[k].state == Successor(n.state, k))
    && (forall k :: 0 <= k < |n.children| ==> n.children[k].visits == 0 ==> n.children[k].children == [])
    && SumVisits(n.children) <= n.visits
  }

  ghost predicate TreeOk(n: Node)
    decreases n
  {
    NodeOk(n) && forall k :: 0 <= k < |n.children| ==> TreeOk(n.children[k])
  }

  /** The root's invariant: it is expanded whenever its state is not terminal,
      and then its visits are exactly the sum of its children's. */
  ghost predicate RootOk(root: Node) {
    && TreeOk(root)
    && (root.state.Inner? ==> root.children != [])
    && (root.children != [] ==> root.visits == SumVisits(root.children))
  }

  lemma {:induction false} SumVisitsUpdate(cs: seq<Node>, j: nat, c: Node)
    requires j < |cs|
    ensures SumVisits(cs[j := c]) == SumVisits(cs) - cs[j].visits + c.visits
    decreases |cs|
  {
    if j > 0 {
      assert cs[j := c][1..] == cs[1..][j - 1 := c];
      SumVisitsUpdate(cs[1..], j - 1, c);
    }
  }

  lemma {:induction false} SumVisitsZero(cs: seq<Node>)
    requires forall k :: 0 <= k < |cs| ==> cs[k].visits == 0
    ensures SumVisits(cs) == 0
    decreases |cs|
  {
    if cs != [] {
      SumVisitsZero(cs[1..]);
    }
  }

  lemma {:induction false} AtOk(n: Node, path: seq<nat>)
    requires TreeOk(n) && ValidPath(n, path)
    ensures TreeOk(At(n, path))
    decreases |path|
  {
    if path != [] {
      AtOk(n.children[path[0]], path[1..]);
    }
  }

  lemma {:induction false} ValidPathExtend(n: Node, path: seq<nat>, k: nat)
    requires ValidPath(n, path) && k < |At(n, path).children|
    ensures ValidPath(n, path + [k]) && At(n, path + [k]) == At(n, path).children[k]
    decreases |path|
  {
    if path == [] {
      assert [k][1..] == [];
    } else {
      assert (path + [k])[1..] == path[1..] + [k];
      ValidPathExtend(n.children[path[0]], path[1..], k);
    }
  }

  /** Backpropagation keeps the invariant: the node and exactly one child on
      the path each gain one visit. */
  lemma {:induction false} BackpropOk(n: Node, path: seq<nat>, value: real)
    requires TreeOk(n) && ValidPath(n, path)
    ensures TreeOk(Backprop(n, path, value))
    ensures SumVisits(Backprop(n, path, value).children)
            == SumVisits(n.children) + (if path == [] then 0 else 1)
    decreases |path|
  {
    var r := Backprop(n, path, value);
    if path == [] {
      assert r.children == n.children;
    } else {
      var j := path[0];
      BackpropOk(n.children[j], path[1..], value);
      assert r.children == n.children[j := r.children[j]];
      SumVisitsUpdate(n.children, j, r.children[j]);
    }
  }

  /** Backpropagating from a leaf keeps the root invariant. */
  lemma BackpropRootOk(n: Node, path: seq<nat>, value: real)
    requires RootOk(n) && ValidPath(n, path) && At(n, path).children == []
    ensures RootOk(Backprop(n, path, value))
  {
    BackpropOk(n, path, value);
  }

  /** Replacing a node below the root by one with the same state, move and
      (non-zero) visits keeps the invariant and every visit count on the way. */
  lemma {:induction false} ReplaceOk(n: Node, path: seq<nat>, x: Node)
    requires TreeOk(n) && ValidPath(n, path) && path != []
    requires TreeOk(x) && x.visits > 0
    requires x.visits == At(n, path).visits && x.state == At(n, path).state && x.move == At(n, path).move
    ensures TreeOk(Replace(n, path, x))
    ensures SumVisits(Replace(n, path, x).children) == SumVisits(n.children)
    ensures forall j :: 0 <= j < |n.children| ==> Replace(n, path, x).children[j].visits == n.children[j].visits
    decreases |path|
  {
    var r := Replace(n, path, x);
    var j := path[0];
    var c := n.children[j];
    if path[1..] != [] {
      ReplaceOk(c, path[1..], x);
    }
    assert r.children == n.children[j := r.children[j]];
    SumVisitsUpdate(n.children, j, r.children[j]);
  }

  /** Expanding a visited non-terminal leaf yields a valid node with one
      fresh child per legal move. */
  lemma {:induction false} ExpansionOk(leaf: Node)
    requires TreeOk(leaf) && leaf.children == [] && leaf.state.Inner?
    ensures LegalUnexplored(leaf)
    ensures TreeOk(Expansion(leaf)) && Expansion(leaf).children != []
  {
    assert NodeOk(leaf);
    assert leaf.unexplored == Moves(leaf.state);
    var r := Expansion(leaf);
    var n := |leaf.state.kids|;
    assert |r.children| == n > 0;
    forall k | 0 <= k < n
      ensures r.children[k].move == Some(k) && r.children[k].state == Successor(leaf.state, k)
      ensures r.children[k].visits == 0 && r.children[k].children == []
      ensures TreeOk(r.children[k])
    {
      var c := r.children[k];
      assert leaf.unexplored[k] == k;
      assert WellFormed(leaf.state.kids[k]);
      assert NodeOk(c);
    }
    SumVisitsZero(r.children);
    assert NodeOk(r);
  }

  predicate IsPrefix(q: seq<nat>, path: seq<nat>) {
    |q| <= |path| && q == path[..|q|]
  }

  /** Backpropagation changes only the nodes on the path, each by exactly one
      visit and `value` wins; every node off the path is unchanged and the
      tree keeps its shape. */
  lemma {:induction false} BackpropPathOnly(n: Node, path: seq<nat>, value: real, q: seq<nat>)
    requires ValidPath(n, path) && ValidPath(n, q)
    ensures ValidPath(Backprop(n, path, value), q)
    ensures var before := At(n, q);
            var after := At(Backprop(n, path, value), q);
            && after.visits == before.visits + (if IsPrefix(q, path) then 1 else 0)
            && after.wins == before.wins + (if IsPrefix(q, path) then value else 0.0)
            && after.state == before.state && after.move == before.move
            && after.unexplored == before.unexplored && |after.children| == |before.children|
    ensures !IsPrefix(q, path) ==> At(Backprop(n, path, value), q) == At(n, q)
    decreases |q|
  {
    if q != [] {
      var j := q[0];
      if path != [] && path[0] == j {
        assert IsPrefix(q, path) <==> IsPrefix(q[1..], path[1..]);
        BackpropPathOnly(n.children[j], path[1..], value, q[1..]);
      } else {
        assert !IsPrefix(q, path);
      }
    }
  }

  /** At every node of a well-formed search tree the children's visits add
      up to at most the node's own visits, so no child is visited more often
      than its parent. */
  lemma VisitsDominateChildren(root: Node, path: seq<nat>)
    requires RootOk(root) && ValidPath(root, path)
    ensures SumVisits(At(root, path).children) <= At(root, path).visits
    ensures forall j :: 0 <= j < |At(root, path).children| ==>
              At(root, path).children[j].visits <= At(root, path).visits
  {
    AtOk(root, path);
    var n := At(root, path);
    assert NodeOk(n);
    forall j | 0 <= j < |n.children|
      ensures n.children[j].visits <= SumVisits(n.children)
    {
      ChildBelowSum(n.children, j);
    }
  }

  lemma {:induction false} ChildBelowSum(cs: seq<Node>, j: nat)
    requires j < |cs|
    ensures cs[j].visits <= SumVisits(cs)
  {
    if j > 0 {
      ChildBelowSum(cs[1..], j - 1);
    }
  }
}
