/** `mcts_player(game, state, iterations)`: pre-expand the root, run the
    iterations, and choose the root child with the best win rate. */
module MctsPlayer {
  import opened Game
  import opened Optional
  import opened MctsNode
  import opened MctsInvariant
  import opened MctsIteration

  /** Python's errors on the final choice: `max` of an empty child list, or a
      win rate of a child that was never visited. */
  datatype Failure = NoChildren | ZeroDivision

  datatype Outcome<T> = Ok(value: T) | Err(failure: Failure)

  /** The win rate `wins / visits` of each (visited) child. */
  function WinRates(cs: seq<Node>): (keys: seq<Key>)
    requires forall j :: 0 <= j < |cs| ==> cs[j].visits > 0
    ensures |keys| == |cs|
  {
    seq(|cs|, j requires 0 <= j < |cs| => Finite(cs[j].wins / (cs[j].visits as real)))
  }

  /** `max(root.children, key=lambda child: child.wins / child.visits).move`. */
  function FinalMove(root: Node): (r: Outcome<Option<nat>>)
    ensures r == Err(NoChildren) <==> root.children == []
    ensures r == Err(ZeroDivision) <==>
              root.children != [] && exists j :: 0 <= j < |root.children| && root.children[j].visits == 0
    ensures r.Ok? ==> exists k :: 0 <= k < |root.children| && IsFirstMaxKey(WinRates(root.children), |root.children|, k)
                                  && r.value == root.children[k].move
  {
    if root.children == [] then Err(NoChildren)
    else if exists j :: 0 <= j < |root.children| && root.children[j].visits == 0 then Err(ZeroDivision)
    else
      var k := ArgMax(WinRates(root.children), 1, 0);
      Ok(root.children[k].move)
  }

  /** Number of passes of `for _ in range(iterations)`. */
  function Rounds(iterations: int): nat {
    if iterations < 0 then 0 else iterations
  }

  /** The tree after the first `n` iterations of the main loop from `root`;
      iteration `i` (counting from 0) draws its rollout moves as iteration `i`.
      The definition is split over `Run`, `Iterated` and `Step` so that a proof
      about a run meets the body of `Iterate` only through `RunStep`. */
  ghost function Run(root: Node, p: Player, ucb: Ucb, rng: Rng, n: nat): (r: Node)
    requires RootOk(root)
    ensures RootOk(r)
    decreases n, 2
  {
    if n == 0 then root else Iterated(root, p, ucb, rng, n)
  }

  /** `Run` for at least one iteration. */
  ghost function Iterated(root: Node, p: Player, ucb: Ucb, rng: Rng, n: nat): (r: Node)
    requires RootOk(root) && n > 0
    ensures RootOk(r)
    decreases n, 1
  {
    Step(root, p, ucb, rng, n)
  }

  /** Iteration `n - 1` applied to the tree the iterations before it built. */
  ghost function Step(root: Node, p: Player, ucb: Ucb, rng: Rng, n: nat): (r: Node)
    requires RootOk(root) && n > 0
    ensures RootOk(r)
    decreases n, 0
  {
    Iterate(Run(root, p, ucb, rng, n - 1), p, ucb, rng, n - 1)
  }

  /** A run of `n + 1` iterations is a run of `n` followed by iteration `n`. */
  lemma RunStep(root0: Node, p: Player, ucb: Ucb, rng: Rng, n: nat)
    requires RootOk(root0)
    ensures Run(root0, p, ucb, rng, n + 1) == Iterate(Run(root0, p, ucb, rng, n), p, ucb, rng, n)
  {
    assert Run(root0, p, ucb, rng, n + 1) == Iterated(root0, p, ucb, rng, n + 1);
    assert Iterated(root0, p, ucb, rng, n + 1) == Step(root0, p, ucb, rng, n + 1);
  }

  /** Iteration `n` adds one visit at the root, keeps its state and its
      number of children, and takes no visit away from a child. */
  lemma RunStepShape(root0: Node, p: Player, ucb: Ucb, rng: Rng, n: nat)
    requires RootOk(root0)
    ensures var prev := Run(root0, p, ucb, rng, n);
            var next := Run(root0, p, ucb, rng, n + 1);
            && next.visits == prev.visits + 1 && next.state == prev.state
            && |next.children| == |prev.children|
            && forall j :: 0 <= j < |prev.children| ==> prev.children[j].visits <= next.children[j].visits
  {
    RunStep(root0, p, ucb, rng, n);
  }

  /** Iteration `n` visits the first unvisited child `k` of the root when the
      children before it are all visited. */
  lemma RunStepFirstUnvisited(root0: Node, p: Player, ucb: Ucb, rng: Rng, n: nat, k: nat)
    requires RootOk(root0)
    requires var prev := Run(root0, p, ucb, rng, n);
             k < |prev.children| && prev.children[k].visits == 0
             && forall j :: 0 <= j < k ==> prev.children[j].visits > 0
    ensures |Run(root0, p, ucb, rng, n + 1).children| == |Run(root0, p, ucb, rng, n).children|
    ensures var prev := Run(root0, p, ucb, rng, n);
            var next := Run(root0, p, ucb, rng, n + 1);
            forall j :: 0 <= j < |prev.children| ==>
              next.children[j].visits == prev.children[j].visits + (if j == k then 1 else 0)
  {
    RunStep(root0, p, ucb, rng, n);
    IterateVisitsFirstUnvisited(Run(root0, p, ucb, rng, n), p, ucb, rng, n, k);
  }

  /** Each iteration adds one visit at the root and keeps its state and its
      number of children. */
  lemma {:induction false} RunShape(root0: Node, p: Player, ucb: Ucb, rng: Rng, n: nat)
    requires RootOk(root0)
    ensures var root := Run(root0, p, ucb, rng, n);
            root.state == root0.state && root.visits == root0.visits + n && |root.children| == |root0.children|
  {
    if n > 0 {
      RunShape(root0, p, ucb, rng, n - 1);
      RunStepShape(root0, p, ucb, rng, n - 1);
    }
  }

  /** From a root whose children are all unvisited, the first |children|
      iterations visit the children in order, each exactly once. */
  lemma {:induction false} RunFirstVisits(root0: Node, p: Player, ucb: Ucb, rng: Rng, n: nat)
    requires RootOk(root0) && n <= |root0.children|
    requires forall j :: 0 <= j < |root0.children| ==> root0.children[j].visits == 0
    ensures |Run(root0, p, ucb, rng, n).children| == |root0.children|
    ensures forall j :: 0 <= j < |root0.children| ==>
              Run(root0, p, ucb, rng, n).children[j].visits == (if j < n then 1 else 0)
  {
    RunShape(root0, p, ucb, rng, n);
    if n > 0 {
      RunFirstVisits(root0, p, ucb, rng, n - 1);
      RunStepFirstUnvisited(root0, p, ucb, rng, n - 1, n - 1);
    }
  }

  /** From a root whose children are all unvisited, every child has been
      visited once there have been at least |children| iterations. */
  lemma {:induction false} RunAllVisited(root0: Node, p: Player, ucb: Ucb, rng: Rng, n: nat)
    requires RootOk(root0) && n >= |root0.children|
    requires forall j :: 0 <= j < |root0.children| ==> root0.children[j].visits == 0
    ensures |Run(root0, p, ucb, rng, n).children| == |root0.children|
    ensures forall j :: 0 <= j < |root0.children| ==> Run(root0, p, ucb, rng, n).children[j].visits > 0
  {
    RunShape(root0, p, ucb, rng, n);
    if n == |root0.children| {
      RunFirstVisits(root0, p, ucb, rng, n);
    } else {
      RunAllVisited(root0, p, ucb, rng, n - 1);
      RunStepShape(root0, p, ucb, rng, n - 1);
    }
  }

  /** The iteration loop of `mcts_player`: `n` iterations from `root0`. */
  method Loop(root0: Node, player: Player, ucb: Ucb, rng: Rng, n: nat) returns (root: Node)
    requires RootOk(root0)
    ensures root == Run(root0, player, ucb, rng, n)
  {
    root := root0;
    var i := 0;
    while i < n
      invariant 0 <= i <= n
      invariant root == Run(root0, player, ucb, rng, i)
    {
      RunStep(root0, player, ucb, rng, i);
      root := Iterate(root, player, ucb, rng, i);
      i := i + 1;
    }
  }

  /** The search of `mcts_player`: pre-expand the root, then run
      `Rounds(iterations)` iterations. */
  method Search(t: Tree, iterations: int, ucb: Ucb, rng: Rng) returns (root: Node)
    requires WellFormed(t)
    ensures root == Run(PreExpand(t), t.toMove, ucb, rng, Rounds(iterations))
    ensures RootOk(root) && root.state == t && root.visits == Rounds(iterations)
    ensures |root.children| == NumActions(t)
    ensures Rounds(iterations) <= NumActions(t) ==>
              forall j :: 0 <= j < NumActions(t) ==>
                root.children[j].visits == (if j < Rounds(iterations) then 1 else 0)
    ensures Rounds(iterations) >= NumActions(t) ==>
              forall j :: 0 <= j < NumActions(t) ==> root.children[j].visits > 0
  {
    root := Loop(PreExpand(t), t.toMove, ucb, rng, Rounds(iterations));
    RunShape(PreExpand(t), t.toMove, ucb, rng, Rounds(iterations));
    if Rounds(iterations) <= NumActions(t) {
      RunFirstVisits(PreExpand(t), t.toMove, ucb, rng, Rounds(iterations));
    }
    if Rounds(iterations) >= NumActions(t) {
      RunAllVisited(PreExpand(t), t.toMove, ucb, rng, Rounds(iterations));
    }
  }

  /** `mcts_player(game, state, iterations)`.  The move is defined exactly when
      every root child was visited, i.e. when the root has moves and there were
      at least as many iterations as moves; otherwise the win rate divides by
      zero, or `max` sees no children at all. */
  method ChooseMove(t: Tree, iterations: int, ucb: Ucb, rng: Rng) returns (r: Outcome<Option<nat>>)
    requires WellFormed(t)
    ensures NumActions(t) == 0 ==> r == Err(NoChildren)
    ensures 0 < NumActions(t) ==> (r.Ok? <==> iterations >= NumActions(t))
    ensures 0 < NumActions(t) && iterations < NumActions(t) ==> r == Err(ZeroDivision)
    ensures r.Ok? ==> exists k :: 0 <= k < NumActions(t) && r.value == Some(k)
    ensures r == FinalMove(Run(PreExpand(t), t.toMove, ucb, rng, Rounds(iterations)))
  {
    var root := Search(t, iterations, ucb, rng);
    assert NodeOk(root);
    if 0 < NumActions(t) && Rounds(iterations) < NumActions(t) {
      assert root.children[Rounds(iterations)].visits == 0;
    }
    r := FinalMove(root);
  }
}
