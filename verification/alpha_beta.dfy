/** Alpha-beta minimax searched to the terminal states (`minimax_pruning_player`).
    `max_value` / `min_value` thread a fail-soft (alpha, beta) window by value;
    each search also reports how many terminal utilities it evaluated. */
module AlphaBeta {
  import opened ExtInt
  import opened Game
  import opened MinimaxSpec
  import opened Optional

  /** A search result: the returned value and the utility evaluations it cost. */
  datatype Eval = Eval(value: Ext, leaves: nat)

  /** `max_value(state, a, b)`. */
  function MaxValue(t: Tree, p: Player, a: Ext, b: Ext): (r: Eval)
    ensures r.leaves <= LeafCount(t)
    decreases t, 2, 0
  {
    match t
    case Terminal(_, _) => Eval(Fin(Utility(t, p)), 1)
    case Inner(_, _, _) => MaxLoop(t, p, 0, NegInf, a, b)
  }

  /** The action loop of `max_value` from child `i` on, with running value `v`
      and the current alpha `a`: stop as soon as `v >= b`, otherwise raise alpha. */
  function MaxLoop(t: Tree, p: Player, i: nat, v: Ext, a: Ext, b: Ext): (r: Eval)
    requires t.Inner? && i <= |t.kids|
    ensures r.leaves <= LeafCountFrom(t, i)
    decreases t, 1, |t.kids| - i
  {
    if i == |t.kids| then Eval(v, 0)
    else
      var c := MinValue(t.kids[i], p, a, b);
      var v' := Max(v, c.value);
      if Le(b, v') then Eval(v', c.leaves)
      else
        var rest := MaxLoop(t, p, i + 1, v', Max(a, v'), b);
        Eval(rest.value, c.leaves + rest.leaves)
  }

  /** `min_value(state, a, b)`. */
  function MinValue(t: Tree, p: Player, a: Ext, b: Ext): (r: Eval)
    ensures r.leaves <= LeafCount(t)
    decreases t, 2, 0
  {
    match t
    case Terminal(_, _) => Eval(Fin(Utility(t, p)), 1)
    case Inner(_, _, _) => MinLoop(t, p, 0, PosInf, a, b)
  }

  /** The action loop of `min_value`: stop as soon as `v <= a`, otherwise lower beta. */
  function MinLoop(t: Tree, p: Player, i: nat, v: Ext, a: Ext, b: Ext): (r: Eval)
    requires t.Inner? && i <= |t.kids|
    ensures r.leaves <= LeafCountFrom(t, i)
    decreases t, 1, |t.kids| - i
  {
    if i == |t.kids| then Eval(v, 0)
    else
      var c := MaxValue(t.kids[i], p, a, b);
      var v' := Min(v, c.value);
      if Le(v', a) then Eval(v', c.leaves)
      else
        var rest := MinLoop(t, p, i + 1, v', a, Min(b, v'));
        Eval(rest.value, c.leaves + rest.leaves)
  }

  /** `minimax_pruning_player(game, state)`: the root player is fixed once as
      the player to move at the root; None when the root offers no action. */
  function ChooseMove(t: Tree): Option<nat> {
    match t
    case Terminal(_, _) => None
    case Inner(p, _, _) => RootLoop(t, p, 0, NegInf, NegInf, None)
  }

  /** The root action loop: keep the first action with a strictly greater
      value, and raise alpha to the best value after every action. */
  function RootLoop(t: Tree, p: Player, i: nat, v: Ext, a: Ext, best: Option<nat>): Option<nat>
    requires t.Inner? && i <= |t.kids|
    decreases |t.kids| - i
  {
    if i == |t.kids| then best
    else
      var av := MinValue(t.kids[i], p, a, PosInf).value;
      if Lt(v, av) then RootLoop(t, p, i + 1, av, Max(a, av), Some(i))
      else RootLoop(t, p, i + 1, v, Max(a, v), best)
  }
}
