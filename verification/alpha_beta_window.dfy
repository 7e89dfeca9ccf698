/** Correctness of `minimax_pruning_player`: the fail-soft window property of
    `max_value` / `min_value`, exactness under the full window, and the root
    loop's choice of the first minimax-optimal action. */
module AlphaBetaWindow {
  import opened ExtInt
  import opened Game
  import opened MinimaxSpec
  import opened Optional
  import opened AlphaBeta

  /** Knuth-Moore for max nodes: for a < b the result is fail-soft with
      respect to the true minimax value. */
  lemma {:induction false} MaxValueWindow(t: Tree, p: Player, a: Ext, b: Ext)
    requires Lt(a, b)
    ensures FailSoft(MaxValue(t, p, a, b).value, Minimax(t, p, true), a, b)
    decreases t, 2, 0
  {
    match t
    case Terminal(_, _) =>
    case Inner(_, _, _) =>
      MaxLoopWindow(t, p, 0, NegInf, a, a, b);
  }

  /** Knuth-Moore for min nodes. */
  lemma {:induction false} MinValueWindow(t: Tree, p: Player, a: Ext, b: Ext)
    requires Lt(a, b)
    ensures FailSoft(MinValue(t, p, a, b).value, Minimax(t, p, false), a, b)
    decreases t, 2, 0
  {
    match t
    case Terminal(_, _) =>
    case Inner(_, _, _) =>
      MinLoopWindow(t, p, 0, PosInf, a, b, b);
  }

  /** One step of the max loop on values: folding in a child result that is
      fail-soft for the narrowed window (max(a, v), b) keeps the running value
      fail-soft for the caller's window (a, b). */
  lemma MaxStepWindow(v: Ext, V: Ext, rc: Ext, w: Ext, a: Ext, b: Ext)
    requires Lt(a, b) && Lt(v, b) && FailSoft(v, V, a, b)
    requires FailSoft(rc, w, Max(a, v), b)
    ensures FailSoft(Max(v, rc), Max(V, w), a, b)
  {
  }

  /** One step of the min loop on values, the mirror image of `MaxStepWindow`. */
  lemma MinStepWindow(v: Ext, V: Ext, rc: Ext, w: Ext, a: Ext, b: Ext)
    requires Lt(a, b) && Lt(a, v) && FailSoft(v, V, a, b)
    requires FailSoft(rc, w, a, Min(b, v))
    ensures FailSoft(Min(v, rc), Min(V, w), a, b)
  {
  }

  /** A beta cutoff: a fail-soft result at or above `b` stays fail-soft when
      the true value can only grow. */
  lemma CutAboveWindow(r: Ext, V: Ext, W: Ext, a: Ext, b: Ext)
    requires Lt(a, b) && FailSoft(r, V, a, b) && Le(b, r) && Le(V, W)
    ensures FailSoft(r, W, a, b)
  {
  }

  /** An alpha cutoff, the mirror image of `CutAboveWindow`. */
  lemma CutBelowWindow(r: Ext, V: Ext, W: Ext, a: Ext, b: Ext)
    requires Lt(a, b) && FailSoft(r, V, a, b) && Le(r, a) && Le(W, V)
    ensures FailSoft(r, W, a, b)
  {
  }

  /** Loop invariant of `max_value`: before child `i` the running value is a
      fail-soft approximation of the maximum over the first `i` children with
      respect to the caller's window (a0, b), no cutoff has happened yet, and
      the current alpha is `max(a0, v)`. */
  lemma {:induction false} MaxLoopWindow(t: Tree, p: Player, i: nat, v: Ext, a0: Ext, a: Ext, b: Ext)
    requires t.Inner? && i <= |t.kids|
    requires Lt(a0, b) && Lt(v, b) && a == Max(a0, v)
    requires FailSoft(v, Fold(t, p, true, i), a0, b)
    ensures FailSoft(MaxLoop(t, p, i, v, a, b).value, Minimax(t, p, true), a0, b)
    decreases t, 1, |t.kids| - i
  {
    if i < |t.kids| {
      var c := t.kids[i];
      MinValueWindow(c, p, a, b);
      var rc := MinValue(c, p, a, b).value;
      var v' := Max(v, rc);
      MaxStepWindow(v, Fold(t, p, true, i), rc, Minimax(c, p, false), a0, b);
      if Le(b, v') {
        FoldMonotone(t, p, true, i + 1, |t.kids|);
        CutAboveWindow(v', Fold(t, p, true, i + 1), Minimax(t, p, true), a0, b);
      } else {
        MaxLoopWindow(t, p, i + 1, v', a0, Max(a, v'), b);
      }
    }
  }

  /** Loop invariant of `min_value`, the mirror image of `MaxLoopWindow`. */
  lemma {:induction false} MinLoopWindow(t: Tree, p: Player, i: nat, v: Ext, a: Ext, b0: Ext, b: Ext)
    requires t.Inner? && i <= |t.kids|
    requires Lt(a, b0) && Lt(a, v) && b == Min(b0, v)
    requires FailSoft(v, Fold(t, p, false, i), a, b0)
    ensures FailSoft(MinLoop(t, p, i, v, a, b).value, Minimax(t, p, false), a, b0)
    decreases t, 1, |t.kids| - i
  {
    if i < |t.kids| {
      var c := t.kids[i];
      MaxValueWindow(c, p, a, b);
      var rc := MaxValue(c, p, a, b).value;
      var v' := Min(v, rc);
      MinStepWindow(v, Fold(t, p, false, i), rc, Minimax(c, p, true), a, b0);
      if Le(v', a) {
        FoldMonotone(t, p, false, i + 1, |t.kids|);
        CutBelowWindow(v', Fold(t, p, false, i + 1), Minimax(t, p, false), a, b0);
      } else {
        MinLoopWindow(t, p, i + 1, v', a, b0, Min(b, v'));
      }
    }
  }
}

module AlphaBetaChoice {
  import opened ExtInt
  import opened Game
  import opened MinimaxSpec
  import opened Optional
  import opened AlphaBeta
  import opened AlphaBetaWindow

  /** With the full window (-inf, +inf) both searches return the exact minimax value. */
  lemma FullWindowExact(t: Tree, p: Player)
    ensures MaxValue(t, p, NegInf, PosInf).value == Minimax(t, p, true)
    ensures MinValue(t, p, NegInf, PosInf).value == Minimax(t, p, false)
  {
    MaxValueWindow(t, p, NegInf, PosInf);
    MinValueWindow(t, p, NegInf, PosInf);
  }

  /** Invariant of the root loop: alpha equals the best value so far, which is
      the maximum of the first `i` children's minimax values; `best` is the first
      child reaching it, or None while every value so far is -inf. */
  ghost predicate RootInvariant(vals: seq<Ext>, i: nat, v: Ext, a: Ext, best: Option<nat>) {
    && i <= |vals|
    && a == v
    && match best
       case None => v == NegInf && forall j :: 0 <= j < i ==> vals[j] == NegInf
       case Some(k) => IsFirstMax(vals, i, k) && v == vals[k]
  }

  lemma {:induction false} RootLoopFirstMax(t: Tree, p: Player, i: nat, v: Ext, a: Ext, best: Option<nat>)
    requires t.Inner? && i <= |t.kids|
    requires RootInvariant(RootValues(t, p), i, v, a, best)
    ensures match RootLoop(t, p, i, v, a, best)
            case None => forall j :: 0 <= j < |t.kids| ==> RootValues(t, p)[j] == NegInf
            case Some(k) => IsFirstMax(RootValues(t, p), |t.kids|, k)
    decreases |t.kids| - i
  {
    if i < |t.kids| {
      var vals := RootValues(t, p);
      var av := MinValue(t.kids[i], p, a, PosInf).value;
      if Lt(a, PosInf) {
        MinValueWindow(t.kids[i], p, a, PosInf);
      }
      if Lt(v, av) {
        assert av == vals[i];
        RootLoopFirstMax(t, p, i + 1, av, Max(a, av), Some(i));
      } else {
        assert Le(vals[i], v);
        RootLoopFirstMax(t, p, i + 1, v, Max(a, v), best);
      }
    }
  }

  /** `minimax_pruning_player` returns the first action, in action order, whose
      minimax value is maximal; it returns None only when there is no action or
      every action's value is -inf. */
  lemma ChooseMoveIsFirstMax(t: Tree)
    ensures match ChooseMove(t)
            case Some(k) => IsFirstMax(RootValues(t, t.toMove), NumActions(t), k)
            case None => forall j :: 0 <= j < NumActions(t) ==> RootValues(t, t.toMove)[j] == NegInf
  {
    if t.Inner? {
      RootLoopFirstMax(t, t.toMove, 0, NegInf, NegInf, None);
    }
  }

  /** In a game where every non-terminal state has an action, the returned action
      is legal and the result is None exactly when the root has no action. */
  lemma ChooseMoveNoneIff(t: Tree)
    requires WellFormed(t)
    ensures ChooseMove(t).None? <==> NumActions(t) == 0
    ensures ChooseMove(t).Some? ==> ChooseMove(t).value < NumActions(t)
  {
    ChooseMoveIsFirstMax(t);
    if t.Inner? {
      assert WellFormed(t.kids[0]);
      MinimaxFinite(t.kids[0], t.toMove, false);
      assert RootValues(t, t.toMove)[0] != NegInf;
    }
  }

  /** A max node whose running value reaches beta at child `i` returns without
      evaluating any later action: its result does not depend on them. */
  lemma MaxCutoffIgnoresRest(t: Tree, t': Tree, p: Player, i: nat, v: Ext, a: Ext, b: Ext)
    requires t.Inner? && t'.Inner? && i < |t.kids| && i < |t'.kids| && t.kids[i] == t'.kids[i]
    requires Le(b, Max(v, MinValue(t.kids[i], p, a, b).value))
    ensures MaxLoop(t, p, i, v, a, b) == MaxLoop(t', p, i, v, a, b)
  {
  }

  /** A min node whose running value falls to alpha at child `i` returns
      without evaluating any later action. */
  lemma MinCutoffIgnoresRest(t: Tree, t': Tree, p: Player, i: nat, v: Ext, a: Ext, b: Ext)
    requires t.Inner? && t'.Inner? && i < |t.kids| && i < |t'.kids| && t.kids[i] == t'.kids[i]
    requires Le(Min(v, MaxValue(t.kids[i], p, a, b).value), a)
    ensures MinLoop(t, p, i, v, a, b) == MinLoop(t', p, i, v, a, b)
  {
  }

  /** A max root over two min nodes [3, 5] and [1, 9]: once the second min node
      sees 1 <= alpha = 3 it stops, so three of the four utilities are evaluated. */
  lemma PruningSavesEvaluations()
    ensures var t := Inner(First, 0, [Inner(Second, 0, [Terminal(First, 3), Terminal(First, 5)]),
                                      Inner(Second, 0, [Terminal(First, 1), Terminal(First, 9)])]);
            MaxValue(t, First, NegInf, PosInf) == Eval(Fin(3), 3) && LeafCount(t) == 4
  {
  }
}
