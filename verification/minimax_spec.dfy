/** Reference semantics, not a model of any source file: the plain minimax
    value that the alpha-beta searches must agree with.  The player whose
    utility is maximised is fixed at the root and passed unchanged. */
module MinimaxSpec {
  import opened ExtInt
  import opened Game

  /** Minimax value of `t` when the maximiser (`isMax`) or the minimiser is to
      move; a non-terminal state without actions has the empty max/min. */
  ghost function Minimax(t: Tree, p: Player, isMax: bool): Ext
    decreases t, 1, 0
  {
    match t
    case Terminal(_, _) => Fin(Utility(t, p))
    case Inner(_, _, kids) => Fold(t, p, isMax, |kids|)
  }

  /** Max (or min) of the children's values over the first `n` children. */
  ghost function Fold(t: Tree, p: Player, isMax: bool, n: nat): Ext
    requires t.Inner? && n <= |t.kids|
    decreases t, 0, n
  {
    if n == 0 then (if isMax then NegInf else PosInf)
    else
      var w := Minimax(t.kids[n - 1], p, !isMax);
      if isMax then Max(Fold(t, p, isMax, n - 1), w) else Min(Fold(t, p, isMax, n - 1), w)
  }

  /** Minimax values of the root's children, each a minimising node. */
  ghost function RootValues(t: Tree, p: Player): (vs: seq<Ext>)
    ensures |vs| == NumActions(t)
  {
    if t.Terminal? then [] else seq(|t.kids|, j requires 0 <= j < |t.kids| => Minimax(t.kids[j], p, false))
  }

  /** `k` is the first index among the first `n` values holding their maximum. */
  ghost predicate IsFirstMax(vals: seq<Ext>, n: nat, k: nat) {
    && k < n <= |vals|
    && (forall j :: 0 <= j < n ==> Le(vals[j], vals[k]))
    && (forall j :: 0 <= j < k ==> Lt(vals[j], vals[k]))
  }

  /** Number of terminal states: the utility evaluations plain minimax performs. */
  function LeafCount(t: Tree): nat
    decreases t, 1, 0
  {
    match t
    case Terminal(_, _) => 1
    case Inner(_, _, kids) => LeafCountFrom(t, 0)
  }

  /** Terminal states below the children `i..` of `t`. */
  function LeafCountFrom(t: Tree, i: nat): nat
    requires t.Inner? && i <= |t.kids|
    decreases t, 0, |t.kids| - i
  {
    if i == |t.kids| then 0 else LeafCount(t.kids[i]) + LeafCountFrom(t, i + 1)
  }

  /** The fail-soft window property (Knuth and Moore): a result `r` for a node
      whose true value is `v`, searched with window (a, b). */
  ghost predicate FailSoft(r: Ext, v: Ext, a: Ext, b: Ext) {
    && (Le(v, a) ==> Le(v, r) && Le(r, a))
    && (Le(b, v) ==> Le(b, r) && Le(r, v))
    && (Lt(a, v) && Lt(v, b) ==> r == v)
  }

  /** Every minimax value of a well-formed game is finite. */
  lemma {:induction false} MinimaxFinite(t: Tree, p: Player, isMax: bool)
    requires WellFormed(t)
    ensures Minimax(t, p, isMax).Fin?
    decreases t, 1, 0
  {
    match t
    case Terminal(_, _) =>
    case Inner(_, _, kids) => FoldFinite(t, p, isMax, |kids|);
  }

  lemma {:induction false} FoldFinite(t: Tree, p: Player, isMax: bool, n: nat)
    requires WellFormed(t) && t.Inner? && 1 <= n <= |t.kids|
    ensures Fold(t, p, isMax, n).Fin?
    decreases t, 0, n
  {
    MinimaxFinite(t.kids[n - 1], p, !isMax);
    if n > 1 {
      FoldFinite(t, p, isMax, n - 1);
    }
  }

  /** The running maximum only grows with more children, the minimum only falls. */
  lemma {:induction false} FoldMonotone(t: Tree, p: Player, isMax: bool, i: nat, j: nat)
    requires t.Inner? && i <= j <= |t.kids|
    ensures isMax ==> Le(Fold(t, p, isMax, i), Fold(t, p, isMax, j))
    ensures !isMax ==> Le(Fold(t, p, isMax, j), Fold(t, p, isMax, i))
    decreases j
  {
    if i < j {
      FoldMonotone(t, p, isMax, i, j - 1);
    }
  }
}
