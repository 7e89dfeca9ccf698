/** Integers extended with the two infinities.  The search code starts its
    running values and windows at `-np.inf` / `np.inf`; `Ext` stands for those
    sentinels together with the finite utilities and heuristic scores. */
module ExtInt {

  datatype Ext = NegInf | Fin(n: int) | PosInf

  /** The usual order: NegInf below every integer, PosInf above. */
  predicate Le(x: Ext, y: Ext) {
    x.NegInf? || y.PosInf? || (x.Fin? && y.Fin? && x.n <= y.n)
  }

  predicate Lt(x: Ext, y: Ext) {
    !Le(y, x)
  }

  /** Python's `max(x, y)`; on equal values either argument is the same value. */
  function Max(x: Ext, y: Ext): (r: Ext)
    ensures Le(x, r) && Le(y, r)
    ensures r == x || r == y
  {
    if Le(x, y) then y else x
  }

  /** Python's `min(x, y)`. */
  function Min(x: Ext, y: Ext): (r: Ext)
    ensures Le(r, x) && Le(r, y)
    ensures r == x || r == y
  {
    if Le(x, y) then x else y
  }
}
