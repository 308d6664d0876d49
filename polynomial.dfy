/** A reference meaning for expression trees, independent of the evaluator:
    every tree over one argument stands for a polynomial in that argument,
    and the evaluator is specified against it. */
module Polynomial {
  import opened Nodes

  /** Coefficients, lowest degree first: `p[k]` multiplies `v` to the `k`. */
  type Poly = seq<int>

  /** Horner evaluation of `p` at `v`. */
  function PolyEval(p: Poly, v: int): int {
    if p == [] then 0 else p[0] + v * PolyEval(p[1..], v)
  }

  /** Coefficient-wise sum; the shorter polynomial is padded with zeros. */
  function PolyAdd(p: Poly, q: Poly): (r: Poly)
    ensures forall v :: PolyEval(r, v) == PolyEval(p, v) + PolyEval(q, v)
  {
    if p == [] then q
    else if q == [] then p
    else [p[0] + q[0]] + PolyAdd(p[1..], q[1..])
  }

  /** Every coefficient multiplied by `c`. */
  function PolyScale(c: int, q: Poly): (r: Poly)
    ensures forall v :: PolyEval(r, v) == c * PolyEval(q, v)
  {
    if q == [] then [] else [c * q[0]] + PolyScale(c, q[1..])
  }

  /** Multiplying by the argument shifts every coefficient up one degree. */
  lemma ShiftEval(r: Poly, v: int)
    ensures PolyEval([0] + r, v) == v * PolyEval(r, v)
  {
  }

  /** One step of multiplying out a product of polynomials. */
  lemma Distribute(p0: int, tail: int, qv: int, v: int)
    ensures p0 * qv + v * (tail * qv) == (p0 + v * tail) * qv
  {
  }

  /** Product by multiplying out the lowest coefficient of `p`. */
  function PolyMul(p: Poly, q: Poly): (r: Poly)
    ensures forall v :: PolyEval(r, v) == PolyEval(p, v) * PolyEval(q, v)
  {
    if p == [] then []
    else
      var rest := PolyMul(p[1..], q);
      var r := PolyAdd(PolyScale(p[0], q), [0] + rest);
      assert forall v :: PolyEval(r, v) == PolyEval(p, v) * PolyEval(q, v) by {
        forall v ensures PolyEval(r, v) == PolyEval(p, v) * PolyEval(q, v) {
          ShiftEval(rest, v);
          Distribute(p[0], PolyEval(p[1..], v), PolyEval(q, v), v);
        }
      }
      r
  }

  /** The polynomial a tree stands for. */
  function ToPoly(e: Exp): Poly {
    match e
    case Const(i) => [i]
    case Arg => [0, 1]
    case Sum(a, b) => PolyAdd(ToPoly(a), ToPoly(b))
    case Prod(a, b) => PolyMul(ToPoly(a), ToPoly(b))
  }
}
