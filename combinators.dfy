/** The member operators `*` and `+` of `Exp<T>` and the `lambda` sugar.
    They only build trees: the operands' run-time contents are never read,
    so each is a constructor application on the operands' trees. */
module Combinators {
  import opened Nodes
  import opened Inliner

  /** `a * b`: a product node whose first child is the left operand. */
  function Times(a: Exp, b: Exp): (r: Exp)
    ensures r.Prod? && r.left == a && r.right == b
    ensures Resolvable(r) <==> Resolvable(a) && Resolvable(b)
    ensures forall v :: Eval(r, v) == Eval(a, v) * Eval(b, v)
  {
    Prod(a, b)
  }

  /** `a + b`: a sum node whose first child is the left operand. */
  function Plus(a: Exp, b: Exp): (r: Exp)
    ensures r.Sum? && r.left == a && r.right == b
    ensures Resolvable(r) <==> Resolvable(a) && Resolvable(b)
    ensures forall v :: Eval(r, v) == Eval(a, v) + Eval(b, v)
  {
    Sum(a, b)
  }

  /** `lambda(x, body)`: the placeholder is discarded and the function is
      the body's tree, so it resolves and evaluates exactly as the body. */
  function Lambda(x: Exp, body: Exp): (r: Exp)
    ensures r == body
    ensures Resolvable(r) <==> Resolvable(body)
    ensures forall v :: Eval(r, v) == Eval(body, v)
    ensures Resolvable(body) ==> forall v :: At(r, v) == At(body, v)
  {
    body
  }

  /** The placeholder passed to `lambda` has no influence on its result. */
  lemma LambdaIgnoresPlaceholder(x: Exp, y: Exp, body: Exp)
    ensures Lambda(x, body) == Lambda(y, body)
  {
  }

  /** `lambda(x, x * x)` with `x` the argument placeholder. */
  function SquareLambda(): (r: Exp)
    ensures Resolvable(r)
    ensures forall v :: At(r, v) == v * v
  {
    Lambda(Arg, Times(Arg, Arg))
  }

  /** Wrapping a constant in a product makes the whole tree unresolvable,
      as `x * I<2>::v` is rejected when `at` is instantiated. */
  lemma ScaledArgumentRejected(i: Int32)
    ensures !Resolvable(Times(Arg, Const(i)))
    ensures forall v :: Eval(Times(Arg, Const(i)), v) == v * i
  {
  }
}
