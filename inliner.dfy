/** The evaluator that the `Inline<E>` specializations spell out.
    `Eval` is the intended total semantics, where a constant is resolved by
    its `value` rule; `At` is the `at` member as the specializations define
    it, which exists only for trees whose every leaf has an `at` rule. */
module Inliner {
  import opened Nodes
  import opened Polynomial

  /** A leaf has an `at` rule: only the argument placeholder does, since the
      constant specialization names its member `value` and the primary
      template is empty. */
  predicate HasAtRule(leaf: Exp)
    requires IsLeaf(leaf)
  {
    leaf.Arg?
  }

  /** `Inline<E>::at` can be instantiated for `e`: exactly when every leaf
      of the tree has an `at` rule. */
  predicate Resolvable(e: Exp)
    ensures Resolvable(e) <==> forall l :: l in Leaves(e) ==> HasAtRule(l)
  {
    match e
    case Const(_) =>
      assert e in Leaves(e);
      false
    case Arg => true
    case Sum(a, b) =>
      LeavesOfPair(a, b, e);
      Resolvable(a) && Resolvable(b)
    case Prod(a, b) =>
      LeavesOfPair(a, b, e);
      Resolvable(a) && Resolvable(b)
  }

  /** Total evaluation of `e` at argument value `v`, by structural recursion;
      a constant is resolved by the `value` rule, which ignores the argument.
      The result is the value at `v` of the polynomial the tree stands for. */
  function Eval(e: Exp, v: int): (r: int)
    ensures r == PolyEval(ToPoly(e), v)
  {
    match e
    case Const(i) =>
      assert [i as int][1..] == [];
      i
    case Arg =>
      assert [0, 1][1..] == [1];
      assert PolyEval([1], v) == 1 by { assert [1][1..] == []; }
      v
    case Sum(a, b) => Eval(a, v) + Eval(b, v)
    case Prod(a, b) => Eval(a, v) * Eval(b, v)
  }

  /** `Inline<E>::at(v)`, defined only where the source's specializations
      resolve; it agrees with the total evaluator there. */
  function At(e: Exp, v: int): (r: int)
    requires Resolvable(e)
    ensures r == Eval(e, v)
  {
    match e
    case Arg => v
    case Sum(a, b) => At(a, v) + At(b, v)
    case Prod(a, b) => At(a, v) * At(b, v)
  }

  /** The leaves of an interior node are those of its two children. */
  lemma LeavesOfPair(a: Exp, b: Exp, e: Exp)
    requires e == Sum(a, b) || e == Prod(a, b)
    ensures forall l :: l in Leaves(e) <==> l in Leaves(a) || l in Leaves(b)
  {
  }

  /** No tree containing a constant can be resolved with `at`. */
  lemma {:induction false} ConstantBlocksResolution(e: Exp, i: Int32)
    requires Const(i) in Leaves(e)
    ensures !Resolvable(e)
  {
    assert !HasAtRule(Const(i));
  }

  /** Evaluating a constant gives its literal, whatever the argument. */
  lemma EvalConst(i: Int32, v: int, w: int)
    ensures Eval(Const(i), v) == i
    ensures Eval(Const(i), v) == Eval(Const(i), w)
  {
  }

  /** Evaluating the argument placeholder gives the argument unchanged. */
  lemma AtArg(v: int)
    ensures Resolvable(Arg)
    ensures At(Arg, v) == v
  {
  }

  /** A sum evaluates both children at the same argument and adds. */
  lemma AtSum(a: Exp, b: Exp, v: int)
    ensures Resolvable(Sum(a, b)) <==> Resolvable(a) && Resolvable(b)
    ensures Eval(Sum(a, b), v) == Eval(a, v) + Eval(b, v)
    ensures Resolvable(a) && Resolvable(b) ==> At(Sum(a, b), v) == At(a, v) + At(b, v)
  {
  }

  /** A product evaluates both children at the same argument and multiplies. */
  lemma AtProd(a: Exp, b: Exp, v: int)
    ensures Resolvable(Prod(a, b)) <==> Resolvable(a) && Resolvable(b)
    ensures Eval(Prod(a, b), v) == Eval(a, v) * Eval(b, v)
    ensures Resolvable(a) && Resolvable(b) ==> At(Prod(a, b), v) == At(a, v) * At(b, v)
  {
  }

  /** A tree without argument leaves evaluates the same at every argument. */
  lemma {:induction false} ClosedIgnoresArgument(e: Exp, v: int, w: int)
    requires forall l :: l in Leaves(e) ==> l.Const?
    ensures Eval(e, v) == Eval(e, w)
  {
    match e
    case Const(_) =>
    case Arg =>
    case Sum(a, b) =>
      LeavesOfPair(a, b, e);
      ClosedIgnoresArgument(a, v, w);
      ClosedIgnoresArgument(b, v, w);
    case Prod(a, b) =>
      LeavesOfPair(a, b, e);
      ClosedIgnoresArgument(a, v, w);
      ClosedIgnoresArgument(b, v, w);
  }

  /** Every tree that `at` accepts evaluates to zero at zero: with only the
      argument as leaf, no such tree can denote a nonzero constant term. */
  lemma {:induction false} ResolvableVanishesAtZero(e: Exp)
    requires Resolvable(e)
    ensures At(e, 0) == 0
  {
    match e
    case Arg =>
    case Sum(a, b) =>
      ResolvableVanishesAtZero(a);
      ResolvableVanishesAtZero(b);
    case Prod(a, b) =>
      ResolvableVanishesAtZero(a);
      ResolvableVanishesAtZero(b);
  }

  /** Reassociating a sum does not change its value, resolved or not. */
  lemma SumAssociates(a: Exp, b: Exp, c: Exp, v: int)
    ensures Resolvable(Sum(Sum(a, b), c)) <==> Resolvable(Sum(a, Sum(b, c)))
    ensures Eval(Sum(Sum(a, b), c), v) == Eval(Sum(a, Sum(b, c)), v)
    ensures Resolvable(Sum(Sum(a, b), c)) ==>
              At(Sum(Sum(a, b), c), v) == At(Sum(a, Sum(b, c)), v)
  {
  }

  lemma MulAssociates(x: int, y: int, z: int)
    ensures (x * y) * z == x * (y * z)
  {
  }

  /** Reassociating a product does not change its value. */
  lemma ProdAssociates(a: Exp, b: Exp, c: Exp, v: int)
    ensures Resolvable(Prod(Prod(a, b), c)) <==> Resolvable(Prod(a, Prod(b, c)))
    ensures Eval(Prod(Prod(a, b), c), v) == Eval(Prod(a, Prod(b, c)), v)
    ensures Resolvable(Prod(Prod(a, b), c)) ==>
              At(Prod(Prod(a, b), c), v) == At(Prod(a, Prod(b, c)), v)
  {
    var x, y, z := Eval(a, v), Eval(b, v), Eval(c, v);
    assert Eval(Prod(Prod(a, b), c), v) == (x * y) * z;
    assert Eval(Prod(a, Prod(b, c)), v) == x * (y * z);
    MulAssociates(x, y, z);
  }

  /** Swapping the children of a sum or a product does not change its value. */
  lemma Commutes(a: Exp, b: Exp, v: int)
    ensures Resolvable(Sum(a, b)) <==> Resolvable(Sum(b, a))
    ensures Resolvable(Prod(a, b)) <==> Resolvable(Prod(b, a))
    ensures Eval(Sum(a, b), v) == Eval(Sum(b, a), v)
    ensures Eval(Prod(a, b), v) == Eval(Prod(b, a), v)
    ensures Resolvable(Sum(a, b)) ==> At(Sum(a, b), v) == At(Sum(b, a), v)
    ensures Resolvable(Prod(a, b)) ==> At(Prod(a, b), v) == At(Prod(b, a), v)
  {
  }

  /** Trees with the same polynomial are interchangeable for evaluation,
      and for `at` wherever both resolve. */
  lemma SamePolynomialSameValue(e1: Exp, e2: Exp, v: int)
    requires ToPoly(e1) == ToPoly(e2)
    ensures Eval(e1, v) == Eval(e2, v)
    ensures Resolvable(e1) && Resolvable(e2) ==> At(e1, v) == At(e2, v)
  {
  }
}
