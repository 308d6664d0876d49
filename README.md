# Self-inlining one-argument lambdas, modelled in Dafny

The C++ program folds the syntax tree of a one-argument arithmetic
expression into a C++ type (`I<i>`, `Arg<T>`, `Sum<R1,R2>`, `Prod<R1,R2>`),
builds such types with the member operators `*` and `+` of `Exp<T>` and the
`lambda` sugar, and unfolds them again with the template meta-program
`Inline<E>`, whose specializations turn the tree into plain arithmetic on
the argument.

The model has four modules:

- `Nodes` (`nodes.dfy`): the tree as a datatype `Exp` with constructors
  `Const`, `Arg`, `Sum` and `Prod`, and the left-to-right `Leaves` of a tree.
- `Inliner` (`inliner.dfy`): the evaluator. `Resolvable` says that
  `Inline<E>::at` can be instantiated for a tree. `At` is that `at` member.
  It is defined only for resolvable trees. `Eval` is the total evaluator
  in which a constant is resolved by its `value` rule. The lemmas give the
  per-node rules and the algebraic laws that evaluation inherits from
  integer arithmetic.
- `Combinators` (`combinators.dfy`): `Times` (`*`), `Plus` (`+`), `Lambda`
  and the demonstration function `lambda(x, x * x)`.
- `Polynomial` (`polynomial.dfy`): a reference meaning that does not go
  through the evaluator. Every tree stands for a polynomial in its argument.
  The contract of `Eval` says that evaluating a tree is evaluating that
  polynomial.

The constant specialization's member is called `value`, not `at`, and the
primary `Inline<E>` template is empty. So `Inline<E>::at` exists only for
trees whose every leaf is the argument placeholder. A tree with a constant
leaf can be built with `*` and `+`, but resolving it through `at` is a
build-time error. The code is followed here: `At` requires `Resolvable`,
and `ConstantBlocksResolution` shows that any constant leaf makes a tree
unresolvable. The constant rule `Inline<I<i>>::value`
(src/SelfLambda.cpp:89-95), which ignores the argument and returns the
literal, is kept in the total `Eval`.
A consequence is `ResolvableVanishesAtZero`: every tree that `at` accepts
evaluates to 0 at argument 0.

Termination and determinism need no lemma. `Eval`, `At` and `Resolvable`
are Dafny functions. Dafny checks that their recursion terminates, since it
only descends into the two children of a node. Functions are deterministic
by definition: the same tree at the same argument always gives the same
value.

## Model

| member | source | states |
|---|---|---|
| `Nodes.Leaves` | src/SelfLambda.cpp:68-80 | every tree has at least one leaf; each leaf is a constant or the argument placeholder; a leaf is its own only leaf |
| `Inliner.Resolvable` | src/SelfLambda.cpp:84-124 | `at` can be instantiated for a tree if and only if every one of its leaves has an `at` rule, which only the argument placeholder has |
| `Inliner.Eval` | src/SelfLambda.cpp:88-124 | the total evaluator, with constants resolved by the `value` rule, gives at `v` the value at `v` of the polynomial the tree stands for |
| `Inliner.At` | src/SelfLambda.cpp:97-124 | on every tree that `at` can resolve, `at` computes the same value as the total evaluator |
| `Inliner.ConstantBlocksResolution` | src/SelfLambda.cpp:84-95 | a tree with a constant leaf anywhere cannot be resolved with `at`, because the constant rule is named `value` and the primary template is empty |
| `Inliner.EvalConst` | src/SelfLambda.cpp:89-95 | a constant evaluates to its literal and gives the same value at every argument |
| `Inliner.AtArg` | src/SelfLambda.cpp:98-103 | the argument placeholder is resolvable and returns the argument unchanged |
| `Inliner.AtSum` | src/SelfLambda.cpp:106-114 | a sum is resolvable exactly when both children are; its value is the sum of both children's values at the same argument |
| `Inliner.AtProd` | src/SelfLambda.cpp:117-124 | a product is resolvable exactly when both children are; its value is the product of both children's values at the same argument |
| `Inliner.ClosedIgnoresArgument` | src/SelfLambda.cpp:89-124 | a tree whose leaves are all constants evaluates the same at every argument |
| `Inliner.ResolvableVanishesAtZero` | src/SelfLambda.cpp:98-124 | every tree that `at` accepts evaluates to 0 at argument 0, so no resolvable tree has a nonzero constant term |
| `Inliner.SumAssociates` | src/SelfLambda.cpp:106-114 | `Sum(Sum(a,b),c)` and `Sum(a,Sum(b,c))` are resolvable together and give the same value, through `Eval` and through `at` |
| `Inliner.ProdAssociates` | src/SelfLambda.cpp:117-124 | `Prod(Prod(a,b),c)` and `Prod(a,Prod(b,c))` are resolvable together and give the same value, through `Eval` and through `at` |
| `Inliner.Commutes` | src/SelfLambda.cpp:106-124 | swapping the two children of a sum or of a product keeps its resolvability, its `Eval` value and, where it resolves, its `at` value |
| `Combinators.Times` | src/SelfLambda.cpp:55-59 | `a * b` is a product whose first child is the left operand and whose second is the right; it resolves exactly when both operands do and evaluates to their product |
| `Combinators.Plus` | src/SelfLambda.cpp:61-65 | `a + b` is a sum whose first child is the left operand and whose second is the right; it resolves exactly when both operands do and evaluates to their sum |
| `Combinators.Lambda` | src/SelfLambda.cpp:128-133 | `lambda(x, body)` is exactly the body's expression; it resolves exactly when the body does and evaluates as the body at every argument, through `Eval` and through `at` |
| `Combinators.LambdaIgnoresPlaceholder` | src/SelfLambda.cpp:128-133 | the placeholder passed to `lambda` has no influence on the resulting expression |
| `Combinators.SquareLambda` | src/SelfLambda.cpp:175-177 | `lambda(x, x * x)` is resolvable and `at` gives `v * v` for every argument `v` |
| `Combinators.ScaledArgumentRejected` | src/SelfLambda.cpp:88-95 | `x * I<i>` can be built, but `at` cannot resolve it, although its intended value is `v * i` |
| `Inliner.SamePolynomialSameValue` | src/SelfLambda.cpp:106-124 | two trees with the same polynomial give the same value at every argument, through `Eval` and, where both resolve, through `at` |

## Left out

- Arithmetic is on unbounded integers, not on `double`. Rounding, overflow and the exact floating-point agreement with hand-written code are not modelled. The constant literal is restricted to the 32-bit range of its `int` template parameter.
- The value type carried by `Arg<T>`, and the implicit conversions between it and the argument type `A` of the sum and product rules, are not modelled. Every tree is evaluated at one `int`.
- `Combinators.Times` and `Combinators.Plus` take a tree as right operand. In the source the right operand may be of any type `M`, and a non-node type is rejected only when `at` is instantiated. The model cannot build such trees.
- `Dummy<T>::value` and the zero-size marker values carry no state and only drive type inference. Expressions are datatype values here.
- The claim that resolution leaves no indirection in the generated machine code is about compiled output and cannot be stated on the model.
- `integrate_fp`, `integrate`, `square` and `main` are demonstration code with floating-point loops and console output. They are not part of this model.
- Multi-argument lambdas and captured free variables are not implemented in the source and are not modelled.
