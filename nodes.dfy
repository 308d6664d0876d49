/** The type-level syntax tree of a one-argument expression.
    Each node kind of the source is a distinct C++ type; here the tree that
    such a type encodes becomes a value of an algebraic datatype. */
module Nodes {

  /** The range of the C++ `int` template parameter of a constant node. */
  type Int32 = x: int | -0x8000_0000 <= x < 0x8000_0000

  /** `I<i>`, `Arg<T>`, `Sum<R1,R2>` and `Prod<R1,R2>`. */
  datatype Exp =
    | Const(i: Int32)
    | Arg
    | Sum(left: Exp, right: Exp)
    | Prod(left: Exp, right: Exp)

  /** A leaf is a node with no sub-expressions. */
  predicate IsLeaf(e: Exp) {
    e.Const? || e.Arg?
  }

  /** The leaves of a tree, from left to right. */
  function Leaves(e: Exp): (r: seq<Exp>)
    ensures |r| >= 1
    ensures forall l :: l in r ==> IsLeaf(l)
    ensures IsLeaf(e) ==> r == [e]
  {
    match e
    case Const(_) => [e]
    case Arg => [e]
    case Sum(a, b) => Leaves(a) + Leaves(b)
    case Prod(a, b) => Leaves(a) + Leaves(b)
  }
}
