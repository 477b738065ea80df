/** The mutation operators. Each one takes a node and returns a possibly
    rewritten node together with a flag saying whether it mutated it. */
module Mutators {
  import opened Syntax

  /** The pair `(ast.Node, bool)` every operator returns. */
  datatype Mutation = Mutation(node: Node, mutated: bool)

  /** The operators that implement the `Mutator` interface. */
  datatype Mutator = NullMutator | BasicMutators | MutateEqNeq | MutateIncDec

  /** `NullMutator` does nothing to the node yet claims to have mutated it. */
  function NullMutate(n: Node): (r: Mutation)
    ensures r.node == n
    ensures r.mutated
  {
    Mutation(n, true)
  }

  /** `MutateEqNeq` turns `==` into `!=` and `!=` into `==` on a binary
      expression; every other node, and every binary expression with another
      operator, comes back as it was and unmutated. */
  function EqNeqMutate(n: Node): (r: Mutation)
    ensures r.mutated <==> n.BinaryExpr? && (n.op == Eql || n.op == Neq)
    ensures Skeleton(r.node) == Skeleton(n)
    ensures n.BinaryExpr? && n.op == Eql ==> r.node.op == Neq
    ensures n.BinaryExpr? && n.op == Neq ==> r.node.op == Eql
    ensures !r.mutated ==> r.node == n
  {
    match n
    case BinaryExpr(_, _, op, _) =>
      if op == Neq then Mutation(n.(op := Eql), true)
      else if op == Eql then Mutation(n.(op := Neq), true)
      else Mutation(n, false)
    case _ => Mutation(n, false)
  }

  /** `MutateIncDec` turns `++` into `--` and `--` into `++`. It reports a
      mutation for every increment/decrement statement, also one whose token
      is neither, which it leaves as it was. */
  function IncDecMutate(n: Node): (r: Mutation)
    ensures r.mutated <==> n.IncDecStmt?
    ensures Skeleton(r.node) == Skeleton(n)
    ensures n.IncDecStmt? && n.tok == Inc ==> r.node.tok == Dec
    ensures n.IncDecStmt? && n.tok == Dec ==> r.node.tok == Inc
    ensures n.IncDecStmt? && n.tok != Inc && n.tok != Dec ==> r.node == n
    ensures !r.mutated ==> r.node == n
  {
    match n
    case IncDecStmt(_, _, tok) =>
      if tok == Inc then Mutation(n.(tok := Dec), true)
      else if tok == Dec then Mutation(n.(tok := Inc), true)
      else Mutation(n, true)
    case _ => Mutation(n, false)
  }

  /** `BasicMutators` tries `MutateEqNeq`, then `MutateIncDec` on the node the
      first one handed back, and reports the first one that mutated. */
  function BasicMutate(n: Node): (r: Mutation)
    ensures r.mutated <==> EqNeqMutate(n).mutated || IncDecMutate(n).mutated
    ensures r.mutated <==> (n.BinaryExpr? && (n.op == Eql || n.op == Neq)) || n.IncDecStmt?
    ensures EqNeqMutate(n).mutated ==> r == EqNeqMutate(n)
    ensures !EqNeqMutate(n).mutated ==> r == IncDecMutate(n)
    ensures !r.mutated ==> r.node == n
    ensures Skeleton(r.node) == Skeleton(n)
  {
    var first := EqNeqMutate(n);
    if first.mutated then Mutation(first.node, true)
    else
      var second := IncDecMutate(first.node);
      if second.mutated then Mutation(second.node, true)
      else Mutation(second.node, false)
  }

  /** The `Mutator` interface: dispatch on the operator. Every operator keeps
      the contract that an unmutated node comes back unchanged, and none
      changes anything but the node's own operator token. */
  function Mutate(m: Mutator, n: Node): (r: Mutation)
    ensures !r.mutated ==> r.node == n
    ensures Skeleton(r.node) == Skeleton(n)
    ensures m == NullMutator ==> r.mutated
    ensures m == MutateEqNeq ==> (r.mutated <==> n.BinaryExpr? && (n.op == Eql || n.op == Neq))
    ensures m == MutateIncDec ==> (r.mutated <==> n.IncDecStmt?)
  {
    match m
    case NullMutator => NullMutate(n)
    case BasicMutators => BasicMutate(n)
    case MutateEqNeq => EqNeqMutate(n)
    case MutateIncDec => IncDecMutate(n)
  }
}
