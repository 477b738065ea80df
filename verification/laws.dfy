/** Laws relating two applications of an operator, and the flag to whether
    the node actually changed. */
module MutatorLaws {
  import opened Syntax
  import opened Mutators

  /** Flipping `==`/`!=` twice restores the original expression, operands and
      operator position included. */
  lemma EqNeqInvolution(n: Node)
    requires n.BinaryExpr? && (n.op == Eql || n.op == Neq)
    ensures EqNeqMutate(n).node.op != n.op
    ensures EqNeqMutate(EqNeqMutate(n).node) == Mutation(n, true)
  {
  }

  /** Flipping `++`/`--` twice restores the original statement. */
  lemma IncDecInvolution(n: Node)
    requires n.IncDecStmt? && (n.tok == Inc || n.tok == Dec)
    ensures IncDecMutate(n).node.tok != n.tok
    ensures IncDecMutate(IncDecMutate(n).node) == Mutation(n, true)
  {
  }

  /** Every operator, applied twice, gives back the node it started from and
      reports the same flag the second time as the first. */
  lemma MutateTwiceRestores(m: Mutator, n: Node)
    ensures Mutate(m, Mutate(m, n).node).node == n
    ensures Mutate(m, Mutate(m, n).node).mutated == Mutate(m, n).mutated
  {
  }

  /** On nodes shaped as the parser produces them, `MutateEqNeq`,
      `MutateIncDec` and `BasicMutators` report a mutation exactly when the
      node changed. */
  lemma MutatedIffChanged(m: Mutator, n: Node)
    requires m != NullMutator
    requires IncDecTokIsIncOrDec(n)
    ensures Mutate(m, n).mutated <==> Mutate(m, n).node != n
  {
  }

  /** Without the parser's shape the flag overstates: an increment/decrement
      statement whose token is neither `++` nor `--` is reported mutated yet
      comes back unchanged, by `MutateIncDec` and by `BasicMutators` alike. */
  lemma UnshapedIncDecReportedButUnchanged(n: Node)
    requires n.IncDecStmt? && !IncDecTokIsIncOrDec(n)
    ensures Mutate(MutateIncDec, n) == Mutation(n, true)
    ensures Mutate(BasicMutators, n) == Mutation(n, true)
  {
  }

  /** `NullMutator` always reports a mutation and never changes anything. */
  lemma NullReportsWithoutChange(n: Node)
    ensures Mutate(NullMutator, n).mutated
    ensures Mutate(NullMutator, n).node == n
  {
  }
}
