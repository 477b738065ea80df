# gombie mutation operators in Dafny

gombie is a mutation-testing tool for Go. During a tree walk it rewrites the
nodes its mutator matches. It then writes the mutant to a temporary directory
and runs `go test` there. The verdict it reports is currently always true. This
project models its mutation operators:

- `NullMutator` leaves the node alone and still reports a mutation.
- `MutateEqNeq` swaps `==` and `!=` on a binary expression.
- `MutateIncDec` swaps `++` and `--` on an increment/decrement statement.
- `BasicMutators` tries `MutateEqNeq`, then `MutateIncDec`, and returns the
  first one that reports a mutation.

Go's `ast.Node` becomes the datatype `Syntax.Node`. Binary expressions and
increment/decrement statements keep their operands, operator position and
operator token. Every other node kind is an identifier, a literal or a generic
node with children. The operator tokens of `go/token` become `Syntax.Token`.

The `Mutator` interface becomes the datatype `Mutators.Mutator`, and
`Mutators.Mutate` dispatches on it. Each operator is a pure function that
returns a `Mutation(node, mutated)` pair, matching the Go `(ast.Node, bool)`
result.

`Registry.FirstMatch` is an independent reference definition of an ordered
operator registry. It tries a list of operators in order and stops at the
first that reports a mutation. It is proved to agree with `BasicMutators` on
every node. `Syntax.Skeleton` erases a node's operator token.
`Syntax.SkeletonAndOperatorDetermineNode` proves that a node is determined by
its skeleton and its operator token. So equal skeletons before and after a call
mean the operator changed nothing but that token.

Modules: `Syntax` (syntax.dfy), `Mutators` (mutators.dfy), `Registry`
(registry.dfy), `MutatorLaws` (laws.dfy).

## Model

| member | source | states |
|---|---|---|
| Mutators.NullMutate | mutators.go:15-21 | the node comes back unchanged and a mutation is always reported |
| Mutators.EqNeqMutate | mutators.go:41-62 | a mutation is reported exactly for a binary expression whose operator is `==` or `!=`; `==` becomes `!=` and `!=` becomes `==`; operands and operator position are kept; every other node comes back unchanged |
| Mutators.IncDecMutate | mutators.go:64-82 | a mutation is reported exactly for an increment/decrement statement; `++` becomes `--` and `--` becomes `++`; a statement with any other token is reported mutated but comes back unchanged; only the token can change |
| Mutators.BasicMutate | mutators.go:23-39 | a mutation is reported exactly when `MutateEqNeq` or `MutateIncDec` reports one; a mutation by `MutateEqNeq` is returned as is; otherwise the result is what `MutateIncDec` returns; an unmutated node comes back unchanged |
| Mutators.Mutate | mutators.go:8-13 | every operator behind the `Mutator` interface returns an unmutated node unchanged and changes nothing but the node's operator token |
| Registry.FirstMatch | mutators.go:27-39 | an ordered registry that reports no mutation returns the node unchanged, and never changes more than the operator token |
| Registry.FirstMatchMutatedIff | mutators.go:27-39 | the registry reports a mutation exactly when one of its operators would mutate the original node |
| Registry.FirstMatchIsFirst | mutators.go:28-31 | when operator `i` is the first that mutates, the registry returns exactly operator `i`'s result and the later operators are not consulted |
| Registry.FirstMatchNone | mutators.go:33-38 | when no operator mutates, the registry returns the original node and reports no mutation |
| Registry.BasicIsFirstMatch | mutators.go:27-39 | `BasicMutators` equals the registry of `MutateEqNeq` followed by `MutateIncDec`, on every node |
| Registry.BasicFirstMatchShortCircuit | mutators.go:28-38 | the registry lemmas instantiated for `BasicMutators`: it mutates iff one of the two operators in `Standard` does; a `MutateEqNeq` match is returned without `MutateIncDec`; no match gives back the original node unmutated |
| MutatorLaws.EqNeqInvolution | mutators.go:51-59 | flipping `==`/`!=` changes the operator, and flipping twice restores the original expression with the flag still set |
| MutatorLaws.IncDecInvolution | mutators.go:74-79 | flipping `++`/`--` changes the token, and flipping twice restores the original statement with the flag still set |
| MutatorLaws.MutateTwiceRestores | mutators.go:19-82 | every operator applied twice gives back its input and reports the same flag both times |
| MutatorLaws.MutatedIffChanged | mutators.go:27-82 | on nodes whose increment/decrement token (if any) is `++` or `--`, `MutateEqNeq`, `MutateIncDec` and `BasicMutators` report a mutation exactly when the node changed |
| MutatorLaws.UnshapedIncDecReportedButUnchanged | mutators.go:74-81 | every increment/decrement statement with a token other than `++`/`--` is reported mutated but comes back unchanged, by `MutateIncDec` and by `BasicMutators` |
| MutatorLaws.NullReportsWithoutChange | mutators.go:19-21 | `NullMutate`'s contract seen through the `Mutator` interface: `NullMutator` reports a mutation without changing the node |
| Syntax.SkeletonAndOperatorDetermineNode | mutators.go:51-59 | two nodes with the same skeleton are equal exactly when their operator tokens are equal, so the operators, which assign only `Op` or `Tok`, change nothing else |

## Left out

- Aliasing: the Go operators overwrite the operator field of the node they are given and return the same pointer, so the caller's node changes too. The model returns the rewritten node as a new value.
- Nil nodes: a nil `*ast.BinaryExpr` or `*ast.IncDecStmt` would make the Go operators panic. The model has no nil node.
- Token numbering: `go/token` tokens are integers. The model uses a closed set of named tokens, because the operators only compare tokens for equality. Tokens that cannot stand in a binary expression or an increment/decrement statement are left out; `Illegal` stands for any of them.
- Node kinds other than binary expressions and increment/decrement statements are represented by a few generic shapes. The operators never look inside them.
- main.go `RunTestsOnceWithMutator`, `Go`, `writeFilesToTmpDir`, `pathExists`: filesystem I/O, an environment-variable lookup, temporary directories and printing syntax trees back to source. None of this is pure logic.
- main.go `runTests`: runs `go test` as a subprocess and parses its output. Its result is always `true`, so there is no verdict logic to model.
- main.go `rewriteImportsInFile`: a thin wrapper over an import-rewriting library whose behaviour is not part of this model.
- The tree walk in main.go: it delegates to an external tree-rewriting library whose traversal and stop/continue rules are not part of this model.
- cli/main.go: flag parsing and the entry point only.
