/** The fragment of Go's syntax tree that the mutation operators look at.

    A Go `ast.Node` is an interface over many node kinds; the operators only
    distinguish binary expressions and increment/decrement statements, so every
    other kind is represented by an identifier, a literal, or a generic node
    carrying its kind name and children.
 */
module Syntax {

  /** The operator tokens of `go/token` that can stand in a binary expression
      or an increment/decrement statement, plus `Illegal` (the zero token),
      which stands for any other token. */
  datatype Token =
    | Illegal
    | Add | Sub | Mul | Quo | Rem
    | And | Or | Xor | Shl | Shr | AndNot
    | LAnd | LOr
    | Inc | Dec
    | Eql | Lss | Gtr | Neq | Leq | Geq

  /** A syntax node. `BinaryExpr` and `IncDecStmt` carry the same fields as
      their `go/ast` counterparts (operands, operator position, operator). */
  datatype Node =
    | BinaryExpr(x: Node, opPos: nat, op: Token, y: Node)
    | IncDecStmt(x: Node, tokPos: nat, tok: Token)
    | Ident(name: string)
    | BasicLit(value: string)
    | OtherNode(kind: string, children: seq<Node>)

  /** The operator token a node carries, if it is of a kind that has one. */
  function OperatorOf(n: Node): (t: Option<Token>)
    ensures t.Some? <==> (n.BinaryExpr? || n.IncDecStmt?)
  {
    match n
    case BinaryExpr(_, _, op, _) => Some(op)
    case IncDecStmt(_, _, tok) => Some(tok)
    case _ => None
  }

  /** The node with its operator token erased: two nodes with the same
      skeleton differ at most in their own operator token. */
  function Skeleton(n: Node): (s: Node)
    ensures OperatorOf(s).Some? ==> OperatorOf(s) == Some(Illegal)
    ensures s.BinaryExpr? <==> n.BinaryExpr?
    ensures s.IncDecStmt? <==> n.IncDecStmt?
    ensures OperatorOf(n).None? ==> s == n
  {
    match n
    case BinaryExpr(x, pos, _, y) => BinaryExpr(x, pos, Illegal, y)
    case IncDecStmt(x, pos, _) => IncDecStmt(x, pos, Illegal)
    case _ => n
  }

  /** A node is determined by its skeleton and its operator token. */
  lemma SkeletonAndOperatorDetermineNode(a: Node, b: Node)
    requires Skeleton(a) == Skeleton(b)
    ensures a == b <==> OperatorOf(a) == OperatorOf(b)
  {
  }

  /** An increment/decrement statement's token is `++` or `--`, as in every
      statement the Go parser produces; other nodes are unconstrained. */
  predicate IncDecTokIsIncOrDec(n: Node)
  {
    n.IncDecStmt? ==> n.tok == Inc || n.tok == Dec
  }

  datatype Option<T> = None | Some(value: T)
}
