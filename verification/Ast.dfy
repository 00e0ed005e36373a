/** Expression trees. As in the parser's output every node has a kind, its source text and its
    children in order; an operator's spelling is part of the kind. */
module Ast {
  import opened Wrappers
  import opened Identifier
  import opened Types

  datatype CompareOp = Eq | Ne | Lt | Gt | Le | Ge

  datatype BinaryOp =
    | And | Or
    | Compare(op: CompareOp)
    | DistinctFrom(negated: bool)
    | Quantified(op: CompareOp, all: bool)
    | Arith(arith: ArithOp)
    | Concat
    | When
    | OtherBinary

  datatype UnaryOp = Not | Minus | Plus | Exists | OtherUnary

  datatype Truth = IsTrue | IsFalse | IsUnknown

  datatype Kind =
    | IntegerLiteral | FloatLiteral | StringLiteral | BooleanLiteral(b: bool) | NullLiteral
    | IntervalLiteral | DateTimeLiteral(type_: DataType)
    | ColumnRef | FunctionCall | Star
    | Binary(bin: BinaryOp) | Unary(un: UnaryOp)
    | Case | In(negated: bool) | Between(negated: bool) | Like(negated: bool)
    | IsNull(negated: bool) | BooleanTest(truth: Truth, negated: bool)
    | Cast | TypeName | Parameter | ArrayConstructor | RowConstructor | Collate
    | Subquery | Other

  datatype Node = Node(kind: Kind, text: string, children: seq<Node>)

  predicate IsWhen(n: Node) { n.kind == Binary(When) }

  /** A CASE whose first child is not a WHEN compares that operand with each WHEN value. */
  predicate IsSimpleCase(n: Node) {
    n.children != [] && !IsWhen(n.children[0])
  }

  /** Function names are matched by their folded spelling. */
  const AGGREGATES: seq<string> :=
    ["count", "sum", "avg", "min", "max", "stddev", "stddev_pop", "stddev_samp", "variance", "var_pop", "var_samp",
     "string_agg", "array_agg", "bool_and", "bool_or", "every"]

  predicate IsAggregateName(folded: string) { folded in AGGREGATES }

  /** A call computed over the group rather than the row: an aggregate, or GROUPING. */
  predicate IsGroupCall(n: Node) {
    n.kind.FunctionCall? && (IsAggregateName(Fold(n.text)) || Fold(n.text) == "grouping")
  }

  /** EXTRACT and DATE_PART open with a date-part keyword, not a column. */
  predicate HasDatePart(n: Node) {
    && (Fold(n.text) == "extract" || Fold(n.text) == "date_part")
    && n.children != [] && n.children[0].kind.ColumnRef?
  }

  /** The spelling of a cast's target type. */
  function CastTarget(n: Node): string {
    if |n.children| > 1 && n.children[1].kind.TypeName? then n.children[1].text else ""
  }
}
