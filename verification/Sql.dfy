/** Parsed S3 Select queries. */
module Sql {
  import opened Wrappers

  /** Quoted names match case-sensitively. */
  datatype Column = Column(name: string, quoted: bool)

  /** A literal. A float keeps its numeral; `Host.float` gives its value. */
  datatype Value = Null | Bool(b: bool) | Int(n: int) | Float(numeral: string) | Str(s: string)

  datatype Operand = Col(column: Column) | Lit(value: Value)

  datatype Op = Eq | Ne | Gt | Ge | Lt | Le

  datatype Connective = And | Or

  /** The members of an IN list; the grammar asks for at least one. */
  type Members = s: seq<Value> | s != [] witness [Null]

  datatype Condition =
    | Comparison(op: Op, left: Operand, right: Operand)
    | IsNull(operand: Operand, negated: bool)
    | InList(operand: Operand, values: Members, negated: bool)
    | Between(operand: Operand, low: Operand, high: Operand, negated: bool)
    | Like(operand: Operand, pattern: string, negated: bool)
    | BoolOp(connective: Connective, lhs: Condition, rhs: Condition)
    | Not(inner: Condition)

  /** `projection` is None for SELECT *; otherwise (column, output name) pairs. */
  datatype Query = Query(
    projection: Option<seq<(Column, string)>>,
    where: Option<Condition>,
    limit: Option<nat>,
    columnsUsed: seq<Column>)

  function OperandColumns(o: Operand): seq<Column> {
    match o case Col(c) => [c] case Lit(_) => []
  }

  /** The columns of a condition in the order they are written. */
  function ColumnsOf(c: Condition): seq<Column> {
    match c
    case Comparison(_, l, r) => OperandColumns(l) + OperandColumns(r)
    case IsNull(o, _) => OperandColumns(o)
    case InList(o, _, _) => OperandColumns(o)
    case Between(o, low, high, _) => OperandColumns(o) + OperandColumns(low) + OperandColumns(high)
    case Like(o, _, _) => OperandColumns(o)
    case BoolOp(_, l, r) => ColumnsOf(l) + ColumnsOf(r)
    case Not(x) => ColumnsOf(x)
  }
}
