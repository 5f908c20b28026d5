/**
 * The fragment of Calcite's relational algebra that the journalled-table
 * rewrite builds: row expressions (Rex) and relational operators (RelNode).
 */
module Rel {

  /** Aggregate functions usable in a windowed aggregate; the rewrite uses MAX. */
  datatype AggFunction = Max

  /** Bounds of a ROWS window frame. */
  datatype FrameBound = UnboundedPreceding | CurrentRow | UnboundedFollowing

  datatype Frame = Rows(lower: FrameBound, upper: FrameBound)

  /** ROWS BETWEEN UNBOUNDED PRECEDING AND UNBOUNDED FOLLOWING: the whole partition. */
  const WholePartition: Frame := Rows(UnboundedPreceding, UnboundedFollowing)

  /** Row expressions. An InputRef names a column of the input by position. */
  datatype Rex =
    | InputRef(index: nat)
    | Over(agg: AggFunction, operands: seq<Rex>, partitionKeys: seq<Rex>, frame: Frame)
    | Equals(left: Rex, right: Rex)
    | IsNull(operand: Rex)
    | And(left: Rex, right: Rex)

  /** Relational operators; a Scan names a physical table by its qualified name. */
  datatype RelNode =
    | Scan(table: seq<string>, columns: seq<string>)
    | Project(input: RelNode, exprs: seq<Rex>, names: seq<string>)
    | Filter(input: RelNode, condition: Rex)

  /** The names of the columns a node produces. */
  function RowType(node: RelNode): seq<string> {
    match node
    case Scan(_, columns) => columns
    case Project(_, _, names) => names
    case Filter(input, _) => RowType(input)
  }

  /** References to the first n input columns, in order. */
  function Identity(n: nat): seq<Rex> {
    seq(n, k requires 0 <= k < n => InputRef(k))
  }

  function DecimalDigit(d: nat): char
    requires d < 10
  {
    "0123456789"[d]
  }

  function Decimal(n: nat): string
    decreases n
  {
    if n < 10 then [DecimalDigit(n)] else Decimal(n / 10) + [DecimalDigit(n % 10)]
  }

  /** The name Calcite derives for an unnamed expression at position index: "$f" + index. */
  function DerivedFieldName(index: nat): string {
    "$f" + Decimal(index)
  }
}
