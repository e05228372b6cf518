/** A mirror of the part of the sqlparser statement tree that the front end
    matches on. Variants the program never distinguishes are folded into one
    `Other…` case. `Show` stands for sqlparser's `Display`: the program only
    ever stores what it prints. */
module Ast {
  import opened Wrappers

  datatype BinaryOperator =
    | Gt | Lt | Eq | And | Or
    | NotEq | GtEq | LtEq | Plus | Minus | Multiply | Divide
    | OtherOperator(symbol: string)

  datatype Value =
    | Number(text: string)
    | SingleQuotedString(text: string)
    | Boolean(b: bool)
    | Null
    | OtherValue(text: string)

  datatype Expr =
    | Identifier(name: string)
    | ValueExpr(value: Value)
    | BinaryOp(left: Expr, op: BinaryOperator, right: Expr)
    | IsNull(operand: Expr)
    | Like(negated: bool, expr: Expr, pattern: Expr)
    | OtherExpr(text: string)

  datatype SelectItem =
    | UnnamedExpr(expr: Expr)
    | ExprWithAlias(expr: Expr, alias: string)
    | Wildcard

  /** Column types of a CREATE TABLE; length parameters are not kept. */
  datatype SqlDataType =
    | CharType | FloatType | IntType | DoubleType | BooleanType | TextType | VarcharType
    | OtherType(text: string)

  datatype ColumnOption =
    | Unique(isPrimary: bool)
    | NotNull
    | NullOption
    | Default(expr: Expr)
    | OtherOption

  datatype ColumnDef = ColumnDef(name: string, dataType: SqlDataType, options: seq<ColumnOption>)

  datatype TableConstraint =
    | ForeignKey(columns: seq<string>, foreignTable: string, referredColumns: seq<string>)
    | OtherConstraint

  /** A FROM item after the program's own `FromType::new` (src/parser/join.rs,
      not part of this model): a plain table or a two-table join. */
  datatype JoinInfo = JoinInfo(leftTable: string, rightTable: string)

  datatype FromType =
    | FromString(tb: string)
    | FromJoin(joinInfo: JoinInfo)

  datatype SetExpr =
    | Select(projection: seq<SelectItem>, from: seq<FromType>, selection: Option<Expr>)
    | Values(rows: seq<seq<Expr>>)
    | OtherSetExpr

  datatype Statement =
    | Query(body: SetExpr)
    | CreateTable(name: string, columns: seq<ColumnDef>, constraints: seq<TableConstraint>)
    | Insert(tableName: string, insertColumns: seq<string>, source: SetExpr)
    | Delete(from: seq<FromType>, selection: Option<Expr>)
    | Drop(names: seq<string>)
    | OtherStatement

  function ShowOperator(op: BinaryOperator): string {
    match op
    case Gt => ">"
    case Lt => "<"
    case Eq => "="
    case And => "AND"
    case Or => "OR"
    case NotEq => "<>"
    case GtEq => ">="
    case LtEq => "<="
    case Plus => "+"
    case Minus => "-"
    case Multiply => "*"
    case Divide => "/"
    case OtherOperator(s) => s
  }

  function ShowValue(v: Value): string {
    match v
    case Number(t) => t
    case SingleQuotedString(t) => "'" + t + "'"
    case Boolean(b) => if b then "true" else "false"
    case Null => "NULL"
    case OtherValue(t) => t
  }

  function Show(e: Expr): string {
    match e
    case Identifier(n) => n
    case ValueExpr(v) => ShowValue(v)
    case BinaryOp(l, op, r) => Show(l) + " " + ShowOperator(op) + " " + Show(r)
    case IsNull(x) => Show(x) + " IS NULL"
    case Like(neg, x, p) => Show(x) + (if neg then " NOT LIKE " else " LIKE ") + Show(p)
    case OtherExpr(t) => t
  }

  function ShowItem(item: SelectItem): string {
    match item
    case UnnamedExpr(e) => Show(e)
    case ExprWithAlias(e, a) => Show(e) + " AS " + a
    case Wildcard => "*"
  }
}
