/** The INSERT record builder (src/parser/insert.rs). */
module InsertParser {
  import opened Wrappers
  import Ast

  datatype InsertQuery = InsertQuery(tbName: string, cols: seq<string>, rows: seq<seq<string>>)

  /** The text a VALUES cell contributes: a number's digits, "true"/"false",
      a quoted string's content, "NULL"; any other literal or a non-literal
      expression is an error. */
  function CellText(e: Ast.Expr): (r: Result<string>)
    ensures r.Ok? <==> e.ValueExpr? && !e.value.OtherValue?
    ensures r.Err? ==> r.msg == (if e.ValueExpr? then "Invalid type." else "Invalid operation.")
    ensures e.ValueExpr? && e.value.Number? ==> r == Ok(e.value.text)
    ensures e.ValueExpr? && e.value.Boolean? ==> r == Ok(if e.value.b then "true" else "false")
    ensures e.ValueExpr? && e.value.SingleQuotedString? ==> r == Ok(e.value.text)
    ensures e.ValueExpr? && e.value.Null? ==> r == Ok("NULL")
  {
    match e
    case ValueExpr(v) =>
      (match v
       case Number(x) => Ok(x)
       case Boolean(x) => Ok(if x then "true" else "false")
       case SingleQuotedString(x) => Ok(x)
       case Null => Ok("NULL")
       case _ => Err("Invalid type."))
    case _ => Err("Invalid operation.")
  }

  /** Cell `(i, j)` of `vals` is the first failing cell in row-major order. */
  predicate FirstBadCell(vals: seq<seq<Ast.Expr>>, i: nat, j: nat)
    requires i < |vals| && j < |vals[i]|
  {
    && CellText(vals[i][j]).Err?
    && (forall a, b :: 0 <= a < i && 0 <= b < |vals[a]| ==> CellText(vals[a][b]).Ok?)
    && (forall b :: 0 <= b < j ==> CellText(vals[i][b]).Ok?)
  }

  predicate AllCellsOk(vals: seq<seq<Ast.Expr>>) {
    forall a, b :: 0 <= a < |vals| && 0 <= b < |vals[a]| ==> CellText(vals[a][b]).Ok?
  }

  /** `InsertQuery::new` on an already parsed statement. */
  method New(stmt: Ast.Statement) returns (r: Result<InsertQuery>)
    ensures !stmt.Insert? || !stmt.source.Values? ==> r == Err("Invalid operation.")
    ensures stmt.Insert? && stmt.source.Values? ==> (r.Ok? <==> AllCellsOk(stmt.source.rows))
    ensures stmt.Insert? && stmt.source.Values? && r.Err? ==>
              exists i, j :: 0 <= i < |stmt.source.rows| && 0 <= j < |stmt.source.rows[i]| &&
                             FirstBadCell(stmt.source.rows, i, j) && r.msg == CellText(stmt.source.rows[i][j]).msg
    ensures r.Ok? ==> r.value.tbName == stmt.tableName && r.value.cols == stmt.insertColumns
    ensures r.Ok? ==> |r.value.rows| == |stmt.source.rows|
    ensures r.Ok? ==> forall i :: 0 <= i < |r.value.rows| ==> |r.value.rows[i]| == |stmt.source.rows[i]|
    ensures r.Ok? ==> forall i, j :: 0 <= i < |r.value.rows| && 0 <= j < |r.value.rows[i]| ==>
                        r.value.rows[i][j] == CellText(stmt.source.rows[i][j]).value
  {
    if !stmt.Insert? {
      return Err("Invalid operation.");
    }
    var tbName := stmt.tableName;
    var colsData: seq<string> := [];
    for k := 0 to |stmt.insertColumns|
      invariant colsData == stmt.insertColumns[..k]
    {
      colsData := colsData + [stmt.insertColumns[k]];
    }
    assert stmt.insertColumns[..|stmt.insertColumns|] == stmt.insertColumns;
    if !stmt.source.Values? {
      return Err("Invalid operation.");
    }
    var vals := stmt.source.rows;
    var rowsData: seq<seq<string>> := [];
    for i := 0 to |vals|
      invariant |rowsData| == i
      invariant forall a :: 0 <= a < i ==> |rowsData[a]| == |vals[a]|
      invariant forall a, b :: 0 <= a < i && 0 <= b < |vals[a]| ==>
                  CellText(vals[a][b]).Ok? && rowsData[a][b] == CellText(vals[a][b]).value
    {
      var rowVals: seq<string> := [];
      for j := 0 to |vals[i]|
        invariant |rowVals| == j
        invariant forall b :: 0 <= b < j ==> CellText(vals[i][b]).Ok? && rowVals[b] == CellText(vals[i][b]).value
      {
        var it := vals[i][j];
        var text := CellText(it);
        if text.Err? {
          assert FirstBadCell(vals, i, j);
          return Err(text.msg);
        }
        rowVals := rowVals + [text.value];
      }
      rowsData := rowsData + [rowVals];
    }
    return Ok(InsertQuery(tbName, colsData, rowsData));
  }
}
