/** The SELECT record builder (src/parser/select.rs). */
module SelectParser {
  import opened Wrappers
  import Ast
  import opened ConditionParser

  datatype SelectQuery = SelectQuery(from: seq<Ast.FromType>, projection: seq<string>, condition: Option<Condition>)

  /** The outcome the WHERE part contributes: no condition, or its translation. */
  function ConditionOf(selection: Option<Ast.Expr>): (r: Result<Option<Condition>>)
    ensures r.Ok? <==> selection.None? || FromExpr(selection.value).Ok?
    ensures r.Ok? ==> (r.value.Some? <==> selection.Some?)
    ensures r.Ok? && selection.Some? ==> r.value.value == FromExpr(selection.value).value
    ensures r.Err? ==> r.msg == FromExpr(selection.value).msg
  {
    match selection
    case None => Ok(None)
    case Some(e) => var c :- FromExpr(e); Ok(Some(c))
  }

  /** `SelectQuery::format_stat`. A plain SELECT gives its FROM list, one
      projection text per select item in order, and a condition exactly when
      there is a WHERE; another query body is an error; a statement that is
      not a query gives the empty record. */
  method FormatStat(stmt: Ast.Statement) returns (r: Result<SelectQuery>)
    ensures !stmt.Query? ==> r == Ok(SelectQuery([], [], None))
    ensures stmt.Query? && !stmt.body.Select? ==> r == Err("Error")
    ensures stmt.Query? && stmt.body.Select? ==>
              var sel := stmt.body;
              && (r.Ok? <==> ConditionOf(sel.selection).Ok?)
              && (r.Err? ==> r.msg == ConditionOf(sel.selection).msg)
              && (r.Ok? ==> r.value.from == sel.from)
              && (r.Ok? ==> r.value.condition.Some? == sel.selection.Some?)
              && (r.Ok? && sel.selection.Some? ==> r.value.condition == Some(FromExpr(sel.selection.value).value))
              && (r.Ok? ==> |r.value.projection| == |sel.projection|)
              && (r.Ok? ==> forall k :: 0 <= k < |sel.projection| ==>
                              r.value.projection[k] == Ast.ShowItem(sel.projection[k]))
  {
    var selectFrom: seq<Ast.FromType> := [];
    var selectProjections: seq<string> := [];
    var selectCondition: Option<Condition> := None;
    match stmt {
      case Query(body) =>
        match body {
          case Select(projects, froms, exprs) =>
            if exprs.Some? {
              var c := FromExpr(exprs.value);
              if c.Err? {
                return Err(c.msg);
              }
              selectCondition := Some(c.value);
            }
            selectFrom := froms;
            for k := 0 to |projects|
              invariant |selectProjections| == k
              invariant forall j :: 0 <= j < k ==> selectProjections[j] == Ast.ShowItem(projects[j])
            {
              var cname := Ast.ShowItem(projects[k]);
              selectProjections := selectProjections + [cname];
            }
          case _ =>
            return Err("Error");
        }
      case _ =>
    }
    return Ok(SelectQuery(selectFrom, selectProjections, selectCondition));
  }
}
