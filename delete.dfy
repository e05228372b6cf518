/** The DELETE record builder (src/parser/delete.rs). */
module DeleteParser {
  import opened Wrappers
  import Ast
  import opened ConditionParser

  datatype DeleteQuery = DeleteQuery(tbName: string, condition: Option<Condition>)

  /** `DeleteQuery::format_stat`. The table name is taken when the first FROM
      item is a plain table and is "" otherwise; the WHERE part is required
      and always translated. A statement that is not a DELETE gives the
      empty record. */
  function FormatStat(state: Ast.Statement): (r: Result<DeleteQuery>)
    ensures !state.Delete? ==> r == Ok(DeleteQuery("", None))
    ensures state.Delete? ==>
              (r.Ok? <==> |state.from| > 0 && state.selection.Some? && FromExpr(state.selection.value).Ok?)
    ensures state.Delete? && r.Ok? ==>
              && r.value.condition == Some(FromExpr(state.selection.value).value)
              && r.value.tbName == (if state.from[0].FromString? then state.from[0].tb else "")
  {
    match state
    case Delete(from, selection) =>
      if |from| == 0 then Err(UnwrapNone)
      else
        var tbName := match from[0] case FromString(tb) => tb case _ => "";
        if selection.None? then Err(UnwrapNone)
        else
          var c :- FromExpr(selection.value);
          Ok(DeleteQuery(tbName, Some(c)))
    case _ => Ok(DeleteQuery("", None))
  }

  /** A DELETE without WHERE is an error, whatever its FROM list. */
  lemma DeleteNeedsWhere(from: seq<Ast.FromType>)
    ensures FormatStat(Ast.Delete(from, None)).Err?
  {
  }

  /** Any produced DELETE condition is a well-formed predicate tree. */
  lemma DeleteConditionWellFormed(state: Ast.Statement)
    requires FormatStat(state).Ok? && FormatStat(state).value.condition.Some?
    ensures WellFormed(FormatStat(state).value.condition.value)
  {
    FromExprWellFormed(state.selection.value);
  }
}
