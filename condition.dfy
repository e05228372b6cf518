/** Translation of a WHERE expression into the predicate tree
    (src/parser/condition.rs). The operator enum `BinaryOpCus` is declared in
    src/parser/select.rs; it lives here because that file and this one use
    each other, and Dafny modules may not import each other in a cycle. */
module ConditionParser {
  import opened Wrappers
  import Ast

  datatype BinaryOpCus = Lt | Gt | Eq | And | Or | IsNull | IsTrue | Like

  /** A comparison names a column and an optional literal, both as text; a
      logical node owns its two sub-conditions. */
  datatype Condition =
    | Comparison(left: string, op: BinaryOpCus, right: Option<string>)
    | Logical(lhs: Condition, op: BinaryOpCus, rhs: Condition)

  /** The five binary operators the translator knows. */
  function KnownOperator(op: Ast.BinaryOperator): (r: Result<BinaryOpCus>)
    ensures r.Ok? <==> op == Ast.Gt || op == Ast.Lt || op == Ast.Eq || op == Ast.And || op == Ast.Or
    ensures r.Err? ==> r.msg == "not implemented"
    ensures r.Ok? ==> (r.value == And <==> op == Ast.And) && (r.value == Or <==> op == Ast.Or)
  {
    match op
    case Gt => Ok(Gt)
    case Lt => Ok(Lt)
    case Eq => Ok(Eq)
    case And => Ok(And)
    case Or => Ok(Or)
    case _ => Err("not implemented")
  }

  /** `Condition::from_expr`. */
  function FromExpr(e: Ast.Expr): (r: Result<Condition>)
    ensures r.Err? ==> r.msg == "not implemented" || r.msg == "Invalid operation."
    ensures r.Ok? ==> (r.value.Logical? <==> e.BinaryOp? && (e.op == Ast.And || e.op == Ast.Or))
  {
    match e
    case BinaryOp(left, op, right) =>
      var exprOp :- KnownOperator(op);
      if exprOp == And || exprOp == Or then
        var l :- FromExpr(left);
        var r :- FromExpr(right);
        Ok(Logical(l, exprOp, r))
      else
        Ok(Comparison(Ast.Show(left), exprOp, Some(Ast.Show(right))))
    case IsNull(x) => Ok(Comparison(Ast.Show(x), IsNull, None))
    case Like(_, x, pattern) => Ok(Comparison(Ast.Show(x), Like, Some(Ast.Show(pattern))))
    case _ => Err("Invalid operation.")
  }

  // ---------------------------------------------------------------------
  // Reference definitions

  predicate IsConnective(op: Ast.BinaryOperator) {
    op == Ast.And || op == Ast.Or
  }

  /** The expressions the translator accepts: AND/OR trees whose leaves are
      `>`, `<` or `=` comparisons, IS NULL or LIKE. */
  predicate Translatable(e: Ast.Expr) {
    match e
    case BinaryOp(l, op, r) =>
      if IsConnective(op) then Translatable(l) && Translatable(r)
      else op == Ast.Gt || op == Ast.Lt || op == Ast.Eq
    case IsNull(_) => true
    case Like(_, _, _) => true
    case _ => false
  }

  /** Connectives only above comparisons, comparisons never with a
      connective or IS TRUE, and a missing right operand exactly for IS NULL. */
  predicate WellFormed(c: Condition) {
    match c
    case Comparison(_, op, right) =>
      (op == Lt || op == Gt || op == Eq || op == IsNull || op == Like) && (right.None? <==> op == IsNull)
    case Logical(l, op, r) => (op == And || op == Or) && WellFormed(l) && WellFormed(r)
  }

  function LogicalCount(c: Condition): nat {
    match c
    case Comparison(_, _, _) => 0
    case Logical(l, _, r) => 1 + LogicalCount(l) + LogicalCount(r)
  }

  /** AND/OR operators on the spine of the expression, that is, not inside
      the operand of a comparison. */
  function SpineConnectives(e: Ast.Expr): nat {
    match e
    case BinaryOp(l, op, r) => if IsConnective(op) then 1 + SpineConnectives(l) + SpineConnectives(r) else 0
    case _ => 0
  }

  /** AND/OR operators anywhere in the expression. */
  function AllConnectives(e: Ast.Expr): nat {
    match e
    case BinaryOp(l, op, r) => (if IsConnective(op) then 1 else 0) + AllConnectives(l) + AllConnectives(r)
    case IsNull(x) => AllConnectives(x)
    case Like(_, x, p) => AllConnectives(x) + AllConnectives(p)
    case _ => 0
  }

  // ---------------------------------------------------------------------
  // Properties of the translation

  /** The translation fails exactly on the expressions outside `Translatable`:
      any other operator or expression kind, anywhere on the AND/OR spine. */
  lemma {:induction false} FromExprSucceeds(e: Ast.Expr)
    ensures FromExpr(e).Ok? <==> Translatable(e)
  {
    match e
    case BinaryOp(l, op, r) =>
      if IsConnective(op) {
        FromExprSucceeds(l);
        FromExprSucceeds(r);
      }
    case _ =>
  }

  /** Every produced tree is well formed; in particular IS TRUE never appears. */
  lemma {:induction false} FromExprWellFormed(e: Ast.Expr)
    requires FromExpr(e).Ok?
    ensures WellFormed(FromExpr(e).value)
  {
    match e
    case BinaryOp(l, op, r) =>
      if IsConnective(op) {
        FromExprWellFormed(l);
        FromExprWellFormed(r);
      }
    case _ =>
  }

  /** One logical node per AND/OR on the spine. */
  lemma {:induction false} FromExprLogicalCount(e: Ast.Expr)
    requires FromExpr(e).Ok?
    ensures LogicalCount(FromExpr(e).value) == SpineConnectives(e)
  {
    match e
    case BinaryOp(l, op, r) =>
      if IsConnective(op) {
        FromExprLogicalCount(l);
        FromExprLogicalCount(r);
      }
    case _ =>
  }

  /** AND/OR below a comparison is rendered into the comparison's text rather
      than translated, so the count of logical nodes is not the count of
      connectives in the whole expression. */
  lemma ConnectiveInsideComparison()
    ensures var e := Ast.BinaryOp(Ast.Identifier("a"), Ast.Gt,
                                  Ast.BinaryOp(Ast.Identifier("b"), Ast.And, Ast.Identifier("c")));
            && FromExpr(e) == Ok(Comparison("a", Gt, Some("b AND c")))
            && LogicalCount(FromExpr(e).value) == 0
            && AllConnectives(e) == 1
  {
    assert Ast.Show(Ast.BinaryOp(Ast.Identifier("b"), Ast.And, Ast.Identifier("c"))) == "b" + " " + "AND" + " " + "c";
    assert "b" + " " + "AND" + " " + "c" == "b AND c";
  }

  /** An AND/OR node becomes a logical node over the translated operands. */
  lemma FromExprConnective(l: Ast.Expr, op: Ast.BinaryOperator, r: Ast.Expr)
    requires IsConnective(op) && FromExpr(l).Ok? && FromExpr(r).Ok?
    ensures FromExpr(Ast.BinaryOp(l, op, r)) ==
              Ok(Logical(FromExpr(l).value, if op == Ast.And then And else Or, FromExpr(r).value))
  {
  }

  /** A `>`, `<` or `=` node becomes a comparison with the same operator,
      the rendered left operand and the rendered right operand. */
  lemma FromExprComparison(l: Ast.Expr, op: Ast.BinaryOperator, r: Ast.Expr)
    requires op == Ast.Gt || op == Ast.Lt || op == Ast.Eq
    ensures FromExpr(Ast.BinaryOp(l, op, r)) ==
              Ok(Comparison(Ast.Show(l), if op == Ast.Gt then Gt else if op == Ast.Lt then Lt else Eq,
                            Some(Ast.Show(r))))
  {
  }

  /** IS NULL becomes a comparison without a right operand. */
  lemma FromExprIsNull(x: Ast.Expr)
    ensures FromExpr(Ast.IsNull(x)) == Ok(Comparison(Ast.Show(x), IsNull, None))
  {
  }

  /** NOT LIKE is translated exactly as LIKE: the negation is dropped. */
  lemma NotLikeIsLike(x: Ast.Expr, p: Ast.Expr)
    ensures FromExpr(Ast.Like(true, x, p)) == FromExpr(Ast.Like(false, x, p))
    ensures FromExpr(Ast.Like(true, x, p)) == Ok(Comparison(Ast.Show(x), Like, Some(Ast.Show(p))))
  {
  }
}
