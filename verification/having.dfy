/** The HAVING clause of the library's having header. */
module HavingClause {
  import opened Wrappers
  import opened Strings
  import opened Expressions

  /** `having_t`: the clause holding one filter expression. */
  datatype Having = Having(expr: Expr) {
    /** The `_is_having` tag the query assembly uses to place the clause.
        It belongs to the type: every HAVING clause carries it. */
    predicate IsHaving() {
      true
    }
  }

  /** The keyword text the clause writes before its expression. */
  const HavingKeyword: string := " HAVING "

  /** `having_t` construction: the argument must be an expression, and there
      is always exactly one. */
  function MakeHaving(e: Expr): (r: Result<Having, Error>)
    ensures r.Ok? <==> IsExpression(e)
    ensures !IsExpression(e) ==> r == Err(NotAnExpression)
    ensures r.Ok? ==> r.value.expr == e
  {
    if IsExpression(e) then Ok(Having(e)) else Err(NotAnExpression)
  }

  /** `having_t::serialize`: ` HAVING ` then the expression's text. Unlike
      ON there is no empty case: a rendering is never empty and is exactly
      eight characters longer than the expression's text. */
  function SerializeHaving(h: Having, db: Dialect): (r: Result<string, Error>)
    ensures r.Ok? <==> Serialize(h.expr, db).Ok?
    ensures r.Err? ==> r == Err(ExistsUnsupported)
    ensures r.Ok? ==> |r.value| == 8 + |Serialize(h.expr, db).value|
    ensures r.Ok? ==> r.value != ""
    ensures r.Ok? ==> r.value[..8] == " HAVING " && r.value[8..] == Serialize(h.expr, db).value
  {
    var text :- Serialize(h.expr, db);
    Ok(HavingKeyword + text)
  }

  /** Stripping the keyword from a rendered HAVING gives back the expression's text. */
  lemma HavingUnwraps(h: Having, db: Dialect)
    requires SerializeHaving(h, db).Ok?
    ensures Unwrap(SerializeHaving(h, db).value, " HAVING ", "") == Some(Serialize(h.expr, db).value)
  {
    var s := Serialize(h.expr, db).value;
    UnwrapFramed(" HAVING ", s, "");
    assert " HAVING " + s + "" == " HAVING " + s;
  }
}
