/** The existence test `exists(select)` of the library's exists header. */
module ExistsFragment {
  import opened Wrappers
  import opened Strings
  import opened Expressions

  /** `exists(t)`: only a select-like argument is accepted; the fragment
      stores that select unchanged (whether it was copied or moved in), is
      boolean-typed and marked as a named expression. */
  function MakeExists(select: Expr): (r: Result<Expr, Error>)
    ensures r.Ok? <==> IsSelect(select)
    ensures !IsSelect(select) ==> r == Err(NotASelect)
    ensures r.Ok? ==> r.value.Exists? && r.value.select == select
    ensures r.Ok? ==> IsExpression(r.value) && WellFormed(r.value)
    ensures r.Ok? ==> ValueTypeOf(r.value) == ValueType(Boolean, true)
    ensures r.Ok? ==> BaseValueType(ValueTypeOf(r.value)) == ValueType(Boolean, false)
  {
    if IsSelect(select) then Ok(Exists(select)) else Err(NotASelect)
  }

  /** An EXISTS renders only for a database that supports it; then its text
      is the select's text wrapped in `EXISTS(` and `)`, and it depends on
      nothing but that select and the database. */
  lemma ExistsRendering(select: Expr, db: Dialect)
    ensures Serialize(Exists(select), db).Ok? <==> db.supportsExists
    ensures !db.supportsExists ==> Serialize(Exists(select), db) == Err(ExistsUnsupported)
    ensures db.supportsExists ==>
              Serialize(select, db).Ok? &&
              Serialize(Exists(select), db) == Ok("EXISTS(" + Serialize(select, db).value + ")")
  {
    assert ExistsName + "(" == "EXISTS(";
  }

  /** The text of an EXISTS is non-empty, starts with `EXISTS(`, ends with
      `)`, and unwrapping that frame gives back exactly the select's text. */
  lemma ExistsFramed(select: Expr, db: Dialect)
    requires db.supportsExists
    ensures Serialize(Exists(select), db).Ok?
    ensures var t := Serialize(Exists(select), db).value;
            |t| >= 8 && t[..7] == "EXISTS(" && t[|t| - 1] == ')'
    ensures Unwrap(Serialize(Exists(select), db).value, "EXISTS(", ")") == Some(Serialize(select, db).value)
  {
    ExistsRendering(select, db);
    UnwrapFramed("EXISTS(", Serialize(select, db).value, ")");
  }

  /** Two EXISTS fragments over selects that render alike render alike. */
  lemma ExistsDependsOnSelectOnly(s1: Expr, s2: Expr, db: Dialect)
    requires Serialize(s1, db) == Serialize(s2, db)
    ensures Serialize(Exists(s1), db) == Serialize(Exists(s2), db)
  {
  }
}
