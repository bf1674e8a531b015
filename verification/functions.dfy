/** The free functions of the library's function header: `value`, `verbatim`,
    `flatten`, `value_list` and `get_sql_name`. */
module Functions {
  import opened Wrappers
  import opened Strings
  import opened Expressions

  /** What a caller hands to `value()` or puts in a container: a host value,
      or something that is already an SQL value (has a value type). */
  datatype Host = Plain(v: RawValue) | Sql(e: Expr)

  /** `value(x)`: wraps a host value into an operand whose value type is
      inferred from the host value's domain; an SQL value is refused. */
  function Value(h: Host): (r: Result<Expr, Error>)
    ensures r.Ok? <==> h.Plain?
    ensures h.Sql? ==> r == Err(AlreadySqlValue)
    ensures r.Ok? ==> IsExpression(r.value) && WellFormed(r.value)
    ensures r.Ok? ==> ValueTypeOf(r.value) == ValueType(DomainOf(h.v), false)
    ensures r.Ok? ==> forall db :: Serialize(r.value, db) == Ok(db.literal(h.v))
  {
    match h
    case Plain(v) => Ok(Raw(v))
    case Sql(_) => Err(AlreadySqlValue)
  }

  /** `verbatim<ValueType>(s)`: an expression of the declared value type whose
      text is `s`, whatever the database. */
  function MakeVerbatim(text: string, vt: ValueType): (r: Expr)
    ensures IsExpression(r) && WellFormed(r)
    ensures ValueTypeOf(r) == vt
    ensures forall db :: Serialize(r, db) == Ok(text)
  {
    Verbatim(text, vt)
  }

  /** `flatten(e, db)`: renders `e` for `db` at once and keeps only the text,
      as a verbatim fragment of `e`'s base value type. Rendering the result
      for any database gives back the text `e` has for `db`. */
  function Flatten(e: Expr, db: Dialect): (r: Result<Expr, Error>)
    ensures r.Ok? <==> IsExpression(e) && Serialize(e, db).Ok?
    ensures !IsExpression(e) ==> r == Err(NotAnExpression)
    ensures IsExpression(e) && Serialize(e, db).Err? ==> r == Err(ExistsUnsupported)
    ensures r.Ok? ==> r.value.Verbatim? && WellFormed(r.value)
    ensures r.Ok? ==> ValueTypeOf(r.value) == BaseValueType(ValueTypeOf(e))
    ensures r.Ok? ==> forall db' :: Serialize(r.value, db') == Serialize(e, db)
  {
    if !IsExpression(e) then Err(NotAnExpression)
    else
      var text :- Serialize(e, db);
      Ok(MakeVerbatim(text, BaseValueType(ValueTypeOf(e))))
  }

  /** Flattening a flattened fragment changes nothing, for any database. */
  lemma FlattenIdempotent(e: Expr, db: Dialect, db': Dialect)
    requires Flatten(e, db).Ok?
    ensures Flatten(Flatten(e, db).value, db') == Flatten(e, db)
  {
  }

  /** A container handed to `value_list()`: host values of one element
      domain, or fragments that are already SQL values. */
  datatype Container = PlainItems(elemType: SqlType, items: seq<RawValue>) | SqlItems(exprs: seq<Expr>)

  /** A host container holds values of its element type only. */
  predicate WellTyped(c: Container)
  {
    c.PlainItems? ==> forall k :: 0 <= k < |c.items| ==> DomainOf(c.items[k]) == c.elemType
  }

  /** `value_list(c)`: the list fragment for an `in()` test; a container of
      SQL values is refused. */
  function MakeValueList(c: Container): (r: Result<Expr, Error>)
    requires WellTyped(c)
    ensures r.Ok? <==> c.PlainItems?
    ensures c.SqlItems? ==> r == Err(AlreadySqlValue)
    ensures r.Ok? ==> IsExpression(r.value) && WellFormed(r.value)
    ensures r.Ok? ==> ValueTypeOf(r.value) == ValueType(c.elemType, false)
    ensures r.Ok? ==> r.value.ValueList? && r.value.items == c.items
  {
    match c
    case PlainItems(t, items) => Ok(ValueList(t, items))
    case SqlItems(_) => Err(AlreadySqlValue)
  }

  /** `value_list_t::serialize`, written as the loop the library runs: a
      `first` flag suppresses the comma before the first element. */
  method RenderValueList(list: Expr, db: Dialect) returns (out: string)
    requires list.ValueList?
    ensures Serialize(list, db) == Ok(out)
  {
    var items := list.items;
    out := "";
    var first := true;
    for i := 0 to |items|
      invariant first <==> i == 0
      invariant out == Join(Literals(items[..i], db), ValueListSeparator)
    {
      if first {
        first := false;
      } else {
        out := out + ValueListSeparator;
      }
      out := out + db.literal(items[i]);
      assert Literals(items[..i + 1], db) == Literals(items[..i], db) + [db.literal(items[i])];
      JoinSnoc(Literals(items[..i], db), db.literal(items[i]), ValueListSeparator);
    }
    assert items[..|items|] == items;
  }

  /** An empty value list renders as nothing at all (an `in()` with no
      values is left to the caller to guard against). */
  lemma ValueListEmpty(t: SqlType, db: Dialect)
    ensures Serialize(ValueList(t, []), db) == Ok("")
  {
  }

  /** A value list of n >= 1 elements renders as the n literals in container
      order, cut apart by the commas between them: splitting the text at its
      commas gives back exactly the literals, when no literal contains a comma. */
  lemma ValueListRoundTrip(t: SqlType, items: seq<RawValue>, db: Dialect)
    requires |items| >= 1
    requires forall k :: 0 <= k < |items| ==> ',' !in db.literal(items[k])
    ensures Serialize(ValueList(t, items), db).Ok?
    ensures Split(Serialize(ValueList(t, items), db).value, ',') == Literals(items, db)
  {
    SplitJoin(Literals(items, db), ',');
  }

  /** ...and the text of n >= 1 comma-free literals has exactly n - 1 commas. */
  lemma ValueListCommas(t: SqlType, items: seq<RawValue>, db: Dialect)
    requires |items| >= 1
    requires forall k :: 0 <= k < |items| ==> ',' !in db.literal(items[k])
    ensures Serialize(ValueList(t, items), db).Ok?
    ensures Count(Serialize(ValueList(t, items), db).value, ',') == |items| - 1
  {
    CountJoin(Literals(items, db), ',');
  }

  /** `get_sql_name(e)`: the fragment's SQL name; a fragment without one is
      refused. */
  function GetSqlName(e: Expr): (r: Result<string, Error>)
    ensures e.Exists? ==> r == Ok("EXISTS")
    ensures r.Ok? <==> e.Exists? || (e.Leaf? && e.name.Some?)
    ensures e.Leaf? && e.name.Some? ==> r == Ok(e.name.value)
    ensures r.Err? ==> r.error == Unnamed
  {
    match e
    case Exists(_) => Ok(ExistsName)
    case Leaf(_, Some(name), _, _, _) => Ok(name)
    case _ => Err(Unnamed)
  }
}
