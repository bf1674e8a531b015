/** The join condition `on_t` of the library's on header: a fixed run of
    static expressions plus, for a dynamic clause, a run of expressions added
    after construction. */
module OnClause {
  import opened Wrappers
  import opened Strings
  import opened Expressions

  /** The clause's `Database` template parameter: `void` for a static clause. */
  datatype DatabaseParam = Void | Database(name: string)

  /** `on_t`: the static expressions in declaration order and the dynamic
      expressions in the order they were added. */
  datatype On = On(isDynamic: bool, staticExprs: seq<Expr>, dynamicExprs: seq<Expr>) {
    /** The `_is_on` tag. It belongs to the type: every ON clause carries it. */
    predicate IsOn() {
      true
    }
  }

  /** The invariant construction establishes and `Add` keeps: every part is an
      expression, a static clause has a static part, and only a dynamic clause
      has dynamic parts. */
  predicate Valid(o: On)
  {
    && (forall k :: 0 <= k < |o.staticExprs| ==> IsExpression(o.staticExprs[k]))
    && (forall k :: 0 <= k < |o.dynamicExprs| ==> IsExpression(o.dynamicExprs[k]))
    && (!o.isDynamic ==> |o.staticExprs| >= 1 && |o.dynamicExprs| == 0)
  }

  /** The separator between two conditions of the chain. */
  const AndSeparator: string := " AND "

  /** The keyword text that opens a non-empty clause. */
  const OnKeyword: string := " ON "

  /** `on_t` construction: the clause is dynamic exactly when its database
      parameter is not void; a static clause needs at least one argument; and
      every argument must be an expression. */
  function MakeOn(db: DatabaseParam, args: seq<Expr>): (r: Result<On, Error>)
    ensures r.Ok? <==> (db.Database? || |args| > 0) && forall k :: 0 <= k < |args| ==> IsExpression(args[k])
    ensures db.Void? && |args| == 0 ==> r == Err(MissingOnExpression)
    ensures (db.Database? || |args| > 0) && (exists k :: 0 <= k < |args| && !IsExpression(args[k])) ==>
              r == Err(NotAnExpression)
    ensures r.Ok? ==> Valid(r.value)
    ensures r.Ok? ==> (r.value.isDynamic <==> db.Database?)
    ensures r.Ok? ==> r.value.staticExprs == args && r.value.dynamicExprs == []
  {
    if db.Void? && |args| == 0 then Err(MissingOnExpression)
    else if exists k :: 0 <= k < |args| && !IsExpression(args[k]) then Err(NotAnExpression)
    else Ok(On(db.Database?, args, []))
  }

  /** `on_t::add(e)`: appends an expression to the end of the dynamic part of
      a dynamic clause; nothing else changes. */
  function Add(o: On, e: Expr): (r: Result<On, Error>)
    ensures r.Ok? <==> o.isDynamic && IsExpression(e)
    ensures !o.isDynamic ==> r == Err(NotDynamic)
    ensures o.isDynamic && !IsExpression(e) ==> r == Err(NotAnExpression)
    ensures r.Ok? ==> |r.value.dynamicExprs| == |o.dynamicExprs| + 1
    ensures r.Ok? ==> r.value.dynamicExprs[..|o.dynamicExprs|] == o.dynamicExprs
    ensures r.Ok? ==> r.value.dynamicExprs[|o.dynamicExprs|] == e
    ensures r.Ok? ==> r.value.staticExprs == o.staticExprs && r.value.isDynamic
    ensures r.Ok? && Valid(o) ==> Valid(r.value)
  {
    if !o.isDynamic then Err(NotDynamic)
    else if !IsExpression(e) then Err(NotAnExpression)
    else Ok(o.(dynamicExprs := o.dynamicExprs + [e]))
  }

  /** `serialize_tuple(os, db, t, sep)`: the static expressions' texts joined
      by the separator. */
  function SerializeTuple(es: seq<Expr>, db: Dialect, sep: string): (r: Result<string, Error>)
    ensures r.Ok? <==> SerializeAll(es, db).Ok?
    ensures r.Err? ==> r.error == ExistsUnsupported
    ensures |es| == 0 ==> r == Ok("")
    ensures |es| == 1 ==> r == Serialize(es[0], db)
  {
    var parts :- SerializeAll(es, db);
    Ok(Join(parts, sep))
  }

  /** `serializable_list::serialize(os, db, sep, first)`: each element's text,
      preceded by the separator unless it opens the chain; `first` tells the
      list whether nothing has been written before it. */
  function SerializeList(es: seq<Expr>, db: Dialect, sep: string, first: bool): (r: Result<string, Error>)
    ensures r.Ok? <==> SerializeAll(es, db).Ok?
    ensures r.Err? ==> r.error == ExistsUnsupported
    ensures |es| == 0 ==> r == Ok("")
    ensures r.Ok? && |es| > 0 && !first ==> |r.value| >= |sep| && r.value[..|sep|] == sep
    decreases |es|
  {
    if |es| == 0 then Ok("")
    else
      var head :- Serialize(es[0], db);
      var rest :- SerializeList(es[1..], db, sep, false);
      Ok((if first then "" else sep) + head + rest)
  }

  /** The list writes one separated chain of its elements' texts: a leading
      separator exactly when it is not first and not empty. */
  lemma {:induction false} SerializeListIsJoin(es: seq<Expr>, db: Dialect, sep: string, first: bool)
    ensures SerializeList(es, db, sep, first).Ok? <==> SerializeAll(es, db).Ok?
    ensures SerializeAll(es, db).Ok? ==>
              var parts := SerializeAll(es, db).value;
              SerializeList(es, db, sep, first).value ==
                if |parts| == 0 then "" else (if first then "" else sep) + Join(parts, sep)
    decreases |es|
  {
    if |es| > 0 {
      SerializeListIsJoin(es[1..], db, sep, false);
      var all := SerializeAll(es, db);
      if all.Ok? {
        var parts := all.value;
        assert parts == [parts[0]] + parts[1..];
        assert SerializeAll(es[1..], db) == Ok(parts[1..]);
        if |parts| == 1 {
          assert SerializeList(es[1..], db, sep, false) == Ok("");
        }
      } else if Serialize(es[0], db).Ok? {
        assert SerializeAll(es[1..], db).Err?;
      }
    }
  }

  /** `on_t::serialize`: nothing for a clause with no expressions at all;
      otherwise ` ON `, the static chain, then the dynamic chain, which opens
      the chain itself exactly when there are no static expressions. */
  function SerializeOn(o: On, db: Dialect): (r: Result<string, Error>)
    ensures |o.staticExprs| == 0 && |o.dynamicExprs| == 0 ==> r == Ok("")
    ensures r.Err? ==> r.error == ExistsUnsupported
    ensures r.Ok? && (|o.staticExprs| > 0 || |o.dynamicExprs| > 0) ==>
              |r.value| >= 4 && r.value[..4] == " ON "
  {
    if |o.staticExprs| == 0 && |o.dynamicExprs| == 0 then Ok("")
    else
      var s :- SerializeTuple(o.staticExprs, db, AndSeparator);
      var d :- SerializeList(o.dynamicExprs, db, AndSeparator, |o.staticExprs| == 0);
      Ok(OnKeyword + s + d)
  }

  /** The clause as one AND-chain: all its expressions, static before dynamic,
      each in its own order, after ` ON ` — or nothing when it has none. */
  function OnChain(o: On, db: Dialect): (r: Result<string, Error>)
  {
    var parts :- SerializeAll(o.staticExprs + o.dynamicExprs, db);
    Ok(if |parts| == 0 then "" else OnKeyword + Join(parts, AndSeparator))
  }

  /** The static and dynamic parts render as a single well-formed AND-chain:
      no leading, trailing or doubled ` AND `, whichever part is empty. */
  lemma SerializeOnIsChain(o: On, db: Dialect)
    ensures SerializeOn(o, db) == OnChain(o, db)
  {
    var a, b := o.staticExprs, o.dynamicExprs;
    SerializeAllAppend(a, b, db);
    SerializeListIsJoin(b, db, AndSeparator, |a| == 0);
    var all := SerializeAll(a + b, db);
    if |a| == 0 && |b| == 0 {
      assert a + b == [];
    } else if all.Ok? {
      var pa, pb := SerializeAll(a, db).value, SerializeAll(b, db).value;
      if |a| == 0 {
        assert pa == [] && pa + pb == pb;
        assert SerializeTuple(a, db, AndSeparator) == Ok("");
        assert |pb| == |b| > 0;
        assert "" + Join(pb, AndSeparator) == Join(pb, AndSeparator);
        assert SerializeList(b, db, AndSeparator, true) == Ok(Join(pb, AndSeparator));
        assert OnKeyword + "" + Join(pb, AndSeparator) == OnKeyword + Join(pb, AndSeparator);
      } else if |b| == 0 {
        assert pb == [];
        assert pa + pb == pa;
        assert SerializeList(b, db, AndSeparator, false) == Ok("");
        assert OnKeyword + Join(pa, AndSeparator) + "" == OnKeyword + Join(pa, AndSeparator);
      } else {
        JoinAppend(pa, pb, AndSeparator);
        assert SerializeTuple(a, db, AndSeparator) == Ok(Join(pa, AndSeparator));
        assert SerializeList(b, db, AndSeparator, false) == Ok(AndSeparator + Join(pb, AndSeparator));
        assert OnKeyword + Join(pa, AndSeparator) + (AndSeparator + Join(pb, AndSeparator))
            == OnKeyword + Join(pa + pb, AndSeparator);
      }
    } else if SerializeAll(a, db).Ok? {
      assert SerializeAll(b, db).Err?;
    }
  }

  /** Rendering after `Add(e)` extends the clause's previous text by one
      conjunct: ` ON ` and `e`'s text when the clause was empty, otherwise
      ` AND ` and `e`'s text. */
  lemma AddAppendsConjunct(o: On, e: Expr, db: Dialect)
    requires Add(o, e).Ok?
    requires SerializeOn(o, db).Ok? && Serialize(e, db).Ok?
    ensures SerializeOn(Add(o, e).value, db).Ok?
    ensures var before, u := SerializeOn(o, db).value, Serialize(e, db).value;
            SerializeOn(Add(o, e).value, db).value ==
              if before == "" then " ON " + u else before + " AND " + u
  {
    var o' := Add(o, e).value;
    var es := o.staticExprs + o.dynamicExprs;
    var u := Serialize(e, db).value;
    SerializeOnIsChain(o, db);
    SerializeOnIsChain(o', db);
    SerializeAllAppend(es, [e], db);
    assert [e][0] == e && [e][1..] == [];
    assert SerializeAll([e], db) == Ok([u] + []);
    assert [u] + [] == [u];
    assert OnChain(o, db).Ok?;
    assert SerializeAll(es, db).Ok?;
    var ps := SerializeAll(es, db).value;
    assert o'.staticExprs + o'.dynamicExprs == es + [e];
    assert SerializeAll(es + [e], db) == Ok(ps + [u]);
    JoinSnoc(ps, u, AndSeparator);
    if |ps| == 0 {
      assert SerializeOn(o, db) == Ok("");
    } else {
      var before := OnKeyword + Join(ps, AndSeparator);
      assert SerializeOn(o, db) == Ok(before);
      assert before != "";
      assert OnKeyword + Join(ps + [u], AndSeparator) == before + AndSeparator + u;
    }
  }
}
