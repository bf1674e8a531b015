/** The expression fragments, their capability classification and their
    rendering into SQL text against a dialect. Every fragment type of the
    library is one case of `Expr`; the collaborators whose headers are not
    part of this model (columns, selects, aggregate functions) are opaque
    `Leaf` fragments. */
module Expressions {
  import opened Wrappers
  import opened Strings

  /** The value domains a value-type tag can name. */
  datatype SqlType = Boolean | Integral | Text

  /** A value-type tag: its domain plus the named-expression marker that a
      tag such as `exists_t::_value_type` adds to its base. */
  datatype ValueType = ValueType(base: SqlType, namedExpression: bool)

  /** `_base_value_type`: the plain domain tag, without any marker. */
  function BaseValueType(vt: ValueType): (r: ValueType)
  {
    ValueType(vt.base, false)
  }

  /** A host-language value that is not yet an SQL value: an int, a string, a bool. */
  datatype RawValue = IntValue(i: int) | TextValue(s: string) | BoolValue(b: bool)

  /** The value type an operand wrapper infers from a host value. */
  function DomainOf(v: RawValue): (r: SqlType)
  {
    match v
    case IntValue(_) => Integral
    case TextValue(_) => Text
    case BoolValue(_) => Boolean
  }

  /** The database a fragment is rendered for: its capability flag for EXISTS,
      and the literal text it gives to a wrapped host value (quoting and
      escaping belong to the database, not to this engine). */
  datatype Dialect = Dialect(supportsExists: bool, literal: RawValue -> string)

  /** Why a construction or a rendering is rejected. */
  datatype Error =
    | NotAnExpression
    | NotASelect
    | AlreadySqlValue
    | MissingOnExpression
    | NotDynamic
    | ExistsUnsupported
    | Unnamed

  datatype Expr =
    | /** `verbatim_t`: caller-supplied SQL text with a caller-declared value type. */
      Verbatim(text: string, vt: ValueType)
    | /** The operand wrapper `value(x)` builds around a host value. */
      Raw(v: RawValue)
    | /** `value_list_t`: a container of host values of one domain. */
      ValueList(elemType: SqlType, items: seq<RawValue>)
    | /** `exists_t`: an existence test over a subquery. */
      Exists(select: Expr)
    | /** A fragment of a collaborator not modelled here, with its fixed text,
          its SQL name if it has one, and its classification. */
      Leaf(text: string, name: Option<string>, isExpr: bool, isSelect: bool, vt: ValueType)

  /** `is_expression_t`: every fragment with a value type is an expression. */
  predicate IsExpression(e: Expr)
  {
    match e
    case Leaf(_, _, isExpr, _, _) => isExpr
    case _ => true
  }

  /** `is_select_t`: only a subquery is select-like. */
  predicate IsSelect(e: Expr)
  {
    e.Leaf? && e.isSelect
  }

  /** `_value_type` of a fragment. */
  function ValueTypeOf(e: Expr): (r: ValueType)
  {
    match e
    case Verbatim(_, vt) => vt
    case Raw(v) => ValueType(DomainOf(v), false)
    case ValueList(t, _) => ValueType(t, false)
    case Exists(_) => ValueType(Boolean, true)
    case Leaf(_, _, _, _, vt) => vt
  }

  /** The shapes the fragment factories can produce: an EXISTS holds a select,
      and a value list holds values of its one element domain. */
  predicate WellFormed(e: Expr)
  {
    match e
    case Exists(select) => IsSelect(select)
    case ValueList(t, items) => forall k :: 0 <= k < |items| ==> DomainOf(items[k]) == t
    case _ => true
  }

  /** The name `_name_t::_get_name()` gives an exists fragment. */
  const ExistsName: string := "EXISTS"

  /** The separator `value_list_t` writes between two elements. */
  const ValueListSeparator: string := ","

  /** The literal text of each host value, in order. */
  function Literals(items: seq<RawValue>, db: Dialect): (r: seq<string>)
  {
    seq(|items|, k requires 0 <= k < |items| => db.literal(items[k]))
  }

  /** The SQL text of a fragment. The only rendering that fails is an EXISTS
      for a database without EXISTS support, and it fails with nothing written. */
  function Serialize(e: Expr, db: Dialect): (r: Result<string, Error>)
    ensures r.Err? <==> e.Exists? && !db.supportsExists
    ensures r.Err? ==> r.error == ExistsUnsupported
  {
    match e
    case Verbatim(text, _) => Ok(text)
    case Raw(v) => Ok(db.literal(v))
    case ValueList(_, items) => Ok(Join(Literals(items, db), ValueListSeparator))
    case Exists(select) =>
      if !db.supportsExists then Err(ExistsUnsupported)
      else
        (match Serialize(select, db)
         case Ok(s) => Ok(ExistsName + "(" + s + ")")
         case Err(err) => Err(err))
    case Leaf(text, _, _, _, _) => Ok(text)
  }

  /** The texts of a run of fragments, or the first failure among them. */
  function SerializeAll(es: seq<Expr>, db: Dialect): (r: Result<seq<string>, Error>)
    ensures r.Ok? ==> |r.value| == |es|
    ensures r.Ok? ==> forall k :: 0 <= k < |es| ==> Serialize(es[k], db) == Ok(r.value[k])
    ensures r.Err? <==> exists k :: 0 <= k < |es| && Serialize(es[k], db).Err?
    ensures r.Err? ==> r.error == ExistsUnsupported
    decreases |es|
  {
    if |es| == 0 then Ok([])
    else
      var head :- Serialize(es[0], db);
      var tail :- SerializeAll(es[1..], db);
      Ok([head] + tail)
  }

  /** Rendering a concatenation renders each run in turn: it succeeds exactly
      when both runs do, and its texts are theirs in order. */
  lemma SerializeAllAppend(a: seq<Expr>, b: seq<Expr>, db: Dialect)
    ensures SerializeAll(a + b, db).Ok? <==> SerializeAll(a, db).Ok? && SerializeAll(b, db).Ok?
    ensures SerializeAll(a + b, db).Ok? ==>
              SerializeAll(a + b, db).value == SerializeAll(a, db).value + SerializeAll(b, db).value
  {
    var r, ra, rb := SerializeAll(a + b, db), SerializeAll(a, db), SerializeAll(b, db);
    if r.Ok? {
      assert forall k :: 0 <= k < |a| ==> (a + b)[k] == a[k];
      assert forall k :: 0 <= k < |b| ==> (a + b)[|a| + k] == b[k];
      assert ra.Ok? && rb.Ok?;
      assert r.value == ra.value + rb.value;
    } else {
      var k :| 0 <= k < |a + b| && Serialize((a + b)[k], db).Err?;
      if k < |a| {
        assert (a + b)[k] == a[k];
      } else {
        assert (a + b)[k] == b[k - |a|];
      }
    }
  }
}
