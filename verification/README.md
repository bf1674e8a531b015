# sqlpp11 expression fragments, modelled in Dafny

This project models how sqlpp11 (a C++ library that builds SQL queries as
typed expression objects) assembles four small families of fragments and
renders them to SQL text for a database dialect:

- `value`, `verbatim`, `flatten`, `value_list` and `get_sql_name`
  (`include/sqlpp11/functions.h`);
- the join condition `on_t`, with its static and dynamic parts and `add`
  (`include/sqlpp11/on.h`);
- the existence test `exists_t` / `exists` (`include/sqlpp11/exists.h`);
- the `having_t` clause (`include/sqlpp11/having.h`).

The library's compile-time checks (`static_assert`s on type traits) become
factory functions returning `Result<_, Error>`: `Err` is a construction the
C++ compiler refuses, `Ok` a legal one. Type traits (`is_expression_t`,
`is_select_t`, `is_value_t`) become predicates over one `Expr` datatype.
Rendering is a pure function from a fragment and a `Dialect` to a string.
The output stream becomes a returned string built by concatenation.

Files:

- `wrappers.dfy`: `Option` and `Result`.
- `strings.dfy`: `Join` with a separator, `Split` at a character, `Count`,
  `Unwrap` of a prefix/suffix frame, and the lemmas that make `Split` and
  `Unwrap` inverses of the rendering.
- `expressions.dfy`: value-type tags, host values, the `Dialect` record,
  the `Expr` datatype, classification, `ValueTypeOf` and `Serialize`.
- `functions.dfy`, `exists.dfy`, `on.dfy`, `having.dfy`: one module per
  header.

Collaborators whose headers are not part of this model appear as follows:

- Columns, selects and aggregate functions are an opaque `Leaf`. A leaf
  has fixed text, an optional SQL name and its classification flags.
- The literal text of a wrapped host value comes from the dialect
  (`Dialect.literal`). Quoting and escaping are the database's business.
- `serialize_tuple` and `serializable_list::serialize` are not shown.
  `OnClause.SerializeTuple` and `OnClause.SerializeList` state the
  behaviour `on_t::serialize` relies on: a joined chain, and a `first`
  flag that suppresses the leading separator.

`on.h` checks only `is_expression_t` for the arguments of `on_t` and of
`add` (lines 44-45 and 50), and `having.h` checks only `is_expression_t`
for the argument of `having_t` (line 39). None of them requires a
boolean-typed argument, so neither do `OnClause.MakeOn`, `OnClause.Add`
and `HavingClause.MakeHaving`, although a join condition and a HAVING
filter are meant to be boolean predicates.

## Model

| member | source | states |
|---|---|---|
| Expressions.Serialize | include/sqlpp11/exists.h:71-78 | rendering fails exactly for an EXISTS under a dialect without EXISTS support, with the dialect-capability error; every other fragment always renders |
| Functions.Value | include/sqlpp11/functions.h:45-50 | `value(x)` succeeds exactly for a raw host value and refuses an SQL value; the operand is an expression typed by the host value's domain and renders as the dialect's literal for it |
| Functions.MakeVerbatim | include/sqlpp11/functions.h:52-78 | a verbatim fragment has the declared value type and renders as exactly its stored text under every dialect |
| Functions.Flatten | include/sqlpp11/functions.h:80-86 | flatten succeeds exactly for an expression whose rendering succeeds; the result is verbatim, carries the base value type of the argument, and renders under any dialect to the argument's text for the given dialect |
| Functions.FlattenIdempotent | include/sqlpp11/functions.h:80-86 | flattening an already flattened fragment, for any dialect, gives the same fragment |
| Functions.MakeValueList | include/sqlpp11/functions.h:88-118 | `value_list(c)` succeeds exactly when the container holds raw host values, keeps its elements in order, and is typed by the element domain |
| Functions.RenderValueList | include/sqlpp11/functions.h:95-108 | the `first`-flag loop of `value_list_t::serialize` writes exactly the comma-joined literals the model's rendering gives |
| Functions.ValueListEmpty | include/sqlpp11/functions.h:95-108 | an empty value list renders as the empty string |
| Functions.ValueListRoundTrip | include/sqlpp11/functions.h:95-108 | for n >= 1 comma-free literals, splitting the rendering at commas gives back the n literals in container order, so there is no leading, trailing or doubled comma |
| Functions.ValueListCommas | include/sqlpp11/functions.h:95-108 | for n >= 1 comma-free literals, the rendering holds exactly n - 1 commas |
| Functions.GetSqlName | include/sqlpp11/functions.h:120-124 | the SQL name of an exists fragment is `EXISTS`, a named leaf gives its own name, and a fragment without a name is refused |
| ExistsFragment.MakeExists | include/sqlpp11/exists.h:37-63 | exists succeeds exactly for a select-like argument, stores that select unchanged, and is a boolean expression marked as named, whose base type is plain boolean |
| ExistsFragment.ExistsRendering | include/sqlpp11/exists.h:71-78 | an EXISTS renders exactly when the dialect supports EXISTS, and then as `EXISTS(` + the select's text + `)` |
| ExistsFragment.ExistsFramed | include/sqlpp11/exists.h:75-77 | an EXISTS rendering is at least 8 characters, starts with `EXISTS(`, ends with `)`, and unwrapping that frame gives back the select's text |
| ExistsFragment.ExistsDependsOnSelectOnly | include/sqlpp11/exists.h:57-81 | two EXISTS fragments whose selects render alike render alike |
| HavingClause.MakeHaving | include/sqlpp11/having.h:37-41 | having succeeds exactly for an expression argument and holds it; the having tag belongs to the clause type |
| HavingClause.SerializeHaving | include/sqlpp11/having.h:43-48 | HAVING renders exactly when its expression does, as ` HAVING ` followed by the expression's text, never empty and exactly 8 characters longer than that text |
| HavingClause.HavingUnwraps | include/sqlpp11/having.h:46-47 | stripping ` HAVING ` from the rendering gives back the expression's text |
| OnClause.MakeOn | include/sqlpp11/on.h:38-45 | construction succeeds exactly when the clause is dynamic or has an argument, and every argument is an expression; the clause is dynamic iff its database parameter is not void; it keeps the arguments in order with an empty dynamic part; the on tag belongs to the clause type |
| OnClause.Add | include/sqlpp11/on.h:47-52 | add succeeds exactly on a dynamic clause with an expression argument; it appends the argument at the end of the dynamic part, leaves earlier elements and the static part unchanged, and keeps the clause invariant |
| OnClause.SerializeTuple | include/sqlpp11/on.h:60 | the static run renders exactly when every expression in it does; an empty run writes nothing and a single expression writes just its own text; the only failure is the dialect-capability error |
| OnClause.SerializeList | include/sqlpp11/on.h:61 | the dynamic run renders exactly when every element does; an empty run writes nothing; a run that does not open the chain starts with the separator; the only failure is the dialect-capability error |
| OnClause.SerializeOn | include/sqlpp11/on.h:54-62 | a clause with no expressions renders nothing; any other clause that renders starts with ` ON `; the only failure is the dialect-capability error |
| OnClause.SerializeListIsJoin | include/sqlpp11/on.h:61 | the dynamic part renders as its elements' texts joined by the separator, with one leading separator exactly when it is not first and not empty |
| OnClause.SerializeOnIsChain | include/sqlpp11/on.h:54-62 | the clause renders as ` ON ` plus one AND-chain of all its expressions, static before dynamic, each in its own order (or nothing when there are none), so a dynamic-only clause has no leading ` AND ` |
| OnClause.AddAppendsConjunct | include/sqlpp11/on.h:47-62 | after `add(e)` the clause's text is its previous text followed by ` AND ` and `e`'s text, or ` ON ` and `e`'s text when it was empty |

## Left out

- Output streams: a fragment's rendering is a returned string. The model
  does not cover writing to a shared stream or any partial output.
- Template metaprogramming (`operand_t`, `make_set_if`, the
  `operators<...>` mixin bases) is not modelled. Classification is a set
  of boolean predicates on `Expr`.
- OnClause.MakeOn: `make_set_if` builds a set of argument *types*, and
  the model checks each argument separately instead. If that set collapses
  equal types, `on(t.a == 1, t.a == 2)` (two arguments of one C++ type) is
  refused by the size check at `on.h` line 45, while `MakeOn` accepts it.
  `detail/set.h` is not part of this model, so this is not decided here.
- Dialect gating: `static_assert(Db::_supports_exists)` fires when the
  template is instantiated. The model reports it as a failure of the
  rendering call instead.
- Rendering a leaf gives its fixed text under every dialect.
  `any.h`, `some.h`, `count.h`, `min.h`, `max.h`, `avg.h`, `sum.h`,
  `verbatim_table.h`, `boolean.h`, `column_types.h` and `type_traits.h`
  are not part of this model.
- Literal rendering of host values (`integral`, `text` and `boolean`
  operands) belongs to headers that are not part of this model. It is the
  dialect-supplied `literal` function. Floating-point host values are not
  modelled.
- OnClause.Add: `add` at `on.h` lines 47-52 does not test `_is_dynamic`;
  it checks the argument and calls `_dynamic_expressions.emplace_back`.
  What `serializable_list<void>::emplace_back` does is not part of this
  model. `OnClause.Add` refuses a static clause with `NotDynamic`, because
  `add` is meant only for a clause with a dynamic part.
- `_member_t` row-mapping descriptors, copy/move/assignment operators
  (beyond "the select is stored unchanged") and licence text are not
  modelled.
