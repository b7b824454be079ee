# sqlalchemy-utils helpers, modelled in Dafny

This project models the four helpers in `sqlalchemy_utils/__init__.py` and
proves properties of them:

- `InstrumentedList.any` / `InstrumentedList.all` and the `instrumented_list`
  decorator (module `Collections`, `instrumented_list.dfy`);
- `sort_query`, which parses a sort directive `["-"] [component "-"] field`
  and appends at most one ORDER BY clause (module `Sorting`, `sort_query.dfy`);
- `defer_except`, which defers every column property of the first selected
  entity whose first column is not kept (module `Deferral`, `defer_except.dfy`);
- `escape_like`, which escapes a literal for a SQL `LIKE` pattern (module
  `LikeEscape`, `escape_like.dfy`).

The ORM objects become plain values (`queries.dfy`). A query is a datatype
holding its selected entities, joined entities, ORDER BY clauses and deferred
property keys. SQLAlchemy's `Query` is generative, so `order_by` and `options`
return an updated copy. An entity is its table name, its column names, the
attribute names `getattr` finds on it, and its mapped properties. A property
is either a column property (with its key and the name of its first column)
or some other property. An item of an instrumented list is a map from
attribute name to the truthiness of that attribute. Python exceptions that
reach the caller become `Result` errors: `AttributeError` from `getattr` in
`any`/`all`, and `IndexError` from `query._entities[0]` in `defer_except`.

`sort_query` and `defer_except` update variables in loops, so they are
methods with loop invariants (`Sorting.SortQuery`, `Deferral.DeferExcept`).
Each method is proved equal to a specification function (`SortQuerySpec`,
`DeferExceptSpec`), and the lemmas state what the source promises about that
function. `escape_like`, `any`, `all` and `instrumented_list` are
expressions, so they are modelled as functions.

`escape_like` is kept as the source writes it: three chained replacements.
It is related to a one-pass reference definition (`EscapeEach`), to an
unescaping scan (`Unescape`), and to the meaning of the result as a `LIKE`
pattern with an `ESCAPE` character. That meaning follows ISO/IEC 9075-2,
subclause 8.5, which requires the escape character to be followed by the
escape character, `%` or `_`.

Edge cases of the code that the model keeps:

- A component is recognised whenever `split('-')` gives more than one part
  (line 118); parts after the second are ignored.
- Python's `any`/`all` stop at the first deciding item (lines 15 and 18), so
  a later item without the attribute raises nothing.
- The code stops the scan at the first table that has the column, even when
  `getattr` then fails (lines 128-134). The model keeps this behaviour
  (`FirstTableEndsScan`) rather than moving on to the next candidate.

## Model

| member | source | states |
|---|---|---|
| `LikeEscape.Replace` | sqlalchemy_utils/__init__.py:177-179 | `str.replace` with a one-character pattern leaves a string without that character unchanged |
| `LikeEscape.EscapeLike` | sqlalchemy_utils/__init__.py:175-180 | a string with no escape character, `%` or `_` comes back unchanged (e.g. `"John"`) |
| `LikeEscape.ReplaceAppend` | sqlalchemy_utils/__init__.py:177-179 | each replacement distributes over concatenation |
| `LikeEscape.EscapeLikeAppend` | sqlalchemy_utils/__init__.py:175-180 | the whole chain distributes over concatenation, for any escape character |
| `LikeEscape.EscapeLikeChar` | sqlalchemy_utils/__init__.py:177-179 | when the escape character is not `%` or `_`, doubling it first means each special character gets exactly one escape in front of it, and no other character changes |
| `LikeEscape.EscapeLikeIsEscapeEach` | sqlalchemy_utils/__init__.py:175-180 | the chained replacements equal the one-pass definition "prefix every escape character, `%` and `_` with the escape character" |
| `LikeEscape.EscapeLikeLength` | sqlalchemy_utils/__init__.py:177-179 | output length = input length + count(esc) + count(`%`) + count(`_`) |
| `LikeEscape.EscapeLikeUnchangedIff` | sqlalchemy_utils/__init__.py:175-180 | the output equals the input if and only if the input has no escape character, `%` or `_` |
| `LikeEscape.EscapeLikeIdempotentIff` | sqlalchemy_utils/__init__.py:175-180 | escaping twice gives the same result as escaping once if and only if the input has no special character |
| `LikeEscape.EscapeLikeExamples` | sqlalchemy_utils/__init__.py:166-180 | `"John"` gives `"John"`, `"50%_off"` gives `"50*%*_off"` and `"a*b"` gives `"a**b"` with the default `*` |
| `LikeEscape.UnescapeEscapeLike` | sqlalchemy_utils/__init__.py:175-180 | a scan that reads the character after each escape character literally recovers the input exactly |
| `LikeEscape.EscapeLikeMatchesOnlyItself` | sqlalchemy_utils/__init__.py:162-180 | the output is a valid `LIKE ... ESCAPE esc` pattern, and it matches a value if and only if that value equals the input |
| `LikeEscape.WildcardEscapeOverEscapes` | sqlalchemy_utils/__init__.py:177-178 | with escape character `%`, the chain escapes `%` twice: `"%"` becomes `"%%%%"`, and that pattern no longer matches `"%"` |
| `Collections.InstrumentedList.Any` | sqlalchemy_utils/__init__.py:14-15 | when every item has the attribute the result is a value. Any value returned is true iff some item has the attribute set to true. Raises AttributeError, and only that error, iff an item lacks the attribute and every earlier item has it false |
| `Collections.InstrumentedList.All` | sqlalchemy_utils/__init__.py:17-18 | when every item has the attribute the result is a value. Any value returned is true iff every item has the attribute set to true. Raises AttributeError, and only that error, iff an item lacks the attribute and every earlier item has it true |
| `Collections.EmptyAggregates` | sqlalchemy_utils/__init__.py:14-18 | on an empty list `any` is false and `all` is true |
| `Collections.AnyAllDuality` | sqlalchemy_utils/__init__.py:14-18 | `any` equals the negation of `all` over the negated values |
| `Collections.Instrumented` | sqlalchemy_utils/__init__.py:21-25 | the wrapped function's result has the same length and the same element at every index as the original's |
| `Sorting.Split` | sqlalchemy_utils/__init__.py:117 | `split('-')` returns at least one part, no part contains `-`, and there is more than one part iff the string contains `-` |
| `Sorting.JoinSplit` | sqlalchemy_utils/__init__.py:117 | joining the parts with `-` gives back the string that was split |
| `Sorting.SplitJoin` | sqlalchemy_utils/__init__.py:117 | splitting gives back the parts that were joined, when no part contains `-` |
| `Sorting.ParseDirective` | sqlalchemy_utils/__init__.py:110-120 | a leading `-` means descending and is stripped exactly once; otherwise ascending with the string kept whole. A body without `-` is all field. Otherwise the component is the text before the first `-` and the field is the text up to the next `-` or the end |
| `Sorting.ExtraPartsIgnored` | sqlalchemy_utils/__init__.py:116-120 | `c-f-anything` parses as component `c`, field `f`; later parts are dropped |
| `Sorting.ComponentAndField` | sqlalchemy_utils/__init__.py:116-120 | `c-f` parses as an ascending directive with component `c` and field `f` |
| `Sorting.Candidates` | sqlalchemy_utils/__init__.py:93-98 | the candidate list is the selected elements' entities, in order, followed by the joined entities |
| `Sorting.Labels` | sqlalchemy_utils/__init__.py:102-105 | a name is a label iff some selected column expression carries it as a non-empty label |
| `Sorting.CollectCandidates` | sqlalchemy_utils/__init__.py:93-98 | the appending loops build exactly the candidate list |
| `Sorting.CollectLabels` | sqlalchemy_utils/__init__.py:102-105 | the filtering loop builds exactly the label list |
| `Sorting.FirstEligible` | sqlalchemy_utils/__init__.py:124-128 | returns the first candidate that passes the component filter and has the field as a column, or reports that there is none |
| `Sorting.ParseSteps` | sqlalchemy_utils/__init__.py:110-120 | rebinding `sort`, `func` and `component` step by step yields exactly the parsed directive |
| `Sorting.Scan` | sqlalchemy_utils/__init__.py:124-134 | the loop with `continue` and `break` appends a clause for the first eligible candidate when it has the attribute, and otherwise returns the query unchanged |
| `Sorting.SortQuery` | sqlalchemy_utils/__init__.py:93-135 | the whole method (collection loops, early return, parsing, label test, scan) returns exactly `SortQuerySpec` |
| `Sorting.NoDirectiveUnchanged` | sqlalchemy_utils/__init__.py:107-108 | an absent or empty sort string returns the query unchanged |
| `Sorting.SortAppendsAtMostOne` | sqlalchemy_utils/__init__.py:121-135 | only the ORDER BY list changes, and it keeps its old clauses and gains at most one at the end |
| `Sorting.SortDirection` | sqlalchemy_utils/__init__.py:110-114 | an appended clause is descending iff the directive starts with `-` |
| `Sorting.LabelTakesPrecedence` | sqlalchemy_utils/__init__.py:121-122 | a field equal to a result label is ordered by that label and nothing else |
| `Sorting.ColumnIsFirstMatch` | sqlalchemy_utils/__init__.py:124-134 | an appended attribute clause is on the parsed field of the first eligible candidate (selected entities before joined ones); that candidate has the attribute, and the field is not a label |
| `Sorting.UnknownFieldUnchanged` | sqlalchemy_utils/__init__.py:124-135 | a field that is neither a label nor any candidate's column leaves the query unchanged |
| `Sorting.FirstMatchIsOrdered` | sqlalchemy_utils/__init__.py:124-131 | when the field is no label, the first eligible candidate decides: if it has the attribute, exactly the clause on that attribute with the parsed direction is appended (the converse of `ColumnIsFirstMatch`) |
| `Sorting.FirstTableEndsScan` | sqlalchemy_utils/__init__.py:128-134 | when the first eligible table lacks the attribute, the query is unchanged, even if a later candidate has both column and attribute |
| `Sorting.EmptyComponentFiltersNothing` | sqlalchemy_utils/__init__.py:116-126 | `--f` parses with the empty component and gives the same result as `-f`: an empty component filters out no entity |
| `Sorting.SortByNameExample` | sqlalchemy_utils/__init__.py:68-69 | sorting the article query by `name` orders ascending by the article's name |
| `Sorting.SortByNameDescendingExample` | sqlalchemy_utils/__init__.py:73 | `-name` orders descending by the article's name |
| `Sorting.SortByLabelExample` | sqlalchemy_utils/__init__.py:77-80 | `articles` orders by the result label `articles` |
| `Sorting.SortByComponentExample` | sqlalchemy_utils/__init__.py:84-85 | `category-name` orders by the joined table literally named `category` |
| `Sorting.SortByUnknownExample` | sqlalchemy_utils/__init__.py:124-135 | an unknown field leaves the article query unchanged |
| `Deferral.DeferExcept` | sqlalchemy_utils/__init__.py:138-159 | the loop over the property set, taken in any order, returns exactly `DeferExceptSpec`: IndexError when nothing is selected, otherwise the deferred keys of the first entity added |
| `Deferral.DeferExceptChangesOnlyOptions` | sqlalchemy_utils/__init__.py:151-159 | only the deferred keys change. They only grow, and every new key belongs to a column property of the first entity whose first column is not kept |
| `Deferral.DeferredIff` | sqlalchemy_utils/__init__.py:153-158 | with unique keys, a column property is deferred iff its first column is not kept, and a non-column property is never deferred |
| `Deferral.KeepAllDefersNothing` | sqlalchemy_utils/__init__.py:153-158 | when every column name is kept, no option is added |
| `Deferral.EagerColumnsAreKeptColumns` | sqlalchemy_utils/__init__.py:151-159 | the columns left eager are exactly the kept columns intersected with the entity's column-property columns |
| `Deferral.DeferExample` | sqlalchemy_utils/__init__.py:145-158 | with columns `id`, `name`, `bio` and `id`, `name` kept, only `bio` is deferred |
| `Deferral.EmptyQueryRaises` | sqlalchemy_utils/__init__.py:151 | a query that selects nothing raises IndexError at `query._entities[0]` |

## Left out

- SQLAlchemy internals are abstract values: `query._entities`, `_join_entities`, `entity_zero.class_`, the `Mapper` and `_ColumnEntity` type tests, `__table__`, `_sa_class_manager`, and the `asc`/`desc`/`defer` constructors. That library is not part of this model.
- SQL generation and execution, sessions and engines, and the doctest setup in the docstrings are I/O and foreign calls.
- A joined object without a `__table__`, and a selected element without an `entity_zero`, would raise at lines 93 or 125. Every candidate here has a table.
- Both branches at lines 95-98 add an entity with a table, so the model does not tell a joined mapper from another joined object.
- `EscapeLike`: models `escape_char` as a single character. A multi-character or empty escape string, which `str.replace` also accepts, is not modelled.
- The `LIKE` matcher compares characters exactly. It has no collation, case folding or padding rules.
- `Collections.Instrumented`: `*args, **kwargs` are one argument of a generic type, and the function's iterable result is a sequence. `functools.wraps` metadata copying is not modelled.
- Attribute values in `any`/`all` are their Python truthiness, as a `bool`.
- The list operations `InstrumentedList` inherits from SQLAlchemy are not modelled.
- The `errors` parameter in the `sort_query` docstring is not in the signature, so it has no behaviour.
- `defer_except` walks a Python `set`. The method picks each property arbitrarily, and the result is the set of deferred keys, which does not depend on that order.
- `defer_except` compares `column.name` with `columns` as names. The docstring passes attribute objects (and a model instead of a query), which the model does not follow.
