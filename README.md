# starlette-fancy: query-filter translator, route generator and partial validation

This project models, in Dafny, the two pieces of starlette-fancy that carry
real decisions:

- **The query-filter translator** (`where_clause_from_query_params` in
  `starlette_fancy/utils.py`). It turns validated query parameters such as
  `{"name__like": "a%", "age__lt": 5}` into a WHERE-clause suffix
  (` and name like :name and age < :age`) and a bind-parameter mapping. Keys are
  split on `"__"` with Python's leftmost, non-overlapping `str.split`. A key
  without a separator is an equality filter. A suffix is looked up in `OP_MAP`
  (`like`, `lt` → `<`, `lte` → `<=`), and a miss is a lookup failure. Two or
  more separators are a configuration error. `None` values are skipped.
- **The route generator** (`generate_crud_routes`). It builds the item route
  `<path>/{id:<type>}` for `delete` and `patch`, and then the collection route
  `<path>` for `get` and `post`.
- **Partial validation and schema selection** (`validate_input_and_raise` and
  `PydanticValidator.__call__` in `starlette_fancy/validators/pydantic.py`).
  Outside partial mode every reported error is raised. In partial mode
  missing-field errors are dropped, and the rest are raised in order if any
  remain. `__call__` validates against at most one schema, chosen by
  `response` and `source`, and returns its input unchanged.

Files:

- `wrappers.dfy`: `Option`, `Result` and `Outcome`. `None` stands for Python's `None`; `Failure`/`Fail` stand for raised exceptions.
- `key_split.dfy` (module `KeySplit`): `str.split("__")`. It is characterised as the only split whose parts rejoin to the key, contain no separator, and (except the last) do not end in `_`.
- `utils.dfy` (module `Utils`): `OP_MAP`, key decoding, the translator and the route generator. The translator appears twice: as the specification function `Translate`, and as the loop `WhereClauseFromQueryParams` proved equal to it.
- `pydantic.dfy` (module `PydanticValidation`): error filtering, written both as the function `ValidationOutcome` and as the loop `ValidateInputAndRaise`. It also holds the validator datatype and its `Call` method.

The translator's input is a sequence of `(key, Option<value>)` pairs. Only the
method requires the keys to be distinct, because a Python dict's keys are
distinct. The specification function and its lemmas hold for any sequence.
Both failures of the source are results:
`UnknownOp(suffix)` for the `KeyError` and `TooManySeparators(key)` for the `ValueError`.

The schema library's `validate_model` is a function parameter
`(Model, D) -> seq<RawError>`. Each raw error is tagged `Missing` (pydantic's
`MissingError`) or `Other`. No errors stands for the `None` error that
`validate_model` returns on success. The three optional schemas are
`Option<Model>` fields, in place of the source's `hasattr` probes.

`Validator.__call__` (`starlette_fancy/validators/__init__.py:7-14`) is only
annotated as returning a `dict`. `PydanticValidator.__call__` returns `data`
itself on every non-raising path (`starlette_fancy/validators/pydantic.py:67`),
and `Call` promises exactly that.

The source's default arguments are kept as Dafny parameter defaults:
`id_type="int"` for `GenerateCrudRoutes`, `partial=False` for
`ValidateInputAndRaise`, and `source="body"`, `response=False`,
`partial=False` for `Call`. The schema library's validation is a parameter
without a default, and it comes first, because Dafny needs the parameters
with defaults last.

## Model

| member | source | states |
|---|---|---|
| KeySplit.JoinSplit | starlette_fancy/utils.py:19 | Joining the parts of a split back with `"__"` gives the original key (round trip). |
| KeySplit.SplitWellFormed | starlette_fancy/utils.py:19 | The parts of a split hold no separator, and no part but the last ends in `_`. These are the marks of a leftmost, non-overlapping scan: `"a___b"` gives `["a", "_b"]`. |
| KeySplit.SplitJoin | starlette_fancy/utils.py:19 | Uniqueness: any well-formed list of parts is exactly what splitting its join returns. |
| KeySplit.SplitSingleIff | starlette_fancy/utils.py:19-22 | A key splits into one part exactly when it contains no `"__"`. |
| KeySplit.TwoSepsThreeParts | starlette_fancy/utils.py:19-20 | A key with two separators anywhere splits into at least three parts. |
| Utils.ParseKeyEqualityIff | starlette_fancy/utils.py:22-24 | A key decodes to field = the whole key with operator `=` exactly when it has no separator. |
| Utils.ParseKeyWithOperator | starlette_fancy/utils.py:5-9 | A key `a__b` decodes to field `a` with operator `OP_MAP[b]` (like→like, lt→<, lte→<=). Any other suffix, the empty one of a trailing `__` included, fails with `UnknownOp(b)`. Cited lines 5-9 are the table; the branch is lines 25-27. |
| Utils.ParseKeyTooManySeparators | starlette_fancy/utils.py:28-29 | A key with two or more separators fails with `TooManySeparators`. |
| Utils.WhereClauseFromQueryParams | starlette_fancy/utils.py:12-34 | The loop returns exactly `Translate(params)`, error cases included; its invariant is that the accumulators equal the translation of the prefix read so far. |
| Utils.TranslateFailureSticks | starlette_fancy/utils.py:27-29 | Once an entry fails, the whole call fails with that error, whatever follows. |
| Utils.TranslateSkipsNone | starlette_fancy/utils.py:16-17 | The result equals the result on the entries with a value: a `None` entry adds no clause, no parameter and no error. |
| Utils.TranslateSucceedsIff | starlette_fancy/utils.py:15-29 | The call succeeds exactly when every key that carries a value decodes. |
| Utils.TranslateFailsAtFirstBadKey | starlette_fancy/utils.py:15-29 | The call fails with `e` exactly when `e` is the error of the first valued entry whose key does not decode, even if earlier entries were accepted. |
| Utils.TranslateQueryEmptyIff | starlette_fancy/utils.py:13-31 | On success the query string is empty exactly when every value is `None`. |
| Utils.TranslateQueryIsClauses | starlette_fancy/utils.py:15-31 | On success the query is exactly one ` and <field> <op> :<field>` per valued entry, concatenated in input order. This is checked against a definition that reads the entries from the front. |
| Utils.TranslateValuesKeys | starlette_fancy/utils.py:32 | On success the parameter keys are exactly the fields of the accepted entries. |
| Utils.TranslateLastValueWins | starlette_fancy/utils.py:32 | On success each field is bound to the value of the last accepted entry with that field. |
| Utils.TranslateAppend | starlette_fancy/utils.py:15-32 | Translating two runs in sequence: queries concatenate in order, the later run's parameters override, and the first failure wins. |
| Utils.FieldCollision | starlette_fancy/utils.py:31-32 | Two filters on one field (`age__lt`, `age__lte`) keep both clauses but share one bind parameter, which holds the later value. This is the unguarded collision, kept as written. |
| Utils.IdSegment | starlette_fancy/utils.py:46 | The id segment `{id:<type>}` is non-empty, starts with `{` and contains no `/`. |
| Utils.GenerateCrudRoutes | starlette_fancy/utils.py:37-55 | Requires that the path not end with `/`. Returns exactly two routes with the same endpoint. The first is the item route (path extended by the id segment, methods `delete`, `patch`); the second is the collection route (the path itself, methods `get`, `post`). |
| Utils.RoutesPartitionVerbs | starlette_fancy/utils.py:44-55 | The two routes' method sets are disjoint and together are `{get, post, patch, delete}`. |
| Utils.ItemPathDoubleSlashIff | starlette_fancy/utils.py:42-46 | The item path has an empty segment `//` exactly when the base path has one or ends in `/`. This is what the trailing-slash assertion rules out. |
| PydanticValidation.NonMissing | starlette_fancy/validators/pydantic.py:25-29 | The filtered list is no longer than the report and holds only non-missing errors. |
| PydanticValidation.ValidateInputAndRaise | starlette_fancy/validators/pydantic.py:14-31 | The filtering loop returns exactly `ValidationOutcome` of the reported errors. Its invariant is that the kept list is the filter of the prefix scanned so far. |
| PydanticValidation.NonMissingCount | starlette_fancy/validators/pydantic.py:25-29 | Every non-missing error is kept as often as it occurs; every missing-field error is dropped. |
| PydanticValidation.NonMissingAppend | starlette_fancy/validators/pydantic.py:25-29 | Filtering distributes over concatenation, so the kept errors stay in their original order. |
| PydanticValidation.NonMissingEmptyIff | starlette_fancy/validators/pydantic.py:30 | Nothing remains after filtering exactly when every error is a missing-field error. |
| PydanticValidation.NonMissingKeepsOthers | starlette_fancy/validators/pydantic.py:25-29 | A report without missing-field errors passes through the filter unchanged. |
| PydanticValidation.NoErrorsPasses | starlette_fancy/validators/pydantic.py:20-21 | With no reported errors the call returns normally in both modes. |
| PydanticValidation.NonPartialRaisesAll | starlette_fancy/validators/pydantic.py:22-23 | Outside partial mode the call raises exactly when errors were reported, and it raises the original error set unchanged. |
| PydanticValidation.PartialRaisesOnlyOthers | starlette_fancy/validators/pydantic.py:25-31 | In partial mode the call raises exactly when some error is not a missing-field error. It then carries exactly the non-missing errors, in order. |
| PydanticValidation.PartialNoStricter | starlette_fancy/validators/pydantic.py:22-31 | Whatever partial mode raises, full mode also raises, and every error partial mode carries is among the full set. |
| PydanticValidation.PartialIgnoresMissing | starlette_fancy/validators/pydantic.py:25-31 | In partial mode, inserting a missing-field error anywhere in the report does not change the outcome. |
| PydanticValidation.PydanticValidator.Call | starlette_fancy/validators/pydantic.py:39-67 | The call validates against the one schema `SelectedModel` picks, if any. It fails exactly when that validation raises, with that error, and otherwise returns `data` unchanged. |
| PydanticValidation.ResponseUsesOnlyResponseModel | starlette_fancy/validators/pydantic.py:46-52 | In response mode the chosen schema is the response schema, whatever the source and the other two schemas. |
| PydanticValidation.RequestUsesOnlyItsSourceModel | starlette_fancy/validators/pydantic.py:54-65 | For request data only the source's own schema can apply: the request schema for `body`, the query schema for `query_params`, and none for `path_params`. |

## Left out

- `starlette_fancy/mixins/crud.py`: request/response plumbing (reading the body, JSON decoding, building responses). Its only logic is a Python dict union, which is a library operator.
- `starlette_fancy/processors/databases.py`: a thin wrapper over the database client. Its 404-on-no-row rule depends entirely on the client's results. Its one local step, appending the translated conditions to the select query, is the translator modelled here.
- `starlette_fancy/processors/__init__.py`, `starlette_fancy/validators/__init__.py`, `starlette_fancy/endpoints/`: abstract no-op stubs and class composition, with no behaviour to model.
- The schema library's validation and coercion rules inside `validate_model`: they are a function parameter that reports raw errors.
- The web framework's `Route` matching and `{id:...}` converters: a route is only a descriptor `(path, endpoint, methods)`.
- `async`/`await`: there is no concurrency logic, so every operation is sequential.
- Utils.TranslateValuesKeys: a Python dict keeps insertion order and a Dafny `map` does not. The model states which keys are bound and to what, but not the order of the bind parameters.
- Utils.ParseKeyWithOperator: the message text of the `KeyError` and `ValueError` is not modelled. The failures carry the missing suffix and the offending key instead.
- PydanticValidation.ValidateInputAndRaise: a raw error carries only its location and whether it is a missing-field error. Pydantic's error types, messages and context are not modelled.
