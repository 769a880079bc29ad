/**
 * The query-filter translator and the CRUD route generator of
 * starlette_fancy/utils.py.
 *
 * A filter key is `<field>` (equality) or `<field>__<suffix>` with the suffix
 * looked up in a fixed operator table. Each accepted entry contributes the SQL
 * fragment ` and <field> <op> :<field>` and a bind parameter `field -> value`.
 */
module Utils {
  import opened Wrappers
  import opened KeySplit

  /** `OP_MAP`: filter-key suffix to SQL operator. */
  const OpMap: map<string, string> := map["like" := "like", "lt" := "<", "lte" := "<="]

  /** The operator a key without a separator gets. */
  const EqualityOp: string := "="

  /** What one filter key decodes to. */
  datatype Filter = Filter(field: string, op: string)

  /**
   * The two ways the translator fails: the `KeyError` of an operator lookup
   * that misses, and the `ValueError` of a key with two or more separators.
   */
  datatype FilterError = UnknownOp(suffix: string) | TooManySeparators(key: string)

  /** A query-parameter entry: the key and its value, `None` standing for Python's None. */
  type Entry<V> = (string, Option<V>)

  /** The translator's result: the WHERE-clause suffix and the bind parameters. */
  datatype Where<V> = Where(query: string, values: map<string, V>)

  /** Keys of a Python dict are distinct. */
  predicate DistinctKeys<V>(ps: seq<Entry<V>>)
  {
    forall i, j :: 0 <= i < j < |ps| ==> ps[i].0 != ps[j].0
  }

  /** Decoding of one key: split on the separator and branch on the number of parts. */
  function ParseKey(key: string): Result<Filter, FilterError>
  {
    var parts := Split(key);
    if |parts| == 1 then Success(Filter(parts[0], EqualityOp))
    else if |parts| == 2 then
      if parts[1] in OpMap then Success(Filter(parts[0], OpMap[parts[1]]))
      else Failure(UnknownOp(parts[1]))
    else Failure(TooManySeparators(key))
  }

  /** The SQL fragment one accepted filter appends. */
  function Clause(f: Filter): string
  {
    " and " + f.field + " " + f.op + " :" + f.field
  }

  /**
   * The translator as a function of the entries, taken in order. It is defined
   * by the last entry so that it follows the loop of WhereClauseFromQueryParams
   * one iteration at a time.
   */
  function Translate<V>(ps: seq<Entry<V>>): Result<Where<V>, FilterError>
    decreases |ps|
  {
    if ps == [] then Success(Where("", map[]))
    else
      match Translate(ps[..|ps| - 1])
      case Failure(e) => Failure(e)
      case Success(w) =>
        var (k, v) := ps[|ps| - 1];
        if v.None? then Success(w)
        else
          match ParseKey(k)
          case Failure(e) => Failure(e)
          case Success(f) => Success(Where(w.query + Clause(f), w.values[f.field := v.value]))
  }

  /**
   * `where_clause_from_query_params`: a loop that skips `None` values, decodes
   * each key, appends to the query string and records the value under the field.
   */
  method WhereClauseFromQueryParams<V>(params: seq<Entry<V>>) returns (r: Result<Where<V>, FilterError>)
    requires DistinctKeys(params)
    ensures r == Translate(params)
  {
    var query: string := "";
    var values: map<string, V> := map[];
    var i := 0;
    while i < |params|
      invariant 0 <= i <= |params|
      invariant Translate(params[..i]) == Success(Where(query, values))
    {
      var (k, v) := params[i];
      assert params[..i + 1][..i] == params[..i];
      if v.None? {
        i := i + 1;
        continue;
      }
      var parts := Split(k);
      var field: string, op: string;
      if |parts| == 1 {
        field, op := parts[0], EqualityOp;
      } else if |parts| == 2 {
        if parts[1] !in OpMap {
          r := Failure(UnknownOp(parts[1]));
          TranslateFailureSticks(params[..i + 1], params[i + 1..]);
          assert params[..i + 1] + params[i + 1..] == params;
          return;
        }
        field, op := parts[0], OpMap[parts[1]];
      } else {
        r := Failure(TooManySeparators(k));
        TranslateFailureSticks(params[..i + 1], params[i + 1..]);
        assert params[..i + 1] + params[i + 1..] == params;
        return;
      }
      assert ParseKey(k) == Success(Filter(field, op));
      assert query + " and " + field + " " + op + " :" + field == query + Clause(Filter(field, op));
      query := query + " and " + field + " " + op + " :" + field;
      values := values[field := v.value];
      i := i + 1;
    }
    assert params[..i] == params;
    r := Success(Where(query, values));
  }

  /** Once an entry fails, nothing after it is looked at: the whole call fails with that error. */
  lemma {:induction false} TranslateFailureSticks<V>(ps: seq<Entry<V>>, qs: seq<Entry<V>>)
    requires Translate(ps).Failure?
    ensures Translate(ps + qs) == Translate(ps)
    decreases |qs|
  {
    if qs == [] {
      assert ps + qs == ps;
    } else {
      var front := qs[..|qs| - 1];
      TranslateFailureSticks(ps, front);
      assert (ps + qs)[..|ps + qs| - 1] == ps + front;
    }
  }

  // ---------------------------------------------------------------------------
  // Decoding one key

  /** A key with no separator is an equality filter on the whole key, and only such a key is. */
  lemma ParseKeyEqualityIff(k: string)
    ensures ParseKey(k) == Success(Filter(k, EqualityOp)) <==> !ContainsSep(k)
  {
    SplitSingleIff(k);
    JoinSplit(k);
  }

  /**
   * A key `a__b` cut at one separator filters field `a` with the operator the
   * table gives `b`; a suffix outside the table, the empty one of a trailing
   * separator included, is a lookup failure naming that suffix.
   */
  lemma ParseKeyWithOperator(a: string, b: string)
    requires !ContainsSep(a) && !EndsWithUnderscore(a) && !ContainsSep(b)
    ensures ParseKey(a + Sep + b) ==
              if b in OpMap then Success(Filter(a, OpMap[b])) else Failure(UnknownOp(b))
  {
    assert WellFormedParts([a, b]);
    SplitJoin([a, b]);
    assert Join([a, b]) == a + Sep + b;
  }

  /** A key with two separators anywhere fails as too many separators. */
  lemma ParseKeyTooManySeparators(a: string, b: string, c: string)
    ensures ParseKey(a + Sep + b + Sep + c) == Failure(TooManySeparators(a + Sep + b + Sep + c))
  {
    TwoSepsThreeParts(a, b, c);
  }

  // ---------------------------------------------------------------------------
  // The whole translation

  /** The entries whose value is not None, in order. */
  function Present<V>(ps: seq<Entry<V>>): (r: seq<Entry<V>>)
    decreases |ps|
  {
    if ps == [] then []
    else
      var x := ps[|ps| - 1];
      Present(ps[..|ps| - 1]) + (if x.1.Some? then [x] else [])
  }

  /** Every key that carries a value decodes. */
  predicate AllKeysParse<V>(ps: seq<Entry<V>>)
  {
    forall i :: 0 <= i < |ps| && ps[i].1.Some? ==> ParseKey(ps[i].0).Success?
  }

  /** Entry `i` is the first one with a value whose key fails to decode, failing with `e`. */
  predicate FirstBadKey<V>(ps: seq<Entry<V>>, i: int, e: FilterError)
  {
    && 0 <= i < |ps|
    && ps[i].1.Some?
    && ParseKey(ps[i].0) == Failure(e)
    && AllKeysParse(ps[..i])
  }

  /** The fields of the entries that carry a value and decode. */
  function AcceptedFields<V>(ps: seq<Entry<V>>): set<string>
  {
    set i | 0 <= i < |ps| && ps[i].1.Some? && ParseKey(ps[i].0).Success? :: ParseKey(ps[i].0).value.field
  }

  /** Entry `i` is accepted and no later accepted entry has the same field. */
  predicate LastForItsField<V>(ps: seq<Entry<V>>, i: int)
  {
    && 0 <= i < |ps|
    && ps[i].1.Some?
    && ParseKey(ps[i].0).Success?
    && forall j :: i < j < |ps| && ps[j].1.Some? && ParseKey(ps[j].0).Success? ==>
         ParseKey(ps[j].0).value.field != ParseKey(ps[i].0).value.field
  }

  /** Entries whose value is None are skipped: no clause, no parameter, no error. */
  lemma {:induction false} TranslateSkipsNone<V>(ps: seq<Entry<V>>)
    ensures Translate(ps) == Translate(Present(ps))
    decreases |ps|
  {
    if ps != [] {
      var front, x := ps[..|ps| - 1], ps[|ps| - 1];
      TranslateSkipsNone(front);
      var p := Present(front);
      if x.1.Some? {
        assert Present(ps) == p + [x];
        assert (p + [x])[..|p + [x]| - 1] == p;
        assert (p + [x])[|p + [x]| - 1] == x;
      } else {
        assert Present(ps) == p;
      }
    }
  }

  /** The translation succeeds exactly when every key that carries a value decodes. */
  lemma {:induction false} TranslateSucceedsIff<V>(ps: seq<Entry<V>>)
    ensures Translate(ps).Success? <==> AllKeysParse(ps)
    decreases |ps|
  {
    if ps != [] {
      var front := ps[..|ps| - 1];
      TranslateSucceedsIff(front);
      forall i | 0 <= i < |front| ensures front[i] == ps[i] { }
    }
  }

  /** The translation fails with `e` exactly when `e` is the error of the first bad key. */
  lemma {:induction false} TranslateFailsAtFirstBadKey<V>(ps: seq<Entry<V>>, e: FilterError)
    ensures Translate(ps) == Failure(e) <==> exists i :: FirstBadKey(ps, i, e)
    decreases |ps|
  {
    if Translate(ps) == Failure(e) {
      FirstBadKeyOfFailure(ps, e);
    }
    if i :| FirstBadKey(ps, i, e) {
      TranslateSucceedsIff(ps[..i]);
      assert ps[..i + 1][..i] == ps[..i];
      TranslateFailureSticks(ps[..i + 1], ps[i + 1..]);
      assert ps[..i + 1] + ps[i + 1..] == ps;
    }
  }

  lemma {:induction false} FirstBadKeyOfFailure<V>(ps: seq<Entry<V>>, e: FilterError)
    requires Translate(ps) == Failure(e)
    ensures exists i :: FirstBadKey(ps, i, e)
    decreases |ps|
  {
    var front, x := ps[..|ps| - 1], ps[|ps| - 1];
    if Translate(front).Failure? {
      FirstBadKeyOfFailure(front, e);
      var i :| FirstBadKey(front, i, e);
      assert ps[..i] == front[..i];
      assert FirstBadKey(ps, i, e);
    } else {
      TranslateSucceedsIff(front);
      assert ps[..|front|] == front;
      assert FirstBadKey(ps, |front|, e);
    }
  }

  /** On success the query is empty exactly when every value is None. */
  lemma {:induction false} TranslateQueryEmptyIff<V>(ps: seq<Entry<V>>)
    requires Translate(ps).Success?
    ensures Translate(ps).value.query == "" <==> forall i :: 0 <= i < |ps| ==> ps[i].1.None?
    decreases |ps|
  {
    if ps != [] {
      var front, x := ps[..|ps| - 1], ps[|ps| - 1];
      TranslateQueryEmptyIff(front);
      forall i | 0 <= i < |front| ensures front[i] == ps[i] { }
      if x.1.Some? {
        var f := ParseKey(x.0).value;
        assert |Clause(f)| >= 5;
      }
    }
  }

  /** On success the parameters are keyed by exactly the fields of the accepted entries. */
  lemma {:induction false} TranslateValuesKeys<V>(ps: seq<Entry<V>>)
    requires Translate(ps).Success?
    ensures Translate(ps).value.values.Keys == AcceptedFields(ps)
    decreases |ps|
  {
    if ps != [] {
      var front, x := ps[..|ps| - 1], ps[|ps| - 1];
      TranslateValuesKeys(front);
      forall i | 0 <= i < |front| ensures front[i] == ps[i] { }
      if x.1.Some? {
        var f := ParseKey(x.0).value;
        assert AcceptedFields(ps) == AcceptedFields(front) + {f.field} by {
          assert ps[|ps| - 1] == x;
        }
      } else {
        assert AcceptedFields(ps) == AcceptedFields(front);
      }
    }
  }

  /**
   * On success each field is bound to the value of the last accepted entry with
   * that field: two filters on one field both keep their clause, and the later
   * value overwrites the earlier bind parameter.
   */
  lemma {:induction false} TranslateLastValueWins<V>(ps: seq<Entry<V>>, i: int)
    requires Translate(ps).Success?
    requires LastForItsField(ps, i)
    ensures ParseKey(ps[i].0).value.field in Translate(ps).value.values
    ensures Translate(ps).value.values[ParseKey(ps[i].0).value.field] == ps[i].1.value
    decreases |ps|
  {
    var front, x := ps[..|ps| - 1], ps[|ps| - 1];
    if i < |front| {
      assert front[i] == ps[i];
      assert LastForItsField(front, i) by {
        forall j | i < j < |front| ensures front[j] == ps[j] { }
      }
      TranslateLastValueWins(front, i);
    }
  }

  /**
   * Translating two runs of entries one after the other: the queries concatenate
   * in order, the later run's parameters override the earlier's, and the first
   * failure wins.
   */
  lemma {:induction false} TranslateAppend<V>(ps: seq<Entry<V>>, qs: seq<Entry<V>>)
    ensures Translate(ps + qs) ==
              match (Translate(ps), Translate(qs))
              case (Failure(e), _) => Failure(e)
              case (Success(_), Failure(e)) => Failure(e)
              case (Success(w1), Success(w2)) => Success(Where(w1.query + w2.query, w1.values + w2.values))
    decreases |qs|
  {
    if qs == [] {
      assert ps + qs == ps;
      if Translate(ps).Success? {
        var w := Translate(ps).value;
        assert w.query + "" == w.query;
        assert w.values + map[] == w.values;
      }
    } else {
      var front, x := qs[..|qs| - 1], qs[|qs| - 1];
      TranslateAppend(ps, front);
      assert (ps + qs)[..|ps + qs| - 1] == ps + front;
      assert (ps + qs)[|ps + qs| - 1] == x;
      if Translate(ps).Success? && Translate(front).Success? && x.1.Some? && ParseKey(x.0).Success? {
        var w1, w2, f := Translate(ps).value, Translate(front).value, ParseKey(x.0).value;
        assert (w1.query + w2.query) + Clause(f) == w1.query + (w2.query + Clause(f));
        assert (w1.values + w2.values)[f.field := x.1.value] == w1.values + w2.values[f.field := x.1.value];
      }
    }
  }

  /**
   * Independent description of the query, read from the front: one clause per
   * entry that carries a value, in input order, and nothing for the others.
   */
  function ClausesOf<V>(ps: seq<Entry<V>>): string
    requires AllKeysParse(ps)
    decreases |ps|
  {
    if ps == [] then ""
    else
      assert AllKeysParse(ps[1..]) by {
        forall i | 0 <= i < |ps| - 1 ensures ps[1..][i] == ps[i + 1] { }
      }
      (if ps[0].1.Some? then Clause(ParseKey(ps[0].0).value) else "") + ClausesOf(ps[1..])
  }

  /** On success the query is exactly the clauses of the entries that carry a value, in order. */
  lemma {:induction false} TranslateQueryIsClauses<V>(ps: seq<Entry<V>>)
    requires Translate(ps).Success?
    ensures AllKeysParse(ps) && Translate(ps).value.query == ClausesOf(ps)
    decreases |ps|
  {
    TranslateSucceedsIff(ps);
    if ps != [] {
      var head, tail := ps[..1], ps[1..];
      assert head + tail == ps;
      TranslateAppend(head, tail);
      TranslateSucceedsIff(tail);
      assert AllKeysParse(tail) by {
        forall i | 0 <= i < |tail| ensures tail[i] == ps[i + 1] { }
      }
      TranslateQueryIsClauses(tail);
      assert head[..0] == [] && head[0] == ps[0];
      if ps[0].1.Some? {
        var c := Clause(ParseKey(ps[0].0).value);
        assert "" + c == c;
      }
    }
  }

  /**
   * The unguarded collision, kept as the source has it: two filters on one
   * field (`age__lt` and `age__lte`, say) both add their clause, but share one
   * bind parameter, which holds the later value.
   */
  lemma FieldCollision<V>(a: string, s1: string, s2: string, v1: V, v2: V)
    requires !ContainsSep(a) && !EndsWithUnderscore(a)
    requires s1 in OpMap && s2 in OpMap
    ensures Translate([(a + Sep + s1, Some(v1)), (a + Sep + s2, Some(v2))]) ==
              Success(Where(Clause(Filter(a, OpMap[s1])) + Clause(Filter(a, OpMap[s2])), map[a := v2]))
  {
    assert !ContainsSep(s1) && !ContainsSep(s2);
    ParseKeyWithOperator(a, s1);
    ParseKeyWithOperator(a, s2);
    var ps: seq<Entry<V>> := [(a + Sep + s1, Some(v1)), (a + Sep + s2, Some(v2))];
    var first := ps[..1];
    assert first[..0] == [] && first[0] == ps[0];
    var c1 := Clause(Filter(a, OpMap[s1]));
    assert "" + c1 == c1;
    assert Translate(first) == Success(Where(c1, map[a := v1]));
    assert map[a := v1][a := v2] == map[a := v2];
  }

  // ---------------------------------------------------------------------------
  // Route generation

  /** The `id_type` converter tag of the item route. */
  datatype IdType = IntId | UuidId | StrId

  function IdTypeName(t: IdType): string
  {
    match t
    case IntId => "int"
    case UuidId => "uuid"
    case StrId => "str"
  }

  /** A route descriptor: the path pattern, the endpoint it dispatches to and its HTTP methods. */
  datatype Route<E> = Route(path: string, endpoint: E, methods: seq<string>)

  /** Item-scoped verbs need an id segment; collection-scoped verbs do not. */
  const ItemMethods: seq<string> := ["delete", "patch"]
  const CollectionMethods: seq<string> := ["get", "post"]

  predicate EndsWithSlash(s: string)
  {
    |s| > 0 && s[|s| - 1] == '/'
  }

  predicate HasDoubleSlash(s: string)
  {
    exists i :: 0 <= i < |s| - 1 && s[i] == '/' && s[i + 1] == '/'
  }

  /** The `{id:<type>}` path segment. */
  function IdSegment(t: IdType): (seg: string)
    ensures |seg| > 0 && seg[0] == '{' && '/' !in seg
  {
    "{id:" + IdTypeName(t) + "}"
  }

  /** The item path: the collection path extended by one id segment. */
  function ItemPath(path: string, t: IdType): string
  {
    path + "/" + IdSegment(t)
  }

  /**
   * `generate_crud_routes`: the item route first, then the collection route,
   * both dispatching to the same endpoint. The collection path must not end
   * with '/', which the source asserts. The id type defaults to `int`.
   */
  function GenerateCrudRoutes<E>(path: string, endpoint: E, idType: IdType := IntId): (routes: seq<Route<E>>)
    requires !EndsWithSlash(path)
    ensures |routes| == 2
    ensures forall r :: r in routes ==> r.endpoint == endpoint
    ensures routes[1].path == path && routes[0].path == ItemPath(routes[1].path, idType)
    ensures routes[0].methods == ItemMethods && routes[1].methods == CollectionMethods
  {
    [ Route(ItemPath(path, idType), endpoint, ItemMethods),
      Route(path, endpoint, CollectionMethods) ]
  }

  /** The two routes split the four CRUD verbs between them: none shared, none missing. */
  lemma RoutesPartitionVerbs<E>(path: string, endpoint: E, idType: IdType)
    requires !EndsWithSlash(path)
    ensures var routes := GenerateCrudRoutes(path, endpoint, idType);
            && (set m | m in routes[0].methods) !! (set m | m in routes[1].methods)
            && (set m | m in routes[0].methods) + (set m | m in routes[1].methods)
               == {"get", "post", "patch", "delete"}
  {
    var routes := GenerateCrudRoutes(path, endpoint, idType);
    assert (set m | m in routes[0].methods) == {"delete", "patch"};
    assert (set m | m in routes[1].methods) == {"get", "post"};
  }

  /**
   * Why the path must not end with '/': the item path holds an empty segment
   * ("//") exactly when the collection path already has one or ends with '/'.
   */
  lemma ItemPathDoubleSlashIff(path: string, t: IdType)
    ensures HasDoubleSlash(ItemPath(path, t)) <==> HasDoubleSlash(path) || EndsWithSlash(path)
  {
    var seg := IdSegment(t);
    var p := ItemPath(path, t);
    assert |p| == |path| + 1 + |seg|;
    forall i | 0 <= i < |path| ensures p[i] == path[i] { }
    assert p[|path|] == '/';
    assert p[|path| + 1] == '{';
    forall i | |path| < i < |p| ensures p[i] == seg[i - |path| - 1] && p[i] != '/' {
      assert seg[i - |path| - 1] in seg;
    }
    if HasDoubleSlash(path) {
      var i :| 0 <= i < |path| - 1 && path[i] == '/' && path[i + 1] == '/';
      assert p[i] == '/' && p[i + 1] == '/';
    }
    if EndsWithSlash(path) {
      assert p[|path| - 1] == '/';
    }
  }
}
