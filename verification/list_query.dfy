/** The pure part of the two list operations: the page-size default, the
    rewrite of dot-notation filter keys into the ORM's `__` join syntax, and
    the assembly of the query the ORM is asked to run. */
module ListQuery {
  import opened Wrappers
  import opened SortOrder

  const DefaultPageSize := 20

  /** A limit of zero asks for the default page size. */
  function DefaultLimit(limit: int): (r: int)
    ensures r != 0
    ensures limit != 0 ==> r == limit
    ensures limit == 0 ==> r == DefaultPageSize
  {
    if limit == 0 then DefaultPageSize else limit
  }

  /** Every '.' of a filter key becomes "__" (`strings.Replace` with no limit). */
  function RewriteKey(k: string): (r: string)
    ensures '.' !in r
    ensures |r| == |k| + CountDots(k)
    ensures |k| == 1 ==> r == (if k[0] == '.' then "__" else k)
    decreases |k|
  {
    if |k| == 0 then []
    else (if k[0] == '.' then "__" else [k[0]]) + RewriteKey(k[1..])
  }

  function CountDots(k: string): nat
    decreases |k|
  {
    if |k| == 0 then 0 else (if k[0] == '.' then 1 else 0) + CountDots(k[1..])
  }

  /** One `Filter` or `Exclude` condition handed to the ORM. */
  datatype Cond<V> = Cond(key: string, value: V)

  /** The conditions for a key/value map after the key rewrite. Conditions
      are conjoined by the ORM, so their order is immaterial; two keys that
      rewrite to the same text with equal values give one condition, where
      the ORM is handed the same filter twice, which means the same. */
  function RewriteConds<V(==)>(m: map<string, V>): (cs: set<Cond<V>>)
    ensures forall c | c in cs :: '.' !in c.key
    ensures forall k | k in m :: Cond(RewriteKey(k), m[k]) in cs
    ensures forall c | c in cs :: exists k | k in m :: c == Cond(RewriteKey(k), m[k])
  {
    set k | k in m :: Cond(RewriteKey(k), m[k])
  }

  /** The query a list operation issues: filters, excludes, projected fields,
      order-by fields and the page window. */
  datatype Query<V(==)> = Query(
    filters: set<Cond<V>>,
    excludes: set<Cond<V>>,
    fields: seq<string>,
    sortFields: seq<string>,
    limit: int,
    offset: int)

  /** Shared by both list operations: the limit default and the sort clause;
      the sort validation error, if any, replaces the query. A query that is
      built carries a non-zero page size and one order-by entry per sort
      field, each the field itself or the field with '-' in front. */
  function BuildQuery<V(==)>(filters: set<Cond<V>>, excludes: set<Cond<V>>, fields: seq<string>,
                         sortby: seq<string>, order: seq<string>, offset: int, limit: int)
    : (r: Result<Query<V>, string>)
    ensures r.Failure? <==> BuildSortFields(sortby, order).Failure?
    ensures r.Failure? ==> r.error == InvalidOrder || r.error == SizeMismatch || r.error == UnusedOrder
    ensures r.Failure? ==> r.error == BuildSortFields(sortby, order).error
    ensures r.Success? ==> r.value.limit != 0 && (limit != 0 ==> r.value.limit == limit)
    ensures r.Success? ==> |r.value.sortFields| == |sortby|
    ensures r.Success? ==>
      forall i | 0 <= i < |sortby| :: r.value.sortFields[i] == sortby[i] || r.value.sortFields[i] == "-" + sortby[i]
    ensures r.Success? ==> r.value.sortFields == BuildSortFields(sortby, order).value
    ensures r.Success? ==>
      r.value.filters == filters && r.value.excludes == excludes && r.value.fields == fields && r.value.offset == offset
  {
    match BuildSortFields(sortby, order)
    case Failure(e) => Failure(e)
    case Success(sortFields) =>
      SortFieldsShape(sortby, order);
      Success(Query(filters, excludes, fields, sortFields, DefaultLimit(limit), offset))
  }

  /** The sequence list builds its query from `query` alone: its `exclude`
      and `condMap` arguments are accepted and never used. */
  function SequenceListQuery<V(==)>(query: map<string, V>, exclude: map<string, V>,
                                condMap: map<string, map<string, V>>, fields: seq<string>,
                                sortby: seq<string>, order: seq<string>, offset: int, limit: int)
    : (r: Result<Query<V>, string>)
    ensures r.Failure? <==> BuildSortFields(sortby, order).Failure?
    ensures r.Failure? ==> r.error == BuildSortFields(sortby, order).error
    ensures r.Success? ==> r.value.filters == RewriteConds(query) && r.value.excludes == {}
    ensures r.Success? ==> r.value.sortFields == BuildSortFields(sortby, order).value
    ensures r.Success? ==> r.value.limit == DefaultLimit(limit) && r.value.offset == offset && r.value.fields == fields
  {
    BuildQuery(RewriteConds(query), {}, fields, sortby, order, offset, limit)
  }

  /** The attribute-value list rewrites both its `query` and its `exclude`
      keys; its `condMap` is accepted and never used. */
  function AttributeValueListQuery<V(==)>(query: map<string, V>, exclude: map<string, V>,
                                      condMap: map<string, map<string, V>>, fields: seq<string>,
                                      sortby: seq<string>, order: seq<string>, offset: int, limit: int)
    : (r: Result<Query<V>, string>)
    ensures r.Failure? <==> BuildSortFields(sortby, order).Failure?
    ensures r.Failure? ==> r.error == BuildSortFields(sortby, order).error
    ensures r.Success? ==> r.value.filters == RewriteConds(query) && r.value.excludes == RewriteConds(exclude)
    ensures r.Success? ==> r.value.sortFields == BuildSortFields(sortby, order).value
    ensures r.Success? ==> r.value.limit == DefaultLimit(limit) && r.value.offset == offset && r.value.fields == fields
  {
    BuildQuery(RewriteConds(query), RewriteConds(exclude), fields, sortby, order, offset, limit)
  }

  /** The sequence list's result does not depend on `exclude` or `condMap`. */
  lemma SequenceListIgnoresExclude<V>(query: map<string, V>, e1: map<string, V>, e2: map<string, V>,
                                      c1: map<string, map<string, V>>, c2: map<string, map<string, V>>,
                                      fields: seq<string>, sortby: seq<string>, order: seq<string>,
                                      offset: int, limit: int)
    ensures SequenceListQuery(query, e1, c1, fields, sortby, order, offset, limit)
         == SequenceListQuery(query, e2, c2, fields, sortby, order, offset, limit)
  {
  }

  /** An exclusion passed to the sequence list is dropped: asking to leave
      out inactive counters still lists them. */
  lemma SequenceListDropsExclusion()
    ensures var r := SequenceListQuery<bool>(map[], map["Active" := false], map[], [], [], [], 0, 0);
      r.Success? && r.value.excludes == {}
  {
  }

  /** The sequence list as its signature and its twin, the attribute-value
      list, evidently intend it: `exclude` rewritten and applied. */
  function SequenceListQueryWithExclude<V(==)>(query: map<string, V>, exclude: map<string, V>,
                                               condMap: map<string, map<string, V>>, fields: seq<string>,
                                               sortby: seq<string>, order: seq<string>, offset: int, limit: int)
    : (r: Result<Query<V>, string>)
    ensures r.Failure? <==> BuildSortFields(sortby, order).Failure?
    ensures r.Success? ==> r.value.filters == RewriteConds(query) && r.value.excludes == RewriteConds(exclude)
    ensures r.Success? ==> forall k | k in exclude :: Cond(RewriteKey(k), exclude[k]) in r.value.excludes
  {
    BuildQuery(RewriteConds(query), RewriteConds(exclude), fields, sortby, order, offset, limit)
  }

  /** The corrected sequence list builds the same query as the
      attribute-value list, so the two list operations agree again. */
  lemma CorrectedListsAgree<V>(query: map<string, V>, exclude: map<string, V>,
                                   condMap: map<string, map<string, V>>, fields: seq<string>,
                                   sortby: seq<string>, order: seq<string>, offset: int, limit: int)
    ensures SequenceListQueryWithExclude(query, exclude, condMap, fields, sortby, order, offset, limit)
         == AttributeValueListQuery(query, exclude, condMap, fields, sortby, order, offset, limit)
  {
  }

  /** A key without '.' is left as it is. */
  lemma {:induction false} RewriteKeepsDotFree(k: string)
    requires '.' !in k
    ensures RewriteKey(k) == k
    decreases |k|
  {
    if |k| > 0 {
      assert '.' !in k[1..] by {
        forall i | 0 <= i < |k[1..]| ensures k[1..][i] != '.' {
          assert k[1..][i] == k[i + 1];
        }
      }
      RewriteKeepsDotFree(k[1..]);
      assert k == [k[0]] + k[1..];
    }
  }

  /** Rewriting twice is rewriting once. */
  lemma RewriteIdempotent(k: string)
    ensures RewriteKey(RewriteKey(k)) == RewriteKey(k)
  {
    RewriteKeepsDotFree(RewriteKey(k));
  }

  /** The rewrite works character by character, so it distributes over
      concatenation: a path `a.b` becomes `a'__b'`. */
  lemma {:induction false} RewriteConcat(a: string, b: string)
    ensures RewriteKey(a + b) == RewriteKey(a) + RewriteKey(b)
    decreases |a|
  {
    if |a| == 0 {
      assert a + b == b;
    } else {
      assert (a + b)[0] == a[0];
      assert (a + b)[1..] == a[1..] + b;
      RewriteConcat(a[1..], b);
    }
  }

  /** A dotted path rewrites segment by segment: `a.b` becomes `a'__b'`,
      whatever `a` and `b` hold. */
  lemma RewriteDottedPath(a: string, b: string)
    ensures RewriteKey(a + "." + b) == RewriteKey(a) + "__" + RewriteKey(b)
  {
    RewriteConcat(a + ".", b);
    RewriteConcat(a, ".");
  }
}
