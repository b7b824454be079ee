/**
 * `defer_except(query, columns)`: mark as deferred every column property of
 * the query's first selected entity whose first column is not kept.
 */
module Deferral {
  import opened Common
  import opened Queries

  /** The keys a pass over `properties` defers: column properties whose first column is not kept. */
  function DeferredKeys(properties: set<Property>, columns: set<string>): set<string> {
    set p | p in properties && p.ColumnProperty? && p.firstColumn !in columns :: p.key
  }

  /** What `defer_except` returns: an IndexError on a query that selects nothing, otherwise the deferrals added. */
  function DeferExceptSpec(q: Query, columns: set<string>): Result<Query> {
    if q.entities == [] then Err(IndexError)
    else Ok(q.(deferred := q.deferred + DeferredKeys(q.entities[0].entity.properties, columns)))
  }

  lemma DeferredKeysStep(done: set<Property>, p: Property, columns: set<string>)
    ensures DeferredKeys(done + {p}, columns) ==
      DeferredKeys(done, columns) + (if p.ColumnProperty? && p.firstColumn !in columns then {p.key} else {})
  {
  }

  /**
   * `defer_except` as written: take the first selected entity's class, walk
   * the set of its mapped properties in whatever order the set yields them,
   * and add `defer(key)` for each column property whose first column's name
   * is not in `columns`.
   */
  method DeferExcept(q: Query, columns: set<string>) returns (r: Result<Query>)
    ensures r == DeferExceptSpec(q, columns)
  {
    if q.entities == [] {
      return Err(IndexError);
    }
    var model := q.entities[0].entity;
    var fields := model.properties;
    var query := q;
    while fields != {}
      invariant fields <= model.properties
      invariant query == q.(deferred := q.deferred + DeferredKeys(model.properties - fields, columns))
      decreases |fields|
    {
      var field :| field in fields;
      DeferredKeysStep(model.properties - fields, field, columns);
      assert model.properties - (fields - {field}) == (model.properties - fields) + {field};
      fields := fields - {field};
      if field.ColumnProperty? {
        if field.firstColumn !in columns {
          query := query.Defer(field.key);
        }
      }
    }
    assert model.properties - fields == model.properties;
    return Ok(query);
  }

  // ---------------------------------------------------------------------
  // Properties of defer_except

  /** No two properties of a class share a key, as in a mapper. */
  predicate UniqueKeys(properties: set<Property>) {
    forall p, p' :: p in properties && p' in properties && p.key == p'.key ==> p == p'
  }

  /**
   * Only the deferred keys change, and what is added is exactly the keys of
   * the column properties of the first entity whose first column is not kept.
   */
  lemma DeferExceptChangesOnlyOptions(q: Query, columns: set<string>, key: string)
    requires q.entities != []
    ensures var r := DeferExceptSpec(q, columns).value;
      && r.entities == q.entities && r.joinEntities == q.joinEntities && r.orderBy == q.orderBy
      && q.deferred <= r.deferred
      && (key in r.deferred - q.deferred ==>
            exists p :: p in q.entities[0].entity.properties && p.ColumnProperty? &&
                        p.key == key && p.firstColumn !in columns)
  {
  }

  /**
   * With unique keys, a column property is deferred exactly when its first
   * column is not kept, and a non-column property is never deferred.
   */
  lemma DeferredIff(properties: set<Property>, columns: set<string>, p: Property)
    requires UniqueKeys(properties)
    requires p in properties
    ensures p.ColumnProperty? ==> (p.key in DeferredKeys(properties, columns) <==> p.firstColumn !in columns)
    ensures p.OtherProperty? ==> p.key !in DeferredKeys(properties, columns)
  {
    if p.key in DeferredKeys(properties, columns) {
      var p' :| p' in properties && p'.ColumnProperty? && p'.firstColumn !in columns && p'.key == p.key;
      assert p' == p;
    }
  }

  /** Keeping every column of the first entity adds no option at all. */
  lemma KeepAllDefersNothing(q: Query, columns: set<string>)
    requires q.entities != []
    requires forall p :: p in q.entities[0].entity.properties && p.ColumnProperty? ==> p.firstColumn in columns
    ensures DeferExceptSpec(q, columns) == Ok(q)
  {
    var keys := DeferredKeys(q.entities[0].entity.properties, columns);
    assert forall k :: k !in keys;
    assert keys == {};
    assert q.deferred + keys == q.deferred;
  }

  /**
   * The columns this call leaves eager are the kept columns that the entity
   * actually has (given unique keys).
   */
  lemma EagerColumnsAreKeptColumns(properties: set<Property>, columns: set<string>)
    requires UniqueKeys(properties)
    ensures var deferred := DeferredKeys(properties, columns);
      (set p | p in properties && p.ColumnProperty? && p.key !in deferred :: p.firstColumn)
      == columns * (set p | p in properties && p.ColumnProperty? :: p.firstColumn)
  {
    var deferred := DeferredKeys(properties, columns);
    var eager := set p | p in properties && p.ColumnProperty? && p.key !in deferred :: p.firstColumn;
    var all := set p | p in properties && p.ColumnProperty? :: p.firstColumn;
    forall p | p in properties && p.ColumnProperty?
      ensures p.key !in deferred <==> p.firstColumn in columns
    {
      DeferredIff(properties, columns, p);
    }
    forall c | c in columns * all ensures c in eager {
      var p :| p in properties && p.ColumnProperty? && p.firstColumn == c;
      assert p.key !in deferred;
    }
    assert eager == columns * all;
  }

  /** A model with columns `id`, `name` and `bio`, keeping `id` and `name`, defers `bio` alone. */
  lemma DeferExample(q: Query)
    requires q.entities != [] && q.deferred == {}
    requires q.entities[0].entity.properties ==
      {ColumnProperty("id", "id"), ColumnProperty("name", "name"), ColumnProperty("bio", "bio")}
    ensures DeferExceptSpec(q, {"id", "name"}) == Ok(q.(deferred := {"bio"}))
  {
    var ps := q.entities[0].entity.properties;
    assert ColumnProperty("bio", "bio") in ps;
    assert DeferredKeys(ps, {"id", "name"}) == {"bio"};
    assert q.deferred + {"bio"} == {"bio"};
  }

  /** A query that selects nothing raises IndexError. */
  lemma EmptyQueryRaises(q: Query, columns: set<string>)
    requires q.entities == []
    ensures DeferExceptSpec(q, columns) == Err(IndexError)
  {
  }
}
