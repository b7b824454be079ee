/**
 * `InstrumentedList` with its two boolean aggregates, and the
 * `instrumented_list` decorator that wraps a function's result in one.
 *
 * An item is modelled by what `getattr` can see of it: a map from attribute
 * name to the truthiness of that attribute's value.  A name missing from the
 * map is an attribute the item does not have, and `getattr` raises
 * `AttributeError` for it.
 */
module Collections {
  import opened Common

  type Item = map<string, bool>

  /** Every item has the attribute, so `getattr` never raises. */
  predicate HasAttr(items: seq<Item>, attr: string) {
    forall i :: 0 <= i < |items| ==> attr in items[i]
  }

  datatype InstrumentedList = InstrumentedList(items: seq<Item>) {

    /**
     * `any(getattr(item, attr) for item in self)`.  Python's `any` stops at the
     * first true value, so an item without the attribute raises only when no
     * earlier item had the attribute set.
     */
    function Any(attr: string): (r: Result<bool>)
      ensures HasAttr(items, attr) ==> r.Ok?
      ensures r.Ok? ==> (r.value <==> exists i :: 0 <= i < |items| && attr in items[i] && items[i][attr])
      ensures r.Err? <==> (exists k :: 0 <= k < |items| && attr !in items[k] &&
                                (forall j :: 0 <= j < k ==> attr in items[j] && !items[j][attr]))
      ensures r.Err? ==> r.error == AttributeError(attr)
      decreases |items|
    {
      if items == [] then Ok(false)
      else if attr !in items[0] then Err(AttributeError(attr))
      else if items[0][attr] then Ok(true)
      else
        ShiftPastItem(items, attr, false);
        ShiftPastRaise(items, attr, false);
        InstrumentedList(items[1..]).Any(attr)
    }

    /**
     * `all(getattr(item, attr) for item in self)`.  Python's `all` stops at the
     * first false value; it is true on an empty list.
     */
    function All(attr: string): (r: Result<bool>)
      ensures HasAttr(items, attr) ==> r.Ok?
      ensures r.Ok? ==> (r.value <==> forall i :: 0 <= i < |items| ==> attr in items[i] && items[i][attr])
      ensures r.Err? <==> (exists k :: 0 <= k < |items| && attr !in items[k] &&
                                (forall j :: 0 <= j < k ==> attr in items[j] && items[j][attr]))
      ensures r.Err? ==> r.error == AttributeError(attr)
      decreases |items|
    {
      if items == [] then Ok(true)
      else if attr !in items[0] then Err(AttributeError(attr))
      else if !items[0][attr] then Ok(false)
      else
        ShiftPastItem(items, attr, true);
        ShiftPastRaise(items, attr, true);
        InstrumentedList(items[1..]).All(attr)
    }
  }

  /**
   * Going past a first item whose attribute has the value `v`: the quantified
   * facts about the list are those about its tail.
   */
  lemma ShiftPastItem(items: seq<Item>, attr: string, v: bool)
    requires items != [] && attr in items[0] && items[0][attr] == v
    ensures HasAttr(items, attr) <==> HasAttr(items[1..], attr)
    ensures (exists i :: 0 <= i < |items| && attr in items[i] && items[i][attr]) <==>
            (v || exists i :: 0 <= i < |items[1..]| && attr in items[1..][i] && items[1..][i][attr])
    ensures (forall i :: 0 <= i < |items| ==> attr in items[i] && items[i][attr]) <==>
            (v && forall i :: 0 <= i < |items[1..]| ==> attr in items[1..][i] && items[1..][i][attr])
  {
    assert forall i :: 1 <= i < |items| ==> items[i] == items[1..][i - 1];
  }

  /** Going past such an item, the list raises exactly when its tail does. */
  lemma ShiftPastRaise(items: seq<Item>, attr: string, v: bool)
    requires items != [] && attr in items[0] && items[0][attr] == v
    ensures (exists k :: 0 <= k < |items| && attr !in items[k] &&
              (forall j :: 0 <= j < k ==> attr in items[j] && items[j][attr] == v)) <==>
            (exists k :: 0 <= k < |items[1..]| && attr !in items[1..][k] &&
              (forall j :: 0 <= j < k ==> attr in items[1..][j] && items[1..][j][attr] == v))
  {
    var rest := items[1..];
    if exists k :: 0 <= k < |items| && attr !in items[k] &&
         (forall j :: 0 <= j < k ==> attr in items[j] && items[j][attr] == v) {
      var k :| 0 <= k < |items| && attr !in items[k] &&
         (forall j :: 0 <= j < k ==> attr in items[j] && items[j][attr] == v);
      assert k > 0;
      assert forall j :: 0 <= j < k - 1 ==> rest[j] == items[j + 1];
    }
    if exists k :: 0 <= k < |rest| && attr !in rest[k] &&
         (forall j :: 0 <= j < k ==> attr in rest[j] && rest[j][attr] == v) {
      var k :| 0 <= k < |rest| && attr !in rest[k] &&
         (forall j :: 0 <= j < k ==> attr in rest[j] && rest[j][attr] == v);
      assert items[k + 1] == rest[k];
      assert forall j :: 1 <= j < k + 1 ==> items[j] == rest[j - 1];
    }
  }

  /**
   * `instrumented_list(f)`: the wrapper calls `f` and builds an
   * `InstrumentedList` from its result by a list comprehension, which keeps
   * every element in its order.
   */
  function Instrumented<A(!new)>(f: A -> seq<Item>): (g: A -> InstrumentedList)
    ensures forall a :: |g(a).items| == |f(a)|
    ensures forall a, i :: 0 <= i < |f(a)| ==> g(a).items[i] == f(a)[i]
  {
    a => var xs := f(a); InstrumentedList(seq(|xs|, i requires 0 <= i < |xs| => xs[i]))
  }

  /** On an empty list `any` is false and `all` is true, whatever the attribute. */
  lemma EmptyAggregates(attr: string)
    ensures InstrumentedList([]).Any(attr) == Ok(false)
    ensures InstrumentedList([]).All(attr) == Ok(true)
  {
  }

  /** `any` and `all` are duals: `any` is false iff `all` of the negated values is true. */
  lemma {:induction false} AnyAllDuality(items: seq<Item>, attr: string)
    requires HasAttr(items, attr)
    ensures var negated := seq(|items|, i requires 0 <= i < |items| => items[i][attr := !items[i][attr]]);
      InstrumentedList(items).Any(attr) == Ok(!InstrumentedList(negated).All(attr).value)
  {
    var negated := seq(|items|, i requires 0 <= i < |items| => items[i][attr := !items[i][attr]]);
    assert forall i :: 0 <= i < |items| ==> attr in negated[i] && negated[i][attr] == !items[i][attr];
    assert HasAttr(negated, attr);
  }
}
