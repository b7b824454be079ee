/**
 * `sort_query(query, sort)`: order a query by a label or column named in a
 * string directive of the form `["-"] [component "-"] field`.
 */
module Sorting {
  import opened Common
  import opened Queries

  // ---------------------------------------------------------------------
  // Python's `str.split(sep)` for a one-character separator

  /** `s.split(sep)`: the pieces between separators, always at least one. */
  function Split(s: string, sep: char): (parts: seq<string>)
    ensures |parts| >= 1
    ensures forall i :: 0 <= i < |parts| ==> sep !in parts[i]
    ensures |parts| > 1 <==> sep in s
  {
    if s == [] then [[]]
    else
      var rest := Split(s[1..], sep);
      assert s == [s[0]] + s[1..];
      if s[0] == sep then [[]] + rest
      else
        assert forall i :: 1 <= i < |rest| ==> rest[1..][i - 1] == rest[i];
        [[s[0]] + rest[0]] + rest[1..]
  }

  /** `sep.join(parts)`. */
  function Join(parts: seq<string>, sep: char): string
    requires |parts| >= 1
  {
    if |parts| == 1 then parts[0] else parts[0] + [sep] + Join(parts[1..], sep)
  }

  /** Joining the pieces back gives the string that was split. */
  lemma {:induction false} JoinSplit(s: string, sep: char)
    ensures Join(Split(s, sep), sep) == s
  {
    if s != [] {
      var rest := Split(s[1..], sep);
      JoinSplit(s[1..], sep);
      assert s == [s[0]] + s[1..];
      if s[0] == sep {
        var parts := [[]] + rest;
        assert parts[1..] == rest;
        assert Join(parts, sep) == [] + [sep] + Join(rest, sep);
      } else if |rest| == 1 {
        assert Split(s, sep) == [[s[0]] + rest[0]];
      } else {
        var parts := [[s[0]] + rest[0]] + rest[1..];
        assert Split(s, sep) == parts;
        assert parts[1..] == rest[1..];
        assert Join(rest, sep) == rest[0] + [sep] + Join(rest[1..], sep);
        assert Join(parts, sep) == [s[0]] + rest[0] + [sep] + Join(rest[1..], sep);
      }
    }
  }

  /** A separator-free string splits into itself. */
  lemma {:induction false} SplitWithoutSeparator(a: string, sep: char)
    requires sep !in a
    ensures Split(a, sep) == [a]
  {
    JoinSplit(a, sep);
  }

  /** Splitting consumes a separator-free prefix up to its separator. */
  lemma {:induction false} SplitAfterPrefix(a: string, b: string, sep: char)
    requires sep !in a
    ensures Split(a + [sep] + b, sep) == [a] + Split(b, sep)
  {
    var s := a + [sep] + b;
    if a == [] {
      assert s == [sep] + b && s[1..] == b;
    } else {
      assert s[0] == a[0] && s[1..] == a[1..] + [sep] + b;
      SplitAfterPrefix(a[1..], b, sep);
      assert [a[0]] + a[1..] == a;
    }
  }

  /** Splitting undoes joining when no piece holds the separator. */
  lemma {:induction false} SplitJoin(parts: seq<string>, sep: char)
    requires |parts| >= 1
    requires forall i :: 0 <= i < |parts| ==> sep !in parts[i]
    ensures Split(Join(parts, sep), sep) == parts
  {
    if |parts| == 1 {
      SplitWithoutSeparator(parts[0], sep);
    } else {
      SplitJoin(parts[1..], sep);
      SplitAfterPrefix(parts[0], Join(parts[1..], sep), sep);
      assert [parts[0]] + parts[1..] == parts;
    }
  }

  // ---------------------------------------------------------------------
  // The sort directive

  datatype Directive = Directive(direction: Direction, component: Option<string>, field: string)

  /** The directive without its descending marker: one leading `-` is stripped, no more. */
  function Body(sort: string): string
    requires sort != []
  {
    if sort[0] == '-' then sort[1..] else sort
  }

  /**
   * Lines 110-120 of sqlalchemy_utils/__init__.py: the direction, then `parts = sort.split('-')`;
   * with more than one part the component is `parts[0]`, the field `parts[1]`,
   * and later parts are dropped.  With one part the whole body is the field.
   */
  function ParseDirective(sort: string): (d: Directive)
    requires sort != []
    ensures d.direction == (if sort[0] == '-' then Desc else Asc)
    ensures d.component.None? <==> '-' !in Body(sort)
    ensures d.component.None? ==> d.field == Body(sort)
    ensures d.component.Some? ==>
      var b, c, f := Body(sort), d.component.value, d.field;
      && '-' !in c && '-' !in f
      && |c| + 1 + |f| <= |b|
      && b[..|c|] == c && b[|c|] == '-' && b[|c| + 1..|c| + 1 + |f|] == f
      && (|c| + 1 + |f| == |b| || b[|c| + 1 + |f|] == '-')
  {
    var direction := if sort[0] == '-' then Desc else Asc;
    var body := Body(sort);
    var parts := Split(body, '-');
    if |parts| > 1 then
      JoinSplit(body, '-');
      assert body == parts[0] + ['-'] + Join(parts[1..], '-');
      assert parts[1..][0] == parts[1];
      assert |parts| > 2 ==> Join(parts[1..], '-') == parts[1] + ['-'] + Join(parts[2..], '-') by {
        assert parts[1..][1..] == parts[2..];
      }
      Directive(direction, Some(parts[0]), parts[1])
    else
      Directive(direction, None, body)
  }

  /** However many further pieces follow, only the first two count. */
  lemma ExtraPartsIgnored(c: string, f: string, rest: string)
    requires c != [] && c[0] != '-'
    requires '-' !in c && '-' !in f
    ensures ParseDirective(c + "-" + f + "-" + rest) == Directive(Asc, Some(c), f)
  {
    var s := c + "-" + f + "-" + rest;
    assert s == c + ['-'] + (f + ['-'] + rest);
    SplitAfterPrefix(c, f + ['-'] + rest, '-');
    SplitAfterPrefix(f, rest, '-');
  }

  // ---------------------------------------------------------------------
  // Candidates and labels (lines 93-105)

  /**
   * The classes the scan looks at: the entity of every selected element,
   * then every joined entity (the mapper's class, or the joined object itself).
   */
  function Candidates(q: Query): (es: seq<Entity>)
    ensures |es| == |q.entities| + |q.joinEntities|
    ensures forall i :: 0 <= i < |q.entities| ==> es[i] == q.entities[i].entity
    ensures forall i :: 0 <= i < |q.joinEntities| ==> es[|q.entities| + i] == q.joinEntities[i]
  {
    seq(|q.entities|, i requires 0 <= i < |q.entities| => q.entities[i].entity) + q.joinEntities
  }

  /** The label a selected element contributes: a column expression with a non-empty label. */
  function LabelOf(e: QueryEntity): seq<string> {
    if e.ColumnEntity? && e.labelName != "" then [e.labelName] else []
  }

  /** The labels of the selected elements, in order. */
  function Labels(es: seq<QueryEntity>): (ls: seq<string>)
    ensures forall l :: l in ls <==>
      exists i :: 0 <= i < |es| && es[i].ColumnEntity? && es[i].labelName == l && l != ""
  {
    if es == [] then []
    else
      var init := es[..|es| - 1];
      assert forall i :: 0 <= i < |init| ==> init[i] == es[i];
      Labels(init) + LabelOf(es[|es| - 1])
  }

  method CollectCandidates(q: Query) returns (entities: seq<Entity>)
    ensures entities == Candidates(q)
  {
    entities := [];
    for i := 0 to |q.entities|
      invariant entities == seq(i, j requires 0 <= j < i => q.entities[j].entity)
    {
      entities := entities + [q.entities[i].entity];
    }
    for i := 0 to |q.joinEntities|
      invariant entities == Candidates(q)[..|q.entities| + i]
    {
      entities := entities + [q.joinEntities[i]];
    }
  }

  method CollectLabels(q: Query) returns (labels: seq<string>)
    ensures labels == Labels(q.entities)
  {
    labels := [];
    for i := 0 to |q.entities|
      invariant labels == Labels(q.entities[..i])
    {
      assert q.entities[..i + 1][..i] == q.entities[..i];
      var entity := q.entities[i];
      if entity.ColumnEntity? && entity.labelName != "" {
        labels := labels + [entity.labelName];
      }
    }
    assert q.entities[..|q.entities|] == q.entities;
  }

  // ---------------------------------------------------------------------
  // Resolution (lines 121-135)

  /** A non-empty component restricts the scan to the table of that name; `None` and `""` do not. */
  predicate Restricts(component: Option<string>) {
    component.Some? && component.value != ""
  }

  /** The scan stops at an entity that passes the component filter and whose table has the field. */
  predicate Eligible(e: Entity, component: Option<string>, field: string) {
    (!Restricts(component) || e.tableName == component.value) && field in e.columns
  }

  /** The first eligible candidate at or after `i`. */
  function FirstEligible(es: seq<Entity>, component: Option<string>, field: string, i: nat): (r: Option<nat>)
    requires i <= |es|
    ensures r.Some? ==> i <= r.value < |es| && Eligible(es[r.value], component, field)
    ensures r.Some? ==> forall j :: i <= j < r.value ==> !Eligible(es[j], component, field)
    ensures r.None? ==> forall j :: i <= j < |es| ==> !Eligible(es[j], component, field)
    decreases |es| - i
  {
    if i == |es| then None
    else if Eligible(es[i], component, field) then Some(i)
    else FirstEligible(es, component, field, i + 1)
  }

  /** The outcome of the scan over the candidates for a directive whose field is no label. */
  function Resolve(q: Query, es: seq<Entity>, d: Directive): Query {
    match FirstEligible(es, d.component, d.field, 0)
    case None => q
    case Some(i) =>
      if d.field in es[i].attributes then q.OrderBy(Ordering(d.direction, Attribute(es[i], d.field)))
      else q
  }

  /** What `sort_query` returns, stated clause by clause. */
  function SortQuerySpec(q: Query, sort: Option<string>): Query {
    if sort.None? || sort.value == "" then q
    else
      var d := ParseDirective(sort.value);
      if d.field in Labels(q.entities) then q.OrderBy(Ordering(d.direction, Label(d.field)))
      else Resolve(q, Candidates(q), d)
  }

  /** Lines 110-120 of sqlalchemy_utils/__init__.py: the direction, component and field, rebinding `sort` step by step. */
  method ParseSteps(sort: string) returns (direction: Direction, component: Option<string>, field: string)
    requires sort != ""
    ensures Directive(direction, component, field) == ParseDirective(sort)
  {
    field := sort;
    if field[0] == '-' {
      direction := Desc;
      field := field[1..];
    } else {
      direction := Asc;
    }
    component := None;
    var parts := Split(field, '-');
    if |parts| > 1 {
      component := Some(parts[0]);
      field := parts[1];
    }
  }

  /**
   * Lines 124-134 of sqlalchemy_utils/__init__.py: scan the candidates, `continue` past a table whose name
   * differs from a non-empty component, and `break` at the first table that
   * has the column, whether or not `getattr` then finds the attribute.
   */
  method Scan(q: Query, entities: seq<Entity>, direction: Direction, component: Option<string>, field: string)
      returns (r: Query)
    ensures r == Resolve(q, entities, Directive(direction, component, field))
  {
    r := q;
    var i := 0;
    while i < |entities|
      invariant 0 <= i <= |entities|
      invariant r == q
      invariant FirstEligible(entities, component, field, 0) == FirstEligible(entities, component, field, i)
    {
      var entity := entities[i];
      if component.Some? && component.value != "" && entity.tableName != component.value {
        i := i + 1;
        continue;
      }
      if field in entity.columns {
        if field in entity.attributes {
          r := r.OrderBy(Ordering(direction, Attribute(entity, field)));
        }
        break;
      }
      i := i + 1;
    }
  }

  /**
   * `sort_query` as written: collect the candidates and labels, return early
   * without a directive, parse it, try the labels, then scan the candidates.
   */
  method SortQuery(q: Query, sort: Option<string>) returns (r: Query)
    ensures r == SortQuerySpec(q, sort)
  {
    var entities := CollectCandidates(q);
    var labels := CollectLabels(q);
    if sort.None? || sort.value == "" {
      return q;
    }
    var direction, component, field := ParseSteps(sort.value);
    if field in labels {
      return q.OrderBy(Ordering(direction, Label(field)));
    }
    r := Scan(q, entities, direction, component, field);
  }

  // ---------------------------------------------------------------------
  // Properties of sort_query

  /** With no directive, or an empty one, the query comes back unchanged. */
  lemma NoDirectiveUnchanged(q: Query, sort: Option<string>)
    requires sort.None? || sort.value == ""
    ensures SortQuerySpec(q, sort) == q
  {
  }

  /** Only the ORDER BY list changes, and it gains at most one clause at its end. */
  lemma SortAppendsAtMostOne(q: Query, sort: Option<string>)
    ensures var r := SortQuerySpec(q, sort);
      && r.entities == q.entities && r.joinEntities == q.joinEntities && r.deferred == q.deferred
      && |q.orderBy| <= |r.orderBy| <= |q.orderBy| + 1
      && r.orderBy[..|q.orderBy|] == q.orderBy
  {
    var r := SortQuerySpec(q, sort);
    assert r == q || exists o :: r == q.OrderBy(o);
  }

  /** An appended clause is descending exactly when the directive starts with `-`. */
  lemma SortDirection(q: Query, s: string)
    requires s != ""
    requires SortQuerySpec(q, Some(s)) != q
    ensures var r := SortQuerySpec(q, Some(s));
      |r.orderBy| == |q.orderBy| + 1 && (r.orderBy[|q.orderBy|].direction == Desc <==> s[0] == '-')
  {
  }

  /** A field equal to a result label is ordered by that label and nothing else. */
  lemma LabelTakesPrecedence(q: Query, s: string)
    requires s != ""
    requires ParseDirective(s).field in Labels(q.entities)
    ensures var d := ParseDirective(s);
      SortQuerySpec(q, Some(s)) == q.(orderBy := q.orderBy + [Ordering(d.direction, Label(d.field))])
  {
  }

  /**
   * Otherwise the clause appended is on the first eligible candidate, scanning
   * selected entities before joined ones, and only if that candidate has the
   * attribute.
   */
  lemma ColumnIsFirstMatch(q: Query, s: string, e: Entity, dir: Direction, f: string)
    requires s != ""
    requires SortQuerySpec(q, Some(s)) == q.OrderBy(Ordering(dir, Attribute(e, f)))
    ensures var d := ParseDirective(s);
      && d.field !in Labels(q.entities)
      && f == d.field && dir == d.direction && f in e.attributes
      && exists i :: 0 <= i < |Candidates(q)| && Candidates(q)[i] == e
          && Eligible(e, d.component, f)
          && forall j :: 0 <= j < i ==> !Eligible(Candidates(q)[j], d.component, f)
  {
    var d := ParseDirective(s);
    var es := Candidates(q);
    var r := SortQuerySpec(q, Some(s));
    assert |r.orderBy| == |q.orderBy| + 1;
    assert r.orderBy[|q.orderBy|] == Ordering(dir, Attribute(e, f));
    var k := FirstEligible(es, d.component, d.field, 0);
    assert k.Some? && es[k.value] == e;
  }

  /** A field that is no label and no candidate's column leaves the query unchanged. */
  lemma UnknownFieldUnchanged(q: Query, s: string)
    requires s != ""
    requires ParseDirective(s).field !in Labels(q.entities)
    requires forall e :: e in Candidates(q) ==> ParseDirective(s).field !in e.columns
    ensures SortQuerySpec(q, Some(s)) == q
  {
  }

  /**
   * Conversely, when the field is no label and the first eligible candidate
   * has the attribute, exactly the clause on that attribute is appended.
   */
  lemma FirstMatchIsOrdered(q: Query, s: string, i: nat)
    requires s != ""
    requires ParseDirective(s).field !in Labels(q.entities)
    requires i < |Candidates(q)|
    requires Eligible(Candidates(q)[i], ParseDirective(s).component, ParseDirective(s).field)
    requires forall j :: 0 <= j < i ==> !Eligible(Candidates(q)[j], ParseDirective(s).component, ParseDirective(s).field)
    requires ParseDirective(s).field in Candidates(q)[i].attributes
    ensures SortQuerySpec(q, Some(s)) ==
      q.OrderBy(Ordering(ParseDirective(s).direction, Attribute(Candidates(q)[i], ParseDirective(s).field)))
  {
    var d := ParseDirective(s);
    assert FirstEligible(Candidates(q), d.component, d.field, 0) == Some(i);
  }

  /**
   * The first eligible table ends the scan even when the attribute lookup
   * fails: a later candidate that has both the column and the attribute is
   * never used.
   */
  lemma FirstTableEndsScan(q: Query, s: string, i: nat)
    requires s != ""
    requires ParseDirective(s).field !in Labels(q.entities)
    requires i < |Candidates(q)|
    requires Eligible(Candidates(q)[i], ParseDirective(s).component, ParseDirective(s).field)
    requires forall j :: 0 <= j < i ==> !Eligible(Candidates(q)[j], ParseDirective(s).component, ParseDirective(s).field)
    requires ParseDirective(s).field !in Candidates(q)[i].attributes
    ensures SortQuerySpec(q, Some(s)) == q
  {
    var d := ParseDirective(s);
    var r := FirstEligible(Candidates(q), d.component, d.field, 0);
    assert r == Some(i);
  }

  /**
   * An empty component, as in `"--name"` (its body `-name` splits into `""` and `name`),
   * filters nothing: the result is that of the directive without it.
   */
  lemma EmptyComponentFiltersNothing(q: Query, f: string)
    requires '-' !in f
    ensures ParseDirective("--" + f) == Directive(Desc, Some(""), f)
    ensures SortQuerySpec(q, Some("--" + f)) == SortQuerySpec(q, Some("-" + f))
  {
    assert ("--" + f)[1..] == [] + ['-'] + f;
    SplitAfterPrefix([], f, '-');
    SplitWithoutSeparator(f, '-');
    assert ("-" + f)[1..] == f;
    assert ParseDirective("-" + f) == Directive(Desc, None, f);
    EmptyComponentScan(Candidates(q), f, 0);
  }

  /** The scan with an empty component stops where the scan without one does. */
  lemma {:induction false} EmptyComponentScan(es: seq<Entity>, f: string, i: nat)
    requires i <= |es|
    ensures FirstEligible(es, Some(""), f, i) == FirstEligible(es, None, f, i)
    decreases |es| - i
  {
    if i < |es| && !Eligible(es[i], None, f) {
      EmptyComponentScan(es, f, i + 1);
    }
  }

  /** A directive with a component and a field and nothing more. */
  lemma ComponentAndField(c: string, f: string)
    requires c != [] && c[0] != '-'
    requires '-' !in c && '-' !in f
    ensures ParseDirective(c + "-" + f) == Directive(Asc, Some(c), f)
  {
    SplitAfterPrefix(c, f, '-');
    SplitWithoutSeparator(f, '-');
  }

  // ---------------------------------------------------------------------
  // The documented examples: articles that belong to a category

  const CATEGORY := Entity("category", {"id", "name"}, {"id", "name"}, {})
  const ARTICLE := Entity("article", {"id", "name", "category_id"}, {"id", "name", "category_id", "category"}, {})

  /** The query `session.query(Article).join(Article.category)`. */
  predicate IsArticleQuery(q: Query) {
    q == Query([MapperEntity(ARTICLE)], [CATEGORY], [], {})
  }

  lemma ArticleQueryFacts(q: Query)
    requires IsArticleQuery(q)
    ensures Candidates(q) == [ARTICLE, CATEGORY] && Labels(q.entities) == []
  {
  }

  /** Sorting it by `name` orders by the article's name, ascending. */
  lemma SortByNameExample(q: Query)
    requires IsArticleQuery(q)
    ensures SortQuerySpec(q, Some("name")).orderBy == [Ordering(Asc, Attribute(ARTICLE, "name"))]
  {
    ArticleQueryFacts(q);
  }

  /** By `-name`, descending. */
  lemma SortByNameDescendingExample(q: Query)
    requires IsArticleQuery(q)
    ensures SortQuerySpec(q, Some("-name")).orderBy == [Ordering(Desc, Attribute(ARTICLE, "name"))]
  {
    ArticleQueryFacts(q);
    assert "-name"[1..] == "name";
  }

  /**
   * By `category-name`, on the joined table literally named `category`.  The
   * directive is assembled from its component and field so that the proof
   * goes through the splitting lemmas rather than unfolding on a literal.
   */
  lemma SortByComponentExample(q: Query, component: string, field: string)
    requires IsArticleQuery(q)
    requires component == "category" && field == "name"
    ensures SortQuerySpec(q, Some(component + "-" + field)).orderBy == [Ordering(Asc, Attribute(CATEGORY, "name"))]
  {
    ArticleQueryFacts(q);
    ComponentAndField(component, field);
    var d := ParseDirective(component + "-" + field);
    assert !Eligible(ARTICLE, d.component, d.field);
    assert Eligible(CATEGORY, d.component, d.field);
    assert FirstEligible(Candidates(q), d.component, d.field, 0) == Some(1);
  }

  /** By an unknown field, not at all. */
  lemma SortByUnknownExample(q: Query)
    requires IsArticleQuery(q)
    ensures SortQuerySpec(q, Some("title")) == q
  {
    ArticleQueryFacts(q);
  }

  /** `session.query(Category, func.count(Article.id).label('articles'))` sorted by `articles`. */
  lemma SortByLabelExample(q: Query, name: string)
    requires name == "articles"
    requires q == Query([MapperEntity(CATEGORY), ColumnEntity(ARTICLE, name)], [], [], {})
    ensures SortQuerySpec(q, Some(name)).orderBy == [Ordering(Asc, Label(name))]
  {
    assert name[0] != '-' && '-' !in name;
    SplitWithoutSeparator(name, '-');
    assert ParseDirective(name) == Directive(Asc, None, name);
    assert name in Labels(q.entities) by {
      assert q.entities[1].ColumnEntity? && q.entities[1].labelName == name;
    }
  }
}
