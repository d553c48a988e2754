/**
 * Resource registration (`HTTP.define` in lib/http.js): the data a definition
 * carries, what the application collaborator hands back, and the two route
 * patterns a resource contributes to the route table.
 */
module Registry {
  import opened Wrappers
  import PathMatch
  import RouteTable
  import RouteMatch

  /** The resource object `app.resources[name]`; this core reads only its `name`. */
  datatype Resource = Resource(name: string)

  /** `this.resources`: a name may be bound to `undefined` (None). */
  type Resources = map<string, Option<Resource>>

  /** `definition.routes`; `query` is None where the definition leaves it `undefined`. */
  datatype RouteSpec = RouteSpec(query: Option<string>)

  /** A resource definition; `routes` is None where it is missing (`undefined` or `null`). */
  datatype Definition = Definition(routes: Option<RouteSpec>)

  /**
   * Outcome of `await this.app.define(name, definition)` followed by
   * `app.resources[name]`: either one of them threw, or the entry read
   * (None where `app.resources` has no such name).
   */
  datatype AppOutcome = AppThrew | AppDefined(entry: Option<Resource>)

  /** `definition.routes.query` used as a property key: `undefined` becomes "undefined". */
  function QueryKey(q: Option<string>): string {
    match q
    case Some(s) => s
    case None => "undefined"
  }

  /** The collection pattern `query`. */
  function CollectionPattern(q: Option<string>): string {
    QueryKey(q)
  }

  /** The item pattern `source`, i.e. `query + '/:id'`. */
  function ItemPattern(q: Option<string>): string {
    QueryKey(q) + "/:id"
  }

  /** The two route writes of a successful definition, item pattern first. */
  function DefineRoutes(t: RouteTable.Table, q: Option<string>, name: string): RouteTable.Table {
    RouteTable.Put(RouteTable.Put(t, ItemPattern(q), name), CollectionPattern(q), name)
  }

  /** The definition gets past line 126: the collaborator returned and `routes` exists. */
  predicate Registers(definition: Definition, app: AppOutcome) {
    app.AppDefined? && definition.routes.Some?
  }

  /** The route table after `define(name, definition)`. */
  function TableAfter(t: RouteTable.Table, name: string, definition: Definition, app: AppOutcome): RouteTable.Table {
    if Registers(definition, app) then DefineRoutes(t, definition.routes.value.query, name) else t
  }

  /** The resource registry after `define(name, definition)`. */
  function ResourcesAfter(r: Resources, name: string, definition: Definition, app: AppOutcome): Resources {
    if Registers(definition, app) then r[name := app.entry] else r
  }

  /** `this.resources[name]`: missing and `undefined` read alike. */
  function Lookup(r: Resources, name: string): Option<Resource> {
    if name in r then r[name] else None
  }

  lemma ItemPatternDiffers(q: Option<string>)
    ensures ItemPattern(q) != CollectionPattern(q)
  {
    assert |ItemPattern(q)| == |CollectionPattern(q)| + 4;
  }

  /**
   * A successful definition assigns both patterns to `name` and stores the
   * resource; every other route and resource is left as it was. A failed one
   * changes nothing.
   */
  lemma DefineEffect(t: RouteTable.Table, r: Resources, name: string, definition: Definition, app: AppOutcome)
    requires RouteTable.Keyed(t)
    ensures RouteTable.Keyed(TableAfter(t, name, definition, app))
    ensures Registers(definition, app) ==>
      var q := definition.routes.value.query;
      && RouteTable.AsMap(TableAfter(t, name, definition, app))
           == RouteTable.AsMap(t)[ItemPattern(q) := name][CollectionPattern(q) := name]
      && Lookup(ResourcesAfter(r, name, definition, app), name) == app.entry
      && forall n :: n != name ==> Lookup(ResourcesAfter(r, name, definition, app), n) == Lookup(r, n)
    ensures !Registers(definition, app) ==>
      TableAfter(t, name, definition, app) == t && ResourcesAfter(r, name, definition, app) == r
  {
    if Registers(definition, app) {
      var q := definition.routes.value.query;
      var t1 := RouteTable.Put(t, ItemPattern(q), name);
      RouteTable.PutKeepsKeyed(t, ItemPattern(q), name);
      RouteTable.PutKeepsKeyed(t1, CollectionPattern(q), name);
      RouteTable.PutIsAssignment(t, ItemPattern(q), name);
      RouteTable.PutIsAssignment(t1, CollectionPattern(q), name);
    }
  }

  /**
   * Iteration order after a successful definition: a pattern already present
   * keeps its place, a new item pattern is appended before a new collection
   * pattern.
   */
  lemma DefineOrder(t: RouteTable.Table, q: Option<string>, name: string)
    ensures var item, coll := ItemPattern(q), CollectionPattern(q);
            var ks := RouteTable.Patterns(t);
            RouteTable.Patterns(DefineRoutes(t, q, name))
              == ks + (if item in ks then [] else [item]) + (if coll in ks then [] else [coll])
  {
    var item, coll := ItemPattern(q), CollectionPattern(q);
    var ks := RouteTable.Patterns(t);
    var t1 := RouteTable.Put(t, item, name);
    ItemPatternDiffers(q);
    RouteTable.PutOrder(t, item, name);
    RouteTable.PutOrder(t1, coll, name);
    var ks1 := RouteTable.Patterns(t1);
    assert coll in ks1 <==> coll in ks;
  }

  /** Splitting the item pattern gives the segments of `query` and then ':id'. */
  lemma ItemSegments(q: Option<string>)
    ensures PathMatch.Segments(ItemPattern(q)) == PathMatch.Split(QueryKey(q)) + [":id"]
  {
    var key := QueryKey(q);
    assert ItemPattern(q) == key + "/" + ":id";
    assert PathMatch.Trim(ItemPattern(q)) == ItemPattern(q);
    PathMatch.SplitAppend(key, ":id");
    PathMatch.SplitNoSlash(":id");
  }

  /** The collection pattern has as many segments as `query`, or one fewer after a trailing '/'. */
  lemma CollectionSegments(q: Option<string>)
    ensures var whole := PathMatch.Split(QueryKey(q));
            PathMatch.Segments(CollectionPattern(q)) == whole
            || (|whole| >= 2 && PathMatch.Segments(CollectionPattern(q)) == whole[..|whole| - 1] && whole[|whole| - 1] == "")
  {
    var key := QueryKey(q);
    var trimmed := PathMatch.Trim(key);
    if trimmed != key {
      PathMatch.SplitAppend(trimmed, "");
      assert key == trimmed + "/" + "";
    }
  }

  /** No path is matched by both patterns of one resource, so their relative order never matters. */
  lemma ItemAndCollectionDisjoint(q: Option<string>, link: string)
    ensures PathMatch.Match(ItemPattern(q), link).None? || PathMatch.Match(CollectionPattern(q), link).None?
  {
    ItemSegments(q);
    CollectionSegments(q);
    PathMatch.LongerParamExcludes(ItemPattern(q), CollectionPattern(q), link);
  }

  /**
   * A definition without `routes.query` (as examples/cli.js writes with
   * `routes.list` and `routes.get`) registers "undefined/:id" and "undefined",
   * which no request path reaches.
   */
  lemma UndefinedQueryUnreachable(link: string)
    requires |link| > 0 && link[0] == '/'
    ensures PathMatch.Match(ItemPattern(None), link).None?
    ensures PathMatch.Match(CollectionPattern(None), link).None?
  {
    PathMatch.RelativeNeverMatches(ItemPattern(None), link);
    PathMatch.RelativeNeverMatches(CollectionPattern(None), link);
  }

  /** A table holding only those two keys resolves no path starting with '/'. */
  lemma UndefinedTableUnreachable(t: RouteTable.Table, link: string)
    requires |link| > 0 && link[0] == '/'
    requires forall e :: e in t ==> e.pattern == ItemPattern(None) || e.pattern == CollectionPattern(None)
    ensures RouteMatch.FirstMatch(t, link).None?
  {
    UndefinedQueryUnreachable(link);
    forall j | 0 <= j < |t| ensures PathMatch.Match(t[j].pattern, link).None? {
      assert t[j] in t;
    }
    RouteMatch.NoMatchIffUndefined(t, link);
  }

  /** A query without parameter segments gives a collection pattern without them. */
  lemma CollectionLiteral(q: Option<string>)
    requires PathMatch.Literal(PathMatch.Split(QueryKey(q)))
    ensures PathMatch.Literal(PathMatch.Segments(CollectionPattern(q)))
  {
    CollectionSegments(q);
    var whole := PathMatch.Split(QueryKey(q));
    var segs := PathMatch.Segments(CollectionPattern(q));
    forall i | 0 <= i < |segs| ensures !PathMatch.IsParam(segs[i]) {
      assert segs[i] == whole[i];
    }
  }

  /**
   * Entries of the defined table other than the two written ones come from
   * the old table.
   */
  lemma DefineRoutesEntries(t: RouteTable.Table, q: Option<string>, name: string)
    ensures var r := DefineRoutes(t, q, name);
            && RouteTable.Entry(CollectionPattern(q), name) in r
            && RouteTable.Entry(ItemPattern(q), name) in r
            && forall e :: e in r && e.pattern != ItemPattern(q) && e.pattern != CollectionPattern(q) ==> e in t
  {
    var item, coll := ItemPattern(q), CollectionPattern(q);
    var t1 := RouteTable.Put(t, item, name);
    ItemPatternDiffers(q);
    RouteTable.PutEntries(t, item, name);
    RouteTable.PutEntries(t1, coll, name);
  }

  /** Both writes keep every key unique. */
  lemma DefineRoutesKeyed(t: RouteTable.Table, q: Option<string>, name: string)
    requires RouteTable.Keyed(t)
    ensures RouteTable.Keyed(DefineRoutes(t, q, name))
  {
    RouteTable.PutKeepsKeyed(t, ItemPattern(q), name);
    RouteTable.PutKeepsKeyed(RouteTable.Put(t, ItemPattern(q), name), CollectionPattern(q), name);
  }

  /**
   * When the other new pattern misses `link` and so does every older route
   * under a third pattern, every entry of the defined table whose pattern is
   * not `pat` misses `link`. An older entry under either new pattern has been
   * overwritten in place.
   */
  lemma DefinedOthersMiss(t: RouteTable.Table, q: Option<string>, name: string, link: string, pat: string)
    requires pat == ItemPattern(q) || pat == CollectionPattern(q)
    requires PathMatch.Match(if pat == ItemPattern(q) then CollectionPattern(q) else ItemPattern(q), link).None?
    requires forall e :: e in t && e.pattern != ItemPattern(q) && e.pattern != CollectionPattern(q)
                         ==> PathMatch.Match(e.pattern, link).None?
    ensures forall e :: e in DefineRoutes(t, q, name) && e.pattern != pat ==> PathMatch.Match(e.pattern, link).None?
  {
    DefineRoutesEntries(t, q, name);
  }

  /**
   * Under the same conditions, when `pat` matches `link` the definition's
   * entry for `pat` answers.
   */
  lemma DefinedSoleMatch(t: RouteTable.Table, q: Option<string>, name: string, link: string, pat: string)
    requires RouteTable.Keyed(t)
    requires pat == ItemPattern(q) || pat == CollectionPattern(q)
    requires PathMatch.Match(pat, link).Some?
    requires PathMatch.Match(if pat == ItemPattern(q) then CollectionPattern(q) else ItemPattern(q), link).None?
    requires forall e :: e in t && e.pattern != ItemPattern(q) && e.pattern != CollectionPattern(q)
                         ==> PathMatch.Match(e.pattern, link).None?
    ensures RouteMatch.FirstMatch(DefineRoutes(t, q, name), link)
            == Some(RouteMatch.Resolved(name, PathMatch.Match(pat, link).value))
  {
    var r := DefineRoutes(t, q, name);
    DefineRoutesKeyed(t, q, name);
    DefineRoutesEntries(t, q, name);
    DefinedOthersMiss(t, q, name, link, pat);
    var k :| 0 <= k < |r| && r[k] == RouteTable.Entry(pat, name);
    forall j | 0 <= j < k ensures PathMatch.Match(r[j].pattern, link).None? {
      assert r[j] in r && r[j].pattern != r[k].pattern;
    }
    RouteMatch.FirstMatchIsEarliest(r, link, k);
  }

  /** A literal collection pattern matches its own text and binds nothing. */
  lemma CollectionMatchesItself(q: Option<string>)
    requires PathMatch.Literal(PathMatch.Split(QueryKey(q)))
    ensures PathMatch.Match(CollectionPattern(q), QueryKey(q)) == Some(map[])
  {
    CollectionLiteral(q);
    PathMatch.SelfSegments(QueryKey(q));
    PathMatch.LiteralMatchesItself(PathMatch.Segments(CollectionPattern(q)));
  }

  /** The item pattern of a literal `query` matches `query + '/' + v`, binding `id` to `v`. */
  lemma ItemMatchesSegment(q: Option<string>, v: string)
    requires PathMatch.Literal(PathMatch.Split(QueryKey(q)))
    requires v != "" && '/' !in v
    ensures PathMatch.Match(ItemPattern(q), QueryKey(q) + "/" + v) == Some(map["id" := v])
  {
    var key := QueryKey(q);
    var link := key + "/" + v;
    assert link[|link| - 1] == v[|v| - 1];
    assert PathMatch.Trim(link) == link;
    PathMatch.SplitAppend(key, v);
    PathMatch.SplitNoSlash(v);
    ItemSegments(q);
    PathMatch.LiteralPrefix(PathMatch.Split(key), [":id"], [v]);
    assert PathMatch.IsParam(":id") && PathMatch.ParamName(":id") == "id";
    var pat: seq<string>, seg: seq<string> := [":id"], [v];
    assert pat[1..] == [] && seg[1..] == [];
    assert PathMatch.MatchSegments([], []) == Some(map[]);
    assert PathMatch.Fits(pat[0], seg[0]);
    assert map["id" := v] + map[] == map["id" := v];
  }

  /**
   * When no existing route under another pattern matches the collection
   * path, after the definition that path resolves to the resource with operation `list`
   * and an empty query.
   */
  lemma CollectionPathLists(t: RouteTable.Table, q: Option<string>, name: string)
    requires RouteTable.Keyed(t)
    requires PathMatch.Literal(PathMatch.Split(QueryKey(q)))
    requires forall e :: e in t && e.pattern != ItemPattern(q) && e.pattern != CollectionPattern(q)
                         ==> PathMatch.Match(e.pattern, QueryKey(q)).None?
    ensures RouteMatch.FirstMatch(DefineRoutes(t, q, name), QueryKey(q))
            == Some(RouteMatch.Found(name, RouteMatch.List, map[]))
  {
    CollectionMatchesItself(q);
    ItemAndCollectionDisjoint(q, QueryKey(q));
    DefinedSoleMatch(t, q, name, QueryKey(q), CollectionPattern(q));
  }

  /**
   * When no existing route under another pattern matches it, `query + '/' + v` for a non-empty segment `v`
   * resolves to the resource with operation `get` and query `{id: v}`.
   */
  lemma ItemPathGets(t: RouteTable.Table, q: Option<string>, name: string, v: string)
    requires RouteTable.Keyed(t)
    requires PathMatch.Literal(PathMatch.Split(QueryKey(q)))
    requires v != "" && '/' !in v
    requires forall e :: e in t && e.pattern != ItemPattern(q) && e.pattern != CollectionPattern(q)
                         ==> PathMatch.Match(e.pattern, QueryKey(q) + "/" + v).None?
    ensures RouteMatch.FirstMatch(DefineRoutes(t, q, name), QueryKey(q) + "/" + v)
            == Some(RouteMatch.Found(name, RouteMatch.Get, map["id" := v]))
  {
    var link := QueryKey(q) + "/" + v;
    ItemMatchesSegment(q, v);
    ItemAndCollectionDisjoint(q, link);
    DefinedSoleMatch(t, q, name, link, ItemPattern(q));
  }
}
