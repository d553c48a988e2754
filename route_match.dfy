/**
 * First-match resolution of a request path against the route table
 * (`HTTP.route` in lib/http.js): the entries are tried in table order and the
 * first pattern that matches decides the resource, the method and the query.
 */
module RouteMatch {
  import opened Wrappers
  import PathMatch
  import RouteTable

  /** 'get' for one item, 'list' for a collection. */
  datatype Operation = Get | List

  /** The object `route` returns: `{resource, method, query}` (its `method` is `operation` here). */
  datatype Found = Found(resource: string, operation: Operation, query: PathMatch.Params)

  /** JavaScript truthiness of `params[key]` for a string-valued parameter map. */
  predicate Truthy(params: PathMatch.Params, key: string) {
    key in params && params[key] != ""
  }

  function Resolved(name: string, params: PathMatch.Params): Found {
    Found(name, if Truthy(params, "id") then Get else List, params)
  }

  /** The matcher's answer for every entry of the table, in table order. */
  function Attempts(t: RouteTable.Table, link: string): (rs: seq<Option<PathMatch.Params>>)
    ensures |rs| == |t|
    ensures forall j :: 0 <= j < |t| ==> rs[j] == PathMatch.Match(t[j].pattern, link)
  {
    seq(|t|, j requires 0 <= j < |t| => PathMatch.Match(t[j].pattern, link))
  }

  /** Position of the first answer that is a match, or |rs| when there is none. */
  function FirstSome(rs: seq<Option<PathMatch.Params>>): (k: nat)
    ensures k <= |rs|
    ensures forall j :: 0 <= j < k ==> rs[j].None?
    ensures k < |rs| ==> rs[k].Some?
  {
    if rs == [] then 0
    else if rs[0].Some? then 0
    else 1 + FirstSome(rs[1..])
  }

  /** A successful attempt preceded only by failed ones is the first. */
  lemma FirstSomeAt(rs: seq<Option<PathMatch.Params>>, k: nat)
    requires k < |rs| && rs[k].Some?
    requires forall j :: 0 <= j < k ==> rs[j].None?
    ensures FirstSome(rs) == k
  {
    var i := FirstSome(rs);
    assert !(i < k) && !(k < i);
  }

  /** Position of the first entry whose pattern matches `link`, or |t| when none does. */
  function FirstMatchIndex(t: RouteTable.Table, link: string): (k: nat)
    ensures k <= |t|
  {
    FirstSome(Attempts(t, link))
  }

  /** The value of `route(link)`; None stands for `undefined`. */
  function FirstMatch(t: RouteTable.Table, link: string): Option<Found> {
    var k := FirstMatchIndex(t, link);
    if k < |t| then Some(Resolved(t[k].name, PathMatch.Match(t[k].pattern, link).value)) else None
  }

  /** The answer comes from the earliest matching entry. */
  lemma FirstMatchIsEarliest(t: RouteTable.Table, link: string, k: nat)
    requires k < |t| && PathMatch.Match(t[k].pattern, link).Some?
    requires forall j :: 0 <= j < k ==> PathMatch.Match(t[j].pattern, link).None?
    ensures FirstMatch(t, link) == Some(Resolved(t[k].name, PathMatch.Match(t[k].pattern, link).value))
  {
    var rs := Attempts(t, link);
    FirstSomeAt(rs, k);
  }

  /**
   * One step of the walk over a table holding each key once: reading the
   * entry's key gives its name, and when its pattern is the first to match,
   * that entry answers.
   */
  lemma WalkStep(t: RouteTable.Table, link: string, i: nat)
    requires RouteTable.Keyed(t) && i < |t|
    requires forall j :: 0 <= j < i ==> PathMatch.Match(t[j].pattern, link).None?
    ensures RouteTable.Get(t, t[i].pattern) == Some(t[i].name)
    ensures PathMatch.Match(t[i].pattern, link).Some? ==>
              FirstMatch(t, link) == Some(Resolved(t[i].name, PathMatch.Match(t[i].pattern, link).value))
  {
    RouteTable.GetAt(t, i);
    if PathMatch.Match(t[i].pattern, link).Some? {
      FirstMatchIsEarliest(t, link, i);
    }
  }

  /**
   * Writing a new pattern that matches `link` into a table none of whose
   * patterns does makes that pattern the answer.
   */
  lemma NewSoleMatch(t: RouteTable.Table, pattern: string, name: string, link: string)
    requires PathMatch.Match(pattern, link).Some?
    requires forall e :: e in t ==> PathMatch.Match(e.pattern, link).None?
    ensures FirstMatch(RouteTable.Put(t, pattern, name), link)
            == Some(Resolved(name, PathMatch.Match(pattern, link).value))
  {
    assert forall e :: e in t ==> e.pattern != pattern;
    RouteTable.PutAbsent(t, pattern, name);
    var table := t + [RouteTable.Entry(pattern, name)];
    forall j | 0 <= j < |t| ensures PathMatch.Match(table[j].pattern, link).None? {
      assert table[j] == t[j] && t[j] in t;
    }
    FirstMatchIsEarliest(table, link, |t|);
  }

  /** `route` gives `undefined` exactly when no pattern in the table matches. */
  lemma NoMatchIffUndefined(t: RouteTable.Table, link: string)
    ensures FirstMatch(t, link).None? <==> forall j :: 0 <= j < |t| ==> PathMatch.Match(t[j].pattern, link).None?
  {
  }

  /** Once an entry matches, entries after it are never consulted. */
  lemma LaterEntriesIgnored(t: RouteTable.Table, u: RouteTable.Table, link: string)
    requires FirstMatch(t, link).Some?
    ensures FirstMatch(t + u, link) == FirstMatch(t, link)
  {
    var k := FirstMatchIndex(t, link);
    assert forall j :: 0 <= j <= k ==> (t + u)[j] == t[j];
    FirstMatchIsEarliest(t + u, link, k);
  }

  /** The method is 'get' exactly when the match bound an `id`, and `query` is the match itself. */
  lemma MethodFollowsId(t: RouteTable.Table, link: string)
    requires FirstMatch(t, link).Some?
    ensures var f := FirstMatch(t, link).value;
            var k := FirstMatchIndex(t, link);
            && f.resource == t[k].name
            && Some(f.query) == PathMatch.Match(t[k].pattern, link)
            && (f.operation == Get <==> "id" in f.query)
  {
  }
}
