/**
 * Concrete consequences of the model for particular definitions: a `Message`
 * resource defined with `routes.query = '/messages'`, the two definitions of
 * examples/cli.js, and the root route that `start` adds.
 */
module Scenarios {
  import opened Wrappers
  import PathMatch
  import RouteTable
  import RouteMatch
  import Registry
  import Dispatch

  lemma MessagesIsLiteral()
    ensures PathMatch.Split("/messages") == ["", "messages"]
    ensures PathMatch.Literal(PathMatch.Split("/messages"))
  {
    PathMatch.RootedName("messages");
    assert "/" + "messages" == "/messages";
  }

  /**
   * Defining `Message` with `routes.query = '/messages'` in an empty table
   * writes '/messages/:id' and then '/messages'.
   */
  lemma MessageRoutesOrder()
    ensures RouteTable.Patterns(Registry.DefineRoutes([], Some("/messages"), "Message"))
            == ["/messages/:id", "/messages"]
  {
    Registry.DefineOrder([], Some("/messages"), "Message");
    assert Registry.ItemPattern(Some("/messages")) == "/messages/:id";
    assert Registry.CollectionPattern(Some("/messages")) == "/messages";
    assert RouteTable.Patterns([]) == [];
  }

  /** In that table the collection path lists. */
  lemma MessagesPathLists()
    ensures RouteMatch.FirstMatch(Registry.DefineRoutes([], Some("/messages"), "Message"), "/messages")
            == Some(RouteMatch.Found("Message", RouteMatch.List, map[]))
  {
    MessagesIsLiteral();
    Registry.CollectionPathLists([], Some("/messages"), "Message");
  }

  /** In that table an item path gets with its `id`. */
  lemma MessagePathGets()
    ensures RouteMatch.FirstMatch(Registry.DefineRoutes([], Some("/messages"), "Message"), "/messages/42")
            == Some(RouteMatch.Found("Message", RouteMatch.Get, map["id" := "42"]))
  {
    MessagesIsLiteral();
    assert "/messages/42" == "/messages" + "/" + "42";
    Registry.ItemPathGets([], Some("/messages"), "Message", "42");
  }

  /**
   * The route table after examples/cli.js defines `Message` and then `Peer`
   * with `routes.list` and `routes.get` but no `routes.query`.
   */
  function CliRoutes(): RouteTable.Table {
    Registry.DefineRoutes(Registry.DefineRoutes([], None, "Message"), None, "Peer")
  }

  /** Both definitions write the keys "undefined/:id" and "undefined", in that order. */
  lemma CliRoutesKeys()
    ensures RouteTable.Patterns(CliRoutes()) == ["undefined/:id", "undefined"]
  {
    var t1 := Registry.DefineRoutes([], None, "Message");
    assert Registry.ItemPattern(None) == "undefined/:id";
    assert Registry.CollectionPattern(None) == "undefined";
    assert RouteTable.Patterns([]) == [];
    Registry.DefineOrder([], None, "Message");
    Registry.DefineOrder(t1, None, "Peer");
  }

  /**
   * When the two calls complete in call order, the second definition
   * overwrites the first in place: both keys lead to `Peer`.
   */
  lemma CliRoutesOverwrite()
    ensures RouteTable.AsMap(CliRoutes()) == map["undefined/:id" := "Peer", "undefined" := "Peer"]
  {
    var t1 := Registry.DefineRoutes([], None, "Message");
    var spec := Registry.Definition(Some(Registry.RouteSpec(None)));
    assert Registry.ItemPattern(None) == "undefined/:id";
    assert Registry.CollectionPattern(None) == "undefined";
    assert RouteTable.AsMap([]) == map[];
    Registry.DefineEffect([], map[], "Message", spec, Registry.AppDefined(None));
    Registry.DefineEffect(t1, map[], "Peer", spec, Registry.AppDefined(None));
  }

  /** No request path resolves in that table. */
  lemma CliRoutesUnreachable(link: string)
    requires |link| > 0 && link[0] == '/'
    ensures RouteMatch.FirstMatch(CliRoutes(), link).None?
  {
    var t := CliRoutes();
    CliRoutesKeys();
    forall e | e in t ensures e.pattern == Registry.ItemPattern(None) || e.pattern == Registry.CollectionPattern(None) {
      var i :| 0 <= i < |t| && t[i] == e;
      assert RouteTable.Patterns(t)[i] == e.pattern;
    }
    Registry.UndefinedTableUnreachable(t, link);
  }

  /** So every request gets the error diagnostic, whatever its verb. */
  lemma CliRequestsAnswerError(verb: string, link: string, resources: Registry.Resources,
                               signer: Dispatch.Signer, fx: Dispatch.Effects)
    requires |link| > 0 && link[0] == '/'
    ensures Dispatch.Respond(verb, link, RouteMatch.FirstMatch(CliRoutes(), link), resources, signer, fx)
            == Dispatch.Sent(Dispatch.Diagnostic("error", Dispatch.ErrorMessage(verb, link)))
  {
    CliRoutesUnreachable(link);
    Dispatch.UnmatchedSendsError(verb, link, resources, signer, fx);
  }

  /** The root pattern '/' that `start` maps to 'Index' matches the root path and nothing else. */
  lemma RootMatchesOnlyRoot(link: string)
    ensures PathMatch.Match("/", link).Some? <==> link == "" || link == "/"
    ensures PathMatch.Match("/", "/") == Some(map[])
  {
    assert PathMatch.Trim("/") == "";
    assert PathMatch.Segments("/") == [""];
    var segs: seq<string> := [""];
    assert segs[1..] == [];
    assert PathMatch.MatchSegments([], []) == Some(map[]);
    assert PathMatch.Fits("", "");
    assert PathMatch.MatchSegments(segs, segs) == Some(map[]);
    if PathMatch.Match("/", link).Some? {
      var s := PathMatch.Segments(link);
      assert |s| == 1 && PathMatch.Fits("", s[0]);
      assert |PathMatch.Lower(s[0])| == 0;
      PathMatch.SplitJoin(PathMatch.Trim(link));
      assert PathMatch.Trim(link) == "";
    }
    if link == "" || link == "/" {
      assert PathMatch.Segments(link) == [""];
    }
  }

  /** Once `start` writes '/' after routes none of which matches the root path, '/' resolves to 'Index'. */
  lemma RootResolvesToIndex(t: RouteTable.Table)
    requires forall e :: e in t ==> PathMatch.Match(e.pattern, "/").None?
    ensures RouteMatch.FirstMatch(RouteTable.Put(t, "/", "Index"), "/")
            == Some(RouteMatch.Found("Index", RouteMatch.List, map[]))
  {
    RootMatchesOnlyRoot("/");
    RouteMatch.NewSoleMatch(t, "/", "Index", "/");
  }

  /**
   * No definition in the visible source stores 'Index'. When no resource is
   * stored under it, a request for '/' whose verb has no case (HEAD, which
   * Express hands to the GET route) reads `undefined.name` and is never
   * answered.
   */
  lemma RootUnknownVerbRejected(t: RouteTable.Table, verb: string, resources: Registry.Resources,
                                signer: Dispatch.Signer, fx: Dispatch.Effects)
    requires forall e :: e in t ==> PathMatch.Match(e.pattern, "/").None?
    requires !Dispatch.Handled(verb) && "Index" !in resources
    ensures Dispatch.Respond(verb, "/", RouteMatch.FirstMatch(RouteTable.Put(t, "/", "Index"), "/"),
                             resources, signer, fx) == Dispatch.Rejected
  {
    RootResolvesToIndex(t);
    var found := RouteMatch.Found("Index", RouteMatch.List, map[]);
    Dispatch.UnknownVerbWarns(verb, "/", found, resources, signer, fx);
  }
}
