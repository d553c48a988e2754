/**
 * The `HTTP` class of lib/http.js, reduced to its routing state: the route
 * dictionary `routes` (ordered, see RouteTable) and the resource dictionary
 * `resources`. One request is handled at a time.
 */
module Http {
  import opened Wrappers
  import PathMatch
  import RouteTable
  import RouteMatch
  import Registry
  import Dispatch

  /** The parts of an Express request that `router` reads (`verb` is `request.method`). */
  datatype Request = Request(verb: string, path: string)

  class HTTP {
    var routes: RouteTable.Table
    var resources: Registry.Resources

    /** The route dictionary holds each pattern once. */
    ghost predicate Valid()
      reads this
    {
      RouteTable.Keyed(routes)
    }

    /** Both dictionaries start empty. */
    constructor ()
      ensures Valid()
      ensures routes == [] && resources == map[]
    {
      routes := [];
      resources := map[];
    }

    /**
     * `define(name, definition)`, given what the application collaborator
     * does. Every exception is caught, so the method always returns; an
     * exception before line 129 leaves both dictionaries as they were.
     */
    method Define(name: string, definition: Registry.Definition, app: Registry.AppOutcome)
      requires Valid()
      modifies this
      ensures Valid()
      ensures routes == Registry.TableAfter(old(routes), name, definition, app)
      ensures resources == Registry.ResourcesAfter(old(resources), name, definition, app)
    {
      Registry.DefineEffect(routes, resources, name, definition, app);
      match app {
        case AppThrew =>
        case AppDefined(resource) =>
          match definition.routes {
            case None =>
            case Some(spec) =>
              var source := Registry.ItemPattern(spec.query);
              var query := Registry.CollectionPattern(spec.query);
              routes := RouteTable.Put(routes, source, name);
              routes := RouteTable.Put(routes, query, name);
              resources := resources[name := resource];
          }
      }
    }

    /** The routing part of `start`: define `Asset`, then map '/' to 'Index'. */
    method Start(asset: Registry.Definition, app: Registry.AppOutcome)
      requires Valid()
      modifies this
      ensures Valid()
      ensures routes == RouteTable.Put(Registry.TableAfter(old(routes), "Asset", asset, app), "/", "Index")
      ensures resources == Registry.ResourcesAfter(old(resources), "Asset", asset, app)
    {
      Define("Asset", asset, app);
      RouteTable.PutKeepsKeyed(routes, "/", "Index");
      routes := RouteTable.Put(routes, "/", "Index");
    }

    /**
     * `route(link)`: walk the keys in order, read each one's resource name
     * from the dictionary, and answer from the first pattern that matches.
     */
    method Route(link: string) returns (r: Option<RouteMatch.Found>)
      requires Valid()
      ensures r == RouteMatch.FirstMatch(routes, link)
    {
      var i := 0;
      while i < |routes|
        invariant 0 <= i <= |routes|
        invariant forall j :: 0 <= j < i ==> PathMatch.Match(routes[j].pattern, link).None?
      {
        var route := routes[i].pattern;
        RouteMatch.WalkStep(routes, link, i);
        var name := RouteTable.Get(routes, route).value;
        var m := PathMatch.Match(route, link);
        if m.Some? {
          return Some(RouteMatch.Resolved(name, m.value));
        }
        i := i + 1;
      }
      RouteMatch.NoMatchIffUndefined(routes, link);
      return None;
    }

    /** `router(request, response)`: resolve the path, then decide the one response. */
    method Router(request: Request, signer: Dispatch.Signer, fx: Dispatch.Effects) returns (response: Dispatch.Response)
      requires Valid()
      ensures response == Dispatch.Respond(request.verb, request.path, RouteMatch.FirstMatch(routes, request.path),
                                           resources, signer, fx)
    {
      var route := Route(request.path);
      response := Dispatch.Respond(request.verb, request.path, route, resources, signer, fx);
    }
  }
}
