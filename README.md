# Routing and dispatch of the fabric `HTTP` server

This project models the routing core of the `HTTP` class in `lib/http.js` of
fabric. The class serves the resources of a contract over a REST-style API.
The model covers four parts:

- `define(name, definition)` registers a resource and writes two route
  patterns: an item pattern `query + '/:id'` and a collection pattern `query`.
- `start` registers `Asset` the same way and maps the root pattern '/' to
  'Index'.
- `route(link)` walks the route dictionary in its iteration order. The first
  pattern that matches decides the resource, the method (`get` when the match
  bound an `id`, else `list`) and the query.
- `router(request, response)` chooses the one response for a request:
  - an error diagnostic when no route matches;
  - a warning naming the resource when the verb has no case;
  - for OPTIONS, the signature of `_OPTIONS`, the `'@data'` of the signed
    resource registry;
  - for GET and DELETE, the signed answer of the inherited handler;
  - for PUT and PATCH, the signed answer of the `_GET` re-read that follows
    the write;
  - for POST, the `'@data'` of the signed write answer;
  - nothing when a handler threw.

Modules, one per concern:

| module | file | what it holds |
|---|---|---|
| `Wrappers` | wrappers.dfy | `Option`; `None` stands for JavaScript `undefined` |
| `PathMatch` | path_match.dfy | the path-match library with its default options, as segment matching |
| `RouteTable` | route_table.dfy | the dictionary `this.routes` as an ordered sequence of entries |
| `RouteMatch` | route_match.dfy | first-match resolution, the value of `route` |
| `Registry` | registry.dfy | definitions, `this.resources`, the two patterns of a resource |
| `Dispatch` | dispatch.dfy | the response decision of `router` as a function |
| `Http` | http.dfy | the class `HTTP` with its two dictionaries as fields |
| `Scenarios` | scenarios.dfy | consequences for a `Message` resource with `routes.query = '/messages'`, the two definitions of examples/cli.js, and the root route |

`HTTP` is a class. `Define` and `Start` update its `routes` and `resources`
fields. `Route` is the loop of `route`, proved against `RouteMatch.FirstMatch`.
`Router` resolves the path with `Route` and then answers with
`Dispatch.Respond`.

Things the model fixes that the code leaves implicit:

- The matcher is `require('path-match')()` with default options, which
  compile a pattern the way path-to-regexp 1.x does in non-strict mode. One
  trailing '/' is dropped from the pattern, and the path may then carry one
  extra '/' at its end. So the pattern's '/'-separated segments are compared
  with those of the whole path, or with those of the path without its
  trailing '/'. A `:name` segment (word characters only) binds any non-empty
  segment. Literal segments compare without regard to ASCII case. When a name
  is bound twice, the later segment wins.
- The route dictionary's keys are written in order. Writing a key that is
  present keeps its position; a new key goes last.
- `definition.routes.query` may be `undefined`. The definitions in
  `examples/cli.js` give `routes.list` and `routes.get` but no `query`. Their
  keys become the strings "undefined/:id" and "undefined", which no request
  path can reach.
- `this.resources[route.resource]` is read outside any `try`. The root
  route '/' resolves to 'Index', and no definition in the visible source
  stores a resource under that name. So a verb without a case (HEAD, which Express hands to the GET routes)
  makes `router` throw on `resource.name`, and nothing is sent.

## Model

| member | source | states |
|---|---|---|
| Http.HTTP.constructor | lib/http.js:40-41 | both dictionaries start empty and the route table holds each pattern once |
| Http.HTTP.Define | lib/http.js:116-148 | the new route table and resource registry are `Registry.TableAfter` and `Registry.ResourcesAfter` of the old ones; the route table still holds each pattern once |
| Http.HTTP.Start | lib/http.js:75-76 | `Asset` is defined, then '/' is written with 'Index' into the resulting table; nothing else changes |
| Http.HTTP.Route | lib/http.js:155-171 | on a dictionary holding each key once, the loop reads each key's name from the dictionary and its result is `RouteMatch.FirstMatch` of the table: the first entry in iteration order whose pattern matches, with `get` or `list` and the bound parameters |
| Http.HTTP.Router | lib/http.js:173-283 | the response is `Dispatch.Respond` applied to the verb, the path and the route that `route(request.path)` gives |
| RouteTable.Get | lib/http.js:159 | computes `this.routes[key]` from the first entry under `key`; `GetDefined`, `GetAt` and `GetReadsMap` state what it reads |
| RouteTable.Put | lib/http.js:129-130 | computes `this.routes[key] = name`: the entry under `key` is replaced where it stands, or appended; `PutGet`, `PutOrder` and `PutIsAssignment` state its effect |
| RouteTable.GetDefined | lib/http.js:159 | a read is defined exactly for the keys present, and then gives the value of an entry under that key |
| RouteTable.GetAt | lib/http.js:158-159 | in a dictionary holding each key once, reading the key of an entry gives that entry's name |
| RouteTable.PutGet | lib/http.js:129-130 | after an assignment, the written key reads the written name and every other key reads as before |
| RouteTable.IndexOf | lib/http.js:129-130 | the position of a key is its first occurrence, or the table length when the key is absent |
| RouteTable.PutKeepsKeyed | lib/http.js:129-130 | a dictionary assignment keeps every key unique |
| RouteTable.PutIsAssignment | lib/http.js:129-130 | writing into the table has the effect of a map update on the dictionary it stands for |
| RouteTable.PutOrder | lib/http.js:129-130 | a key already present keeps its place in iteration order; a new key is appended |
| RouteTable.PutAbsent | lib/http.js:76 | writing a key no entry has appends exactly that entry |
| RouteTable.PutEntries | lib/http.js:129-130 | the written entry is present; every other entry of the new table is an old entry, and every old entry under another key survives |
| RouteTable.AsMapDomain | lib/http.js:158 | the keys of the dictionary are exactly the patterns the table iterates over |
| RouteTable.AsMapReplace | lib/http.js:129-130 | replacing the value of a key in place is a map update |
| RouteTable.GetReadsMap | lib/http.js:159 | reading a key from the table agrees with reading it from the dictionary |
| PathMatch.Split | lib/http.js:160-161 | splitting on '/' gives at least one part, and no part contains '/' |
| PathMatch.SplitJoin | lib/http.js:160-161 | joining the parts of a split with '/' gives the string back |
| PathMatch.JoinSplit | lib/http.js:160-161 | splitting a join of slash-free parts gives the parts back |
| PathMatch.SplitAppend | lib/http.js:160-161 | splitting `a + '/' + b` gives the parts of `a` followed by those of `b` |
| PathMatch.SplitNoSlash | lib/http.js:160-161 | a string without '/' is a single part |
| PathMatch.RootedName | lib/http.js:160-161 | '/' followed by a slash-free name splits into the empty root part and the name |
| PathMatch.Trim | lib/http.js:160-161 | computes a pattern or path with one trailing '/' dropped, as non-strict mode does; `TrimDropsSlash` states when it changes its input |
| PathMatch.TrimDropsSlash | lib/http.js:160-161 | the result is the input without its final '/' exactly when the input ends in '/', and the input itself otherwise |
| PathMatch.TrailingSlashSplit | lib/http.js:160-161 | a string ending in '/' splits into the parts of the rest and a final empty part |
| PathMatch.SplitLast | lib/http.js:160-161 | the last part of a split is empty only for the empty string or a string ending in '/' |
| PathMatch.PathSegments | lib/http.js:160-161 | computes the path segments a pattern is compared with: the whole path when its segment count fits, otherwise the path without its trailing '/'; `PathSegmentsChoice` and `MatchAccepts` state the consequence |
| PathMatch.PathSegmentsChoice | lib/http.js:160-161 | the segments compared with a pattern are those of the whole path or those of the path without its trailing '/' |
| PathMatch.SelfSegments | lib/http.js:160-161 | a path compared with its own trimmed segments is compared with exactly those |
| PathMatch.Match | lib/http.js:160-161 | computes `pattern(route)(link)`; `MatchAccepts` states when it succeeds and `MatchBindsParam` what it binds |
| PathMatch.MatchAccepts | lib/http.js:160-161 | a match succeeds exactly when the whole path, or the path without one trailing '/', conforms to the pattern without its trailing '/' |
| PathMatch.MatchLength | lib/http.js:160-161 | a matching pattern has at least as many segments as the path without its trailing '/' |
| PathMatch.ParamLastSegment | lib/http.js:160-161 | a pattern ending in a parameter matches only paths with as many segments as it has, once one trailing '/' is dropped from the path |
| PathMatch.LongerParamExcludes | lib/http.js:160-161 | of two patterns, one ending in a parameter and having more segments, at most one matches any path |
| PathMatch.TrimmedLastSegment | lib/http.js:160-161 | a pattern that does not end in '/' once trimmed is a single segment, or its last segment does not fit an empty path segment |
| PathMatch.TrailingSlashOptional | lib/http.js:160-161 | for a pattern not ending in '/' after its own trailing '/' is dropped, appending one '/' to a path without one changes nothing |
| PathMatch.MatchSegments | lib/http.js:160-161 | a match requires as many path segments as pattern segments, and every bound value is non-empty |
| PathMatch.MatchIffConforms | lib/http.js:160-161 | segment matching succeeds exactly when the lengths agree and every pattern segment fits its path segment |
| PathMatch.MatchBindsOnlyParams | lib/http.js:160-161 | every bound name is the name of a `:name` segment of the pattern |
| PathMatch.NameNotBound | lib/http.js:160-161 | a name no `:name` segment carries is never bound |
| PathMatch.MatchBindsParam | lib/http.js:160-161 | a `:name` segment not repeated later binds its name to the path segment at its position |
| PathMatch.LiteralMatchesItself | lib/http.js:160-161 | a pattern without parameters matches its own segments and binds nothing |
| PathMatch.LiteralPrefix | lib/http.js:160-161 | a common literal prefix neither helps nor hinders a match |
| PathMatch.RelativeNeverMatches | lib/http.js:160-161 | a pattern not starting with '/' never matches a path starting with '/' |
| RouteMatch.FirstSome | lib/http.js:158-170 | the position of the first match: every earlier attempt failed and the one there succeeded, or there is none |
| RouteMatch.FirstSomeAt | lib/http.js:158-170 | a successful attempt preceded only by failed ones is the first |
| RouteMatch.Resolved | lib/http.js:164-168 | computes the object `route` returns; `MethodFollowsId` states that the method is `get` exactly when an `id` was bound |
| RouteMatch.FirstMatch | lib/http.js:155-171 | computes the value of `route(link)`; `FirstMatchIsEarliest`, `NoMatchIffUndefined`, `LaterEntriesIgnored` and `MethodFollowsId` state its meaning |
| RouteMatch.WalkStep | lib/http.js:158-166 | in a table holding each key once, reading an entry's key gives its name, and an entry whose pattern is the first to match answers |
| RouteMatch.FirstMatchIsEarliest | lib/http.js:158-170 | a matching entry preceded only by non-matching entries decides the answer |
| RouteMatch.NewSoleMatch | lib/http.js:158-170 | a new matching pattern written into a table with no match for the path becomes the answer |
| RouteMatch.NoMatchIffUndefined | lib/http.js:158-171 | `route` gives `undefined` exactly when no pattern matches |
| RouteMatch.LaterEntriesIgnored | lib/http.js:163-169 | entries after the first match are never consulted |
| RouteMatch.MethodFollowsId | lib/http.js:163-169 | the resource is the first matching entry's name, the query is its match, and the method is `get` exactly when an `id` was bound |
| Registry.QueryKey | lib/http.js:126-130 | computes `definition.routes.query` as a property key, "undefined" when it is absent; `ItemPatternDiffers`, `UndefinedQueryUnreachable` and `CollectionMatchesItself` state what the resulting keys match |
| Registry.Registers | lib/http.js:123-126 | computes the condition for getting past line 126: the collaborator's `define` returned and the definition has `routes`; `DefineEffect` states what happens on each side of it |
| Registry.Lookup | lib/http.js:185 | computes `this.resources[route.resource]`, absent when the name was never stored or was stored as `undefined`; `UnknownVerbWarns` and `SendsExactlyWhen` state how it decides between the warning and the escaping exception |
| Registry.ItemPattern | lib/http.js:126 | computes `definition.routes.query + '/:id'`, with an absent query read as "undefined"; `ItemSegments` states its segments |
| Registry.CollectionPattern | lib/http.js:127 | computes `definition.routes.query` as a key; `CollectionLiteral` and `CollectionMatchesItself` state what it matches |
| Registry.DefineRoutes | lib/http.js:129-130 | computes the two writes, item pattern first; `DefineOrder`, `DefineRoutesEntries` and `DefineRoutesKeyed` state their effect |
| Registry.TableAfter | lib/http.js:122-145 | computes the route table after `define`; `DefineEffect` states its meaning |
| Registry.ResourcesAfter | lib/http.js:122-145 | computes the resource registry after `define`; `DefineEffect` states its meaning |
| Registry.ItemPatternDiffers | lib/http.js:126-127 | the item pattern and the collection pattern of a definition are different keys |
| Registry.DefineEffect | lib/http.js:123-145 | a definition that gets past line 126 assigns both patterns to the name and stores the resource, leaving every other resource as it was; one that throws earlier changes neither dictionary |
| Registry.DefineOrder | lib/http.js:126-130 | a pattern already present keeps its place; a new item pattern is appended before a new collection pattern |
| Registry.ItemSegments | lib/http.js:126 | the item pattern's segments are those of `query` followed by ':id' |
| Registry.ItemAndCollectionDisjoint | lib/http.js:126-130 | no path matches both patterns of one definition |
| Registry.UndefinedQueryUnreachable | lib/http.js:126-127 | without `routes.query` the keys "undefined/:id" and "undefined" match no path starting with '/' |
| Registry.CollectionLiteral | lib/http.js:127 | a parameter-free `query` gives a parameter-free collection pattern |
| Registry.DefineRoutesEntries | lib/http.js:129-130 | both written entries are in the new table; every other entry comes from the old one |
| Registry.UndefinedTableUnreachable | lib/http.js:126-130 | a table holding only the keys "undefined/:id" and "undefined" resolves no path starting with '/' |
| Registry.DefineRoutesKeyed | lib/http.js:129-130 | the two writes keep every key unique |
| Registry.DefinedOthersMiss | lib/http.js:129-130 | when the other new pattern misses the path and so does every older route under a third pattern, every entry of the new table under a pattern other than `pat` misses it; an older entry under either new pattern has been overwritten |
| Registry.DefinedSoleMatch | lib/http.js:129-130 | under those conditions, when `pat` matches the path, the new entry for `pat` answers |
| Registry.CollectionMatchesItself | lib/http.js:127 | a literal collection pattern matches its own text and binds nothing |
| Registry.ItemMatchesSegment | lib/http.js:126 | the item pattern matches `query + '/' + v` for a non-empty segment `v` and binds `id` to `v` |
| Registry.CollectionPathLists | lib/http.js:126-130 | when no older route under a pattern other than the two new ones matches it, the collection path resolves after the definition to the resource with `list` and an empty query; this covers re-defining a resource under the same query |
| Registry.ItemPathGets | lib/http.js:126-130 | under the same condition for `query + '/' + v`, that path resolves after the definition to the resource with `get` and query `{id: v}` |
| Dispatch.ErrorMessage | lib/http.js:181 | computes the text of the error diagnostic; `ErrorMessageQuotes` states what it quotes |
| Dispatch.WarningMessage | lib/http.js:191 | computes the text of the warning diagnostic; `WarningMessageQuotes` states what it quotes |
| Dispatch.Handled | lib/http.js:194-270 | computes the set of `case` labels of the `switch`; `Respond`, `UnknownVerbWarns` and `SendsExactlyWhen` state what happens inside and outside it |
| Dispatch.OptionsAnswer | lib/http.js:150-153 | computes `_OPTIONS`: the `'@data'` of the signed resource registry; `OptionsSignsRegistry` states what OPTIONS sends |
| Dispatch.Respond | lib/http.js:173-283 | with no route the error diagnostic is sent; a diagnostic is sent only with no route or a verb without a case; the exception escapes only for a verb without a case; nothing is sent in a `try` only when an awaited handler of a handled verb other than OPTIONS threw |
| Dispatch.ErrorMessageQuotes | lib/http.js:179-182 | the error message quotes the verb and the path |
| Dispatch.WarningMessageQuotes | lib/http.js:189-192 | the warning message quotes the verb and the path and names the resource |
| Dispatch.UnmatchedSendsError | lib/http.js:178-183 | with no route, one `status: 'error'` diagnostic is sent, whatever the verb |
| Dispatch.UnknownVerbWarns | lib/http.js:185-193 | a verb without a case sends one warning naming a registered resource; with the resource `undefined` nothing is sent |
| Dispatch.OptionsSignsRegistry | lib/http.js:150-153 | OPTIONS sends the signature of the `'@data'` of the signed resource registry, whatever the handlers do |
| Dispatch.ReadAndDeleteSendAnswer | lib/http.js:207-219 | GET and DELETE send the signed handler answer, or nothing when the handler throws |
| Dispatch.WritesSendReread | lib/http.js:220-235 | PUT and PATCH send the signed re-read, so the write's own answer never changes the response |
| Dispatch.PostSendsWriteData | lib/http.js:236-253 | POST sends the `'@data'` of the signed write answer; the re-read's value is unused, but its throwing suppresses the response |
| Dispatch.SendsExactlyWhen | lib/http.js:173-283 | a response is sent exactly when the route is missing, the verb is OPTIONS, every awaited handler returns, or the verb has no case and the resource is registered; the exception escapes exactly for an unknown verb on an unregistered resource |
| Scenarios.MessagesIsLiteral | lib/http.js:126-127 | '/messages' splits into the root part and 'messages', with no parameter |
| Scenarios.MessageRoutesOrder | lib/http.js:126-130 | defining a `Message` resource with query '/messages' writes '/messages/:id' and then '/messages' |
| Scenarios.MessagesPathLists | lib/http.js:155-171 | in that table '/messages' resolves to `Message` with `list` |
| Scenarios.MessagePathGets | lib/http.js:155-171 | in that table '/messages/42' resolves to `Message` with `get` and `{id: '42'}` |
| Scenarios.CliRoutesKeys | examples/cli.js:26-39 | the two definitions write the same two keys, "undefined/:id" and then "undefined" |
| Scenarios.CliRoutesOverwrite | examples/cli.js:26-39 | when the two calls complete in call order, the second definition overwrites the first in place, so both keys lead to `Peer`; the calls are not awaited, so the order in which they complete is outside the model (see the concurrency line under "## Left out") |
| Scenarios.CliRoutesUnreachable | examples/cli.js:26-39 | in the table the two definitions leave, no request path resolves |
| Scenarios.CliRequestsAnswerError | examples/cli.js:26-39 | so every request to those resources gets the error diagnostic |
| Scenarios.RootMatchesOnlyRoot | lib/http.js:76 | the root pattern matches '/' (and the empty path) and nothing else, binding nothing |
| Scenarios.RootResolvesToIndex | lib/http.js:76 | once '/' is written after routes that miss it, '/' resolves to 'Index' with `list` |
| Scenarios.RootUnknownVerbRejected | lib/http.js:185-193 | a request for '/' with a verb that has no case makes `router` throw, and nothing is sent |

## Left out

- Express itself is left out: body parsing, the CORS headers, the view engine, `listen` and `close`, and the six catch-all route registrations (lib/http.js:134-139). Only the routing decision is modelled.
- `super.start()`, the bootstrap asset load and the server start in `start` are left out. The model assumes they do not touch the two dictionaries. The parent class and the `_load` method are not part of this model, and either could call `this.define`, which would write routes before `Asset` is defined.
- `self.keys.push(query)` (lib/http.js:141) is left out. `keys` belongs to the parent class, which is not part of this model.
- Console logging is left out, since it has no effect on the state or the response.
- Concurrency between awaited calls is left out. Each `define` and each request runs to completion on its own.
- The application collaborator `this.app.define` is a parameter (`Registry.AppOutcome`): it either throws or yields `app.resources[name]`.
- The inherited handlers `_GET`, `_PUT`, `_POST`, `_PATCH` and `_DELETE` are a parameter (`Dispatch.Effects`): what each returned, or that it threw. The request body they receive is not modelled.
- The signer is left out: `Fabric.Vector(x)._sign()` and `'@data'` are uninterpreted functions passed in (`Dispatch.Signer`). The model also assumes signing does not throw.
- RouteTable.Put: keys that look like array indices ("0", "42") are visited first by JavaScript, in numeric order. The model uses plain insertion order. `define` writes `definition.routes.query` unchecked, so this assumes that callers give queries starting with '/' (or none, which gives "undefined"), as the definitions in examples/cli.js do; `resources/asset`, which `start` defines, is not part of this model.
- PathMatch.Match: bound values are not URI-decoded. The library's `decodeURIComponent` failure on malformed escapes, which would reject the request, is not modelled.
- PathMatch.Match: only whole-segment `:name` parameters are modelled. Parameters inside a segment, optional or repeated parameters (`?`, `*`, `+`), custom groups `(...)` and the `*` wildcard are not, since no pattern written by this code uses them.
- PathMatch.Match: case folding covers ASCII letters only.
- Registry.Definition: a `routes.query` that is `null` or not a string is left out. It would be converted to a key differently.
- Registry.Lookup: names inherited from `Object.prototype` (such as "constructor") are not treated as present in `this.resources`.
- `render` and the rest of the class are not part of this model.
