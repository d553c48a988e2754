/**
 * The response decision of `HTTP.router` in lib/http.js. Everything it calls
 * that this model cannot see is a parameter:
 *  - the signer `new Fabric.Vector(x)._sign()` and the `'@data'` property of
 *    a signed vector are two uninterpreted functions, about which nothing is
 *    claimed;
 *  - the inherited handlers `_GET`, `_PUT`, `_POST`, `_PATCH`, `_DELETE`
 *    appear only through their outcomes: a returned value or a thrown
 *    exception.
 * The decision is a value: the one body passed to `response.send`, or the
 * reason nothing is sent.
 */
module Dispatch {
  import opened Wrappers
  import Registry
  import RouteMatch

  /** Payloads, opaque except for the resource registry that OPTIONS signs. */
  datatype Value = Answer(token: nat) | ResourceMap(resources: Registry.Resources)

  /** `new Fabric.Vector(x)._sign()` and `vector['@data']`. */
  datatype Signer = Signer(sign: Value -> Value, data: Value -> Value)

  /** What an awaited inherited handler did. */
  datatype Outcome = Returned(answer: Value) | Threw

  /**
   * `call` is the handler the verb invokes (`_GET`, `_PUT`, `_POST`, `_PATCH`
   * or `_DELETE`); `reread` is the `_GET(request.path)` that PUT, POST and
   * PATCH make after writing.
   */
  datatype Effects = Effects(call: Outcome, reread: Outcome)

  /** The argument of `response.send`. */
  datatype Body = Diagnostic(status: string, message: string) | Payload(value: Value)

  /**
   * `Sent(b)`: `response.send(b)` is called once. `Swallowed`: a handler
   * threw inside a `try` and the exception was logged. `Rejected`: the
   * exception escaped `router` itself. In both of the last two nothing is sent.
   */
  datatype Response = Sent(body: Body) | Swallowed | Rejected

  const Hint: string := ", which is not yet implemented.  Use OPTIONS for a list of available methods."

  /** Message of the `status: 'error'` diagnostic (lib/http.js:181). */
  function ErrorMessage(verb: string, path: string): string {
    "Received \"" + verb + " " + path + "\"" + Hint
  }

  /** Message of the `status: 'warning'` diagnostic (lib/http.js:191). */
  function WarningMessage(verb: string, path: string, name: string): string {
    "Received \"" + verb + " " + path + "\" for " + name + Hint
  }

  /** The verbs the `switch` has a case for. */
  predicate Handled(verb: string) {
    verb in {"OPTIONS", "GET", "PUT", "POST", "PATCH", "DELETE"}
  }

  /** `_OPTIONS`: the `'@data'` of the signed registry. */
  function OptionsAnswer(resources: Registry.Resources, signer: Signer): Value {
    signer.data(signer.sign(ResourceMap(resources)))
  }

  /** Send the signed answer of a handler, or nothing if it threw. */
  function SendSigned(o: Outcome, signer: Signer): Response {
    match o
    case Returned(a) => Sent(Payload(signer.sign(a)))
    case Threw => Swallowed
  }

  /** `router(request, response)` once `route(request.path)` has answered `route`. */
  function Respond(verb: string, path: string, route: Option<RouteMatch.Found>,
                   resources: Registry.Resources, signer: Signer, fx: Effects): (r: Response)
    ensures route.None? ==> r.Sent? && r.body.Diagnostic? && r.body.status == "error"
    ensures r.Sent? && r.body.Diagnostic? ==> route.None? || !Handled(verb)
    ensures r.Rejected? ==> route.Some? && !Handled(verb)
    ensures r.Swallowed? ==> route.Some? && Handled(verb) && verb != "OPTIONS" && (fx.call.Threw? || fx.reread.Threw?)
  {
    match route
    case None => Sent(Diagnostic("error", ErrorMessage(verb, path)))
    case Some(found) =>
      if verb == "OPTIONS" then
        Sent(Payload(signer.sign(OptionsAnswer(resources, signer))))
      else if verb == "GET" || verb == "DELETE" then
        SendSigned(fx.call, signer)
      else if verb == "PUT" || verb == "PATCH" then
        if fx.call.Threw? then Swallowed else SendSigned(fx.reread, signer)
      else if verb == "POST" then
        if fx.call.Threw? || fx.reread.Threw? then Swallowed
        else Sent(Payload(signer.data(signer.sign(fx.call.answer))))
      else
        match Registry.Lookup(resources, found.resource)
        case Some(resource) => Sent(Diagnostic("warning", WarningMessage(verb, path, resource.name)))
        case None => Rejected
  }

  /** The error message quotes the verb and the path. */
  lemma ErrorMessageQuotes(verb: string, path: string)
    ensures var m := ErrorMessage(verb, path);
            && |m| > 11 + |verb| + |path|
            && m[..10] == "Received \""
            && m[10..10 + |verb|] == verb
            && m[10 + |verb|] == ' '
            && m[11 + |verb|..11 + |verb| + |path|] == path
  {
    var m := ErrorMessage(verb, path);
    var head := "Received \"";
    assert |head| == 10;
    assert m == head + verb + " " + path + ("\"" + Hint);
    assert m[10..10 + |verb|] == verb;
    assert m[11 + |verb|..11 + |verb| + |path|] == path;
  }

  /** The warning message quotes the verb and the path and names the resource. */
  lemma WarningMessageQuotes(verb: string, path: string, name: string)
    ensures var m := WarningMessage(verb, path, name);
            var at := 17 + |verb| + |path|;
            && |m| > at + |name|
            && m[10..10 + |verb|] == verb
            && m[11 + |verb|..11 + |verb| + |path|] == path
            && m[11 + |verb| + |path|..at] == "\" for "
            && m[at..at + |name|] == name
  {
    var m := WarningMessage(verb, path, name);
    var head := "Received \"";
    var mid := "\" for ";
    assert |head| == 10 && |mid| == 6;
    assert m == head + verb + " " + path + mid + name + Hint;
    var at := 17 + |verb| + |path|;
    assert m[10..10 + |verb|] == verb;
    assert m[11 + |verb|..11 + |verb| + |path|] == path;
    assert m[11 + |verb| + |path|..at] == mid;
    assert m[at..at + |name|] == name;
  }

  /** No route: one `status: 'error'` diagnostic, whatever the verb. */
  lemma UnmatchedSendsError(verb: string, path: string, resources: Registry.Resources, signer: Signer, fx: Effects)
    ensures Respond(verb, path, None, resources, signer, fx) == Sent(Diagnostic("error", ErrorMessage(verb, path)))
  {
  }

  /**
   * A matched route and a verb without a case: one `status: 'warning'`
   * diagnostic naming the resource, provided the resource is registered;
   * otherwise reading its `name` throws outside any `try`.
   */
  lemma UnknownVerbWarns(verb: string, path: string, found: RouteMatch.Found,
                         resources: Registry.Resources, signer: Signer, fx: Effects)
    requires !Handled(verb)
    ensures var r := Respond(verb, path, Some(found), resources, signer, fx);
            match Registry.Lookup(resources, found.resource)
            case Some(resource) => r == Sent(Diagnostic("warning", WarningMessage(verb, path, resource.name)))
            case None => r == Rejected
  {
  }

  /** OPTIONS signs `_OPTIONS`, the data of the signed registry, whatever the handlers do. */
  lemma OptionsSignsRegistry(path: string, found: RouteMatch.Found, resources: Registry.Resources,
                             signer: Signer, fx: Effects)
    ensures Respond("OPTIONS", path, Some(found), resources, signer, fx)
            == Sent(Payload(signer.sign(signer.data(signer.sign(ResourceMap(resources))))))
  {
  }

  /** GET and DELETE send the signed handler answer, or nothing if the handler threw. */
  lemma ReadAndDeleteSendAnswer(verb: string, path: string, found: RouteMatch.Found,
                                resources: Registry.Resources, signer: Signer, fx: Effects)
    requires verb == "GET" || verb == "DELETE"
    ensures Respond(verb, path, Some(found), resources, signer, fx)
            == if fx.call.Returned? then Sent(Payload(signer.sign(fx.call.answer))) else Swallowed
  {
  }

  /**
   * PUT and PATCH send the signed re-read, not the write answer: two writes
   * that return different answers produce the same response.
   */
  lemma WritesSendReread(verb: string, path: string, found: RouteMatch.Found,
                         resources: Registry.Resources, signer: Signer, a: Value, b: Value, reread: Outcome)
    requires verb == "PUT" || verb == "PATCH"
    ensures Respond(verb, path, Some(found), resources, signer, Effects(Returned(a), reread))
            == Respond(verb, path, Some(found), resources, signer, Effects(Returned(b), reread))
    ensures Respond(verb, path, Some(found), resources, signer, Effects(Returned(a), reread))
            == if reread.Returned? then Sent(Payload(signer.sign(reread.answer))) else Swallowed
  {
  }

  /**
   * POST sends the `'@data'` of the signed write answer; the re-read it also
   * makes changes nothing in the response unless it throws, in which case
   * nothing is sent.
   */
  lemma PostSendsWriteData(path: string, found: RouteMatch.Found, resources: Registry.Resources,
                           signer: Signer, a: Value, r1: Value, r2: Value)
    ensures Respond("POST", path, Some(found), resources, signer, Effects(Returned(a), Returned(r1)))
            == Sent(Payload(signer.data(signer.sign(a))))
    ensures Respond("POST", path, Some(found), resources, signer, Effects(Returned(a), Returned(r1)))
            == Respond("POST", path, Some(found), resources, signer, Effects(Returned(a), Returned(r2)))
    ensures Respond("POST", path, Some(found), resources, signer, Effects(Returned(a), Threw)) == Swallowed
  {
  }

  /**
   * When something is sent and when nothing is: a handled verb sends
   * exactly when every handler it awaits returns; an unknown verb sends
   * exactly when the resource is registered.
   */
  lemma SendsExactlyWhen(verb: string, path: string, route: Option<RouteMatch.Found>,
                         resources: Registry.Resources, signer: Signer, fx: Effects)
    ensures var r := Respond(verb, path, route, resources, signer, fx);
            && (r.Sent? <==>
                  || route.None?
                  || verb == "OPTIONS"
                  || ((verb == "GET" || verb == "DELETE") && fx.call.Returned?)
                  || ((verb == "PUT" || verb == "PATCH" || verb == "POST") && fx.call.Returned? && fx.reread.Returned?)
                  || (!Handled(verb) && Registry.Lookup(resources, route.value.resource).Some?))
            && (r.Rejected? <==> route.Some? && !Handled(verb) && Registry.Lookup(resources, route.value.resource).None?)
  {
  }
}
