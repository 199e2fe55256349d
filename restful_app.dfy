/**
 * `RestfulApp`: an application that dispatches on the HTTP method. GET and
 * POST go straight to their hooks (POST with `$_POST` as the parsed body);
 * PUT, DELETE and PATCH first run the body parser and hand the hook the
 * request with the method's bucket as its parsed body; anything else is
 * answered 405. The `On*` hooks a subclass overrides are the functions of a
 * `Hooks` value; the defaults answer 405.
 */
module Restful {
  import opened Wrappers
  import opened Http
  import App

  /** The five overridable hooks, each given the stored request. */
  datatype Hooks = Hooks(
    onGet: Request -> Response,
    onPost: Request -> Response,
    onPut: Request -> Response,
    onPatch: Request -> Response,
    onDelete: Request -> Response)

  /** The hooks `RestfulApp` itself defines: every one answers 405. */
  function DefaultHooks(): (h: Hooks)
    ensures forall request :: h.onGet(request).status == 405 && h.onPost(request).status == 405
    ensures forall request :: h.onPut(request).status == 405 && h.onPatch(request).status == 405
    ensures forall request :: h.onDelete(request).status == 405
  {
    Hooks(_ => Status(405), _ => Status(405), _ => Status(405), _ => Status(405), _ => Status(405))
  }

  /** What one call of `HandleRequest` leaves behind: the stored request and
      the response, or the error that escaped the body parser. */
  datatype Step = Step(request: Request, response: Result<Response, string>)

  /** The outcome of `HandleRequest` given `$_POST` and what the body parser
      makes of `php://input` (only read for PUT, DELETE and PATCH). */
  function Dispatch(hooks: Hooks, request: Request, post: FormData, parsed: App.PartState): (s: Step)
    // only the parsed body of the request ever changes
    ensures s.request == request.(parsedBody := s.request.parsedBody)
    ensures request.httpMethod == "GET" ==> s == Step(request, Ok(hooks.onGet(request)))
    ensures request.httpMethod == "POST" ==>
      s.request.parsedBody == Some(post) && s.response == Ok(hooks.onPost(s.request))
    ensures request.httpMethod in App.BodyMethods && parsed.error.None? ==>
      s.request.parsedBody == Some(parsed.data) && s.response.Ok?
    // each body method reaches its own hook
    ensures request.httpMethod == "PUT" && parsed.error.None? ==> s.response == Ok(hooks.onPut(s.request))
    ensures request.httpMethod == "DELETE" && parsed.error.None? ==> s.response == Ok(hooks.onDelete(s.request))
    ensures request.httpMethod == "PATCH" && parsed.error.None? ==> s.response == Ok(hooks.onPatch(s.request))
    ensures s.response.Err? <==> request.httpMethod in App.BodyMethods && parsed.error.Some?
    ensures s.response.Err? ==> s == Step(request, Err(parsed.error.value))
    ensures request.httpMethod !in {"GET", "POST", "PUT", "DELETE", "PATCH"} ==> s == Step(request, Ok(Status(405)))
  {
    match request.httpMethod
    case "GET" => Step(request, Ok(hooks.onGet(request)))
    case "POST" =>
      var r := request.(parsedBody := Some(post));
      Step(r, Ok(hooks.onPost(r)))
    case "PUT" => WithBucket(hooks.onPut, request, parsed)
    case "DELETE" => WithBucket(hooks.onDelete, request, parsed)
    case "PATCH" => WithBucket(hooks.onPatch, request, parsed)
    case _ => Step(request, Ok(Status(405)))
  }

  /** PUT, DELETE and PATCH: the parser's error escapes before the request is
      replaced; otherwise the hook sees the method's bucket as the body. */
  function WithBucket(hook: Request -> Response, request: Request, parsed: App.PartState): Step
  {
    if parsed.error.Some? then Step(request, Err(parsed.error.value))
    else
      var r := request.(parsedBody := Some(parsed.data));
      Step(r, Ok(hook(r)))
  }

  class RestfulApp {
    /** `$ServerRequest`: `None` until the first request. */
    var serverRequest: Option<Request>
    /** `$Response`: `None` until the first response. */
    var response: Option<Response>
    const hooks: Hooks

    constructor (hooks: Hooks)
      ensures serverRequest == None && response == None && this.hooks == hooks
    {
      serverRequest := None;
      response := None;
      this.hooks := hooks;
    }

    /** `HandleRequest`. `Err` is the error that escapes from the body parser;
        the request is stored by then and the response is left as it was. */
    method HandleRequest(request: Request, rt: Runtime) returns (result: Result<Response, string>)
      modifies this, rt`buckets, rt`files
      ensures var s := Dispatch(hooks, request, rt.post, App.ParseBody(rt.input, old(rt.files), rt.parseStr, rt.tempnam));
        serverRequest == Some(s.request) && result == s.response
      ensures result.Ok? ==> response == Some(result.value)
      ensures result.Err? ==> response == old(response)
      // the body parser runs for PUT, DELETE and PATCH only, and leaves
      // `$_FILES` and the method's bucket as it parsed them
      ensures request.httpMethod !in App.BodyMethods ==>
        rt.buckets == old(rt.buckets) && rt.files == old(rt.files)
      ensures request.httpMethod in App.BodyMethods ==>
        var r := App.ParseBody(rt.input, old(rt.files), rt.parseStr, rt.tempnam);
        && rt.files == r.files
        && rt.buckets == if r.error.None? then old(rt.buckets)[request.httpMethod := r.data] else old(rt.buckets)
    {
      serverRequest := Some(request);
      match request.httpMethod {
        case "GET" =>
          response := Some(hooks.onGet(request));
        case "POST" =>
          var r := request.(parsedBody := Some(rt.post));
          serverRequest := Some(r);
          response := Some(hooks.onPost(r));
        case "PUT" =>
          result := OnBodyMethod(hooks.onPut, request, rt);
          return;
        case "DELETE" =>
          result := OnBodyMethod(hooks.onDelete, request, rt);
          return;
        case "PATCH" =>
          result := OnBodyMethod(hooks.onPatch, request, rt);
          return;
        case _ =>
          response := Some(Status(405));
      }
      return Ok(response.value);
    }

    /** The PUT, DELETE and PATCH cases: parse the body, then hand the hook
        the request carrying the method's bucket. */
    method OnBodyMethod(hook: Request -> Response, request: Request, rt: Runtime) returns (result: Result<Response, string>)
      requires request.httpMethod in App.BodyMethods && serverRequest == Some(request)
      modifies this, rt`buckets, rt`files
      ensures var s := WithBucket(hook, request, App.ParseBody(rt.input, old(rt.files), rt.parseStr, rt.tempnam));
        serverRequest == Some(s.request) && result == s.response
      ensures result.Ok? ==> response == Some(result.value)
      ensures result.Err? ==> response == old(response)
      ensures var r := App.ParseBody(rt.input, old(rt.files), rt.parseStr, rt.tempnam);
        && rt.files == r.files
        && rt.buckets == if r.error.None? then old(rt.buckets)[request.httpMethod := r.data] else old(rt.buckets)
    {
      var failure := App.ParsePHPInput(request, rt);
      if failure.Some? {
        return Err(failure.value);
      }
      var r := request.(parsedBody := Some(rt.buckets[request.httpMethod]));
      serverRequest := Some(r);
      response := Some(hook(r));
      return Ok(response.value);
    }
  }

  /** A `RestfulApp` that overrides nothing answers 405 to every request the
      body parser does not reject. */
  lemma BareAppRefuses(request: Request, post: FormData, parsed: App.PartState)
    ensures var s := Dispatch(DefaultHooks(), request, post, parsed);
      s.response.Ok? ==> s.response.value.status == 405
  {
  }
}
