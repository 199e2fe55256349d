/**
 * `SinglePageApp`: an application that serves one web page on GET and
 * dispatches POST requests through a registry of actions. The `action` field
 * of `$_POST` names the callback; an unknown action is answered 400, any
 * other method 405. Callbacks are registered with `AddPostAction`, which
 * accepts only callbacks taking exactly one parameter.
 */
module SinglePage {
  import opened Wrappers
  import opened Http

  /** A registered closure: the number of parameters reflection reports,
      and what it answers when called with the stored request. */
  datatype Callback = Callback(arity: nat, run: Request -> Response)

  /** The message of the exception `AddPostAction` throws. */
  const ArityError := "Callback function must have exactly one parameter"

  /** The `TypeError` PHP raises when a list is used as an array key. */
  const IllegalOffset := "Illegal offset type in isset or empty"

  /** The key `$PostActions[$Action]` looks up: a missing `action` field is
      null, which PHP reads as the key ""; a list cannot be a key. */
  function ActionKey(body: FormData): (r: Result<string, string>)
    ensures "action" !in body ==> r == Ok("")
    ensures "action" in body && body["action"].Text? ==> r == Ok(body["action"].text)
    ensures r.Err? <==> "action" in body && body["action"].List?
  {
    if "action" !in body then Ok("")
    else
      match body["action"]
      case Text(name) => Ok(name)
      case List(_) => Err(IllegalOffset)
  }

  /** What one call of `HandleRequest` leaves behind: the stored request and
      the response, or the error that escaped `OnPost`. */
  datatype Step = Step(request: Request, response: Result<Response, string>)

  /** The outcome of `HandleRequest` given the page, the registry and `$_POST`. */
  function Dispatch(webPage: string, actions: map<string, Callback>, request: Request, post: FormData): (s: Step)
    // only the parsed body of the request ever changes
    ensures s.request == request.(parsedBody := s.request.parsedBody)
    ensures request.httpMethod == "GET" ==> s == Step(request, Ok(Response(200, webPage)))
    ensures request.httpMethod == "POST" ==> s.request.parsedBody == Some(post)
    ensures request.httpMethod == "POST" && ActionKey(post).Ok? && ActionKey(post).value in actions ==>
      s.response == Ok(actions[ActionKey(post).value].run(s.request))
    ensures request.httpMethod == "POST" && ActionKey(post).Ok? && ActionKey(post).value !in actions ==>
      s.response == Ok(Response(400, "Bad Request: `action=" + ActionKey(post).value + "` not found"))
    ensures s.response.Err? <==> request.httpMethod == "POST" && ActionKey(post).Err?
    ensures request.httpMethod !in {"GET", "POST"} ==> s == Step(request, Ok(Status(405)))
  {
    match request.httpMethod
    case "GET" => Step(request, Ok(Response(200, webPage)))
    case "POST" =>
      var r := request.(parsedBody := Some(post));
      (match ActionKey(post)
       case Err(e) => Step(r, Err(e))
       case Ok(name) =>
         if name in actions then Step(r, Ok(actions[name].run(r)))
         else Step(r, Ok(Response(400, "Bad Request: `action=" + name + "` not found"))))
    case _ => Step(request, Ok(Status(405)))
  }

  class SinglePageApp {
    /** `$ServerRequest`: `None` until the first request. */
    var serverRequest: Option<Request>
    /** `$Response`: `None` until the first response. */
    var response: Option<Response>
    /** `$WebPage`. */
    const webPage: string
    /** `$PostActions`. */
    var postActions: map<string, Callback>

    /** Every registered callback passed the arity check. */
    predicate Valid()
      reads this
    {
      forall name :: name in postActions ==> postActions[name].arity == 1
    }

    constructor (webPage: string)
      ensures Valid()
      ensures serverRequest == None && response == None
      ensures this.webPage == webPage && postActions == map[]
    {
      serverRequest := None;
      response := None;
      this.webPage := webPage;
      postActions := map[];
    }

    /** `AddPostAction`: `Ok(this)` lets calls be chained; a callback whose
        parameter count is not one is refused and nothing changes. */
    method AddPostAction(action: string, callback: Callback) returns (result: Result<SinglePageApp, string>)
      requires Valid()
      modifies this`postActions
      ensures Valid()
      ensures callback.arity != 1 ==> result == Err(ArityError) && postActions == old(postActions)
      ensures callback.arity == 1 ==> result == Ok(this) && postActions == old(postActions)[action := callback]
    {
      if callback.arity != 1 {
        return Err(ArityError);
      }
      postActions := postActions[action := callback];
      return Ok(this);
    }

    /** `HandleRequest` with `OnGet` and `OnPost`. `Err` is the error that
        escapes `OnPost`; the request is stored by then and the response is
        left as it was. */
    method HandleRequest(request: Request, rt: Runtime) returns (result: Result<Response, string>)
      requires Valid()
      modifies this`serverRequest, this`response
      ensures Valid()
      // the callback that answers was registered with exactly one parameter,
      // so calling it with the request alone is sound
      ensures request.httpMethod == "POST" && ActionKey(rt.post).Ok? && ActionKey(rt.post).value in postActions ==>
        postActions[ActionKey(rt.post).value].arity == 1
      ensures var s := Dispatch(webPage, postActions, request, rt.post);
        serverRequest == Some(s.request) && result == s.response
      ensures result.Ok? ==> response == Some(result.value)
      ensures result.Err? ==> response == old(response)
    {
      serverRequest := Some(request);
      match request.httpMethod {
        case "GET" =>
          response := Some(Response(200, webPage));
        case "POST" =>
          serverRequest := Some(request.(parsedBody := Some(rt.post)));
          var body := serverRequest.value.parsedBody.value;
          var key := ActionKey(body);
          if key.Err? {
            return Err(key.error);
          }
          var name := key.value;
          if name in postActions {
            response := Some(postActions[name].run(serverRequest.value));
          } else {
            response := Some(Response(400, "Bad Request: `action=" + name + "` not found"));
          }
        case _ =>
          response := Some(Status(405));
      }
      return Ok(response.value);
    }
  }

  /** Registering an action changes the answer to that action only: a POST
      naming any other action is answered as before. */
  lemma RegistrationIsLocal(webPage: string, actions: map<string, Callback>, action: string, callback: Callback,
                            request: Request, post: FormData)
    requires request.httpMethod == "POST"
    requires ActionKey(post) != Ok(action)
    ensures Dispatch(webPage, actions[action := callback], request, post) == Dispatch(webPage, actions, request, post)
  {
  }

  /** Once registered, an action answers a POST that names it with its
      callback's response, unchanged. */
  lemma RegisteredActionAnswers(webPage: string, actions: map<string, Callback>, action: string, callback: Callback,
                                request: Request, post: FormData)
    requires request.httpMethod == "POST" && ActionKey(post) == Ok(action)
    ensures var s := Dispatch(webPage, actions[action := callback], request, post);
      s.response == Ok(callback.run(request.(parsedBody := Some(post))))
  {
  }
}
