/**
 * `CrudApp`: an application reached through scripts named
 * `<resource>.<verb>.php`. Only POST is accepted; an unauthorised request is
 * answered 401 before the path is looked at; the verb (SELECT, CREATE,
 * UPDATE, DELETE, in any case) picks the hook, which sees the request with
 * `$_POST` as its parsed body; any other verb is answered 404. The hooks a
 * subclass overrides are the functions of a `Hooks` value; the defaults
 * answer 404. `AuthorizeRequest` is not part of this model: it is an opaque
 * predicate on the stored request.
 */
module Crud {
  import opened Wrappers
  import opened PhpStrings
  import opened Http

  /** The four overridable hooks, each given the stored request. */
  datatype Hooks = Hooks(
    onCreate: Request -> Response,
    onRead: Request -> Response,
    onUpdate: Request -> Response,
    onDelete: Request -> Response)

  /** The hooks `CrudApp` itself defines: every one answers 404. */
  function DefaultHooks(): (h: Hooks)
    ensures forall request :: h.onCreate(request).status == 404 && h.onRead(request).status == 404
    ensures forall request :: h.onUpdate(request).status == 404 && h.onDelete(request).status == 404
  {
    Hooks(_ => Status(404), _ => Status(404), _ => Status(404), _ => Status(404))
  }

  /** The character set `rtrim($Resource, '.php')` removes from the end. */
  const ScriptTrim: set<char> := {'.', 'p', 'h'}

  /** The verb of a path: the last path segment, stripped of trailing `.`,
      `p` and `h` characters, then its last `.`-separated piece, upper-cased. */
  function Verb(path: string): string
  {
    ToUpper(Last(Explode(".", RTrim(Last(Explode("/", path)), ScriptTrim))))
  }

  /** The hook a verb selects, if any (the `switch` compares exactly). */
  function HookFor(hooks: Hooks, verb: string): Option<Request -> Response>
  {
    match verb
    case "SELECT" => Some(hooks.onRead)
    case "CREATE" => Some(hooks.onCreate)
    case "UPDATE" => Some(hooks.onUpdate)
    case "DELETE" => Some(hooks.onDelete)
    case _ => None
  }

  /** What one call of `HandleRequest` leaves behind: the stored request and the response. */
  datatype Step = Step(request: Request, response: Response)

  /** The outcome of `HandleRequest` given whether `AuthorizeRequest` accepts
      the request and the contents of `$_POST`. */
  function Dispatch(hooks: Hooks, authorized: bool, request: Request, post: FormData): (s: Step)
    // only the parsed body of the request ever changes
    ensures s.request == request.(parsedBody := s.request.parsedBody)
    ensures request.httpMethod != "POST" ==> s == Step(request, Status(405))
    ensures request.httpMethod == "POST" && !authorized ==> s == Step(request, Status(401))
    ensures request.httpMethod == "POST" && authorized && HookFor(hooks, Verb(request.path)).None? ==>
      s == Step(request, Status(404))
    ensures request.httpMethod == "POST" && authorized && HookFor(hooks, Verb(request.path)).Some? ==>
      s.request.parsedBody == Some(post) && s.response == HookFor(hooks, Verb(request.path)).value(s.request)
  {
    if request.httpMethod != "POST" then Step(request, Status(405))
    else if !authorized then Step(request, Status(401))
    else
      match HookFor(hooks, Verb(request.path))
      case None => Step(request, Status(404))
      case Some(hook) =>
        var r := request.(parsedBody := Some(post));
        Step(r, hook(r))
  }

  class CrudApp {
    /** `$ServerRequest`: `None` until the first request. */
    var serverRequest: Option<Request>
    /** `$Response`: `None` until the first response. */
    var response: Option<Response>
    const hooks: Hooks
    /** `AuthorizeRequest()`, which looks at the stored request. */
    const authorizeRequest: Request -> bool

    constructor (hooks: Hooks, authorizeRequest: Request -> bool)
      ensures serverRequest == None && response == None
      ensures this.hooks == hooks && this.authorizeRequest == authorizeRequest
    {
      serverRequest := None;
      response := None;
      this.hooks := hooks;
      this.authorizeRequest := authorizeRequest;
    }

    /** `HandleRequest`: the returned response is the one stored. */
    method HandleRequest(request: Request, rt: Runtime) returns (result: Response)
      modifies this`serverRequest, this`response
      ensures var s := Dispatch(hooks, authorizeRequest(request), request, rt.post);
        serverRequest == Some(s.request) && result == s.response
      ensures response == Some(result)
    {
      serverRequest := Some(request);
      if request.httpMethod != "POST" {
        response := Some(Status(405));
        return response.value;
      }
      if !authorizeRequest(request) {
        response := Some(Status(401));
        return response.value;
      }
      var segments := Explode("/", request.path);
      var resource := RTrim(segments[|segments| - 1], ScriptTrim);
      var pieces := Explode(".", resource);
      var verb := ToUpper(pieces[|pieces| - 1]);
      match verb {
        case "SELECT" =>
          serverRequest := Some(request.(parsedBody := Some(rt.post)));
          response := Some(hooks.onRead(serverRequest.value));
        case "CREATE" =>
          serverRequest := Some(request.(parsedBody := Some(rt.post)));
          response := Some(hooks.onCreate(serverRequest.value));
        case "UPDATE" =>
          serverRequest := Some(request.(parsedBody := Some(rt.post)));
          response := Some(hooks.onUpdate(serverRequest.value));
        case "DELETE" =>
          serverRequest := Some(request.(parsedBody := Some(rt.post)));
          response := Some(hooks.onDelete(serverRequest.value));
        case _ =>
          response := Some(Status(404));
      }
      return response.value;
    }
  }

  /** `rtrim` removes a suffix made of trimmed characters and stops at a
      character it does not trim. */
  lemma {:induction false} TrimmedSuffix(z: string, t: string, cut: set<char>)
    requires z != [] && z[|z| - 1] !in cut
    requires forall i :: 0 <= i < |t| ==> t[i] in cut
    ensures RTrim(z + t, cut) == z
    decreases |t|
  {
    if t == [] {
      assert z + t == z;
    } else {
      var s := z + t;
      assert s[|s| - 1] == t[|t| - 1];
      assert s[..|s| - 1] == z + t[..|t| - 1];
      TrimmedSuffix(z, t[..|t| - 1], cut);
    }
  }

  /** The verb of `<dir>/<resource>.<verb>.php` is the upper-cased verb,
      provided the verb ends in a character `rtrim` keeps. */
  lemma ScriptVerb(dir: string, resource: string, verb: string)
    requires '/' !in resource && '/' !in verb && '.' !in verb
    requires verb != [] && verb[|verb| - 1] !in ScriptTrim
    ensures Verb(dir + "/" + resource + "." + verb + ".php") == ToUpper(verb)
  {
    var base := resource + "." + verb;
    var script := base + ".php";
    assert dir + "/" + resource + "." + verb + ".php" == dir + ['/'] + script;
    assert '/' !in script by {
      forall i | 0 <= i < |script|
        ensures script[i] != '/'
      {
        if i < |resource| {
          assert script[i] == resource[i];
        } else if |resource| < i < |base| {
          assert script[i] == verb[i - |resource| - 1];
        }
      }
    }
    ExplodeLast('/', dir, script);
    assert base[|base| - 1] == verb[|verb| - 1];
    TrimmedSuffix(base, ".php", ScriptTrim);
    assert base == resource + ['.'] + verb;
    ExplodeLast('.', resource, verb);
  }

  /** An authorised POST to `<dir>/<resource>.<verb>.php` reaches the hook
      the verb names, whatever its case, with `$_POST` as the parsed body. */
  lemma ScriptDispatch(hooks: Hooks, request: Request, post: FormData, dir: string, resource: string, verb: string)
    requires request.httpMethod == "POST"
    requires request.path == dir + "/" + resource + "." + verb + ".php"
    requires '/' !in resource && '/' !in verb && '.' !in verb
    requires verb != [] && verb[|verb| - 1] !in ScriptTrim
    ensures var s := Dispatch(hooks, true, request, post);
      s.response == match HookFor(hooks, ToUpper(verb))
                    case Some(hook) => hook(request.(parsedBody := Some(post)))
                    case None => Status(404)
  {
    ScriptVerb(dir, resource, verb);
  }

  /** `user.select.php` names SELECT. */
  lemma SelectScript()
    ensures Verb("/api/v1/user.select.php") == "SELECT"
  {
    ScriptVerb("/api/v1", "user", "select");
    assert "/api/v1/user.select.php" == "/api/v1" + "/" + "user" + "." + "select" + ".php";
    UpperSelect();
  }

  lemma UpperSelect()
    ensures ToUpper("select") == "SELECT"
  {
    var upper := ToUpper("select");
    assert |upper| == 6;
    assert upper[0] == 'S' && upper[1] == 'E' && upper[2] == 'L' && upper[3] == 'E' && upper[4] == 'C' && upper[5] == 'T';
  }

  /** A script named `<resource>.php` carries no verb of its own: the
      upper-cased resource name takes its place. */
  lemma VerblessScript(dir: string, resource: string)
    requires '/' !in resource && '.' !in resource
    requires resource != [] && resource[|resource| - 1] !in ScriptTrim
    ensures Verb(dir + "/" + resource + ".php") == ToUpper(resource)
  {
    var script := resource + ".php";
    assert dir + "/" + resource + ".php" == dir + ['/'] + script;
    assert '/' !in script by {
      forall i | 0 <= i < |resource|
        ensures script[i] != '/'
      {
        assert script[i] == resource[i];
      }
    }
    ExplodeLast('/', dir, script);
    TrimmedSuffix(resource, ".php", ScriptTrim);
    forall j | 0 <= j < |resource|
      ensures !MatchAt(resource, ".", j)
    {
      assert resource[j] != '.';
    }
    ExplodeWhole(".", resource);
  }

  /** `user.php` is answered as the verb USER. */
  lemma BareScript()
    ensures Verb("/api/v1/user.php") == "USER"
  {
    VerblessScript("/api/v1", "user");
    assert "/api/v1/user.php" == "/api/v1" + "/" + "user" + ".php";
    var upper := ToUpper("user");
    assert |upper| == 4;
    assert upper[0] == 'U' && upper[1] == 'S' && upper[2] == 'E' && upper[3] == 'R';
    assert upper == "USER";
  }

  /** A `CrudApp` that overrides nothing answers 405, 401 or 404 and
      never anything else. */
  lemma BareAppRefuses(authorized: bool, request: Request, post: FormData)
    ensures Dispatch(DefaultHooks(), authorized, request, post).response.status in {405, 401, 404}
    ensures request.httpMethod == "POST" && authorized ==>
      Dispatch(DefaultHooks(), authorized, request, post).response.status == 404
  {
  }
}
