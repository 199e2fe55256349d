# app_php request dispatch, in Dafny

A model of the request-dispatch core of the app_php micro-framework, written
in Dafny, with the properties it promises proved. The model covers:

- the path router (`Router`): a prefix tree of path segments in which `:name`
  segments become a wildcard `*`, resolution that prefers literal segments and
  records the segments the wildcard consumes, and `Run`'s choice between
  answering 404 and handing the request to the first registered app;
- the body parser `ParsePHPInput`, which fills `$_PUT`, `$_PATCH` or `$_DELETE`
  and `$_FILES` from a `multipart/form-data` body, and `GetPathParameter`;
- the three application kinds: `RestfulApp` dispatches on the HTTP method,
  `CrudApp` on the verb in a script name such as `user.select.php`, and
  `SinglePageApp` on the `action` field of a POST through a registry of
  callbacks;
- the OAuth scope gate `OAuthAuthorization::Authorize` and `GetError`.

Requests and responses are plain records (method, path, parsed body and
attributes; status and body). The PHP process state the framework reads and
writes is the `Http.Runtime` class:

- the superglobals `$_POST`, the method buckets and `$_FILES`;
- the bytes of `php://input`;
- `parse_str` and `tempnam`, as uninterpreted functions.

The overridable `On*` hooks and the registered callbacks are function values
of type `Request -> Response`. Their default behaviour is proved.

Files and modules:

| file | module | models |
|---|---|---|
| wrappers.dfy | `Wrappers` | `Option` and `Result` |
| php_strings.dfy | `PhpStrings` | `strpos`, `explode`, `implode`, `str_replace`, `ltrim`/`rtrim`, `strtolower`/`strtoupper` and their laws |
| http.dfy | `Http` | the request and response records, `$_FILES` entries, the `Runtime` state |
| app.dfy | `App` | `ParsePHPInput` (a specification function `ParseBody` and the loop that implements it), the Content-Disposition pattern, `GetPathParameter` |
| multipart.dfy | `Multipart` | the body a client sends for a list of text fields, and the proof that the parser reads it back |
| router.dfy | `Routing` | the route tree and the `Router` class |
| restful_app.dfy | `Restful` | `RestfulApp` |
| crud_app.dfy | `Crud` | `CrudApp` |
| single_page_app.dfy | `SinglePage` | `SinglePageApp` |
| oauth_authorization.dfy | `OAuth` | `OAuthAuthorization` |

The route tree in PHP is one nested array in which a node keeps its apps
under integer keys beside its child segments (src/server/Router.php:132-140).
Here a node has two separate fields, `children` and `apps`.

## Model

| member | source | states |
|---|---|---|
| `PhpStrings.FindFrom` | src/server/App.php:183 | `strpos` from an offset: the index found is an occurrence, and no occurrence lies between the offset and it (none at all when the result is `None`) |
| `PhpStrings.FindFirst` | src/server/App.php:183 | an occurrence with none before it is what `strpos` returns |
| `PhpStrings.Explode` | src/server/Router.php:126 | `explode` always yields at least one piece |
| `PhpStrings.ExplodeJoin` | src/server/Router.php:126 | `implode` with the same separator gives back the exploded string |
| `PhpStrings.ExplodePiecesFree` | src/server/App.php:192 | no piece of `explode` contains the separator |
| `PhpStrings.ExplodeCons` | src/server/App.php:192 | a first occurrence at the end of `x` splits `x` off as the first piece |
| `PhpStrings.ExplodeWhole` | src/server/App.php:192 | a string without the separator is one piece |
| `PhpStrings.ExplodeLast` | src/server/CrudApp.php:28-33 | `array_pop(explode(c, ...))` is the text after the last `c` |
| `PhpStrings.LTrimSpec` | src/server/App.php:200 | `ltrim` removes exactly the leading run of characters of the set |
| `PhpStrings.RTrimSpec` | src/server/CrudApp.php:30 | `rtrim` removes exactly the trailing run of characters of the set |
| `PhpStrings.ReplaceAbsent` | src/server/Router.php:125 | `str_replace` leaves a string without the pattern unchanged |
| `App.ParseHeaders` | src/server/App.php:204-209 | the header loop builds the table `Headers` of the part's lines (lower-cased name, text between the first and second `:` with leading spaces trimmed, later lines overwriting earlier ones) and keeps the raw value of the last line |
| `App.HeadersLastWins` | src/server/App.php:206-209 | a key maps to the value of the last line carrying that key |
| `App.HeadersKeys` | src/server/App.php:206-209 | a key is in the table exactly when some line carries it |
| `App.ParsePart` | src/server/App.php:199-258 | reference definition of one iteration of the part loop; pinned down by `ParseOnePart`, `FileFirstWins`, `FieldStored` and `PartKeepsFiles` |
| `App.ParseParts` | src/server/App.php:195-201 | reference definition of the loop over the parts up to the closing `--`, stopping at the first error; pinned down by `PartsStep`, `PartsKeepFiles`, `PartsFailOnlyOnListOverText` and `Multipart.PartsRead` |
| `App.ParseOnePart` | src/server/App.php:199-258 | one loop step: the new `$data`, `$_FILES` and error are those of `ParsePart` (a part without a disposition changes nothing; a file part is recorded unless its name is known; a field is stored; `name[]` over a plain value is the PHP `Error`) |
| `App.FileFirstWins` | src/server/App.php:223-243 | a file of a known name is skipped and nothing changes; otherwise exactly one entry is added: error 0, the file name, the temporary name, the byte length of the untrimmed body, the type |
| `App.FieldStored` | src/server/App.php:249-257 | `name[]` appends the value, in order, to the list under the stripped name; any other name is overwritten with the value; nothing else changes; the only error is `name[]` over a plain value |
| `App.PartsStep` | src/server/App.php:195-201 | one more part before the closing delimiter continues the fold from the state the part leaves |
| `App.ParsePHPInput` | src/server/App.php:162-263 | methods other than PUT, PATCH and DELETE change nothing; otherwise `$_FILES` and the error are those of `ParseBody` of `php://input`, and the method's bucket is set to its fields exactly when there is no error |
| `App.PartKeepsFiles` | src/server/App.php:225-227 | a part never replaces or drops a `$_FILES` entry |
| `App.PartsKeepFiles` | src/server/App.php:195-260 | across the parts, every `$_FILES` entry keeps its value |
| `App.BodyKeepsFiles` | src/server/App.php:183-260 | parsing a body never replaces or drops a `$_FILES` entry known before |
| `App.UrlEncodedBody` | src/server/App.php:183-189 | a body without CRLF goes to `parse_str` whole, with no file recorded and no error |
| `App.PartsFailOnlyOnListOverText` | src/server/App.php:249-254 | the parser's only failure is a `name[]` field after a plain field of the same name |
| `App.DispositionRoundTrip` | src/server/App.php:215-220 | the Content-Disposition pattern reads back kind, name and file name of a header written as `<kind>; name="<n>"[; filename="<f>"]` |
| `App.GetPathParameter` | src/server/App.php:100-113 | reference definition of the parameter; false without a held request, and never a line feed in the result, which is shorter than the path; pinned down by `PathParameterFollowsResource` and `NoPathParameter` |
| `App.LineEnd` | src/server/App.php:107-108 | where `.` stops: no line feed before the returned index, and a line feed at it unless it is the end |
| `App.ParseBody` | src/server/App.php:183-262 | reference definition of the body parser (URL-encoded when the first line is empty or `0`, otherwise the multipart loop); pinned down by `UrlEncodedBody`, `BodyKeepsFiles`, `PartsFailOnlyOnListOverText` and `FormRoundTrip` |
| `App.ParseDisposition` | src/server/App.php:215-220 | reference definition of the Content-Disposition pattern, greedy first group; pinned down by `DispositionRoundTrip` |
| `App.PathParameterFollowsResource` | src/server/App.php:105-111 | the parameter is the text after the first `<resource>/` of the path |
| `App.NoPathParameter` | src/server/App.php:102-112 | no held request, or no `<resource>/` in the path, gives false |
| `Multipart.ExplodeParts` | src/server/App.php:192 | splitting an encoded body at its delimiter yields the field parts and the closing `--` CRLF |
| `Multipart.DelimiterIsFirstLine` | src/server/App.php:183 | the delimiter the parser takes is the first line of the body |
| `Multipart.FieldPartReads` | src/server/App.php:199-258 | a field part as a client writes it stores its value under its name |
| `Multipart.PartsRead` | src/server/App.php:195-260 | the parts of a list of fields leave the form those fields describe, the last of one name winning |
| `Multipart.FormRoundTrip` | src/server/App.php:162-263 | the parser reads back the fields a client encoded, with no error and `$_FILES` untouched |
| `Routing.Normalize` | src/server/Router.php:129-131 | segments starting with `:` become `*`, all others stay as they are |
| `Routing.Router.constructor` | src/server/Router.php:35-38 | an empty tree, no path parameters, no authorization yet |
| `Routing.Router.WithAuthorization` | src/server/Router.php:78-82 | the authorization is set |
| `Routing.WalkStep` | src/server/Router.php:127-135 | taking one more step from the last node extends the descent by that segment and the child it reaches |
| `Routing.Descend` | src/server/Router.php:126-136 | the keys walked are the normalised segments, and each node of the descent is the child of the one before along that key, a missing child read as empty |
| `Routing.AppendAlong` | src/server/Router.php:137-140 | writing the app back along a descent gives exactly `Insert` of the app at the end of those keys |
| `Routing.Router.AddRoute` | src/server/Router.php:122-141 | the new tree is `Insert` of the old one along the normalised segments of root + `/` + path with `//` collapsed |
| `Routing.PlaceholdersShareKeys` | src/server/Router.php:129-131 | `/user/:id` and `/user/:name` give the same keys |
| `Routing.Insert` | src/server/Router.php:124-140 | reference definition of the tree `AddRoute` builds; pinned down by `InsertReaches`, `InsertKeepsOthers`, `FirstWins` and `InsertPresent` |
| `Routing.Resolve` | src/server/Router.php:96-110 | reference definition of the walk `ResolveRoute` makes; pinned down by `ResolvePresent`, `RegisteredResolves`, `MatchesCons` and `SingleRoute` |
| `Routing.InsertReaches` | src/server/Router.php:137-140 | the app is appended to the terminal node, whose children are untouched |
| `Routing.InsertKeepsOthers` | src/server/Router.php:132-135 | the apps of every other path are unchanged |
| `Routing.FirstWins` | src/server/Router.php:140 | registering a path again keeps the app at index 0 |
| `Routing.InsertPresent` | src/server/Router.php:132-135 | every segment of a registered path exists as a literal child |
| `Routing.ResolvePresent` | src/server/Router.php:98-110 | a literally present path resolves to its node and captures nothing |
| `Routing.RegisteredResolves` | src/server/Router.php:93-141 | the keys of a registered route resolve to its node, which ends with the app |
| `Routing.Router.ResolveRoute` | src/server/Router.php:93-111 | the node is that of `Resolve` on the path before `?` split on `/`; the consumed wildcard segments are appended to `PathParams`, also when resolution then fails |
| `Routing.MatchesCons` | src/server/Router.php:98-109 | a path matches a route exactly when its first segment fits and the rest matches |
| `Routing.SingleRoute` | src/server/Router.php:98-109 | with one route, a path reaches its app exactly when it matches segment by segment, and the wildcard captures exactly the segments it consumed, left to right |
| `Routing.LiteralPreferred` | src/server/Router.php:99-101 | a literal child wins over `*` and captures nothing |
| `Routing.NoBacktracking` | src/server/Router.php:99-108 | after a literal step a later failure is final, though a wildcard route would have matched |
| `Routing.QueryIgnored` | src/server/Router.php:95 | the query string does not affect resolution |
| `Routing.Decide` | src/server/Router.php:52-59 | 404 exactly when no node was resolved or it holds no app; otherwise the first app, given the request with only `PathParams` added and the router's authorization; `RegisteredResolves` and `FirstWins` say which node and which app that is for a registered route |
| `Routing.Router.Run` | src/server/Router.php:48-67 | `//` is collapsed and the path resolved; no node or no app answers 404 "Not Found", otherwise the first app gets the request with `PathParams` attached and the router's authorization; the route tree is unchanged |
| `Restful.DefaultHooks` | src/server/RestfulApp.php:57-104 | every default hook answers 405 |
| `Restful.Dispatch` | src/server/RestfulApp.php:15-49 | each method reaches its own hook: GET calls `OnGet` with the request untouched; POST sets the body to `$_POST` and calls `OnPost`; PUT, DELETE and PATCH set it to the parsed bucket and call `OnPut`, `OnDelete` and `OnPatch`, or let the parser's error escape; any other method is 405 with no hook; only the parsed body of the request ever changes |
| `Restful.WithBucket` | src/server/RestfulApp.php:29-43 | reference definition of the PUT, DELETE and PATCH branches: the parser's error escapes first, otherwise the hook sees the method's bucket as the body; pinned down by `Restful.Dispatch` and `RestfulApp.OnBodyMethod` |
| `Restful.RestfulApp.constructor` | src/server/App.php:40-43 | no request and no response yet |
| `Restful.RestfulApp.HandleRequest` | src/server/RestfulApp.php:15-49 | stores the request and response `Dispatch` gives, returns the stored response, and parses the body only for PUT, DELETE and PATCH, after which `$_FILES` is the parser's and the method's bucket holds its fields unless it failed |
| `Restful.RestfulApp.OnBodyMethod` | src/server/RestfulApp.php:29-43 | runs the body parser, leaving `$_FILES` and the method's bucket as `ParseBody` gives them, then the hook on the request carrying that bucket |
| `Restful.BareAppRefuses` | src/server/RestfulApp.php:44-104 | an app that overrides nothing answers 405 to everything the parser accepts |
| `Crud.DefaultHooks` | src/server/CrudApp.php:65-101 | every default hook answers 404 |
| `Crud.Dispatch` | src/server/CrudApp.php:15-57 | non-POST is 405 before authorization; unauthorised POST is 401 before the path is read; a recognised verb sets the body to `$_POST` and calls its hook; any other verb is 404 with the body untouched |
| `Crud.HookFor` | src/server/CrudApp.php:35-54 | reference definition of the verb `switch`, exact comparison; pinned down by `Crud.Dispatch`, `ScriptDispatch` and `SelectScript` |
| `Crud.CrudApp.constructor` | src/server/App.php:40-43 | no request and no response yet |
| `Crud.CrudApp.HandleRequest` | src/server/CrudApp.php:15-57 | stores the request and response `Dispatch` gives and returns the stored response |
| `Crud.TrimmedSuffix` | src/server/CrudApp.php:30 | `rtrim` by a set strips a suffix of its characters and stops at the first other one |
| `Crud.Verb` | src/server/CrudApp.php:27-33 | reference definition of the verb read from the script name; pinned down by `ScriptVerb`, `VerblessScript`, `SelectScript` and `BareScript` |
| `Crud.ScriptVerb` | src/server/CrudApp.php:27-33 | the verb of `<dir>/<resource>.<verb>.php` is the verb upper-cased, when it ends in a character other than `.`, `p`, `h` |
| `Crud.VerblessScript` | src/server/CrudApp.php:27-33 | the verb of `<dir>/<resource>.php` is the resource name upper-cased |
| `Crud.SelectScript` | tests/CrudAppTest.php:44-48 | `/api/v1/user.select.php` names SELECT |
| `Crud.BareScript` | tests/CrudAppTest.php:146 | `/api/v1/user.php` names USER, which no hook handles |
| `Crud.ScriptDispatch` | src/server/CrudApp.php:35-55 | an authorised POST to `<resource>.<verb>.php` reaches the hook of the upper-cased verb with `$_POST` as the body, or 404 |
| `Crud.BareAppRefuses` | src/server/CrudApp.php:65-101 | an app that overrides nothing answers only 405, 401 or 404, and 404 to every authorised POST |
| `SinglePage.ActionKey` | src/server/SinglePageApp.php:88-89 | the action looked up is the `action` field; a missing one is the key ""; a list raises the PHP `TypeError` |
| `SinglePage.Dispatch` | src/server/SinglePageApp.php:48-94 | GET answers 200 with the page; POST sets the body to `$_POST` and answers with the registered callback's response unchanged, or 400 ``Bad Request: `action=<name>` not found``; any other method is 405 |
| `SinglePage.SinglePageApp.constructor` | src/server/SinglePageApp.php:34-38 | the page is kept, the registry is empty |
| `SinglePage.SinglePageApp.AddPostAction` | src/server/SinglePageApp.php:105-114 | a callback whose parameter count is not 1 is refused with the registry unchanged; otherwise only that action's entry is set or overwritten and the app itself is returned for chaining; every registered callback has one parameter |
| `SinglePage.SinglePageApp.HandleRequest` | src/server/SinglePageApp.php:48-66 | stores the request and response `Dispatch` gives and returns the stored response (an error escaping `OnPost` leaves the response as it was); on a registry where every callback takes one parameter it keeps that so, and the callback that answers a POST was registered with exactly one parameter |
| `SinglePage.RegistrationIsLocal` | src/server/SinglePageApp.php:112 | registering an action changes the answer to no other action |
| `SinglePage.RegisteredActionAnswers` | src/server/SinglePageApp.php:89-90 | a registered action answers with its callback's response on the request carrying `$_POST` |
| `OAuth.Decide` | src/authorization/OAuthAuthorization.php:63-86 | a decode failure refuses with its message; revocation is checked first; no requested scopes grants an unrevoked token whatever its claims; with scopes, granted exactly when one requested scope is among the token's, refused with "token does not have required scopes" otherwise; a token without a `scopes` array makes the scope test throw |
| `OAuth.OAuthAuthorization.constructor` | src/authorization/OAuthAuthorization.php:49-52 | no error recorded |
| `OAuth.OAuthAuthorization.GetError` | src/authorization/OAuthAuthorization.php:94-97 | reads the stored `Error`; what it holds after each call is stated by `Authorize` |
| `OAuth.OAuthAuthorization.Authorize` | src/authorization/OAuthAuthorization.php:63-97 | clears `Error`, then returns what `Decide` decides; `GetError` afterwards is the refusal's message, or null after a grant or an escaped error |
| `OAuth.ScopelessTokenEscapes` | src/authorization/OAuthAuthorization.php:76-84 | a valid token without `scopes`, asked for a scope, throws out of `Authorize` |
| `OAuth.DecideCaught` | src/authorization/OAuthAuthorization.php:68-85 | never throws; grants exactly when the token decodes, is not revoked, and either no scope is requested or one requested scope is among the token's |
| `OAuth.CaughtAgrees` | src/authorization/OAuthAuthorization.php:68-85 | wherever the code returns, the caught decision is the same as the code's |

## Left out

- Process I/O: `App::CreateServerRequest` and `App::SendResponse`, reading `php://input` (its bytes are `Runtime.input`), `http_response_code`/`echo` in `Run` (the 404 answer is returned as a value), writing the uploaded file, and reading the public key.
- `parse_str`, `tempnam` and `ini_get('upload_tmp_dir')` are uninterpreted functions; `pathinfo` on the file name is folded into `tempnam`.
- `Http.Runtime`: `tempnam` is a fixed function of the client file name, so two uploads with the same file name under different fields get the same `tmp_name`; PHP's `tempnam` returns a fresh name on every call. No property here depends on the temporary names.
- Hooks and registered callbacks are functions of the stored request only; a PHP hook can also read `$_FILES` or the method's bucket from the globals, which the model does not pass to them.
- `JWT::decode` and `IsTokenRevoked` are oracles fixed when the authorizer is built.
- `AuthorizeRequest` is not part of this model; `CrudApp` takes it as an opaque predicate on the stored request. `App::WithAuthorization` is not part of this model either, so `Run` returns the authorization with the request instead of calling it.
- `Routing.Router.Run`: the 500 answer for an app that is not a `RestfulApp` is not modelled, because the tree holds apps of one type; `HandleRequest` and `SendResponse` on the app are left to the caller of the returned `Dispatched` outcome.
- The numeric-key overlap of apps and child segments in the PHP route array is not modelled: children and apps are separate fields. In PHP both live in one array, so an integer-like child segment moves the index `$Route[]` next uses (register `/a/5` before `/a` and the app for `/a` lands at key 6, so `Run('/a')` answers 404), and a request segment such as `0` at a node holding an app descends into the app object, after which `ResolveRoute`'s `?array` return type throws a `TypeError`.
- `App.GetPathParameter` matches `<resource>/` literally, so it assumes a resource name free of regular-expression metacharacters and of `/`, which the source interpolates into the pattern unescaped; `App.PathParameterFollowsResource` inherits that assumption.
- `OAuth.Decide`: scopes are compared by string equality; `in_array` compares loosely, so two numeric strings such as `1` and `01` also match in PHP.
- `Http.FormValue` is a string or a list of strings: the nested maps `parse_str` and `$_POST` build for `name[sub]=` fields are not representable, and the form-data maps do not keep PHP's key insertion order. No modelled operation depends on either.
- PHP's conversion of numeric-string array keys to integers is not modelled; lookups stay consistent because every key goes through the same conversion.
- The response helpers `JsonResponse`, `NoContentResponse` and `UnautorizedResponse`, and the getters `GetServerRequest` and `GetResponse`, which are the class fields themselves.
- Response reason phrases and headers; a response is a status and a body.
- The behaviour of the tests that targets a newer API (`AddHeaders`, JSON bodies, a `Run` that returns a response).

## Findings

| source | as written | input that shows it | evidently intended | confidence | as-written member | corrected member |
|---|---|---|---|---|---|---|
| src/authorization/OAuthAuthorization.php:77 | `in_array($Scope, $Decoded->scopes)` runs inside `catch (\Exception)`; a token without a `scopes` claim makes it raise a `TypeError`, which is not an `\Exception`, so `Authorize` throws | a valid, unrevoked token whose claims have no `scopes`, with requested scopes `['doc:read']` | `Authorize` returns false with `Error` set, as for every other failure | not executed; holds under PHP 8 (the source already relies on `str_starts_with`) | `OAuth.ScopelessTokenEscapes` | `OAuth.DecideCaught` |
