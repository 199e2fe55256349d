/**
 * The path router of src/server/Router.php. Routes form a prefix tree over
 * path segments; a `:name` segment is stored under the wildcard key `*`.
 * A request path is resolved one segment at a time, preferring a literal
 * child over the wildcard and never backtracking; each segment taken by
 * the wildcard is appended to the router's `PathParams`.
 *
 * In PHP a node is one array holding both the child segments (string keys)
 * and the registered apps (integer keys); here they are two fields.
 */
module Routing {
  import opened Wrappers
  import opened PhpStrings
  import opened Http

  /** A node of the route tree: the children by segment, and the apps
      registered for the path that ends here, in registration order. */
  datatype Trie<A> = Trie(children: map<string, Trie<A>>, apps: seq<A>)

  function Empty<A>(): Trie<A>
  {
    Trie(map[], [])
  }

  const Wildcard := "*"

  /** The child under `key`, or an empty node when there is none (the
      `$Route[$Part] = []` that `AddRoute` creates on its way down). */
  function Child<A>(t: Trie<A>, key: string): Trie<A>
  {
    if key in t.children then t.children[key] else Empty()
  }

  /** The node reached by following `keys` literally, empty where the path
      does not exist. */
  function Sub<A>(t: Trie<A>, keys: seq<string>): Trie<A>
    decreases |keys|
  {
    if keys == [] then t else Sub(Child(t, keys[0]), keys[1..])
  }

  /** `:name` segments become the wildcard key. */
  function Normalize(parts: seq<string>): (keys: seq<string>)
    ensures |keys| == |parts|
    ensures forall i :: 0 <= i < |parts| ==>
      keys[i] == if StartsWith(parts[i], ":") then Wildcard else parts[i]
  {
    if parts == [] then []
    else [if StartsWith(parts[0], ":") then Wildcard else parts[0]] + Normalize(parts[1..])
  }

  /** The segments of a route: the root prefixed, `//` collapsed once, split on `/`. */
  function RouteParts(root: string, path: string): seq<string>
  {
    Explode("/", Replace(root + "/" + path, "//", "/"))
  }

  /** The keys a route is stored under: its segments, placeholders normalised. */
  function RouteKeys(root: string, path: string): seq<string>
  {
    Normalize(RouteParts(root, path))
  }

  /** Registering `app` under `keys`: missing children are created and the
      app is appended at the end of the path. */
  function Insert<A>(t: Trie<A>, keys: seq<string>, app: A): Trie<A>
    decreases |keys|
  {
    if keys == [] then t.(apps := t.apps + [app])
    else t.(children := t.children[keys[0] := Insert(Child(t, keys[0]), keys[1..], app)])
  }

  /** The node a request path resolves to (`None` for PHP's null) and the
      segments the wildcard took on the way, including on a walk that fails. */
  datatype Resolution<A> = Resolution(node: Option<Trie<A>>, params: seq<string>)

  function Resolve<A>(t: Trie<A>, parts: seq<string>): Resolution<A>
    decreases |parts|
  {
    if parts == [] then Resolution(Some(t), [])
    else if parts[0] in t.children then Resolve(t.children[parts[0]], parts[1..])
    else if Wildcard in t.children then
      var r := Resolve(t.children[Wildcard], parts[1..]);
      Resolution(r.node, [parts[0]] + r.params)
    else Resolution(None, [])
  }

  /** The segments `ResolveRoute` walks: the path up to the first `?`, split on `/`. */
  function PathParts(path: string): seq<string>
  {
    Explode("/", Explode("?", path)[0])
  }

  /** What `Run` does with a request: answer 404 itself, or hand the
      request, with the path parameters attached, to an app. */
  datatype Outcome<A, G> =
    | Answered(response: Response)
    | Dispatched(app: A, request: Request, authorization: G)

  function NotFound(): Response
  {
    Response(404, "Not Found")
  }

  /** The first app of the resolved node takes the request; no node, or a
      node without apps, gives 404. */
  function Decide<A, G>(node: Option<Trie<A>>, params: seq<string>, ambient: Request, authorization: G): (r: Outcome<A, G>)
    ensures r.Answered? <==> node.None? || node.value.apps == []
    ensures r.Answered? ==> r.response.status == 404
    // the first app gets the request with only `PathParams` added, and the
    // router's authorization
    ensures r.Dispatched? ==>
      && r.app == node.value.apps[0]
      && r.request == ambient.(attributes := r.request.attributes)
      && r.request.attributes == ambient.attributes["PathParams" := Strs(params)]
      && r.authorization == authorization
  {
    if node.None? || node.value.apps == [] then Answered(NotFound())
    else
      var request := ambient.(attributes := ambient.attributes["PathParams" := Strs(params)]);
      Dispatched(node.value.apps[0], request, authorization)
  }

  /** `spine` is the walk from `spine[0]` along `keys`, one node per step. */
  ghost predicate Walk<A>(spine: seq<Trie<A>>, keys: seq<string>)
  {
    |spine| == |keys| + 1 && forall k :: 0 <= k < |keys| ==> spine[k + 1] == Child(spine[k], keys[k])
  }

  lemma WalkStep<A>(spine: seq<Trie<A>>, keys: seq<string>, key: string)
    requires Walk(spine, keys)
    ensures Walk(spine + [Child(spine[|keys|], key)], keys + [key])
  {
    var spine', keys' := spine + [Child(spine[|keys|], key)], keys + [key];
    forall k | 0 <= k < |keys'|
      ensures spine'[k + 1] == Child(spine'[k], keys'[k])
    {
      if k < |keys| {
        assert spine'[k + 1] == spine[k + 1] && spine'[k] == spine[k] && keys'[k] == keys[k];
      }
    }
  }

  /** The descent of `AddRoute`: each segment, `:name` turned into `*`, and
      the node reached after each step, missing children read as empty. */
  method Descend<A>(t: Trie<A>, parts: seq<string>) returns (keys: seq<string>, spine: seq<Trie<A>>)
    ensures keys == Normalize(parts)
    ensures Walk(spine, keys) && spine[0] == t
  {
    ghost var normalized := Normalize(parts);
    keys := [];
    spine := [t];
    var node := t;
    var i := 0;
    while i < |parts|
      invariant 0 <= i <= |parts|
      invariant |keys| == i && keys == normalized[..i]
      invariant Walk(spine, keys) && spine[0] == t && node == spine[i]
    {
      var part := parts[i];
      if StartsWith(part, ":") {
        part := Wildcard;
      }
      assert normalized[i] == part;
      assert normalized[..i + 1] == normalized[..i] + [part];
      WalkStep(spine, keys, part);
      node := Child(node, part);
      keys := keys + [part];
      spine := spine + [node];
      i := i + 1;
    }
    assert keys == normalized;
  }

  /** The write-back of `AddRoute`: the app appended to the last node of the
      descent, and every node above it given its updated child. */
  method AppendAlong<A>(spine: seq<Trie<A>>, keys: seq<string>, app: A) returns (t: Trie<A>)
    requires Walk(spine, keys)
    ensures t == Insert(spine[0], keys, app)
  {
    var last := spine[|keys|];
    t := last.(apps := last.apps + [app]);
    var j := |keys|;
    while j > 0
      invariant 0 <= j <= |keys|
      invariant t == Insert(spine[j], keys[j..], app)
    {
      j := j - 1;
      assert keys[j..][1..] == keys[j + 1..];
      t := spine[j].(children := spine[j].children[keys[j] := t]);
    }
  }

  class Router<A, G> {
    var routes: Trie<A>
    /** Every segment any resolution has taken by the wildcard; never cleared. */
    var pathParams: seq<string>
    /** `None` until `WithAuthorization` has set the typed property. */
    var authorization: Option<G>
    const root: string

    constructor (root: string)
      ensures this.root == root && routes == Empty() && pathParams == [] && authorization == None
    {
      this.root := root;
      routes := Empty();
      pathParams := [];
      authorization := None;
    }

    method WithAuthorization(authorization: G)
      modifies this`authorization
      ensures this.authorization == Some(authorization)
    {
      this.authorization := Some(authorization);
    }

    /** Walks down the tree along the normalised segments, then rebuilds the
        path bottom-up with the app appended to the last node. */
    method AddRoute(path: string, app: A)
      modifies this`routes
      ensures routes == Insert(old(routes), RouteKeys(root, path), app)
    {
      var parts := RouteParts(root, path);
      var keys, spine := Descend(routes, parts);
      routes := AppendAlong(spine, keys, app);
    }

    /** Walks the tree from the root along the request path; a segment with
        no literal child goes to the wildcard and is recorded. */
    method ResolveRoute(path: string) returns (node: Option<Trie<A>>)
      modifies this`pathParams
      ensures var r := Resolve(routes, PathParts(path));
        node == r.node && pathParams == old(pathParams) + r.params
    {
      var parts := PathParts(path);
      var cursor := routes;
      var i := 0;
      while i < |parts|
        invariant 0 <= i <= |parts|
        invariant var r := Resolve(routes, parts); var rest := Resolve(cursor, parts[i..]);
          && r.node == rest.node
          && old(pathParams) + r.params == pathParams + rest.params
      {
        var part := parts[i];
        assert parts[i..][1..] == parts[i + 1..];
        if part !in cursor.children {
          if Wildcard in cursor.children {
            ghost var rest := Resolve(cursor.children[Wildcard], parts[i + 1..]);
            assert pathParams + ([part] + rest.params) == (pathParams + [part]) + rest.params;
            cursor := cursor.children[Wildcard];
            pathParams := pathParams + [part];
            i := i + 1;
            continue;
          } else {
            return None;
          }
        }
        cursor := cursor.children[part];
        i := i + 1;
      }
      return Some(cursor);
    }

    /** Collapses `//` in the request URI, resolves it, and either answers
        404 "Not Found" or dispatches to the first app of the node. */
    method Run(uri: string, ambient: Request) returns (outcome: Outcome<A, G>)
      requires authorization.Some?
      modifies this`pathParams
      ensures var r := Resolve(routes, PathParts(Replace(uri, "//", "/")));
        && pathParams == old(pathParams) + r.params
        && outcome == Decide(r.node, pathParams, ambient, authorization.value)
    {
      var path := Replace(uri, "//", "/");
      var creator := ResolveRoute(path);
      if creator.None? || creator.value.apps == [] {
        return Answered(NotFound());
      }
      var request := ambient.(attributes := ambient.attributes["PathParams" := Strs(pathParams)]);
      return Dispatched(creator.value.apps[0], request, authorization.value);
    }
  }

  // ---------------------------------------------------------------------
  // Properties of the route table
  // ---------------------------------------------------------------------

  /** Segments that are equal or both placeholders give the same keys, so
      `/user/:id` and `/user/:name` reach the same node. */
  lemma PlaceholdersShareKeys(p: seq<string>, q: seq<string>)
    requires |p| == |q|
    requires forall i :: 0 <= i < |p| ==> p[i] == q[i] || (StartsWith(p[i], ":") && StartsWith(q[i], ":"))
    ensures Normalize(p) == Normalize(q)
  {
    assert forall i :: 0 <= i < |p| ==> Normalize(p)[i] == Normalize(q)[i];
  }

  /** Registering appends the app to the node at the end of the path and
      leaves that node's children alone. */
  lemma {:induction false} InsertReaches<A>(t: Trie<A>, keys: seq<string>, app: A)
    ensures Sub(Insert(t, keys, app), keys) == Sub(t, keys).(apps := Sub(t, keys).apps + [app])
    decreases |keys|
  {
    if keys != [] {
      InsertReaches(Child(t, keys[0]), keys[1..], app);
    }
  }

  /** Registering leaves the apps of every other path unchanged. */
  lemma {:induction false} InsertKeepsOthers<A>(t: Trie<A>, keys: seq<string>, app: A, other: seq<string>)
    requires other != keys
    ensures Sub(Insert(t, keys, app), other).apps == Sub(t, other).apps
    decreases |keys|
  {
    var t' := Insert(t, keys, app);
    if other == [] {
    } else if keys == [] {
      assert Child(t', other[0]) == Child(t, other[0]);
    } else if other[0] != keys[0] {
      assert Child(t', other[0]) == Child(t, other[0]);
    } else {
      InsertKeepsOthers(Child(t, keys[0]), keys[1..], app, other[1..]);
    }
  }

  /** Registering a path again keeps the app `Run` dispatches to: the first one. */
  lemma FirstWins<A>(t: Trie<A>, keys: seq<string>, app: A)
    requires Sub(t, keys).apps != []
    ensures Sub(Insert(t, keys, app), keys).apps != []
    ensures Sub(Insert(t, keys, app), keys).apps[0] == Sub(t, keys).apps[0]
  {
    InsertReaches(t, keys, app);
  }

  /** Every segment of the path exists as a literal child. */
  predicate Present<A>(t: Trie<A>, keys: seq<string>)
    decreases |keys|
  {
    keys == [] || (keys[0] in t.children && Present(t.children[keys[0]], keys[1..]))
  }

  lemma {:induction false} InsertPresent<A>(t: Trie<A>, keys: seq<string>, app: A)
    ensures Present(Insert(t, keys, app), keys)
    decreases |keys|
  {
    if keys != [] {
      InsertPresent(Child(t, keys[0]), keys[1..], app);
    }
  }

  /** A path that exists literally resolves to its node without captures. */
  lemma {:induction false} ResolvePresent<A>(t: Trie<A>, parts: seq<string>)
    requires Present(t, parts)
    ensures Resolve(t, parts) == Resolution(Some(Sub(t, parts)), [])
    decreases |parts|
  {
    if parts != [] {
      ResolvePresent(t.children[parts[0]], parts[1..]);
    }
  }

  /** The keys a route was registered under resolve to its node, which now
      ends with the app. */
  lemma RegisteredResolves<A>(t: Trie<A>, keys: seq<string>, app: A)
    ensures var n := Sub(t, keys);
      Resolve(Insert(t, keys, app), keys) == Resolution(Some(n.(apps := n.apps + [app])), [])
  {
    InsertPresent(t, keys, app);
    ResolvePresent(Insert(t, keys, app), keys);
    InsertReaches(t, keys, app);
  }

  /** The node holding a single app and nothing below it. */
  function Leaf<A>(app: A): Trie<A>
  {
    Trie(map[], [app])
  }

  /** A request path fits route keys segment by segment, `*` fitting anything. */
  predicate Matches(keys: seq<string>, parts: seq<string>)
  {
    |keys| == |parts| && forall i :: 0 <= i < |keys| ==> keys[i] == parts[i] || keys[i] == Wildcard
  }

  /** The segments a matching path hands to the wildcard, left to right; a
      literal `*` in the request is taken as a literal. */
  function Captures(keys: seq<string>, parts: seq<string>): seq<string>
    requires |keys| == |parts|
    decreases |keys|
  {
    if keys == [] then []
    else (if keys[0] == parts[0] then [] else [parts[0]]) + Captures(keys[1..], parts[1..])
  }

  lemma MatchesCons(keys: seq<string>, parts: seq<string>)
    requires keys != [] && parts != []
    ensures Matches(keys, parts) <==>
      (keys[0] == parts[0] || keys[0] == Wildcard) && Matches(keys[1..], parts[1..])
  {
    if (keys[0] == parts[0] || keys[0] == Wildcard) && Matches(keys[1..], parts[1..]) {
      forall i | 0 < i < |keys|
        ensures keys[i] == parts[i] || keys[i] == Wildcard
      {
        assert keys[1..][i - 1] == keys[i] && parts[1..][i - 1] == parts[i];
      }
    }
  }

  /** With one route registered, a request reaches its app exactly when it
      matches the route, and the wildcard then captures exactly the
      segments it consumed. */
  lemma {:induction false} SingleRoute<A>(keys: seq<string>, parts: seq<string>, app: A)
    ensures var r := Resolve(Insert(Empty(), keys, app), parts);
      && (r.node == Some(Leaf(app)) <==> Matches(keys, parts))
      && (Matches(keys, parts) ==> r.params == Captures(keys, parts))
    decreases |parts|
  {
    var t := Insert(Empty<A>(), keys, app);
    if parts == [] {
      if keys != [] {
        assert keys[0] in t.children && t.children != Leaf(app).children;
      } else {
        assert t == Leaf(app);
      }
    } else if keys == [] {
      assert t == Leaf(app);
    } else {
      MatchesCons(keys, parts);
      assert t.children == map[keys[0] := Insert(Empty(), keys[1..], app)];
      SingleRoute(keys[1..], parts[1..], app);
    }
  }

  /** A literal child is preferred over the wildcard: with `*` and `me`
      registered, `me` goes to the literal route and captures nothing. One
      instance of `ResolvePresent`, written out for a concrete tree. */
  lemma LiteralPreferred<A>(a: A, b: A)
    ensures Resolve(Insert(Insert(Empty(), [Wildcard], a), ["me"], b), ["me"])
      == Resolution(Some(Leaf(b)), [])
  {
    var t1 := Insert(Empty(), [Wildcard], a);
    assert t1.children.Keys == {Wildcard};
    assert Child(t1, "me") == Empty();
    var t := Insert(t1, ["me"], b);
    assert t.children["me"] == Leaf(b);
  }

  /** There is no backtracking: with `x/y` and `:v/z` registered, `x/z`
      takes the literal `x` and fails, though `:v/z` would have matched. A
      concrete instance of the step `MatchesCons` states in general. */
  lemma NoBacktracking<A>(a: A, b: A)
    ensures Matches([Wildcard, "z"], ["x", "z"])
    ensures Resolve(Insert(Insert(Empty(), ["x", "y"], a), [Wildcard, "z"], b), ["x", "z"]).node == None
  {
    var t := Insert(Insert(Empty(), ["x", "y"], a), [Wildcard, "z"], b);
    assert "x" in t.children;
    assert t.children["x"].children.Keys == {"y"};
  }

  /** `ResolveRoute` ignores the query string. */
  lemma QueryIgnored(path: string, query: string)
    requires forall j :: 0 <= j < |path| ==> path[j] != '?'
    ensures PathParts(path + "?" + query) == PathParts(path)
  {
    var s := path + "?" + query;
    forall j | 0 <= j < |path|
      ensures s[j] != "?"[0]
    {
      assert s[j] == path[j];
    }
    NoMatchWhereFirstDiffers(s, "?", 0, |path|);
    ExplodeCons("?", path, query);
    NoMatchWhereFirstDiffers(path, "?", 0, |path|);
    ExplodeWhole("?", path);
  }
}
