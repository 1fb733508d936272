/** The path router (router/index.ts): route templates are compiled into a
    matcher and a parameter extractor, and `fetch` dispatches a request to
    the first route of its method that matches. Handlers and the fallback
    are opaque here: they are supplied as functions from which the router
    only passes values through. */
module Router {
  import opened Wrappers
  import opened Text
  import opened Http

  // ------------------------------------------------------------ templates

  /** `isSegmentParameter`. */
  predicate IsSegmentParameter(segment: string) {
    StartsWith(segment, ":")
  }

  /** The parameter name of a `:name` segment (`substring(1)`). */
  function ParameterName(segment: string): string {
    SubstringFrom(segment, 1)
  }

  /** `indexSegments`: the one-entry objects `{i: segments[i]}` spread into
      one object from left to right. */
  function IndexSegments(segments: seq<string>): (r: map<nat, string>)
    ensures forall i: nat :: i in r <==> i < |segments|
    ensures forall i: nat | i < |segments| :: r[i] == segments[i]
  {
    if |segments| == 0 then map[]
    else
      var prefix := segments[..|segments| - 1];
      var r := IndexSegments(prefix)[|segments| - 1 := segments[|segments| - 1]];
      assert forall i: nat | i < |segments| - 1 :: segments[i] == prefix[i];
      r
  }

  datatype Route<H> = Route(path: string, handler: H)

  /** A compiled route keeps the path and the handler and adds the template
      segments, from which the matcher and the extractor are defined. */
  datatype CompiledRoute<H> = CompiledRoute(path: string, handler: H, template: seq<string>)

  /** `compileRoute`: the template is the path split on '/'. */
  function CompileRoute<H>(route: Route<H>): (c: CompiledRoute<H>)
    ensures c.path == route.path && c.handler == route.handler
    ensures |c.template| >= 1 && Join(c.template, '/') == route.path
    ensures forall i | 0 <= i < |c.template| :: '/' !in c.template[i]
  {
    CompiledRoute(route.path, route.handler, Split(route.path, '/'))
  }

  /** `compileAllRoutes`: every method keeps its routes, each compiled, in
      declaration order. */
  function CompileAllRoutes<H>(routes: map<string, seq<Route<H>>>): (r: map<string, seq<CompiledRoute<H>>>)
    ensures r.Keys == routes.Keys
    ensures forall m | m in routes :: |r[m]| == |routes[m]|
    ensures forall m, i | m in routes && 0 <= i < |routes[m]| ::
              r[m][i].path == routes[m][i].path && r[m][i].handler == routes[m][i].handler
  {
    map m | m in routes :: seq(|routes[m]|, i requires 0 <= i < |routes[m]| => CompileRoute(routes[m][i]))
  }

  /** Each compiled route is its route compiled on its own. */
  lemma CompiledAt<H>(routes: map<string, seq<Route<H>>>, m: string, i: nat)
    requires m in routes && i < |routes[m]|
    ensures m in CompileAllRoutes(routes) && |CompileAllRoutes(routes)[m]| == |routes[m]|
    ensures CompileAllRoutes(routes)[m][i] == CompileRoute(routes[m][i])
  {
  }

  /** A path written as slash-free segments joined by '/' compiles to
      exactly those segments. */
  lemma CompileJoined<H>(route: Route<H>, segments: seq<string>)
    requires |segments| >= 1 && forall i | 0 <= i < |segments| :: '/' !in segments[i]
    requires route.path == Join(segments, '/')
    ensures CompileRoute(route) == CompiledRoute(route.path, route.handler, segments)
  {
    SplitJoin(segments, '/');
  }

  // ------------------------------------------------------------ matcher

  /** One position of the matcher: a parameter accepts any non-empty
      segment, anything else must be equal up to ASCII case. */
  predicate SegmentMatches(defined: string, segment: string) {
    (segment != "" && IsSegmentParameter(defined)) || EqualIgnoringCase(defined, segment)
  }

  /** The `every` loop of the matcher from position `i` on. */
  function MatchesFrom(template: seq<string>, segments: seq<string>, i: nat): (b: bool)
    requires |segments| == |template| && i <= |segments|
    ensures b <==> forall j | i <= j < |segments| :: SegmentMatches(template[j], segments[j])
    decreases |segments| - i
  {
    i == |segments| || (SegmentMatches(template[i], segments[i]) && MatchesFrom(template, segments, i + 1))
  }

  /** The matcher: the segment count equals the template's, and every
      position matches. */
  function Matches(template: seq<string>, segments: seq<string>): (b: bool)
    ensures b <==> |segments| == |template| &&
                   forall i | 0 <= i < |segments| :: SegmentMatches(template[i], segments[i])
  {
    |segments| == |template| && MatchesFrom(template, segments, 0)
  }

  // ------------------------------------------------------------ extractor

  /** The parameter names of template positions `i` onwards. */
  function ParameterNamesFrom(template: seq<string>, i: nat): set<string>
    requires i <= |template|
  {
    set j | i <= j < |template| && IsSegmentParameter(template[j]) :: ParameterName(template[j])
  }

  /** No parameter after position `j` has the same name as the one at `j`. */
  predicate LastWithItsName(template: seq<string>, j: nat)
    requires j < |template|
  {
    forall k | j < k < |template| :: !(IsSegmentParameter(template[k]) && ParameterName(template[k]) == ParameterName(template[j]))
  }

  /** The `reduce` of the extractor from position `i` on: one-entry objects
      for the parameter positions, spread left to right, so a later position
      overrides an earlier one of the same name. */
  function ParamsFrom(template: seq<string>, segments: seq<string>, i: nat): map<string, string>
    requires |template| <= |segments| && i <= |template|
    decreases |template| - i
  {
    if i == |template| then map[]
    else
      var here := if IsSegmentParameter(template[i]) then map[ParameterName(template[i]) := segments[i]] else map[];
      here + ParamsFrom(template, segments, i + 1)
  }

  /** `paramsExtractor`. The router calls it only after a match, so the
      segments are as many as the template's. */
  function ExtractParams(template: seq<string>, segments: seq<string>): (r: map<string, string>)
    requires |template| <= |segments|
    ensures r.Keys == ParameterNamesFrom(template, 0)
  {
    ParamsFromKeys(template, segments, 0);
    ParamsFrom(template, segments, 0)
  }

  /** The extractor has one key per parameter position. */
  lemma {:induction false} ParamsFromKeys(template: seq<string>, segments: seq<string>, i: nat)
    requires |template| <= |segments| && i <= |template|
    ensures ParamsFrom(template, segments, i).Keys == ParameterNamesFrom(template, i)
    decreases |template| - i
  {
    if i < |template| {
      ParamsFromKeys(template, segments, i + 1);
    }
  }

  /** The value of a parameter is the segment at the last position with
      its name. */
  lemma {:induction false} ParamsFromAt(template: seq<string>, segments: seq<string>, i: nat, j: nat)
    requires |template| <= |segments| && i <= j < |template|
    requires IsSegmentParameter(template[j]) && LastWithItsName(template, j)
    ensures ParameterName(template[j]) in ParamsFrom(template, segments, i)
    ensures ParamsFrom(template, segments, i)[ParameterName(template[j])] == segments[j]
    decreases |template| - i
  {
    var name := ParameterName(template[j]);
    var rest := ParamsFrom(template, segments, i + 1);
    var here := if IsSegmentParameter(template[i]) then map[ParameterName(template[i]) := segments[i]] else map[];
    assert ParamsFrom(template, segments, i) == here + rest;
    if i < j {
      ParamsFromAt(template, segments, i + 1, j);
    } else {
      ParamsFromKeys(template, segments, i + 1);
      assert name !in ParameterNamesFrom(template, i + 1);
    }
  }

  lemma ExtractParamsAt(template: seq<string>, segments: seq<string>, j: nat)
    requires |template| <= |segments| && j < |template|
    requires IsSegmentParameter(template[j]) && LastWithItsName(template, j)
    ensures ParameterName(template[j]) in ExtractParams(template, segments)
    ensures ExtractParams(template, segments)[ParameterName(template[j])] == segments[j]
  {
    ParamsFromAt(template, segments, 0, j);
  }

  // ------------------------------------------------------------ dispatch

  /** The request as the router reads it. */
  datatype Request = Request(verb: string, url: string)

  /** A handler's (or the fallback's) promise either resolves to a response
      or rejects. */
  datatype Outcome = Returned(response: Response) | Thrown

  const AllowOrigin: string := "access-control-allow-origin"
  const AllowMethods: string := "access-control-allow-methods"

  /** The two CORS headers set on a matched handler's response. */
  function WithCors(response: Response, verb: string): (r: Response)
    ensures r.status == response.status && r.body == response.body
    ensures r.headers.Keys == response.headers.Keys + {AllowOrigin, AllowMethods}
    ensures AllowOrigin in r.headers && r.headers[AllowOrigin] == "*"
    ensures AllowMethods in r.headers && r.headers[AllowMethods] == verb + ",HEAD,OPTIONS"
    ensures forall h | h in response.headers && h != AllowOrigin && h != AllowMethods :: r.headers[h] == response.headers[h]
  {
    response.(headers := response.headers[AllowOrigin := "*"][AllowMethods := verb + ",HEAD,OPTIONS"])
  }

  /** A handler's outcome as `fetch` passes it on. */
  function Decorate(outcome: Outcome, verb: string): Outcome {
    match outcome
    case Returned(response) => Returned(WithCors(response, verb))
    case Thrown => Thrown
  }

  /** Drops one trailing '/' from the request URL. */
  function StripTrailingSlash(url: string): (r: string)
    ensures url == r || (url == r + "/")
    ensures |url| > 0 && url[|url| - 1] == '/' ==> |r| == |url| - 1
  {
    if |url| > 0 && url[|url| - 1] == '/' then url[..|url| - 1] else url
  }

  /** The request's path segments: the pathname after its leading '/',
      split on '/', empty segments dropped. */
  function Segments(pathname: string): (r: seq<string>)
    ensures forall i | 0 <= i < |r| :: r[i] != "" && '/' !in r[i]
    ensures forall s :: s in r <==> s != "" && s in Split(SubstringFrom(pathname, 1), '/')
  {
    var parts := Split(SubstringFrom(pathname, 1), '/');
    var r := NonEmpty(parts);
    assert forall i | 0 <= i < |r| :: r[i] in parts;
    r
  }

  /** A pathname built from non-empty, slash-free segments yields exactly
      those segments. */
  lemma SegmentsOfJoin(segments: seq<string>)
    requires |segments| >= 1
    requires forall i | 0 <= i < |segments| :: segments[i] != "" && '/' !in segments[i]
    ensures Segments("/" + Join(segments, '/')) == segments
  {
    assert SubstringFrom("/" + Join(segments, '/'), 1) == Join(segments, '/');
    SplitJoin(segments, '/');
    NonEmptyKeeps(segments);
  }

  /** A trailing '/' on the pathname does not change its segments. */
  lemma SegmentsTrailingSlash(pathname: string)
    requires |pathname| >= 1
    ensures Segments(pathname + "/") == Segments(pathname)
  {
    var rest := SubstringFrom(pathname, 1);
    assert SubstringFrom(pathname + "/", 1) == rest + ['/'];
    SplitAppendSep(rest, '/');
    NonEmptyAppend(Split(rest, '/'), [""]);
  }

  /** The `for` loop over the method's routes: the first route whose
      matcher accepts is invoked with the extracted parameters, and its
      response gains the CORS headers; with no match, the fallback. */
  function Dispatch<H>(routes: seq<CompiledRoute<H>>, verb: string, segments: seq<string>,
                       invoke: (H, map<string, string>) -> Outcome, fallback: string -> Outcome, url: string): Outcome
  {
    if |routes| == 0 then fallback(url)
    else if Matches(routes[0].template, segments) then
      Decorate(invoke(routes[0].handler, ExtractParams(routes[0].template, segments)), verb)
    else Dispatch(routes[1..], verb, segments, invoke, fallback, url)
  }

  /** Dispatch invokes the first matching route and consults no later one. */
  lemma {:induction false} DispatchFirstMatch<H>(routes: seq<CompiledRoute<H>>, verb: string, segments: seq<string>,
                                                 invoke: (H, map<string, string>) -> Outcome,
                                                 fallback: string -> Outcome, url: string, i: nat)
    requires i < |routes| && Matches(routes[i].template, segments)
    requires forall j | 0 <= j < i :: !Matches(routes[j].template, segments)
    ensures Dispatch(routes, verb, segments, invoke, fallback, url) ==
              Decorate(invoke(routes[i].handler, ExtractParams(routes[i].template, segments)), verb)
  {
    if i > 0 {
      assert !Matches(routes[0].template, segments);
      assert routes[1..][i - 1] == routes[i];
      DispatchFirstMatch(routes[1..], verb, segments, invoke, fallback, url, i - 1);
    }
  }

  /** With no matching route, dispatch reaches the fallback. */
  lemma {:induction false} DispatchNoMatch<H>(routes: seq<CompiledRoute<H>>, verb: string, segments: seq<string>,
                                              invoke: (H, map<string, string>) -> Outcome,
                                              fallback: string -> Outcome, url: string)
    requires forall j | 0 <= j < |routes| :: !Matches(routes[j].template, segments)
    ensures Dispatch(routes, verb, segments, invoke, fallback, url) == fallback(url)
  {
    if |routes| > 0 {
      assert !Matches(routes[0].template, segments);
      assert forall j | 0 <= j < |routes| - 1 :: routes[1..][j] == routes[j + 1];
      DispatchNoMatch(routes[1..], verb, segments, invoke, fallback, url);
    }
  }

  const NotFound: Response := Bare(404)

  /** The members of `Object.prototype` that `compiledRoutes[method]` finds
      for a method without an entry of its own, since `compiledRoutes` is a
      plain object built from `{}`. `Some(n)` is a function whose `length`
      is n; `None` is `__proto__`, which finds `Object.prototype` itself, an
      object with no `length`. */
  const ObjectPrototypeMembers: map<string, Option<nat>> := map[
    "constructor" := Some(1), "hasOwnProperty" := Some(1), "isPrototypeOf" := Some(1),
    "propertyIsEnumerable" := Some(1), "toString" := Some(0), "toLocaleString" := Some(0),
    "valueOf" := Some(0), "__defineGetter__" := Some(2), "__defineSetter__" := Some(2),
    "__lookupGetter__" := Some(1), "__lookupSetter__" := Some(1), "__proto__" := None]

  /** An inherited member that passes the `!routesForMethod ||
      routesForMethod.length === 0` test: truthy, with a length other than
      0. The `for...of` over it then throws, since it is not iterable. */
  predicate InheritedNonEmpty(verb: string) {
    verb in ObjectPrototypeMembers && ObjectPrototypeMembers[verb] != Some(0)
  }

  /** `fetch`. `pathname` is the pathname of the URL parsed from the
      stripped request URL. A non-GET method whose lookup finds nothing, an
      empty list or a zero-length inherited function gets a bare 404; a GET
      with no entry iterates over `undefined` and throws, and so does any
      method whose lookup finds a non-empty inherited member. */
  function Fetch<H>(compiled: map<string, seq<CompiledRoute<H>>>, request: Request, pathname: string -> string,
                    invoke: (H, map<string, string>) -> Outcome, fallback: string -> Outcome): (r: Outcome)
    ensures request.verb != "GET" && request.verb in compiled && |compiled[request.verb]| == 0 ==>
              r == Returned(NotFound)
    ensures request.verb != "GET" && request.verb !in compiled && !InheritedNonEmpty(request.verb) ==>
              r == Returned(NotFound)
    ensures request.verb !in compiled && (request.verb == "GET" || InheritedNonEmpty(request.verb)) ==>
              r == Thrown
  {
    var url := StripTrailingSlash(request.url);
    var segments := Segments(pathname(url));
    if request.verb in compiled then
      if |compiled[request.verb]| == 0 && request.verb != "GET" then Returned(NotFound)
      else Dispatch(compiled[request.verb], request.verb, segments, invoke, fallback, url)
    else if InheritedNonEmpty(request.verb) || request.verb == "GET" then Thrown
    else Returned(NotFound)
  }

  /** A non-GET method with no routes of its own gets a bare 404, unless
      its lookup finds a non-empty inherited member, which throws and is
      answered by the error hook with a bare 500. */
  lemma FetchUnrouted<H>(compiled: map<string, seq<CompiledRoute<H>>>, request: Request, pathname: string -> string,
                         invoke: (H, map<string, string>) -> Outcome, fallback: string -> Outcome)
    requires request.verb != "GET"
    requires request.verb in compiled ==> |compiled[request.verb]| == 0
    ensures Fetch(compiled, request, pathname, invoke, fallback) ==
              if InheritedNonEmpty(request.verb) && request.verb !in compiled then Thrown else Returned(NotFound)
    ensures Serve(Fetch(compiled, request, pathname, invoke, fallback)) ==
              if InheritedNonEmpty(request.verb) && request.verb !in compiled then InternalServerError else NotFound
  {
  }

  /** A method with routes, or GET with an entry, is dispatched over its
      routes with the request's segments. */
  lemma FetchDispatches<H>(compiled: map<string, seq<CompiledRoute<H>>>, request: Request, pathname: string -> string,
                           invoke: (H, map<string, string>) -> Outcome, fallback: string -> Outcome)
    requires request.verb in compiled && (|compiled[request.verb]| > 0 || request.verb == "GET")
    ensures var url := StripTrailingSlash(request.url);
            Fetch(compiled, request, pathname, invoke, fallback) ==
              Dispatch(compiled[request.verb], request.verb, Segments(pathname(url)), invoke, fallback, url)
  {
  }

  const InternalServerError: Response := Bare(500)

  /** The `error` hook the server calls when `fetch` rejects: a bare 500. */
  function Serve(outcome: Outcome): (r: Response)
    ensures outcome.Thrown? ==> r == InternalServerError
    ensures outcome.Returned? ==> r == outcome.response
  {
    match outcome
    case Returned(response) => response
    case Thrown => InternalServerError
  }
}
