/** The route table the server registers (index.ts) and the router's unit
    tests (router/index.test.ts), stated as facts about the router model. */
module Routes {
  import opened Text
  import opened Http
  import opened Router

  // ------------------------------------------------------------ unit tests

  /** The `isSegmentParameter` test. */
  lemma IsSegmentParameterExamples()
    ensures !IsSegmentParameter("segment")
    ensures IsSegmentParameter(":segment")
  {
    assert "segment"[..1] == ['s'];
  }

  /** The `indexSegments` test, first case. */
  lemma IndexSegmentsShort()
    ensures IndexSegments(["my", "full", "path"]) == map[0 := "my", 1 := "full", 2 := "path"]
  {
    var a := IndexSegments(["my", "full", "path"]);
    assert a.Keys == {0, 1, 2};
  }

  /** The `indexSegments` test, second case. */
  lemma IndexSegmentsLong()
    ensures IndexSegments(["my", "full", "path", "with", ":parameter"]) ==
              map[0 := "my", 1 := "full", 2 := "path", 3 := "with", 4 := ":parameter"]
  {
    var b := IndexSegments(["my", "full", "path", "with", ":parameter"]);
    assert b.Keys == {0, 1, 2, 3, 4};
  }

  const TestTemplate: seq<string> := ["api", "test", ":parameter"]

  /** The `compileRoute` test, first half: the compiled route keeps the
      path and the handler, and its template is the path's segments. */
  lemma CompileRouteExample<H>(route: Route<H>)
    requires route.path == "api/test/:parameter"
    ensures CompileRoute(route) == CompiledRoute(route.path, route.handler, TestTemplate)
  {
    assert route.path == Join(TestTemplate, '/');
    CompileJoined(route, TestTemplate);
  }

  /** The `compileRoute` test, second half: the parameter is extracted, and
      the matcher accepts exactly the matching segments. */
  lemma TestTemplateBehaviour()
    ensures ExtractParams(TestTemplate, ["api", "test", "my_value"]) == map["parameter" := "my_value"]
    ensures Matches(TestTemplate, ["api", "test", "my_value"])
    ensures !Matches(TestTemplate, ["api", "invalid", "my_value"])
    ensures !Matches(TestTemplate, ["api", "test"])
  {
    var t := TestTemplate;
    var s := ["api", "test", "my_value"];
    assert !IsSegmentParameter(t[0]) by { assert t[0][..1] == ['a']; }
    assert !IsSegmentParameter(t[1]) by { assert t[1][..1] == ['t']; }
    assert IsSegmentParameter(t[2]) && ParameterName(t[2]) == "parameter";
    assert ParamsFrom(t, s, 2) == map["parameter" := "my_value"];
    assert ParamsFrom(t, s, 1) == map["parameter" := "my_value"];
    assert SegmentMatches(t[0], s[0]) && SegmentMatches(t[1], s[1]) && SegmentMatches(t[2], s[2]);
    assert |Lower("test")| != |Lower("invalid")|;
    assert !SegmentMatches(t[1], ["api", "invalid", "my_value"][1]);
  }

  // ------------------------------------------------------------ the server's table

  datatype Endpoint = GetPasteHead | GetPaste | GetPasteMetadata | GetPasteFileList | GetPasteFileContent | CreatePaste

  const PasteTemplate: seq<string> := ["api", "paste"]
  const PasteIdTemplate: seq<string> := ["api", "paste", ":id"]
  const MetadataTemplate: seq<string> := ["api", "paste", ":id", "metadata"]
  const FileListTemplate: seq<string> := ["api", "paste", ":id", "file"]
  const FileContentTemplate: seq<string> := ["api", "paste", ":id", "file", ":file"]

  /** The table index.ts hands to `newRouter`, each path written as the
      join of its segments (`TablePaths` spells the paths out). */
  const Table: map<string, seq<Route<Endpoint>>> := map[
    "HEAD" := [Route(Join(PasteIdTemplate, '/'), GetPasteHead)],
    "GET" := [
      Route(Join(PasteIdTemplate, '/'), GetPaste),
      Route(Join(MetadataTemplate, '/'), GetPasteMetadata),
      Route(Join(FileListTemplate, '/'), GetPasteFileList),
      Route(Join(FileContentTemplate, '/'), GetPasteFileContent)],
    "POST" := [Route(Join(PasteTemplate, '/'), CreatePaste)],
    "PUT" := [],
    "DELETE" := [],
    "OPTIONS" := []]

  /** The paths of the table as index.ts writes them. */
  lemma TablePaths()
    ensures Join(PasteTemplate, '/') == "api/paste"
    ensures Join(PasteIdTemplate, '/') == "api/paste/:id"
    ensures Join(MetadataTemplate, '/') == "api/paste/:id/metadata"
    ensures Join(FileListTemplate, '/') == "api/paste/:id/file"
    ensures Join(FileContentTemplate, '/') == "api/paste/:id/file/:file"
  {
    PastePath();
    PasteIdPath();
    MetadataPath();
    FileListPath();
    FileContentPath();
  }

  lemma PastePath() ensures Join(PasteTemplate, '/') == "api/paste" {}
  lemma PasteIdPath() ensures Join(PasteIdTemplate, '/') == "api/paste/:id" {}
  lemma MetadataPath() ensures Join(MetadataTemplate, '/') == "api/paste/:id/metadata" {}
  lemma FileListPath() ensures Join(FileListTemplate, '/') == "api/paste/:id/file" {}
  lemma FileContentPath() ensures Join(FileContentTemplate, '/') == "api/paste/:id/file/:file" {}

  /** Compiling the table's route `m`, `i` keeps its handler and gives
      `template`. */
  lemma CompilesTo(m: string, i: nat, template: seq<string>)
    requires m in Table && i < |Table[m]|
    requires |template| >= 1 && forall k | 0 <= k < |template| :: '/' !in template[k]
    requires Table[m][i].path == Join(template, '/')
    ensures m in CompileAllRoutes(Table) && |CompileAllRoutes(Table)[m]| == |Table[m]|
    ensures CompileAllRoutes(Table)[m][i].template == template
    ensures CompileAllRoutes(Table)[m][i].handler == Table[m][i].handler
  {
    CompiledAt(Table, m, i);
    CompileJoined(Table[m][i], template);
  }

  lemma CompiledGetPaste()
    ensures "GET" in CompileAllRoutes(Table) && |CompileAllRoutes(Table)["GET"]| == 4
    ensures CompileAllRoutes(Table)["GET"][0].template == PasteIdTemplate
    ensures CompileAllRoutes(Table)["GET"][0].handler == GetPaste
  {
    assert Table["GET"][0] == Route(Join(PasteIdTemplate, '/'), GetPaste);
    CompilesTo("GET", 0, PasteIdTemplate);
  }

  lemma CompiledGetMetadata()
    ensures "GET" in CompileAllRoutes(Table) && |CompileAllRoutes(Table)["GET"]| == 4
    ensures CompileAllRoutes(Table)["GET"][1].template == MetadataTemplate
    ensures CompileAllRoutes(Table)["GET"][1].handler == GetPasteMetadata
  {
    assert Table["GET"][1] == Route(Join(MetadataTemplate, '/'), GetPasteMetadata);
    CompilesTo("GET", 1, MetadataTemplate);
  }

  lemma CompiledGetFileList()
    ensures "GET" in CompileAllRoutes(Table) && |CompileAllRoutes(Table)["GET"]| == 4
    ensures CompileAllRoutes(Table)["GET"][2].template == FileListTemplate
    ensures CompileAllRoutes(Table)["GET"][2].handler == GetPasteFileList
  {
    assert Table["GET"][2] == Route(Join(FileListTemplate, '/'), GetPasteFileList);
    CompilesTo("GET", 2, FileListTemplate);
  }

  lemma CompiledGetFileContent()
    ensures "GET" in CompileAllRoutes(Table) && |CompileAllRoutes(Table)["GET"]| == 4
    ensures CompileAllRoutes(Table)["GET"][3].template == FileContentTemplate
    ensures CompileAllRoutes(Table)["GET"][3].handler == GetPasteFileContent
  {
    assert Table["GET"][3] == Route(Join(FileContentTemplate, '/'), GetPasteFileContent);
    CompilesTo("GET", 3, FileContentTemplate);
  }

  lemma CompiledHead()
    ensures "HEAD" in CompileAllRoutes(Table) && |CompileAllRoutes(Table)["HEAD"]| == 1
    ensures CompileAllRoutes(Table)["HEAD"][0].template == PasteIdTemplate
    ensures CompileAllRoutes(Table)["HEAD"][0].handler == GetPasteHead
  {
    CompilesTo("HEAD", 0, PasteIdTemplate);
  }

  lemma CompiledPost()
    ensures "POST" in CompileAllRoutes(Table) && |CompileAllRoutes(Table)["POST"]| == 1
    ensures CompileAllRoutes(Table)["POST"][0].template == PasteTemplate
    ensures CompileAllRoutes(Table)["POST"][0].handler == CreatePaste
  {
    CompilesTo("POST", 0, PasteTemplate);
  }

  // ------------------------------------------------------------ templates against requests

  /** `api/paste/<id>` matches the paste template up to case and yields
      `{id}`. */
  lemma PasteIdTemplateMatches(api: string, paste: string, id: string)
    requires id != ""
    requires EqualIgnoringCase(api, "api") && EqualIgnoringCase(paste, "paste")
    ensures Matches(PasteIdTemplate, [api, paste, id])
    ensures ExtractParams(PasteIdTemplate, [api, paste, id]) == map["id" := id]
  {
    var segments := [api, paste, id];
    var t := PasteIdTemplate;
    assert SegmentMatches(t[0], segments[0]) && SegmentMatches(t[1], segments[1]) && SegmentMatches(t[2], segments[2]);
    assert !IsSegmentParameter(t[0]) by { assert t[0][..1] == ['a']; }
    assert !IsSegmentParameter(t[1]) by { assert t[1][..1] == ['p']; }
    assert ParamsFrom(t, segments, 1) == map["id" := id];
  }

  /** `api/paste/<id>/metadata` matches only the metadata template of the
      first two. */
  lemma MetadataTemplateMatches(id: string)
    requires id != ""
    ensures !Matches(PasteIdTemplate, ["api", "paste", id, "metadata"])
    ensures Matches(MetadataTemplate, ["api", "paste", id, "metadata"])
    ensures ExtractParams(MetadataTemplate, ["api", "paste", id, "metadata"]) == map["id" := id]
  {
    var segments := ["api", "paste", id, "metadata"];
    var t := MetadataTemplate;
    assert !IsSegmentParameter(t[0]) by { assert t[0][..1] == ['a']; }
    assert !IsSegmentParameter(t[1]) by { assert t[1][..1] == ['p']; }
    assert !IsSegmentParameter(t[3]) by { assert t[3][..1] == ['m']; }
    assert SegmentMatches(t[0], segments[0]) && SegmentMatches(t[1], segments[1]) && SegmentMatches(t[2], segments[2]);
    assert SegmentMatches(t[3], segments[3]);
    assert ParamsFrom(t, segments, 3) == map[];
    assert ParamsFrom(t, segments, 1) == map["id" := id];
  }

  /** `api/paste/<id>/file` is rejected by the metadata template before it
      and matches the file-list template. */
  lemma FileListTemplateMatches(id: string)
    requires id != ""
    ensures !Matches(PasteIdTemplate, ["api", "paste", id, "file"])
    ensures !Matches(MetadataTemplate, ["api", "paste", id, "file"])
    ensures Matches(FileListTemplate, ["api", "paste", id, "file"])
    ensures ExtractParams(FileListTemplate, ["api", "paste", id, "file"]) == map["id" := id]
  {
    var segments := ["api", "paste", id, "file"];
    var t := FileListTemplate;
    assert !IsSegmentParameter(MetadataTemplate[3]) by { assert MetadataTemplate[3][..1] == ['m']; }
    assert |Lower("metadata")| != |Lower("file")|;
    assert !SegmentMatches(MetadataTemplate[3], segments[3]);
    assert !IsSegmentParameter(t[0]) by { assert t[0][..1] == ['a']; }
    assert !IsSegmentParameter(t[1]) by { assert t[1][..1] == ['p']; }
    assert !IsSegmentParameter(t[3]) by { assert t[3][..1] == ['f']; }
    assert SegmentMatches(t[0], segments[0]) && SegmentMatches(t[1], segments[1]) && SegmentMatches(t[2], segments[2]);
    assert SegmentMatches(t[3], segments[3]);
    assert ParamsFrom(t, segments, 3) == map[];
    assert ParamsFrom(t, segments, 1) == map["id" := id];
  }

  /** `api/paste/<id>/file/<name>` is longer than the other GET templates
      and matches the file-content template. */
  lemma FileContentTemplateMatches(id: string, file: string)
    requires id != "" && file != ""
    ensures !Matches(PasteIdTemplate, ["api", "paste", id, "file", file])
    ensures !Matches(MetadataTemplate, ["api", "paste", id, "file", file])
    ensures !Matches(FileListTemplate, ["api", "paste", id, "file", file])
    ensures Matches(FileContentTemplate, ["api", "paste", id, "file", file])
  {
    var segments := ["api", "paste", id, "file", file];
    var t := FileContentTemplate;
    assert SegmentMatches(t[0], segments[0]) && SegmentMatches(t[1], segments[1]) && SegmentMatches(t[2], segments[2]);
    assert SegmentMatches(t[3], segments[3]) && SegmentMatches(t[4], segments[4]);
  }

  /** The file-content template yields both parameters. */
  lemma FileContentTemplateParams(id: string, file: string)
    ensures ExtractParams(FileContentTemplate, ["api", "paste", id, "file", file]) == map["id" := id, "file" := file]
  {
    var segments := ["api", "paste", id, "file", file];
    var t := FileContentTemplate;
    assert !IsSegmentParameter(t[0]) by { assert t[0][..1] == ['a']; }
    assert !IsSegmentParameter(t[1]) by { assert t[1][..1] == ['p']; }
    assert !IsSegmentParameter(t[3]) by { assert t[3][..1] == ['f']; }
    assert ParamsFrom(t, segments, 4) == map["file" := file];
    assert ParamsFrom(t, segments, 3) == map["file" := file];
    assert ParamsFrom(t, segments, 2) == map["id" := id] + map["file" := file];
    assert ParamsFrom(t, segments, 1) == map["id" := id, "file" := file];
  }

  /** `api/paste` matches the paste template and yields no parameters. */
  lemma PasteTemplateMatches()
    ensures Matches(PasteTemplate, ["api", "paste"])
    ensures ExtractParams(PasteTemplate, ["api", "paste"]) == map[]
  {
    var t := PasteTemplate;
    assert !IsSegmentParameter(t[0]) by { assert t[0][..1] == ['a']; }
    assert !IsSegmentParameter(t[1]) by { assert t[1][..1] == ['p']; }
    assert SegmentMatches(t[0], "api") && SegmentMatches(t[1], "paste");
  }

  // ------------------------------------------------------------ dispatch

  /** The segments `fetch` computes for a request. */
  function RequestSegments(request: Request, pathname: string -> string): (r: seq<string>)
    ensures forall i | 0 <= i < |r| :: r[i] != ""
  {
    Segments(pathname(StripTrailingSlash(request.url)))
  }

  /** PUT, DELETE, OPTIONS and any other verb get a bare 404, and neither a
      handler nor the fallback runs, except a verb naming a non-empty member
      of `Object.prototype` (such as "constructor"), whose lookup throws. */
  lemma OtherVerbsNotFound(compiled: map<string, seq<CompiledRoute<Endpoint>>>, request: Request, pathname: string -> string,
                           invoke: (Endpoint, map<string, string>) -> Outcome, fallback: string -> Outcome)
    requires compiled == CompileAllRoutes(Table)
    requires request.verb != "HEAD" && request.verb != "GET" && request.verb != "POST"
    ensures Fetch(compiled, request, pathname, invoke, fallback) ==
              if InheritedNonEmpty(request.verb) then Thrown else Returned(NotFound)
    ensures Serve(Fetch(compiled, request, pathname, invoke, fallback)) ==
              if InheritedNonEmpty(request.verb) then InternalServerError else NotFound
  {
    OtherVerbsEmpty(compiled, request.verb);
    PrototypeNamesNotInTable(compiled, request.verb);
    FetchUnrouted(compiled, request, pathname, invoke, fallback);
  }

  /** No verb of the table names a member of `Object.prototype`. */
  lemma PrototypeNamesNotInTable(compiled: map<string, seq<CompiledRoute<Endpoint>>>, verb: string)
    requires compiled == CompileAllRoutes(Table)
    ensures verb in ObjectPrototypeMembers ==> verb !in compiled
  {
    TableVerbs();
    PrototypeNamesNotVerbs(verb);
  }

  lemma TableVerbs()
    ensures Table.Keys == {"HEAD", "GET", "POST", "PUT", "DELETE", "OPTIONS"}
  {
  }

  lemma PrototypeNamesNotVerbs(verb: string)
    ensures verb in ObjectPrototypeMembers ==> verb !in {"HEAD", "GET", "POST", "PUT", "DELETE", "OPTIONS"}
  {
  }

  /** The table's other verbs have empty route lists once compiled. */
  lemma OtherVerbsEmpty(compiled: map<string, seq<CompiledRoute<Endpoint>>>, verb: string)
    requires compiled == CompileAllRoutes(Table)
    requires verb != "HEAD" && verb != "GET" && verb != "POST"
    ensures verb in compiled ==> |compiled[verb]| == 0
  {
    if verb in compiled {
      assert verb == "PUT" || verb == "DELETE" || verb == "OPTIONS";
      assert |Table[verb]| == 0;
    }
  }

  /** The GET routes of the table, as compiled. */
  predicate ServerGetRoutes(routes: seq<CompiledRoute<Endpoint>>) {
    && |routes| == 4
    && routes[0].template == PasteIdTemplate && routes[0].handler == GetPaste
    && routes[1].template == MetadataTemplate && routes[1].handler == GetPasteMetadata
    && routes[2].template == FileListTemplate && routes[2].handler == GetPasteFileList
    && routes[3].template == FileContentTemplate && routes[3].handler == GetPasteFileContent
  }

  lemma CompiledGet(compiled: map<string, seq<CompiledRoute<Endpoint>>>)
    requires compiled == CompileAllRoutes(Table)
    ensures "GET" in compiled && ServerGetRoutes(compiled["GET"])
  {
    CompiledGetPaste();
    CompiledGetMetadata();
    CompiledGetFileList();
    CompiledGetFileContent();
  }

  /** `GET api/paste/<id>` reaches the paste endpoint with `{id}`; the
      literal segments are compared without regard to ASCII case. */
  lemma GetPasteRoute(compiled: map<string, seq<CompiledRoute<Endpoint>>>, request: Request, pathname: string -> string,
                      invoke: (Endpoint, map<string, string>) -> Outcome, fallback: string -> Outcome,
                      api: string, paste: string, id: string)
    requires compiled == CompileAllRoutes(Table)
    requires request.verb == "GET"
    requires RequestSegments(request, pathname) == [api, paste, id]
    requires EqualIgnoringCase(api, "api") && EqualIgnoringCase(paste, "paste")
    ensures Fetch(compiled, request, pathname, invoke, fallback) == Decorate(invoke(GetPaste, map["id" := id]), "GET")
  {
    var segments := RequestSegments(request, pathname);
    assert segments[2] == id;
    CompiledGet(compiled);
    FetchDispatches(compiled, request, pathname, invoke, fallback);
    DispatchPaste(compiled["GET"], segments, invoke, fallback, StripTrailingSlash(request.url), api, paste, id);
  }

  lemma DispatchPaste(routes: seq<CompiledRoute<Endpoint>>, segments: seq<string>,
                      invoke: (Endpoint, map<string, string>) -> Outcome, fallback: string -> Outcome, url: string,
                      api: string, paste: string, id: string)
    requires ServerGetRoutes(routes) && segments == [api, paste, id] && id != ""
    requires EqualIgnoringCase(api, "api") && EqualIgnoringCase(paste, "paste")
    ensures Dispatch(routes, "GET", segments, invoke, fallback, url) == Decorate(invoke(GetPaste, map["id" := id]), "GET")
  {
    PasteIdTemplateMatches(api, paste, id);
    DispatchFirstMatch(routes, "GET", segments, invoke, fallback, url, 0);
  }

  /** `GET api/paste/<id>/metadata` reaches the metadata endpoint. */
  lemma GetMetadataRoute(compiled: map<string, seq<CompiledRoute<Endpoint>>>, request: Request, pathname: string -> string,
                         invoke: (Endpoint, map<string, string>) -> Outcome, fallback: string -> Outcome, id: string)
    requires compiled == CompileAllRoutes(Table)
    requires request.verb == "GET"
    requires RequestSegments(request, pathname) == ["api", "paste", id, "metadata"]
    ensures Fetch(compiled, request, pathname, invoke, fallback) == Decorate(invoke(GetPasteMetadata, map["id" := id]), "GET")
  {
    var segments := RequestSegments(request, pathname);
    assert segments[2] == id;
    CompiledGet(compiled);
    FetchDispatches(compiled, request, pathname, invoke, fallback);
    DispatchMetadata(compiled["GET"], segments, invoke, fallback, StripTrailingSlash(request.url), id);
  }

  lemma DispatchMetadata(routes: seq<CompiledRoute<Endpoint>>, segments: seq<string>,
                         invoke: (Endpoint, map<string, string>) -> Outcome, fallback: string -> Outcome, url: string, id: string)
    requires ServerGetRoutes(routes) && segments == ["api", "paste", id, "metadata"] && id != ""
    ensures Dispatch(routes, "GET", segments, invoke, fallback, url) == Decorate(invoke(GetPasteMetadata, map["id" := id]), "GET")
  {
    MetadataTemplateMatches(id);
    DispatchFirstMatch(routes, "GET", segments, invoke, fallback, url, 1);
  }

  /** `GET api/paste/<id>/file` reaches the file-list endpoint: the
      metadata route before it does not match. */
  lemma GetFileListRoute(compiled: map<string, seq<CompiledRoute<Endpoint>>>, request: Request, pathname: string -> string,
                         invoke: (Endpoint, map<string, string>) -> Outcome, fallback: string -> Outcome, id: string)
    requires compiled == CompileAllRoutes(Table)
    requires request.verb == "GET"
    requires RequestSegments(request, pathname) == ["api", "paste", id, "file"]
    ensures Fetch(compiled, request, pathname, invoke, fallback) == Decorate(invoke(GetPasteFileList, map["id" := id]), "GET")
  {
    var segments := RequestSegments(request, pathname);
    assert segments[2] == id;
    CompiledGet(compiled);
    FetchDispatches(compiled, request, pathname, invoke, fallback);
    DispatchFileList(compiled["GET"], segments, invoke, fallback, StripTrailingSlash(request.url), id);
  }

  lemma DispatchFileList(routes: seq<CompiledRoute<Endpoint>>, segments: seq<string>,
                         invoke: (Endpoint, map<string, string>) -> Outcome, fallback: string -> Outcome, url: string, id: string)
    requires ServerGetRoutes(routes) && segments == ["api", "paste", id, "file"] && id != ""
    ensures Dispatch(routes, "GET", segments, invoke, fallback, url) == Decorate(invoke(GetPasteFileList, map["id" := id]), "GET")
  {
    FileListTemplateMatches(id);
    DispatchFirstMatch(routes, "GET", segments, invoke, fallback, url, 2);
  }

  /** `GET api/paste/<id>/file/<name>` reaches the file-content endpoint
      with both parameters. */
  lemma GetFileContentRoute(compiled: map<string, seq<CompiledRoute<Endpoint>>>, request: Request, pathname: string -> string,
                            invoke: (Endpoint, map<string, string>) -> Outcome, fallback: string -> Outcome,
                            id: string, file: string)
    requires compiled == CompileAllRoutes(Table)
    requires request.verb == "GET"
    requires RequestSegments(request, pathname) == ["api", "paste", id, "file", file]
    ensures Fetch(compiled, request, pathname, invoke, fallback) ==
              Decorate(invoke(GetPasteFileContent, map["id" := id, "file" := file]), "GET")
  {
    var segments := RequestSegments(request, pathname);
    assert segments[2] == id && segments[4] == file;
    CompiledGet(compiled);
    FetchDispatches(compiled, request, pathname, invoke, fallback);
    DispatchFileContent(compiled["GET"], segments, invoke, fallback, StripTrailingSlash(request.url), id, file);
  }

  lemma DispatchFileContent(routes: seq<CompiledRoute<Endpoint>>, segments: seq<string>,
                            invoke: (Endpoint, map<string, string>) -> Outcome, fallback: string -> Outcome, url: string,
                            id: string, file: string)
    requires ServerGetRoutes(routes) && segments == ["api", "paste", id, "file", file] && id != "" && file != ""
    ensures Dispatch(routes, "GET", segments, invoke, fallback, url) ==
              Decorate(invoke(GetPasteFileContent, map["id" := id, "file" := file]), "GET")
  {
    FileContentTemplateMatches(id, file);
    FileContentTemplateParams(id, file);
    DispatchFirstMatch(routes, "GET", segments, invoke, fallback, url, 3);
  }

  /** `HEAD api/paste/<id>` reaches the head endpoint. */
  lemma HeadPasteRoute(compiled: map<string, seq<CompiledRoute<Endpoint>>>, request: Request, pathname: string -> string,
                       invoke: (Endpoint, map<string, string>) -> Outcome, fallback: string -> Outcome, id: string)
    requires compiled == CompileAllRoutes(Table)
    requires request.verb == "HEAD"
    requires RequestSegments(request, pathname) == ["api", "paste", id]
    ensures Fetch(compiled, request, pathname, invoke, fallback) == Decorate(invoke(GetPasteHead, map["id" := id]), "HEAD")
  {
    var segments := RequestSegments(request, pathname);
    assert segments[2] == id;
    CompiledHead();
    FetchDispatches(compiled, request, pathname, invoke, fallback);
    DispatchHead(compiled["HEAD"], segments, invoke, fallback, StripTrailingSlash(request.url), id);
  }

  lemma DispatchHead(routes: seq<CompiledRoute<Endpoint>>, segments: seq<string>,
                     invoke: (Endpoint, map<string, string>) -> Outcome, fallback: string -> Outcome, url: string, id: string)
    requires |routes| == 1 && routes[0].template == PasteIdTemplate && routes[0].handler == GetPasteHead
    requires segments == ["api", "paste", id] && id != ""
    ensures Dispatch(routes, "HEAD", segments, invoke, fallback, url) == Decorate(invoke(GetPasteHead, map["id" := id]), "HEAD")
  {
    assert EqualIgnoringCase("api", "api") && EqualIgnoringCase("paste", "paste");
    PasteIdTemplateMatches("api", "paste", id);
    DispatchFirstMatch(routes, "HEAD", segments, invoke, fallback, url, 0);
  }

  /** `POST api/paste` reaches the create endpoint with no parameters. */
  lemma CreatePasteRoute(compiled: map<string, seq<CompiledRoute<Endpoint>>>, request: Request, pathname: string -> string,
                         invoke: (Endpoint, map<string, string>) -> Outcome, fallback: string -> Outcome)
    requires compiled == CompileAllRoutes(Table)
    requires request.verb == "POST"
    requires RequestSegments(request, pathname) == ["api", "paste"]
    ensures Fetch(compiled, request, pathname, invoke, fallback) == Decorate(invoke(CreatePaste, map[]), "POST")
  {
    CompiledPost();
    FetchDispatches(compiled, request, pathname, invoke, fallback);
    DispatchPost(compiled["POST"], RequestSegments(request, pathname), invoke, fallback, StripTrailingSlash(request.url));
  }

  lemma DispatchPost(routes: seq<CompiledRoute<Endpoint>>, segments: seq<string>,
                     invoke: (Endpoint, map<string, string>) -> Outcome, fallback: string -> Outcome, url: string)
    requires |routes| == 1 && routes[0].template == PasteTemplate && routes[0].handler == CreatePaste
    requires segments == ["api", "paste"]
    ensures Dispatch(routes, "POST", segments, invoke, fallback, url) == Decorate(invoke(CreatePaste, map[]), "POST")
  {
    PasteTemplateMatches();
    DispatchFirstMatch(routes, "POST", segments, invoke, fallback, url, 0);
  }

  /** A GET that no API route matches (a frontend path) reaches the
      fallback with the stripped URL. */
  lemma GetFallback(compiled: map<string, seq<CompiledRoute<Endpoint>>>, request: Request, pathname: string -> string,
                    invoke: (Endpoint, map<string, string>) -> Outcome, fallback: string -> Outcome)
    requires compiled == CompileAllRoutes(Table)
    requires request.verb == "GET"
    requires var segments := RequestSegments(request, pathname);
             |segments| < 3 || |segments| > 5 || !EqualIgnoringCase("api", segments[0])
    ensures Fetch(compiled, request, pathname, invoke, fallback) == fallback(StripTrailingSlash(request.url))
  {
    CompiledGet(compiled);
    FetchDispatches(compiled, request, pathname, invoke, fallback);
    DispatchUnmatched(compiled["GET"], RequestSegments(request, pathname), invoke, fallback, StripTrailingSlash(request.url));
  }

  lemma DispatchUnmatched(routes: seq<CompiledRoute<Endpoint>>, segments: seq<string>,
                          invoke: (Endpoint, map<string, string>) -> Outcome, fallback: string -> Outcome, url: string)
    requires ServerGetRoutes(routes)
    requires |segments| < 3 || |segments| > 5 || !EqualIgnoringCase("api", segments[0])
    ensures Dispatch(routes, "GET", segments, invoke, fallback, url) == fallback(url)
  {
    forall j | 0 <= j < |routes| ensures !Matches(routes[j].template, segments) {
      var t := routes[j].template;
      if |segments| == |t| {
        assert t[0] == "api";
        assert !IsSegmentParameter(t[0]) by { assert t[0][..1] == ['a']; }
        assert !SegmentMatches(t[0], segments[0]);
      }
    }
    DispatchNoMatch(routes, "GET", segments, invoke, fallback, url);
  }

  /** A pathname with a trailing slash dispatches like the one without. */
  lemma TrailingSlashIrrelevant(request: Request, request': Request, pathname: string -> string)
    requires pathname(StripTrailingSlash(request'.url)) == pathname(StripTrailingSlash(request.url)) + "/"
    requires |pathname(StripTrailingSlash(request.url))| >= 1
    ensures RequestSegments(request', pathname) == RequestSegments(request, pathname)
  {
    SegmentsTrailingSlash(pathname(StripTrailingSlash(request.url)));
  }
}
