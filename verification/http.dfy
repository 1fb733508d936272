/** The parts of an HTTP response that the router and the create-paste
    handler set. Header names are kept in lower case, as the runtime's
    `Headers` object compares them case-insensitively. */
module Http {

  /** A bare body, a JSON `{error}` object, or a JSON `{id}` object. */
  datatype Body = NoBody | ErrorBody(error: string) | IdBody(id: string)

  datatype Response = Response(status: nat, headers: map<string, string>, body: Body)

  /** `new Response(null, {status})`. */
  function Bare(status: nat): Response {
    Response(status, map[], NoBody)
  }

  /** `Response.json(body, {status})`; without an explicit status the
      runtime answers 200. The content-type header the runtime adds is not
      modelled. */
  function Json(body: Body, status: nat): Response {
    Response(status, map[], body)
  }

  const DefaultStatus: nat := 200
}
