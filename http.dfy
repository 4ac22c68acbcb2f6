/** The demo's request and response values. */
module Http {
  import opened Common

  /** A value as `json_decode($raw, true)` delivers it, without floats. */
  datatype Json =
    | JNull
    | JBool(b: bool)
    | JInt(i: int)
    | JString(s: string)
    | JArray(items: seq<Json>)
    | JObject(fields: seq<(string, Json)>)

  /** A request: its decoded JSON body is a PHP array (a JSON list has the
      keys "0", "1", ...), or `None` when the body was not JSON. */
  datatype Request = Request(httpMethod: string, path: string, query: seq<(string, string)>,
                             json: Option<seq<(string, Json)>>)

  /** A response body: JSON to be encoded, or plain text. */
  datatype Body = JsonBody(value: Json) | TextBody(text: string)

  datatype Response = Response(status: int, body: Body, headers: seq<(string, string)>)

  const JsonContentType: string := "application/json; charset=utf-8"

  /** `Response::json`: the status, the encoded data and the JSON content type. */
  function JsonResponse(status: int, data: Json): Response
  {
    Response(status, JsonBody(data), [("Content-Type", JsonContentType)])
  }

  /** `$r->json[$key] ?? null`: a missing body, a missing key and a JSON null all read as `None`. */
  function JsonField(json: Option<seq<(string, Json)>>, key: string): (v: Option<Json>)
    ensures v.Some? ==> v.value != JNull
    ensures json.None? ==> v.None?
  {
    match json
    case None => None
    case Some(fields) =>
      match Get(fields, key)
      case Some(x) => if x == JNull then None else Some(x)
      case None => None
  }
}
