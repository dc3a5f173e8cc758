/**
 * The request-method token mapping of `HttpMethodEnum::from` and the shape of
 * the content-type classification the decoder consumes.
 */
module HttpEnums {
  import opened Wrappers

  const HTTP_METHOD_GET: string := "GET"
  const HTTP_METHOD_POST: string := "POST"

  /** The request methods the server names; only `Get` is ever produced. */
  datatype HttpMethod = Get | Post

  /**
   * `HttpContentTypeEnum` as the decoder uses it: multipart form data with the
   * two boundary markers its body is cut at, or any other content type.
   * How a `content-type` header value is classified is not part of this model;
   * the decoder takes the classification as a parameter.
   */
  datatype ContentType = FormData(boundaryStart: string, boundaryEnd: string) | Other

  /**
   * `HttpMethodEnum::from`: the exact token "GET" maps to `Get`; every other
   * token is the `panic!` arm, modelled as `None`.
   */
  function MethodFrom(name: string): (r: Option<HttpMethod>)
    ensures r.Some? <==> name == HTTP_METHOD_GET
    ensures r != Some(Post)
  {
    match name
    case "GET" => Some(Get)
    case _ => None
  }

  /** Matching is exact: no case folding, no trimming, and "POST" is not accepted. */
  lemma MethodFromRejects()
    ensures MethodFrom(HTTP_METHOD_POST) == None
    ensures MethodFrom("get") == None
    ensures MethodFrom(" GET") == None
    ensures MethodFrom("GET ") == None
    ensures MethodFrom("") == None
  {
  }
}
