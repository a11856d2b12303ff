/**
 * The Request and Response records of request.go and respoonse.go. The two Go
 * structs point at each other (Request.Response, Response.Request); those
 * pointers are `Option`s here, and nothing in the modelled code sets them.
 */
module Messages {
  import opened Wrappers

  datatype Request = Request(
    httpMethod: string,
    target: string,
    protoVersion: string,
    contentLength: int,
    fields: map<string, seq<string>>,
    response: Option<Response>,
    body: string)

  datatype Response = Response(
    statusCode: int,
    statusMessage: string,
    fields: map<string, seq<string>>,
    body: string,
    protoVersion: string,
    contentLength: int,
    request: Option<Request>)
}
