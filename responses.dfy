/** Responses (src/response.rs): status codes and how they display, the
    body type and its conversions to and from `String`, the plain
    constructor and the `render!` macro. */
module Responses {
  import opened Strings

  /** `StatusCode`. */
  datatype StatusCode = OK | NotFound

  /** `ResponseBody`: only text bodies exist. */
  datatype ResponseBody = Text(text: string)

  /** `Response`: status, header map and body. */
  datatype Response = Response(status: StatusCode, headers: map<string, string>, body: ResponseBody)

  /** The numeric code a status stands for. */
  function StatusNumber(status: StatusCode): nat {
    match status
    case OK => 200
    case NotFound => 404
  }

  /** `Display for StatusCode`, as written: `OK` shows as `"200 OK"`, but
      `NotFound` shows as the bare `"404"` without a reason phrase. Either
      way the text begins with the three-digit code. */
  function StatusText(status: StatusCode): (t: string)
    ensures |t| >= 3 && t[..3] == NatToString(StatusNumber(status))
    ensures status == OK ==> t == "200 OK"
    ensures status == NotFound ==> t == "404"
  {
    match status
    case OK =>
      assert NatToString(2) == "2" && NatToString(20) == "20" && NatToString(200) == "200";
      "200 OK"
    case NotFound =>
      assert NatToString(4) == "4" && NatToString(40) == "40" && NatToString(404) == "404";
      "404"
  }

  /** Distinct status codes display as distinct texts. */
  lemma StatusTextInjective(a: StatusCode, b: StatusCode)
    requires a != b
    ensures StatusText(a) != StatusText(b)
  {
    assert StatusText(a)[..3] != StatusText(b)[..3];
  }

  /** `From<String> for ResponseBody`. */
  function BodyFromString(s: string): (body: ResponseBody)
    ensures body.text == s
  {
    Text(s)
  }

  /** `From<ResponseBody> for String`: the text a body carries; converting
      it back gives the same body. */
  function BodyToString(body: ResponseBody): (s: string)
    ensures BodyFromString(s) == body
  {
    match body
    case Text(text) => text
  }

  /** The other direction of the round trip: a string survives being made
      into a body and read back. */
  lemma StringBodyRoundTrip(s: string)
    ensures BodyToString(BodyFromString(s)) == s
  {
  }

  /** `Response::new`: the response stores its three arguments unchanged. */
  function NewResponse(status: StatusCode, headers: map<string, string>, body: ResponseBody): (r: Response)
    ensures r.status == status && r.headers == headers && r.body == body
  {
    Response(status, headers, body)
  }

  /** A response whose `Content-Type` matches its body variant (`text/html`
      for a text body): what response helpers are to guarantee. */
  predicate ContentTypeMatchesBody(r: Response) {
    match r.body
    case Text(_) => "Content-Type" in r.headers && r.headers["Content-Type"] == "text/html"
  }

  /** `render!(path)` with the file's text given as `content`: status `OK`,
      exactly one header `Content-Type: text/html`, and the content as a
      text body. */
  function Render(content: string): (r: Response)
    ensures r.status == OK
    ensures r.headers.Keys == {"Content-Type"} && ContentTypeMatchesBody(r)
    ensures BodyToString(r.body) == content
  {
    var headers := map[]["Content-Type" := "text/html"];
    NewResponse(OK, headers, Text(content))
  }
}
