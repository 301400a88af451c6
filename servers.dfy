/** The server (src/server.rs): the route table with its registration
    methods, and the handling of one connection, which takes the request
    head, parses it, looks up the route, falls back to the not-found route
    or a built-in 404, and writes the response out.

    The socket is not modelled: a connection is the sequence of lines the
    client sent (already split, without terminators) and the reply is the
    text written back. */
module Servers {
  import opened Wrappers
  import opened Strings
  import opened Routes
  import opened Requests
  import opened Responses

  /** A handler as the server calls it: it receives the request and its
      result is the response. */
  type Handler = Request -> Response

  /** What is sent when no route matches and no not-found route exists. */
  const NotFoundFallback: Response := Response(NotFound, map[], Text("404 Not Found"))

  // ---------------------------------------------------------------------
  // Reading the request head
  // ---------------------------------------------------------------------

  /** `lines().take_while(|line| !line.is_empty())`: the lines before the
      first empty one, or all of them when none is empty. */
  function RequestLines(incoming: seq<string>): (lines: seq<string>)
    ensures |lines| <= |incoming| && lines == incoming[..|lines|]
    ensures forall i :: 0 <= i < |lines| ==> lines[i] != ""
    ensures |lines| < |incoming| ==> incoming[|lines|] == ""
  {
    if incoming == [] || incoming[0] == "" then []
    else [incoming[0]] + RequestLines(incoming[1..])
  }

  /** Whatever follows the blank line that ends the head is never read. */
  lemma RequestLinesStopAtBlank(head: seq<string>, rest: seq<string>)
    requires forall i :: 0 <= i < |head| ==> head[i] != ""
    ensures RequestLines(head + [""] + rest) == head
  {
    var incoming := head + [""] + rest;
    assert forall i :: 0 <= i < |head| ==> incoming[i] == head[i];
    assert incoming[|head|] == "";
    assert head == incoming[..|head|];
  }

  // ---------------------------------------------------------------------
  // Route lookup and fallback
  // ---------------------------------------------------------------------

  /** `routes.iter().find(|route| route.method == request.method)`: the
      index of the first route whose descriptor equals `key`. */
  function FindRoute<H>(routes: seq<Route<H>>, key: Method): (r: Option<nat>)
    ensures r.Some? ==> r.value < |routes| && routes[r.value].descriptor == key
    ensures r.Some? ==> forall j :: 0 <= j < r.value ==> routes[j].descriptor != key
    ensures r.None? <==> forall j :: 0 <= j < |routes| ==> routes[j].descriptor != key
  {
    if routes == [] then None
    else if routes[0].descriptor == key then Some(0)
    else
      match FindRoute(routes[1..], key)
      case None => None
      case Some(i) => Some(i + 1)
  }

  /** Of two routes with the same descriptor, the later one is never found. */
  lemma LaterDuplicateNeverFound<H>(routes: seq<Route<H>>, i: nat, j: nat)
    requires i < j < |routes|
    requires routes[i].descriptor == routes[j].descriptor
    ensures FindRoute(routes, routes[j].descriptor) != Some(j)
  {
  }

  /** The `match` in `handle_connection`: the first matching route's
      handler, else the not-found route's handler, else the built-in 404. */
  function Dispatch(routes: seq<Route<Handler>>, notFound: Option<Route<Handler>>, req: Request): (r: Response)
    ensures (exists i :: 0 <= i < |routes| && routes[i].descriptor == req.descriptor) ==>
      exists i :: 0 <= i < |routes| && routes[i].descriptor == req.descriptor && r == routes[i].handler(req)
    ensures (forall j :: 0 <= j < |routes| ==> routes[j].descriptor != req.descriptor) ==>
      r == (if notFound.Some? then notFound.value.handler(req) else NotFoundFallback)
  {
    match FindRoute(routes, req.descriptor)
    case Some(i) => routes[i].handler(req)
    case None =>
      match notFound
      case Some(route) => route.handler(req)
      case None => NotFoundFallback
  }

  /** A matching route decides the response, and it is the first one that
      matches; the not-found route is not consulted. */
  lemma DispatchFirstMatch(routes: seq<Route<Handler>>, notFound: Option<Route<Handler>>, req: Request, i: nat)
    requires i < |routes| && routes[i].descriptor == req.descriptor
    requires forall j :: 0 <= j < i ==> routes[j].descriptor != req.descriptor
    ensures Dispatch(routes, notFound, req) == routes[i].handler(req)
  {
    var found := FindRoute(routes, req.descriptor);
    assert found.Some?;
    assert !(found.value < i) && !(i < found.value);
  }

  /** With no matching route, the not-found route's handler answers and its
      response is used unchanged (whatever status it carries); its own
      descriptor plays no part. */
  lemma DispatchNotFoundRoute(routes: seq<Route<Handler>>, route: Route<Handler>, req: Request)
    requires forall j :: 0 <= j < |routes| ==> routes[j].descriptor != req.descriptor
    ensures Dispatch(routes, Some(route), req) == route.handler(req)
  {
  }

  /** With no matching route and no not-found route, the response is the
      built-in one: `NotFound`, no headers, body `404 Not Found`. */
  lemma DispatchFallback(routes: seq<Route<Handler>>, req: Request)
    requires forall j :: 0 <= j < |routes| ==> routes[j].descriptor != req.descriptor
    ensures Dispatch(routes, None, req).status == NotFound
    ensures Dispatch(routes, None, req).headers == map[]
    ensures Dispatch(routes, None, req).body == Text("404 Not Found")
  {
  }

  /** Registering one more route changes nothing for a request an earlier
      route already matches; otherwise the new route answers when it
      matches. */
  lemma DispatchAfterRegister(routes: seq<Route<Handler>>, route: Route<Handler>, notFound: Option<Route<Handler>>, req: Request)
    ensures FindRoute(routes, req.descriptor).Some? ==>
      Dispatch(routes + [route], notFound, req) == Dispatch(routes, notFound, req)
    ensures FindRoute(routes, req.descriptor).None? && route.descriptor == req.descriptor ==>
      Dispatch(routes + [route], notFound, req) == route.handler(req)
    ensures FindRoute(routes, req.descriptor).None? && route.descriptor != req.descriptor ==>
      Dispatch(routes + [route], notFound, req) == Dispatch(routes, notFound, req)
  {
    var all := routes + [route];
    assert forall j :: 0 <= j < |routes| ==> all[j] == routes[j];
    match FindRoute(routes, req.descriptor)
    case Some(i) =>
      DispatchFirstMatch(all, notFound, req, i);
    case None =>
      if route.descriptor == req.descriptor {
        DispatchFirstMatch(all, notFound, req, |routes|);
      }
  }

  // ---------------------------------------------------------------------
  // Writing the response
  // ---------------------------------------------------------------------

  /** `s` ends with a line terminator `\r\n`. */
  predicate EndsWithCrlf(s: string) {
    |s| >= 2 && s[|s| - 2] == '\r' && s[|s| - 1] == '\n'
  }

  /** `format!("HTTP/1.1 {}\r\n", status)`. */
  function StatusLine(status: StatusCode): (line: string)
    ensures EndsWithCrlf(line)
  {
    "HTTP/1.1 " + StatusText(status) + "\r\n"
  }

  /** `format!("Content-Length: {}\r\n", length)`. */
  function LengthLine(length: nat): (line: string)
    ensures EndsWithCrlf(line)
  {
    "Content-Length: " + NatToString(length) + "\r\n"
  }

  /** `format!("{}: {}\r\n", name, value)`. */
  function HeaderLine(name: string, value: string): (line: string)
    ensures EndsWithCrlf(line)
  {
    name + ": " + value + "\r\n"
  }

  /** The header block written by the `for` loop when the map yields its
      names in `order`: empty, or ending with a line terminator. */
  function HeaderLines(headers: map<string, string>, order: seq<string>): (block: string)
    requires forall i :: 0 <= i < |order| ==> order[i] in headers
    ensures block == "" <==> order == []
    ensures order != [] ==> EndsWithCrlf(block)
  {
    if order == [] then ""
    else
      var last := order[|order| - 1];
      var block := HeaderLines(headers, order[..|order| - 1]) + HeaderLine(last, headers[last]);
      assert block[|block| - 2..] == HeaderLine(last, headers[last])[|HeaderLine(last, headers[last])| - 2..];
      block
  }

  /** `order` lists every name of `keys` exactly once: one order in which a
      `HashMap` may hand out its entries. */
  predicate Enumerates(order: seq<string>, keys: set<string>) {
    && (forall i :: 0 <= i < |order| ==> order[i] in keys)
    && (forall k :: k in keys ==> k in order)
    && (forall i, j :: 0 <= i < j < |order| ==> order[i] != order[j])
  }

  /** An enumeration has one entry per key. */
  lemma {:induction false} EnumeratesLength(order: seq<string>, keys: set<string>)
    requires Enumerates(order, keys)
    ensures |order| == |keys|
  {
    if order == [] {
      assert keys == {};
    } else {
      var n := |order| - 1;
      var init, last := order[..n], order[n];
      forall k | k in keys - {last} ensures k in init {
        var i :| 0 <= i < |order| && order[i] == k;
        assert i != n;
      }
      EnumeratesLength(init, keys - {last});
    }
  }

  /** The head of the response: status line, `Content-Length` line and the
      header block, in that order. It always ends with a line terminator. */
  function Head(response: Response, order: seq<string>): (head: string)
    requires forall i :: 0 <= i < |order| ==> order[i] in response.headers
    ensures EndsWithCrlf(head)
  {
    var lines := StatusLine(response.status) + LengthLine(Utf8Len(BodyToString(response.body)));
    var block := HeaderLines(response.headers, order);
    var head := lines + block;
    assert block == "" ==> head == lines;
    assert block != "" ==> head[|head| - 2..] == block[|block| - 2..];
    head
  }

  /** The text `handle_connection` writes for `response` when its headers
      come out in `order`: the head, a blank line and the body. */
  function Frame(response: Response, order: seq<string>): (out: string)
    requires forall i :: 0 <= i < |order| ==> order[i] in response.headers
    ensures |out| >= 9 && out[..9] == "HTTP/1.1 "
  {
    var head := Head(response, order);
    var out := head + "\r\n" + BodyToString(response.body);
    assert out[..9] == head[..9] == StatusLine(response.status)[..9];
    out
  }

  /** Serialisation of a response, as `handle_connection` builds
      `response_str` with `push_str`. The header names are taken in an
      unspecified order, as a `HashMap` yields them; `order` records it. */
  method Serialize(response: Response) returns (out: string, ghost order: seq<string>)
    ensures Enumerates(order, response.headers.Keys)
    ensures out == Frame(response, order)
  {
    var content := BodyToString(response.body);
    var length := Utf8Len(content);
    out := StatusLine(response.status);
    out := out + LengthLine(length);
    out, order := PushHeaders(out, response.headers);
    assert out == Head(response, order);
    out := out + "\r\n";
    out := out + content;
  }

  /** The `for` loop over the header map: appends one `name: value` line
      per entry to `prefix`, in the order the map yields them. */
  method PushHeaders(prefix: string, headers: map<string, string>) returns (out: string, ghost order: seq<string>)
    ensures Enumerates(order, headers.Keys)
    ensures out == prefix + HeaderLines(headers, order)
  {
    out := prefix;
    var remaining := headers.Keys;
    order := [];
    while remaining != {}
      invariant remaining <= headers.Keys
      invariant Enumerates(order, headers.Keys - remaining)
      invariant out == prefix + HeaderLines(headers, order)
      decreases remaining
    {
      var name :| name in remaining;
      var value := headers[name];
      EnumeratesExtend(order, headers.Keys - remaining, name);
      HeaderLinesExtend(headers, order, name);
      out := out + HeaderLine(name, value);
      order := order + [name];
      assert headers.Keys - (remaining - {name}) == (headers.Keys - remaining) + {name};
      remaining := remaining - {name};
    }
    assert headers.Keys - remaining == headers.Keys;
  }

  /** Taking one more, new, name extends an enumeration. */
  lemma EnumeratesExtend(order: seq<string>, keys: set<string>, name: string)
    requires Enumerates(order, keys) && name !in keys
    ensures Enumerates(order + [name], keys + {name})
  {
    var longer := order + [name];
    forall i | 0 <= i < |order| ensures longer[i] == order[i] && longer[i] != name {
    }
  }

  /** Writing one more header line extends the block by that line. */
  lemma HeaderLinesExtend(headers: map<string, string>, order: seq<string>, name: string)
    requires forall i :: 0 <= i < |order| ==> order[i] in headers
    requires name in headers
    ensures HeaderLines(headers, order + [name]) == HeaderLines(headers, order) + HeaderLine(name, headers[name])
  {
    assert (order + [name])[..|order|] == order;
  }

  /** The header block splits where the order does. */
  lemma {:induction false} HeaderLinesConcat(headers: map<string, string>, a: seq<string>, b: seq<string>)
    requires forall i :: 0 <= i < |a| ==> a[i] in headers
    requires forall i :: 0 <= i < |b| ==> b[i] in headers
    ensures HeaderLines(headers, a + b) == HeaderLines(headers, a) + HeaderLines(headers, b)
    decreases |b|
  {
    if b == [] {
      assert a + b == a;
    } else {
      var init, last := b[..|b| - 1], b[|b| - 1];
      var front := a + init;
      assert forall i :: 0 <= i < |init| ==> init[i] == b[i];
      assert forall i :: 0 <= i < |front| ==> front[i] in headers by {
        forall i | 0 <= i < |front| ensures front[i] in headers {
          if i < |a| { assert front[i] == a[i]; } else { assert front[i] == init[i - |a|]; }
        }
      }
      var line := HeaderLine(last, headers[last]);
      calc {
        HeaderLines(headers, a + b);
        { assert a + b == front + [last]; }
        HeaderLines(headers, front + [last]);
        { HeaderLinesExtend(headers, front, last); }
        HeaderLines(headers, front) + line;
        { HeaderLinesConcat(headers, a, init); }
        HeaderLines(headers, a) + HeaderLines(headers, init) + line;
        { HeaderLinesExtend(headers, init, last); assert b == init + [last]; }
        HeaderLines(headers, a) + HeaderLines(headers, b);
      }
    }
  }

  /** One line per header: the header block holds, for the `i`-th name of
      the order, the line `name: value` with that name's value. */
  lemma HeaderLineAt(headers: map<string, string>, order: seq<string>, i: nat)
    requires forall k :: 0 <= k < |order| ==> order[k] in headers
    requires i < |order|
    ensures HeaderLines(headers, order)
         == HeaderLines(headers, order[..i]) + HeaderLine(order[i], headers[order[i]]) + HeaderLines(headers, order[i + 1..])
  {
    var before, name, after := order[..i], order[i], order[i + 1..];
    assert order == (before + [name]) + after;
    HeaderLinesConcat(headers, before + [name], after);
    assert (before + [name])[..i] == before;
  }

  /** The output ends with the body, unchanged, and the body is preceded by
      an empty line: the head's last terminator followed by `\r\n`. */
  lemma FrameEndsWithBody(response: Response, order: seq<string>)
    requires forall i :: 0 <= i < |order| ==> order[i] in response.headers
    ensures var out, content := Frame(response, order), BodyToString(response.body);
      && |out| >= |content| + 4
      && out[|out| - |content|..] == content
      && out[|out| - |content| - 4..|out| - |content|] == "\r\n\r\n"
  {
    var content := BodyToString(response.body);
    var head := Head(response, order);
    var out := head + "\r\n" + content;
    assert out[|out| - |content|..] == content;
    var k := |head| - 2;
    assert out[k] == '\r' && out[k + 1] == '\n' && out[k + 2] == '\r' && out[k + 3] == '\n';
  }

  /** The output opens with the status line and then the length line,
      whose decimal field reads back as the byte length of the body that
      ends the output. */
  lemma FrameAnnouncesLength(response: Response, order: seq<string>)
    requires forall i :: 0 <= i < |order| ==> order[i] in response.headers
    ensures var out, content := Frame(response, order), BodyToString(response.body);
      var status, digits := "HTTP/1.1 " + StatusText(response.status) + "\r\n", NatToString(Utf8Len(content));
      var n := |status| + 16 + |digits| + 2;
      && n <= |out|
      && out[..|status|] == status
      && out[|status|..n] == "Content-Length: " + digits + "\r\n"
      && IsDecimal(digits) && DecimalValue(digits) == Utf8Len(content)
  {
    var content := BodyToString(response.body);
    var status, length := StatusLine(response.status), LengthLine(Utf8Len(content));
    var rest := HeaderLines(response.headers, order) + "\r\n" + content;
    var out := Frame(response, order);
    assert out == status + length + rest;
    assert out[..|status|] == status;
    assert out[|status|..|status| + |length|] == length;
    DecimalRoundTrip(Utf8Len(content));
  }

  /** An empty header map can only be enumerated by the empty order. */
  lemma EnumerateNone(order: seq<string>, keys: set<string>)
    requires Enumerates(order, keys) && keys == {}
    ensures order == []
  {
    EnumeratesLength(order, keys);
  }

  /** A one-entry header map can only be enumerated by that one name. */
  lemma EnumerateOne(order: seq<string>, name: string)
    requires Enumerates(order, {name})
    ensures order == [name]
  {
    EnumeratesLength(order, {name});
    assert order[0] in {name};
  }

  /** Exactly what goes out when no route matches and there is no
      not-found route, line by line: `HTTP/1.1 404`, `Content-Length: 13`,
      no headers, then the body `404 Not Found`. */
  lemma FallbackOnTheWire(routes: seq<Route<Handler>>, req: Request, order: seq<string>)
    requires forall j :: 0 <= j < |routes| ==> routes[j].descriptor != req.descriptor
    requires Enumerates(order, Dispatch(routes, None, req).headers.Keys)
    ensures Frame(Dispatch(routes, None, req), order)
         == "HTTP/1.1 404\r\n" + "Content-Length: 13\r\n" + "\r\n" + "404 Not Found"
  {
    var response := Dispatch(routes, None, req);
    DispatchFallback(routes, req);
    EnumerateNone(order, response.headers.Keys);
    FrameWithoutHeaders(response, order);
    FallbackStatusLine();
    FallbackBodyLength();
    FallbackLengthLine();
  }

  /** The status line of the built-in 404. */
  lemma FallbackStatusLine()
    ensures StatusLine(NotFound) == "HTTP/1.1 404\r\n"
  {
  }

  /** The built-in body is 13 bytes of ASCII. */
  lemma FallbackBodyLength()
    ensures Utf8Len("404 Not Found") == 13
  {
    assert IsAscii("404 Not Found");
  }

  /** The length line announcing 13 bytes. */
  lemma FallbackLengthLine()
    ensures LengthLine(13) == "Content-Length: 13\r\n"
  {
    assert NatToString(13) == "13";
  }

  /** A response written with no header lines. */
  lemma FrameWithoutHeaders(response: Response, order: seq<string>)
    requires order == []
    ensures Frame(response, order)
         == StatusLine(response.status) + LengthLine(Utf8Len(BodyToString(response.body))) + "\r\n" + BodyToString(response.body)
  {
  }

  /** What a page rendered with `render!` looks like on the wire. */
  lemma RenderOnTheWire(content: string, order: seq<string>)
    requires Enumerates(order, Render(content).headers.Keys)
    ensures Frame(Render(content), order)
         == "HTTP/1.1 200 OK\r\n" + LengthLine(Utf8Len(content))
            + "Content-Type: text/html\r\n" + "\r\n" + content
  {
    EnumerateOne(order, "Content-Type");
    var r := Render(content);
    assert HeaderLines(r.headers, order) == "Content-Type: text/html\r\n" by {
      assert order[..0] == [];
    }
    assert StatusLine(OK) == "HTTP/1.1 200 OK\r\n";
  }

  // ---------------------------------------------------------------------
  // The server object
  // ---------------------------------------------------------------------

  /** `Server`, without its listener: the registered routes in order and the
      single not-found slot. */
  class Server {
    var routes: seq<Route<Handler>>
    var notFound: Option<Route<Handler>>

    /** `Server::new`: no routes, no not-found route. */
    constructor ()
      ensures routes == [] && notFound == None
    {
      routes := [];
      notFound := None;
    }

    /** `register_not_found`: overwrites the slot, so the last call wins;
        the routes are untouched. */
    method RegisterNotFound(route: Route<Handler>)
      modifies this
      ensures notFound == Some(route)
      ensures routes == old(routes)
    {
      notFound := Some(route);
    }

    /** `register_route`: appends at the end; earlier routes and the
        not-found slot are untouched. */
    method RegisterRoute(route: Route<Handler>)
      modifies this
      ensures routes == old(routes) + [route]
      ensures notFound == old(notFound)
    {
      routes := routes + [route];
    }

    /** `handle_connection` on the lines a client sent: the head up to the
        first empty line is parsed; a parse failure ends the connection with
        no reply (the source panics there); otherwise the dispatched
        response is serialised, with its headers in some order. */
    method HandleConnection(incoming: seq<string>) returns (reply: Result<string, ParseError>, ghost order: seq<string>)
      ensures var parsed := ParseRequest(RequestLines(incoming));
        && (parsed.Err? ==> reply == Err(parsed.error))
        && (parsed.Ok? ==>
              var response := Dispatch(routes, notFound, parsed.value);
              Enumerates(order, response.headers.Keys) && reply == Ok(Frame(response, order)))
    {
      var lines := RequestLines(incoming);
      var parsed := ParseRequest(lines);
      if parsed.Err? {
        return Err(parsed.error), [];
      }
      var response := Dispatch(routes, notFound, parsed.value);
      var out;
      out, order := Serialize(response);
      reply := Ok(out);
    }
  }

  /** A server set up like the repository's own entry point, with one route
      `GET /` that renders `page`, answering a request for `/`: whenever the
      head before the first blank line parses and its path is `/`, the reply
      is the rendered page, whatever else the head holds. */
  method HomePageScenario(page: string, incoming: seq<string>) returns (reply: Result<string, ParseError>)
    requires WellFormed(RequestLines(incoming)) && Tokens(RequestLines(incoming)[0])[1] == "/"
    ensures reply == Ok("HTTP/1.1 200 OK\r\n" + LengthLine(Utf8Len(page))
                        + "Content-Type: text/html\r\n" + "\r\n" + page)
  {
    var server := new Server();
    var home := RouteOf(GET, "/", (req: Request) => Render(page));
    server.RegisterRoute(home);
    ghost var order;
    reply, order := server.HandleConnection(incoming);
    var req := ParseRequest(RequestLines(incoming)).value;
    DispatchFirstMatch([home], None, req, 0);
    RenderOnTheWire(page, order);
  }
}
