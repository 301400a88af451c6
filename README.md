# stars: request dispatch and response framing, in Dafny

A model of the core of `stars`, a small HTTP server written in Rust, with
proofs about it. Four pieces are modelled:

- **Request parsing** (`Request::new`). The first line of the request head
  is split on Unicode whitespace. Its first token is the verb and its second
  is the path. Every later line that contains `:` is split on `": "` into a
  header name and a value, and these are collected into a map in which the
  last declaration wins. Each `unwrap` that can panic is an `Err` of
  `ParseError` here.
- **Method descriptors** (`Method`, `MethodKind`, `Method::try_from`,
  `Route::new`, `route!`). Only the exact verb `GET` is accepted. Descriptors
  are compared structurally, with no normalisation of the path.
- **The server object** (`Server`). It is a Dafny class whose fields are the
  route sequence and the not-found slot. `register_route` appends a route
  and `register_not_found` overwrites the slot. `handle_connection` does the
  following, in order:
  - takes the lines before the first empty one;
  - parses them;
  - finds the first route whose descriptor equals the request's;
  - falls back to the not-found route, and then to a built-in 404;
  - writes the response out.
- **Responses** (`StatusCode` and its `Display`, `ResponseBody` and its
  conversions, `Response::new`, `render!`). The serialisation is a method
  that appends to a string, as the source does with `push_str`. The loop
  over the header map takes the names in an unspecified order, which a
  ghost out-parameter records. The result is proved equal to `Frame`, a
  function that is the specification of the wire format.

Files:

- `wrappers.dfy`: `Option` and `Result`.
- `strings.dfy`: the string primitives the source relies on:
  - `split_whitespace`;
  - the first-occurrence search behind `split(": ")`;
  - `String::len` as a UTF-8 byte count;
  - decimal formatting of a length.
- `routes.dfy`: src/route.rs.
- `requests.dfy`: src/request.rs.
- `responses.dfy`: src/response.rs.
- `servers.dfy`: src/server.rs, plus one end-to-end scenario shaped like
  src/main.rs.

The socket is not modelled. A connection is the sequence of lines the client
sent, without terminators, and the reply is the text written back. A handler
is a total function from `Request` to `Response`.

## Model

| member | source | states |
|---|---|---|
| Strings.Tokens | src/request.rs:20-24 | `split_whitespace` yields only non-empty runs free of whitespace |
| Strings.TokensOfBlank | src/request.rs:20-24 | a line made only of whitespace yields no token, so it has no verb |
| Strings.TokensOfToken | src/request.rs:20-24 | a single run with no whitespace yields itself as the only token |
| Strings.TokensSeparated | src/request.rs:20-24 | splitting at a whitespace character splits the token list there |
| Strings.LeadingToken | src/request.rs:20-26 | a token followed by whitespace comes out first, ahead of the tokens of the rest |
| Strings.RequestLineTokens | src/request.rs:20-27 | for `VERB PATH rest`, the first two tokens are the verb and the path, and the tokens of the rest follow them |
| Strings.BareRequestLineTokens | src/request.rs:20-27 | `VERB PATH` with nothing after it yields exactly those two tokens |
| Strings.FindSep | src/request.rs:36 | finds the first position of `": "`, or reports that there is none |
| Strings.FindSepAfter | src/request.rs:36-38 | in `a: b` where `a` holds no `": "`, the first separator sits right after `a` |
| Strings.Utf8Len | src/server.rs:85 | the UTF-8 byte count is between 1 and 4 times the character count, and equals it exactly for ASCII text |
| Strings.Utf8LenConcat | src/server.rs:85 | the byte count of a concatenation is the sum of the byte counts |
| Strings.NatToString | src/server.rs:90 | `{}` on a length gives a non-empty decimal with no leading zero, and `"0"` only for 0 |
| Strings.DecimalRoundTrip | src/server.rs:90 | reading the formatted decimal back gives the number |
| Routes.TryFromVerb | src/route.rs:56-72 | succeeds exactly when the verb is `"GET"` (case-sensitive), with kind `GET` and the path verbatim; anything else is `Err(())` |
| Routes.TryFromKindName | src/route.rs:62-70 | recognising a kind's own name gives that kind back, with the path untouched |
| Routes.SameMethod | src/route.rs:44-48 | descriptors are equal exactly when both the paths and the kinds are equal |
| Routes.NoPathNormalisation | src/route.rs:44-48 | `/about` differs from `/about/` and from `/About` |
| Routes.NewRoute | src/route.rs:34-41 | `Route::new` stores the descriptor and the handler unchanged |
| Routes.RouteOf | src/route.rs:5-16 | `route!` builds a route whose descriptor has the given kind and the literal path |
| Requests.Classify | src/request.rs:34-39 | a line is skipped exactly when it has no `:`, and fails exactly when it has `:` but no `": "`; otherwise the name is the text before the first `": "` and the value runs to the second `": "` or to the end |
| Requests.ClassifyField | src/request.rs:36-41 | `name: value` in which neither part holds `": "` reads back as exactly that name and value |
| Requests.ClassifyTruncatesValue | src/request.rs:36-39 | `name: a: b` gives the value `a` |
| Requests.CollectHeaders | src/request.rs:31-43 | collecting fails, with `MalformedHeader`, exactly when some line is malformed |
| Requests.CollectHeadersContents | src/request.rs:31-43 | the map holds exactly the declared names, each with the value of the last line that declares it |
| Requests.ParseRequest | src/request.rs:15-48 | succeeds exactly for well-formed lines: a first line of at least two tokens whose first is `GET`, and no malformed later line; the descriptor is then `GET` plus the second token |
| Requests.ParseRequestErrors | src/request.rs:20-43 | which error comes out and in what order: no line, then too few tokens, then a verb other than `GET`, then a malformed header |
| Requests.ParsedHeaderNames | src/request.rs:31-34 | every header comes from a line after the first, so the request line never contributes one |
| Requests.LastDeclarationWins | src/request.rs:31-43 | a name declared on a later line and on no line after it is present, with that line's value |
| Requests.GarbageLineIgnored | src/request.rs:31-34 | inserting a line with no `:` anywhere after the request line changes nothing |
| Requests.CollectHeadersSkips | src/request.rs:34 | collecting headers with a colon-free line inserted anywhere gives the same outcome as without it |
| Requests.RequestTextParses | src/request.rs:15-43 | any `GET PATH VERSION` line followed by `Name: Value` lines parses, to that path |
| Requests.RequestTextHeaders | src/request.rs:31-43 | in such a request, each field that is not redeclared later is present with its own value |
| Responses.StatusText | src/response.rs:56-65 | `OK` shows as `"200 OK"` and `NotFound` as `"404"`; both begin with their three-digit code |
| Responses.StatusTextInjective | src/response.rs:58-61 | distinct status codes show as distinct texts |
| Responses.BodyFromString | src/response.rs:73-77 | `From<String>` makes a text body that carries exactly the string |
| Responses.BodyToString | src/response.rs:79-85 | converting a body to a string and back gives the same body |
| Responses.StringBodyRoundTrip | src/response.rs:73-85 | converting a string to a body and back gives the same string |
| Responses.NewResponse | src/response.rs:36-46 | `Response::new` stores its three arguments unchanged |
| Responses.Render | src/response.rs:5-21 | `render!` gives status `OK`, headers exactly `{Content-Type: text/html}`, and the content as the body |
| Servers.RequestLines | src/server.rs:60-64 | the head is the prefix of the incoming lines before the first empty one, and it holds no empty line |
| Servers.RequestLinesStopAtBlank | src/server.rs:60-64 | nothing after the blank line is read |
| Servers.FindRoute | src/server.rs:67-70 | finds the first route whose descriptor equals the request's, and finds none exactly when no route matches |
| Servers.LaterDuplicateNeverFound | src/server.rs:67-70 | of two routes with equal descriptors, the later one is never chosen |
| Servers.NotFoundFallback | src/server.rs:76-80 | the built-in response: `NotFound`, no headers, body `404 Not Found` |
| Servers.Dispatch | src/server.rs:72-82 | when some route matches, the response comes from a matching route's handler; when none matches, it comes from the not-found route's handler, or is the built-in 404 when there is none |
| Servers.DispatchFirstMatch | src/server.rs:72-73 | the first matching route's handler decides the response, and the not-found route is not consulted |
| Servers.DispatchNotFoundRoute | src/server.rs:74-75 | with no match, the not-found route's response is used unchanged, whatever its status |
| Servers.DispatchFallback | src/server.rs:76-80 | with no match and no not-found route, the response is `NotFound` with no headers and the body `404 Not Found` |
| Servers.DispatchAfterRegister | src/server.rs:67-82 | registering a route changes nothing for a request that an earlier route already matches; otherwise the new route answers when it matches |
| Servers.StatusLine | src/server.rs:89 | the status line ends with `\r\n` |
| Servers.LengthLine | src/server.rs:90 | the length line ends with `\r\n` |
| Servers.HeaderLine | src/server.rs:93 | each header line ends with `\r\n` |
| Servers.HeaderLines | src/server.rs:92-94 | the header block is empty exactly when there are no headers, and otherwise ends with `\r\n` |
| Servers.EnumeratesLength | src/server.rs:92 | iterating the map visits as many names as it has keys |
| Servers.EnumeratesExtend | src/server.rs:92-94 | taking one more name that has not been visited extends the enumeration |
| Servers.HeaderLinesExtend | src/server.rs:92-94 | each loop step appends exactly one `name: value` line |
| Servers.HeaderLinesConcat | src/server.rs:92-94 | the header block splits where the order splits |
| Servers.HeaderLineAt | src/server.rs:92-94 | the block holds, for each name in turn, the line `name: value` with that name's value |
| Servers.Head | src/server.rs:87-94 | the head (status line, length line, header lines) always ends with `\r\n` |
| Servers.Frame | src/server.rs:84-97 | the wire format: head, blank line, body; every reply starts with `HTTP/1.1 ` |
| Servers.PushHeaders | src/server.rs:92-94 | the loop appends the header block for some order that lists every key exactly once |
| Servers.Serialize | src/server.rs:84-97 | the text built with `push_str` is `Frame` of the response, for some order that lists every header exactly once |
| Servers.FrameEndsWithBody | src/server.rs:96-97 | the output ends with exactly the body, and just before it come `\r\n\r\n`: the head's last terminator and the blank line |
| Servers.FrameAnnouncesLength | src/server.rs:84-90 | the output opens with `HTTP/1.1 <status>\r\n` and then `Content-Length: <n>\r\n`, where n reads back as the UTF-8 byte length of the body |
| Servers.EnumerateNone | src/server.rs:92 | an empty header map yields no names |
| Servers.EnumerateOne | src/server.rs:92 | a one-entry header map yields just that name |
| Servers.FallbackOnTheWire | src/server.rs:76-97 | with no match and no not-found route, the output is `HTTP/1.1 404\r\n`, then `Content-Length: 13\r\n`, then `\r\n`, then `404 Not Found` |
| Servers.FallbackLengthLine | src/server.rs:90 | a 13-byte body gets the line `Content-Length: 13\r\n` |
| Servers.FallbackBodyLength | src/server.rs:79-85 | the built-in body is 13 bytes long |
| Servers.RenderOnTheWire | src/server.rs:84-97 | a rendered page goes out as the `200 OK` status line, the length line, `Content-Type: text/html`, a blank line and the page |
| Servers.Server.constructor | src/server.rs:27-33 | a new server has no routes and no not-found route |
| Servers.Server.RegisterNotFound | src/server.rs:36-38 | the slot now holds the given route, so the last call wins; the routes are untouched |
| Servers.Server.RegisterRoute | src/server.rs:41-43 | the route is appended at the end; earlier routes and the not-found slot are untouched |
| Servers.Server.HandleConnection | src/server.rs:58-100 | parses the lines before the first blank one; on a parse failure the reply is that error; otherwise the reply is `Frame` of the dispatched response, for some header order |
| Servers.HomePageScenario | src/main.rs:13-16 | a server with the single route `GET /` rendering a page answers every connection whose head parses with path `/` with that page, framed, whatever else the head and the lines after it hold |

## Left out

- Sockets and I/O are not modelled:
  - `TcpListener` binding (`TryFrom<&str>` and `From<TcpListener>`);
  - the `run` accept loop;
  - `BufReader` line reading and `write_all`.
  The input is a sequence of lines already split and the output is a string. The panics on I/O errors are not modelled either.
- Servers.Server.HandleConnection: in the source, a parse failure panics inside `handle_connection`. Nothing catches the panic, so it ends the whole accept loop, not just the one connection. The model only returns `Err` for that connection and does not model that the server then stops.
- Requests.ParseRequest: each `unwrap` panic is an `Err` of `ParseError`; the process abort is not modelled.
- Servers.Serialize: `HashMap` iteration order is not modelled. The contract holds for every order that lists each key exactly once, and a ghost out-parameter says which order was used.
- Responses.StatusText: follows the code, which shows `NotFound` as the bare `"404"`, with no reason phrase. The built-in 404 therefore goes out as `HTTP/1.1 404`.
- Handlers are total functions from `Request` to `Response`, as `handle_connection` calls them. src/route.rs declares the handler as `Fn() -> ()`, and the two signatures are not reconciled.
- The `println!` logging has no functional effect and is left out.
- `include_str!` in `render!` is compile-time file loading. The file's text is a parameter of `Render`.
- src/bin/main.rs is not part of this model. It imports `render`, `render_json` and `route` from the library crate, whose root is not among the files modelled. src/response.rs:5-21 defines only a one-argument `render!`, and no `render_json!`. Of src/main.rs, only the route it registers is reflected, in `HomePageScenario`.
- `ResponseBody` has only the `Text` variant, and so does the model.
