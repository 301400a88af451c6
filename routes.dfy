/** Method descriptors and routes (src/route.rs).

    A `Method` is the matching key of a route: an HTTP verb and a path,
    compared structurally with no normalisation. A `Route` pairs a key with
    a handler; the handler's type is a parameter here, because route.rs
    declares it as a no-argument function while the server calls it with a
    request and uses its result as the response. */
module Routes {
  import opened Wrappers

  /** `MethodKind`: the verbs the server knows. */
  datatype MethodKind = GET

  /** `Method`: the verb and the exact path. */
  datatype Method = Method(path: string, kind: MethodKind)

  /** `Route`: a matching key and a handler. */
  datatype Route<H> = Route(descriptor: Method, handler: H)

  /** The request-line verb that names a kind (the variant's own name). */
  function KindName(kind: MethodKind): string {
    match kind
    case GET => "GET"
  }

  /** `Method::try_from((verb, path))`: the verb must be exactly `"GET"`
      (case-sensitive); the path is kept verbatim. Any other verb is `Err(())`. */
  function TryFromVerb(verb: string, path: string): (r: Result<Method, ()>)
    ensures r.Ok? <==> verb == "GET"
    ensures r.Ok? ==> r.value.kind == GET && r.value.path == path
  {
    match verb
    case "GET" => Ok(Method(path, GET))
    case _ => Err(())
  }

  /** Recognising a kind's own name gives back that kind, with the path
      untouched: KindName and TryFromVerb are inverse. */
  lemma TryFromKindName(kind: MethodKind, path: string)
    ensures TryFromVerb(KindName(kind), path) == Ok(Method(path, kind))
  {
  }

  /** The derived `PartialEq` on `Method`: equal exactly when both the path
      strings and the kinds are equal. */
  function SameMethod(a: Method, b: Method): (r: bool)
    ensures r <==> a.path == b.path && a.kind == b.kind
  {
    a == b
  }

  /** No normalisation: a trailing slash or a change of case makes a
      different key. */
  lemma NoPathNormalisation()
    ensures !SameMethod(Method("/about", GET), Method("/about/", GET))
    ensures !SameMethod(Method("/about", GET), Method("/About", GET))
  {
    assert "/about" != "/about/" by { assert |"/about"| != |"/about/"|; }
    assert "/about"[1] != "/About"[1];
  }

  /** `Route::new`: the route keeps the method and the handler it is given. */
  function NewRoute<H>(descriptor: Method, handler: H): (r: Route<H>)
    ensures r.descriptor == descriptor && r.handler == handler
  {
    Route(descriptor, handler)
  }

  /** The `route!(KIND, "path", handler)` macro: a route whose key has the
      given kind and the literal path. */
  function RouteOf<H>(kind: MethodKind, path: string, handler: H): (r: Route<H>)
    ensures r.descriptor.kind == kind && r.descriptor.path == path && r.handler == handler
  {
    NewRoute(Method(path, kind), handler)
  }
}
