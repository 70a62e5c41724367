/** The two envelopes of protocol/wire.go, the Node peer's answer to a request
    (render-server.js.tpl) and what Renderer.Render makes of it (renderer.go).
    `props` is the JSON text of a request's properties. */
module Wire {
  import opened Wrappers
  import opened Markup

  datatype Request = Request(component: string, props: string)

  datatype Response = Response(id: nat, html: string, head: string, error: string)

  /** How React's renderToString ends. What is thrown has a message, as errors do,
      or none, as a thrown string. */
  datatype Rendering = Html(inner: string) | Threw(message: Option<string>)

  function Failed(id: nat, error: string): Response {
    Response(id, "", "", error)
  }

  /** `known` is whether the registry holds the component. */
  function HandleRequest(id: nat, req: Request, known: bool, rendering: Rendering): Response {
    if req.component == "" then Failed(id, "missing or empty \"component\" field")
    else if !known then Failed(id, "unknown component: \"" + req.component + "\"")
    else
      match rendering
      case Html(inner) => Response(id, Wrapped(req.component, req.props, inner), "", "")
      case Threw(Some(message)) => Failed(id, message)
      case Threw(None) => Response(id, "", "", "") // JSON.stringify drops the undefined field
  }

  /** The markup as Node writes it, with its own escaper. */
  function Wrapped(component: string, props: string, inner: string): string {
    Attr(ISLAND_ATTR, component) + Attr(PROPS_ATTR, EscapeChained(props)) + ">" + inner + "</div>"
  }

  ghost predicate Answers(req: Request, resp: Response) {
    exists known, rendering :: resp == HandleRequest(resp.id, req, known, rendering)
  }

  // ----- Renderer.Render -----

  /** What worker.render returns: a response, or one of its three errors. */
  datatype Outcome<M> = Replied(message: M) | WriteFailed | Exited | Cancelled

  /** A response whose error is set, or no response, is an error. */
  function Finish(outcome: Outcome<Response>): Result<string> {
    match outcome
    case Replied(resp) => if resp.error != "" then Err(resp.error) else Ok(resp.html)
    case WriteFailed => Err("writing to node stdin")
    case Exited => Err("process exited")
    case Cancelled => Err("request cancelled")
  }

  /** A failed rendering reaches the caller as an error exactly when what was
      thrown has a message that is not empty. */
  lemma FailureIsReported(id: nat, req: Request, known: bool, rendering: Rendering)
    ensures Finish(Replied(HandleRequest(id, req, known, rendering))).Err? <==>
            || req.component == "" || !known
            || (rendering.Threw? && rendering.message.Some? && rendering.message.value != "")
    ensures req.component != "" && known && rendering.Threw? && rendering.message.Some? ==>
              var message := rendering.message.value;
              message != "" ==> Finish(Replied(HandleRequest(id, req, known, rendering))) == Err(message)
  {
    assert "unknown component: \"" + req.component + "\"" != "";
  }

  /** What a caller is told of a component that cannot be rendered: the registry's
      refusal quotes its name. */
  lemma RefusalIsTold(id: nat, req: Request, known: bool, rendering: Rendering)
    requires req.component == "" || !known
    ensures var r := Finish(Replied(HandleRequest(id, req, known, rendering)));
            && r.Err?
            && (req.component == "" ==> r.message == "missing or empty \"component\" field")
            && (req.component != "" ==>
                  var quoted := "\"" + req.component + "\"";
                  |quoted| <= |r.message| && r.message[|r.message| - |quoted|..] == quoted
                  && r.message[..|r.message| - |quoted|] == "unknown component: ")
  {
    if req.component != "" {
      var message := HandleRequest(id, req, known, rendering).error;
      assert message == "unknown component: " + ("\"" + req.component + "\"");
    }
  }

  /** No two of the ways in which a call gets no reply read alike. */
  lemma ErrorsDiffer()
    ensures forall a: Outcome<Response>, b: Outcome<Response> | !a.Replied? && !b.Replied? ::
              Finish(a).Err? && (Finish(a) == Finish(b) ==> a == b)
  {
    var written, exited, cancelled := "writing to node stdin", "process exited", "request cancelled";
    assert written[0] != exited[0] && exited[0] != cancelled[0] && written[0] != cancelled[0];
  }

  lemma EmptyMessagePasses(id: nat, component: string, props: string)
    requires component != ""
    ensures Finish(Replied(HandleRequest(id, Request(component, props), true, Threw(Some(""))))) == Ok("")
  {}

  /** So does a thrown value without a message, whatever it says. */
  lemma ThrownStringPasses(id: nat, component: string, props: string)
    requires component != ""
    ensures Finish(Replied(HandleRequest(id, Request(component, props), true, Threw(None)))) == Ok("")
  {}

  /** A page a caller gets is empty, or names its component and carries its
      properties, as the browser reads them. */
  lemma PageIsOwn(req: Request, resp: Response)
    requires Answers(req, resp) && Finish(Replied(resp)).Ok? && resp.html != ""
    requires Printable(req.component) && Printable(req.props) && '"' !in req.component && '&' !in req.component
    ensures ReadIsland(resp.html) == Some(Island(req.component, req.props))
  {
    var known, rendering :| resp == HandleRequest(resp.id, req, known, rendering);
    FailureIsReported(resp.id, req, known, rendering);
    EscapersAgree(req.props);
    var tail := ">" + rendering.inner + "</div>";
    assert resp.html == Opening(req.component, req.props) + tail;
    ReadBack(req.component, req.props, tail);
  }

  /** What React rendered is what the browser finds inside the island. */
  lemma PageHoldsMarkup(id: nat, req: Request, inner: string)
    requires req.component != "" && '"' !in req.component && '&' !in req.component
    requires Printable(req.component) && Printable(req.props)
    ensures HandleRequest(id, req, true, Html(inner)).id == id
    ensures Content(HandleRequest(id, req, true, Html(inner)).html) == Some(Normalize(inner))
  {
    EscapersAgree(req.props);
    var html := HandleRequest(id, req, true, Html(inner)).html;
    assert html == Opening(req.component, req.props) + (">" + inner + CLOSING);
    ContentReadsBack(req.component, req.props, inner);
  }

  // ----- The modes that never reach Node -----

  const MODE_CLIENT := "client"
  const MODE_LAZY_CLIENT := "lazy-client"

  /** What nil properties become on the wire, and in a placeholder. */
  const NIL_PROPS := "null"
  const NO_PROPS := "{}"

  /** Render decides here or hands the request to the pool. */
  datatype Route =
    | Reject(message: string)
    | Local(html: string)
    | Remote(req: Option<Request>) // none if the properties do not marshal

  predicate IsClientOnly(mode: string) {
    mode == MODE_CLIENT || mode == MODE_LAZY_CLIENT
  }

  /** `modes` is absent without a project configuration; `json` is the marshalled
      properties, or the error, and absent for nil properties. */
  function RouteRender(modes: Option<map<string, string>>, component: string, json: Option<Result<string>>): Route {
    if component == "" then Reject("Component must not be empty")
    else if modes.Some? && component !in modes.value then Reject("unknown component")
    else if modes.Some? && IsClientOnly(modes.value[component]) then
      match json
      case None => Local(Placeholder(modes.value[component], component, NO_PROPS))
      case Some(Ok(text)) => Local(Placeholder(modes.value[component], component, text))
      case Some(Err(message)) => Reject(message)
    else
      match json
      case None => Remote(Some(Request(component, NIL_PROPS)))
      case Some(Ok(text)) => Remote(Some(Request(component, text)))
      case Some(Err(_)) => Remote(None)
  }

  function Placeholder(mode: string, component: string, props: string): string {
    Attr(ISLAND_ATTR, component) + Attr(PROPS_ATTR, Escape(props))
    + (if mode == MODE_LAZY_CLIENT then " data-ssr-lazy=\"true\"></div>" else "></div>")
  }

  function Marshalled(json: Option<string>): Option<Result<string>> {
    match json
    case None => None
    case Some(text) => Some(Ok(text))
  }

  /** A component that is rendered by Node: any, if there is no configuration; if
      there is one, those listed with another mode than the two client-only ones. */
  predicate IsRemote(modes: Option<map<string, string>>, component: string) {
    component != "" && (modes.Some? ==>
      component in modes.value && modes.value[component] != "client" && modes.value[component] != "lazy-client")
  }

  function PropsText(json: Option<Result<string>>, absent: string): Option<string> {
    match json
    case None => Some(absent)
    case Some(Ok(text)) => Some(text)
    case Some(Err(_)) => None
  }

  /** Which way a call goes: to the pool, with its component and properties, exactly
      if Node is to render it; and otherwise it is refused exactly if the component
      is empty or not listed, or its properties do not marshal. */
  lemma RouteIsOne(modes: Option<map<string, string>>, component: string, json: Option<Result<string>>)
    ensures var route := RouteRender(modes, component, json);
            && (route.Remote? <==> IsRemote(modes, component))
            && (route.Remote? ==>
                  match PropsText(json, "null")
                  case Some(props) => route.req == Some(Request(component, props))
                  case None => route.req == None)
            && (route.Reject? <==>
                  || component == "" || (modes.Some? && component !in modes.value)
                  || (!IsRemote(modes, component) && PropsText(json, "{}").None?))
  {}

  lemma NodePageIsOwn(id: nat, req: Request, inner: string)
    requires req.component != "" && '"' !in req.component && '&' !in req.component
    requires Printable(req.component) && Printable(req.props)
    ensures ReadIsland(HandleRequest(id, req, true, Html(inner)).html) == Some(Island(req.component, req.props))
  {
    PageIsOwn(req, HandleRequest(id, req, true, Html(inner)));
  }

  /** What comes back of a request that is handed to the pool. */
  lemma RemotePageIsOwn(
    modes: Option<map<string, string>>, component: string, json: Option<string>, id: nat, inner: string)
    requires IsRemote(modes, component) && Printable(component) && '"' !in component && '&' !in component
    requires json.Some? ==> Printable(json.value)
    ensures var props := if json.Some? then json.value else "null";
            && RouteRender(modes, component, Marshalled(json)) == Remote(Some(Request(component, props)))
            && ReadIsland(HandleRequest(id, Request(component, props), true, Html(inner)).html)
               == Some(Island(component, props))
  {
    RouteIsOne(modes, component, Marshalled(json));
    NodePageIsOwn(id, Request(component, if json.Some? then json.value else "null"), inner);
  }

  /** What the browser reads off a rendered page, and off a placeholder, for the
      same component and properties. */
  ghost predicate ReadAlike(
    client: Option<map<string, string>>, server: Option<map<string, string>>, component: string, json: Option<string>,
    inner: string)
  {
    var local := RouteRender(client, component, Marshalled(json));
    var remote := RouteRender(server, component, Marshalled(json));
    && local.Local? && remote.Remote? && remote.req.Some?
    && ReadIsland(HandleRequest(1, remote.req.value, true, Html(inner)).html) == ReadIsland(local.html)
  }

  /** Nil properties show where a component is rendered: Node writes the null it was
      sent, the placeholder an empty object. The browser reads the properties of
      the two alike exactly when they were not nil. */
  lemma NilPropsShow(
    client: Option<map<string, string>>, server: Option<map<string, string>>, component: string, json: Option<string>,
    inner: string)
    requires client.Some? && component in client.value && IsClientOnly(client.value[component])
    requires IsRemote(server, component) && (json.Some? ==> Printable(json.value))
    requires Printable(component) && '"' !in component && '&' !in component
    ensures ReadAlike(client, server, component, json, inner) <==> json.Some?
  {
    LocalPageIsOwn(client, component, Marshalled(json));
    RemotePageIsOwn(server, component, json, 1, inner);
    assert NIL_PROPS != NO_PROPS;
  }

  /** Node is bypassed exactly for known client-only components; what is written
      instead reads back as the component and its properties. */
  lemma LocalPageIsOwn(modes: Option<map<string, string>>, component: string, json: Option<Result<string>>)
    requires component != "" && Printable(component) && '"' !in component && '&' !in component
    requires json.Some? && json.value.Ok? ==> Printable(json.value.value)
    ensures var route := RouteRender(modes, component, json);
            && (route.Local? <==> modes.Some? && component in modes.value && IsClientOnly(modes.value[component])
                                  && (json.Some? ==> json.value.Ok?))
            && (route.Local? ==>
                  && ReadIsland(route.html) == Some(Island(component, if json.Some? then json.value.value else "{}"))
                  && IsLazy(route.html) == (modes.value[component] == "lazy-client"))
  {
    if RouteRender(modes, component, json).Local? {
      PlaceholderReads(modes.value[component], component, if json.Some? then json.value.value else NO_PROPS);
    }
  }

  lemma PlaceholderReads(mode: string, component: string, props: string)
    requires Printable(component) && Printable(props) && '"' !in component && '&' !in component
    ensures ReadIsland(Placeholder(mode, component, props)) == Some(Island(component, props))
    ensures IsLazy(Placeholder(mode, component, props)) == (mode == "lazy-client")
  {
    var tail := EmptyTail(mode == MODE_LAZY_CLIENT);
    assert Attr(LAZY_ATTR, "true") + "></div>" == " data-ssr-lazy=\"true\"></div>";
    assert Placeholder(mode, component, props) == Opening(component, props) + tail;
    ReadBack(component, props, tail);
    LazyReadsBack(component, props, mode == MODE_LAZY_CLIENT);
  }
}
