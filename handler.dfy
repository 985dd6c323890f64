/** One request through `RequestHandler.do_request` (http-forwarder.py:49-92): route by
    host, build the forwarded request, call upstream, and relay the answer or report the
    failure with `badresponse` (42-47). The upstream call is a parameter: `dispatch` maps
    the arguments given to `requests.request` to what that call produced. */
module Handler {
  import opened Wrappers
  import opened Ascii
  import opened Http
  import opened Configuration
  import opened Routing
  import opened HeaderFilter
  import opened Relay
  import opened RequestBody

  const NoForwarderMessage: string := "no matching forwarder"

  /** The header lines and body `badresponse(msg)` sends after its status. */
  function BadResponse(msg: string): Response {
    Response(400, [Header("Content-type", "text/plain"), ConnectionClose], Encoded(msg))
  }

  /** What the `try` block writes for the outcome of the upstream call. */
  function Reply(outcome: DispatchOutcome): Response {
    match outcome
    case Failed(msg) => BadResponse(msg)
    case Ok(status, hs, content) => Response(status, RelayedHeaders(hs), Bytes(content))
  }

  /** The observable effect of one request: how many bytes were read from the client,
      the upstream call made (if any) and the response written (none when the handler
      stopped with an exception outside its `try`). */
  datatype Exchange = Exchange(consumed: nat, forwarded: Option<ForwardedRequest>, response: Option<Response>)

  /** `do_request`, as a function of the configuration, the request and the upstream. */
  function Handle(cfg: Config, req: Request, dispatch: ForwardedRequest -> DispatchOutcome): (x: Exchange)
    ensures x.consumed <= |req.stream|
    ensures x.forwarded.None? ==> x.consumed == 0
    ensures x.forwarded.Some? ==> x.response.Some? && x.consumed == |x.forwarded.value.body|
    ensures x.response.None? ==> x == Exchange(0, None, None)
  {
    var forwarder := GetForwarder(cfg.forwarders, GetRealHost(req.headers));
    if forwarder.None? then Exchange(0, None, Some(BadResponse(NoForwarderMessage)))
    else
      var fw := forwarder.value;
      var proxies := if cfg.proxies.None? then None else Some(TransformProxies(cfg.proxies.value));
      var headers := Filtered(req.headers, fw.headers);
      var length := ContentLength(req.headers);
      if length.None? then Exchange(0, None, None)
      else
        var body := ReadBody(req.stream, length.value);
        if body.None? then Exchange(0, None, None)
        else
          var fr := ForwardedRequest(req.verb, fw.target + req.path, headers, body.value, proxies);
          Exchange(|body.value|, Some(fr), Some(Reply(dispatch(fr))))
  }

  /** The handler with its two loops. */
  method DoRequest(cfg: Config, req: Request, dispatch: ForwardedRequest -> DispatchOutcome)
    returns (x: Exchange)
    ensures x == Handle(cfg, req, dispatch)
  {
    var forwardHost := GetRealHost(req.headers);
    var forwarder := GetForwarder(cfg.forwarders, forwardHost);
    if forwarder.None? {
      return Exchange(0, None, Some(BadResponse(NoForwarderMessage)));
    }
    var forwardTarget := forwarder.value.target;
    var proxies: Option<map<string, string>> := None;
    if cfg.proxies.Some? {
      proxies := Some(TransformProxies(cfg.proxies.value));
    }
    var forwarderHeaders := FilterRequestHeaders(req.headers, forwarder.value.headers);
    var contentLength := ContentLength(req.headers);
    if contentLength.None? {
      return Exchange(0, None, None);
    }
    var forwardBody := ReadBody(req.stream, contentLength.value);
    if forwardBody.None? {
      return Exchange(0, None, None);
    }
    var fr := ForwardedRequest(req.verb, forwardTarget + req.path, forwarderHeaders, forwardBody.value, proxies);
    var outcome := dispatch(fr);
    var reply: Response;
    match outcome {
      case Failed(msg) =>
        reply := BadResponse(msg);
      case Ok(status, hs, content) =>
        var sent := RelayHeaders(hs);
        reply := Response(status, sent, Bytes(content));
    }
    x := Exchange(|forwardBody.value|, Some(fr), Some(reply));
  }

  // ---------------------------------------------------------------------------
  // Properties of a handled request

  /** No matching forwarder: a 400 plain-text reply saying so, nothing read, nothing sent upstream. */
  lemma NoForwarderReply(cfg: Config, req: Request, dispatch: ForwardedRequest -> DispatchOutcome)
    requires forall i :: 0 <= i < |cfg.forwarders| ==> Some(cfg.forwarders[i].host) != GetRealHost(req.headers)
    ensures Handle(cfg, req, dispatch).consumed == 0
    ensures Handle(cfg, req, dispatch).forwarded.None?
    ensures Handle(cfg, req, dispatch).response ==
      Some(Response(400, [Header("Content-type", "text/plain"), Header("Connection", "close")],
                    Encoded("no matching forwarder")))
  {
  }

  /** A request that names no host at all never matches a forwarder. */
  lemma NoHostNoForwarder(cfg: Config, req: Request, dispatch: ForwardedRequest -> DispatchOutcome)
    requires forall i :: 0 <= i < |req.headers| ==> !IsHostHeader(req.headers[i].name)
    ensures Handle(cfg, req, dispatch) == Exchange(0, None, Some(BadResponse(NoForwarderMessage)))
  {
  }

  /** With a matching forwarder and a readable body, the upstream call goes to the
      forwarder's target followed by the inbound path, with the inbound verb, the bytes
      read as its body (everything the client sends for a length of -1), the filtered
      headers and the proxy map. */
  lemma ForwardedRequestShape(cfg: Config, req: Request, dispatch: ForwardedRequest -> DispatchOutcome,
                              fw: Forwarder, n: int)
    requires GetForwarder(cfg.forwarders, GetRealHost(req.headers)) == Some(fw)
    requires ContentLength(req.headers) == Some(n) && -1 <= n <= MaxSsize
    ensures Handle(cfg, req, dispatch).forwarded.Some?
    ensures Handle(cfg, req, dispatch).forwarded.value.url == fw.target + req.path
    ensures Handle(cfg, req, dispatch).forwarded.value.verb == req.verb
    ensures Handle(cfg, req, dispatch).forwarded.value.body <= req.stream
    ensures n >= 0 ==>
      |Handle(cfg, req, dispatch).forwarded.value.body| == if n <= |req.stream| then n else |req.stream|
    ensures n == -1 ==> Handle(cfg, req, dispatch).forwarded.value.body == req.stream
    ensures Handle(cfg, req, dispatch).consumed == |Handle(cfg, req, dispatch).forwarded.value.body|
    ensures Handle(cfg, req, dispatch).forwarded.value.headers == Filtered(req.headers, fw.headers)
    ensures Handle(cfg, req, dispatch).forwarded.value.proxies ==
      if cfg.proxies.None? then None else Some(TransformProxies(cfg.proxies.value))
  {
  }

  /** The handler writes nothing exactly when a forwarder matched but `int()` refused the
      `Content-Length` or `rfile.read` refused a length below -1 or above `sys.maxsize`;
      then nothing was read and nothing was sent upstream. */
  lemma AbortWithoutReply(cfg: Config, req: Request, dispatch: ForwardedRequest -> DispatchOutcome)
    ensures var length := ContentLength(req.headers);
      Handle(cfg, req, dispatch).response.None? <==>
        GetForwarder(cfg.forwarders, GetRealHost(req.headers)).Some?
        && (length.None? || length.value < -1 || length.value > MaxSsize)
    ensures Handle(cfg, req, dispatch).response.None? ==> Handle(cfg, req, dispatch) == Exchange(0, None, None)
  {
  }

  /** Only allow-listed headers reach the upstream, every allow-listed one does, each
      under its exact name with the last value sent under it. */
  lemma ForwardedHeadersAllowed(cfg: Config, req: Request, dispatch: ForwardedRequest -> DispatchOutcome,
                                fw: Forwarder)
    requires GetForwarder(cfg.forwarders, GetRealHost(req.headers)) == Some(fw)
    requires Handle(cfg, req, dispatch).forwarded.Some?
    ensures forall h :: h in Handle(cfg, req, dispatch).forwarded.value.headers ==>
      Allowed(h.name, fw.headers) && LastValue(req.headers, h.name) == Some(h.value)
    ensures forall i :: 0 <= i < |req.headers| && Allowed(req.headers[i].name, fw.headers) ==>
      exists h :: h in Handle(cfg, req, dispatch).forwarded.value.headers && h.name == req.headers[i].name
  {
    var out := Filtered(req.headers, fw.headers);
    FilteredSound(req.headers, fw.headers);
    forall i | 0 <= i < |req.headers| && Allowed(req.headers[i].name, fw.headers)
      ensures exists h :: h in out && h.name == req.headers[i].name
    {
      FilteredComplete(req.headers, fw.headers, i);
      var j :| 0 <= j < |out| && out[j].name == req.headers[i].name;
      assert out[j] in out;
    }
  }

  /** A successful upstream call is relayed: its status and body, and its headers minus
      the excluded names, then `Connection: close`. */
  lemma RelayedReply(cfg: Config, req: Request, dispatch: ForwardedRequest -> DispatchOutcome,
                     status: int, hs: seq<Header>, content: seq<byte>)
    requires Handle(cfg, req, dispatch).forwarded.Some?
    requires dispatch(Handle(cfg, req, dispatch).forwarded.value) == Ok(status, hs, content)
    ensures Handle(cfg, req, dispatch).response == Some(Response(status, KeepUpstream(hs) + [ConnectionClose], Bytes(content)))
  {
  }

  /** A failed upstream call is reported as a 400 carrying the exception's message. */
  lemma DispatchFailureReply(cfg: Config, req: Request, dispatch: ForwardedRequest -> DispatchOutcome, msg: string)
    requires Handle(cfg, req, dispatch).forwarded.Some?
    requires dispatch(Handle(cfg, req, dispatch).forwarded.value) == Failed(msg)
    ensures Handle(cfg, req, dispatch).response == Some(BadResponse(msg))
    ensures Handle(cfg, req, dispatch).response.value.status == 400
  {
  }

  /** The header lines the handler sends on both kinds of reply end with `Connection:
      close` and none before it has an excluded name, so no excluded header is copied from
      upstream; a relayed reply keeps the upstream status, every other one is a 400. */
  lemma ReplyCloses(outcome: DispatchOutcome)
    ensures var r := Reply(outcome);
      && |r.headers| > 0
      && r.headers[|r.headers| - 1] == ConnectionClose
      && (forall i :: 0 <= i < |r.headers| - 1 ==> !Excluded(r.headers[i].name))
      && r.status == if outcome.Ok? then outcome.status else 400
  {
    if outcome.Ok? {
      RelayedClosesOnce(outcome.headers);
    } else {
      assert Lower("Content-type") == "content-type";
    }
  }

  /** On every response the handler writes, the header lines it sends end with
      `Connection: close` and no excluded header is copied from upstream; its status is
      400 or the upstream's. */
  lemma EveryReplyCloses(cfg: Config, req: Request, dispatch: ForwardedRequest -> DispatchOutcome)
    requires Handle(cfg, req, dispatch).response.Some?
    ensures var r := Handle(cfg, req, dispatch).response.value;
      && |r.headers| > 0
      && r.headers[|r.headers| - 1] == ConnectionClose
      && forall i :: 0 <= i < |r.headers| - 1 ==> !Excluded(r.headers[i].name)
    ensures var x := Handle(cfg, req, dispatch);
      x.response.value.status == 400
      || (x.forwarded.Some? && dispatch(x.forwarded.value).Ok? && x.response.value.status == dispatch(x.forwarded.value).status)
  {
    var x := Handle(cfg, req, dispatch);
    if x.forwarded.Some? {
      assert x.response.value == Reply(dispatch(x.forwarded.value));
      ReplyCloses(dispatch(x.forwarded.value));
    } else {
      assert x.response.value == BadResponse(NoForwarderMessage) == Reply(Failed(NoForwarderMessage));
      ReplyCloses(Failed(NoForwarderMessage));
    }
  }

  /** The routing example: `Host: a.example.com`, path `/api/x` and an `X-Custom` header
      against a table whose entry for that host allows only `Content-Type`. */
  lemma RoutingExample(stream: seq<byte>, dispatch: ForwardedRequest -> DispatchOutcome)
    ensures var fw := Forwarder("a.example.com", "http://upstream:9000", ["Content-Type"], "");
      var req := Request("GET", "/api/x", [Header("Host", "a.example.com"), Header("X-Custom", "1")], stream);
      var x := Handle(Config(None, [fw]), req, dispatch);
      && x.forwarded.Some?
      && x.forwarded.value.url == "http://upstream:9000/api/x"
      && x.forwarded.value.headers == []
      && x.forwarded.value.body == []
  {
    var hs := [Header("Host", "a.example.com"), Header("X-Custom", "1")];
    var fw := Forwarder("a.example.com", "http://upstream:9000", ["Content-Type"], "");
    ExampleHeaders(hs);
    assert GetForwarder([fw], Some("a.example.com")) == Some(fw);
    assert ReadBody(stream, 0) == Some([]);
  }

  /** The example's headers: routed by `Host`, no length, and nothing passes the filter. */
  lemma ExampleHeaders(hs: seq<Header>)
    requires hs == [Header("Host", "a.example.com"), Header("X-Custom", "1")]
    ensures GetRealHost(hs) == Some("a.example.com")
    ensures ContentLength(hs) == Some(0)
    ensures Filtered(hs, ["Content-Type"]) == []
  {
    assert Lower("Host") == "host";
    assert Lower("X-Custom") == "x-custom";
    assert Lower("Content-Length") == "content-length";
    ExampleFiltered(hs, ["Content-Type"]);
  }

  lemma ExampleFiltered(hs: seq<Header>, allow: seq<string>)
    requires hs == [Header("Host", "a.example.com"), Header("X-Custom", "1")]
    requires allow == ["Content-Type"]
    ensures Filtered(hs, allow) == []
  {
    assert Lower("Content-Type") == "content-type";
    assert LowerAll(allow) == ["content-type"];
    assert Lower("Host") == "host";
    assert Lower("X-Custom") == "x-custom";
    assert !Allowed(hs[0].name, allow) && !Allowed(hs[1].name, allow);
    var first := hs[..1];
    assert first[..0] == [];
    assert Filtered(first, allow) == Filtered(first[..0], allow) == [];
    assert hs[..1] == first;
    assert Filtered(hs, allow) == Filtered(first, allow);
  }
}
