/** The values that cross the forwarder: inbound requests, forwarded requests,
    the outcome of the upstream call and the response the client receives. */
module Http {
  import opened Wrappers

  newtype byte = x: int | 0 <= x < 256

  /** One header line, in arrival order; names keep the case they were sent with. */
  datatype Header = Header(name: string, value: string)

  /** A response body: raw upstream bytes, or a message written with `msg.encode()`. */
  datatype Body = Bytes(data: seq<byte>) | Encoded(text: string)

  /** What the handler sees of one inbound request: the verb of the `do_*` entry point,
      `self.path`, `self.headers` and the bytes the client sends on `self.rfile`. */
  datatype Request = Request(verb: string, path: string, headers: seq<Header>, stream: seq<byte>)

  /** The arguments given to `requests.request`. */
  datatype ForwardedRequest = ForwardedRequest(
    verb: string,
    url: string,
    headers: seq<Header>,
    body: seq<byte>,
    proxies: Option<map<string, string>>)

  /** What the upstream call produced: an exception with its message, or a response. */
  datatype DispatchOutcome =
    | Failed(message: string)
    | Ok(status: int, headers: seq<Header>, content: seq<byte>)

  /** What the handler writes back: the status, the header lines it sends itself in
      order, and the body. The `Server` and `Date` lines `send_response` writes ahead of
      them are not part of this value. */
  datatype Response = Response(status: int, headers: seq<Header>, body: Body)

  /** The `Connection: close` header the handler sends last on every response. */
  const ConnectionClose: Header := Header("Connection", "close")
}
