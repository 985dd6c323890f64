# http-forwarder, modelled in Dafny

`http-forwarder.py` is a small HTTP forwarder. It picks a forwarder entry by the request's
`Host` or `X-Forwarded-Host` header and sends the request to that entry's target URL. Only
allow-listed request headers go upstream, and the call may pass through a configured
scheme-to-proxy map. The upstream status, most of its headers and its body go back to the
client, and every response closes the connection. At start-up the configuration file's
`proxies` and `forwarders` lists are checked, and missing forwarder fields get defaults.

The model is Dafny 4.11. It has one module per component:

- `Wrappers`: `Option` and `Result`.
- `Ascii`: the ASCII part of `str.lower()`, the ASCII whitespace `int()` strips (space, tab,
  line feed, vertical tab, form feed, carriage return), and decimal digits.
- `Http`: the values that cross the program. These are headers as `(name, value)` lines in
  arrival order, the inbound request, the arguments of the upstream call, the outcome of
  that call (`Failed(msg)` or `Ok(status, headers, body)`), and the response written back.
- `Configuration`: raw and normalised configuration entries, and `LoadConfig`, the start-up
  validation and defaulting pass written as a method with two loops.
- `Routing`: `GetRealHost`, `GetForwarder` and `TransformProxies` as recursive functions.
  Their contracts state first match, "no match", and "the last entry wins".
- `HeaderFilter`: the request-header filter. The Python dict `forwarderHeaders` is a sequence
  of headers with distinct names in insertion order. The loop is a method proved equal to
  the function `Filtered`. Lemmas give `Filtered`'s meaning without the loop: allowed names
  only, every allowed inbound name present, the last value per exact name, first-arrival
  order, and idempotence.
- `Relay`: the response-header loop, proved equal to `KeepUpstream(hs) + [Connection: close]`.
  Lemmas cover membership, order (the filter distributes over concatenation), idempotence,
  and the single trailing `Connection: close`.
- `RequestBody`: `HTTPMessage.get`, Python's `int()` on a string, and `rfile.read(n)`.
- `Handler`: `Handle`, the whole of `do_request` as a function of the configuration, the
  request and the upstream call, which is passed in as a function parameter. `DoRequest` is
  the imperative handler that calls the two loop methods, and it is proved equal to `Handle`.
  Lemmas cover each path: no forwarder, the forwarded request, relay, and dispatch failure.

Behaviour of the code that is easy to misread:

- `GetRealHost` does not prefer `X-Forwarded-Host` over `Host`. It returns the first header
  with either name, in arrival order (`Routing.FirstHostHeaderWins`). An `X-Forwarded-Host`
  header decides the route over `Host` only when it arrives first.
- The forwarded headers follow Python dict semantics. A name repeated under exactly the same
  spelling keeps its first position and takes its last value. Spellings that differ in case
  are separate entries.
- Configuration loading (http-forwarder.py:130-160) is modelled as well, since the routing
  table's guarantees (target scheme, no trailing slash, defaults) come from it.
- `int()` refuses a string of more than 4300 digits (Python's default
  `sys.int_info.default_max_str_digits`; underscores do not count). The model keeps that
  limit as `RequestBody.MaxStrDigits`, so such a `Content-Length` ends the request without
  a response, as any other malformed one does.
- An unsupported HTTP verb never reaches this code. Only the six `do_GET` … `do_HEAD` entry
  points exist; each passes its verb as `Request.verb`. Any other verb is answered by the
  HTTP server library.

## Model

| member | source | states |
|---|---|---|
| `Configuration.LoadConfig` | http-forwarder.py:130-160 | Succeeds iff every proxy entry has `target` and `proxy` and every forwarder target is a string starting with `http://` or `https://` and not ending in `/`. Otherwise it fails at the first bad proxy (proxies are checked first) or the first bad forwarder, with that entry's fault. On success targets are kept, present description/host/headers are kept, and missing ones get `forward <target>`, `127.0.0.1` and `["Content-Type"]`. |
| `Configuration.ForwarderAcceptedIff` | http-forwarder.py:143-154 | A forwarder passes its checks exactly when its target is a string with an http(s) scheme and no trailing slash. |
| `Routing.GetRealHost` | http-forwarder.py:17-22 | Returns a value iff some header's lower-cased name is `x-forwarded-host` or `host`; the value is that of the earliest such header. |
| `Routing.FirstHostHeaderWins` | http-forwarder.py:20-22 | Arrival order decides: `Host` then `X-Forwarded-Host` routes by `Host`, and the reverse order routes by `X-Forwarded-Host`. |
| `Routing.GetForwarder` | http-forwarder.py:25-33 | A returned entry is in the table, has exactly the key as host, and no earlier entry does; `None` iff no entry has that host; an absent key always gives `None`. |
| `Routing.TransformProxies` | http-forwarder.py:36-38 | The keys are exactly the targets of the list; each key maps to the proxy of the last entry with that target. |
| `HeaderFilter.FilterRequestHeaders` | http-forwarder.py:63-66 | The filter loop, with its keyed dict updates, computes `Filtered(headers, allow)`. |
| `HeaderFilter.FilteredSound` | http-forwarder.py:63-66 | Every forwarded name is allow-listed ignoring case and carries the last value sent under that exact name; no name appears twice. |
| `HeaderFilter.FilteredComplete` | http-forwarder.py:63-66 | Every inbound header with an allowed name is forwarded under its exact name with the last value sent under it. |
| `HeaderFilter.FilteredDropsDisallowed` | http-forwarder.py:64-65 | A name outside the allow-list is never forwarded. |
| `HeaderFilter.FilteredOrder` | http-forwarder.py:63-66 | Forwarded names stand in the order of their first arrival. |
| `HeaderFilter.FilteredIdempotent` | http-forwarder.py:63-66 | Filtering the filtered headers again with the same allow-list changes nothing. |
| `Relay.RelayHeaders` | http-forwarder.py:80-83 | The relay loop sends `KeepUpstream(hs)` and then one `Connection: close`. |
| `Relay.KeepUpstreamMembership` | http-forwarder.py:80-82 | A header is copied iff upstream sent it and its lower-cased name is not one of the six excluded names. |
| `Relay.KeepUpstreamAppend` | http-forwarder.py:80-82 | Copying distributes over concatenation, so upstream order is preserved. |
| `Relay.KeepUpstreamIdempotent` | http-forwarder.py:80-82 | Copying an already-copied header list changes nothing. |
| `Relay.RelayedClosesOnce` | http-forwarder.py:80-83 | The relayed lines end with `Connection: close`, no other line is named `connection` in any case, and no header copied from upstream has an excluded name. |
| `RequestBody.HeaderGet` | http-forwarder.py:69 | Returns a value iff some header matches the name ignoring case; the value is that of the first such header. |
| `RequestBody.ParseIntDecimal` | http-forwarder.py:69 | `int()` reads back the decimal spelling of every number of at most 4300 digits, unsigned, with `+` or with `-`. |
| `RequestBody.ParseIntTooManyDigits` | http-forwarder.py:69 | Well-formed digits numbering more than 4300 (underscores not counted) are refused, with or without a sign. |
| `RequestBody.ParseIntStripsSpace` | http-forwarder.py:69 | For every string `s` and all-whitespace `w1`, `w2`, `int(w1 + s + w2)` gives what `int(s)` gives. |
| `RequestBody.ParseIntUnderscores` | http-forwarder.py:69 | Any well-formed string of digits and single inner underscores whose digits spell `str(n)` (at most 4300 of them) reads as `n`. |
| `RequestBody.ParseIntRejects` | http-forwarder.py:69 | An empty string, a bare sign, a double underscore, a trailing letter and a leading `\x1c` separator are refused. |
| `RequestBody.ParseInt` | http-forwarder.py:69 | `int()` on a string, `None` for `ValueError`; its partners are the `ParseInt…` lemmas below, which give the read-back of `str(n)`, the whitespace, underscore and 4300-digit rules, and refused spellings. |
| `RequestBody.ContentLength` | http-forwarder.py:69 | `int(headers.get('Content-Length', 0))`: the first `Content-Length` header ignoring case (`HeaderGet`) through `ParseInt`, and 0 without one (`NoContentLengthReadsNothing`). |
| `RequestBody.ReadBody` | http-forwarder.py:70 | The body read is a prefix of what the client sends: `min(n, available)` bytes for `0 <= n <= sys.maxsize`, everything for `n == -1`, and an error (`ValueError` below -1, `OverflowError` above `sys.maxsize`) otherwise. |
| `RequestBody.NoContentLengthReadsNothing` | http-forwarder.py:69-70 | Without a `Content-Length` header the length is 0 and the body read is empty. |
| `Handler.BadResponse` | http-forwarder.py:42-47 | The 400 reply with `Content-type: text/plain`, `Connection: close` and the message as body; `NoForwarderReply`, `DispatchFailureReply` and `ReplyCloses` state its use and shape. |
| `Handler.Reply` | http-forwarder.py:73-88 | The reply the `try` block writes for each upstream outcome; `RelayedReply`, `DispatchFailureReply` and `ReplyCloses` state it. |
| `Handler.Handle` | http-forwarder.py:49-92 | `do_request` as a function: at most the client's bytes are consumed, nothing is consumed when nothing is dispatched, a dispatch always gets a reply and consumes exactly its body, and without a reply the exchange is `Exchange(0, None, None)`; the lemmas below state each path. |
| `Handler.DoRequest` | http-forwarder.py:49-92 | The imperative handler computes exactly `Handle(cfg, req, dispatch)`. |
| `Handler.NoForwarderReply` | http-forwarder.py:52-56 | No matching forwarder: nothing is read, nothing is dispatched, and the reply is 400 with `Content-type: text/plain`, `Connection: close` and body `no matching forwarder`. |
| `Handler.NoHostNoForwarder` | http-forwarder.py:52-56 | A request with neither `Host` nor `X-Forwarded-Host` always gets the no-forwarder reply. |
| `Handler.ForwardedRequestShape` | http-forwarder.py:57-76 | With a forwarder and a parsed length `-1 <= n <= sys.maxsize`, the upstream call uses the inbound verb, URL `target ++ path`, the filtered headers, the proxy map, and as body a prefix of the inbound bytes: the first `min(n, available)` for `n >= 0`, all of them for `n == -1`; that body is all that is consumed. |
| `Handler.AbortWithoutReply` | http-forwarder.py:52-70 | No response is written exactly when a forwarder matched and the `Content-Length` is unparsable, below -1 or above `sys.maxsize`; then nothing is consumed and nothing is dispatched. |
| `Handler.ForwardedHeadersAllowed` | http-forwarder.py:63-76 | Only allow-listed headers go upstream, each with the last value sent under its name, and every allow-listed inbound header does go. |
| `Handler.RelayedReply` | http-forwarder.py:79-86 | On `Ok(status, hs, body)` the reply has that status and body and headers `KeepUpstream(hs) + [Connection: close]`. |
| `Handler.DispatchFailureReply` | http-forwarder.py:87-88 | On `Failed(msg)` the reply is the 400 bad response with body `msg`. |
| `Handler.ReplyCloses` | http-forwarder.py:79-88 | On both kinds of reply of the `try` block, the header lines the handler sends end with `Connection: close` and none before it has an excluded name, so no excluded header is copied from upstream; the status is the upstream's on `Ok` and 400 on `Failed`. |
| `Handler.EveryReplyCloses` | http-forwarder.py:42-88 | On every reply written, the header lines the handler sends end with `Connection: close` and no excluded header is copied from upstream; its status is 400 or the upstream's. |
| `Handler.RoutingExample` | http-forwarder.py:49-76 | `Host: a.example.com`, path `/api/x` and `X-Custom: 1` against an entry allowing only `Content-Type` dispatch to `http://upstream:9000/api/x` with no headers and an empty body. |
| `Handler.ExampleHeaders` | http-forwarder.py:52-69 | In the routing example the key is `a.example.com`, the length defaults to 0, and neither `Host` nor `X-Custom` passes a `Content-Type` allow-list. |

## Left out

- The HTTP server, socket reads and writes, `send_response`, `send_header`, `end_headers` and
  `serve_forever` are I/O. The model gives the status, header lines and body the handler
  passes to them.
- Handler.EveryReplyCloses, Handler.ReplyCloses and Relay.RelayedClosesOnce speak only of
  the header lines the handler sends itself. `send_response` writes `Server` and `Date`
  lines before them; those are not in `Response.headers`, and the upstream's own `Server`
  and `Date` values are never copied.
- `rfile.read(n)` blocks, with no timeout, while the client keeps the connection open having
  sent fewer than `n` bytes. The model treats `Request.stream` as everything the client sends
  before closing, so a stalled client is not modelled.
- `requests.request` is a foreign library. This covers its proxy routing, redirect following,
  session default headers, the missing timeout and `response.close()`. It appears only as
  the `dispatch` parameter and its `DispatchOutcome`.
- Every exception inside the `try` (http-forwarder.py:73-88) is treated as coming from the
  upstream call, before anything is written. The relayed response can also fail after its
  status and headers are buffered: `end_headers` flushing them or `self.wfile.write(r)`
  raises when the client has gone away. The handler then tries `badresponse`, whose own
  writes usually fail the same way. That depends on the socket and is not modelled.
- Other uncaught exceptions (a malformed `Content-Length`, `read(n)` with `n < -1`, or
  `n > sys.maxsize` which `read` cannot convert to `Py_ssize_t`) end the request without a
  response. The model gives `Exchange(0, None, None)`. A failure of the
  client read itself is not modelled; the client's bytes are given as `Request.stream`.
- RequestBody.ReadBody: `read(n)` allocates room for `n` bytes before reading, so a length
  the process cannot allocate raises `MemoryError` and no reply is written. The model reads
  any length up to `sys.maxsize`, the bound of a 64-bit CPython (`RequestBody.MaxSsize`);
  the memory limit is not modelled.
- `msg.encode()` is not spelled out as bytes. A text body is `Body.Encoded(msg)`.
- `str.lower()` is modelled for ASCII only, and `int()` accepts only ASCII digits and strips
  only ASCII whitespace (space and `\t \n \v \f \r`). Unicode case mapping, non-ASCII
  digits and non-ASCII whitespace such as U+00A0 or U+2028 are out (a header value read by
  `http.client` is decoded as ISO-8859-1, so U+0085 and U+00A0 can occur).
- YAML parsing, argparse, `print` and `exit(1)` are plumbing. The exit is the `ConfigError`
  value, and the printed text is the meaning of its `Section`/`Fault` pair, not a string.
- `Configuration.LoadConfig`: it assumes `host`, `description` and `headers` are strings (a list
  of strings for `headers`) when present, and that `proxy`/`target` in a proxy entry are
  strings. Other YAML types there, a non-list `proxies` value, a null `forwarders` and YAML
  null values are not modelled. It returns a new table instead of updating the loaded
  dictionaries in place; the values are the same.
- The server's default host and port (http-forwarder.py:125-129) only feed the listener.
- There is no concurrency. `HTTPServer` handles one request at a time, and the table is
  read-only.
