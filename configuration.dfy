/** The routing table and proxy list as the startup code leaves them, and the
    validation-and-defaulting pass (http-forwarder.py:131-160) that produces them
    from the loaded configuration file. */
module Configuration {
  import opened Wrappers

  /** A YAML scalar as far as the startup code looks at it: a string or something else. */
  datatype Scalar = Str(s: string) | NonStr

  /** One `proxies` entry as loaded; a field is `None` when its key is absent. */
  datatype RawProxy = RawProxy(target: Option<string>, proxy: Option<string>)

  /** One `forwarders` entry as loaded; a field is `None` when its key is absent. */
  datatype RawForwarder = RawForwarder(
    target: Option<Scalar>,
    description: Option<string>,
    host: Option<string>,
    headers: Option<seq<string>>)

  /** A validated `{target, proxy}` pair. */
  datatype ProxyEntry = ProxyEntry(target: string, proxy: string)

  /** A forwarder entry with every field filled in. */
  datatype Forwarder = Forwarder(host: string, target: string, headers: seq<string>, description: string)

  /** What the request handler reads from the global configuration. */
  datatype Config = Config(proxies: Option<seq<ProxyEntry>>, forwarders: seq<Forwarder>)

  /** The five start-up failures; each stands for the message the program prints before
      exiting with status 1 (`proxies[i].target is not defined`, `proxies[i].proxy is not
      defined`, `forwarder[i].target is not defined`, `forwarder[i].target not startswith
      http:// or https://`, `forwarder[i].target can not endswith /`). */
  datatype Section = Proxies | Forwarders
  datatype Fault = TargetUndefined | ProxyUndefined | TargetNotHttp | TargetEndsWithSlash
  datatype ConfigError = ConfigError(section: Section, index: nat, fault: Fault)

  const DefaultHost: string := "127.0.0.1"
  const DefaultHeaders: seq<string> := ["Content-Type"]

  function DefaultDescription(target: string): string {
    "forward " + target
  }

  predicate HasHttpScheme(t: string) {
    "http://" <= t || "https://" <= t
  }

  predicate EndsWithSlash(t: string) {
    |t| > 0 && t[|t| - 1] == '/'
  }

  /** The shape every forwarder target must have once loading succeeds. */
  predicate ValidTarget(t: string) {
    HasHttpScheme(t) && !EndsWithSlash(t)
  }

  /** Why a proxy entry is refused, checking `target` before `proxy`. */
  function ProxyFault(p: RawProxy): Option<Fault> {
    if p.target.None? then Some(TargetUndefined)
    else if p.proxy.None? then Some(ProxyUndefined)
    else None
  }

  /** Why a forwarder entry is refused: a missing or non-string target, then a
      wrong scheme, and only when the scheme is right a trailing slash. */
  function ForwarderFault(f: RawForwarder): Option<Fault> {
    if f.target.None? || !f.target.value.Str? then Some(TargetUndefined)
    else if !HasHttpScheme(f.target.value.s) then Some(TargetNotHttp)
    else if EndsWithSlash(f.target.value.s) then Some(TargetEndsWithSlash)
    else None
  }

  ghost predicate ProxiesAccepted(proxies: Option<seq<RawProxy>>) {
    proxies.Some? ==> forall i :: 0 <= i < |proxies.value| ==> ProxyFault(proxies.value[i]).None?
  }

  ghost predicate ForwardersAccepted(forwarders: seq<RawForwarder>) {
    forall i :: 0 <= i < |forwarders| ==> ForwarderFault(forwarders[i]).None?
  }

  /** `f` is `raw` after defaulting: the target kept (and well formed), and each of
      description, host and headers kept when present and defaulted when absent. */
  ghost predicate Normalised(raw: RawForwarder, f: Forwarder) {
    && raw.target == Some(Str(f.target))
    && ValidTarget(f.target)
    && f.description == raw.description.GetOr(DefaultDescription(f.target))
    && f.host == raw.host.GetOr(DefaultHost)
    && f.headers == raw.headers.GetOr(DefaultHeaders)
  }

  /** The start-up pass: every proxy entry is checked first (only when `proxies` is a
      list), then each forwarder in turn is checked and filled with defaults. The first
      offending entry decides the error. */
  method LoadConfig(proxies: Option<seq<RawProxy>>, forwarders: seq<RawForwarder>)
    returns (r: Result<Config, ConfigError>)
    ensures r.Success? <==> ProxiesAccepted(proxies) && ForwardersAccepted(forwarders)
    ensures r.Failure? && r.error.section == Proxies ==>
      && proxies.Some?
      && r.error.index < |proxies.value|
      && ProxyFault(proxies.value[r.error.index]) == Some(r.error.fault)
      && forall j :: 0 <= j < r.error.index ==> ProxyFault(proxies.value[j]).None?
    ensures r.Failure? && r.error.section == Forwarders ==>
      && ProxiesAccepted(proxies)
      && r.error.index < |forwarders|
      && ForwarderFault(forwarders[r.error.index]) == Some(r.error.fault)
      && forall j :: 0 <= j < r.error.index ==> ForwarderFault(forwarders[j]).None?
    ensures r.Success? ==>
      && r.value.proxies.Some? == proxies.Some?
      && (proxies.Some? ==>
            && |r.value.proxies.value| == |proxies.value|
            && forall i :: 0 <= i < |proxies.value| ==>
                 Some(r.value.proxies.value[i].target) == proxies.value[i].target
                 && Some(r.value.proxies.value[i].proxy) == proxies.value[i].proxy)
    ensures r.Success? ==>
      && |r.value.forwarders| == |forwarders|
      && forall i :: 0 <= i < |forwarders| ==> Normalised(forwarders[i], r.value.forwarders[i])
  {
    var checked: Option<seq<ProxyEntry>> := None;
    if proxies.Some? {
      var ps := proxies.value;
      var entries: seq<ProxyEntry> := [];
      for i := 0 to |ps|
        invariant |entries| == i
        invariant forall j :: 0 <= j < i ==>
          ProxyFault(ps[j]).None? && Some(entries[j].target) == ps[j].target && Some(entries[j].proxy) == ps[j].proxy
      {
        if ps[i].target.None? {
          return Failure(ConfigError(Proxies, i, TargetUndefined));
        }
        if ps[i].proxy.None? {
          return Failure(ConfigError(Proxies, i, ProxyUndefined));
        }
        entries := entries + [ProxyEntry(ps[i].target.value, ps[i].proxy.value)];
      }
      checked := Some(entries);
    }
    var table: seq<Forwarder> := [];
    for i := 0 to |forwarders|
      invariant |table| == i
      invariant forall j :: 0 <= j < i ==> ForwarderFault(forwarders[j]).None? && Normalised(forwarders[j], table[j])
    {
      var f := forwarders[i];
      if f.target.None? || !f.target.value.Str? {
        return Failure(ConfigError(Forwarders, i, TargetUndefined));
      }
      var target := f.target.value.s;
      if !("http://" <= target) && !("https://" <= target) {
        return Failure(ConfigError(Forwarders, i, TargetNotHttp));
      } else if |target| > 0 && target[|target| - 1] == '/' {
        return Failure(ConfigError(Forwarders, i, TargetEndsWithSlash));
      }
      var description := f.description.GetOr(DefaultDescription(target));
      var host := f.host.GetOr(DefaultHost);
      var headers := f.headers.GetOr(DefaultHeaders);
      table := table + [Forwarder(host, target, headers, description)];
    }
    r := Success(Config(checked, table));
  }

  /** An entry passes the forwarder checks exactly when its target is a string with an
      http or https scheme and no trailing slash. */
  lemma ForwarderAcceptedIff(f: RawForwarder)
    ensures ForwarderFault(f).None? <==> f.target.Some? && f.target.value.Str? && ValidTarget(f.target.value.s)
  {
  }
}
