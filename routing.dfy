/** Choosing where a request goes: the routing key taken from the headers
    (http-forwarder.py:17-22), the forwarder entry it selects (25-33) and the
    scheme-to-proxy map handed to the upstream call (36-38). */
module Routing {
  import opened Wrappers
  import opened Ascii
  import opened Http
  import opened Configuration

  /** A header that `GetRealHost` accepts as the routing key. */
  predicate IsHostHeader(name: string) {
    Lower(name) == "x-forwarded-host" || Lower(name) == "host"
  }

  /** The value of the first header, in arrival order, named `Host` or `X-Forwarded-Host`
      in any case; neither name is preferred over the other. `None` stands for the
      Python function falling off its loop and returning `None`. */
  function GetRealHost(hs: seq<Header>): (r: Option<string>)
    ensures r.Some? <==> exists i :: 0 <= i < |hs| && IsHostHeader(hs[i].name)
    ensures r.Some? ==>
      exists i :: 0 <= i < |hs| && IsHostHeader(hs[i].name) && hs[i].value == r.value
        && forall j :: 0 <= j < i ==> !IsHostHeader(hs[j].name)
  {
    if hs == [] then None
    else if IsHostHeader(hs[0].name) then Some(hs[0].value)
    else
      var r := GetRealHost(hs[1..]);
      assert forall i :: 1 <= i < |hs| ==> hs[i] == hs[1..][i - 1];
      r
  }

  /** The first entry in table order whose host equals the key exactly (case-sensitive).
      An absent key matches no entry, since every entry's host is a string. */
  function GetForwarder(table: seq<Forwarder>, forwardHost: Option<string>): (r: Option<Forwarder>)
    ensures forwardHost.None? ==> r.None?
    ensures r.None? <==> forall i :: 0 <= i < |table| ==> Some(table[i].host) != forwardHost
    ensures r.Some? ==>
      exists i :: 0 <= i < |table| && table[i] == r.value && Some(table[i].host) == forwardHost
        && forall j :: 0 <= j < i ==> Some(table[j].host) != forwardHost
  {
    if table == [] then None
    else if Some(table[0].host) == forwardHost then Some(table[0])
    else
      var r := GetForwarder(table[1..], forwardHost);
      assert forall i :: 1 <= i < |table| ==> table[i] == table[1..][i - 1];
      r
  }

  /** The set of targets named in `ps`. */
  ghost function Targets(ps: seq<ProxyEntry>): set<string> {
    set i | 0 <= i < |ps| :: ps[i].target
  }

  /** `m[k]` is the proxy of the last entry of `ps` whose target is `k`. */
  ghost predicate LastEntryWins(ps: seq<ProxyEntry>, m: map<string, string>) {
    forall k :: k in m ==>
      exists i :: 0 <= i < |ps| && ps[i].target == k && m[k] == ps[i].proxy
        && forall j :: i < j < |ps| ==> ps[j].target != k
  }

  /** `{x['target']: x['proxy'] for x in proxies}`: one key per target, and on a repeated
      target the entry that comes last wins. */
  function TransformProxies(ps: seq<ProxyEntry>): (m: map<string, string>)
    ensures m.Keys == Targets(ps)
    ensures LastEntryWins(ps, m)
  {
    if ps == [] then map[]
    else
      var init, last := ps[..|ps| - 1], ps[|ps| - 1];
      var m := TransformProxies(init);
      assert init + [last] == ps;
      SnocTargets(init, last);
      SnocLastWins(init, last, m);
      m[last.target := last.proxy]
  }

  lemma SnocTargets(init: seq<ProxyEntry>, last: ProxyEntry)
    ensures Targets(init + [last]) == Targets(init) + {last.target}
  {
    var ps := init + [last];
    assert forall i :: 0 <= i < |init| ==> ps[i] == init[i];
    assert ps[|init|] == last;
  }

  /** Adding an entry at the end makes it the winner for its target and leaves the
      winners of the other targets alone. */
  lemma SnocLastWins(init: seq<ProxyEntry>, last: ProxyEntry, m: map<string, string>)
    requires LastEntryWins(init, m)
    ensures LastEntryWins(init + [last], m[last.target := last.proxy])
  {
    var ps := init + [last];
    var m' := m[last.target := last.proxy];
    forall k | k in m'
      ensures exists i :: 0 <= i < |ps| && ps[i].target == k && m'[k] == ps[i].proxy
                && forall j :: i < j < |ps| ==> ps[j].target != k
    {
      if k == last.target {
        assert ps[|init|].target == k && m'[k] == ps[|init|].proxy;
      } else {
        var i :| 0 <= i < |init| && init[i].target == k && m[k] == init[i].proxy
          && forall j :: i < j < |init| ==> init[j].target != k;
        assert forall j :: i < j < |ps| ==> ps[j].target != k;
        assert ps[i].target == k && m'[k] == ps[i].proxy;
      }
    }
  }

  /** Arrival order decides, not the header's name: a `Host` line sent before an
      `X-Forwarded-Host` line is the routing key, and the other way round. */
  lemma FirstHostHeaderWins(host: string, forwarded: string, rest: seq<Header>)
    ensures GetRealHost([Header("Host", host), Header("X-Forwarded-Host", forwarded)] + rest) == Some(host)
    ensures GetRealHost([Header("X-Forwarded-Host", forwarded), Header("Host", host)] + rest) == Some(forwarded)
  {
    assert Lower("Host") == "host";
    assert Lower("X-Forwarded-Host") == "x-forwarded-host";
  }
}
