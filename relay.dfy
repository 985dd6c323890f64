/** The header lines written back for an upstream response (http-forwarder.py:79-84):
    every upstream header except six framing and server-owned names, compared without
    case, in upstream order, then one `Connection: close`. */
module Relay {
  import opened Ascii
  import opened Http

  const ExcludedNames: seq<string> :=
    ["transfer-encoding", "content-encoding", "content-length", "connection", "date", "server"]

  predicate Excluded(name: string) {
    Lower(name) in ExcludedNames
  }

  /** The upstream headers that are copied, in their order. */
  function KeepUpstream(hs: seq<Header>): seq<Header>
    decreases |hs|
  {
    if hs == [] then []
    else KeepUpstream(hs[..|hs| - 1]) + (if Excluded(hs[|hs| - 1].name) then [] else [hs[|hs| - 1]])
  }

  /** All header lines of a relayed response. */
  function RelayedHeaders(hs: seq<Header>): seq<Header> {
    KeepUpstream(hs) + [ConnectionClose]
  }

  /** The relay loop: `send_header` for each upstream header that is not excluded, then
      `send_header('Connection', 'close')`. */
  method RelayHeaders(upstream: seq<Header>) returns (sent: seq<Header>)
    ensures sent == RelayedHeaders(upstream)
  {
    sent := [];
    for i := 0 to |upstream|
      invariant sent == KeepUpstream(upstream[..i])
    {
      assert upstream[..i + 1][..i] == upstream[..i];
      if !(Lower(upstream[i].name) in ExcludedNames) {
        sent := sent + [upstream[i]];
      }
    }
    assert upstream[..|upstream|] == upstream;
    sent := sent + [ConnectionClose];
  }

  /** A header is copied exactly when the upstream sent it and its name is not excluded. */
  lemma {:induction false} KeepUpstreamMembership(hs: seq<Header>, h: Header)
    ensures h in KeepUpstream(hs) <==> h in hs && !Excluded(h.name)
    decreases |hs|
  {
    if hs != [] {
      var p := hs[..|hs| - 1];
      KeepUpstreamMembership(p, h);
      assert hs == p + [hs[|hs| - 1]];
    }
  }

  /** Copying distributes over concatenation, so relative order is preserved. */
  lemma {:induction false} KeepUpstreamAppend(a: seq<Header>, b: seq<Header>)
    ensures KeepUpstream(a + b) == KeepUpstream(a) + KeepUpstream(b)
    decreases |b|
  {
    if b == [] {
      assert a + b == a;
    } else {
      var q := b[..|b| - 1];
      var h := b[|b| - 1];
      KeepUpstreamAppend(a, q);
      assert (a + b)[..|a + b| - 1] == a + q;
    }
  }

  /** A header list without excluded names is copied unchanged; in particular copying
      is idempotent. */
  lemma {:induction false} KeepUpstreamClean(hs: seq<Header>)
    requires forall i :: 0 <= i < |hs| ==> !Excluded(hs[i].name)
    ensures KeepUpstream(hs) == hs
    decreases |hs|
  {
    if hs != [] {
      KeepUpstreamClean(hs[..|hs| - 1]);
      assert hs[..|hs| - 1] + [hs[|hs| - 1]] == hs;
    }
  }

  lemma KeepUpstreamIdempotent(hs: seq<Header>)
    ensures KeepUpstream(KeepUpstream(hs)) == KeepUpstream(hs)
  {
    forall i | 0 <= i < |KeepUpstream(hs)| ensures !Excluded(KeepUpstream(hs)[i].name) {
      KeepUpstreamMembership(hs, KeepUpstream(hs)[i]);
    }
    KeepUpstreamClean(KeepUpstream(hs));
  }

  /** The relayed lines end with `Connection: close`, that is the only line named
      `connection` in any case, and no header copied from upstream has an excluded name. */
  lemma RelayedClosesOnce(hs: seq<Header>)
    ensures |RelayedHeaders(hs)| == |KeepUpstream(hs)| + 1
    ensures RelayedHeaders(hs)[|RelayedHeaders(hs)| - 1] == ConnectionClose
    ensures forall i :: 0 <= i < |RelayedHeaders(hs)| - 1 ==>
      !Excluded(RelayedHeaders(hs)[i].name) && Lower(RelayedHeaders(hs)[i].name) != "connection"
  {
    var kept := KeepUpstream(hs);
    forall i | 0 <= i < |kept| ensures !Excluded(kept[i].name) {
      KeepUpstreamMembership(hs, kept[i]);
    }
    assert forall i :: 0 <= i < |kept| ==> RelayedHeaders(hs)[i] == kept[i];
  }
}
