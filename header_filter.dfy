/** The request-header filter of `do_request` (http-forwarder.py:63-66): inbound headers
    whose name matches the forwarder's allow-list, ignoring case, are stored in the Python
    dict `forwarderHeaders` under their exact name. The dict is modelled as a sequence of
    headers with pairwise distinct names, in insertion order. */
module HeaderFilter {
  import opened Wrappers
  import opened Ascii
  import opened Http

  /** `[x.lower() for x in forwarder['headers']]` */
  function LowerAll(names: seq<string>): seq<string> {
    seq(|names|, i requires 0 <= i < |names| => Lower(names[i]))
  }

  /** `header.lower() in [x.lower() for x in forwarder['headers']]` */
  predicate Allowed(name: string, allow: seq<string>) {
    Lower(name) in LowerAll(allow)
  }

  /** `d[h.name] = h.value`: an existing key keeps its position and takes the new value,
      a new key goes to the end. */
  function Put(d: seq<Header>, h: Header): seq<Header> {
    if d == [] then [h]
    else if d[0].name == h.name then [h] + d[1..]
    else [d[0]] + Put(d[1..], h)
  }

  /** The dict after the loop has run over all of `hs`. */
  function Filtered(hs: seq<Header>, allow: seq<string>): seq<Header>
    decreases |hs|
  {
    if hs == [] then []
    else
      var d := Filtered(hs[..|hs| - 1], allow);
      if Allowed(hs[|hs| - 1].name, allow) then Put(d, hs[|hs| - 1]) else d
  }

  /** The filter loop itself. */
  method FilterRequestHeaders(hs: seq<Header>, allow: seq<string>) returns (forwarded: seq<Header>)
    ensures forwarded == Filtered(hs, allow)
  {
    forwarded := [];
    for i := 0 to |hs|
      invariant forwarded == Filtered(hs[..i], allow)
    {
      assert hs[..i + 1][..i] == hs[..i];
      var allowed := LowerAll(allow);
      if Lower(hs[i].name) in allowed {
        forwarded := Put(forwarded, hs[i]);
      }
    }
    assert hs[..|hs|] == hs;
  }

  // ---------------------------------------------------------------------------
  // What the filtered dict is, stated without the loop.

  ghost predicate HasName(d: seq<Header>, n: string) {
    exists j :: 0 <= j < |d| && d[j].name == n
  }

  /** Dict keys are unique. */
  ghost predicate DistinctNames(d: seq<Header>) {
    forall j, k :: 0 <= j < k < |d| ==> d[j].name != d[k].name
  }

  /** The value of the last header in `hs` with exactly the name `n`. */
  function LastValue(hs: seq<Header>, n: string): Option<string>
    decreases |hs|
  {
    if hs == [] then None
    else if hs[|hs| - 1].name == n then Some(hs[|hs| - 1].value)
    else LastValue(hs[..|hs| - 1], n)
  }

  /** Name `x` is sent before any header named `y` is. */
  ghost predicate OccursBefore(hs: seq<Header>, x: string, y: string) {
    exists a :: 0 <= a < |hs| && hs[a].name == x && forall b :: 0 <= b <= a ==> hs[b].name != y
  }

  /** `d` is the filter of `hs`: unique names; only allowed names, each carrying the last
      value sent under it; every allowed inbound name present; names in the order of
      their first arrival. */
  ghost predicate FilterOf(d: seq<Header>, hs: seq<Header>, allow: seq<string>) {
    && DistinctNames(d)
    && (forall j :: 0 <= j < |d| ==> Allowed(d[j].name, allow) && LastValue(hs, d[j].name) == Some(d[j].value))
    && (forall i :: 0 <= i < |hs| && Allowed(hs[i].name, allow) ==> HasName(d, hs[i].name))
    && (forall j, k :: 0 <= j < k < |d| ==> OccursBefore(hs, d[j].name, d[k].name))
  }

  lemma {:induction false} PutExisting(d: seq<Header>, h: Header, m: nat)
    requires DistinctNames(d) && m < |d| && d[m].name == h.name
    ensures Put(d, h) == d[m := h]
    decreases |d|
  {
    if m > 0 {
      assert d[0].name != h.name;
      PutExisting(d[1..], h, m - 1);
      assert d[1..][m - 1 := h] == d[m := h][1..];
    }
  }

  lemma {:induction false} PutAbsent(d: seq<Header>, h: Header)
    requires !HasName(d, h.name)
    ensures Put(d, h) == d + [h]
    decreases |d|
  {
    if d != [] {
      assert d[0].name != h.name;
      assert forall j :: 0 <= j < |d| - 1 ==> d[1..][j] == d[j + 1];
      PutAbsent(d[1..], h);
      assert [d[0]] + (d[1..] + [h]) == d + [h];
    }
  }

  lemma LastValueSnoc(p: seq<Header>, h: Header, n: string)
    ensures LastValue(p + [h], n) == if h.name == n then Some(h.value) else LastValue(p, n)
  {
    assert (p + [h])[..|p|] == p;
  }

  lemma {:induction false} LastValueOccurs(p: seq<Header>, n: string)
    requires LastValue(p, n).Some?
    ensures HasName(p, n)
    decreases |p|
  {
    if p[|p| - 1].name != n {
      LastValueOccurs(p[..|p| - 1], n);
      var j :| 0 <= j < |p| - 1 && p[..|p| - 1][j].name == n;
      assert p[j].name == n;
    }
  }

  lemma OccursBeforeSnoc(p: seq<Header>, h: Header, x: string, y: string)
    requires OccursBefore(p, x, y)
    ensures OccursBefore(p + [h], x, y)
  {
    var a :| 0 <= a < |p| && p[a].name == x && forall b :: 0 <= b <= a ==> p[b].name != y;
    assert (p + [h])[a].name == x;
    assert forall b :: 0 <= b <= a ==> (p + [h])[b] == p[b];
  }

  /** A new name arrives after every name already in the dict. */
  lemma OccursBeforeNew(p: seq<Header>, h: Header, x: string)
    requires HasName(p, x) && !HasName(p, h.name)
    ensures OccursBefore(p + [h], x, h.name)
  {
    var a :| 0 <= a < |p| && p[a].name == x;
    assert (p + [h])[a].name == x;
    assert forall b :: 0 <= b <= a ==> (p + [h])[b] == p[b];
  }

  /** What every turn of the loop keeps: values of other names and the relative order of
      names already stored. */
  lemma SnocFacts(p: seq<Header>, h: Header, d: seq<Header>)
    requires forall j, k :: 0 <= j < k < |d| ==> OccursBefore(p, d[j].name, d[k].name)
    ensures forall n :: LastValue(p + [h], n) == if h.name == n then Some(h.value) else LastValue(p, n)
    ensures forall j, k :: 0 <= j < k < |d| ==> OccursBefore(p + [h], d[j].name, d[k].name)
  {
    forall n ensures LastValue(p + [h], n) == if h.name == n then Some(h.value) else LastValue(p, n) {
      LastValueSnoc(p, h, n);
    }
    forall j, k | 0 <= j < k < |d| ensures OccursBefore(p + [h], d[j].name, d[k].name) {
      OccursBeforeSnoc(p, h, d[j].name, d[k].name);
    }
  }

  /** A turn that skips a header whose name is not allowed. */
  lemma StepSkip(d: seq<Header>, p: seq<Header>, h: Header, allow: seq<string>)
    requires FilterOf(d, p, allow) && !Allowed(h.name, allow)
    ensures FilterOf(d, p + [h], allow)
  {
    SnocFacts(p, h, d);
    assert forall i :: 0 <= i < |p| ==> (p + [h])[i] == p[i];
    assert forall j :: 0 <= j < |d| ==> d[j].name != h.name;
  }

  /** A turn that overwrites the value of a name already stored. */
  lemma StepOverwrite(d: seq<Header>, p: seq<Header>, h: Header, allow: seq<string>, m: nat)
    requires FilterOf(d, p, allow) && Allowed(h.name, allow)
    requires m < |d| && d[m].name == h.name
    ensures FilterOf(d[m := h], p + [h], allow)
  {
    var p' := p + [h];
    var d' := d[m := h];
    SnocFacts(p, h, d);
    assert forall i :: 0 <= i < |p| ==> p'[i] == p[i];
    assert forall j :: 0 <= j < |d| ==> d'[j].name == d[j].name;
    assert forall j :: 0 <= j < |d| && j != m ==> d[j].name != h.name;
    forall i | 0 <= i < |p'| && Allowed(p'[i].name, allow) ensures HasName(d', p'[i].name) {
      if i < |p| {
        var j :| 0 <= j < |d| && d[j].name == p[i].name;
        assert d'[j].name == p'[i].name;
      } else {
        assert d'[m].name == p'[i].name;
      }
    }
  }

  /** A turn that stores a name for the first time, at the end. */
  lemma StepAppend(d: seq<Header>, p: seq<Header>, h: Header, allow: seq<string>)
    requires FilterOf(d, p, allow) && Allowed(h.name, allow) && !HasName(d, h.name)
    ensures FilterOf(d + [h], p + [h], allow)
  {
    var p' := p + [h];
    var d' := d + [h];
    SnocFacts(p, h, d);
    assert forall i :: 0 <= i < |p| ==> p'[i] == p[i];
    assert forall j :: 0 <= j < |d| ==> d'[j] == d[j];
    assert !HasName(p, h.name);
    forall j | 0 <= j < |d| ensures OccursBefore(p', d[j].name, h.name) {
      LastValueOccurs(p, d[j].name);
      OccursBeforeNew(p, h, d[j].name);
    }
    forall i | 0 <= i < |p'| && Allowed(p'[i].name, allow) ensures HasName(d', p'[i].name) {
      if i < |p| {
        var j :| 0 <= j < |d| && d[j].name == p[i].name;
        assert d'[j].name == p'[i].name;
      } else {
        assert d'[|d|].name == p'[i].name;
      }
    }
  }

  /** One turn of the loop keeps `FilterOf`. */
  lemma FilterStep(d: seq<Header>, p: seq<Header>, h: Header, allow: seq<string>)
    requires FilterOf(d, p, allow)
    ensures FilterOf(if Allowed(h.name, allow) then Put(d, h) else d, p + [h], allow)
  {
    if !Allowed(h.name, allow) {
      StepSkip(d, p, h, allow);
    } else if HasName(d, h.name) {
      var m :| 0 <= m < |d| && d[m].name == h.name;
      PutExisting(d, h, m);
      StepOverwrite(d, p, h, allow, m);
    } else {
      PutAbsent(d, h);
      StepAppend(d, p, h, allow);
    }
  }

  lemma {:induction false} FilteredIsFilterOf(hs: seq<Header>, allow: seq<string>)
    ensures FilterOf(Filtered(hs, allow), hs, allow)
    decreases |hs|
  {
    if hs != [] {
      var p, h := hs[..|hs| - 1], hs[|hs| - 1];
      var d := Filtered(p, allow);
      assert p + [h] == hs;
      assert Filtered(hs, allow) == if Allowed(h.name, allow) then Put(d, h) else d;
      FilteredIsFilterOf(p, allow);
      FilterStep(d, p, h, allow);
    }
  }

  // ---------------------------------------------------------------------------
  // The properties of the filter.

  /** Every forwarded header has an allowed name, was sent under exactly that name, and
      carries the last value sent under it; no name is forwarded twice. */
  lemma FilteredSound(hs: seq<Header>, allow: seq<string>)
    ensures forall j :: 0 <= j < |Filtered(hs, allow)| ==>
      Allowed(Filtered(hs, allow)[j].name, allow)
      && LastValue(hs, Filtered(hs, allow)[j].name) == Some(Filtered(hs, allow)[j].value)
    ensures DistinctNames(Filtered(hs, allow))
  {
    FilteredIsFilterOf(hs, allow);
  }

  /** Every inbound header with an allowed name is forwarded under its exact name, with
      the last value sent under that name. */
  lemma FilteredComplete(hs: seq<Header>, allow: seq<string>, i: nat)
    requires i < |hs| && Allowed(hs[i].name, allow)
    ensures exists j :: 0 <= j < |Filtered(hs, allow)| && Filtered(hs, allow)[j].name == hs[i].name
                && LastValue(hs, hs[i].name) == Some(Filtered(hs, allow)[j].value)
  {
    FilteredIsFilterOf(hs, allow);
  }

  /** A header with a name outside the allow-list is never forwarded. */
  lemma FilteredDropsDisallowed(hs: seq<Header>, allow: seq<string>, n: string)
    requires !Allowed(n, allow)
    ensures forall j :: 0 <= j < |Filtered(hs, allow)| ==> Filtered(hs, allow)[j].name != n
  {
    FilteredIsFilterOf(hs, allow);
  }

  /** Forwarded names stand in the order in which they first arrived. */
  lemma FilteredOrder(hs: seq<Header>, allow: seq<string>)
    ensures forall j, k :: 0 <= j < k < |Filtered(hs, allow)| ==>
      OccursBefore(hs, Filtered(hs, allow)[j].name, Filtered(hs, allow)[k].name)
  {
    FilteredIsFilterOf(hs, allow);
  }

  /** A dict that already holds only allowed, distinct names comes out of the filter as it went in. */
  lemma {:induction false} FilteredFixesClean(d: seq<Header>, allow: seq<string>)
    requires DistinctNames(d)
    requires forall j :: 0 <= j < |d| ==> Allowed(d[j].name, allow)
    ensures Filtered(d, allow) == d
    decreases |d|
  {
    if d != [] {
      var p := d[..|d| - 1];
      var h := d[|d| - 1];
      FilteredFixesClean(p, allow);
      assert forall j :: 0 <= j < |p| ==> p[j] == d[j];
      PutAbsent(p, h);
      assert p + [h] == d;
    }
  }

  /** Filtering twice with the same allow-list is filtering once. */
  lemma FilteredIdempotent(hs: seq<Header>, allow: seq<string>)
    ensures Filtered(Filtered(hs, allow), allow) == Filtered(hs, allow)
  {
    FilteredIsFilterOf(hs, allow);
    FilteredFixesClean(Filtered(hs, allow), allow);
  }
}
