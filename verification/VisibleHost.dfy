/** visibleHost: the one service with an id that an identity sees right now. */
module VisibleHost {
  import opened Common
  import opened Ordering
  import opened Policy
  import opened Selection
  import opened ServiceCards
  import opened ServiceMatcher
  import opened EditorProtocol

  lemma {:induction false} WithIdCount(hosts: seq<ProxyHost>, id: int, h: ProxyHost)
    ensures multiset(WithId(hosts, id))[h] == if h.id == id then multiset(hosts)[h] else 0
  {
    if hosts != [] {
      var n := |hosts| - 1;
      WithIdCount(hosts[..n], id, h);
      assert hosts == hosts[..n] + [hosts[n]];
    }
  }

  lemma WithIdPermuted(a: seq<ProxyHost>, b: seq<ProxyHost>, id: int)
    requires multiset(a) == multiset(b)
    ensures multiset(WithId(a, id)) == multiset(WithId(b, id))
    ensures |WithId(a, id)| == |WithId(b, id)|
    ensures |WithId(a, id)| == 1 ==> WithId(a, id) == WithId(b, id)
  {
    var x, y := WithId(a, id), WithId(b, id);
    forall h ensures multiset(x)[h] == multiset(y)[h] {
      WithIdCount(a, id, h);
      WithIdCount(b, id, h);
    }
    assert multiset(x) == multiset(y);
    SameLength(x, y);
    if |x| == 1 { assert x[0] in multiset(y); }
  }

  lemma HostsWithout(s: seq<Match>, k: nat)
    requires k < |s|
    ensures multiset(HostsOf(s)) == multiset(HostsOf(s[..k] + s[k + 1..])) + multiset{s[k].host}
  {
    assert HostsOf(s) == HostsOf(s)[..k] + [s[k].host] + HostsOf(s)[k + 1..];
    assert HostsOf(s[..k] + s[k + 1..]) == HostsOf(s)[..k] + HostsOf(s)[k + 1..];
  }

  lemma {:induction false} HostsPermuted(a: seq<Match>, b: seq<Match>)
    requires multiset(a) == multiset(b)
    ensures multiset(HostsOf(a)) == multiset(HostsOf(b))
  {
    SameLength(a, b);
    if a != [] {
      var n := |a| - 1;
      assert a[n] in multiset(b);
      var k :| 0 <= k < |b| && b[k] == a[n];
      HostsWithout(a, n);
      HostsWithout(b, k);
      WithoutOne(a, n);
      WithoutOne(b, k);
      assert a[..n] + a[n + 1..] == a[..n];
      HostsPermuted(a[..n], b[..k] + b[k + 1..]);
    }
  }

  /** The shown matches, in whatever order they were sorted, are those of the visible hosts. */
  lemma ShownHosts(result: seq<Match>, login: string, data: CacheData, order: seq<string>, lib: ServiceMatcher.Library,
                   id: int)
    requires IsEvaluation(result, Some(login), Some(data), order, lib)
    ensures |WithId(HostsOf(result), id)| == |WithId(VisibleHosts(data, login, order, lib.net), id)|
    ensures |WithId(HostsOf(result), id)| == 1 ==>
              WithId(HostsOf(result), id) == WithId(VisibleHosts(data, login, order, lib.net), id)
  {
    if data.policy.Some? && NormalizedLogin(TrimSpace(login)) != "" {
      var rules, viewer := AccessRules(data.policy.value), ViewerFor(login, order, data);
      var matches: seq<Match> :| MatchesInHostOrder(matches, data.proxyHosts, rules, viewer, data.metadata, lib)
          && multiset(result) == multiset(matches);
      OneMatchPerVisibleHost(matches, data.proxyHosts, rules, viewer, data.metadata, lib);
      HostsPermuted(result, matches);
      WithIdPermuted(HostsOf(result), HostsOf(matches), id);
    } else {
      assert HostsOf(result) == [];
    }
  }

  method FindHost(result: seq<Match>, id: int) returns (selected: Option<ProxyHost>)
    ensures selected.Some? <==> |WithId(HostsOf(result), id)| == 1
    ensures selected.Some? ==> WithId(HostsOf(result), id)[0] == selected.value
  {
    selected := None;
    for k := 0 to |result|
      invariant WithId(HostsOf(result[..k]), id) == if selected.Some? then [selected.value] else []
    {
      assert HostsOf(result[..k + 1])[..k] == HostsOf(result[..k]);
      if result[k].host.id == id {
        if selected.Some? {
          WithIdGrows(HostsOf(result), k + 1, id);
          assert HostsOf(result)[..k + 1] == HostsOf(result[..k + 1]);
          return None;
        }
        selected := Some(result[k].host);
      }
    }
    assert result[..|result|] == result;
  }

  lemma {:induction false} WithIdGrows(hosts: seq<ProxyHost>, k: nat, id: int)
    requires k <= |hosts|
    ensures |WithId(hosts[..k], id)| <= |WithId(hosts, id)|
  {
    if k == |hosts| {
      assert hosts[..k] == hosts;
    } else {
      WithIdGrows(hosts[..|hosts| - 1], k, id);
      assert hosts[..|hosts| - 1][..k] == hosts[..k];
    }
  }

  /** A moment at which a check may happen: the clock readings are given, the order is one of the policy's groups. */
  ghost predicate At(m: Moment, token: int, now: int, data: Option<CacheData>) {
    m.token == token && m.now == now && OrderFits(m.order, data)
  }

  lemma SomeMoment(data: Option<CacheData>, token: int, now: int) returns (m: Moment)
    ensures At(m, token, now, data)
  {
    m := Moment(token, now, []);
    if data.Some? && data.value.policy.Some? {
      m := Moment(token, now, SortedKeys(data.value.policy.value.groups.Keys));
      AscendingIsDistinct(m.order);
    }
  }

  /** `data` is the request's own: the cache's snapshot with the editor's metadata in it. */
  method CheckVisible(data: Option<CacheData>, req: Request, key: nat, ghost token: int, now: int,
                      lib: ServiceMatcher.Library, staleAfter: int)
      returns (error: Option<EditError>)
    ensures exists m | At(m, token, now, data) :: error == VisibilityError(data, req, key, m, lib.net, staleAfter)
  {
    ghost var m := SomeMoment(data, token, now);
    if data.None? || OutOfDate(data.value, now, staleAfter) {
      assert VisibilityError(data, req, key, m, lib.net, staleAfter) == Some(Stale);
      return Some(Stale);
    }
    var result := EvaluateServices(Some(req.login), data, lib);
    ghost var order :| IsEvaluation(result, Some(req.login), data, order, lib);
    if OrderFits(order, data) { m := Moment(token, now, order); }
    ShownHosts(result, req.login, data.value, order, lib, req.id);
    ghost var verdict := VisibilityError(data, req, key, m, lib.net, staleAfter);
    var selected := FindHost(result, req.id);
    if selected.None? {
      assert verdict == Some(NotVisible);
      return Some(NotVisible);
    }
    if req.target.Some? && req.target.value != TargetMac(key, selected.value) {
      assert verdict == Some(Conflict);
      return Some(Conflict);
    }
    assert verdict == None;
    return None;
  }
}
