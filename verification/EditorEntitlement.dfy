/** What it takes to pass the editor's checks: a token issued to the login, and the one service it sees. */
module EditorEntitlement {
  import opened Common
  import opened Policy
  import opened Selection
  import opened ServiceCards
  import opened ServiceMatcher
  import opened EditorProtocol
  import opened EditorSafety
  import M = ServiceMetadata

  // Tokens

  /** csrf: the token that the form hands to a login at a time, stamped with the whole second. */
  function Issue(key: nat, login: string, at: int): Token { Token(at / SECOND, CsrfMac(key, login, at / SECOND)) }

  /** The token was issued to this login, not after now, and is at most half an hour old by its stamp. */
  ghost predicate FreshlyIssued(token: Token, key: nat, login: string, now: int) {
    exists at :: token == Issue(key, login, at) && at / SECOND * SECOND <= now <= at / SECOND * SECOND + 1800 * SECOND
  }

  ghost predicate Issued(token: Token, key: nat, login: string) { exists at :: token == Issue(key, login, at) }

  lemma ValidCsrfMeaning(req: Request, key: nat, now: int)
    ensures ValidCsrf(req, key, now) <==> FreshlyIssued(req.csrf, key, req.login, now)
  {
    if ValidCsrf(req, key, now) {
      var at := req.csrf.issued * SECOND;
      assert at / SECOND == req.csrf.issued;
      assert req.csrf == Issue(key, req.login, at);
    }
  }

  /** The final check answers "forbidden" exactly for a token that was not freshly issued to the login. */
  lemma ForbiddenExactly(data: Option<CacheData>, req: Request, key: nat, m: Moment, env: Env)
    requires env.visibility(data, req, key, m) != Some(Csrf)
    ensures FinalError(data, req, key, m, env) == Some(Csrf) <==> !FreshlyIssued(req.csrf, key, req.login, m.token)
  {
    ValidCsrfMeaning(req, key, m.token);
  }

  // Visibility

  /** The identity sees this host, its groups being ranged over in this order. */
  ghost predicate Sees(data: CacheData, login: string, order: seq<string>, host: ProxyHost, net: Network) {
    && data.policy.Some? && TrimSpace(login) != "" && IterationOrder(order, data.policy.value.groups)
    && Visible(host, AccessRules(data.policy.value), ViewerFor(login, order, data), net)
  }

  ghost function SeesTest(data: CacheData, req: Request, order: seq<string>, net: Network): ProxyHost -> bool {
    (h: ProxyHost) => h.id == req.id && Sees(data, req.login, order, h, net)
  }

  predicate OnlyOne(hosts: seq<ProxyHost>, p: ProxyHost -> bool, k: nat)
    requires k < |hosts|
  {
    p(hosts[k]) && forall j | 0 <= j < |hosts| && p(hosts[j]) :: j == k
  }

  /** The identity sees the k-th host, and no other with the requested id. */
  ghost predicate SeesOnly(data: CacheData, k: nat, req: Request, order: seq<string>, net: Network)
    requires k < |data.proxyHosts|
  {
    OnlyOne(data.proxyHosts, SeesTest(data, req, order, net), k)
  }

  ghost predicate Fresh(data: Option<CacheData>, now: int, staleAfter: int) {
    data.Some? && data.value.updatedAt != 0 && data.value.updatedAt <= now <= data.value.updatedAt + staleAfter
  }

  /** What a request needs: fresh data in which its login sees exactly one host with the id, the one it means. */
  ghost predicate Entitled(data: Option<CacheData>, req: Request, key: nat, m: Moment, net: Network, staleAfter: int) {
    && Fresh(data, m.now, staleAfter)
    && exists k | 0 <= k < |data.value.proxyHosts| ::
         && SeesOnly(data.value, k, req, m.order, net)
         && (req.target.Some? ==> req.target.value == TargetMac(key, data.value.proxyHosts[k]))
  }

  function Both(keep: ProxyHost -> bool, id: int): ProxyHost -> bool { h => keep(h) && h.id == id }

  lemma {:induction false} WithIdOfFilter(hosts: seq<ProxyHost>, keep: ProxyHost -> bool, id: int)
    ensures WithId(Filter(hosts, keep), id) == Filter(hosts, Both(keep, id))
  {
    if hosts != [] {
      var n := |hosts| - 1;
      WithIdOfFilter(hosts[..n], keep, id);
      var a, h := Filter(hosts[..n], keep), hosts[n];
      assert (a + [h])[..|a|] == a && a + [] == a;
    }
  }

  lemma NoneSelected(hosts: seq<ProxyHost>, p: ProxyHost -> bool)
    ensures Filter(hosts, p) == [] <==> forall j | 0 <= j < |hosts| :: !p(hosts[j])
  {
    if Filter(hosts, p) != [] { assert Filter(hosts, p)[0] in hosts; }
    if j :| 0 <= j < |hosts| && p(hosts[j]) { assert hosts[j] in Filter(hosts, p); }
  }

  lemma LastOnly(hosts: seq<ProxyHost>, p: ProxyHost -> bool)
    requires hosts != [] && p(hosts[|hosts| - 1]) && Filter(hosts[..|hosts| - 1], p) == []
    ensures OnlyOne(hosts, p, |hosts| - 1)
  {
    var n := |hosts| - 1;
    NoneSelected(hosts[..n], p);
    forall j | 0 <= j < n ensures !p(hosts[j]) { assert hosts[..n][j] == hosts[j]; }
  }

  lemma NotLast(hosts: seq<ProxyHost>, p: ProxyHost -> bool, k: nat)
    requires hosts != [] && !p(hosts[|hosts| - 1]) && k < |hosts| - 1 && OnlyOne(hosts[..|hosts| - 1], p, k)
    ensures OnlyOne(hosts, p, k)
  {
    var n := |hosts| - 1;
    forall j | 0 <= j < |hosts| && p(hosts[j]) ensures j == k { assert hosts[..n][j] == hosts[j]; }
  }

  lemma {:induction false} OneSelected(hosts: seq<ProxyHost>, p: ProxyHost -> bool) returns (k: nat)
    ensures |Filter(hosts, p)| == 1 ==> k < |hosts| && OnlyOne(hosts, p, k) && Filter(hosts, p) == [hosts[k]]
  {
    hide OnlyOne;
    k := 0;
    if |Filter(hosts, p)| == 1 {
      var n := |hosts| - 1;
      if p(hosts[n]) {
        k := n;
        LastOnly(hosts, p);
      } else {
        k := OneSelected(hosts[..n], p);
        NotLast(hosts, p, k);
      }
    }
  }

  lemma {:induction false} OnlyOneSelected(hosts: seq<ProxyHost>, p: ProxyHost -> bool, k: nat)
    requires k < |hosts| && OnlyOne(hosts, p, k)
    ensures Filter(hosts, p) == [hosts[k]]
  {
    var n := |hosts| - 1;
    NoneSelected(hosts[..n], p);
    if k < n { OnlyOneSelected(hosts[..n], p, k); }
  }

  lemma SelectedAreSeen(data: CacheData, req: Request, order: seq<string>, net: Network)
    requires data.policy.Some? ==> IterationOrder(order, data.policy.value.groups)
    ensures WithId(VisibleHosts(data, req.login, order, net), req.id)
        == Filter(data.proxyHosts, SeesTest(data, req, order, net))
  {
    if data.policy.Some? && NormalizedLogin(TrimSpace(req.login)) != "" {
      var keep := IsVisible(AccessRules(data.policy.value), ViewerFor(req.login, order, data), net);
      WithIdOfFilter(data.proxyHosts, keep, req.id);
      SameFilter(data.proxyHosts, Both(keep, req.id), SeesTest(data, req, order, net));
    } else {
      NoneSelected(data.proxyHosts, SeesTest(data, req, order, net));
    }
  }

  lemma {:induction false} SameFilter(hosts: seq<ProxyHost>, p: ProxyHost -> bool, q: ProxyHost -> bool)
    requires forall h :: p(h) <==> q(h)
    ensures Filter(hosts, p) == Filter(hosts, q)
  {
    if hosts != [] { SameFilter(hosts[..|hosts| - 1], p, q); }
  }

  /** What visibleHost finds among the visible hosts. */
  lemma FoundIsSeen(data: CacheData, req: Request, order: seq<string>, net: Network)
    requires data.policy.Some? ==> IterationOrder(order, data.policy.value.groups)
    ensures var s := WithId(VisibleHosts(data, req.login, order, net), req.id);
            && (|s| == 1 ==> exists k | 0 <= k < |data.proxyHosts| :: SeesOnly(data, k, req, order, net))
            && (forall k | 0 <= k < |data.proxyHosts| && SeesOnly(data, k, req, order, net) ::
                  s == [data.proxyHosts[k]])
  {
    hide Sees, VisibleHosts;
    var p := SeesTest(data, req, order, net);
    SelectedAreSeen(data, req, order, net);
    var one := OneSelected(data.proxyHosts, p);
    if |Filter(data.proxyHosts, p)| == 1 { assert SeesOnly(data, one, req, order, net); }
    forall k | 0 <= k < |data.proxyHosts| && SeesOnly(data, k, req, order, net)
      ensures Filter(data.proxyHosts, p) == [data.proxyHosts[k]]
    {
      OnlyOneSelected(data.proxyHosts, p, k);
    }
  }

  /** visibleHost: the error, if any, told by what the login sees. */
  lemma VisibilityMeaning(data: Option<CacheData>, req: Request, key: nat, m: Moment, net: Network, staleAfter: int)
    requires OrderFits(m.order, data)
    ensures var error := VisibilityError(data, req, key, m, net, staleAfter);
            && (error == Some(Stale) <==> !Fresh(data, m.now, staleAfter))
            && (error == None <==> Entitled(data, req, key, m, net, staleAfter))
            && (error == Some(NotVisible) <==>
                  && Fresh(data, m.now, staleAfter)
                  && !(exists k | 0 <= k < |data.value.proxyHosts| :: SeesOnly(data.value, k, req, m.order, net)))
            && (error.None? || error.value in {Stale, NotVisible, Conflict})
  {
    if Fresh(data, m.now, staleAfter) { FoundIsSeen(data.value, req, m.order, net); }
    hide SeesOnly, WithId, VisibleHosts;
  }

  // Runs

  /** Every commit so far was asked for with a token issued to its own login, under the key of its own process. */
  ghost predicate TokensOk(w: World) {
    && (w.up || w.stage == Idle)
    && (forall c | c in w.log :: Issued(c.req.csrf, c.key, c.req.login))
    && (w.stage.Holding? && (w.stage.phase == Authorized || w.stage.phase == Renamed) ==>
          Issued(w.stage.req.csrf, w.key, w.stage.req.login))
  }

  lemma TokensKept(w: World, l: Label, env: Env)
    requires TokensOk(w) && Next(w, l, env).Some?
    ensures TokensOk(Next(w, l, env).value)
  {
    if l.FinalCheck? {
      CheckKeepsTokens(w, l.m, env);
    } else if Around(l) {
      hide SaveNext, OtherNext, Issued;
    } else if Lifecycle(l) || External(l) {
      OtherKeepsTokens(w, l, env);
    } else {
      SaveKeepsTokens(w, l, env);
    }
  }

  lemma CheckKeepsTokens(w: World, m: Moment, env: Env)
    requires TokensOk(w) && Next(w, FinalCheck(m), env).Some?
    ensures TokensOk(Next(w, FinalCheck(m), env).value)
  {
    ValidCsrfMeaning(w.stage.req, w.key, m.token);
    FreshIsIssued(w.stage.req.csrf, w.key, w.stage.req.login, m.token);
    hide OtherNext, PollNext, FreshlyIssued, ValidCsrf, Issued;
  }

  lemma OtherKeepsTokens(w: World, l: Label, env: Env)
    requires TokensOk(w) && Next(w, l, env).Some? && (Lifecycle(l) || External(l))
    ensures TokensOk(Next(w, l, env).value)
  {
    hide SaveNext, PollNext, Issued, SyncInode, SyncEntry, Loaded, DiskOk;
  }

  lemma SaveKeepsTokens(w: World, l: Label, env: Env)
    requires TokensOk(w) && Next(w, l, env).Some? && !l.FinalCheck? && !Around(l) && !Lifecycle(l) && !External(l)
    ensures TokensOk(Next(w, l, env).value)
  {
    hide OtherNext, PollNext, DiskError, FinalError, RequestData, OrderFits, Issued;
  }

  lemma FreshIsIssued(token: Token, key: nat, login: string, now: int)
    ensures FreshlyIssued(token, key, login, now) ==> Issued(token, key, login)
  {
  }

  lemma {:induction false} TokensHold(w: World, run: seq<Label>, env: Env)
    requires TokensOk(w) && After(w, run, env).Some?
    ensures TokensOk(After(w, run, env).value)
  {
    if run != [] {
      hide TokensOk, Next;
      TokensHold(w, run[..|run| - 1], env);
      TokensKept(After(w, run[..|run| - 1], env).value, run[|run| - 1], env);
    }
  }

  /** Nobody's token but the login's own ever led to a commit. */
  lemma CommitsHaveTokens(start: World, run: seq<Label>, env: Env)
    requires IsStart(start, env) && After(start, run, env).Some?
    ensures forall c | c in After(start, run, env).value.log :: Issued(c.req.csrf, c.key, c.req.login)
  {
    TokensHold(start, run, env);
  }

  /** Step j was a final check whose request was entitled to its service, with a fresh token of its login. */
  ghost predicate EntitledAt(start: World, run: seq<Label>, j: nat, req: Request, lib: M.Library, net: Network,
                             staleAfter: int)
    requires j < |run|
  {
    var env := EnvOf(lib, net, staleAfter);
    && run[j].FinalCheck? && After(start, run[..j], env).Some?
    && (forall k | j < k < |run| :: Environment(run[k]))
    && var w := After(start, run[..j], env).value;
       && FreshlyIssued(req.csrf, w.key, req.login, run[j].m.token)
       && Entitled(RequestData(w.cache, w.view), req, w.key, run[j].m, net, staleAfter)
  }

  /**
   * Every rename comes right after a moment at which the login that asked for it held a token issued to it
   * in the last half hour, and saw exactly the one service it meant, on data that was not stale.
   */
  lemma RenamesAreEntitled(start: World, run: seq<Label>, i: nat, lib: M.Library, net: Network, staleAfter: int)
    requires var env := EnvOf(lib, net, staleAfter); IsStart(start, env) && After(start, run, env).Some?
    requires i < |run| && run[i] == Rename(true)
    ensures var env := EnvOf(lib, net, staleAfter);
            && After(start, run[..i], env).Some? && After(start, run[..i], env).value.stage.Holding?
            && exists j :: 0 <= j < i
                 && EntitledAt(start, run[..i], j, After(start, run[..i], env).value.stage.req, lib, net, staleAfter)
  {
    var env := EnvOf(lib, net, staleAfter);
    hide IsStart, EnvOf, Entitled, FreshlyIssued, Next;
    RenamesAreAuthorized(start, run, i, env);
    var req := After(start, run[..i], env).value.stage.req;
    var j :| 0 <= j < i && AuthorizedAt(start, run[..i], j, req, env);
    var w, m := After(start, run[..i][..j], env).value, run[..i][j].m;
    PassingMeans(RequestData(w.cache, w.view), req, w.key, m, lib, net, staleAfter);
    assert EntitledAt(start, run[..i], j, req, lib, net, staleAfter);
  }

  lemma PassingMeans(data: Option<CacheData>, req: Request, key: nat, m: Moment, lib: M.Library, net: Network,
                     staleAfter: int)
    requires OrderFits(m.order, data)
    ensures FinalError(data, req, key, m, EnvOf(lib, net, staleAfter)).None?
       <==> FreshlyIssued(req.csrf, key, req.login, m.token) && Entitled(data, req, key, m, net, staleAfter)
  {
    ValidCsrfMeaning(req, key, m.token);
    VisibilityMeaning(data, req, key, m, net, staleAfter);
    hide FreshlyIssued, Entitled, VisibilityError, ValidCsrf;
  }
}
