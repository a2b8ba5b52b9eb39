/** evaluateServices: which services an identity sees, and the evidence for each. */
module ServiceMatcher {
  import opened Common
  import opened Ordering
  import opened Policy
  import opened ServiceCards
  import opened Selection
  import ServiceMetadata

  datatype CacheData = CacheData(
    policy: Option<Policy>,
    nodes: seq<Node>,
    proxyHosts: seq<ProxyHost>,
    metadata: Option<ServiceMetadata.Metadata>,
    roles: map<string, seq<string>>,
    updatedAt: int
  )

  datatype Library = Library(net: Network, urls: UrlLibrary)

  /** What a rule is tested against: the identity set, the granted roles and the address context. */
  datatype Viewer = Viewer(ids: set<string>, roles: set<string>, context: MatchContext)

  datatype Evidence = Evidence(kind: RuleKind, index: nat, source: string, destination: DestinationEvidence)

  datatype Match = Match(card: Card, host: ProxyHost, evidence: Evidence)

  // One rule

  predicate SourceMatches(token: string, kind: RuleKind, viewer: Viewer) {
    token == "*" || token in viewer.ids || (kind == Grant && token in viewer.roles)
  }

  function SourceTest(kind: RuleKind, viewer: Viewer): string -> Option<string> {
    token => if SourceMatches(token, kind, viewer) then Some(token) else None
  }

  function DestinationTest(address: string, viewer: Viewer, net: Network): string -> Option<DestinationEvidence> {
    selector => MatchedDestination(selector, address, viewer.context, net)
  }

  predicate AnyHit<E>(s: seq<string>, test: string -> Option<E>) { exists i | 0 <= i < |s| :: test(s[i]).Some? }

  /** The declarative relation: the rule lets this viewer reach this address on this TCP port. */
  predicate Admits(rule: AccessRule, address: string, port: int, viewer: Viewer, net: Network) {
    && PermitsTcp(rule, port)
    && AnyHit(rule.src, SourceTest(rule.kind, viewer))
    && AnyHit(rule.dst, DestinationTest(address, viewer, net))
  }

  method SourceGrantForRule(rule: AccessRule, viewer: Viewer) returns (source: Option<string>)
    ensures source.Some? <==> AnyHit(rule.src, SourceTest(rule.kind, viewer))
    ensures source.Some? ==> FirstHit(rule.src, SourceTest(rule.kind, viewer), source.value)
  {
    source := FindFirst(rule.src, SourceTest(rule.kind, viewer));
  }

  method DestinationGrant(dst: seq<string>, address: string, viewer: Viewer, net: Network)
      returns (r: Option<DestinationEvidence>)
    ensures r.Some? <==> AnyHit(dst, DestinationTest(address, viewer, net))
    ensures r.Some? ==> FirstHit(dst, DestinationTest(address, viewer, net), r.value)
  {
    r := FindFirst(dst, DestinationTest(address, viewer, net));
  }

  // One host

  predicate Renderable(host: ProxyHost) { exists d | d in host.domainNames :: TrimSpace(d) != "" }

  predicate Visible(host: ProxyHost, rules: seq<AccessRule>, viewer: Viewer, net: Network) {
    && host.enabled && Renderable(host)
    && exists r | r in rules :: Admits(r, host.forwardHost, host.forwardPort, viewer, net)
  }

  /** The evidence names the first admitting rule, and in it the first source and the first destination. */
  ghost predicate IsEvidence(e: Evidence, host: ProxyHost, rules: seq<AccessRule>, viewer: Viewer, net: Network) {
    exists i | 0 <= i < |rules| :: EvidenceAt(e, i, host, rules, viewer, net)
  }

  ghost predicate EvidenceAt(e: Evidence, i: nat, host: ProxyHost, rules: seq<AccessRule>, viewer: Viewer, net: Network)
    requires i < |rules|
  {
    && rules[i].kind == e.kind && rules[i].index == e.index
    && Admits(rules[i], host.forwardHost, host.forwardPort, viewer, net)
    && (forall k | 0 <= k < i :: !Admits(rules[k], host.forwardHost, host.forwardPort, viewer, net))
    && FirstHit(rules[i].src, SourceTest(rules[i].kind, viewer), e.source)
    && FirstHit(rules[i].dst, DestinationTest(host.forwardHost, viewer, net), e.destination)
  }

  /** First-match evidence is unique, so the relation above determines it. */
  lemma EvidenceIsUnique(a: Evidence, b: Evidence, host: ProxyHost, rules: seq<AccessRule>, viewer: Viewer,
                         net: Network)
    requires IsEvidence(a, host, rules, viewer, net) && IsEvidence(b, host, rules, viewer, net)
    ensures a == b
  {
    var i :| 0 <= i < |rules| && EvidenceAt(a, i, host, rules, viewer, net);
    var j :| 0 <= j < |rules| && EvidenceAt(b, j, host, rules, viewer, net);
    assert i == j;
    FirstHitUnique(rules[i].src, SourceTest(rules[i].kind, viewer), a.source, b.source);
    FirstHitUnique(rules[i].dst, DestinationTest(host.forwardHost, viewer, net), a.destination, b.destination);
  }

  ghost predicate IsMatch(m: Match, host: ProxyHost, rules: seq<AccessRule>, viewer: Viewer,
                          metadata: Option<ServiceMetadata.Metadata>, lib: Library)
  {
    && m.host == host && ResolvedCard(host, metadata, lib.urls) == Some(m.card)
    && IsEvidence(m.evidence, host, rules, viewer, lib.net)
  }

  /** The rule loop for one host, with its early exits. */
  method MatchHost(host: ProxyHost, rules: seq<AccessRule>, viewer: Viewer, metadata: Option<ServiceMetadata.Metadata>,
                   lib: Library)
      returns (r: Option<Match>)
    requires host.enabled
    ensures r.Some? <==> Visible(host, rules, viewer, lib.net)
    ensures r.Some? ==> IsMatch(r.value, host, rules, viewer, metadata, lib)
  {
    for i := 0 to |rules|
      invariant forall k | 0 <= k < i :: !Admits(rules[k], host.forwardHost, host.forwardPort, viewer, lib.net)
    {
      var rule := rules[i];
      if !PermitsTcp(rule, host.forwardPort) { continue; }
      var source := SourceGrantForRule(rule, viewer);
      if source.None? { continue; }
      var destination := DestinationGrant(rule.dst, host.forwardHost, viewer, lib.net);
      if destination.None? { continue; }
      var card := ResolvedCard(host, metadata, lib.urls);
      if card.None? { return None; }
      var evidence := Evidence(rule.kind, rule.index, source.value, destination.value);
      assert EvidenceAt(evidence, i, host, rules, viewer, lib.net);
      return Some(Match(card.value, host, evidence));
    }
    return None;
  }

  // All hosts

  function IsVisible(rules: seq<AccessRule>, viewer: Viewer, net: Network): ProxyHost -> bool {
    host => Visible(host, rules, viewer, net)
  }

  ghost function IsMatchFor(rules: seq<AccessRule>, viewer: Viewer, metadata: Option<ServiceMetadata.Metadata>,
                            lib: Library): (Match, ProxyHost) -> bool {
    (m, host) => IsMatch(m, host, rules, viewer, metadata, lib)
  }

  /** One match for each visible host, in host order. */
  ghost predicate MatchesInHostOrder(matches: seq<Match>, hosts: seq<ProxyHost>, rules: seq<AccessRule>, viewer: Viewer,
                                     metadata: Option<ServiceMetadata.Metadata>, lib: Library)
  {
    OneEach(matches, hosts, IsVisible(rules, viewer, lib.net), IsMatchFor(rules, viewer, metadata, lib))
  }

  lemma MatchesAreUnique(a: seq<Match>, b: seq<Match>, hosts: seq<ProxyHost>, rules: seq<AccessRule>, viewer: Viewer,
                         metadata: Option<ServiceMetadata.Metadata>, lib: Library)
    requires MatchesInHostOrder(a, hosts, rules, viewer, metadata, lib)
    requires MatchesInHostOrder(b, hosts, rules, viewer, metadata, lib)
    ensures a == b
  {
    var keep, fits := IsVisible(rules, viewer, lib.net), IsMatchFor(rules, viewer, metadata, lib);
    OneEachPairs(a, hosts, keep, fits);
    OneEachPairs(b, hosts, keep, fits);
    forall i | 0 <= i < |a| ensures a[i] == b[i] {
      MatchIsUnique(a[i], b[i], Filter(hosts, keep)[i], rules, viewer, metadata, lib);
    }
  }

  lemma MatchIsUnique(x: Match, y: Match, host: ProxyHost, rules: seq<AccessRule>, viewer: Viewer,
                      metadata: Option<ServiceMetadata.Metadata>, lib: Library)
    requires IsMatch(x, host, rules, viewer, metadata, lib) && IsMatch(y, host, rules, viewer, metadata, lib)
    ensures x == y
  {
    EvidenceIsUnique(x.evidence, y.evidence, host, rules, viewer, lib.net);
  }

  function MatchOrder(organized: bool, lower: char -> char): (Match, Match) -> bool {
    (a: Match, b: Match) => CardLess(a.card, b.card, organized, lower)
  }

  lemma MatchOrderIsStrictWeak(organized: bool, lower: char -> char)
    ensures StrictWeakOrder(MatchOrder(organized, lower))
  {
    var less, cards := MatchOrder(organized, lower), CardOrder(organized, lower);
    CardLessIsStrictWeak(organized, lower);
    forall x: Match, y: Match, z: Match
      ensures less(x, y) == cards(x.card, y.card) && less(y, z) == cards(y.card, z.card)
      ensures less(x, z) == cards(x.card, z.card)
    {
    }
  }

  /** The early-exit loop of serviceMetadataHasOrganization, in any map order. */
  method AnyOrganized(overrides: map<int, ServiceMetadata.Override>) returns (b: bool)
    ensures b <==> exists id | id in overrides :: overrides[id].category != "" || overrides[id].order.Some?
  {
    var order := RangeOver(overrides.Keys);
    for i := 0 to |order|
      invariant forall k | 0 <= k < i :: order[k] in overrides
      invariant forall k | 0 <= k < i :: overrides[order[k]].category == "" && overrides[order[k]].order.None?
    {
      assert order[i] in order;
      var id := order[i];
      if overrides[id].category != "" || overrides[id].order.Some? {
        assert id in overrides;
        return true;
      }
    }
    assert forall id | id in overrides :: id in order;
    return false;
  }

  method HasOrganizedEntry(metadata: Option<ServiceMetadata.Metadata>) returns (b: bool)
    ensures b <==> HasOrganization(metadata)
  {
    if metadata.None? { return false; }
    b := AnyOrganized(metadata.value.overrides);
  }

  function RolesOf(login: string, roles: map<string, seq<string>>): set<string> {
    if login != "" && login in roles then set r | r in roles[login] else {}
  }

  ghost function ViewerFor(login: string, order: seq<string>, data: CacheData): Viewer
    requires data.policy.Some? && IterationOrder(order, data.policy.value.groups)
  {
    var p := data.policy.value;
    Viewer(
      GrownIdentities(order, IdentityTokens(login), p.groups),
      RolesOf(TrimSpace(login), data.roles),
      ContextFor(NormalizedLogin(TrimSpace(login)), p.hosts, data.nodes))
  }

  /** The result for one order of ranging over the groups: the sorted list of all matches. */
  ghost predicate IsEvaluation(result: seq<Match>, login: Option<string>, data: Option<CacheData>, order: seq<string>,
                               lib: Library) {
    if login.None? || data.None? || data.value.policy.None? || NormalizedLogin(TrimSpace(login.value)) == ""
      then result == []
    else
      && IterationOrder(order, data.value.policy.value.groups)
      && (exists matches ::
            && MatchesInHostOrder(matches, data.value.proxyHosts, AccessRules(data.value.policy.value),
                                  ViewerFor(login.value, order, data.value), data.value.metadata, lib)
            && multiset(result) == multiset(matches))
      && SortedBy(result, MatchOrder(HasOrganization(data.value.metadata), lib.urls.lower))
  }

  method EvaluateServices(login: Option<string>, data: Option<CacheData>, lib: Library)
      returns (result: seq<Match>)
    ensures exists order :: IsEvaluation(result, login, data, order, lib)
  {
    if login.None? || data.None? || data.value.policy.None? {
      assert IsEvaluation([], login, data, [], lib);
      return [];
    }
    var exactLogin := TrimSpace(login.value);
    var normalized := NormalizedLogin(exactLogin);
    if normalized == "" {
      assert IsEvaluation([], login, data, [], lib);
      return [];
    }
    var policy := data.value.policy.value;
    var ids := BuildIdentitySet(login.value, policy.groups);
    ghost var order :| GrownIn(order, ids, login.value, policy.groups);
    var context := BuildMatchContext(normalized, policy.hosts, data.value.nodes);
    var viewer := Viewer(ids, RolesOf(exactLogin, data.value.roles), context);
    var hosts, rules := data.value.proxyHosts, AccessRules(policy);
    TokensOfTrimmed(login.value);
    assert viewer == ViewerFor(login.value, order, data.value);
    var matches := MatchHosts(hosts, rules, viewer, data.value.metadata, lib);
    var organized := HasOrganizedEntry(data.value.metadata);
    MatchOrderIsStrictWeak(organized, lib.urls.lower);
    result := SortSlice(matches, MatchOrder(organized, lib.urls.lower));
    assert IsEvaluation(result, login, data, order, lib);
  }

  /** The host loop of evaluateServices. */
  method MatchHosts(hosts: seq<ProxyHost>, rules: seq<AccessRule>, viewer: Viewer,
                    metadata: Option<ServiceMetadata.Metadata>, lib: Library)
      returns (matches: seq<Match>)
    ensures MatchesInHostOrder(matches, hosts, rules, viewer, metadata, lib)
  {
    ghost var keep, fits := IsVisible(rules, viewer, lib.net), IsMatchFor(rules, viewer, metadata, lib);
    matches := [];
    for i := 0 to |hosts|
      invariant OneEach(matches, hosts[..i], keep, fits)
    {
      assert hosts[..i + 1] == hosts[..i] + [hosts[i]];
      var m: Option<Match> := None;
      if hosts[i].enabled && |hosts[i].domainNames| > 0 {
        m := MatchHost(hosts[i], rules, viewer, metadata, lib);
      }
      if m.Some? {
        OneEachAppend(matches, hosts[..i], keep, fits, hosts[i], m.value);
        matches := matches + [m.value];
      } else {
        NotKept(matches, hosts[..i], keep, fits, hosts[i]);
      }
    }
    assert hosts[..|hosts|] == hosts;
  }

  lemma {:induction false} TrimSpaceTwice(s: string)
    ensures TrimSpace(TrimSpace(s)) == TrimSpace(s)
  {
    if s != "" {
      if SpaceRune(s[0] as int) {
        TrimSpaceTwice(s[1..]);
      } else {
        TrimRightKeepsStart(s);
      }
    }
  }

  lemma {:induction false} TrimRightKeepsStart(s: string)
    requires s != "" && !SpaceRune(s[0] as int)
    ensures TrimSpaceRight(s) != "" && TrimSpaceRight(s)[0] == s[0]
    ensures TrimSpaceRight(TrimSpaceRight(s)) == TrimSpaceRight(s)
  {
    if SpaceRune(s[|s| - 1] as int) { TrimRightKeepsStart(s[..|s| - 1]); }
  }

  lemma TokensOfTrimmed(login: string)
    ensures NormalizedLogin(TrimSpace(login)) == NormalizedLogin(login)
    ensures NormalizedLogin(login) == "" <==> IdentityTokens(login) == {}
  {
    TrimSpaceTwice(login);
  }

  // Consequences

  ghost function HostsOf(matches: seq<Match>): seq<ProxyHost> {
    seq(|matches|, i requires 0 <= i < |matches| => matches[i].host)
  }

  /** Exactly one match for each visible host, none for any other, and each with its own evidence. */
  lemma OneMatchPerVisibleHost(matches: seq<Match>, hosts: seq<ProxyHost>, rules: seq<AccessRule>, viewer: Viewer,
                               metadata: Option<ServiceMetadata.Metadata>, lib: Library)
    requires MatchesInHostOrder(matches, hosts, rules, viewer, metadata, lib)
    ensures HostsOf(matches) == Filter(hosts, IsVisible(rules, viewer, lib.net))
    ensures forall i | 0 <= i < |matches| :: IsMatchFor(rules, viewer, metadata, lib)(matches[i], matches[i].host)
  {
    var keep, fits := IsVisible(rules, viewer, lib.net), IsMatchFor(rules, viewer, metadata, lib);
    OneEachPairs(matches, hosts, keep, fits);
    forall i | 0 <= i < |matches| ensures matches[i].host == Filter(hosts, keep)[i] {
      assert fits(matches[i], Filter(hosts, keep)[i]);
    }
  }

  /** Without group chains every order of ranging over the groups gives the same viewer. */
  lemma ViewerIsOrderFree(login: string, a: seq<string>, b: seq<string>, data: CacheData)
    requires data.policy.Some?
    requires IterationOrder(a, data.policy.value.groups) && IterationOrder(b, data.policy.value.groups)
    requires NoGroupChain(IdentityTokens(login), data.policy.value.groups)
    ensures ViewerFor(login, a, data) == ViewerFor(login, b, data)
    ensures ViewerFor(login, a, data).ids == DirectIdentities(IdentityTokens(login), data.policy.value.groups)
  {
    IdentitySetIsOrderFree(IdentityTokens(login), data.policy.value.groups);
  }

  predicate IdsTellHostsApart(hosts: seq<ProxyHost>) {
    forall x, y | x in hosts && y in hosts && x.id == y.id :: x == y
  }

  /**
   * The list that an identity gets, evidence and order included, is determined by the snapshot alone: neither
   * the order of ranging over the groups nor the unstable sort leaves a trace in it.
   */
  lemma EvaluationIsUnique(a: seq<Match>, b: seq<Match>, login: string, data: CacheData, first: seq<string>,
                           second: seq<string>, lib: Library)
    requires IsEvaluation(a, Some(login), Some(data), first, lib)
    requires IsEvaluation(b, Some(login), Some(data), second, lib)
    requires data.policy.Some? ==> NoGroupChain(IdentityTokens(login), data.policy.value.groups)
    requires IdsTellHostsApart(data.proxyHosts)
    ensures a == b
  {
    if data.policy.Some? && NormalizedLogin(TrimSpace(login)) != "" {
      var rules, viewer := AccessRules(data.policy.value), ViewerFor(login, first, data);
      ViewerIsOrderFree(login, first, second, data);
      var ma: seq<Match> :| MatchesInHostOrder(ma, data.proxyHosts, rules, viewer, data.metadata, lib)
          && multiset(a) == multiset(ma);
      var mb: seq<Match> :| MatchesInHostOrder(mb, data.proxyHosts, rules, viewer, data.metadata, lib)
          && multiset(b) == multiset(mb);
      MatchesAreUnique(ma, mb, data.proxyHosts, rules, viewer, data.metadata, lib);
      OneMatchPerVisibleHost(ma, data.proxyHosts, rules, viewer, data.metadata, lib);
      var organized := HasOrganization(data.metadata);
      var less := MatchOrder(organized, lib.urls.lower);
      forall x, y | x in a && y in a && x != y ensures less(x, y) || less(y, x) {
        assert x in multiset(ma) && y in multiset(ma);
        MatchesAreTold(ma, x, y, data, rules, viewer, organized, lib);
      }
      SortedPermutationUnique(a, b, less);
    }
  }

  lemma MatchesAreTold(matches: seq<Match>, x: Match, y: Match, data: CacheData, rules: seq<AccessRule>, viewer: Viewer,
                       organized: bool, lib: Library)
    requires MatchesInHostOrder(matches, data.proxyHosts, rules, viewer, data.metadata, lib)
    requires x in matches && y in matches && x != y && IdsTellHostsApart(data.proxyHosts)
    ensures CardLess(x.card, y.card, organized, lib.urls.lower) || CardLess(y.card, x.card, organized, lib.urls.lower)
  {
    OneMatchPerVisibleHost(matches, data.proxyHosts, rules, viewer, data.metadata, lib);
    var i: int :| 0 <= i < |matches| && matches[i] == x;
    var j: int :| 0 <= j < |matches| && matches[j] == y;
    var keep := IsVisible(rules, viewer, lib.net);
    assert HostsOf(matches)[i] in Filter(data.proxyHosts, keep) && HostsOf(matches)[j] in Filter(data.proxyHosts, keep);
    assert IsMatchFor(rules, viewer, data.metadata, lib)(matches[i], x.host)
           && IsMatchFor(rules, viewer, data.metadata, lib)(matches[j], y.host);
    CardTrichotomy(x.card, y.card, organized, lib.urls.lower);
    if x.host == y.host { MatchIsUnique(x, y, x.host, rules, viewer, data.metadata, lib); }
  }

  ghost predicate SameRule(a: AccessRule, b: AccessRule) {
    a.kind == b.kind && a.src == b.src && a.dst == b.dst && a.capabilities == b.capabilities
  }

  /** Adding rules, in any place, never hides a host. */
  lemma MoreRulesShowMore(host: ProxyHost, fewer: seq<AccessRule>, more: seq<AccessRule>, viewer: Viewer, net: Network)
    requires forall a | a in fewer :: exists b :: b in more && SameRule(a, b)
    requires Visible(host, fewer, viewer, net)
    ensures Visible(host, more, viewer, net)
  {
    var a :| a in fewer && Admits(a, host.forwardHost, host.forwardPort, viewer, net);
    var b :| b in more && SameRule(a, b);
    assert Admits(b, host.forwardHost, host.forwardPort, viewer, net);
  }

  ghost function EvidenceOf(matches: seq<Match>): seq<(ProxyHost, Evidence)> {
    seq(|matches|, i requires 0 <= i < |matches| => (matches[i].host, matches[i].evidence))
  }

  /** Service metadata decides neither which hosts match nor why. */
  lemma MetadataDoesNotInterfere(a: seq<Match>, b: seq<Match>, hosts: seq<ProxyHost>, rules: seq<AccessRule>,
                                 viewer: Viewer,
                                 first: Option<ServiceMetadata.Metadata>, second: Option<ServiceMetadata.Metadata>,
                                   lib: Library)
    requires MatchesInHostOrder(a, hosts, rules, viewer, first, lib)
    requires MatchesInHostOrder(b, hosts, rules, viewer, second, lib)
    ensures EvidenceOf(a) == EvidenceOf(b)
  {
    var keep := IsVisible(rules, viewer, lib.net);
    var fitsA, fitsB := IsMatchFor(rules, viewer, first, lib), IsMatchFor(rules, viewer, second, lib);
    OneEachPairs(a, hosts, keep, fitsA);
    OneEachPairs(b, hosts, keep, fitsB);
    forall i | 0 <= i < |a| ensures EvidenceOf(a)[i] == EvidenceOf(b)[i] {
      var host := Filter(hosts, keep)[i];
      assert fitsA(a[i], host) && fitsB(b[i], host);
      EvidenceIsUnique(a[i].evidence, b[i].evidence, host, rules, viewer, lib.net);
    }
  }

  ghost function CardsOf(matches: seq<Match>): seq<Card> {
    seq(|matches|, i requires 0 <= i < |matches| => matches[i].card)
  }

  /**
   * The page groups cards into sections as soon as one shown card has a category or an order;
   * the list has then been sorted in organized mode, which the grouping loop relies on.
   */
  lemma GroupedCardsAreOrganized(result: seq<Match>, login: Option<string>, data: Option<CacheData>, order: seq<string>,
                                 lib: Library)
    requires IsEvaluation(result, login, data, order, lib)
    requires exists c | c in CardsOf(result) :: c.category != "" || c.order.Some?
    ensures OrganizedSort(CardsOf(result), lib.urls.lower)
  {
    var c :| c in CardsOf(result) && (c.category != "" || c.order.Some?);
    var i :| 0 <= i < |result| && result[i].card == c;
    var d := data.value;
    MatchesResult(result, login.value, d, order, lib, i);
    var less := MatchOrder(true, lib.urls.lower);
    forall j, k | 0 <= j < k < |result| ensures !CardOrder(true, lib.urls.lower)(CardsOf(result)[k],
        CardsOf(result)[j]) {
      assert !less(result[k], result[j]);
    }
  }

  lemma MatchesResult(result: seq<Match>, login: string, data: CacheData, order: seq<string>, lib: Library, i: nat)
    requires IsEvaluation(result, Some(login), Some(data), order, lib) && i < |result|
    ensures ResolvedCard(result[i].host, data.metadata, lib.urls) == Some(result[i].card)
  {
    var rules, viewer := AccessRules(data.policy.value), ViewerFor(login, order, data);
    var matches: seq<Match> :| MatchesInHostOrder(matches, data.proxyHosts, rules, viewer, data.metadata, lib)
        && multiset(result) == multiset(matches);
    assert result[i] in multiset(matches);
    OneMatchPerVisibleHost(matches, data.proxyHosts, rules, viewer, data.metadata, lib);
    var k: int :| 0 <= k < |matches| && matches[k] == result[i];
    assert IsMatchFor(rules, viewer, data.metadata, lib)(matches[k], matches[k].host);
  }
}
