/** Identity-independent destination checks, and how far they cover what identities see. */
module OverApproximation {
  import opened Common
  import opened Ordering
  import opened Policy
  import opened ServiceCards
  import opened ServiceMatcher
  import Reach

  const SELF := "autogroup:self"

  // Structural matches

  predicate SelectsSelf(selector: string, net: Network) { StripPort(selector, net) == SELF }

  /** Some rule that permits the port has a destination selector that passes the test. */
  predicate AnyPermitted(rules: seq<AccessRule>, port: int, test: string -> bool) {
    exists r | r in rules :: PermitsTcp(r, port) && AnyIn(r.dst, test)
  }

  predicate AnyIn(dst: seq<string>, test: string -> bool) { exists d | d in dst :: test(d) }

  lemma NothingPermitted(port: int, test: string -> bool)
    ensures !AnyPermitted([], port, test) && !AnyIn([], test)
  {
  }

  lemma AnyPermittedAppend(rules: seq<AccessRule>, r: AccessRule, port: int, test: string -> bool)
    ensures AnyPermitted(rules + [r], port, test) <==>
            AnyPermitted(rules, port, test) || (PermitsTcp(r, port) && AnyIn(r.dst, test))
  {
    hide PermitsTcp, AnyIn;
  }

  lemma AnyInAppend(dst: seq<string>, d: string, test: string -> bool)
    ensures AnyIn(dst + [d], test) <==> AnyIn(dst, test) || test(d)
  {
    assert d in dst + [d];
    if x :| x in dst && test(x) { assert x in dst + [d]; }
  }

  function SelfTest(net: Network): string -> bool { d => SelectsSelf(d, net) }

  /** What a selector other than the literal self selector yields for nobody in particular. */
  function StructuralTest(address: string, mc: MatchContext, net: Network): string -> Option<DestinationEvidence> {
    d => if SelectsSelf(d, net) then None else MatchedDestination(d, address, mc, net)
  }

  /** A structural match: the selector is not the self selector, and covers the address for one who owns nothing. */
  lemma StructuralExactly(d: string, address: string, hosts: map<string, string>, nodes: seq<Node>, net: Network)
    ensures StructuralTest(address, ContextFor("", hosts, nodes), net)(d).Some?
       <==> && StripPort(d, net) != "autogroup:self"
            && Reach.Covers(Reach.Denoted(d, hosts, net), address, "", nodes, net)
    ensures forall n | n in nodes :: !Reach.Owns("", n, address)
  {
    Reach.SelectorExactly(d, address, "", hosts, nodes, net);
    hide Reach.Covers, Reach.Denoted, MatchedDestination, StripPort;
  }

  function Yields<E>(test: string -> Option<E>): string -> bool { d => test(d).Some? }

  predicate DependsOnIdentity(host: ProxyHost, rules: seq<AccessRule>, net: Network) {
    AnyPermitted(rules, host.forwardPort, SelfTest(net))
  }

  predicate StructuralMatch(host: ProxyHost, rules: seq<AccessRule>, hosts: map<string, string>, nodes: seq<Node>,
                            net: Network) {
    AnyPermitted(rules, host.forwardPort, Yields(StructuralTest(host.forwardHost, ContextFor("", hosts, nodes), net)))
  }

  function Collected<E>(dst: seq<string>, test: string -> Option<E>): seq<E> {
    if dst == [] then []
    else
      var e := test(dst[|dst| - 1]);
      Collected(dst[..|dst| - 1], test) + (if e.Some? then [e.value] else [])
  }

  function CollectedFrom<E>(rules: seq<AccessRule>, port: int, test: string -> Option<E>): seq<E> {
    if rules == [] then []
    else
      var r := rules[|rules| - 1];
      CollectedFrom(rules[..|rules| - 1], port, test) + (if PermitsTcp(r, port) then Collected(r.dst, test) else [])
  }

  method StructuralDestinationMatches(host: ProxyHost, policy: Policy, nodes: seq<Node>, net: Network)
      returns (matches: seq<DestinationEvidence>, identityDependent: bool)
    ensures matches == CollectedFrom(AccessRules(policy), host.forwardPort,
                                     StructuralTest(host.forwardHost, ContextFor("", policy.hosts, nodes), net))
    ensures identityDependent <==> DependsOnIdentity(host, AccessRules(policy), net)
  {
    var mc := BuildMatchContext("", policy.hosts, nodes);
    matches, identityDependent := CollectMatches(AccessRules(policy), host.forwardPort,
                                                 StructuralTest(host.forwardHost, mc, net), SelfTest(net));
  }

  lemma NothingCollected<E>(port: int, test: string -> Option<E>)
    ensures CollectedFrom([], port, test) == [] && Collected([], test) == []
  {
  }

  lemma CollectedAppend<E>(dst: seq<string>, d: string, test: string -> Option<E>)
    ensures Collected(dst + [d], test) == Collected(dst, test) + (if test(d).Some? then [test(d).value] else [])
  {
    assert (dst + [d])[..|dst|] == dst;
  }

  lemma CollectedFromAppend<E>(rules: seq<AccessRule>, r: AccessRule, port: int, test: string -> Option<E>)
    ensures CollectedFrom(rules + [r], port, test)
        == CollectedFrom(rules, port, test) + (if PermitsTcp(r, port) then Collected(r.dst, test) else [])
  {
    hide PermitsTcp;
    assert (rules + [r])[..|rules|] == rules;
  }

  /** The two nested loops of structuralDestinationMatches. */
  method CollectMatches(rules: seq<AccessRule>, port: int, test: string -> Option<DestinationEvidence>,
                        isSelf: string -> bool)
      returns (matches: seq<DestinationEvidence>, identityDependent: bool)
    requires forall d | isSelf(d) :: test(d).None?
    ensures matches == CollectedFrom(rules, port, test)
    ensures identityDependent <==> AnyPermitted(rules, port, isSelf)
  {
    hide AnyPermitted, PermitsTcp, AnyIn, Collected, CollectedFrom;
    matches, identityDependent := [], false;
    NothingPermitted(port, isSelf);
    NothingCollected(port, test);
    assert rules[..0] == [];
    for i := 0 to |rules|
      invariant matches == CollectedFrom(rules[..i], port, test)
      invariant identityDependent <==> AnyPermitted(rules[..i], port, isSelf)
    {
      var rule := rules[i];
      assert rules[..i + 1] == rules[..i] + [rule];
      AnyPermittedAppend(rules[..i], rule, port, isSelf);
      CollectedFromAppend(rules[..i], rule, port, test);
      if !PermitsTcp(rule, port) { continue; }
      ghost var before, wasDependent := matches, identityDependent;
      var dst := rule.dst;
      assert dst[..0] == [];
      for j := 0 to |dst|
        invariant matches == before + Collected(dst[..j], test)
        invariant identityDependent <==> wasDependent || AnyIn(dst[..j], isSelf)
      {
        assert dst[..j + 1] == dst[..j] + [dst[j]];
        AnyInAppend(dst[..j], dst[j], isSelf);
        CollectedAppend(dst[..j], dst[j], test);
        if isSelf(dst[j]) {
          identityDependent := true;
          continue;
        }
        var evidence := test(dst[j]);
        if evidence.Some? { matches := matches + [evidence.value]; }
      }
      assert dst[..|dst|] == dst;
    }
    assert rules[..|rules|] == rules;
  }

  lemma {:induction false} CollectedMeaning<E>(dst: seq<string>, test: string -> Option<E>)
    ensures Collected(dst, test) != [] <==> exists d | d in dst :: Yields(test)(d)
  {
    if dst != [] {
      var n := |dst| - 1;
      CollectedMeaning(dst[..n], test);
      assert forall d :: d in dst <==> d in dst[..n] || d == dst[n] by { assert dst == dst[..n] + [dst[n]]; }
      assert Yields(test)(dst[n]) <==> test(dst[n]).Some?;
    }
  }

  /** enabledProxyHostHasSupportedDestinationMatch asks for a nonempty list: that is a structural match. */
  lemma {:induction false} CollectedFromMeaning<E>(rules: seq<AccessRule>, port: int, test: string -> Option<E>)
    ensures CollectedFrom(rules, port, test) != [] <==> AnyPermitted(rules, port, Yields(test))
  {
    if rules != [] {
      var n := |rules| - 1;
      CollectedFromMeaning(rules[..n], port, test);
      CollectedMeaning(rules[n].dst, test);
      assert forall r :: r in rules <==> r in rules[..n] || r == rules[n] by {
        assert rules == rules[..n] + [rules[n]];
      }
    }
  }

  // What identities see is covered

  predicate AliasOfSelf(selector: string, hosts: map<string, string>, net: Network) {
    IsAlias(StripPort(selector, net), hosts, net) && StripPort(hosts[StripPort(selector, net)], net) == SELF
  }

  function AliasTest(hosts: map<string, string>, net: Network): string -> bool { d => AliasOfSelf(d, hosts, net) }

  predicate RuleUsesSelfAlias(r: AccessRule, port: int, viewer: Viewer, net: Network) {
    && PermitsTcp(r, port) && AnyHit(r.src, SourceTest(r.kind, viewer))
    && exists i | 0 <= i < |r.dst| :: AliasTest(viewer.context.hosts, net)(r.dst[i])
  }

  /** A rule that reaches the viewer through a host alias standing for the viewer's own nodes. */
  predicate GrantsThroughSelfAlias(host: ProxyHost, rules: seq<AccessRule>, viewer: Viewer, net: Network) {
    exists r | r in rules :: RuleUsesSelfAlias(r, host.forwardPort, viewer, net)
  }

  ghost function ViewerOf(ids: set<string>, roles: set<string>, login: string, hosts: map<string, string>,
                          nodes: seq<Node>): Viewer {
    Viewer(ids, roles, ContextFor(login, hosts, nodes))
  }

  /** Apart from self selectors and aliases of self, a match does not depend on who asks. */
  lemma MatchIsIdentityFree(d: string, address: string, login: string, hosts: map<string, string>, nodes: seq<Node>,
                            net: Network)
    requires MatchedDestination(d, address, ContextFor(login, hosts, nodes), net).Some?
    ensures SelectsSelf(d, net) || AliasOfSelf(d, hosts, net)
         || MatchedDestination(d, address, ContextFor("", hosts, nodes), net).Some?
  {
  }

  lemma {:induction false} NobodyOwns(nodes: seq<Node>)
    ensures SelfIps("", nodes) == []
  {
    assert IdentityTokens("") == {};
    if nodes != [] { NobodyOwns(nodes[..|nodes| - 1]); }
  }

  /** More nodes never remove a structural match that needs none. */
  lemma StaticMatchPersists(host: ProxyHost, rules: seq<AccessRule>, hosts: map<string, string>, nodes: seq<Node>,
                            net: Network)
    requires StructuralMatch(host, rules, hosts, [], net)
    ensures StructuralMatch(host, rules, hosts, nodes, net)
  {
    var before := Yields(StructuralTest(host.forwardHost, ContextFor("", hosts, []), net));
    var after := Yields(StructuralTest(host.forwardHost, ContextFor("", hosts, nodes), net));
    forall d | before(d) ensures after(d) { StaticSelector(d, host.forwardHost, hosts, nodes, net); }
  }

  lemma StaticSelector(d: string, address: string, hosts: map<string, string>, nodes: seq<Node>, net: Network)
    requires MatchedDestination(d, address, ContextFor("", hosts, []), net).Some?
    ensures MatchedDestination(d, address, ContextFor("", hosts, nodes), net).Some?
  {
    NobodyOwns([]);
  }

  lemma VisibleIsCovered(ids: set<string>, roles: set<string>, login: string, host: ProxyHost, policy: Policy,
                         nodes: seq<Node>, net: Network)
    requires Visible(host, AccessRules(policy), ViewerOf(ids, roles, login, policy.hosts, nodes), net)
    ensures || StructuralMatch(host, AccessRules(policy), policy.hosts, nodes, net)
            || DependsOnIdentity(host, AccessRules(policy), net)
            || GrantsThroughSelfAlias(host, AccessRules(policy), ViewerOf(ids, roles, login, policy.hosts, nodes), net)
  {
    var rules, viewer := AccessRules(policy), ViewerOf(ids, roles, login, policy.hosts, nodes);
    var r :| r in rules && Admits(r, host.forwardHost, host.forwardPort, viewer, net);
    var i :| 0 <= i < |r.dst| && DestinationTest(host.forwardHost, viewer, net)(r.dst[i]).Some?;
    assert r.dst[i] in r.dst;
    MatchIsIdentityFree(r.dst[i], host.forwardHost, login, policy.hosts, nodes, net);
    assert SelfTest(net)(r.dst[i]) <==> SelectsSelf(r.dst[i], net);
    assert AliasTest(policy.hosts, net)(r.dst[i]) <==> AliasOfSelf(r.dst[i], policy.hosts, net);
    var test := StructuralTest(host.forwardHost, ContextFor("", policy.hosts, nodes), net);
    assert Yields(test)(r.dst[i]) <==> test(r.dst[i]).Some?;
  }

  /** A single untagged node that the login owns and that has the host's address. */
  function OwnNode(login: string, address: string): Node { Node("", "", NormalizedLogin(login), [], [address]) }

  lemma OwnNodeIsOwn(login: string, address: string)
    requires NormalizedLogin(login) != ""
    ensures SelfIps(login, [OwnNode(login, address)]) == [address]
    ensures TagIps([OwnNode(login, address)]) == map[] == TagIps([])
  {
    var node := OwnNode(login, address);
    NormalizedIsTrimmed(login);
    assert [node][..0] == [];
    assert SelfIps(login, [node]) == [] + [address];
    assert AddTags(map[], [], [address]) == map[];
  }

  lemma NormalizedIsTrimmed(login: string)
    ensures TrimSpace(NormalizedLogin(login)) == NormalizedLogin(login)
  {
    TrimSpaceTwice(login);
    var t := TrimSpace(login);
    if t != "" && '@' !in t {
      assert (t + "@")[0] == t[0] && (t + "@")[|t|] == '@';
    }
  }

  /**
   * For a login, its identity set and its roles: every host it can see, on whatever nodes, has a
   * structural match or is flagged as identity-dependent, exactly when no rule reaches the login
   * through an alias of self, or the host is flagged or matched without any node anyway.
   */
  lemma CoverageIsExact(ids: set<string>, roles: set<string>, login: string, host: ProxyHost, policy: Policy,
                        net: Network)
    requires NormalizedLogin(login) != "" && host.enabled && Renderable(host)
    ensures (forall nodes | Visible(host, AccessRules(policy), ViewerOf(ids, roles, login, policy.hosts, nodes), net) ::
               StructuralMatch(host, AccessRules(policy), policy.hosts, nodes, net)
                 || DependsOnIdentity(host, AccessRules(policy), net))
       <==> (|| !GrantsThroughSelfAlias(host, AccessRules(policy), ViewerOf(ids, roles, login, policy.hosts, []), net)
             || DependsOnIdentity(host, AccessRules(policy), net)
             || StructuralMatch(host, AccessRules(policy), policy.hosts, [], net))
  {
    var rules := AccessRules(policy);
    if GrantsThroughSelfAlias(host, rules, ViewerOf(ids, roles, login, policy.hosts, []), net)
       && !DependsOnIdentity(host, rules, net) && !StructuralMatch(host, rules, policy.hosts, [], net) {
      UncoveredHost(ids, roles, login, host, policy, net);
    } else {
      forall nodes | Visible(host, rules, ViewerOf(ids, roles, login, policy.hosts, nodes), net)
        ensures StructuralMatch(host, rules, policy.hosts, nodes, net) || DependsOnIdentity(host, rules, net)
      {
        VisibleIsCovered(ids, roles, login, host, policy, nodes, net);
        SelfAliasIsNodeFree(ids, roles, login, host, policy, nodes, net);
        if StructuralMatch(host, rules, policy.hosts, [], net) {
          StaticMatchPersists(host, rules, policy.hosts, nodes, net);
        }
      }
    }
  }

  lemma SelfAliasIsNodeFree(ids: set<string>, roles: set<string>, login: string, host: ProxyHost, policy: Policy,
                            nodes: seq<Node>, net: Network)
    ensures GrantsThroughSelfAlias(host, AccessRules(policy), ViewerOf(ids, roles, login, policy.hosts, nodes), net)
       <==> GrantsThroughSelfAlias(host, AccessRules(policy), ViewerOf(ids, roles, login, policy.hosts, []), net)
  {
    var rules := AccessRules(policy);
    var a, b := ViewerOf(ids, roles, login, policy.hosts, nodes), ViewerOf(ids, roles, login, policy.hosts, []);
    forall r | r in rules ensures AnyHit(r.src, SourceTest(r.kind, a)) <==> AnyHit(r.src, SourceTest(r.kind, b)) {
      assert forall t :: SourceTest(r.kind, a)(t) == SourceTest(r.kind, b)(t);
    }
  }

  lemma UncoveredHost(ids: set<string>, roles: set<string>, login: string, host: ProxyHost, policy: Policy,
                      net: Network)
    requires NormalizedLogin(login) != "" && host.enabled && Renderable(host)
    requires GrantsThroughSelfAlias(host, AccessRules(policy), ViewerOf(ids, roles, login, policy.hosts, []), net)
    requires !StructuralMatch(host, AccessRules(policy), policy.hosts, [], net)
    ensures exists nodes ::
              && Visible(host, AccessRules(policy), ViewerOf(ids, roles, login, policy.hosts, nodes), net)
              && !StructuralMatch(host, AccessRules(policy), policy.hosts, nodes, net)
  {
    var nodes := [OwnNode(login, host.forwardHost)];
    OwnNodeIsOwn(login, host.forwardHost);
    NobodyOwns(nodes);
    NobodyOwns([]);
    assert ContextFor("", policy.hosts, nodes) == ContextFor("", policy.hosts, []);
    SelfAliasIsNodeFree(ids, roles, login, host, policy, nodes, net);
    SelfAliasMakesVisible(host, AccessRules(policy), ViewerOf(ids, roles, login, policy.hosts, nodes), net);
  }

  lemma SelfAliasMakesVisible(host: ProxyHost, rules: seq<AccessRule>, viewer: Viewer, net: Network)
    requires host.enabled && Renderable(host) && host.forwardHost in viewer.context.selfIps
    requires GrantsThroughSelfAlias(host, rules, viewer, net)
    ensures Visible(host, rules, viewer, net)
  {
    var r :| r in rules && RuleUsesSelfAlias(r, host.forwardPort, viewer, net);
    SelfAliasAdmits(r, host.forwardHost, host.forwardPort, viewer, net);
  }

  lemma SelfAliasAdmits(r: AccessRule, address: string, port: int, viewer: Viewer, net: Network)
    requires address in viewer.context.selfIps && RuleUsesSelfAlias(r, port, viewer, net)
    ensures Admits(r, address, port, viewer, net)
  {
    var i :| 0 <= i < |r.dst| && AliasTest(viewer.context.hosts, net)(r.dst[i]);
    SelfAliasReachesOwnNode(r.dst[i], address, viewer.context, net);
    assert DestinationTest(address, viewer, net)(r.dst[i]).Some?;
  }

  lemma SelfAliasReachesOwnNode(d: string, address: string, mc: MatchContext, net: Network)
    requires AliasOfSelf(d, mc.hosts, net) && address in mc.selfIps
    ensures MatchedDestination(d, address, mc, net).Some?
  {
    assert SELF != "*" && !HasPrefix(SELF, "tag:") by { assert SELF[0] == 'a' && "*"[0] == '*' && "tag:"[0] == 't'; }
  }

  // Doctor coverage

  function AllAddresses(nodes: seq<Node>): (ips: seq<string>)
    ensures forall a :: a in ips <==> exists n | n in nodes :: a in n.addresses
  {
    if nodes == [] then []
    else
      assert nodes == nodes[..|nodes| - 1] + [nodes[|nodes| - 1]];
      AllAddresses(nodes[..|nodes| - 1]) + nodes[|nodes| - 1].addresses
  }

  function DoctorContext(hosts: map<string, string>, nodes: seq<Node>): MatchContext {
    MatchContext(hosts, TagIps(nodes), AllAddresses(nodes))
  }

  function JoinTest(address: string, mc: MatchContext, net: Network): string -> bool {
    d => MatchedDestination(StripPort(d, net), address, mc, net).Some?
  }

  /** doctorProxyHostHasSupportedJoin: it strips the port before a matcher that strips it again. */
  predicate Joined(host: ProxyHost, rules: seq<AccessRule>, mc: MatchContext, net: Network) {
    AnyPermitted(rules, host.forwardPort, JoinTest(host.forwardHost, mc, net))
  }

  method AnyPermittedSelector(rules: seq<AccessRule>, port: int, test: string -> bool) returns (b: bool)
    ensures b <==> AnyPermitted(rules, port, test)
  {
    for i := 0 to |rules|
      invariant !AnyPermitted(rules[..i], port, test)
    {
      assert rules[..i + 1] == rules[..i] + [rules[i]];
      if !PermitsTcp(rules[i], port) { continue; }
      var dst := rules[i].dst;
      for j := 0 to |dst|
        invariant forall k | 0 <= k < j :: !test(dst[k])
      {
        if test(dst[j]) {
          assert rules[i] in rules && dst[j] in rules[i].dst;
          return true;
        }
      }
    }
    assert rules[..|rules|] == rules;
    return false;
  }

  method DoctorHasSupportedJoin(host: ProxyHost, rules: seq<AccessRule>, mc: MatchContext, net: Network)
      returns (b: bool)
    ensures b <==> Joined(host, rules, mc, net)
  {
    b := AnyPermittedSelector(rules, host.forwardPort, JoinTest(host.forwardHost, mc, net));
  }

  predicate Counted(host: ProxyHost) { host.enabled && |host.domainNames| > 0 }

  function CountedHosts(hosts: seq<ProxyHost>): seq<ProxyHost> {
    if hosts == [] then []
    else CountedHosts(hosts[..|hosts| - 1]) + (if Counted(hosts[|hosts| - 1]) then [hosts[|hosts| - 1]] else [])
  }

  function JoinedBy(rules: seq<AccessRule>, mc: MatchContext, net: Network): ProxyHost -> bool {
    host => Joined(host, rules, mc, net)
  }

  function CountOf(hosts: seq<ProxyHost>, test: ProxyHost -> bool): nat {
    if hosts == [] then 0 else CountOf(hosts[..|hosts| - 1], test) + (if test(hosts[|hosts| - 1]) then 1 else 0)
  }

  lemma CountAppend(hosts: seq<ProxyHost>, last: ProxyHost, test: ProxyHost -> bool)
    ensures CountOf(hosts + [last], test) == CountOf(hosts, test) + (if test(last) then 1 else 0)
  {
    assert (hosts + [last])[..|hosts|] == hosts;
  }

  datatype UnmatchedJoin = UnmatchedJoin(domain: string, forwardHost: string)

  function DomainsOf(host: ProxyHost): seq<UnmatchedJoin> {
    seq(|host.domainNames|, i requires 0 <= i < |host.domainNames| => UnmatchedJoin(host.domainNames[i],
        host.forwardHost))
  }

  /** One entry for each domain of a host that is not joined, in host order. */
  function Unmatched(hosts: seq<ProxyHost>, joins: ProxyHost -> bool): seq<UnmatchedJoin> {
    if hosts == [] then []
    else
      var n := |hosts| - 1;
      Unmatched(hosts[..n], joins) + (if joins(hosts[n]) then [] else DomainsOf(hosts[n]))
  }

  /** By folded domain, then domain, then forward host. */
  predicate JoinLess(a: UnmatchedJoin, b: UnmatchedJoin, lower: char -> char) {
    var x, y := ToLower(a.domain, lower), ToLower(b.domain, lower);
    if x != y then Less(x, y) else if a.domain != b.domain then Less(a.domain, b.domain)
    else Less(a.forwardHost, b.forwardHost)
  }

  function JoinOrder(lower: char -> char): (UnmatchedJoin, UnmatchedJoin) -> bool { (a, b) => JoinLess(a, b, lower) }

  lemma JoinLessIsLinear(a: UnmatchedJoin, b: UnmatchedJoin, c: UnmatchedJoin, lower: char -> char)
    ensures !JoinLess(a, a, lower)
    ensures a == b || JoinLess(a, b, lower) || JoinLess(b, a, lower)
    ensures JoinLess(a, b, lower) && JoinLess(b, c, lower) ==> JoinLess(a, c, lower)
  {
    StringOrder(ToLower(a.domain, lower), ToLower(b.domain, lower), ToLower(c.domain, lower));
    StringOrder(a.domain, b.domain, c.domain);
    StringOrder(a.forwardHost, b.forwardHost, c.forwardHost);
  }

  lemma JoinOrderIsStrictWeak(lower: char -> char)
    ensures StrictWeakOrder(JoinOrder(lower))
  {
    forall a, b, c
      ensures !JoinLess(a, a, lower)
      ensures JoinLess(a, b, lower) && JoinLess(b, c, lower) ==> JoinLess(a, c, lower)
      ensures !JoinLess(a, b, lower) && !JoinLess(b, c, lower) ==> !JoinLess(a, c, lower)
    {
      JoinLessIsLinear(a, b, c, lower);
      JoinLessIsLinear(b, c, a, lower);
      JoinLessIsLinear(b, a, c, lower);
      JoinLessIsLinear(a, c, b, lower);
    }
  }

  datatype Coverage = Coverage(matched: nat, total: nat, unmatched: seq<UnmatchedJoin>)

  /** The counts over the enabled hosts with a domain, and the domains of those not joined in order. */
  ghost predicate IsCoverage(c: Coverage, snapshot: Option<CacheData>, lower: char -> char, net: Network) {
    if snapshot.None? || snapshot.value.policy.None? then c == Coverage(0, 0, [])
    else
      var data, p := snapshot.value, snapshot.value.policy.value;
      Covers(c, data.proxyHosts, JoinedBy(AccessRules(p), DoctorContext(p.hosts, data.nodes), net), lower)
  }

  ghost predicate Covers(c: Coverage, hosts: seq<ProxyHost>, joins: ProxyHost -> bool, lower: char -> char) {
    && c.total == |CountedHosts(hosts)| && c.matched == CountOf(CountedHosts(hosts), joins)
    && multiset(c.unmatched) == multiset(Unmatched(CountedHosts(hosts), joins))
    && SortedBy(c.unmatched, JoinOrder(lower))
  }

  method DoctorJoinCoverage(snapshot: Option<CacheData>, lower: char -> char, net: Network) returns (c: Coverage)
    ensures IsCoverage(c, snapshot, lower, net)
  {
    if snapshot.None? || snapshot.value.policy.None? { return Coverage(0, 0, []); }
    var nodes, policy := snapshot.value.nodes, snapshot.value.policy.value;
    var tagged := BuildMatchContext("", policy.hosts, nodes);
    var addresses: seq<string> := [];
    for i := 0 to |nodes|
      invariant addresses == AllAddresses(nodes[..i])
    {
      assert nodes[..i + 1][..i] == nodes[..i];
      addresses := addresses + nodes[i].addresses;
    }
    assert nodes[..|nodes|] == nodes;
    var mc := MatchContext(policy.hosts, tagged.tagIps, addresses);
    var matched, total, unmatched := CountJoins(snapshot.value.proxyHosts, AccessRules(policy), mc, net);
    JoinOrderIsStrictWeak(lower);
    unmatched := SortSlice(unmatched, JoinOrder(lower));
    return Coverage(matched, total, unmatched);
  }

  lemma CountedAppend(hosts: seq<ProxyHost>, last: ProxyHost)
    ensures CountedHosts(hosts + [last]) == CountedHosts(hosts) + (if Counted(last) then [last] else [])
  {
    assert (hosts + [last])[..|hosts|] == hosts;
  }

  method CountJoins(hosts: seq<ProxyHost>, rules: seq<AccessRule>, mc: MatchContext, net: Network)
      returns (matched: nat, total: nat, unmatched: seq<UnmatchedJoin>)
    ensures total == |CountedHosts(hosts)|
    ensures matched == CountOf(CountedHosts(hosts), JoinedBy(rules, mc, net))
    ensures unmatched == Unmatched(CountedHosts(hosts), JoinedBy(rules, mc, net))
  {
    hide JoinedBy, Joined;
    ghost var joins := JoinedBy(rules, mc, net);
    matched, total, unmatched := 0, 0, [];
    for i := 0 to |hosts|
      invariant total == |CountedHosts(hosts[..i])|
      invariant matched == CountOf(CountedHosts(hosts[..i]), joins)
      invariant unmatched == Unmatched(CountedHosts(hosts[..i]), joins)
    {
      assert hosts[..i + 1] == hosts[..i] + [hosts[i]];
      TallyStep(hosts[..i], hosts[i], joins);
      if !Counted(hosts[i]) { continue; }
      total := total + 1;
      var joined := JoinsHost(hosts[i], rules, mc, net, joins);
      if joined {
        matched := matched + 1;
        continue;
      }
      unmatched := AppendDomains(unmatched, hosts[i]);
    }
    assert hosts[..|hosts|] == hosts;
  }

  method AppendDomains(unmatched: seq<UnmatchedJoin>, host: ProxyHost) returns (r: seq<UnmatchedJoin>)
    ensures r == unmatched + DomainsOf(host)
  {
    r := unmatched;
    for k := 0 to |host.domainNames|
      invariant r == unmatched + DomainsOf(host)[..k]
    {
      r := r + [UnmatchedJoin(host.domainNames[k], host.forwardHost)];
    }
  }

  /** What is listed is exactly what is wrong: full marks mean an empty list, and every missed domain is in it. */
  ghost predicate ListsTheMissed(c: Coverage, hosts: seq<ProxyHost>, joins: ProxyHost -> bool) {
    && c.matched <= c.total && (c.matched == c.total <==> c.unmatched == [])
    && (forall u :: u in c.unmatched <==>
          exists h ::
              h in hosts && h.enabled && h.domainNames != [] && !joins(h) && u.domain in h.domainNames
                && u.forwardHost == h.forwardHost)
  }

  lemma CoverageMeaning(c: Coverage, data: CacheData, policy: Policy, lower: char -> char, net: Network)
    requires IsCoverage(c, Some(data), lower, net) && data.policy == Some(policy)
    ensures ListsTheMissed(c, data.proxyHosts,
                           JoinedBy(AccessRules(policy), DoctorContext(policy.hosts, data.nodes), net))
  {
    hide JoinedBy, Covers, ListsTheMissed;
    CoversMeaning(c, data.proxyHosts, JoinedBy(AccessRules(policy), DoctorContext(policy.hosts, data.nodes), net),
                  lower);
  }

  lemma CoversMeaning(c: Coverage, hosts: seq<ProxyHost>, joins: ProxyHost -> bool, lower: char -> char)
    requires Covers(c, hosts, joins, lower)
    ensures ListsTheMissed(c, hosts, joins)
  {
    CountedMeaning(hosts);
    UnmatchedMeaning(CountedHosts(hosts), joins);
    var all := Unmatched(CountedHosts(hosts), joins);
    SameLength(c.unmatched, all);
    forall u ensures u in c.unmatched <==> u in all { assert u in multiset(c.unmatched) <==> u in multiset(all); }
  }

  lemma {:induction false} CountedMeaning(hosts: seq<ProxyHost>)
    ensures forall h :: h in CountedHosts(hosts) <==> h in hosts && h.enabled && h.domainNames != []
  {
    if hosts != [] {
      CountedMeaning(hosts[..|hosts| - 1]);
      assert hosts == hosts[..|hosts| - 1] + [hosts[|hosts| - 1]];
    }
  }

  lemma {:induction false} UnmatchedMeaning(hosts: seq<ProxyHost>, joins: ProxyHost -> bool)
    requires forall h | h in hosts :: Counted(h)
    ensures CountOf(hosts, joins) <= |hosts| && (CountOf(hosts, joins) == |hosts| <==> Unmatched(hosts, joins) == [])
    ensures forall u :: u in Unmatched(hosts, joins) <==>
              exists h :: h in hosts && !joins(h) && u.domain in h.domainNames && u.forwardHost == h.forwardHost
  {
    if hosts != [] {
      var n := |hosts| - 1;
      assert hosts == hosts[..n] + [hosts[n]];
      UnmatchedMeaning(hosts[..n], joins);
      forall u ensures u in DomainsOf(hosts[n]) <==>
          u.domain in hosts[n].domainNames && u.forwardHost == hosts[n].forwardHost {
        if u.domain in hosts[n].domainNames && u.forwardHost == hosts[n].forwardHost {
          var k :| 0 <= k < |hosts[n].domainNames| && hosts[n].domainNames[k] == u.domain;
          assert DomainsOf(hosts[n])[k] == u;
        }
      }
      assert DomainsOf(hosts[n]) != [] by { assert Counted(hosts[n]); }
    }
  }

  /** The sort leaves no freedom. */
  lemma CoverageIsUnique(a: Coverage, b: Coverage, snapshot: Option<CacheData>, lower: char -> char, net: Network)
    requires IsCoverage(a, snapshot, lower, net) && IsCoverage(b, snapshot, lower, net)
    ensures a == b
  {
    hide JoinedBy;
    if snapshot.Some? && snapshot.value.policy.Some? {
      forall x, y | x in a.unmatched && y in a.unmatched && x != y ensures JoinOrder(lower)(x, y)
          || JoinOrder(lower)(y, x) {
        JoinLessIsLinear(x, y, x, lower);
      }
      SortedPermutationUnique(a.unmatched, b.unmatched, JoinOrder(lower));
    }
  }

  method JoinsHost(host: ProxyHost, rules: seq<AccessRule>, mc: MatchContext, net: Network,
                   ghost joins: ProxyHost -> bool)
      returns (b: bool)
    requires joins == JoinedBy(rules, mc, net)
    ensures b <==> joins(host)
  {
    b := DoctorHasSupportedJoin(host, rules, mc, net);
  }

  lemma TallyStep(hosts: seq<ProxyHost>, last: ProxyHost, joins: ProxyHost -> bool)
    ensures |CountedHosts(hosts + [last])| == |CountedHosts(hosts)| + (if Counted(last) then 1 else 0)
    ensures CountOf(CountedHosts(hosts + [last]), joins)
         == CountOf(CountedHosts(hosts), joins) + (if Counted(last) && joins(last) then 1 else 0)
    ensures Unmatched(CountedHosts(hosts + [last]), joins)
         == Unmatched(CountedHosts(hosts), joins) + (if Counted(last) && !joins(last) then DomainsOf(last) else [])
  {
    CountedAppend(hosts, last);
    var before := CountedHosts(hosts);
    if Counted(last) {
      CountAppend(before, last, joins);
      assert (before + [last])[..|before|] == before;
    } else {
      assert before + [] == before;
    }
  }

  /** Stripping twice is harmless: the second pass changes nothing, or leaves the wildcard. */
  predicate StripsOnce(selector: string, net: Network) {
    var once := StripPort(selector, net);
    StripPort(once, net) == once || StripPort(once, net) == "*"
  }

  lemma MoreSelfIps(selector: string, address: string, mc: MatchContext, more: seq<string>, net: Network)
    requires ResolvedKind(selector, address, mc, net).Some? && forall a | a in mc.selfIps :: a in more
    ensures ResolvedKind(selector, address, mc.(selfIps := more), net).Some?
  {
  }

  lemma StrippedSelectorMatches(d: string, address: string, mc: MatchContext, more: seq<string>, net: Network)
    requires StripsOnce(d, net)
    requires MatchedDestination(d, address, mc, net).Some? && forall a | a in mc.selfIps :: a in more
    ensures MatchedDestination(StripPort(d, net), address, mc.(selfIps := more), net).Some?
  {
    var once := StripPort(d, net);
    if StripPort(once, net) == once {
      MoreSelfIps(if IsAlias(once, mc.hosts, net) then StripPort(mc.hosts[once], net)
                  else once, address, mc, more, net);
    } else {
      assert Reserved("*", net);
    }
  }

  /** A selector keeps every match when its port is stripped beforehand, exactly when it strips once. */
  lemma DoctorSelectorIsExact(d: string, net: Network)
    requires net.Lawful()
    ensures (forall address, mc | MatchedDestination(d, address, mc, net).Some? ::
               MatchedDestination(StripPort(d, net), address, mc, net).Some?)
       <==> StripsOnce(d, net)
  {
    if StripsOnce(d, net) {
      forall address, mc: MatchContext | MatchedDestination(d, address, mc, net).Some?
        ensures MatchedDestination(StripPort(d, net), address, mc, net).Some?
      {
        StrippedSelectorMatches(d, address, mc, mc.selfIps, net);
        assert mc.(selfIps := mc.selfIps) == mc;
      }
    } else {
      var once := StripPort(d, net);
      var mc := MatchContext(map[], map[], []);
      assert !net.isIp(once);
      assert MatchedDestination(d, once, mc, net).Some?;
      assert MatchedDestination(once, once, mc, net).None?;
    }
  }

  /** A selector with two trailing ports is one that does not strip once. */
  lemma TwoPortsStripTwice(net: Network)
    requires !net.isIp("db:1:2") && !net.isIp("db:1")
    ensures !StripsOnce("db:1:2", net)
  {
    assert LastColon("db:1:2") == 4 && "db:1:2"[5..] == "2" && "db:1:2"[..4] == "db:1";
    assert LastColon("db:1") == 2 && "db:1"[3..] == "1";
    assert StripPort("db:1:2", net) == "db:1";
  }

  function OneAcl(selector: string, hosts: map<string, string>): Policy {
    Policy(map[], [AclRule(["*"], [selector])], [], hosts)
  }

  lemma OneRule(selector: string, hosts: map<string, string>)
    ensures AccessRules(OneAcl(selector, hosts)) == [AccessRule(Acl, 0, ["*"], [selector], [])]
  {
  }

  lemma EverybodyIsASource(viewer: Viewer)
    ensures AnyHit(["*"], SourceTest(Acl, viewer))
  {
    assert SourceTest(Acl, viewer)(["*"][0]).Some?;
  }

  /**
   * A host that everybody sees and doctor does not join: the rule names it with a port of its own behind,
   * and doctor strips both.
   */
  lemma SeenButNotJoined(viewer: Viewer, nodes: seq<Node>, host: ProxyHost, net: Network)
    requires !net.isIp("db:1:2") && !net.isIp("db:1")
    requires host.enabled && Renderable(host) && host.forwardHost == "db:1" && viewer.context.hosts == map[]
    ensures var rules := AccessRules(OneAcl("db:1:2", map[]));
            && Visible(host, rules, viewer, net) && Counted(host)
            && !Joined(host, rules, DoctorContext(map[], nodes), net)
  {
    hide MatchedDestination, StripPort;
    var rules, mc := AccessRules(OneAcl("db:1:2", map[])), DoctorContext(map[], nodes);
    OneRule("db:1:2", map[]);
    EverybodyIsASource(viewer);
    TwoPortMatches(viewer.context, mc, net);
    assert DestinationTest("db:1", viewer, net)(rules[0].dst[0]).Some?;
    assert Admits(rules[0], "db:1", host.forwardPort, viewer, net);
    assert forall r, d | r in rules && d in r.dst :: !JoinTest("db:1", mc, net)(d);
  }

  lemma TwoPortMatches(mc: MatchContext, doctor: MatchContext, net: Network)
    requires !net.isIp("db:1:2") && !net.isIp("db:1") && mc.hosts == map[] == doctor.hosts
    ensures MatchedDestination("db:1:2", "db:1", mc, net).Some?
    ensures MatchedDestination(StripPort("db:1:2", net), "db:1", doctor, net).None?
  {
    assert LastColon("db:1:2") == 4 && "db:1:2"[5..] == "2" && "db:1:2"[..4] == "db:1";
    assert LastColon("db:1") == 2 && "db:1"[3..] == "1" && "db:1"[..2] == "db";
    assert StripPort("db:1:2", net) == "db:1" && StripPort("db:1", net) == "db";
    hide StripPort;
    assert "db"[0] == 'd' && "*"[0] == '*' && "tag:"[0] == 't' && "autogroup:self"[0] == 'a' && 'a' == "autogroup:"[0];
  }

  /** An alias for which coverage fails: its rule grants one's own nodes without anything to show it. */
  lemma AliasIsUncovered(ids: set<string>, roles: set<string>, login: string, host: ProxyHost, net: Network)
    requires !net.isIp("me:443") && !net.isIp("me") && !net.isCidr("me") && !net.isIp(SELF)
    requires NormalizedLogin(login) != "" && host.enabled && Renderable(host) && host.forwardHost != SELF
    ensures var p := OneAcl("me:443", map["me" := SELF]);
            && !DependsOnIdentity(host, AccessRules(p), net)
            && exists nodes ::
                 && Visible(host, AccessRules(p), ViewerOf(ids, roles, login, p.hosts, nodes), net)
                 && !StructuralMatch(host, AccessRules(p), p.hosts, nodes, net)
  {
    hide MatchedDestination, StripPort, IsAlias, ViewerOf, AliasOfSelf, Visible, ContextFor;
    var p := OneAcl("me:443", map["me" := SELF]);
    var rules, viewer := AccessRules(p), ViewerOf(ids, roles, login, p.hosts, []);
    OneRule("me:443", p.hosts);
    EverybodyIsASource(viewer);
    OwnAliasStrips(host.forwardHost, p.hosts, net);
    ViewerKeepsHosts(ids, roles, login, p.hosts);
    assert AliasTest(p.hosts, net)(rules[0].dst[0]);
    assert RuleUsesSelfAlias(rules[0], host.forwardPort, viewer, net);
    var test := StructuralTest(host.forwardHost, ContextFor("", p.hosts, []), net);
    assert forall r, d | r in rules && d in r.dst :: !Yields(test)(d) && !SelfTest(net)(d);
    UncoveredHost(ids, roles, login, host, p, net);
  }

  lemma ViewerKeepsHosts(ids: set<string>, roles: set<string>, login: string, hosts: map<string, string>)
    ensures ViewerOf(ids, roles, login, hosts, []).context.hosts == hosts
  {
  }

  lemma OwnAliasStrips(address: string, hosts: map<string, string>, net: Network)
    requires !net.isIp("me:443") && !net.isIp("me") && !net.isCidr("me") && !net.isIp(SELF)
    requires hosts == map["me" := SELF]
    requires address != SELF
    ensures AliasOfSelf("me:443", hosts, net) && !SelectsSelf("me:443", net)
    ensures MatchedDestination("me:443", address, ContextFor("", hosts, []), net).None?
  {
    hide StripPort;
    OwnAliasText(net);
    assert "me"[0] == 'm';
    assert IsAlias("me", hosts, net);
    NobodyOwns([]);
    assert SELF[0] == 'a' && "*"[0] == '*' && "tag:"[0] == 't';
  }

  lemma OwnAliasText(net: Network)
    requires !net.isIp("me:443") && !net.isIp(SELF)
    ensures StripPort("me:443", net) == "me" && StripPort(SELF, net) == SELF
  {
    SelfHasNoPort();
    var s := "me:443";
    assert s[2] == ':' && s[3..] == "443" && s[..2] == "me";
    assert LastColon(s) == 2 && PortLike("443");
    assert s[0] == 'm' && SELF[0] == 'a' && "["[0] == '[';
  }

  lemma SelfHasNoPort()
    ensures LastColon(SELF) == 9 && !PortLike(SELF[10..])
  {
    assert SELF[9] == ':';
    assert LastColon(SELF) == 9;
    var rest := SELF[10..];
    assert rest[0] == SELF[10] == 's' && rest[0] in rest && |rest| == 4;
  }

  lemma OwnAddressesAreKnown(login: string, nodes: seq<Node>)
    ensures forall a | a in SelfIps(login, nodes) :: a in AllAddresses(nodes)
  {
  }

  /** Whatever any identity can see, doctor counts as joined, when the policy's selectors strip once. */
  lemma VisibleIsJoined(viewer: Viewer, login: string, host: ProxyHost, policy: Policy, nodes: seq<Node>, net: Network)
    requires viewer.context == ContextFor(login, policy.hosts, nodes)
    requires forall r, d | r in AccessRules(policy) && d in r.dst :: StripsOnce(d, net)
    requires Visible(host, AccessRules(policy), viewer, net)
    ensures Counted(host) && Joined(host, AccessRules(policy), DoctorContext(policy.hosts, nodes), net)
  {
    var r :| r in AccessRules(policy) && Admits(r, host.forwardHost, host.forwardPort, viewer, net);
    var i :| 0 <= i < |r.dst| && DestinationTest(host.forwardHost, viewer, net)(r.dst[i]).Some?;
    assert r.dst[i] in r.dst;
    OwnAddressesAreKnown(login, nodes);
    StrippedSelectorMatches(r.dst[i], host.forwardHost, viewer.context, AllAddresses(nodes), net);
    var mc := DoctorContext(policy.hosts, nodes);
    assert viewer.context.(selfIps := AllAddresses(nodes)) == mc;
    assert JoinTest(host.forwardHost, mc, net)(r.dst[i]);
  }
}
