/** Who reaches what: selectors, logins and rules, told over the policy and the nodes. */
module Reach {
  import opened Common
  import opened Ordering
  import opened Policy
  import opened ServiceCards
  import opened ServiceMatcher
  import opened Selection

  // Ports behind names

  /** A text that is a port: a number, or any. */
  predicate IsPort(s: string) { s == "*" || (s != "" && forall c | c in s :: '0' <= c <= '9') }

  lemma BracketsComeOff(name: string, rest: string, net: Network)
    requires ']' !in name
    ensures StripPort("[" + name + "]" + rest, net) == name
  {
    var d := "[" + name + "]" + rest;
    assert d[|name| + 1] == ']';
    assert forall k | 0 < k <= |name| :: d[k] == name[k - 1] && name[k - 1] in name;
    assert d[0] == '[' && "["[0] == '[';
    assert IndexOf(d, ']') == |name| + 1;
  }

  lemma LastColonIs(d: string, n: nat)
    requires n < |d| && d[n] == ':' && ':' !in d[n + 1..]
    ensures LastColon(d) == n
  {
    hide LastColon;
    forall k | n < k < |d| ensures d[k] != ':' { assert d[k] == d[n + 1..][k - n - 1]; }
  }

  lemma LastColonAt(name: string, port: string)
    requires ':' !in port
    ensures LastColon(name + ":" + port) == |name|
    ensures (name + ":" + port)[|name| + 1..] == port && (name + ":" + port)[..|name|] == name
  {
    hide LastColon;
    var d := name + ":" + port;
    assert d[|name|] == ':' && d[|name| + 1..] == port;
    LastColonIs(d, |name|);
  }

  lemma NoBracket(name: string, rest: string)
    requires !HasPrefix(name, "[")
    ensures !HasPrefix(name + ":" + rest, "[")
  {
    var d := name + ":" + rest;
    assert d[0] == if name == "" then ':' else name[0];
    assert "["[0] == '[' && (name != "" && name[0] == '[' ==> "[" <= name);
  }

  /** Behind a name a port comes off, once; any other text stays; addresses stay whole. */
  lemma PortsComeOff(name: string, port: string, net: Network)
    requires !HasPrefix(name, "[")
    ensures net.isIp(name) || ':' !in name ==> StripPort(name, net) == name
    ensures IsPort(port) && !net.isIp(name + ":" + port) ==> StripPort(name + ":" + port, net) == name
    ensures ':' !in port && !IsPort(port) ==> StripPort(name + ":" + port, net) == name + ":" + port
  {
    NoBracket(name, port);
    if ':' !in port { LastColonAt(name, port); }
  }

  // Destinations

  /** What a selector stands for: a host alias, or the selector itself, without a port. */
  function Denoted(selector: string, hosts: map<string, string>, net: Network): string {
    var name := StripPort(selector, net);
    if !Reserved(name, net) && name in hosts then StripPort(hosts[name], net) else name
  }

  /** No alias takes the place of the wildcard, an address, a range, a login or one of the reserved kinds. */
  lemma AliasesNeverShadow(selector: string, hosts: map<string, string>, net: Network)
    requires var name := StripPort(selector, net);
             || name == "*" || net.isIp(name) || net.isCidr(name) || '@' in name
             || exists kind :: HasPrefix(name, kind + ":")
                  && kind in {"group", "tag", "autogroup", "ipset", "svc", "posture"}
    ensures Denoted(selector, hosts, net) == StripPort(selector, net)
  {
    KindsAreReserved();
  }

  lemma KindsAreReserved()
    ensures "group" + ":" == "group:" && "tag" + ":" == "tag:" && "autogroup" + ":" == "autogroup:"
    ensures "ipset" + ":" == "ipset:" && "svc" + ":" == "svc:" && "posture" + ":" == "posture:"
  {
  }

  /** Any other name that the policy has an alias for stands for that. */
  lemma AliasesStand(selector: string, hosts: map<string, string>, net: Network)
    requires var name := StripPort(selector, net);
             && name in hosts && name != "*" && !net.isIp(name) && !net.isCidr(name) && '@' !in name && ':' !in name
    ensures Denoted(selector, hosts, net) == StripPort(hosts[StripPort(selector, net)], net)
  {
    var name := StripPort(selector, net);
    assert "group:"[5] == ':' && "tag:"[3] == ':' && "autogroup:"[9] == ':' && "ipset:"[5] == ':' && "svc:"[3] == ':'
           && "posture:"[7] == ':';
    forall p | HasPrefix(name, p) ensures forall i | 0 <= i < |p| :: p[i] in name {
      assert forall i | 0 <= i < |p| :: name[i] == p[i];
    }
  }

  // Logins

  /** The forms in which a policy may write a login: as it is, and with or without a final @ if it has no domain. */
  predicate WritesLogin(token: string, login: string) {
    var s := TrimSpace(login);
    s != "" && token != "" && (token == s || ('@' !in s && token == s + "@") || s == token + "@")
  }

  lemma TokensExactly(login: string, token: string)
    ensures token in IdentityTokens(login) <==> WritesLogin(token, login)
  {
    hide TrimSpace;
    TokensOfForm(NormalizedLogin(login), token);
    var s := TrimSpace(login);
    if s != "" && '@' !in s { assert (s + "@")[..|s|] == s && HasSuffix(s + "@", "@"); }
  }

  /** The tokens of a login in its normal form. */
  lemma TokensOfForm(n: string, token: string)
    ensures token in (if n == "" then {} else if HasSuffix(n, "@") && n != "@" then {n, n[..|n| - 1]} else {n})
       <==> n != "" && token != "" && (token == n || n == token + "@")
  {
    if HasSuffix(n, "@") { assert n == n[..|n| - 1] + "@"; }
    if n == token + "@" { assert n[..|n| - 1] == token && n[|n| - 1..] == "@"; }
  }

  lemma NormalFormKeepsTokens(login: string)
    ensures IdentityTokens(NormalizedLogin(TrimSpace(login))) == IdentityTokens(login)
  {
    NormalizedTwice(login);
    hide TrimSpace;
  }

  lemma NormalizedTwice(login: string)
    ensures NormalizedLogin(NormalizedLogin(TrimSpace(login))) == NormalizedLogin(login)
  {
    TrimSpaceTwice(login);
    var s := TrimSpace(login);
    if s != "" && '@' !in s {
      assert (s + "@")[0] == s[0] && (s + "@")[|s|] == '@';
      TrimsNothing(s + "@");
    }
  }

  // What a selector reaches

  predicate Wears(n: Node, tag: string, address: string) { tag in n.tags && address in n.addresses }

  predicate Owns(login: string, n: Node, address: string) {
    WritesLogin(TrimSpace(n.ownerLogin), login) && address in n.addresses
  }

  /** A range, which no tag and no autogroup is. */
  predicate InRange(target: string, address: string, net: Network) {
    && '/' in target && !HasPrefix(target, "tag:") && !HasPrefix(target, "autogroup:")
    && net.isCidr(target) && net.isIp(address) && net.cidrContains(target, address)
  }

  /** Everything; the address itself; a tag that a node with the address wears; one's own node with it; or a range. */
  predicate Covers(target: string, address: string, login: string, nodes: seq<Node>, net: Network) {
    || target == "*"
    || target == address
    || (HasPrefix(target, "tag:") && exists n | n in nodes :: Wears(n, target, address))
    || (target == "autogroup:self" && exists n | n in nodes :: Owns(login, n, address))
    || InRange(target, address, net)
  }

  lemma OwnAddresses(login: string, nodes: seq<Node>, address: string)
    ensures address in SelfIps(NormalizedLogin(TrimSpace(login)), nodes) <==> exists n | n in nodes ::
              Owns(login, n, address)
  {
    NormalFormKeepsTokens(login);
    forall n | n in nodes
      ensures LoginMatches(NormalizedLogin(TrimSpace(login)), n.ownerLogin) <==>
              WritesLogin(TrimSpace(n.ownerLogin), login)
    {
      TokensExactly(login, TrimSpace(n.ownerLogin));
    }
    hide IdentityTokens, NormalizedLogin, TrimSpace, WritesLogin;
  }

  lemma KindsDiffer()
    ensures !HasPrefix("autogroup:self", "tag:") && !HasPrefix("*", "tag:") && "*" != "autogroup:self"
    ensures HasPrefix("autogroup:self", "autogroup:")
    ensures forall s | HasPrefix(s, "tag:") :: !HasPrefix(s, "autogroup:")
  {
    assert "autogroup:self"[0] == 'a' && "tag:"[0] == 't' && "*"[0] == '*' && "autogroup:"[0] == 'a';
    assert "autogroup:self"[..10] == "autogroup:";
  }

  lemma TargetExactly(target: string, address: string, login: string, hosts: map<string, string>, nodes: seq<Node>,
                      net: Network)
    ensures ResolvedKind(target, address, ContextFor(NormalizedLogin(TrimSpace(login)), hosts, nodes), net).Some?
       <==> Covers(target, address, login, nodes, net)
  {
    OwnAddresses(login, nodes, address);
    TagIpsMeaning(nodes, target, address);
    KindsDiffer();
    hide SelfIps, TagIps, HasPrefix, Owns;
  }

  /** What a selector matches, on any nodes, is what it stands for. */
  lemma SelectorExactly(selector: string, address: string, login: string, hosts: map<string, string>, nodes: seq<Node>,
                        net: Network)
    ensures MatchedDestination(selector, address, ContextFor(NormalizedLogin(TrimSpace(login)), hosts, nodes),
                               net).Some?
       <==> Covers(Denoted(selector, hosts, net), address, login, nodes, net)
  {
    TargetExactly(Denoted(selector, hosts, net), address, login, hosts, nodes, net);
    hide ResolvedKind, Covers, StripPort, Reserved;
  }

  /** The evidence of a match: the selector, its name without the port, why it matches, and what it came to. */
  lemma EvidenceTells(selector: string, address: string, login: string, hosts: map<string, string>, nodes: seq<Node>,
                      net: Network)
    requires MatchedDestination(selector, address, ContextFor(NormalizedLogin(TrimSpace(login)), hosts, nodes),
                                net).Some?
    ensures var e := MatchedDestination(selector, address, ContextFor(NormalizedLogin(TrimSpace(login)), hosts, nodes),
                                        net).value;
            && e.selector == selector && e.normalized == StripPort(selector, net)
            && Covers(Denoted(selector, hosts, net), address, login, nodes, net)
            && match e.kind
               case HostAlias => e.normalized in hosts && e.resolved == StripPort(hosts[e.normalized], net)
               case Wildcard => e.normalized == "*" && e.resolved == address
               case Exact => e.normalized == address == e.resolved
               case Tag =>
                 HasPrefix(e.normalized, "tag:") && e.resolved == address && exists n | n in nodes ::
                   Wears(n, e.normalized, address)
               case Self =>
                 e.normalized == "autogroup:self" && e.resolved == address && exists n | n in nodes ::
                   Owns(login, n, address)
               case Cidr => e.resolved == e.normalized && InRange(e.normalized, address, net)
  {
    SelectorExactly(selector, address, login, hosts, nodes, net);
    OwnAddresses(login, nodes, address);
    TagIpsMeaning(nodes, StripPort(selector, net), address);
    KindsDiffer();
    hide SelfIps, TagIps, HasPrefix, Owns, Covers, StripPort, Reserved;
  }

  // Rules

  /** The token stands for the login: for everybody, for a form of it, or for a group that lists one. */
  predicate StandsFor(token: string, login: string, groups: map<string, seq<string>>) {
    || token == "*"
    || WritesLogin(token, login)
    || (token in groups && exists m | m in groups[token] :: WritesLogin(TrimSpace(m), login))
  }

  /** A role selector that the control plane grants the login. */
  predicate HasRole(token: string, login: string, roles: map<string, seq<string>>) {
    TrimSpace(login) != "" && TrimSpace(login) in roles && token in roles[TrimSpace(login)]
  }

  /** Some capability lets TCP, protocol 6, through to the port. */
  predicate Opens(capabilities: seq<Capability>, port: int) {
    && 1 <= port <= 65535
    && exists c | c in capabilities ::
         (c.allProtocols || c.protocol == 6) && (c.allPorts || c.portStart <= port <= c.portEnd)
  }

  predicate Reaches(dst: seq<string>, address: string, login: string, p: Policy, nodes: seq<Node>, net: Network) {
    exists d | d in dst :: Covers(Denoted(d, p.hosts, net), address, login, nodes, net)
  }

  predicate AclLets(a: AclRule, host: ProxyHost, login: string, p: Policy, nodes: seq<Node>, net: Network) {
    (exists t | t in a.src :: StandsFor(t, login, p.groups)) && Reaches(a.dst, host.forwardHost, login, p, nodes, net)
  }

  predicate GrantLets(g: GrantRule, host: ProxyHost, login: string, p: Policy, data: CacheData, net: Network) {
    && Opens(g.capabilities, host.forwardPort)
    && (exists t | t in g.browserSrc :: StandsFor(t, login, p.groups) || HasRole(t, login, data.roles))
    && Reaches(g.dst, host.forwardHost, login, p, data.nodes, net)
  }

  lemma DirectExactly(login: string, token: string, groups: map<string, seq<string>>)
    ensures token == "*" || token in DirectIdentities(IdentityTokens(login), groups) <==>
            StandsFor(token, login, groups)
  {
    TokensExactly(login, token);
    forall m ensures TrimSpace(m) in IdentityTokens(login) <==> WritesLogin(TrimSpace(m), login) {
      TokensExactly(login, TrimSpace(m));
    }
    hide IdentityTokens, WritesLogin, TrimSpace;
  }

  lemma SourcesExactly(src: seq<string>, kind: RuleKind, login: string, order: seq<string>, data: CacheData, p: Policy)
    requires data.policy == Some(p) && IterationOrder(order, p.groups) && NoGroupChain(IdentityTokens(login), p.groups)
    ensures AnyHit(src, SourceTest(kind, ViewerFor(login, order, data)))
       <==> exists t | t in src :: StandsFor(t, login, p.groups) || (kind == Grant && HasRole(t, login, data.roles))
  {
    ViewerIsOrderFree(login, order, order, data);
    forall t ensures SourceMatches(t, kind, ViewerFor(login, order, data))
                <==> StandsFor(t, login, p.groups) || (kind == Grant && HasRole(t, login, data.roles))
    {
      DirectExactly(login, t, p.groups);
    }
    hide StandsFor, HasRole, ViewerFor, SourceMatches;
    var test := SourceTest(kind, ViewerFor(login, order, data));
    if t :| t in src && SourceMatches(t, kind, ViewerFor(login, order, data)) {
      var i :| 0 <= i < |src| && src[i] == t;
      assert test(src[i]).Some?;
    }
  }

  lemma DestinationsExactly(dst: seq<string>, address: string, login: string, order: seq<string>, data: CacheData,
                            p: Policy, net: Network)
    requires data.policy == Some(p) && IterationOrder(order, p.groups)
    ensures AnyHit(dst, DestinationTest(address, ViewerFor(login, order, data), net))
       <==> Reaches(dst, address, login, p, data.nodes, net)
  {
    var test := DestinationTest(address, ViewerFor(login, order, data), net);
    forall d ensures test(d).Some? <==> Covers(Denoted(d, p.hosts, net), address, login, data.nodes, net) {
      SelectorExactly(d, address, login, p.hosts, data.nodes, net);
    }
    hide Covers, Denoted, DestinationTest;
    if d :| d in dst && Covers(Denoted(d, p.hosts, net), address, login, data.nodes, net) {
      var i :| 0 <= i < |dst| && dst[i] == d;
      assert test(dst[i]).Some?;
    }
  }

  /** The i-th access rule is an ACL, or the Grant behind the ACLs; it admits a host just as that does. */
  lemma RuleExactly(i: nat, host: ProxyHost, login: string, order: seq<string>, data: CacheData, p: Policy,
                    net: Network)
    requires data.policy == Some(p) && IterationOrder(order, p.groups) && NoGroupChain(IdentityTokens(login), p.groups)
    requires i < |AccessRules(p)|
    ensures var r := AccessRules(p)[i];
            && (Admits(r, host.forwardHost, host.forwardPort, ViewerFor(login, order, data), net)
                <==> if i < |p.acls| then AclLets(p.acls[i], host, login, p, data.nodes, net)
                     else GrantLets(p.grants[i - |p.acls|], host, login, p, data, net))
            && (r.kind == Acl <==> i < |p.acls|) && r.index == (if i < |p.acls| then i else i - |p.acls|)
  {
    hide AnyHit, ViewerFor, StandsFor, HasRole, Reaches, IterationOrder, NoGroupChain, IdentityTokens, AccessRules;
    var r := AccessRules(p)[i];
    RuleAt(p, i);
    SourcesExactly(r.src, r.kind, login, order, data, p);
    DestinationsExactly(r.dst, host.forwardHost, login, order, data, p, net);
  }

  lemma RuleAt(p: Policy, i: nat)
    requires i < |AccessRules(p)|
    ensures AccessRules(p)[i] ==
            if i < |p.acls| then AccessRule(Acl, i, p.acls[i].src, p.acls[i].dst, [])
            else
              var k := i - |p.acls|;
              AccessRule(Grant, k, p.grants[k].browserSrc, p.grants[k].dst, p.grants[k].capabilities)
  {
  }

  /** The login is shown the host: a rule of the policy lets it through. */
  predicate Shown(host: ProxyHost, login: string, p: Policy, data: CacheData, net: Network) {
    host.enabled && (exists d | d in host.domainNames :: TrimSpace(d) != "") && SomeRuleLets(host, login, p, data, net)
  }

  /** An ACL or a Grant of the policy lets the login through to the host. */
  predicate SomeRuleLets(host: ProxyHost, login: string, p: Policy, data: CacheData, net: Network) {
    || (exists a | a in p.acls :: AclLets(a, host, login, p, data.nodes, net))
    || exists g | g in p.grants :: GrantLets(g, host, login, p, data, net)
  }

  lemma VisibleExactly(host: ProxyHost, login: string, order: seq<string>, data: CacheData, p: Policy, net: Network)
    requires data.policy == Some(p) && IterationOrder(order, p.groups) && NoGroupChain(IdentityTokens(login), p.groups)
    ensures Visible(host, AccessRules(p), ViewerFor(login, order, data), net) <==> Shown(host, login, p, data, net)
  {
    if SomeRuleAdmits(host, p, ViewerFor(login, order, data), net) { AdmittedIsLet(host, login, order, data, p, net); }
    if SomeRuleLets(host, login, p, data, net) { LetIsAdmitted(host, login, order, data, p, net); }
    hide Admits, AclLets, GrantLets, ViewerFor, NoGroupChain, IterationOrder, AccessRules;
  }

  predicate SomeRuleAdmits(host: ProxyHost, p: Policy, viewer: Viewer, net: Network) {
    exists r | r in AccessRules(p) :: Admits(r, host.forwardHost, host.forwardPort, viewer, net)
  }

  lemma AdmittedIsLet(host: ProxyHost, login: string, order: seq<string>, data: CacheData, p: Policy, net: Network)
    requires data.policy == Some(p) && IterationOrder(order, p.groups) && NoGroupChain(IdentityTokens(login), p.groups)
    requires SomeRuleAdmits(host, p, ViewerFor(login, order, data), net)
    ensures SomeRuleLets(host, login, p, data, net)
  {
    hide Admits, AclLets, GrantLets, ViewerFor, NoGroupChain, IterationOrder, AccessRules;
    var rules := AccessRules(p);
    var r :| r in rules && Admits(r, host.forwardHost, host.forwardPort, ViewerFor(login, order, data), net);
    var i :| 0 <= i < |rules| && rules[i] == r;
    RuleExactly(i, host, login, order, data, p, net);
  }

  lemma LetIsAdmitted(host: ProxyHost, login: string, order: seq<string>, data: CacheData, p: Policy, net: Network)
    requires data.policy == Some(p) && IterationOrder(order, p.groups) && NoGroupChain(IdentityTokens(login), p.groups)
    requires SomeRuleLets(host, login, p, data, net)
    ensures SomeRuleAdmits(host, p, ViewerFor(login, order, data), net)
  {
    hide Admits, AclLets, GrantLets, ViewerFor, NoGroupChain, IterationOrder, AccessRules;
    var i: nat;
    if a :| a in p.acls && AclLets(a, host, login, p, data.nodes, net) {
      i :| i < |p.acls| && p.acls[i] == a;
    } else {
      var g :| g in p.grants && GrantLets(g, host, login, p, data, net);
      var k: nat :| k < |p.grants| && p.grants[k] == g;
      i := |p.acls| + k;
    }
    RuleExactly(i, host, login, order, data, p, net);
    assert AccessRules(p)[i] in AccessRules(p);
  }

  /** Without group chains a login is shown exactly the hosts that the policy lets it through to. */
  lemma ServicesExactly(result: seq<Match>, login: string, data: CacheData, p: Policy, order: seq<string>, lib: Library,
                        host: ProxyHost)
    requires IsEvaluation(result, Some(login), Some(data), order, lib) && data.policy == Some(p)
    requires NoGroupChain(IdentityTokens(login), p.groups)
    ensures (exists m | m in result :: m.host == host)
       <==> TrimSpace(login) != "" && host in data.proxyHosts && Shown(host, login, p, data, lib.net)
  {
    if TrimSpace(login) != "" {
      TrimSpaceTwice(login);
      var rules, viewer := AccessRules(p), ViewerFor(login, order, data);
      VisibleExactly(host, login, order, data, p, lib.net);
      hide Visible, Shown, NoGroupChain, ViewerFor, TrimSpace;
      var matches: seq<Match> :| MatchesInHostOrder(matches, data.proxyHosts, rules, viewer, data.metadata, lib)
        && multiset(result) == multiset(matches);
      OneMatchPerVisibleHost(matches, data.proxyHosts, rules, viewer, data.metadata, lib);
      HostsAreMatched(matches, result, host);
    }
  }

  lemma HostsAreMatched(matches: seq<Match>, result: seq<Match>, host: ProxyHost)
    requires multiset(result) == multiset(matches)
    ensures host in HostsOf(matches) <==> exists m | m in result :: m.host == host
  {
    if m :| m in result && m.host == host {
      assert m in multiset(matches);
      var i: int :| 0 <= i < |matches| && matches[i] == m;
      assert HostsOf(matches)[i] == host;
    }
    if host in HostsOf(matches) {
      var i: int :| 0 <= i < |matches| && HostsOf(matches)[i] == host;
      assert matches[i] in multiset(result);
    }
  }

  // Evidence

  /**
   * The evidence names the first rule that lets the login through, in it a source that stands for the login, and in it
   * a destination that covers the host.
   */
  predicate TellsWhy(e: Evidence, host: ProxyHost, login: string, p: Policy, data: CacheData, net: Network) {
    && Covers(Denoted(e.destination.selector, p.hosts, net), host.forwardHost, login, data.nodes, net)
    && match e.kind
       case Acl =>
         && e.index < |p.acls| && AclLets(p.acls[e.index], host, login, p, data.nodes, net)
         && (forall k | 0 <= k < e.index :: !AclLets(p.acls[k], host, login, p, data.nodes, net))
         && e.source in p.acls[e.index].src && StandsFor(e.source, login, p.groups)
         && e.destination.selector in p.acls[e.index].dst
       case Grant =>
         && e.index < |p.grants| && GrantLets(p.grants[e.index], host, login, p, data, net)
         && (forall a | a in p.acls :: !AclLets(a, host, login, p, data.nodes, net))
         && (forall k | 0 <= k < e.index :: !GrantLets(p.grants[k], host, login, p, data, net))
         && e.source in p.grants[e.index].browserSrc
         && (StandsFor(e.source, login, p.groups) || HasRole(e.source, login, data.roles))
         && e.destination.selector in p.grants[e.index].dst
  }

  lemma SourceTells(src: seq<string>, kind: RuleKind, source: string, login: string, order: seq<string>,
                    data: CacheData, p: Policy)
    requires data.policy == Some(p) && IterationOrder(order, p.groups) && NoGroupChain(IdentityTokens(login), p.groups)
    requires FirstHit(src, SourceTest(kind, ViewerFor(login, order, data)), source)
    ensures source in src && (StandsFor(source, login, p.groups)
                              || (kind == Grant && HasRole(source, login, data.roles)))
  {
    ViewerIsOrderFree(login, order, order, data);
    DirectExactly(login, source, p.groups);
    hide StandsFor, DirectIdentities;
  }

  lemma DestinationTells(dst: seq<string>, e: DestinationEvidence, address: string, login: string, order: seq<string>,
                         data: CacheData, p: Policy, net: Network)
    requires data.policy == Some(p) && IterationOrder(order, p.groups)
    requires FirstHit(dst, DestinationTest(address, ViewerFor(login, order, data), net), e)
    ensures e.selector in dst && Covers(Denoted(e.selector, p.hosts, net), address, login, data.nodes, net)
  {
    hide MatchedDestination, Covers, Denoted;
    var test := DestinationTest(address, ViewerFor(login, order, data), net);
    var i :| 0 <= i < |dst| && test(dst[i]) == Some(e);
    EvidenceTells(dst[i], address, login, p.hosts, data.nodes, net);
  }

  /** The i-th rule lets the login through, and none before it does. */
  predicate IsFirstToLet(i: nat, host: ProxyHost, login: string, p: Policy, data: CacheData, net: Network)
    requires i < |p.acls| + |p.grants|
  {
    RuleLets(i, host, login, p, data, net) && forall k | 0 <= k < i :: !RuleLets(k, host, login, p, data, net)
  }

  predicate RuleLets(i: nat, host: ProxyHost, login: string, p: Policy, data: CacheData, net: Network)
    requires i < |p.acls| + |p.grants|
  {
    if i < |p.acls| then AclLets(p.acls[i], host, login, p, data.nodes, net)
    else GrantLets(p.grants[i - |p.acls|], host, login, p, data, net)
  }

  lemma FirstAdmits(e: Evidence, i: nat, host: ProxyHost, login: string, order: seq<string>, data: CacheData, p: Policy,
                    net: Network)
    requires data.policy == Some(p) && IterationOrder(order, p.groups) && NoGroupChain(IdentityTokens(login), p.groups)
    requires i < |AccessRules(p)| && EvidenceAt(e, i, host, AccessRules(p), ViewerFor(login, order, data), net)
    ensures IsFirstToLet(i, host, login, p, data, net)
  {
    hide AclLets, GrantLets, Admits, ViewerFor, NoGroupChain, FirstHit;
    RuleExactly(i, host, login, order, data, p, net);
    forall k | 0 <= k < i ensures !RuleLets(k, host, login, p, data, net) {
      RuleExactly(k, host, login, order, data, p, net);
    }
  }

  lemma IsLet(i: nat, host: ProxyHost, login: string, p: Policy, data: CacheData, net: Network)
    requires i < |p.acls| + |p.grants| && IsFirstToLet(i, host, login, p, data, net)
    ensures if i < |p.acls| then AclLets(p.acls[i], host, login, p, data.nodes, net)
            else GrantLets(p.grants[i - |p.acls|], host, login, p, data, net)
  {
    hide AclLets, GrantLets;
  }

  lemma NoneBefore(i: nat, host: ProxyHost, login: string, p: Policy, data: CacheData, net: Network)
    requires i < |p.acls| + |p.grants| && IsFirstToLet(i, host, login, p, data, net)
    ensures i >= |p.acls| ==>
              && (forall a | a in p.acls :: !AclLets(a, host, login, p, data.nodes, net))
              && (forall k | 0 <= k < i - |p.acls| :: !GrantLets(p.grants[k], host, login, p, data, net))
    ensures i < |p.acls| ==> forall k | 0 <= k < i :: !AclLets(p.acls[k], host, login, p, data.nodes, net)
  {
    hide AclLets, GrantLets;
    if i >= |p.acls| {
      forall a | a in p.acls ensures !AclLets(a, host, login, p, data.nodes, net) {
        var k :| 0 <= k < |p.acls| && p.acls[k] == a;
        assert !RuleLets(k, host, login, p, data, net);
      }
      forall k | 0 <= k < i - |p.acls| ensures !GrantLets(p.grants[k], host, login, p, data, net) {
        assert !RuleLets(k + |p.acls|, host, login, p, data, net);
      }
    } else {
      forall k | 0 <= k < i ensures !AclLets(p.acls[k], host, login, p, data.nodes, net) {
        assert !RuleLets(k, host, login, p, data, net);
      }
    }
  }

  /** The rule behind the evidence, told over the policy. */
  lemma FirstRuleTells(e: Evidence, i: nat, host: ProxyHost, login: string, order: seq<string>, data: CacheData,
                       p: Policy, net: Network)
    requires data.policy == Some(p) && IterationOrder(order, p.groups) && NoGroupChain(IdentityTokens(login), p.groups)
    requires i < |AccessRules(p)| && EvidenceAt(e, i, host, AccessRules(p), ViewerFor(login, order, data), net)
    ensures TellsWhy(e, host, login, p, data, net)
  {
    hide AclLets, GrantLets, Admits, StandsFor, HasRole, Covers, Denoted, ViewerFor, NoGroupChain, IterationOrder,
      IdentityTokens, FirstHit, AccessRules, IsFirstToLet;
    var rules := AccessRules(p);
    SourceTells(rules[i].src, rules[i].kind, e.source, login, order, data, p);
    DestinationTells(rules[i].dst, e.destination, host.forwardHost, login, order, data, p, net);
    RuleAt(p, i);
    FirstAdmits(e, i, host, login, order, data, p, net);
    NoneBefore(i, host, login, p, data, net);
    IsLet(i, host, login, p, data, net);
  }

  lemma EvidenceExactly(result: seq<Match>, m: Match, login: string, data: CacheData, p: Policy, order: seq<string>,
                        lib: Library)
    requires IsEvaluation(result, Some(login), Some(data), order, lib) && data.policy == Some(p) && m in result
    requires NoGroupChain(IdentityTokens(login), p.groups)
    ensures TellsWhy(m.evidence, m.host, login, p, data, lib.net)
  {
    hide TellsWhy, NoGroupChain, ViewerFor;
    var rules, viewer := AccessRules(p), ViewerFor(login, order, data);
    var matches: seq<Match> :| MatchesInHostOrder(matches, data.proxyHosts, rules, viewer, data.metadata, lib)
      && multiset(result) == multiset(matches);
    OneMatchPerVisibleHost(matches, data.proxyHosts, rules, viewer, data.metadata, lib);
    assert m in multiset(matches);
    var k: int :| 0 <= k < |matches| && matches[k] == m;
    assert IsMatchFor(rules, viewer, data.metadata, lib)(matches[k], matches[k].host);
    var i :| 0 <= i < |rules| && EvidenceAt(m.evidence, i, m.host, rules, viewer, lib.net);
    FirstRuleTells(m.evidence, i, m.host, login, order, data, p, lib.net);
  }
}
