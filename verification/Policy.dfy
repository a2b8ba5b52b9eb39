/** Access policies, identities and destination matching. */
module Policy {
  import opened Common
  import opened Ordering

  datatype RuleKind = Acl | Grant

  datatype Capability = Capability(allProtocols: bool, protocol: int, allPorts: bool, portStart: int, portEnd: int)

  datatype AclRule = AclRule(src: seq<string>, dst: seq<string>)

  datatype GrantRule = GrantRule(browserSrc: seq<string>, dst: seq<string>, capabilities: seq<Capability>)

  datatype AccessRule = AccessRule(kind: RuleKind, index: nat, src: seq<string>, dst: seq<string>,
                                   capabilities: seq<Capability>)

  datatype Action = Accept | Check

  datatype SshRule = SshRule(action: Action, src: seq<string>, dst: seq<string>, users: seq<string>, checkPeriod: int)

  datatype Policy = Policy(
    groups: map<string, seq<string>>,
    acls: seq<AclRule>,
    grants: seq<GrantRule>,
    hosts: map<string, string>
  )

  datatype Node = Node(id: string, name: string, ownerLogin: string, tags: seq<string>, addresses: seq<string>)

  /** net.ParseIP, net.ParseCIDR and IPNet.Contains, on the texts the matcher gives them. */
  datatype Network = Network(isIp: string -> bool, isCidr: string -> bool, cidrContains: (string, string) -> bool) {
    /** No address literal starts with a bracket. */
    ghost predicate Lawful() { forall s: string | HasPrefix(s, "[") :: !isIp(s) }
  }

  /** Policy.accessRules: the ACLs, then the grants. */
  function AccessRules(p: Policy): (rules: seq<AccessRule>)
    ensures |rules| == |p.acls| + |p.grants|
  {
    seq(|p.acls|, i requires 0 <= i < |p.acls| => AccessRule(Acl, i, p.acls[i].src, p.acls[i].dst, []))
    + seq(|p.grants|, i requires 0 <= i < |p.grants| =>
        AccessRule(Grant, i, p.grants[i].browserSrc, p.grants[i].dst, p.grants[i].capabilities))
  }

  predicate CapabilityPermitsTcp(c: Capability, port: int) {
    (c.allProtocols || c.protocol == 6) && (c.allPorts || c.portStart <= port <= c.portEnd)
  }

  predicate PermitsTcp(rule: AccessRule, port: int) {
    rule.kind == Acl
    || (1 <= port <= 65535 && exists c | c in rule.capabilities :: CapabilityPermitsTcp(c, port))
  }

  // Identities

  function NormalizedLogin(raw: string): string {
    var login := TrimSpace(raw);
    if login == "" || '@' in login then login else login + "@"
  }

  function IdentityTokens(raw: string): set<string> {
    var login := NormalizedLogin(raw);
    if login == "" then {}
    else if HasSuffix(login, "@") && login != "@" then {login, login[..|login| - 1]}
    else {login}
  }

  predicate LoginMatches(login: string, candidate: string) {
    TrimSpace(candidate) != "" && TrimSpace(candidate) in IdentityTokens(login)
  }

  predicate NamesOneOf(members: seq<string>, names: set<string>) {
    exists m | m in members :: TrimSpace(m) in names
  }

  /** The tokens of a login and every group that lists one of them: what the identity set is meant to be. */
  function DirectIdentities(tokens: set<string>, groups: map<string, seq<string>>): set<string> {
    tokens + set g | g in groups && NamesOneOf(groups[g], tokens)
  }

  /** The groups in one of the orders Go may range over the map. */
  ghost predicate IterationOrder(order: seq<string>, groups: map<string, seq<string>>) {
    Distinct(order) && forall g :: g in order <==> g in groups
  }

  /** buildIdentitySet's loop: it tests members against the set it is growing. */
  function GrownIdentities(order: seq<string>, ids: set<string>, groups: map<string, seq<string>>): set<string>
    requires forall g | g in order :: g in groups
  {
    if order == [] then ids
    else
      var more := if NamesOneOf(groups[order[0]], ids) then ids + {order[0]} else ids;
      GrownIdentities(order[1..], more, groups)
  }

  ghost predicate GrownIn(order: seq<string>, ids: set<string>, login: string, groups: map<string, seq<string>>) {
    && IterationOrder(order, groups)
    && ids == if IdentityTokens(login) == {} then {} else GrownIdentities(order, IdentityTokens(login), groups)
  }

  method BuildIdentitySet(login: string, groups: map<string, seq<string>>) returns (ids: set<string>)
    ensures exists order :: GrownIn(order, ids, login, groups)
  {
    ids := IdentityTokens(login);
    var names := RangeOver(groups.Keys);
    assert IterationOrder(names, groups);
    assert GrownIdentities([], ids, groups) == ids && names[..0] == [];
    hide GrownIdentities, IdentityTokens, NamesOneOf;
    if ids == {} {
      assert GrownIn(names, ids, login, groups);
      return;
    }
    for n := 0 to |names|
      invariant ids == GrownIdentities(names[..n], IdentityTokens(login), groups)
    {
      GrowLast(names[..n], names[n], IdentityTokens(login), groups);
      assert names[..n + 1] == names[..n] + [names[n]];
      var listed := ListsOneOf(groups[names[n]], ids);
      if listed { ids := ids + {names[n]}; }
    }
    assert names[..|names|] == names;
    assert GrownIn(names, ids, login, groups);
  }

  method ListsOneOf(members: seq<string>, ids: set<string>) returns (b: bool)
    ensures b <==> NamesOneOf(members, ids)
  {
    for i := 0 to |members|
      invariant forall k | 0 <= k < i :: TrimSpace(members[k]) !in ids
    {
      if TrimSpace(members[i]) in ids { return true; }
    }
    return false;
  }

  lemma {:induction false} GrowLast(order: seq<string>, last: string, ids: set<string>,
                                    groups: map<string, seq<string>>)
    requires last in groups && forall g | g in order :: g in groups
    ensures GrownIdentities(order + [last], ids, groups)
         == var grown := GrownIdentities(order, ids, groups);
            if NamesOneOf(groups[last], grown) then grown + {last} else grown
  {
    if order == [] {
      assert [last][1..] == [] && [] + [last] == [last];
    } else {
      var more := if NamesOneOf(groups[order[0]], ids) then ids + {order[0]} else ids;
      GrowLast(order[1..], last, more, groups);
      assert (order + [last])[1..] == order[1..] + [last];
    }
  }

  /** No group outside the direct identities lists a group that is one of them. */
  ghost predicate NoGroupChain(tokens: set<string>, groups: map<string, seq<string>>) {
    forall g | g in groups && g !in DirectIdentities(tokens, groups) ::
      !NamesOneOf(groups[g], DirectIdentities(tokens, groups))
  }

  lemma {:induction false} GrownCoversDirect(order: seq<string>, ids: set<string>, tokens: set<string>,
                                             groups: map<string, seq<string>>)
    requires forall g | g in order :: g in groups
    requires tokens <= ids
    ensures ids <= GrownIdentities(order, ids, groups)
    ensures forall g | g in order && NamesOneOf(groups[g], tokens) :: g in GrownIdentities(order, ids, groups)
  {
    if order != [] {
      var more := if NamesOneOf(groups[order[0]], ids) then ids + {order[0]} else ids;
      GrownCoversDirect(order[1..], more, tokens, groups);
      assert forall g | g in order :: g == order[0] || g in order[1..];
    }
  }

  lemma {:induction false} GrownStaysDirect(order: seq<string>, ids: set<string>, tokens: set<string>,
                                            groups: map<string, seq<string>>)
    requires forall g | g in order :: g in groups
    requires ids <= DirectIdentities(tokens, groups) && NoGroupChain(tokens, groups)
    ensures GrownIdentities(order, ids, groups) <= DirectIdentities(tokens, groups)
  {
    if order != [] {
      var more := if NamesOneOf(groups[order[0]], ids) then ids + {order[0]} else ids;
      GrownStaysDirect(order[1..], more, tokens, groups);
    }
  }

  lemma {:induction false} GrownAppend(a: seq<string>, b: seq<string>, ids: set<string>,
                                       groups: map<string, seq<string>>)
    requires forall g | g in a + b :: g in groups
    ensures GrownIdentities(a + b, ids, groups) == GrownIdentities(b, GrownIdentities(a, ids, groups), groups)
  {
    if a == [] {
      assert a + b == b;
    } else {
      var more := if NamesOneOf(groups[a[0]], ids) then ids + {a[0]} else ids;
      assert (a + b)[1..] == a[1..] + b;
      GrownAppend(a[1..], b, more, groups);
    }
  }

  lemma {:induction false} NothingGrows(order: seq<string>, ids: set<string>, groups: map<string, seq<string>>)
    requires forall g | g in order :: g in groups && !NamesOneOf(groups[g], ids)
    ensures GrownIdentities(order, ids, groups) == ids
  {
    if order != [] { NothingGrows(order[1..], ids, groups); }
  }

  lemma {:induction false} GrownIsBounded(order: seq<string>, ids: set<string>, groups: map<string, seq<string>>)
    requires forall g | g in order :: g in groups
    ensures forall x | x in GrownIdentities(order, ids, groups) :: x in ids || x in order
  {
    if order != [] {
      var more := if NamesOneOf(groups[order[0]], ids) then ids + {order[0]} else ids;
      GrownIsBounded(order[1..], more, groups);
    }
  }

  lemma SplitOrder(groups: map<string, seq<string>>, first: set<string>)
      returns (others: seq<string>, mine: seq<string>)
    ensures IterationOrder(others + mine, groups)
    ensures forall g :: g in others <==> g in groups && g !in first
    ensures forall g :: g in mine <==> g in groups && g in first
  {
    others, mine := SortedKeys(groups.Keys - first), SortedKeys(groups.Keys * first);
    AscendingIsDistinct(others);
    AscendingIsDistinct(mine);
    assert forall i | 0 <= i < |others| :: others[i] in others;
    assert forall i | 0 <= i < |mine| :: mine[i] in mine;
  }

  /** Whatever the groups, one order of ranging over them gives just the direct identities: all others first. */
  lemma DirectOrder(tokens: set<string>, groups: map<string, seq<string>>) returns (order: seq<string>)
    ensures IterationOrder(order, groups) && GrownIdentities(order, tokens, groups) == DirectIdentities(tokens, groups)
  {
    hide IterationOrder, GrownIdentities, NamesOneOf;
    var others, mine := SplitOrder(groups, DirectIdentities(tokens, groups));
    order := others + mine;
    NothingGrows(others, tokens, groups);
    GrownAppend(others, mine, tokens, groups);
    GrownIsBounded(mine, tokens, groups);
    GrownCoversDirect(mine, tokens, tokens, groups);
  }

  /**
   * The identity set is independent of Go's map order, and then exactly the direct identities,
   * if and only if no other group lists one of the groups the login belongs to.
   */
  lemma IdentitySetIsOrderFree(tokens: set<string>, groups: map<string, seq<string>>)
    ensures (forall order | IterationOrder(order, groups) ::
               GrownIdentities(order, tokens, groups) == DirectIdentities(tokens, groups))
       <==> NoGroupChain(tokens, groups)
    ensures (forall a, b | IterationOrder(a, groups) && IterationOrder(b, groups) ::
               GrownIdentities(a, tokens, groups) == GrownIdentities(b, tokens, groups))
       <==> NoGroupChain(tokens, groups)
  {
    var plain := DirectOrder(tokens, groups);
    if NoGroupChain(tokens, groups) {
      forall order | IterationOrder(order, groups)
        ensures GrownIdentities(order, tokens, groups) == DirectIdentities(tokens, groups)
      {
        GrownCoversDirect(order, tokens, tokens, groups);
        GrownStaysDirect(order, tokens, tokens, groups);
      }
    } else {
      var direct := DirectIdentities(tokens, groups);
      var g :| g in groups && g !in direct && NamesOneOf(groups[g], direct);
      var m :| m in groups[g] && TrimSpace(m) in direct;
      var h := TrimSpace(m);
      assert !NamesOneOf(groups[g], tokens);
      assert forall x | x in groups[g] :: TrimSpace(x) !in tokens;
      var order := ChainedOrder(tokens, groups, g, h, m);
      assert g in GrownIdentities(order, tokens, groups);
    }
  }

  lemma TwoFirst(g: string, h: string, groups: map<string, seq<string>>) returns (rest: seq<string>, order: seq<string>)
    requires g in groups && h in groups && g != h
    ensures order == [h] + ([g] + rest) && IterationOrder(order, groups) && forall x | x in rest :: x in groups
  {
    rest := SortedKeys(groups.Keys - {g, h});
    AscendingIsDistinct(rest);
    order := [h] + ([g] + rest);
  }

  /** Visiting the direct group first lets the chained one in. */
  lemma ChainedOrder(tokens: set<string>, groups: map<string, seq<string>>, g: string, h: string, m: string)
      returns (order: seq<string>)
    requires g in groups && h in groups && g != h && m in groups[g] && TrimSpace(m) == h
    requires NamesOneOf(groups[h], tokens)
    ensures IterationOrder(order, groups) && g in GrownIdentities(order, tokens, groups)
  {
    var rest;
    rest, order := TwoFirst(g, h, groups);
    hide IterationOrder;
    var ids := tokens + {h};
    assert NamesOneOf(groups[g], ids);
    GrowFirst(g, rest, ids, groups);
    GrowFirst(h, [g] + rest, tokens, groups);
    GrownCoversDirect(rest, ids + {g}, tokens, groups);
  }

  lemma GrowFirst(first: string, rest: seq<string>, ids: set<string>, groups: map<string, seq<string>>)
    requires first in groups && (forall g | g in rest :: g in groups)
    requires NamesOneOf(groups[first], ids)
    ensures GrownIdentities([first] + rest, ids, groups) == GrownIdentities(rest, ids + {first}, groups)
  {
    assert ([first] + rest)[1..] == rest;
  }

  // Selectors

  predicate Digits(s: string) { s != "" && forall c | c in s :: '0' <= c <= '9' }

  predicate PortLike(s: string) { s == "*" || Digits(s) }

  /** The index of the last colon, or -1. */
  function LastColon(s: string): (i: int)
    ensures -1 <= i < |s|
    ensures i >= 0 ==> s[i] == ':'
    ensures forall k | i < k < |s| :: s[k] != ':'
  {
    if s == "" then -1
    else if s[|s| - 1] == ':' then |s| - 1
    else LastColon(s[..|s| - 1])
  }

  /** The index of the first occurrence of `c`, or |s|. */
  function IndexOf(s: string, c: char): (i: nat)
    ensures i <= |s|
    ensures i < |s| ==> s[i] == c
    ensures forall k | 0 <= k < i :: s[k] != c
  {
    if s == "" || s[0] == c then 0 else 1 + IndexOf(s[1..], c)
  }

  function StripPort(d: string, net: Network): string {
    var close := IndexOf(d, ']');
    if HasPrefix(d, "[") && close < |d| then d[1..close]
    else if net.isIp(d) then d
    else if LastColon(d) >= 0 && PortLike(d[LastColon(d) + 1..]) then d[..LastColon(d)]
    else d
  }

  predicate Reserved(s: string, net: Network) {
    s == "*" || net.isIp(s) || net.isCidr(s)
    || HasPrefix(s, "group:") || HasPrefix(s, "tag:") || HasPrefix(s, "autogroup:")
    || HasPrefix(s, "ipset:") || HasPrefix(s, "svc:") || HasPrefix(s, "posture:")
    || '@' in s
  }

  // Destinations

  datatype MatchContext = MatchContext(hosts: map<string, string>, tagIps: map<string, seq<string>>,
                                       selfIps: seq<string>)

  datatype DestinationKind = Exact | Wildcard | Cidr | HostAlias | Tag | Self

  datatype DestinationEvidence = DestinationEvidence(kind: DestinationKind, selector: string, normalized: string,
                                                     resolved: string)

  /** matchResolvedDestination. */
  function ResolvedKind(selector: string, host: string, mc: MatchContext, net: Network): Option<DestinationKind> {
    if selector == "*" then Some(Wildcard)
    else if selector == host then Some(Exact)
    else if HasPrefix(selector, "tag:") then
      (if selector in mc.tagIps && host in mc.tagIps[selector] then Some(Tag) else None)
    else if selector == "autogroup:self" then (if host in mc.selfIps then Some(Self) else None)
    else if HasPrefix(selector, "autogroup:") then None
    else if '/' in selector && net.isCidr(selector) && net.isIp(host) && net.cidrContains(selector, host)
      then Some(Cidr)
    else None
  }

  predicate IsAlias(normalized: string, hosts: map<string, string>, net: Network) {
    !Reserved(normalized, net) && normalized in hosts
  }

  /** matchDestination. */
  function MatchedDestination(selector: string, host: string, mc: MatchContext,
                              net: Network): Option<DestinationEvidence> {
    var normalized := StripPort(selector, net);
    if IsAlias(normalized, mc.hosts, net) then
      var resolved := StripPort(mc.hosts[normalized], net);
      if ResolvedKind(resolved, host, mc, net).Some?
      then Some(DestinationEvidence(HostAlias, selector, normalized, resolved))
      else None
    else
      var kind := ResolvedKind(normalized, host, mc, net);
      if kind.None? then None
      else
        var resolved := if kind.value in {Wildcard, Tag, Self} then host else normalized;
        Some(DestinationEvidence(kind.value, selector, normalized, resolved))
  }

  function TagIps(nodes: seq<Node>): map<string, seq<string>> {
    if nodes == [] then map[]
    else
      var n := |nodes| - 1;
      AddTags(TagIps(nodes[..n]), nodes[n].tags, nodes[n].addresses)
  }

  function AddTags(m: map<string, seq<string>>, tags: seq<string>, addresses: seq<string>): map<string, seq<string>> {
    if tags == [] then m
    else
      var t := tags[|tags| - 1];
      var before := AddTags(m, tags[..|tags| - 1], addresses);
      before[t := (if t in before then before[t] else []) + addresses]
  }

  predicate Tagged(m: map<string, seq<string>>, tag: string, address: string) { tag in m && address in m[tag] }

  lemma {:induction false} AddTagsMeaning(m: map<string, seq<string>>, tags: seq<string>, addresses: seq<string>,
                                          tag: string, address: string)
    ensures Tagged(AddTags(m, tags, addresses), tag, address) <==>
            Tagged(m, tag, address) || (tag in tags && address in addresses)
  {
    if tags != [] {
      AddTagsMeaning(m, tags[..|tags| - 1], addresses, tag, address);
      assert tags == tags[..|tags| - 1] + [tags[|tags| - 1]];
    }
  }

  /** A tag resolves to an address exactly when some node wears the tag and has the address. */
  lemma {:induction false} TagIpsMeaning(nodes: seq<Node>, tag: string, address: string)
    ensures Tagged(TagIps(nodes), tag, address) <==> exists n | n in nodes :: tag in n.tags && address in n.addresses
  {
    if nodes != [] {
      var n := |nodes| - 1;
      TagIpsMeaning(nodes[..n], tag, address);
      AddTagsMeaning(TagIps(nodes[..n]), nodes[n].tags, nodes[n].addresses, tag, address);
      assert forall x :: x in nodes <==> x in nodes[..n] || x == nodes[n] by {
        assert nodes == nodes[..n] + [nodes[n]];
      }
    }
  }

  function SelfIps(login: string, nodes: seq<Node>): (ips: seq<string>)
    ensures forall a :: a in ips <==> exists n | n in nodes :: LoginMatches(login, n.ownerLogin) && a in n.addresses
  {
    if nodes == [] then []
    else
      var n := |nodes| - 1;
      assert nodes == nodes[..n] + [nodes[n]];
      SelfIps(login, nodes[..n]) + (if LoginMatches(login, nodes[n].ownerLogin) then nodes[n].addresses else [])
  }

  function ContextFor(login: string, hosts: map<string, string>, nodes: seq<Node>): MatchContext {
    MatchContext(hosts, TagIps(nodes), SelfIps(login, nodes))
  }

  /** buildMatchContext: one pass over the nodes that appends to both address lists. */
  method BuildMatchContext(login: string, hosts: map<string, string>, nodes: seq<Node>) returns (mc: MatchContext)
    ensures mc == ContextFor(login, hosts, nodes)
  {
    var tagIps: map<string, seq<string>> := map[];
    var selfIps: seq<string> := [];
    for i := 0 to |nodes|
      invariant tagIps == TagIps(nodes[..i])
      invariant selfIps == SelfIps(login, nodes[..i])
    {
      var node := nodes[i];
      assert nodes[..i + 1][..i] == nodes[..i];
      var owned := LoginMatches(login, node.ownerLogin);
      ghost var before := tagIps;
      for j := 0 to |node.tags|
        invariant tagIps == AddTags(before, node.tags[..j], node.addresses)
      {
        var tag := node.tags[j];
        assert node.tags[..j + 1][..j] == node.tags[..j];
        tagIps := tagIps[tag := (if tag in tagIps then tagIps[tag] else []) + node.addresses];
      }
      assert node.tags[..|node.tags|] == node.tags;
      if owned { selfIps := selfIps + node.addresses; }
    }
    assert nodes[..|nodes|] == nodes;
    mc := MatchContext(hosts, tagIps, selfIps);
  }
}
