/** Which machines a Tailscale login sees, on top of what SSH rules and Grants each allow. */
module Machines {
  import opened Common
  import opened Ordering
  import opened Policy
  import opened Selection
  import opened ServiceMatcher
  import opened MachineMatcher
  import Reach

  const SSH_PORT := 22

  datatype Address = Address(text: string, is4: bool)

  /** Text checks of names and addresses: a canonical *.ts.net name, and a canonical tailnet address. */
  datatype MachineLibrary = MachineLibrary(net: Network, name: string -> Option<string>,
                                           address: string -> Option<Address>)

  datatype MachineData = MachineData(
    available: bool,
    policy: Policy,
    sshRules: seq<SshRule>,
    nodes: seq<Node>,
    roles: map<string, seq<string>>,
    sshCapable: map<string, bool>
  )

  datatype GrantEvidence = GrantEvidence(index: nat, source: string, destination: DestinationEvidence)

  datatype Machine = Machine(node: Node, target: string, access: seq<SshAccess>, grant: GrantEvidence)

  // Identities

  predicate ExactLogin(s: string) {
    && 0 < IndexOf(s, '@') < |s| - 1
    && '@' !in s[IndexOf(s, '@') + 1..]
    && forall c | c in s :: c !in " \t\r\n:"
  }

  /** buildSSHIdentitySet: a group counts only when it lists the login itself, so map order cannot matter. */
  method BuildSshIdentitySet(login: string, groups: map<string, seq<string>>) returns (ids: set<string>)
    ensures ids == if ExactLogin(login) then {login} + set g | g in groups && login in groups[g] else {}
  {
    if !ExactLogin(login) { return {}; }
    var names := RangeOver(groups.Keys);
    ids := {login};
    for i := 0 to |names|
      invariant ids == {login} + set g | g in names[..i] && g in groups && login in groups[g]
    {
      assert names[i] in names;
      assert names[..i + 1] == names[..i] + [names[i]];
      if login in groups[names[i]] { ids := ids + {names[i]}; }
    }
    assert names[..|names|] == names;
  }

  // Targets

  function Tailnet(lib: MachineLibrary): string -> Option<string> {
    raw => if lib.address(raw).Some? then Some(lib.address(raw).value.text) else None
  }

  function TailnetV4(lib: MachineLibrary): string -> Option<string> {
    raw => if lib.address(raw).Some? && lib.address(raw).value.is4 then Some(lib.address(raw).value.text) else None
  }

  /** The name, else the first IPv4 tailnet address, else the first tailnet address. */
  function TargetOf(node: Node, lib: MachineLibrary): Option<string> {
    if lib.name(node.name).Some? then lib.name(node.name)
    else if FirstYield(node.addresses, TailnetV4(lib)).Some? then FirstYield(node.addresses, TailnetV4(lib))
    else FirstYield(node.addresses, Tailnet(lib))
  }

  lemma {:induction false} FirstYieldAppend<T, E>(s: seq<T>, x: T, test: T -> Option<E>)
    ensures FirstYield(s + [x], test) == if FirstYield(s, test).Some? then FirstYield(s, test) else test(x)
  {
    FirstWhereAppend(s, x, (y: T) => test(y).Some?);
  }

  /** machineTarget keeps the first IPv6 address while it looks for an IPv4 one; "" stands for none. */
  method MachineTarget(node: Node, lib: MachineLibrary) returns (r: Option<string>)
    requires forall raw | lib.address(raw).Some? :: lib.address(raw).value.text != ""
    ensures r == TargetOf(node, lib)
  {
    hide FirstYield;
    var name := lib.name(node.name);
    if name.Some? { return name; }
    var fallback := "";
    var raws := node.addresses;
    for i := 0 to |raws|
      invariant FirstYield(raws[..i], TailnetV4(lib)).None?
      invariant fallback == FirstYield(raws[..i], Tailnet(lib)).GetOr("")
      invariant FirstYield(raws[..i], Tailnet(lib)).Some? ==> fallback != ""
    {
      FirstYieldAppend(raws[..i], raws[i], TailnetV4(lib));
      FirstYieldAppend(raws[..i], raws[i], Tailnet(lib));
      assert raws[..i + 1] == raws[..i] + [raws[i]];
      var address := lib.address(raws[i]);
      if address.None? { continue; }
      if address.value.is4 {
        FoundInPrefix(raws, i + 1, TailnetV4(lib));
        return Some(address.value.text);
      }
      if fallback == "" { fallback := address.value.text; }
    }
    assert raws[..|raws|] == raws;
    return if fallback == "" then None else Some(fallback);
  }

  lemma {:induction false} FoundInPrefix<T, E>(s: seq<T>, n: nat, test: T -> Option<E>)
    requires n <= |s| && FirstYield(s[..n], test).Some?
    ensures FirstYield(s, test) == FirstYield(s[..n], test)
    decreases |s| - n
  {
    if n < |s| {
      FirstYieldAppend(s[..n], s[n], test);
      assert s[..n + 1] == s[..n] + [s[n]];
      FoundInPrefix(s, n + 1, test);
    } else {
      assert s[..n] == s;
    }
  }

  // Grants

  function GrantRules(p: Policy): (rules: seq<AccessRule>)
    ensures |rules| == |p.grants|
  {
    seq(|p.grants|, i requires 0 <= i < |p.grants| =>
      AccessRule(Grant, i, p.grants[i].browserSrc, p.grants[i].dst, p.grants[i].capabilities))
  }

  function AddressTest(dst: seq<string>, viewer: Viewer, lib: MachineLibrary): string -> Option<DestinationEvidence> {
    raw => if lib.address(raw).None? then None
           else FirstYield(dst, DestinationTest(lib.address(raw).value.text, viewer, lib.net))
  }

  function GrantTest(node: Node, viewer: Viewer, lib: MachineLibrary): AccessRule -> Option<GrantEvidence> {
    (rule: AccessRule) =>
      var source := FirstYield(rule.src, SourceTest(rule.kind, viewer));
      var destination := FirstYield(node.addresses, AddressTest(rule.dst, viewer, lib));
      if PermitsTcp(rule, SSH_PORT) && source.Some? && destination.Some?
      then Some(GrantEvidence(rule.index, source.value, destination.value))
      else None
  }

  method MachineGrantEvidence(node: Node, p: Policy, viewer: Viewer, lib: MachineLibrary)
      returns (r: Option<GrantEvidence>)
    ensures r == FirstYield(GrantRules(p), GrantTest(node, viewer, lib))
  {
    hide PermitsTcp, FirstYield, AddressTest, GrantRules;
    var rules := GrantRules(p);
    for i := 0 to |rules|
      invariant FirstYield(rules[..i], GrantTest(node, viewer, lib)).None?
    {
      var rule := rules[i];
      FirstYieldAppend(rules[..i], rule, GrantTest(node, viewer, lib));
      assert rules[..i + 1] == rules[..i] + [rule];
      if !PermitsTcp(rule, SSH_PORT) { continue; }
      var source := FindFirst(rule.src, SourceTest(rule.kind, viewer));
      if source.None? { continue; }
      var destination := GrantedAddress(node.addresses, rule.dst, viewer, lib);
      if destination.Some? {
        FoundInPrefix(rules, i + 1, GrantTest(node, viewer, lib));
        return Some(GrantEvidence(rule.index, source.value, destination.value));
      }
    }
    assert rules[..|rules|] == rules;
    return None;
  }

  method GrantedAddress(raws: seq<string>, dst: seq<string>, viewer: Viewer, lib: MachineLibrary)
      returns (r: Option<DestinationEvidence>)
    ensures r == FirstYield(raws, AddressTest(dst, viewer, lib))
  {
    hide MatchedDestination, FirstYield;
    for j := 0 to |raws|
      invariant FirstYield(raws[..j], AddressTest(dst, viewer, lib)).None?
    {
      FirstYieldAppend(raws[..j], raws[j], AddressTest(dst, viewer, lib));
      assert raws[..j + 1] == raws[..j] + [raws[j]];
      var address := lib.address(raws[j]);
      if address.None? { continue; }
      var destination := FindFirst(dst, DestinationTest(address.value.text, viewer, lib.net));
      if destination.Some? {
        FoundInPrefix(raws, j + 1, AddressTest(dst, viewer, lib));
        return destination;
      }
    }
    assert raws[..|raws|] == raws;
    return None;
  }

  /** Some Grant lets the viewer reach some tailnet address of the node on TCP port 22. */
  predicate GrantedSsh(node: Node, p: Policy, viewer: Viewer, lib: MachineLibrary) {
    exists r, raw | r in GrantRules(p) && raw in node.addresses ::
      lib.address(raw).Some? && Admits(r, lib.address(raw).value.text, SSH_PORT, viewer, lib.net)
  }

  lemma GrantTestMeaning(rule: AccessRule, node: Node, viewer: Viewer, lib: MachineLibrary)
    ensures GrantTest(node, viewer, lib)(rule).Some?
       <==> exists raw | raw in node.addresses ::
         lib.address(raw).Some? && Admits(rule, lib.address(raw).value.text, SSH_PORT, viewer, lib.net)
  {
    forall raw | lib.address(raw).Some?
      ensures AddressTest(rule.dst, viewer, lib)(raw).Some? <==>
              AnyHit(rule.dst, DestinationTest(lib.address(raw).value.text, viewer, lib.net))
    {
      AddressTestMeaning(rule.dst, raw, viewer, lib);
    }
    hide AddressTest, DestinationTest, SourceTest, AnyHit;
    var test := AddressTest(rule.dst, viewer, lib);
    if raw :| raw in node.addresses && lib.address(raw).Some? && test(raw).Some? {
      var i :| 0 <= i < |node.addresses| && node.addresses[i] == raw;
      assert test(node.addresses[i]).Some?;
    }
  }

  lemma AddressTestMeaning(dst: seq<string>, raw: string, viewer: Viewer, lib: MachineLibrary)
    requires lib.address(raw).Some?
    ensures AddressTest(dst, viewer, lib)(raw).Some? <==>
            AnyHit(dst, DestinationTest(lib.address(raw).value.text, viewer, lib.net))
  {
  }

  lemma GrantEvidenceMeaning(node: Node, p: Policy, viewer: Viewer, lib: MachineLibrary)
    ensures FirstYield(GrantRules(p), GrantTest(node, viewer, lib)).Some? <==> GrantedSsh(node, p, viewer, lib)
  {
    var rules := GrantRules(p);
    forall r | r in rules { GrantTestMeaning(r, node, viewer, lib); }
    if r :| r in rules && GrantTest(node, viewer, lib)(r).Some? {
      var i :| 0 <= i < |rules| && rules[i] == r;
      assert GrantTest(node, viewer, lib)(rules[i]).Some?;
    }
  }

  // All machines

  function MachineViewer(login: string, data: MachineData): Viewer
    requires login in data.roles
  {
    Viewer(
      {login} + (set g | g in data.policy.groups && login in data.policy.groups[g]),
      (set r | r in data.roles[login]),
      ContextFor(login, data.policy.hosts, data.nodes))
  }

  function RequestFor(node: Node, login: string, viewer: Viewer): Request {
    SshRequest(node, viewer.ids, viewer.roles, login)
  }

  predicate Capable(node: Node, data: MachineData) { node.id in data.sshCapable && data.sshCapable[node.id] }

  /** The four conditions on a listed machine. */
  predicate Listed(node: Node, login: string, viewer: Viewer, data: MachineData, lib: MachineLibrary) {
    && Capable(node, data)
    && TargetOf(node, lib).Some?
    && (exists r | r in data.sshRules :: RequestFor(node, login, viewer).Reaches(r) && r.users != [])
    && GrantedSsh(node, data.policy, viewer, lib)
  }

  ghost predicate IsMachine(m: Machine, node: Node, login: string, viewer: Viewer, data: MachineData,
                            lib: MachineLibrary) {
    && m.node == node
    && Some(m.target) == TargetOf(node, lib)
    && IsAccessList(m.access, data.sshRules, RequestFor(node, login, viewer))
    && Some(m.grant) == FirstYield(GrantRules(data.policy), GrantTest(node, viewer, lib))
  }

  function IsListed(login: string, viewer: Viewer, data: MachineData, lib: MachineLibrary): Node -> bool {
    node => Listed(node, login, viewer, data, lib)
  }

  ghost function IsMachineFor(login: string, viewer: Viewer, data: MachineData, lib: MachineLibrary)
      : (Machine, Node) -> bool
  {
    (m, node) => IsMachine(m, node, login, viewer, data, lib)
  }

  predicate MachineLess(a: Machine, b: Machine) {
    if a.target != b.target then Less(a.target, b.target) else Less(a.node.id, b.node.id)
  }

  lemma MachineLessIsStrictWeak()
    ensures StrictWeakOrder(MachineLess)
  {
    LessForSorting();
    forall x: Machine, y: Machine ensures x.target == y.target || Less(x.target, y.target) || Less(y.target, x.target) {
      LessTotal(x.target, y.target);
    }
  }

  /** One machine for each listed node, sorted by name and id; nothing for anyone but a direct member. */
  ghost predicate IsMachineList(result: seq<Machine>, identity: Option<string>, data: MachineData,
                                lib: MachineLibrary) {
    if identity.None? || !data.available || !ExactLogin(TrimSpace(identity.value))
        || TrimSpace(identity.value) !in data.roles
    then result == []
    else
      var login := TrimSpace(identity.value);
      var viewer := MachineViewer(login, data);
      && SortedBy(result, MachineLess)
      && exists machines ::
           && OneEach(machines, data.nodes, IsListed(login, viewer, data, lib), IsMachineFor(login, viewer, data, lib))
           && multiset(result) == multiset(machines)
  }

  method EvaluateMachines(identity: Option<string>, data: MachineData, lib: MachineLibrary)
      returns (result: seq<Machine>)
    requires forall raw | lib.address(raw).Some? :: lib.address(raw).value.text != ""
    ensures IsMachineList(result, identity, data, lib)
  {
    if identity.None? || !data.available { return []; }
    var login := TrimSpace(identity.value);
    if !ExactLogin(login) || login !in data.roles { return []; }
    var ids := BuildSshIdentitySet(login, data.policy.groups);
    var roles := set r | r in data.roles[login];
    var context := BuildMatchContext(login, data.policy.hosts, data.nodes);
    var viewer := Viewer(ids, roles, context);
    assert viewer == MachineViewer(login, data);
    ghost var keep, fits := IsListed(login, viewer, data, lib), IsMachineFor(login, viewer, data, lib);
    var machines: seq<Machine> := [];
    for i := 0 to |data.nodes|
      invariant OneEach(machines, data.nodes[..i], keep, fits)
    {
      assert data.nodes[..i + 1] == data.nodes[..i] + [data.nodes[i]];
      var m := EvaluateMachine(data.nodes[i], login, viewer, data, lib, keep, fits);
      if m.Some? {
        OneEachAppend(machines, data.nodes[..i], keep, fits, data.nodes[i], m.value);
        machines := machines + [m.value];
      } else {
        NotKept(machines, data.nodes[..i], keep, fits, data.nodes[i]);
      }
    }
    assert data.nodes[..|data.nodes|] == data.nodes;
    MachineLessIsStrictWeak();
    result := SortSlice(machines, MachineLess);
  }

  /** The body of the node loop, with its early exits. */
  method EvaluateMachine(node: Node, login: string, viewer: Viewer, data: MachineData, lib: MachineLibrary,
                         ghost keep: Node -> bool, ghost fits: (Machine, Node) -> bool) returns (r: Option<Machine>)
    requires forall raw | lib.address(raw).Some? :: lib.address(raw).value.text != ""
    requires keep == IsListed(login, viewer, data, lib) && fits == IsMachineFor(login, viewer, data, lib)
    ensures r.Some? <==> keep(node)
    ensures r.Some? ==> fits(r.value, node)
  {
    hide IsAccessList, ShownAction, GrantTest, GrantedSsh, TargetOf, SshRequest, GrantRules;
    GrantEvidenceMeaning(node, data.policy, viewer, lib);
    if !Capable(node, data) { return None; }
    var target := MachineTarget(node, lib);
    if target.None? { return None; }
    var access := EvaluateMachineSshAccess(node, data.sshRules, viewer.ids, viewer.roles, login);
    AccessIsNonempty(access, data.sshRules, RequestFor(node, login, viewer));
    if |access| == 0 { return None; }
    var grant := MachineGrantEvidence(node, data.policy, viewer, lib);
    if grant.None? { return None; }
    return Some(Machine(node, target.value, access, grant.value));
  }

  /** A node is listed exactly under the four conditions, with the access its rules declare. */
  lemma ListedExactly(result: seq<Machine>, login: string, data: MachineData, lib: MachineLibrary)
    requires data.available && ExactLogin(TrimSpace(login)) && TrimSpace(login) in data.roles
    requires IsMachineList(result, Some(login), data, lib)
    ensures var viewer := MachineViewer(TrimSpace(login), data);
            && (forall node | node in data.nodes ::
                  (exists m | m in result :: m.node == node) <==> Listed(node, TrimSpace(login), viewer, data, lib))
            && (forall m | m in result ::
                  m.node in data.nodes && IsMachine(m, m.node, TrimSpace(login), viewer, data, lib))
  {
    hide MachineViewer, IsMachine, Listed, SortedBy;
    var name := TrimSpace(login);
    var viewer := MachineViewer(name, data);
    var keep, fits := IsListed(name, viewer, data, lib), IsMachineFor(name, viewer, data, lib);
    var machines: seq<Machine> :| OneEach(machines, data.nodes, keep, fits) && multiset(result) == multiset(machines);
    forall m, node | fits(m, node) ensures m.node == node { MachineOfNode(m, node, name, viewer, data, lib); }
    KeptExactly(result, machines, data.nodes, keep, fits);
    assert forall node :: keep(node) <==> Listed(node, name, viewer, data, lib);
    forall m | m in result ensures IsMachine(m, m.node, name, viewer, data, lib) { assert fits(m, m.node); }
  }

  lemma MachineOfNode(m: Machine, node: Node, login: string, viewer: Viewer, data: MachineData, lib: MachineLibrary)
    requires IsMachine(m, node, login, viewer, data, lib)
    ensures m.node == node
  {
  }

  lemma KeptExactly(result: seq<Machine>, machines: seq<Machine>, nodes: seq<Node>, keep: Node -> bool,
                    fits: (Machine, Node) -> bool)
    requires OneEach(machines, nodes, keep, fits) && multiset(result) == multiset(machines)
    requires forall m, node | fits(m, node) :: m.node == node
    ensures forall node | node in nodes :: (exists m | m in result :: m.node == node) <==> keep(node)
    ensures forall m | m in result :: m.node in nodes && fits(m, m.node)
  {
    OneEachPairs(machines, nodes, keep, fits);
    var listed := Filter(nodes, keep);
    forall m | m in result ensures m.node in listed && fits(m, m.node) {
      assert m in multiset(machines);
      var i :| 0 <= i < |machines| && machines[i] == m;
      assert fits(machines[i], listed[i]) && listed[i] in listed;
    }
    forall node | node in listed ensures exists m | m in result :: m.node == node {
      var i :| 0 <= i < |listed| && listed[i] == node;
      assert fits(machines[i], listed[i]);
      assert machines[i] in multiset(result);
    }
  }

  /** Nothing about the answer is left to map iteration when names and ids tell the machines apart. */
  lemma MachineListIsUnique(a: seq<Machine>, b: seq<Machine>, identity: Option<string>, data: MachineData,
                            lib: MachineLibrary)
    requires IsMachineList(a, identity, data, lib) && IsMachineList(b, identity, data, lib)
    requires forall x, y | x in data.nodes && y in data.nodes && x != y :: x.id != y.id
    ensures a == b
  {
    if identity.Some? && data.available && ExactLogin(TrimSpace(identity.value))
        && TrimSpace(identity.value) in data.roles {
      var login := TrimSpace(identity.value);
      var viewer := MachineViewer(login, data);
      var keep, fits := IsListed(login, viewer, data, lib), IsMachineFor(login, viewer, data, lib);
      var ma: seq<Machine> :| OneEach(ma, data.nodes, keep, fits) && multiset(a) == multiset(ma);
      var mb: seq<Machine> :| OneEach(mb, data.nodes, keep, fits) && multiset(b) == multiset(mb);
      OneEachPairs(ma, data.nodes, keep, fits);
      OneEachPairs(mb, data.nodes, keep, fits);
      forall i | 0 <= i < |ma| ensures ma[i] == mb[i] {
        SameMachine(ma[i], mb[i], Filter(data.nodes, keep)[i], login, viewer, data, lib);
      }
      assert ma == mb;
      ListedExactly(a, identity.value, data, lib);
      forall x, y | x in a && y in a && x != y ensures MachineLess(x, y) || MachineLess(y, x) {
        if x.node == y.node { SameMachine(x, y, x.node, login, viewer, data, lib); }
        LessTotal(x.target, y.target);
        LessTotal(x.node.id, y.node.id);
      }
      SortedPermutationUnique(a, b, MachineLess);
    }
  }

  lemma SameMachine(a: Machine, b: Machine, node: Node, login: string, viewer: Viewer, data: MachineData,
                    lib: MachineLibrary)
    requires IsMachine(a, node, login, viewer, data, lib) && IsMachine(b, node, login, viewer, data, lib)
    ensures a == b
  {
    AccessListIsUnique(a.access, b.access, data.sshRules, RequestFor(node, login, viewer));
  }

  // Over policy and nodes

  /** An exact login is local part, one @ and domain, without blanks and colons. */
  lemma ExactLoginForm(s: string)
    ensures ExactLogin(s)
       <==> && (forall c | c in s :: c != ' ' && c != '\t' && c != '\r' && c != '\n' && c != ':')
            && exists local, domain ::
                 s == local + "@" + domain && local != "" && domain != "" && '@' !in local && '@' !in domain
  {
    var i := IndexOf(s, '@');
    if ExactLogin(s) {
      var local, domain := s[..i], s[i + 1..];
      assert s == local + "@" + domain;
      forall c | c in local ensures c != '@' { var k :| 0 <= k < i && s[k] == c; }
    }
    if local, domain :| s == local + "@" + domain && local != "" && domain != "" && '@' !in local && '@' !in domain {
      assert s[|local|] == '@' && forall k | 0 <= k < |local| :: s[k] == local[k] && local[k] in local;
      assert i == |local| && s[i + 1..] == domain;
    }
  }

  /** The login, a group that lists it, or a role it has. */
  predicate SpeaksFor(token: string, login: string, data: MachineData) {
    || token == login
    || (token in data.policy.groups && login in data.policy.groups[token])
    || (login in data.roles && token in data.roles[login])
  }

  /** The node is the login's own under autogroup:self, or wears the tag. */
  predicate IsTarget(selector: string, node: Node, login: string) {
    (selector == "autogroup:self" && node.ownerLogin == login) || (HasPrefix(selector, "tag:") && selector in node.tags)
  }

  predicate SshLets(r: SshRule, node: Node, login: string, data: MachineData) {
    (exists t | t in r.src :: SpeaksFor(t, login, data)) && exists d | d in r.dst :: IsTarget(d, node, login)
  }

  lemma HitExactly(s: seq<string>, test: string -> Option<string>)
    ensures AnyHit(s, test) <==> exists t | t in s :: test(t).Some?
  {
    if t :| t in s && test(t).Some? {
      var i :| 0 <= i < |s| && s[i] == t;
      assert test(s[i]).Some?;
    }
  }

  lemma SshReachExactly(r: SshRule, node: Node, login: string, data: MachineData)
    requires login in data.roles
    ensures RequestFor(node, login, MachineViewer(login, data)).Reaches(r) <==> SshLets(r, node, login, data)
  {
    var q := RequestFor(node, login, MachineViewer(login, data));
    HitExactly(r.src, q.sourceTest);
    HitExactly(r.dst, q.destinationTest);
    forall t ensures q.sourceTest(t).Some? <==> SpeaksFor(t, login, data) {
    }
    forall d ensures q.destinationTest(d).Some? <==> IsTarget(d, node, login) {
      assert "autogroup:self"[0] == 'a' && "tag:"[0] == 't';
    }
    hide AnyHit, SpeaksFor, IsTarget, MachineViewer;
  }

  /** The Grant lets the login through to this text of an address on TCP port 22. */
  predicate GrantLetsSsh(g: GrantRule, text: string, login: string, data: MachineData, net: Network) {
    && Reach.Opens(g.capabilities, 22)
    && (exists t | t in g.browserSrc :: t == "*" || SpeaksFor(t, login, data))
    && Reach.Reaches(g.dst, text, login, data.policy, data.nodes, net)
  }

  lemma ExactIsNormal(login: string)
    requires ExactLogin(login) && TrimSpace(login) == login
    ensures NormalizedLogin(TrimSpace(login)) == login
  {
  }

  lemma GrantSourcesExactly(g: GrantRule, login: string, data: MachineData)
    requires login in data.roles
    ensures AnyHit(g.browserSrc, SourceTest(Grant, MachineViewer(login, data)))
       <==> exists t | t in g.browserSrc :: t == "*" || SpeaksFor(t, login, data)
  {
    var test := SourceTest(Grant, MachineViewer(login, data));
    HitExactly(g.browserSrc, test);
    forall t ensures test(t).Some? <==> t == "*" || SpeaksFor(t, login, data) {
    }
    hide AnyHit, SpeaksFor, MachineViewer;
  }

  lemma GrantDestinationsExactly(dst: seq<string>, text: string, login: string, data: MachineData, net: Network)
    requires login in data.roles && ExactLogin(login) && TrimSpace(login) == login
    ensures AnyHit(dst, DestinationTest(text, MachineViewer(login, data), net))
       <==> Reach.Reaches(dst, text, login, data.policy, data.nodes, net)
  {
    ExactIsNormal(login);
    var test := DestinationTest(text, MachineViewer(login, data), net);
    forall d ensures test(d).Some? <==>
        Reach.Covers(Reach.Denoted(d, data.policy.hosts, net), text, login, data.nodes, net) {
      Reach.SelectorExactly(d, text, login, data.policy.hosts, data.nodes, net);
    }
    hide Reach.Covers, Reach.Denoted, DestinationTest;
    if d :| d in dst && Reach.Covers(Reach.Denoted(d, data.policy.hosts, net), text, login, data.nodes, net) {
      var i :| 0 <= i < |dst| && dst[i] == d;
      assert test(dst[i]).Some?;
    }
  }

  /** Some Grant lets the login through to some tailnet address of the node. */
  predicate SshGranted(node: Node, login: string, data: MachineData, lib: MachineLibrary) {
    exists g, raw | g in data.policy.grants && raw in node.addresses ::
      lib.address(raw).Some? && GrantLetsSsh(g, lib.address(raw).value.text, login, data, lib.net)
  }

  lemma GrantAdmitsExactly(i: nat, text: string, login: string, data: MachineData, net: Network)
    requires login in data.roles && ExactLogin(login) && TrimSpace(login) == login && i < |data.policy.grants|
    ensures Admits(GrantRules(data.policy)[i], text, SSH_PORT, MachineViewer(login, data), net)
       <==> GrantLetsSsh(data.policy.grants[i], text, login, data, net)
  {
    var g := data.policy.grants[i];
    GrantSourcesExactly(g, login, data);
    GrantDestinationsExactly(g.dst, text, login, data, net);
    hide AnyHit, SpeaksFor, MachineViewer, Reach.Reaches;
  }

  lemma GrantedExactly(node: Node, login: string, data: MachineData, lib: MachineLibrary)
    requires login in data.roles && ExactLogin(login) && TrimSpace(login) == login
    ensures GrantedSsh(node, data.policy, MachineViewer(login, data), lib) <==> SshGranted(node, login, data, lib)
  {
    if GrantedSsh(node, data.policy, MachineViewer(login, data), lib) { GrantedIsOpen(node, login, data, lib); }
    if SshGranted(node, login, data, lib) { OpenIsGranted(node, login, data, lib); }
  }

  lemma GrantedIsOpen(node: Node, login: string, data: MachineData, lib: MachineLibrary)
    requires login in data.roles && ExactLogin(login) && TrimSpace(login) == login
    requires GrantedSsh(node, data.policy, MachineViewer(login, data), lib)
    ensures SshGranted(node, login, data, lib)
  {
    hide Admits, GrantLetsSsh, MachineViewer, ExactLogin, TrimSpace, GrantRules;
    var rules := GrantRules(data.policy);
    var r, raw :| r in rules && raw in node.addresses && lib.address(raw).Some?
      && Admits(r, lib.address(raw).value.text, SSH_PORT, MachineViewer(login, data), lib.net);
    var i :| 0 <= i < |rules| && rules[i] == r;
    GrantAdmitsExactly(i, lib.address(raw).value.text, login, data, lib.net);
    assert data.policy.grants[i] in data.policy.grants;
  }

  lemma OpenIsGranted(node: Node, login: string, data: MachineData, lib: MachineLibrary)
    requires login in data.roles && ExactLogin(login) && TrimSpace(login) == login
    requires SshGranted(node, login, data, lib)
    ensures GrantedSsh(node, data.policy, MachineViewer(login, data), lib)
  {
    hide Admits, GrantLetsSsh, MachineViewer, ExactLogin, TrimSpace, GrantRules;
    var g, raw :| g in data.policy.grants && raw in node.addresses && lib.address(raw).Some?
      && GrantLetsSsh(g, lib.address(raw).value.text, login, data, lib.net);
    var i :| 0 <= i < |data.policy.grants| && data.policy.grants[i] == g;
    GrantAdmitsExactly(i, lib.address(raw).value.text, login, data, lib.net);
    assert GrantRules(data.policy)[i] in GrantRules(data.policy);
  }

  /** A node whose capability is known, that has a safe target, and that an SSH rule and a Grant open to the login. */
  predicate Offered(node: Node, login: string, data: MachineData, lib: MachineLibrary) {
    && node.id in data.sshCapable && data.sshCapable[node.id]
    && (lib.name(node.name).Some? || exists raw | raw in node.addresses :: lib.address(raw).Some?)
    && (exists r | r in data.sshRules :: SshLets(r, node, login, data) && r.users != [])
    && SshGranted(node, login, data, lib)
  }

  lemma TailnetExists(node: Node, lib: MachineLibrary)
    ensures TargetOf(node, lib).Some? <==> lib.name(node.name).Some? || exists raw | raw in node.addresses ::
              lib.address(raw).Some?
  {
    if raw :| raw in node.addresses && lib.address(raw).Some? {
      var i :| 0 <= i < |node.addresses| && node.addresses[i] == raw;
      assert Tailnet(lib)(node.addresses[i]).Some?;
    }
    hide FirstWhere;
  }

  /** A canonical name is the target; without one it is the preferred address. */
  lemma TargetExactly(node: Node, lib: MachineLibrary)
    ensures lib.name(node.name).Some? ==> TargetOf(node, lib) == lib.name(node.name)
    ensures lib.name(node.name).None? && TargetOf(node, lib).Some? ==>
              exists i | 0 <= i < |node.addresses| :: IsPreferred(node.addresses, i, TargetOf(node, lib).value, lib)
  {
    var v4 := FirstWhere(node.addresses, (r: string) => TailnetV4(lib)(r).Some?);
    var any := FirstWhere(node.addresses, (r: string) => Tailnet(lib)(r).Some?);
    forall k | 0 <= k < v4 ensures !IsV4(node.addresses[k], lib) { assert !TailnetV4(lib)(node.addresses[k]).Some?; }
    forall k | 0 <= k < any ensures lib.address(node.addresses[k]).None? {
      assert !Tailnet(lib)(node.addresses[k]).Some?;
    }
    hide FirstWhere;
    if lib.name(node.name).None? && TargetOf(node, lib).Some? {
      assert IsPreferred(node.addresses, if v4 < |node.addresses| then v4 else any, TargetOf(node, lib).value, lib);
    }
  }

  predicate IsV4(raw: string, lib: MachineLibrary) { lib.address(raw).Some? && lib.address(raw).value.is4 }

  /** The i-th address is the first tailnet address, and the first IPv4 one if there is any. */
  predicate IsPreferred(addresses: seq<string>, i: nat, text: string, lib: MachineLibrary)
    requires i < |addresses|
  {
    && lib.address(addresses[i]).Some? && lib.address(addresses[i]).value.text == text
    && if IsV4(addresses[i], lib) then forall k | 0 <= k < i :: !IsV4(addresses[k], lib)
       else
         && (forall k | 0 <= k < i :: lib.address(addresses[k]).None?)
         && forall k | 0 <= k < |addresses| :: !IsV4(addresses[k], lib)
  }

  /** The machines a login is listed are exactly the nodes offered to it. */
  lemma MachinesExactly(result: seq<Machine>, login: string, data: MachineData, lib: MachineLibrary, node: Node)
    requires data.available && ExactLogin(TrimSpace(login)) && TrimSpace(login) in data.roles
    requires IsMachineList(result, Some(login), data, lib) && node in data.nodes
    ensures (exists m | m in result :: m.node == node) <==> Offered(node, TrimSpace(login), data, lib)
  {
    var name := TrimSpace(login);
    TrimSpaceTwice(login);
    ListedExactly(result, login, data, lib);
    ListedIsOffered(node, name, data, lib);
    hide Listed, Offered, IsMachineList, IsMachine, MachineViewer;
  }

  lemma ListedIsOffered(node: Node, login: string, data: MachineData, lib: MachineLibrary)
    requires login in data.roles && ExactLogin(login) && TrimSpace(login) == login
    ensures Listed(node, login, MachineViewer(login, data), data, lib) <==> Offered(node, login, data, lib)
  {
    GrantedExactly(node, login, data, lib);
    TailnetExists(node, lib);
    forall r ensures RequestFor(node, login, MachineViewer(login, data)).Reaches(r) <==> SshLets(r, node, login, data) {
      SshReachExactly(r, node, login, data);
    }
    hide GrantedSsh, SshGranted, MachineViewer, RequestFor, SshLets, TargetOf;
  }

  /** The list is in the order of the targets, and of the node ids where those are the same. */
  lemma MachinesInOrder(result: seq<Machine>, identity: Option<string>, data: MachineData, lib: MachineLibrary, i: nat,
                        j: nat)
    requires IsMachineList(result, identity, data, lib) && i < j < |result|
    ensures || Less(result[i].target, result[j].target)
            || (result[i].target == result[j].target
                && (Less(result[i].node.id, result[j].node.id) || result[i].node.id == result[j].node.id))
  {
    assert !MachineLess(result[j], result[i]);
    LessTotal(result[i].target, result[j].target);
    LessTotal(result[i].node.id, result[j].node.id);
  }
}
