/** evaluateMachines: which machines a login may open over Tailscale SSH, and as which users. */
module MachineMatcher {
  import opened Common
  import opened Ordering
  import opened Policy
  import opened Selection
  import opened ServiceMatcher

  const NONROOT := "autogroup:nonroot"

  datatype SshAccess = SshAccess(user: string, action: Action, checkPeriod: int, ruleIndex: nat, source: string,
                                 destination: string)

  // The rules that reach one node

  function SshSourceTest(ids: set<string>, roles: set<string>): string -> Option<string> {
    token => if token in ids || token in roles then Some(token) else None
  }

  function SshDestinationTest(node: Node, login: string): string -> Option<string> {
    d => if (if d == "autogroup:self" then node.ownerLogin == login else HasPrefix(d, "tag:") && d in node.tags)
         then Some(d) else None
  }

  /** A login, its exact identities and roles, against one node. */
  datatype Request = Request(sourceTest: string -> Option<string>, destinationTest: string -> Option<string>) {
    predicate Reaches(rule: SshRule) { AnyHit(rule.src, sourceTest) && AnyHit(rule.dst, destinationTest) }

    predicate Offers(rule: SshRule, user: string) { Reaches(rule) && user in rule.users }

    predicate OffersCheck(rule: SshRule, user: string) { Offers(rule, user) && rule.action == Check }
  }

  function SshRequest(node: Node, ids: set<string>, roles: set<string>, login: string): Request {
    Request(SshSourceTest(ids, roles), SshDestinationTest(node, login))
  }

  // What the rules say about one user

  /** Check wins over accept wherever the rules stand. */
  function ActionFor(rules: seq<SshRule>, q: Request, user: string): Option<Action> {
    if exists r | r in rules :: q.OffersCheck(r, user) then Some(Check)
    else if exists r | r in rules :: q.Offers(r, user) then Some(Accept)
    else None
  }

  /** A check on all non-root users hides each accept for a single one of them. */
  function ShownAction(rules: seq<SshRule>, q: Request, user: string): Option<Action> {
    var action := ActionFor(rules, q, user);
    if action == Some(Accept) && user != "root" && user != NONROOT && ActionFor(rules, q, NONROOT) == Some(Check)
    then None
    else action
  }

  /** The index of the rule whose evidence is reported: the first check, else the first accept, else |rules|. */
  function Winner(rules: seq<SshRule>, q: Request, user: string): nat {
    var check := FirstWhere(rules, (r: SshRule) => q.OffersCheck(r, user));
    if check < |rules| then check else FirstWhere(rules, (r: SshRule) => q.Offers(r, user))
  }

  lemma {:induction false} FirstWhereAppend<T>(s: seq<T>, x: T, p: T -> bool)
    ensures FirstWhere(s + [x], p) == if FirstWhere(s, p) < |s| then FirstWhere(s, p) else if p(x) then |s| else |s| + 1
  {
    if s != [] {
      FirstWhereAppend(s[1..], x, p);
      assert (s + [x])[1..] == s[1..] + [x];
    }
  }

  lemma WinnerAppend(rules: seq<SshRule>, r: SshRule, q: Request, user: string)
    ensures var w, n := Winner(rules, q, user), |rules|;
            Winner(rules + [r], q, user)
            == if w < n && (rules[w].action == Check || !q.OffersCheck(r, user)) then w
               else if q.Offers(r, user) then n else n + 1
  {
    FirstWhereAppend(rules, r, (x: SshRule) => q.OffersCheck(x, user));
    FirstWhereAppend(rules, r, (x: SshRule) => q.Offers(x, user));
  }

  lemma WinnerMeaning(rules: seq<SshRule>, q: Request, user: string)
    ensures Winner(rules, q, user) < |rules| <==> ActionFor(rules, q, user).Some?
    ensures Winner(rules, q, user) < |rules| ==>
              q.Offers(rules[Winner(rules, q, user)], user)
                && Some(rules[Winner(rules, q, user)].action) == ActionFor(rules, q, user)
  {
    var check := FirstWhere(rules, (r: SshRule) => q.OffersCheck(r, user));
    var any := FirstWhere(rules, (r: SshRule) => q.Offers(r, user));
    if check < |rules| { assert rules[check] in rules; }
    if any < |rules| { assert rules[any] in rules; }
  }

  // The map of winners

  ghost predicate IsAccessOf(a: SshAccess, i: nat, rules: seq<SshRule>, q: Request, user: string)
    requires i < |rules|
  {
    && a.user == user && a.ruleIndex == i && a.action == rules[i].action && a.checkPeriod == rules[i].checkPeriod
    && FirstHit(rules[i].src, q.sourceTest, a.source) && FirstHit(rules[i].dst, q.destinationTest, a.destination)
  }

  ghost predicate Records(byUser: map<string, SshAccess>, rules: seq<SshRule>, q: Request, user: string) {
    && (user in byUser <==> Winner(rules, q, user) < |rules|)
    && (user in byUser ==> IsAccessOf(byUser[user], Winner(rules, q, user), rules, q, user))
  }

  /** The loop over one rule's users. */
  /** A candidate takes the place of nothing, or a check that of an accept. */
  predicate TakesPlace(byUser: map<string, SshAccess>, user: string, action: Action) {
    user !in byUser || (byUser[user].action == Accept && action == Check)
  }

  method AddUsers(byUser: map<string, SshAccess>, users: seq<string>, candidate: SshAccess)
      returns (r: map<string, SshAccess>)
    ensures forall u :: u in r <==> u in byUser || u in users
    ensures forall u | u in r ::
              r[u] == if u in users && TakesPlace(byUser, u, candidate.action) then candidate.(user := u) else byUser[u]
  {
    r := byUser;
    for i := 0 to |users|
      invariant forall u :: u in r <==> u in byUser || u in users[..i]
      invariant forall u | u in r ::
                  r[u] == if u in users[..i] && TakesPlace(byUser, u, candidate.action)
                          then candidate.(user := u) else byUser[u]
    {
      var user := users[i];
      if user !in r || (r[user].action == Accept && candidate.action == Check) {
        r := r[user := candidate.(user := user)];
      }
      assert users[..i + 1] == users[..i] + [user];
    }
    assert users[..|users|] == users;
  }

  lemma RecordsAppend(before: map<string, SshAccess>, after: map<string, SshAccess>, rules: seq<SshRule>, r: SshRule,
                      q: Request, user: string, candidate: SshAccess)
    requires Records(before, rules, q, user)
    requires q.Reaches(r) ==>
               && IsAccessOf(candidate.(user := user), |rules|, rules + [r], q, user)
               && (user in after <==> user in before || user in r.users)
               && (user in after ==>
                     after[user] == if user in r.users && TakesPlace(before, user, r.action)
                                    then candidate.(user := user) else before[user])
    requires !q.Reaches(r) ==> after == before
    ensures Records(after, rules + [r], q, user)
  {
    WinnerAppend(rules, r, q, user);
  }

  method CollectAccess(rules: seq<SshRule>, q: Request) returns (byUser: map<string, SshAccess>)
    ensures forall u :: Records(byUser, rules, q, u)
  {
    byUser := map[];
    for i := 0 to |rules|
      invariant forall u :: Records(byUser, rules[..i], q, u)
    {
      var rule := rules[i];
      assert rules[..i + 1] == rules[..i] + [rule];
      ghost var before, done := byUser, rules[..i + 1];
      var candidate := SshAccess("", rule.action, rule.checkPeriod, i, "", "");
      var source := FindFirst(rule.src, q.sourceTest);
      var destination := FindFirst(rule.dst, q.destinationTest);
      if source.Some? && destination.Some? {
        candidate := candidate.(source := source.value, destination := destination.value);
        byUser := AddUsers(byUser, rule.users, candidate);
      }
      forall u ensures Records(byUser, done, q, u) {
        RecordsAppend(before, byUser, rules[..i], rule, q, u, candidate);
      }
    }
    assert rules[..|rules|] == rules;
  }

  // The list

  ghost predicate AscendingUsers(list: seq<SshAccess>) {
    forall i, j | 0 <= i < j < |list| :: Less(list[i].user, list[j].user)
  }

  /** One access for each shown user, in user order, each with its winner's evidence. */
  ghost predicate IsAccessList(list: seq<SshAccess>, rules: seq<SshRule>, q: Request) {
    && AscendingUsers(list)
    && (forall a | a in list ::
          && ShownAction(rules, q, a.user).Some?
          && Winner(rules, q, a.user) < |rules| && IsAccessOf(a, Winner(rules, q, a.user), rules, q, a.user))
    && (forall u | ShownAction(rules, q, u).Some? :: exists a | a in list :: a.user == u)
  }

  /** The comparator of the final sort; users are distinct, so its later keys never decide. */
  predicate AccessLess(a: SshAccess, b: SshAccess) {
    if a.user != b.user then Less(a.user, b.user)
    else if a.action != b.action then a.action == Check
    else a.ruleIndex < b.ruleIndex
  }

  lemma AccessLessIsStrictWeak()
    ensures StrictWeakOrder(AccessLess)
  {
    LessForSorting();
    forall x: SshAccess, y: SshAccess ensures x.user == y.user || Less(x.user, y.user) || Less(y.user, x.user) {
      LessTotal(x.user, y.user);
    }
  }

  method DropAccepts(byUser: map<string, SshAccess>) returns (r: map<string, SshAccess>)
    ensures forall u :: u in r <==> u in byUser && (u == "root" || u == NONROOT || byUser[u].action == Check)
    ensures forall u | u in r :: r[u] == byUser[u]
  {
    var users := RangeOver(byUser.Keys);
    r := byUser;
    for i := 0 to |users|
      invariant forall u ::
                u in r <==>
                  u in byUser && (u !in users[..i] || u == "root" || u == NONROOT || byUser[u].action == Check)
      invariant forall u | u in r :: r[u] == byUser[u]
    {
      assert users[i] in users;
      assert users[..i + 1] == users[..i] + [users[i]];
      if users[i] != "root" && users[i] != NONROOT && byUser[users[i]].action == Accept {
        r := map u | u in r && u != users[i] :: r[u];
      }
    }
    assert users[..|users|] == users;
  }

  /** The values of the map in some order, then sorted. */
  method SortedAccess(byUser: map<string, SshAccess>) returns (list: seq<SshAccess>)
    requires forall u | u in byUser :: byUser[u].user == u
    ensures AscendingUsers(list)
    ensures forall a :: a in list <==> a.user in byUser && byUser[a.user] == a
  {
    var users := RangeOver(byUser.Keys);
    var values: seq<SshAccess> := [];
    for i := 0 to |users|
      invariant |values| == i
      invariant forall k | 0 <= k < i :: users[k] in byUser && values[k] == byUser[users[k]]
    {
      assert users[i] in users;
      values := values + [byUser[users[i]]];
    }
    AccessLessIsStrictWeak();
    list := SortSlice(values, AccessLess);
    forall a ensures a in list <==> a.user in byUser && byUser[a.user] == a {
      assert a in multiset(list) <==> a in multiset(values);
      if a.user in byUser && byUser[a.user] == a {
        assert a.user in users;
        var k :| 0 <= k < |users| && users[k] == a.user;
        assert values[k] == a;
      }
    }
    assert Distinct(values) by {
      forall i, j | 0 <= i < j < |values| ensures values[i] != values[j] { assert values[i].user != values[j].user; }
    }
    SortedUsersAscend(values, list);
  }

  lemma SortedUsersAscend(values: seq<SshAccess>, list: seq<SshAccess>)
    requires Distinct(values) && SortedBy(list, AccessLess) && multiset(list) == multiset(values)
    requires forall a, b | a in list && b in list && a != b :: a.user != b.user
    ensures AscendingUsers(list)
  {
    DistinctMultiset(values);
    forall i, j | 0 <= i < j < |list| ensures Less(list[i].user, list[j].user) {
      assert list[i] in multiset(values);
      if list[i] == list[j] { TwoCopies(list, i, j); }
      LessTotal(list[i].user, list[j].user);
      assert !AccessLess(list[j], list[i]);
    }
  }

  method EvaluateMachineSshAccess(node: Node, rules: seq<SshRule>, ids: set<string>, roles: set<string>, login: string)
      returns (list: seq<SshAccess>)
    ensures IsAccessList(list, rules, SshRequest(node, ids, roles, login))
  {
    ghost var q := SshRequest(node, ids, roles, login);
    var byUser := CollectAccess(rules, SshRequest(node, ids, roles, login));
    ghost var collected := byUser;
    WinnerMeaning(rules, q, NONROOT);
    assert Records(collected, rules, q, NONROOT);
    if NONROOT in byUser && byUser[NONROOT].action == Check {
      byUser := DropAccepts(byUser);
    }
    forall u ensures u in byUser <==> ShownAction(rules, q, u).Some? {
      WinnerMeaning(rules, q, u);
      assert Records(collected, rules, q, u);
    }
    forall u | u in byUser ensures byUser[u].user == u { assert Records(collected, rules, q, u); }
    list := SortedAccess(byUser);
    forall u | ShownAction(rules, q, u).Some? ensures exists a | a in list :: a.user == u {
      assert byUser[u] in list;
    }
    forall a | a in list ensures Winner(rules, q, a.user) < |rules|
        && IsAccessOf(a, Winner(rules, q, a.user), rules, q, a.user) {
      assert Records(collected, rules, q, a.user);
    }
  }

  // Consequences

  ghost function Users(list: seq<SshAccess>): seq<string> {
    seq(|list|, i requires 0 <= i < |list| => list[i].user)
  }

  lemma UsersAscend(list: seq<SshAccess>, rules: seq<SshRule>, q: Request)
    requires IsAccessList(list, rules, q)
    ensures StrictlyAscending(Users(list))
    ensures forall u :: u in Users(list) <==> ShownAction(rules, q, u).Some?
  {
    UsersOf(list);
    forall u ensures u in Users(list) <==> ShownAction(rules, q, u).Some? { UserIsShown(list, rules, q, u); }
  }

  lemma UserIsShown(list: seq<SshAccess>, rules: seq<SshRule>, q: Request, u: string)
    requires IsAccessList(list, rules, q)
    ensures (exists a | a in list :: a.user == u) <==> ShownAction(rules, q, u).Some?
  {
  }

  lemma UsersOf(list: seq<SshAccess>)
    ensures forall u :: u in Users(list) <==> exists a | a in list :: a.user == u
  {
    var users := Users(list);
    forall u ensures u in users <==> exists a | a in list :: a.user == u {
      if a :| a in list && a.user == u {
        var i :| 0 <= i < |list| && list[i] == a;
        assert users[i] == u;
      }
      if u in users {
        var i :| 0 <= i < |users| && users[i] == u;
        assert list[i] in list;
      }
    }
  }

  /** Each shown user appears exactly once, with the action that the rules give it. */
  lemma AccessIsDeclared(list: seq<SshAccess>, rules: seq<SshRule>, q: Request)
    requires IsAccessList(list, rules, q)
    ensures forall i, j | 0 <= i < j < |list| :: list[i].user != list[j].user
    ensures forall u: string, action: Action ::
              (exists a | a in list :: a.user == u && a.action == action) <==> ShownAction(rules, q, u) == Some(action)
  {
    forall i, j | 0 <= i < j < |list| ensures list[i].user != list[j].user { LessIrreflexive(list[i].user); }
    forall a | a in list ensures ShownAction(rules, q, a.user) == Some(a.action) { WinnerMeaning(rules, q, a.user); }
  }

  /** Some rule that reaches the node offers the user this action. */
  predicate Declares(rules: seq<SshRule>, q: Request, user: string, action: Action) {
    exists r | r in rules :: q.Reaches(r) && user in r.users && r.action == action
  }

  /**
   * A user is listed with a check exactly when a reaching rule declares one, and with an accept exactly when
   * one declares that, none a check, and no check on all non-root users stands above it.
   */
  lemma AccessExactly(list: seq<SshAccess>, rules: seq<SshRule>, q: Request, user: string)
    requires IsAccessList(list, rules, q)
    ensures (exists a | a in list :: a.user == user && a.action == Check) <==> Declares(rules, q, user, Check)
    ensures (exists a | a in list :: a.user == user && a.action == Accept)
       <==> && Declares(rules, q, user, Accept) && !Declares(rules, q, user, Check)
            && (user == "root" || user == "autogroup:nonroot" || !Declares(rules, q, "autogroup:nonroot", Check))
  {
    AccessIsDeclared(list, rules, q);
    ActionIsDeclared(rules, q, user);
    ActionIsDeclared(rules, q, NONROOT);
    assert (exists a | a in list :: a.user == user && a.action == Check) <==>
           ShownAction(rules, q, user) == Some(Check);
    assert (exists a | a in list :: a.user == user && a.action == Accept) <==>
           ShownAction(rules, q, user) == Some(Accept);
    hide ActionFor, Declares, IsAccessList;
  }

  lemma ActionIsDeclared(rules: seq<SshRule>, q: Request, user: string)
    ensures ActionFor(rules, q, user) == Some(Check) <==> Declares(rules, q, user, Check)
    ensures ActionFor(rules, q, user) == Some(Accept)
       <==> Declares(rules, q, user, Accept) && !Declares(rules, q, user, Check)
  {
    hide Request.Reaches;
  }

  /** Map iteration leaves no trace: the whole list, evidence included, is determined. */
  lemma AccessListIsUnique(a: seq<SshAccess>, b: seq<SshAccess>, rules: seq<SshRule>, q: Request)
    requires IsAccessList(a, rules, q) && IsAccessList(b, rules, q)
    ensures a == b
  {
    UsersAscend(a, rules, q);
    UsersAscend(b, rules, q);
    AscendingUnique(Users(a), Users(b));
    assert |Users(a)| == |a| && |Users(b)| == |b|;
    forall i | 0 <= i < |a| ensures a[i] == b[i] {
      assert Users(a)[i] == Users(b)[i];
      var w := Winner(rules, q, a[i].user);
      assert a[i] in a && b[i] in b;
      FirstHitUnique(rules[w].src, q.sourceTest, a[i].source, b[i].source);
      FirstHitUnique(rules[w].dst, q.destinationTest, a[i].destination, b[i].destination);
    }
  }

  ghost function UserActions(list: seq<SshAccess>): seq<(string, Action)> {
    seq(|list|, i requires 0 <= i < |list| => (list[i].user, list[i].action))
  }

  /** Reordering or repeating rules changes neither the users nor their actions. */
  lemma ActionsAreOrderFree(a: seq<SshAccess>, b: seq<SshAccess>, first: seq<SshRule>, second: seq<SshRule>, q: Request)
    requires IsAccessList(a, first, q) && IsAccessList(b, second, q)
    requires forall r :: r in first <==> r in second
    ensures UserActions(a) == UserActions(b)
  {
    forall u ensures ActionFor(first, q, u) == ActionFor(second, q, u) {
    }
    UsersAscend(a, first, q);
    UsersAscend(b, second, q);
    assert forall u :: ShownAction(first, q, u) == ShownAction(second, q, u);
    AscendingUnique(Users(a), Users(b));
    assert |Users(a)| == |a| && |Users(b)| == |b|;
    forall i | 0 <= i < |a| ensures UserActions(a)[i] == UserActions(b)[i] {
      assert Users(a)[i] == Users(b)[i];
      assert a[i] in a && b[i] in b;
      WinnerMeaning(first, q, a[i].user);
      WinnerMeaning(second, q, a[i].user);
    }
  }

  /** The check period is the first winning rule's, so the order matters exactly when those rules disagree. */
  lemma PeriodIsOrderFree(rules: seq<SshRule>, q: Request, user: string)
    requires ActionFor(rules, q, user).Some?
    ensures Winner(rules, q, user) < |rules|
    ensures (forall other: seq<SshRule> | multiset(other) == multiset(rules) ::
               && Winner(other, q, user) < |other|
               && other[Winner(other, q, user)].checkPeriod == rules[Winner(rules, q, user)].checkPeriod)
       <==> (forall r, s | r in rules && s in rules && Competes(r, rules, q, user) && Competes(s, rules, q, user) ::
               r.checkPeriod == s.checkPeriod)
  {
    WinnerMeaning(rules, q, user);
    var w := rules[Winner(rules, q, user)];
    assert w in rules && Competes(w, rules, q, user);
    forall other: seq<SshRule> | multiset(other) == multiset(rules)
      ensures Winner(other, q, user) < |other|
      ensures other[Winner(other, q, user)] in rules && Competes(other[Winner(other, q, user)], rules, q, user)
    {
      forall r ensures r in other <==> r in rules { assert r in multiset(other) <==> r in multiset(rules); }
      assert ActionFor(other, q, user) == ActionFor(rules, q, user);
      WinnerMeaning(other, q, user);
    }
    if r, s :|
      && r in rules && s in rules && r.checkPeriod != s.checkPeriod
      && Competes(r, rules, q, user) && Competes(s, rules, q, user)
    {
      var t := if r.checkPeriod != w.checkPeriod then r else s;
      var other := MovedToFront(rules, t, q, user);
    }
  }

  predicate Competes(r: SshRule, rules: seq<SshRule>, q: Request, user: string) {
    q.Offers(r, user) && Some(r.action) == ActionFor(rules, q, user)
  }

  lemma MovedToFront(rules: seq<SshRule>, t: SshRule, q: Request, user: string) returns (other: seq<SshRule>)
    requires t in rules && Competes(t, rules, q, user)
    ensures multiset(other) == multiset(rules) && Winner(other, q, user) == 0 && other != [] && other[0] == t
  {
    var i :| 0 <= i < |rules| && rules[i] == t;
    other := [t] + (rules[..i] + rules[i + 1..]);
    assert rules == rules[..i] + [t] + rules[i + 1..];
    forall r ensures r in other <==> r in rules { assert r in multiset(other) <==> r in multiset(rules); }
    assert ActionFor(other, q, user) == ActionFor(rules, q, user);
    FirstWins(other, q, user);
  }

  lemma FirstWins(rules: seq<SshRule>, q: Request, user: string)
    requires rules != [] && Competes(rules[0], rules, q, user)
    ensures Winner(rules, q, user) == 0
  {
    if rules[0].action == Accept { assert forall r | r in rules :: !q.OffersCheck(r, user); }
  }

  /** A check on all non-root users leaves no accept for any other user; root still needs its own rule. */
  lemma NonrootCheckDominates(list: seq<SshAccess>, rules: seq<SshRule>, q: Request)
    requires IsAccessList(list, rules, q)
    requires exists r | r in rules :: q.OffersCheck(r, NONROOT)
    ensures forall a | a in list && a.user != "root" :: a.action == Check
    ensures (exists a | a in list :: a.user == "root") <==> exists r | r in rules :: q.Offers(r, "root")
  {
    AccessIsDeclared(list, rules, q);
    assert ActionFor(rules, q, NONROOT) == Some(Check);
    forall a | a in list && a.user != "root" ensures a.action == Check {
      assert ShownAction(rules, q, a.user) == Some(a.action);
    }
    UserIsShown(list, rules, q, "root");
  }

  /** Hiding accepts never empties the list: someone is offered exactly when some rule reaches and names a user. */
  lemma SomeoneIsShown(rules: seq<SshRule>, q: Request)
    ensures (exists u :: ShownAction(rules, q, u).Some?) <==> exists r | r in rules :: q.Reaches(r) && r.users != []
  {
    if r :| r in rules && q.Reaches(r) && r.users != [] {
      var u := r.users[0];
      assert q.Offers(r, u);
      assert ActionFor(rules, q, u).Some?;
      assert ShownAction(rules, q, u).Some? || ShownAction(rules, q, NONROOT).Some?;
    }
  }

  lemma AccessIsNonempty(list: seq<SshAccess>, rules: seq<SshRule>, q: Request)
    requires IsAccessList(list, rules, q)
    ensures list != [] <==> exists r | r in rules :: q.Reaches(r) && r.users != []
  {
    SomeoneIsShown(rules, q);
    HasMember(list);
  }
}
