/** Tailscale users: the validation that makes every later owner lookup unambiguous. */
module TailscaleOwners {
  import opened Common
  import opened Ordering

  /** A user record; id, type and role are None where their JSON could not be read as a reference or text. */
  datatype User = User(id: Option<string>, loginName: string, userType: Option<string>, role: Option<string>)

  const MEMBER := "member"
  const USER_TYPES := {"member", "shared"}
  const HUMAN_ROLES := {"admin", "member", "owner", "it-admin", "network-admin", "billing-admin", "auditor"}

  predicate ValidUser(u: User) {
    && u.id.Some? && u.id.value != ""
    && TrimSpace(u.loginName) != "" && TrimSpace(u.loginName) == u.loginName
    && u.userType.Some? && u.userType.value in USER_TYPES
    && u.role.Some? && u.role.value in HUMAN_ROLES
  }

  ghost predicate DistinctLogins(users: seq<User>) {
    forall i, j | 0 <= i < j < |users| :: users[i].loginName != users[j].loginName
  }

  ghost predicate DistinctIds(users: seq<User>) {
    forall i, j | 0 <= i < j < |users| :: users[i].id != users[j].id
  }

  /** No user's id is another user's login. */
  ghost predicate NoCrossReference(users: seq<User>) {
    forall i, j | 0 <= i < |users| && 0 <= j < |users| && users[i].id == Some(users[j].loginName) :: i == j
  }

  ghost predicate Accepted(users: seq<User>) {
    (forall u | u in users :: ValidUser(u)) && DistinctIds(users) && DistinctLogins(users) && NoCrossReference(users)
  }

  // Roles

  function Selectors(role: string): seq<string> {
    ["autogroup:member", "autogroup:" + role] + (if role == "owner" then ["autogroup:admin"] else [])
  }

  function TrimmedSet(values: seq<string>): set<string> { set v | v in values && TrimSpace(v) != "" :: TrimSpace(v) }

  method NormalizeStrings(values: seq<string>) returns (r: seq<string>)
    ensures r == SortedKeys(TrimmedSet(values))
  {
    var kept: set<string> := {};
    for k := 0 to |values|
      invariant kept == TrimmedSet(values[..k])
    {
      assert values[..k + 1] == values[..k] + [values[k]];
      TrimmedAppend(values[..k], values[k]);
      var value := TrimSpace(values[k]);
      if value != "" { kept := kept + {value}; }
    }
    assert values[..|values|] == values;
    var order := RangeOver(kept);
    LessForSorting();
    r := SortSlice(order, Less);
    SortedIsAscending(order, r);
    AscendingUnique(r, SortedKeys(kept));
  }

  lemma TrimmedAppend(values: seq<string>, v: string)
    ensures TrimmedSet(values + [v]) == TrimmedSet(values) + (if TrimSpace(v) != "" then {TrimSpace(v)} else {})
  {
    forall x ensures x in TrimmedSet(values + [v]) <==>
        x in TrimmedSet(values) + (if TrimSpace(v) != "" then {TrimSpace(v)} else {}) {
      assert v in values + [v];
      if y :| y in values && TrimSpace(y) != "" && x == TrimSpace(y) { assert y in values + [v]; }
    }
  }

  /** The role entries: one for each member-type user, under the login. */
  ghost predicate RolesFor(roles: map<string, seq<string>>, users: seq<User>) {
    forall login :: RoleIs(roles, users, login)
  }

  ghost predicate RoleIs(roles: map<string, seq<string>>, users: seq<User>, login: string) {
    && (login in roles <==> exists u | u in users :: u.userType == Some(MEMBER) && u.loginName == login)
    && (forall u | u in users && login in roles && u.loginName == login ::
          u.role.Some? && roles[login] == SortedKeys(TrimmedSet(Selectors(u.role.value))))
  }

  // Validation

  /** ids and logins map what they have seen to its index. */
  ghost predicate Indexes(ids: map<string, nat>, logins: map<string, nat>, users: seq<User>) {
    && (forall i | 0 <= i < |users| ::
          && users[i].id.Some? && users[i].id.value in ids && ids[users[i].id.value] == i
          && users[i].loginName in logins && logins[users[i].loginName] == i)
    && (forall id | id in ids :: ids[id] < |users| && users[ids[id]].id == Some(id))
    && (forall login | login in logins :: logins[login] < |users| && users[logins[login]].loginName == login)
  }

  method ValidateTailscaleUsers(users: seq<User>) returns (r: Option<map<string, seq<string>>>)
    ensures r.Some? <==> Accepted(users)
    ensures r.Some? ==> RolesFor(r.value, users)
  {
    hide ValidUser, Indexes, RoleIs, Selectors, DistinctIds, DistinctLogins, NoCrossReference;
    NothingSeen();
    assert users[..0] == [];
    var ids: map<string, nat>, logins: map<string, nat> := map[], map[];
    var roles: map<string, seq<string>> := map[];
    for index := 0 to |users|
      invariant forall u | u in users[..index] :: ValidUser(u)
      invariant Indexes(ids, logins, users[..index])
      invariant RolesFor(roles, users[..index])
    {
      var user := users[index];
      assert users[..index + 1] == users[..index] + [user];
      assert user in users;
      if !ValidUser(user) { return None; }
      HasFields(user);
      var id, login := user.id.value, user.loginName;
      if id in ids || login in logins {
        SeenBefore(ids, logins, users, index);
        return None;
      }
      ghost var before, seen := roles, users[..index + 1];
      if user.userType.value == MEMBER {
        var selectors := NormalizeStrings(Selectors(user.role.value));
        roles := roles[login := selectors];
      }
      UsersAreIndexed(ids, logins, users[..index]);
      forall l ensures RoleIs(roles, seen, l) { RoleAppend(before, roles, users[..index], user, logins, l); }
      IndexAppend(ids, logins, users[..index], user);
      ids, logins := ids[id := index], logins[login := index];
    }
    assert users[..|users|] == users;
    UsersAreIndexed(ids, logins, users);
    var ambiguous := CrossReferenced(ids, logins, users);
    return if ambiguous then None else Some(roles);
  }

  lemma NothingSeen()
    ensures Indexes(map[], map[], []) && RolesFor(map[], [])
  {
  }

  lemma HasFields(u: User)
    requires ValidUser(u)
    ensures u.id.Some? && u.userType.Some? && u.role.Some?
  {
  }

  lemma SeenBefore(ids: map<string, nat>, logins: map<string, nat>, users: seq<User>, index: nat)
    requires index < |users| && Indexes(ids, logins, users[..index]) && users[index].id.Some?
    requires users[index].id.value in ids || users[index].loginName in logins
    ensures !DistinctIds(users) || !DistinctLogins(users)
  {
    var id, login := users[index].id.value, users[index].loginName;
    if id in ids {
      assert users[..index][ids[id]] == users[ids[id]];
    } else {
      assert users[..index][logins[login]] == users[logins[login]];
    }
  }

  lemma UsersAreIndexed(ids: map<string, nat>, logins: map<string, nat>, users: seq<User>)
    requires Indexes(ids, logins, users)
    ensures forall u | u in users :: u.loginName in logins
    ensures DistinctIds(users) && DistinctLogins(users)
  {
  }

  lemma IndexAppend(ids: map<string, nat>, logins: map<string, nat>, users: seq<User>, user: User)
    requires Indexes(ids, logins, users) && user.id.Some? && user.id.value !in ids && user.loginName !in logins
    ensures Indexes(ids[user.id.value := |users|], logins[user.loginName := |users|], users + [user])
  {
  }

  lemma RoleAppend(before: map<string, seq<string>>, after: map<string, seq<string>>, users: seq<User>, user: User,
                   logins: map<string, nat>, login: string)
    requires RoleIs(before, users, login) && user.role.Some?
    requires user.loginName !in logins && forall u | u in users :: u.loginName in logins
    requires after == if user.userType == Some(MEMBER)
                      then before[user.loginName := SortedKeys(TrimmedSet(Selectors(user.role.value)))] else before
    ensures RoleIs(after, users + [user], login)
  {
    if user.loginName == login { assert login !in before; }
  }

  /** The last loop of the validation, over the ids in any order. */
  method CrossReferenced(ids: map<string, nat>, logins: map<string, nat>, ghost users: seq<User>) returns (b: bool)
    requires Indexes(ids, logins, users)
    ensures b <==> !NoCrossReference(users)
  {
    var order := RangeOver(ids.Keys);
    for k := 0 to |order|
      invariant forall j | 0 <= j < k :: order[j] in logins ==> order[j] in ids && logins[order[j]] == ids[order[j]]
    {
      assert order[k] in order;
      var id := order[k];
      if id in logins && logins[id] != ids[id] { return true; }
    }
    forall i, j | 0 <= i < |users| && 0 <= j < |users| && users[i].id == Some(users[j].loginName) ensures i == j {
      assert users[i].id.value in order;
    }
    return false;
  }

  // Lookup

  datatype Lookup = Unknown | Ambiguous | Owner(login: string)

  predicate Refers(reference: string, u: User) { reference == u.id.GetOr("") || reference == TrimSpace(u.loginName) }

  function Matches(reference: string, users: seq<User>): set<string> {
    set u | u in users && Refers(reference, u) :: TrimSpace(u.loginName)
  }

  method ResolveTailscaleOwner(reference: string, users: seq<User>) returns (r: Lookup)
    ensures r.Unknown? <==> Matches(reference, users) == {}
    ensures r.Owner? <==> exists login :: Matches(reference, users) == {login}
    ensures r.Owner? ==> Matches(reference, users) == {r.login}
  {
    var matches: set<string> := {};
    for k := 0 to |users|
      invariant matches == Matches(reference, users[..k])
    {
      assert users[..k + 1] == users[..k] + [users[k]];
      MatchesAppend(reference, users[..k], users[k]);
      if Refers(reference, users[k]) { matches := matches + {TrimSpace(users[k].loginName)}; }
    }
    assert users[..|users|] == users;
    if |matches| == 0 { return Unknown; }
    if |matches| != 1 { return Ambiguous; }
    var login :| login in matches;
    assert matches == {login} by { assert |matches - {login}| == 0; }
    return Owner(login);
  }

  lemma MatchesAppend(reference: string, users: seq<User>, u: User)
    ensures Matches(reference, users + [u])
        == Matches(reference, users) + (if Refers(reference, u) then {TrimSpace(u.loginName)} else {})
  {
    forall x ensures x in Matches(reference, users + [u])
                <==> x in Matches(reference, users) + (if Refers(reference, u) then {TrimSpace(u.loginName)} else {})
    {
      assert u in users + [u];
      if y :| y in users && Refers(reference, y) && x == TrimSpace(y.loginName) { assert y in users + [u]; }
    }
  }

  ghost predicate Unambiguous(reference: string, users: seq<User>) {
    forall a, b | a in Matches(reference, users) && b in Matches(reference, users) :: a == b
  }

  /**
   * The validation asks for no more than it must: given readable fields and distinct logins it accepts
   * exactly the lists in which no reference whatsoever is ambiguous.
   */
  lemma AcceptedIsUnambiguous(users: seq<User>)
    requires (forall u | u in users :: ValidUser(u)) && DistinctLogins(users)
    ensures Accepted(users) <==> forall reference :: Unambiguous(reference, users)
  {
    if Accepted(users) {
      forall reference ensures Unambiguous(reference, users) { NeverAmbiguous(users, reference); }
    } else {
      var i, j := Culprits(users);
      var id := users[i].id.value;
      assert users[i] in users && users[j] in users && ValidUser(users[i]) && ValidUser(users[j]);
      assert users[i].loginName in Matches(id, users) && users[j].loginName in Matches(id, users);
      assert users[i].loginName != users[j].loginName;
      assert !Unambiguous(id, users);
    }
  }

  lemma Culprits(users: seq<User>) returns (i: nat, j: nat)
    requires (forall u | u in users :: ValidUser(u)) && DistinctLogins(users) && !Accepted(users)
    ensures i < |users| && j < |users| && i != j && users[i].id.Some? && Refers(users[i].id.value, users[j])
  {
    if !DistinctIds(users) {
      i, j :| 0 <= i < j < |users| && users[i].id == users[j].id;
    } else {
      i, j :| 0 <= i < |users| && 0 <= j < |users| && users[i].id == Some(users[j].loginName) && i != j;
    }
    assert users[i] in users && users[j] in users;
  }

  lemma NeverAmbiguous(users: seq<User>, reference: string)
    requires Accepted(users)
    ensures Unambiguous(reference, users)
  {
    forall a, b | a in Matches(reference, users) && b in Matches(reference, users) ensures a == b {
      var x :| x in users && Refers(reference, x) && a == TrimSpace(x.loginName);
      var y :| y in users && Refers(reference, y) && b == TrimSpace(y.loginName);
      var i :| 0 <= i < |users| && users[i] == x;
      var j :| 0 <= j < |users| && users[j] == y;
      assert ValidUser(x) && ValidUser(y);
      assert i == j;
    }
  }

  /** In an accepted list the id and the login of every user both resolve to that user's login. */
  lemma OwnersResolve(users: seq<User>, u: User)
    requires Accepted(users) && u in users
    ensures Matches(u.id.value, users) == {u.loginName} && Matches(u.loginName, users) == {u.loginName}
  {
    assert ValidUser(u);
    NeverAmbiguous(users, u.id.value);
    NeverAmbiguous(users, u.loginName);
    assert u.loginName in Matches(u.id.value, users) && u.loginName in Matches(u.loginName, users);
  }

  /** The entries of a member: member itself, the role, and for an owner admin as well; all in order. */
  lemma RoleEntries(roles: map<string, seq<string>>, users: seq<User>, u: User)
    requires Accepted(users) && RolesFor(roles, users) && u in users
    ensures u.userType == Some(MEMBER) <==> u.loginName in roles
    ensures u.userType == Some(MEMBER) ==>
              && StrictlyAscending(roles[u.loginName])
              && forall s :: s in roles[u.loginName] <==>
                   s == "autogroup:member" || s == "autogroup:" + u.role.value
                     || (u.role.value == "owner" && s == "autogroup:admin")
  {
    assert ValidUser(u);
    MemberHasEntry(roles, users, u);
    if u.loginName in roles { SelectorsInOrder(u.role.value, roles[u.loginName]); }
  }

  lemma SelectorsInOrder(role: string, entries: seq<string>)
    requires role in HUMAN_ROLES && entries == SortedKeys(TrimmedSet(Selectors(role)))
    ensures StrictlyAscending(entries)
    ensures forall s :: s in entries <==>
              s == "autogroup:member" || s == "autogroup:" + role || (role == "owner" && s == "autogroup:admin")
  {
    hide TrimSpace, TrimmedSet;
    SelectorsAreTrimmed(role);
    var selectors := Selectors(role);
    assert forall s :: s in entries <==> s in selectors;
  }

  lemma MemberHasEntry(roles: map<string, seq<string>>, users: seq<User>, u: User)
    requires DistinctLogins(users) && RolesFor(roles, users) && u in users && u.role.Some?
    ensures u.userType == Some(MEMBER) <==> u.loginName in roles
    ensures u.loginName in roles ==> roles[u.loginName] == SortedKeys(TrimmedSet(Selectors(u.role.value)))
  {
    assert RoleIs(roles, users, u.loginName);
    if u.loginName in roles {
      var v :| v in users && v.userType == Some(MEMBER) && v.loginName == u.loginName;
      var i :| 0 <= i < |users| && users[i] == u;
      var j :| 0 <= j < |users| && users[j] == v;
      assert i == j;
    }
  }

  lemma SelectorsAreTrimmed(role: string)
    requires role in HUMAN_ROLES
    ensures TrimmedSet(Selectors(role)) == set s | s in Selectors(role)
  {
    forall s | s in Selectors(role) ensures TrimSpace(s) == s && s != "" {
      TrimsNothing(s);
    }
  }

  /** What a user of an accepted list looks like, and a user that looks so is accepted on its own. */
  lemma AcceptedUser(u: User)
    ensures Accepted([u])
       <==> && u.id.Some? && u.id.value != "" && u.loginName != "" && TrimSpace(u.loginName) == u.loginName
            && (u.userType == Some("member") || u.userType == Some("shared"))
            && u.role.Some?
            && u.role.value in ["owner", "admin", "member", "it-admin", "network-admin", "billing-admin", "auditor"]
  {
    assert u in [u] && forall x | x in [u] :: x == u;
    assert ValidUser(u) <==> Accepted([u]) by { hide ValidUser; }
    hide Accepted;
  }
}
