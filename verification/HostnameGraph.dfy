/** Hostname candidates, wildcard hosts, and the connected groups of their match graph. */
module HostnameGraph {
  import opened Common
  import opened Ordering
  import opened HostnameLabels

  datatype Source = ControlPlane | Stdin | Combined

  datatype Candidate = Candidate(hostname: string, source: Source)

  datatype EligibleHost = EligibleHost(id: int, suffixes: seq<string>, existingName: string)

  predicate MatchesSuffix(hostname: string, suffix: string) {
    hostname != suffix && HasSuffix(hostname, "." + suffix)
  }

  predicate Joins(c: Candidate, h: EligibleHost) { exists s | s in h.suffixes :: MatchesSuffix(c.hostname, s) }

  /** Joined by one of its wildcards: the hostname is a subdomain of the suffix, label by label. */
  lemma JoinsBelow(c: Candidate, h: EligibleHost)
    ensures Joins(c, h) <==> exists s | s in h.suffixes :: IsSubdomain(c.hostname, s)
  {
    forall s ensures MatchesSuffix(c.hostname, s) <==> IsSubdomain(c.hostname, s) {
      SubdomainEndsWithDot(c.hostname, s);
    }
  }

  ghost predicate UniqueHostnames(candidates: seq<Candidate>) {
    forall c, d | c in candidates && d in candidates && c.hostname == d.hostname :: c == d
  }

  /** Whether a hostname and a proxy-host id are linked. */
  type Edges = (string, int) -> bool

  function EdgesOf(candidates: seq<Candidate>, hosts: seq<EligibleHost>): Edges {
    (name, id) => exists c, h | c in candidates && h in hosts :: c.hostname == name && h.id == id && Joins(c, h)
  }

  datatype Vertex = Name(name: string) | Id(id: int)

  predicate Adjacent(g: Edges, u: Vertex, v: Vertex) {
    (u.Name? && v.Id? && g(u.name, v.id)) || (u.Id? && v.Name? && g(v.name, u.id))
  }

  // Connectedness

  predicate IsPath(g: Edges, p: seq<Vertex>) {
    p != [] && forall k | 0 <= k < |p| - 1 :: Adjacent(g, p[k], p[k + 1])
  }

  ghost predicate PathFrom(g: Edges, p: seq<Vertex>, u: Vertex, v: Vertex) {
    IsPath(g, p) && p[0] == u && p[|p| - 1] == v
  }

  ghost predicate Connected(g: Edges, u: Vertex, v: Vertex) { exists p :: PathFrom(g, p, u, v) }

  lemma ConnectedToSelf(g: Edges, u: Vertex)
    ensures Connected(g, u, u)
  {
    assert PathFrom(g, [u], u, u);
  }

  lemma ConnectedStep(g: Edges, u: Vertex, v: Vertex, w: Vertex)
    requires Connected(g, u, v) && Adjacent(g, v, w)
    ensures Connected(g, u, w)
  {
    var p :| PathFrom(g, p, u, v);
    assert PathFrom(g, p + [w], u, w);
  }

  lemma {:induction false} ConnectedTransitive(g: Edges, u: Vertex, v: Vertex, p: seq<Vertex>)
    requires Connected(g, u, v) && IsPath(g, p) && p[0] == v
    ensures Connected(g, u, p[|p| - 1])
    decreases |p|
  {
    if |p| > 1 {
      ConnectedStep(g, u, v, p[1]);
      ConnectedTransitive(g, u, p[1], p[1..]);
    }
  }

  lemma {:induction false} ConnectedBack(g: Edges, p: seq<Vertex>)
    requires IsPath(g, p)
    ensures Connected(g, p[|p| - 1], p[0])
  {
    var n := |p| - 1;
    if n == 0 {
      ConnectedToSelf(g, p[0]);
    } else {
      ConnectedBack(g, p[..n]);
      ConnectedToSelf(g, p[n]);
      ConnectedStep(g, p[n], p[n], p[n - 1]);
      var q :| PathFrom(g, q, p[n - 1], p[0]);
      ConnectedTransitive(g, p[n], p[n - 1], q);
    }
  }

  lemma ConnectedIsEquivalence(g: Edges, u: Vertex, v: Vertex, w: Vertex)
    requires Connected(g, u, v)
    ensures Connected(g, v, u)
    ensures Connected(g, v, w) <==> Connected(g, u, w)
  {
    var p :| PathFrom(g, p, u, v);
    ConnectedBack(g, p);
    if q :| PathFrom(g, q, v, w) { ConnectedTransitive(g, u, v, q); }
    if q :| PathFrom(g, q, u, w) { ConnectedTransitive(g, v, u, q); }
  }

  /** A set that no edge leaves holds everything connected to any of its members. */
  lemma {:induction false} ClosedHoldsPath(g: Edges, inside: Vertex -> bool, p: seq<Vertex>)
    requires IsPath(g, p) && inside(p[0])
    requires forall u, v | inside(u) && Adjacent(g, u, v) :: inside(v)
    ensures inside(p[|p| - 1])
  {
    if |p| > 1 {
      assert Adjacent(g, p[0], p[1]);
      ClosedHoldsPath(g, inside, p[1..]);
    }
  }

  // Groups

  datatype Group = Group(names: seq<string>, ids: seq<int>)

  ghost predicate AscendingIds(ids: seq<int>) { forall i, j | 0 <= i < j < |ids| :: ids[i] < ids[j] }

  predicate Edged(g: Edges, v: Vertex, w: Vertex) { Adjacent(g, v, w) }

  ghost predicate HasEdge(g: Edges, v: Vertex) { exists w :: Edged(g, v, w) }

  predicate Holds(group: Group, v: Vertex) {
    (v.Name? && v.name in group.names) || (v.Id? && v.id in group.ids)
  }

  /** The group is one whole connected component, in ascending order, and it has an edge. */
  ghost predicate IsGroup(g: Edges, group: Group) {
    && StrictlyAscending(group.names) && AscendingIds(group.ids)
    && group.names != [] && group.ids != []
    && forall v :: Holds(group, v) <==> Connected(g, Name(group.names[0]), v)
  }

  /** All components that have an edge, by their first hostname. */
  ghost predicate IsGrouping(g: Edges, groups: seq<Group>) {
    && (forall k | 0 <= k < |groups| :: IsGroup(g, groups[k]))
    && (forall k, l | 0 <= k < l < |groups| :: Less(groups[k].names[0], groups[l].names[0]))
    && (forall name | HasEdge(g, Name(name)) :: exists k :: 0 <= k < |groups| && name in groups[k].names)
  }

  lemma GroupHasEdge(g: Edges, group: Group)
    requires IsGroup(g, group)
    ensures HasEdge(g, Name(group.names[0]))
  {
    var first := Name(group.names[0]);
    assert Holds(group, Id(group.ids[0]));
    var p :| PathFrom(g, p, first, Id(group.ids[0]));
    assert Edged(g, first, p[1]);
  }

  /** Two groups with a common vertex are the same group. */
  lemma GroupsShareNothing(g: Edges, a: Group, b: Group, v: Vertex)
    requires IsGroup(g, a) && IsGroup(g, b) && Holds(a, v) && Holds(b, v)
    ensures a == b
  {
    var x, y := Name(a.names[0]), Name(b.names[0]);
    forall w ensures Holds(a, w) <==> Holds(b, w) {
      ConnectedIsEquivalence(g, x, v, w);
      ConnectedIsEquivalence(g, y, v, w);
    }
    forall name ensures name in a.names <==> name in b.names {
      assert Holds(a, Name(name)) <==> Holds(b, Name(name));
    }
    AscendingUnique(a.names, b.names);
    forall id ensures id in a.ids <==> id in b.ids {
      assert Holds(a, Id(id)) <==> Holds(b, Id(id));
    }
    AscendingIdsUnique(a.ids, b.ids);
  }

  lemma {:induction false} AscendingIdsUnique(a: seq<int>, b: seq<int>)
    requires AscendingIds(a) && AscendingIds(b)
    requires forall x :: x in a <==> x in b
    ensures a == b
  {
    if a == [] {
      HasMember(b);
    } else {
      assert a[0] in b && b[0] in a;
      forall x ensures x in a[1..] <==> x in b[1..] {
        AscendingIdsTail(a, x);
        AscendingIdsTail(b, x);
      }
      AscendingIdsUnique(a[1..], b[1..]);
    }
  }

  lemma AscendingIdsTail(a: seq<int>, x: int)
    requires a != [] && AscendingIds(a)
    ensures x in a[1..] <==> x in a && x != a[0]
  {
  }

  lemma EdgedNeighbour(g: Edges, v: Vertex, w: Vertex)
    requires Adjacent(g, v, w)
    ensures HasEdge(g, v) && HasEdge(g, w) && Connected(g, v, w) && Connected(g, w, v)
  {
    assert Edged(g, v, w) && Edged(g, w, v);
    ConnectedToSelf(g, v);
    ConnectedStep(g, v, v, w);
    ConnectedToSelf(g, w);
    ConnectedStep(g, w, w, v);
  }

  /** Every hostname and every id with an edge is in exactly one group. */
  lemma InExactlyOneGroup(g: Edges, groups: seq<Group>, v: Vertex)
    requires IsGrouping(g, groups) && HasEdge(g, v)
    ensures exists k | 0 <= k < |groups| :: Holds(groups[k], v)
    ensures forall k, l | 0 <= k < |groups| && 0 <= l < |groups| && Holds(groups[k], v) && Holds(groups[l], v) :: k == l
  {
    var k := GroupOf(g, groups, v);
    forall k, l | 0 <= k < |groups| && 0 <= l < |groups| && Holds(groups[k], v) && Holds(groups[l], v) ensures k == l {
      GroupsShareNothing(g, groups[k], groups[l], v);
      LessIrreflexive(groups[k].names[0]);
    }
  }

  lemma GroupOf(g: Edges, groups: seq<Group>, v: Vertex) returns (k: nat)
    requires IsGrouping(g, groups) && HasEdge(g, v)
    ensures k < |groups| && Holds(groups[k], v)
  {
    var w :| Edged(g, v, w);
    EdgedNeighbour(g, v, w);
    var name := if v.Name? then v else w;
    k :| 0 <= k < |groups| && name.name in groups[k].names;
    assert Holds(groups[k], name);
    if v.Id? { ConnectedIsEquivalence(g, Name(groups[k].names[0]), name, v); }
  }

  ghost function Firsts(groups: seq<Group>): seq<string>
    requires forall k | 0 <= k < |groups| :: groups[k].names != []
  {
    seq(|groups|, k requires 0 <= k < |groups| => groups[k].names[0])
  }

  lemma FirstsOfGrouping(g: Edges, a: seq<Group>, b: seq<Group>, name: string)
    requires IsGrouping(g, a) && IsGrouping(g, b)
    requires name in Firsts(a)
    ensures name in Firsts(b)
  {
    var i :| 0 <= i < |a| && Firsts(a)[i] == name;
    GroupHasEdge(g, a[i]);
    var k :| 0 <= k < |b| && name in b[k].names;
    GroupsShareNothing(g, a[i], b[k], Name(name));
    assert Firsts(b)[k] == name;
  }

  /** The grouping is determined by the edges alone. */
  lemma GroupingIsUnique(g: Edges, a: seq<Group>, b: seq<Group>)
    requires IsGrouping(g, a) && IsGrouping(g, b)
    ensures a == b
  {
    forall name ensures name in Firsts(a) <==> name in Firsts(b) {
      if name in Firsts(a) { FirstsOfGrouping(g, a, b, name); }
      if name in Firsts(b) { FirstsOfGrouping(g, b, a, name); }
    }
    AscendingUnique(Firsts(a), Firsts(b));
    assert |Firsts(a)| == |a| && |Firsts(b)| == |b|;
    forall k | 0 <= k < |a| ensures a[k] == b[k] {
      assert Firsts(a)[k] == Firsts(b)[k];
      GroupsShareNothing(g, a[k], b[k], Name(a[k].names[0]));
    }
  }

  /** A group is a single pair exactly when each of the two is the other's only neighbour. */
  ghost predicate OnlyNeighbours(g: Edges, name: string, id: int) {
    g(name, id) && (forall i | g(name, i) :: i == id) && (forall n | g(n, id) :: n == name)
  }

  lemma PairIsOnlyNeighbours(g: Edges, group: Group, name: string, id: int)
    requires IsGroup(g, group)
    ensures group == Group([name], [id]) <==> name in group.names && OnlyNeighbours(g, name, id)
  {
    if group == Group([name], [id]) {
      GroupHasEdge(g, group);
      var w :| Edged(g, Name(name), w);
      forall i | g(name, i) ensures i == id {
        EdgedNeighbour(g, Name(name), Id(i));
        assert Holds(group, Id(i));
      }
      forall n | g(n, id) ensures n == name {
        EdgedNeighbour(g, Id(id), Name(n));
        assert Holds(group, Id(id));
        ConnectedIsEquivalence(g, Name(name), Id(id), Name(n));
        assert Holds(group, Name(n));
      }
    }
    if name in group.names && OnlyNeighbours(g, name, id) { OnlyNeighboursArePair(g, group, name, id); }
  }

  lemma OnlyNeighboursArePair(g: Edges, group: Group, name: string, id: int)
    requires IsGroup(g, group) && name in group.names && OnlyNeighbours(g, name, id)
    ensures group == Group([name], [id])
  {
    var inside := (v: Vertex) => v == Name(name) || v == Id(id);
    var first := Name(group.names[0]);
    assert Holds(group, Name(name));
    forall v ensures Holds(group, v) <==> inside(v) {
      ConnectedIsEquivalence(g, first, Name(name), v);
      ConnectedToSelf(g, Name(name));
      EdgedNeighbour(g, Name(name), Id(id));
      if p :| PathFrom(g, p, Name(name), v) { ClosedHoldsPath(g, inside, p); }
    }
    forall n ensures n in group.names <==> n in [name] { assert Holds(group, Name(n)) <==> inside(Name(n)); }
    AscendingUnique(group.names, [name]);
    forall i ensures i in group.ids <==> i in [id] { assert Holds(group, Id(i)) <==> inside(Id(i)); }
    AscendingIdsUnique(group.ids, [id]);
  }

  ghost predicate SameEdges(a: Edges, b: Edges) { forall n, i :: a(n, i) <==> b(n, i) }

  lemma SameConnections(a: Edges, b: Edges, u: Vertex, v: Vertex)
    requires SameEdges(a, b) && Connected(a, u, v)
    ensures Connected(b, u, v)
  {
    var p :| PathFrom(a, p, u, v);
    assert PathFrom(b, p, u, v);
  }

  lemma SameGroups(a: Edges, b: Edges, groups: seq<Group>)
    requires SameEdges(a, b) && IsGrouping(a, groups)
    ensures IsGrouping(b, groups)
  {
    forall k | 0 <= k < |groups| ensures IsGroup(b, groups[k]) { SameGroup(a, b, groups[k]); }
    forall name | HasEdge(b, Name(name)) ensures HasEdge(a, Name(name)) {
      var w :| Edged(b, Name(name), w);
      assert Edged(a, Name(name), w);
    }
  }

  lemma SameGroup(a: Edges, b: Edges, group: Group)
    requires SameEdges(a, b) && IsGroup(a, group)
    ensures IsGroup(b, group)
  {
    var first := Name(group.names[0]);
    forall v ensures Holds(group, v) <==> Connected(b, first, v) {
      if Connected(a, first, v) { SameConnections(a, b, first, v); }
      if Connected(b, first, v) { SameConnections(b, a, first, v); }
    }
  }
}
