/** Hostname suggestions: the alternating search that splits the match graph into groups. */
module HostnameSuggestions {
  import opened Common
  import opened Ordering
  import opened HostnameLabels
  import opened HostnameGraph

  // Searching one group

  /** One half of the search: vertices visited so far, those of the current group, and the queue. */
  datatype Side<T(==)> = Side(visited: set<T>, found: seq<T>, queue: seq<T>)

  /** The current group is what was newly visited, and all of it, queue included, is reachable. */
  ghost predicate SideOk<T(!new)>(s: Side<T>, before: set<T>, reach: T -> bool, keys: set<T>) {
    && before <= s.visited <= keys
    && Distinct(s.found)
    && (forall x :: x in s.found <==> x in s.visited && x !in before)
    && (forall x | x in s.found :: reach(x))
    && (forall x | x in s.queue :: reach(x) && x in keys)
  }

  /** Every neighbour of a found vertex is visited or queued. */
  ghost predicate Pending<A(!new), B(!new)>(edges: map<A, set<B>>, a: Side<A>, b: Side<B>) {
    forall x, y | x in a.found && x in edges && y in edges[x] :: y in b.visited || y in b.queue
  }

  /** A vertex of either side is reachable whenever one of its neighbours is. */
  ghost predicate Spreads<A(!new), B(!new)>(edges: map<A, set<B>>, back: map<B, set<A>>, reachA: A -> bool,
                                            reachB: B -> bool) {
    forall x, y | x in edges && y in edges[x] :: y in back && x in back[y] && (reachA(x) ==> reachB(y))
  }

  function Unvisited<A, B>(edges: map<A, set<B>>, a: Side<A>): nat { |edges.Keys - a.visited| }

  /** The vertices of `order` that are not visited yet join the queue. */
  method Enqueue<B(==)>(b: Side<B>, neighbours: set<B>) returns (r: Side<B>)
    ensures r.visited == b.visited && r.found == b.found
    ensures forall y :: y in r.queue <==> y in b.queue || (y in neighbours && y !in b.visited)
  {
    var order := Ordering.RangeOver(neighbours);
    r := b;
    for k := 0 to |order|
      invariant r.visited == b.visited && r.found == b.found
      invariant forall y :: y in r.queue <==> y in b.queue || (y in order[..k] && y !in b.visited)
    {
      assert order[..k + 1] == order[..k] + [order[k]];
      if order[k] !in r.visited { r := r.(queue := r.queue + [order[k]]); }
    }
    assert order[..|order|] == order;
  }

  /** The inner loop: empty one queue, filling the other. */
  method Drain<A(==, !new), B(==, !new)>(edges: map<A, set<B>>, back: map<B, set<A>>, a0: Side<A>, b0: Side<B>,
      ghost beforeA: set<A>, ghost beforeB: set<B>, ghost reachA: A -> bool, ghost reachB: B -> bool)
      returns (a: Side<A>, b: Side<B>)
    requires Spreads(edges, back, reachA, reachB)
    requires SideOk(a0, beforeA, reachA, edges.Keys) && SideOk(b0, beforeB, reachB, back.Keys)
    requires Pending(edges, a0, b0) && Pending(back, b0, a0)
    ensures SideOk(a, beforeA, reachA, edges.Keys) && SideOk(b, beforeB, reachB, back.Keys)
    ensures Pending(edges, a, b) && Pending(back, b, a)
    ensures a.queue == [] && b.visited == b0.visited && b.found == b0.found
    ensures forall x | x in a0.queue || x in a0.visited :: x in a.visited
    ensures a0.queue == [] ==> a == a0 && b == b0
    ensures Unvisited(edges, a) < Unvisited(edges, a0)
         || (Unvisited(edges, a) == Unvisited(edges, a0) && b.queue == b0.queue)
  {
    hide SideOk, Pending, Spreads;
    a, b := a0, b0;
    while |a.queue| > 0
      invariant SideOk(a, beforeA, reachA, edges.Keys) && SideOk(b, beforeB, reachB, back.Keys)
      invariant Pending(edges, a, b) && Pending(back, b, a)
      invariant b.visited == b0.visited && b.found == b0.found
      invariant forall x | x in a0.queue || x in a0.visited :: x in a.visited || x in a.queue
      invariant a0.queue == [] ==> a == a0 && b == b0
      invariant Unvisited(edges, a) < Unvisited(edges, a0)
             || (Unvisited(edges, a) == Unvisited(edges, a0) && b.queue == b0.queue)
      decreases Unvisited(edges, a), |a.queue|
    {
      var x := a.queue[0];
      assert a.queue == [x] + a.queue[1..];
      ghost var was := a;
      a := a.(queue := a.queue[1..]);
      if x in a.visited {
        SkipKeeps(edges, back, was, b, beforeA, reachA);
        continue;
      }
      InQueue(was, beforeA, reachA, edges.Keys);
      a := a.(visited := a.visited + {x}, found := a.found + [x]);
      VisitedOneMore(edges, was, a, x);
      ghost var b1 := b;
      b := Enqueue(b, edges[x]);
      VisitKeeps(edges, back, was, b1, a, b, beforeA, beforeB, reachA, reachB);
    }
  }

  lemma InQueue<A(!new)>(a: Side<A>, before: set<A>, reach: A -> bool, keys: set<A>)
    requires SideOk(a, before, reach, keys) && a.queue != []
    ensures a.queue[0] in keys
  {
  }

  /** Dropping a visited vertex from the front of the queue. */
  lemma SkipKeeps<A(!new), B(!new)>(edges: map<A, set<B>>, back: map<B, set<A>>, a: Side<A>, b: Side<B>, before: set<A>,
                                    reach: A -> bool)
    requires SideOk(a, before, reach, edges.Keys) && Pending(edges, a, b) && Pending(back, b, a)
    requires a.queue != [] && a.queue[0] in a.visited
    ensures var r := a.(queue := a.queue[1..]);
            SideOk(r, before, reach, edges.Keys) && Pending(edges, r, b) && Pending(back, b, r)
  {
    assert a.queue == [a.queue[0]] + a.queue[1..];
  }

  /** Visiting the front of the queue, whose unvisited neighbours then wait on the other side. */
  lemma VisitKeeps<A(!new), B(!new)>(edges: map<A, set<B>>, back: map<B, set<A>>, a: Side<A>, b: Side<B>, r: Side<A>,
                                     s: Side<B>, beforeA: set<A>, beforeB: set<B>, reachA: A -> bool, reachB: B -> bool)
    requires Spreads(edges, back, reachA, reachB)
    requires SideOk(a, beforeA, reachA, edges.Keys) && SideOk(b, beforeB, reachB, back.Keys)
    requires Pending(edges, a, b) && Pending(back, b, a)
    requires a.queue != [] && a.queue[0] !in a.visited && a.queue[0] in edges
    requires r == Side(a.visited + {a.queue[0]}, a.found + [a.queue[0]], a.queue[1..])
    requires s.visited == b.visited && s.found == b.found
    requires forall y :: y in s.queue <==> y in b.queue || (y in edges[a.queue[0]] && y !in b.visited)
    ensures SideOk(r, beforeA, reachA, edges.Keys) && SideOk(s, beforeB, reachB, back.Keys)
    ensures Pending(edges, r, s) && Pending(back, s, r)
  {
    var x := a.queue[0];
    assert a.queue == [x] + a.queue[1..];
    assert reachA(x);
    VisitKeepsSide(a, beforeA, reachA, edges.Keys);
    forall y | y in s.queue ensures reachB(y) && y in back.Keys {
      if y !in b.queue { assert y in edges[x]; }
    }
  }

  lemma VisitKeepsSide<A(!new)>(a: Side<A>, before: set<A>, reach: A -> bool, keys: set<A>)
    requires SideOk(a, before, reach, keys) && a.queue != [] && a.queue[0] !in a.visited
    ensures SideOk(Side(a.visited + {a.queue[0]}, a.found + [a.queue[0]], a.queue[1..]), before, reach, keys)
  {
    assert a.queue == [a.queue[0]] + a.queue[1..];
  }

  lemma VisitedOneMore<A, B>(edges: map<A, set<B>>, was: Side<A>, a: Side<A>, x: A)
    requires x in edges && x !in was.visited && a.visited == was.visited + {x}
    ensures Unvisited(edges, a) < Unvisited(edges, was)
  {
    assert edges.Keys - was.visited == (edges.Keys - a.visited) + {x};
  }

  // The match graph as two maps

  ghost predicate Represents(hostEdges: map<string, set<int>>, idEdges: map<int, set<string>>, g: Edges) {
    && (forall n, i :: g(n, i) <==> n in hostEdges && i in hostEdges[n])
    && (forall n, i :: g(n, i) <==> i in idEdges && n in idEdges[i])
    && (forall n | n in hostEdges :: hostEdges[n] != {})
    && (forall i | i in idEdges :: idEdges[i] != {})
  }

  /** No edge joins a visited vertex to an unvisited one. */
  ghost predicate Closed(g: Edges, names: set<string>, ids: set<int>) {
    forall n, i | g(n, i) :: n in names <==> i in ids
  }

  ghost function NamesFrom(g: Edges, start: string): string -> bool { n => Connected(g, Name(start), Name(n)) }

  ghost function IdsFrom(g: Edges, start: string): int -> bool { i => Connected(g, Name(start), Id(i)) }

  ghost function Inside(names: seq<string>, ids: seq<int>): Vertex -> bool { v => Holds(Group(names, ids), v) }

  lemma ReachSpreads(g: Edges, hostEdges: map<string, set<int>>, idEdges: map<int, set<string>>, start: string)
    requires Represents(hostEdges, idEdges, g)
    ensures Spreads(hostEdges, idEdges, NamesFrom(g, start), IdsFrom(g, start))
    ensures Spreads(idEdges, hostEdges, IdsFrom(g, start), NamesFrom(g, start))
  {
    var names, ids := NamesFrom(g, start), IdsFrom(g, start);
    forall n, i | g(n, i) ensures names(n) <==> ids(i) {
      if names(n) { ConnectedStep(g, Name(start), Name(n), Id(i)); }
      if ids(i) { ConnectedStep(g, Name(start), Id(i), Name(n)); }
    }
  }

  /** The state of a search whose queues are empty. */
  ghost predicate Finished(g: Edges, hostEdges: map<string, set<int>>, idEdges: map<int, set<string>>, start: string,
                           a: Side<string>, b: Side<int>, beforeA: set<string>, beforeB: set<int>) {
    && Represents(hostEdges, idEdges, g) && Closed(g, beforeA, beforeB)
    && SideOk(a, beforeA, NamesFrom(g, start), hostEdges.Keys) && SideOk(b, beforeB, IdsFrom(g, start), idEdges.Keys)
    && Pending(hostEdges, a, b) && Pending(idEdges, b, a)
    && a.queue == [] && b.queue == [] && start in a.found
  }

  /** No edge leads out of what it found, or out of what it visited. */
  lemma FoundIsClosed(g: Edges, hostEdges: map<string, set<int>>, idEdges: map<int, set<string>>, start: string,
                      a: Side<string>, b: Side<int>, beforeA: set<string>, beforeB: set<int>)
    requires Finished(g, hostEdges, idEdges, start, a, b, beforeA, beforeB)
    ensures forall n, i | g(n, i) :: n in a.found <==> i in b.found
    ensures Closed(g, a.visited, b.visited)
  {
  }

  lemma FoundIsReached(g: Edges, hostEdges: map<string, set<int>>, idEdges: map<int, set<string>>, start: string,
                       a: Side<string>, b: Side<int>, beforeA: set<string>, beforeB: set<int>)
    requires Finished(g, hostEdges, idEdges, start, a, b, beforeA, beforeB)
    ensures forall n | n in a.found :: Connected(g, Name(start), Name(n))
    ensures forall i | i in b.found :: Connected(g, Name(start), Id(i))
  {
    hide Represents, Closed, Pending, Connected;
    forall n | n in a.found ensures Connected(g, Name(start), Name(n)) { assert NamesFrom(g, start)(n); }
    forall i | i in b.found ensures Connected(g, Name(start), Id(i)) { assert IdsFrom(g, start)(i); }
  }

  /** A finished search found exactly what is connected to its start. */
  lemma SearchIsComplete(g: Edges, hostEdges: map<string, set<int>>, idEdges: map<int, set<string>>, start: string,
                         a: Side<string>, b: Side<int>, beforeA: set<string>, beforeB: set<int>)
    requires Finished(g, hostEdges, idEdges, start, a, b, beforeA, beforeB)
    ensures forall v :: Holds(Group(a.found, b.found), v) <==> Connected(g, Name(start), v)
    ensures Closed(g, a.visited, b.visited)
  {
    FoundIsClosed(g, hostEdges, idEdges, start, a, b, beforeA, beforeB);
    FoundIsReached(g, hostEdges, idEdges, start, a, b, beforeA, beforeB);
    assert start in a.found;
    hide Finished, Closed;
    var inside := Inside(a.found, b.found);
    forall v ensures inside(v) <==> Connected(g, Name(start), v) {
      if p :| PathFrom(g, p, Name(start), v) { ClosedHoldsPath(g, inside, p); }
    }
    assert forall v :: inside(v) <==> Holds(Group(a.found, b.found), v);
  }

  /** The two-queue search from one unvisited hostname. */
  method Explore(hostEdges: map<string, set<int>>, idEdges: map<int, set<string>>, start: string,
                 visitedNames: set<string>, visitedIds: set<int>, ghost g: Edges)
      returns (a: Side<string>, b: Side<int>)
    requires Represents(hostEdges, idEdges, g) && Closed(g, visitedNames, visitedIds)
    requires visitedNames <= hostEdges.Keys && visitedIds <= idEdges.Keys
    requires start in hostEdges && start !in visitedNames
    ensures forall v :: Holds(Group(a.found, b.found), v) <==> Connected(g, Name(start), v)
    ensures Closed(g, a.visited, b.visited) && a.visited <= hostEdges.Keys && b.visited <= idEdges.Keys
    ensures Distinct(a.found) && Distinct(b.found)
    ensures forall n :: n in a.found <==> n in a.visited && n !in visitedNames
    ensures visitedNames <= a.visited
  {
    hide SideOk, Pending, Spreads, Represents, Closed, NamesFrom, IdsFrom, Connected;
    ghost var names, ids := NamesFrom(g, start), IdsFrom(g, start);
    ReachSpreads(g, hostEdges, idEdges, start);
    a, b := Side(visitedNames, [], [start]), Side(visitedIds, [], []);
    SearchBegins(g, hostEdges, idEdges, start, visitedNames, visitedIds);
    while |a.queue| > 0 || |b.queue| > 0
      invariant SideOk(a, visitedNames, names, hostEdges.Keys) && SideOk(b, visitedIds, ids, idEdges.Keys)
      invariant Pending(hostEdges, a, b) && Pending(idEdges, b, a)
      invariant start in a.queue || start in a.visited
      decreases Unvisited(hostEdges, a) + Unvisited(idEdges, b), |a.queue| + |b.queue|
    {
      a, b := Drain(hostEdges, idEdges, a, b, visitedNames, visitedIds, names, ids);
      b, a := Drain(idEdges, hostEdges, b, a, visitedIds, visitedNames, ids, names);
    }
    StartIsFound(a, visitedNames, names, hostEdges.Keys, start);
    SearchIsComplete(g, hostEdges, idEdges, start, a, b, visitedNames, visitedIds);
    FoundIsNew(a, visitedNames, names, hostEdges.Keys);
    FoundIsNew(b, visitedIds, ids, idEdges.Keys);
  }

  lemma SearchBegins(g: Edges, hostEdges: map<string, set<int>>, idEdges: map<int, set<string>>, start: string,
                     visitedNames: set<string>, visitedIds: set<int>)
    requires visitedNames <= hostEdges.Keys && visitedIds <= idEdges.Keys && start in hostEdges
    ensures var a, b := Side(visitedNames, [], [start]), Side(visitedIds, [], []);
            && SideOk(a, visitedNames, NamesFrom(g, start), hostEdges.Keys)
            && SideOk(b, visitedIds, IdsFrom(g, start), idEdges.Keys)
            && Pending(hostEdges, a, b) && Pending(idEdges, b, a)
  {
    ConnectedToSelf(g, Name(start));
  }

  lemma StartIsFound<A(!new)>(a: Side<A>, before: set<A>, reach: A -> bool, keys: set<A>, start: A)
    requires SideOk(a, before, reach, keys) && start in a.visited && start !in before
    ensures start in a.found
  {
  }

  lemma FoundIsNew<A(!new)>(a: Side<A>, before: set<A>, reach: A -> bool, keys: set<A>)
    requires SideOk(a, before, reach, keys)
    ensures Distinct(a.found) && before <= a.visited <= keys
    ensures forall x :: x in a.found <==> x in a.visited && x !in before
  {
  }

  // Building the graph

  const MAX_EDGES := 16384

  function SumOf<T>(s: seq<T>, f: T -> nat): nat {
    if s == [] then 0 else SumOf(s[..|s| - 1], f) + f(s[|s| - 1])
  }

  lemma SumAppend<T>(s: seq<T>, x: T, f: T -> nat)
    ensures SumOf(s + [x], f) == SumOf(s, f) + f(x)
  {
    assert (s + [x])[..|s|] == s;
  }

  function LinkTo(c: Candidate): EligibleHost -> nat { h => if Joins(c, h) then 1 else 0 }

  function LinkCount(hosts: seq<EligibleHost>): Candidate -> nat { c => SumOf(hosts, LinkTo(c)) }

  /** How many pairs of a candidate and a host match. */
  function EdgeCount(candidates: seq<Candidate>, hosts: seq<EligibleHost>): nat { SumOf(candidates, LinkCount(hosts)) }

  method MatchesAnySuffix(c: Candidate, h: EligibleHost) returns (matched: bool)
    ensures matched <==> Joins(c, h)
  {
    for k := 0 to |h.suffixes|
      invariant forall j | 0 <= j < k :: !MatchesSuffix(c.hostname, h.suffixes[j])
    {
      if MatchesSuffix(c.hostname, h.suffixes[k]) { return true; }
    }
    return false;
  }

  ghost function With(g: Edges, name: string, id: int): Edges { (n, i) => g(n, i) || (n == name && i == id) }

  method Link(hostEdges0: map<string, set<int>>, idEdges0: map<int, set<string>>, name: string, id: int, ghost g: Edges)
      returns (hostEdges: map<string, set<int>>, idEdges: map<int, set<string>>)
    requires Represents(hostEdges0, idEdges0, g)
    ensures Represents(hostEdges, idEdges, With(g, name, id))
  {
    hostEdges, idEdges := hostEdges0, idEdges0;
    if name !in hostEdges { hostEdges := hostEdges[name := {}]; }
    if id !in idEdges { idEdges := idEdges[id := {}]; }
    hostEdges := hostEdges[name := hostEdges[name] + {id}];
    idEdges := idEdges[id := idEdges[id] + {name}];
  }

  ghost function Joined(a: Edges, b: Edges): Edges { (n, i) => a(n, i) || b(n, i) }

  lemma EdgesAppend(candidates: seq<Candidate>, c: Candidate, hosts: seq<EligibleHost>)
    ensures SameEdges(EdgesOf(candidates + [c], hosts), Joined(EdgesOf(candidates, hosts), EdgesOf([c], hosts)))
  {
  }

  lemma HostAppend(c: Candidate, hosts: seq<EligibleHost>, h: EligibleHost)
    ensures SameEdges(EdgesOf([c], hosts + [h]), if Joins(c, h) then With(EdgesOf([c], hosts), c.hostname, h.id)
                      else EdgesOf([c], hosts))
  {
  }

  lemma RepresentsSame(hostEdges: map<string, set<int>>, idEdges: map<int, set<string>>, a: Edges, b: Edges)
    requires Represents(hostEdges, idEdges, a) && SameEdges(a, b)
    ensures Represents(hostEdges, idEdges, b)
  {
  }

  /** The loop over hosts for one candidate; None when the bound is passed. */
  method LinkCandidate(hostEdges0: map<string, set<int>>, idEdges0: map<int, set<string>>, count: nat, c: Candidate,
                       hosts: seq<EligibleHost>, ghost g: Edges)
      returns (r: Option<nat>, hostEdges: map<string, set<int>>, idEdges: map<int, set<string>>)
    requires Represents(hostEdges0, idEdges0, g) && count <= MAX_EDGES
    ensures r == if count + LinkCount(hosts)(c) > MAX_EDGES then None else Some(count + LinkCount(hosts)(c))
    ensures r.Some? ==> Represents(hostEdges, idEdges, Joined(g, EdgesOf([c], hosts)))
  {
    hostEdges, idEdges := hostEdges0, idEdges0;
    var total := count;
    RepresentsSame(hostEdges, idEdges, g, Joined(g, EdgesOf([c], hosts[..0])));
    for k := 0 to |hosts|
      invariant total == count + SumOf(hosts[..k], LinkTo(c)) <= MAX_EDGES
      invariant Represents(hostEdges, idEdges, Joined(g, EdgesOf([c], hosts[..k])))
    {
      var h := hosts[k];
      ghost var was := Joined(g, EdgesOf([c], hosts[..k]));
      ghost var now := Joined(g, EdgesOf([c], hosts[..k + 1]));
      assert hosts[..k + 1] == hosts[..k] + [h];
      SumAppend(hosts[..k], h, LinkTo(c));
      HostAppend(c, hosts[..k], h);
      var matched := MatchesAnySuffix(c, h);
      if !matched {
        RepresentsSame(hostEdges, idEdges, was, now);
        continue;
      }
      total := total + 1;
      if total > MAX_EDGES {
        SumGrows(hosts, k + 1, LinkTo(c));
        return None, hostEdges, idEdges;
      }
      hostEdges, idEdges := Link(hostEdges, idEdges, c.hostname, h.id, was);
      RepresentsSame(hostEdges, idEdges, With(was, c.hostname, h.id), now);
    }
    assert hosts[..|hosts|] == hosts;
    r := Some(total);
  }

  lemma {:induction false} SumGrows<T>(s: seq<T>, k: nat, f: T -> nat)
    requires k <= |s|
    ensures SumOf(s[..k], f) <= SumOf(s, f)
  {
    if k == |s| {
      assert s[..k] == s;
    } else {
      SumGrows(s[..|s| - 1], k, f);
      assert s[..|s| - 1][..k] == s[..k];
    }
  }

  /** candidateByHostname: the last candidate of that name, and nothing anyone looks up otherwise. */
  function Named(candidates: seq<Candidate>): string -> Candidate { name => LastNamed(candidates, name) }

  function LastNamed(candidates: seq<Candidate>, name: string): (c: Candidate)
    ensures c.hostname == name
    ensures (exists x | x in candidates :: x.hostname == name) ==> c in candidates
  {
    if candidates == [] then Candidate(name, ControlPlane)
    else if candidates[|candidates| - 1].hostname == name then candidates[|candidates| - 1]
    else LastNamed(candidates[..|candidates| - 1], name)
  }

  ghost predicate Indexes(byHostname: map<string, Candidate>, candidates: seq<Candidate>) {
    forall c | c in candidates ::
        c.hostname in byHostname && byHostname[c.hostname] == LastNamed(candidates, c.hostname)
  }

  method BuildGraph(candidates: seq<Candidate>, hosts: seq<EligibleHost>)
      returns (ok: bool, hostEdges: map<string, set<int>>, idEdges: map<int, set<string>>,
               byHostname: map<string, Candidate>)
    ensures ok <==> EdgeCount(candidates, hosts) <= MAX_EDGES
    ensures ok ==> Represents(hostEdges, idEdges, EdgesOf(candidates, hosts)) && Indexes(byHostname, candidates)
  {
    hostEdges, idEdges, byHostname := map[], map[], map[];
    var count := 0;
    for k := 0 to |candidates|
      invariant count == EdgeCount(candidates[..k], hosts) <= MAX_EDGES
      invariant Represents(hostEdges, idEdges, EdgesOf(candidates[..k], hosts))
      invariant Indexes(byHostname, candidates[..k])
    {
      var c := candidates[k];
      assert candidates[..k + 1] == candidates[..k] + [c];
      SumAppend(candidates[..k], c, LinkCount(hosts));
      EdgesAppend(candidates[..k], c, hosts);
      IndexAppend(byHostname, candidates[..k], c);
      byHostname := byHostname[c.hostname := c];
      ghost var was := EdgesOf(candidates[..k], hosts);
      var linked: Option<nat>;
      linked, hostEdges, idEdges := LinkCandidate(hostEdges, idEdges, count, c, hosts, was);
      if linked.None? {
        SumGrows(candidates, k + 1, LinkCount(hosts));
        return false, hostEdges, idEdges, byHostname;
      }
      count := linked.value;
      RepresentsSame(hostEdges, idEdges, Joined(was, EdgesOf([c], hosts)), EdgesOf(candidates[..k + 1], hosts));
    }
    assert candidates[..|candidates|] == candidates;
    ok := true;
  }

  lemma IndexAppend(byHostname: map<string, Candidate>, candidates: seq<Candidate>, c: Candidate)
    requires Indexes(byHostname, candidates)
    ensures Indexes(byHostname[c.hostname := c], candidates + [c])
  {
    assert (candidates + [c])[..|candidates|] == candidates;
  }

  // Grouping

  datatype Suggestion = Suggestion(id: int, hostname: string, source: Source)

  datatype Ambiguity = Ambiguity(ids: seq<int>, candidates: seq<Candidate>)

  predicate IsPair(group: Group) { |group.names| == 1 && |group.ids| == 1 }

  function SuggestionFor(group: Group, lookup: string -> Candidate): Suggestion
    requires IsPair(group)
  {
    var c := lookup(group.names[0]);
    Suggestion(group.ids[0], c.hostname, c.source)
  }

  function AmbiguityFor(group: Group, lookup: string -> Candidate): Ambiguity {
    Ambiguity(group.ids, seq(|group.names|, k requires 0 <= k < |group.names| => lookup(group.names[k])))
  }

  /** The single pairs among the groups, and the others, each in group order. */
  function Pairs(groups: seq<Group>, lookup: string -> Candidate): seq<Suggestion> {
    if groups == [] then []
    else
      var last := groups[|groups| - 1];
      Pairs(groups[..|groups| - 1], lookup) + (if IsPair(last) then [SuggestionFor(last, lookup)] else [])
  }

  function Rest(groups: seq<Group>, lookup: string -> Candidate): seq<Ambiguity> {
    if groups == [] then []
    else
      var last := groups[|groups| - 1];
      Rest(groups[..|groups| - 1], lookup) + (if IsPair(last) then [] else [AmbiguityFor(last, lookup)])
  }

  lemma OutputAppend(groups: seq<Group>, group: Group, lookup: string -> Candidate)
    ensures Pairs(groups + [group], lookup)
        == Pairs(groups, lookup) + (if IsPair(group) then [SuggestionFor(group, lookup)] else [])
    ensures Rest(groups + [group], lookup)
        == Rest(groups, lookup) + (if IsPair(group) then [] else [AmbiguityFor(group, lookup)])
  {
    assert (groups + [group])[..|groups|] == groups;
  }

  ghost function GroupTest(g: Edges): Group -> bool { group => IsGroup(g, group) }

  function FirstName(group: Group): string { if group.names == [] then "" else group.names[0] }

  /** The groups found once every start before index k is visited. */
  ghost predicate GroupedUpTo(isGroup: Group -> bool, groups: seq<Group>, starts: seq<string>, k: nat,
                              visited: set<string>)
    requires k <= |starts|
  {
    && (forall j | 0 <= j < |groups| :: isGroup(groups[j]) && FirstName(groups[j]) in starts[..k])
    && (forall i, j | 0 <= i < j < |groups| :: Less(FirstName(groups[i]), FirstName(groups[j])))
    && visited == AllNames(groups)
    && (forall name | name in starts[..k] :: name in visited)
  }

  ghost function AllNames(groups: seq<Group>): set<string> {
    if groups == [] then {} else AllNames(groups[..|groups| - 1]) + NameSet(groups[|groups| - 1])
  }

  ghost function NameSet(group: Group): set<string> { set n | n in group.names }

  lemma {:induction false} AllNamesMeaning(groups: seq<Group>, name: string)
    requires name in AllNames(groups)
    ensures exists j :: 0 <= j < |groups| && name in groups[j].names
  {
    var last := |groups| - 1;
    if name !in groups[last].names {
      AllNamesMeaning(groups[..last], name);
      var j :| 0 <= j < last && name in groups[..last][j].names;
      assert name in groups[j].names;
    }
  }

  lemma StartIsFirst(names: seq<string>, start: string, starts: seq<string>, k: nat)
    requires StrictlyAscending(names) && StrictlyAscending(starts)
    requires k < |starts| && starts[k] == start && start in names
    requires forall n | n in names :: n in starts && n !in starts[..k]
    ensures names[0] == start
  {
    var i :| 0 <= i < |names| && names[i] == start;
    assert names[0] in names;
    assert names[0] in starts[k..] by { assert starts == starts[..k] + starts[k..]; }
    var j :| 0 <= j < |starts| - k && starts[k..][j] == names[0];
    assert starts[k + j] == names[0];
    LessIrreflexive(start);
    if j > 0 && i > 0 { LessTransitive(start, names[0], start); }
  }

  lemma GroupFound(g: Edges, found: Group, group: Group, start: string)
    requires forall v :: Holds(found, v) <==> Connected(g, Name(start), v)
    requires StrictlyAscending(group.names) && AscendingIds(group.ids)
    requires forall n :: n in group.names <==> n in found.names
    requires forall i :: i in group.ids <==> i in found.ids
    requires group.names != [] && group.names[0] == start && HasEdge(g, Name(start))
    ensures IsGroup(g, group)
  {
    forall v ensures Holds(group, v) <==> Connected(g, Name(start), v) { assert Holds(group, v) <==> Holds(found, v); }
    var w :| Edged(g, Name(start), w);
    EdgedNeighbour(g, Name(start), w);
    assert Holds(found, w);
  }

  lemma GroupAppend(isGroup: Group -> bool, groups: seq<Group>, starts: seq<string>, k: nat, before: set<string>,
                    after: set<string>, group: Group)
    requires k < |starts| && StrictlyAscending(starts)
    requires GroupedUpTo(isGroup, groups, starts, k, before)
    requires isGroup(group) && FirstName(group) == starts[k]
    requires forall n :: n in after <==> n in before || n in group.names
    requires starts[k] in after
    ensures GroupedUpTo(isGroup, groups + [group], starts, k + 1, after)
  {
    assert starts[..k + 1] == starts[..k] + [starts[k]];
    var more := groups + [group];
    assert more[|groups|] == group;
    assert forall j | 0 <= j < |groups| :: more[j] == groups[j];
    forall i, j | 0 <= i < j < |more| ensures Less(FirstName(more[i]), FirstName(more[j])) {
      if j == |groups| {
        assert FirstName(more[i]) in starts[..k];
        var m :| 0 <= m < k && starts[m] == FirstName(more[i]);
      }
    }
    assert more[..|groups|] == groups;
  }

  lemma VisitedStart(isGroup: Group -> bool, groups: seq<Group>, starts: seq<string>, k: nat, visited: set<string>)
    requires k < |starts| && GroupedUpTo(isGroup, groups, starts, k, visited) && starts[k] in visited
    ensures GroupedUpTo(isGroup, groups, starts, k + 1, visited)
  {
    assert starts[..k + 1] == starts[..k] + [starts[k]];
  }

  lemma SortedIdsAscend(ids: seq<int>, sorted: seq<int>)
    requires Distinct(ids) && SortedBy(sorted, IntLess) && multiset(sorted) == multiset(ids)
    ensures AscendingIds(sorted)
    ensures forall i :: i in sorted <==> i in ids
  {
    forall i ensures i in sorted <==> i in ids { assert i in multiset(sorted) <==> i in multiset(ids); }
    DistinctMultiset(ids);
    forall i, j | 0 <= i < j < |sorted| ensures sorted[i] < sorted[j] {
      assert !IntLess(sorted[j], sorted[i]);
      assert sorted[i] in ids;
      if sorted[i] == sorted[j] { TwoCopies(sorted, i, j); }
    }
  }

  /** One group in ascending order. */
  method SortGroup(names: seq<string>, ids: seq<int>) returns (group: Group)
    requires Distinct(names) && Distinct(ids)
    ensures StrictlyAscending(group.names) && AscendingIds(group.ids)
    ensures forall n :: n in group.names <==> n in names
    ensures forall i :: i in group.ids <==> i in ids
  {
    LessForSorting();
    var sortedNames := SortSlice(names, Less);
    SortedIsAscending(names, sortedNames);
    var sortedIds := SortSlice(ids, IntLess);
    SortedIdsAscend(ids, sortedIds);
    group := Group(sortedNames, sortedIds);
  }

  method AmbiguousCandidates(names: seq<string>, byHostname: map<string, Candidate>, ghost lookup: string -> Candidate)
      returns (r: seq<Candidate>)
    requires forall n | n in names :: n in byHostname && byHostname[n] == lookup(n)
    ensures r == seq(|names|, k requires 0 <= k < |names| => lookup(names[k]))
  {
    r := [];
    for k := 0 to |names|
      invariant |r| == k && forall j | 0 <= j < k :: r[j] == lookup(names[j])
    {
      assert names[k] in names;
      r := r + [byHostname[names[k]]];
    }
  }

  lemma AllGrouped(g: Edges, hostEdges: map<string, set<int>>, idEdges: map<int, set<string>>, groups: seq<Group>,
                   starts: seq<string>, visited: set<string>)
    requires Represents(hostEdges, idEdges, g) && (forall n | n in hostEdges :: n in starts)
    requires GroupedUpTo(GroupTest(g), groups, starts, |starts|, visited)
    ensures IsGrouping(g, groups)
  {
    assert starts[..|starts|] == starts;
    forall k | 0 <= k < |groups| ensures IsGroup(g, groups[k]) { assert GroupTest(g)(groups[k]); }
    forall name | HasEdge(g, Name(name)) ensures exists k :: 0 <= k < |groups| && name in groups[k].names {
      var w :| Edged(g, Name(name), w);
      assert name in hostEdges;
      AllNamesMeaning(groups, name);
    }
    forall i, j | 0 <= i < j < |groups| ensures Less(groups[i].names[0], groups[j].names[0]) {
      assert Less(FirstName(groups[i]), FirstName(groups[j]));
    }
  }

  /** What the loop body reports about one group. */
  method Emit(group: Group, byHostname: map<string, Candidate>, suggestions0: seq<Suggestion>,
              ambiguities0: seq<Ambiguity>, ghost groups: seq<Group>, ghost lookup: string -> Candidate)
      returns (suggestions: seq<Suggestion>, ambiguities: seq<Ambiguity>)
    requires suggestions0 == Pairs(groups, lookup) && ambiguities0 == Rest(groups, lookup)
    requires forall n | n in group.names :: n in byHostname && byHostname[n] == lookup(n)
    ensures suggestions == Pairs(groups + [group], lookup) && ambiguities == Rest(groups + [group], lookup)
  {
    suggestions, ambiguities := suggestions0, ambiguities0;
    OutputAppend(groups, group, lookup);
    assert suggestions + [] == suggestions && ambiguities + [] == ambiguities;
    if |group.names| == 1 && |group.ids| == 1 {
      assert group.names[0] in group.names;
      var candidate := byHostname[group.names[0]];
      suggestions := suggestions + [Suggestion(group.ids[0], candidate.hostname, candidate.source)];
      return;
    }
    var candidates := AmbiguousCandidates(group.names, byHostname, lookup);
    assert candidates == AmbiguityFor(group, lookup).candidates;
    ambiguities := ambiguities + [Ambiguity(group.ids, candidates)];
  }

  /** The loop over the sorted hostnames. */
  method CollectGroups(hostEdges: map<string, set<int>>, idEdges: map<int, set<string>>,
                       byHostname: map<string, Candidate>, ghost g: Edges, ghost lookup: string -> Candidate)
      returns (suggestions: seq<Suggestion>, ambiguities: seq<Ambiguity>)
    requires Represents(hostEdges, idEdges, g)
    requires forall n | n in hostEdges :: n in byHostname && byHostname[n] == lookup(n)
    ensures exists groups | IsGrouping(g, groups) ::
              suggestions == Pairs(groups, lookup) && ambiguities == Rest(groups, lookup)
  {
    ghost var groups: seq<Group>;
    var keys := RangeOver(hostEdges.Keys);
    LessForSorting();
    var starts := SortSlice(keys, Less);
    SortedIsAscending(keys, starts);
    var visitedNames: set<string>, visitedIds: set<int> := {}, {};
    suggestions, ambiguities, groups := [], [], [];
    for k := 0 to |starts|
      invariant visitedNames <= hostEdges.Keys && visitedIds <= idEdges.Keys && Closed(g, visitedNames, visitedIds)
      invariant GroupedUpTo(GroupTest(g), groups, starts, k, visitedNames)
      invariant suggestions == Pairs(groups, lookup) && ambiguities == Rest(groups, lookup)
    {
      var start := starts[k];
      if start in visitedNames {
        VisitedStart(GroupTest(g), groups, starts, k, visitedNames);
        continue;
      }
      assert start in starts;
      var group;
      group, visitedNames, visitedIds := NextGroup(hostEdges, idEdges, starts, k, visitedNames, visitedIds, groups, g);
      suggestions, ambiguities := Emit(group, byHostname, suggestions, ambiguities, groups, lookup);
      groups := groups + [group];
    }
    AllGrouped(g, hostEdges, idEdges, groups, starts, visitedNames);
  }

  /** Explore from an unvisited start and sort what was found. */
  method NextGroup(hostEdges: map<string, set<int>>, idEdges: map<int, set<string>>, starts: seq<string>, k: nat,
                   visitedNames: set<string>, visitedIds: set<int>, ghost groups: seq<Group>, ghost g: Edges)
      returns (group: Group, nowNames: set<string>, nowIds: set<int>)
    requires Represents(hostEdges, idEdges, g) && Closed(g, visitedNames, visitedIds)
    requires visitedNames <= hostEdges.Keys && visitedIds <= idEdges.Keys
    requires k < |starts| && StrictlyAscending(starts) && (forall n :: n in starts <==> n in hostEdges)
    requires starts[k] in hostEdges && starts[k] !in visitedNames
    requires GroupedUpTo(GroupTest(g), groups, starts, k, visitedNames)
    ensures nowNames <= hostEdges.Keys && nowIds <= idEdges.Keys && Closed(g, nowNames, nowIds)
    ensures GroupedUpTo(GroupTest(g), groups + [group], starts, k + 1, nowNames)
    ensures forall n | n in group.names :: n in hostEdges
  {
    var a, b := Explore(hostEdges, idEdges, starts[k], visitedNames, visitedIds, g);
    nowNames, nowIds := a.visited, b.visited;
    group := SortGroup(a.found, b.found);
    IsNewGroup(g, hostEdges, idEdges, Group(a.found, b.found), group, starts, k, visitedNames);
    GroupAppend(GroupTest(g), groups, starts, k, visitedNames, a.visited, group);
  }

  lemma AnyOf<T>(s: set<T>) returns (x: T)
    requires s != {}
    ensures x in s
  {
    x :| x in s;
  }

  lemma IsNewGroup(g: Edges, hostEdges: map<string, set<int>>, idEdges: map<int, set<string>>, found: Group,
                   group: Group, starts: seq<string>, k: nat, visited: set<string>)
    requires Represents(hostEdges, idEdges, g)
    requires k < |starts| && StrictlyAscending(starts) && (forall n :: n in starts <==> n in hostEdges)
    requires forall v :: Holds(found, v) <==> Connected(g, Name(starts[k]), v)
    requires forall n | n in found.names :: n in hostEdges && n !in visited
    requires forall n | n in starts[..k] :: n in visited
    requires StrictlyAscending(group.names) && AscendingIds(group.ids)
    requires forall n :: n in group.names <==> n in found.names
    requires forall i :: i in group.ids <==> i in found.ids
    ensures GroupTest(g)(group) && FirstName(group) == starts[k] && starts[k] in found.names
  {
    var start := starts[k];
    assert start in starts;
    ConnectedToSelf(g, Name(start));
    assert Holds(found, Name(start));
    StartIsFirst(group.names, start, starts, k);
    var i := AnyOf(hostEdges[start]);
    assert g(start, i);
    assert Edged(g, Name(start), Id(i));
    GroupFound(g, found, group, start);
  }

  // The whole of it

  datatype Failure = TooManyEdges

  datatype Suggestions = Suggestions(suggestions: seq<Suggestion>, ambiguities: seq<Ambiguity>)

  /** One suggestion for each group that is a single pair, one ambiguity for each other group, by hostname. */
  ghost predicate IsOutcome(r: Result<Suggestions, Failure>, candidates: seq<Candidate>, hosts: seq<EligibleHost>) {
    if EdgeCount(candidates, hosts) > MAX_EDGES then r == Err(TooManyEdges)
    else
      && r.Ok?
      && exists groups :: IsGrouping(EdgesOf(candidates, hosts), groups) && IsReport(r.value, groups, Named(candidates))
  }

  ghost predicate IsReport(s: Suggestions, groups: seq<Group>, lookup: string -> Candidate) {
    s.suggestions == Pairs(groups, lookup) && s.ambiguities == Rest(groups, lookup)
  }

  predicate KeyLess(a: (string, int), b: (string, int)) { if a.0 != b.0 then Less(a.0, b.0) else a.1 < b.1 }

  lemma KeyLessIsStrictWeak()
    ensures StrictWeakOrder(KeyLess)
  {
    LessForSorting();
    forall x: (string, int), y: (string, int) ensures x.0 == y.0 || Less(x.0, y.0) || Less(y.0, x.0) {
      LessTotal(x.0, y.0);
    }
  }

  function SuggestionKey(s: Suggestion): (string, int) { (s.hostname, s.id) }

  /** Keyed by the first candidate and the first id; the report has both. */
  function AmbiguityKey(a: Ambiguity): (string, int) {
    (if a.candidates == [] then "" else a.candidates[0].hostname, if a.ids == [] then 0 else a.ids[0])
  }

  function ByKey<T>(key: T -> (string, int)): (T, T) -> bool { (a, b) => KeyLess(key(a), key(b)) }

  lemma ByKeyIsStrictWeak<T(!new)>(key: T -> (string, int))
    ensures StrictWeakOrder(ByKey(key))
  {
    KeyLessIsStrictWeak();
    forall x: T, y: T ensures ByKey(key)(x, y) == KeyLess(key(x), key(y)) {
    }
  }

  ghost predicate AscendingKeys<T>(s: seq<T>, key: T -> (string, int)) {
    forall i, j | 0 <= i < j < |s| :: Less(key(s[i]).0, key(s[j]).0)
  }

  /** Sorting what is in strict order already changes nothing. */
  lemma SortChangesNothing<T(!new)>(s: seq<T>, r: seq<T>, key: T -> (string, int))
    requires AscendingKeys(s, key)
    requires SortedBy(r, ByKey(key)) && multiset(r) == multiset(s)
    ensures r == s
  {
    var less := ByKey(key);
    forall i, j | 0 <= i < j < |s| ensures less(s[i], s[j]) && !less(s[j], s[i]) {
      LessIrreflexive(key(s[i]).0);
      if Less(key(s[j]).0, key(s[i]).0) { LessTransitive(key(s[i]).0, key(s[j]).0, key(s[i]).0); }
    }
    forall x, y | x in s && y in s && x != y ensures less(x, y) || less(y, x) {
      var i :| 0 <= i < |s| && s[i] == x;
      var j :| 0 <= j < |s| && s[j] == y;
      assert i < j || j < i;
    }
    SortedPermutationUnique(s, r, less);
  }

  ghost predicate GroupsAscend(groups: seq<Group>, lookup: string -> Candidate) {
    && (forall n :: lookup(n).hostname == n)
    && (forall j | 0 <= j < |groups| :: groups[j].names != [])
    && (forall i, j | 0 <= i < j < |groups| :: Less(FirstName(groups[i]), FirstName(groups[j])))
  }

  /** Some group starts with the name. */
  ghost predicate Starts(groups: seq<Group>, name: string)
    requires forall j | 0 <= j < |groups| :: groups[j].names != []
  {
    exists j :: 0 <= j < |groups| && FirstName(groups[j]) == name
  }

  lemma StartsBefore(groups: seq<Group>, lookup: string -> Candidate, name: string)
    requires groups != [] && GroupsAscend(groups, lookup) && Starts(groups[..|groups| - 1], name)
    ensures Starts(groups, name) && Less(name, FirstName(groups[|groups| - 1]))
  {
    var n := |groups| - 1;
    var j :| 0 <= j < n && FirstName(groups[..n][j]) == name;
    assert groups[..n][j] == groups[j];
  }

  lemma {:induction false} PairsAscend(groups: seq<Group>, lookup: string -> Candidate)
    requires GroupsAscend(groups, lookup)
    ensures AscendingKeys(Pairs(groups, lookup), SuggestionKey)
    ensures forall s | s in Pairs(groups, lookup) :: Starts(groups, SuggestionKey(s).0)
  {
    if groups != [] {
      hide Starts;
      var n := |groups| - 1;
      assert GroupsAscend(groups[..n], lookup);
      PairsAscend(groups[..n], lookup);
      forall s | s in Pairs(groups[..n], lookup)
        ensures Starts(groups, SuggestionKey(s).0) && Less(SuggestionKey(s).0, FirstName(groups[n]))
      {
        StartsBefore(groups, lookup, SuggestionKey(s).0);
      }
      StartsLast(groups);
      if IsPair(groups[n]) { assert SuggestionKey(SuggestionFor(groups[n], lookup)).0 == FirstName(groups[n]); }
    }
  }

  lemma StartsLast(groups: seq<Group>)
    requires groups != [] && forall j | 0 <= j < |groups| :: groups[j].names != []
    ensures Starts(groups, FirstName(groups[|groups| - 1]))
  {
  }

  lemma {:induction false} RestAscends(groups: seq<Group>, lookup: string -> Candidate)
    requires GroupsAscend(groups, lookup)
    ensures AscendingKeys(Rest(groups, lookup), AmbiguityKey)
    ensures forall a | a in Rest(groups, lookup) :: Starts(groups, AmbiguityKey(a).0)
  {
    if groups != [] {
      hide Starts;
      var n := |groups| - 1;
      assert GroupsAscend(groups[..n], lookup);
      RestAscends(groups[..n], lookup);
      forall a | a in Rest(groups[..n], lookup)
        ensures Starts(groups, AmbiguityKey(a).0) && Less(AmbiguityKey(a).0, FirstName(groups[n]))
      {
        StartsBefore(groups, lookup, AmbiguityKey(a).0);
      }
      StartsLast(groups);
      if !IsPair(groups[n]) { assert AmbiguityKey(AmbiguityFor(groups[n], lookup)).0 == FirstName(groups[n]); }
    }
  }

  method BuildHostnameSuggestions(candidates: seq<Candidate>, hosts: seq<EligibleHost>)
      returns (r: Result<Suggestions, Failure>)
    ensures IsOutcome(r, candidates, hosts)
  {
    var ok, hostEdges, idEdges, byHostname := BuildGraph(candidates, hosts);
    if !ok { return Err(TooManyEdges); }
    ghost var g, lookup := EdgesOf(candidates, hosts), Named(candidates);
    forall n | n in hostEdges ensures n in byHostname && byHostname[n] == lookup(n) {
      var i := AnyOf(hostEdges[n]);
      assert g(n, i);
    }
    var suggestions, ambiguities := CollectGroups(hostEdges, idEdges, byHostname, g, lookup);
    ghost var groups :| IsGrouping(g, groups) && suggestions == Pairs(groups, lookup)
        && ambiguities == Rest(groups, lookup);
    PairsAscend(groups, lookup);
    RestAscends(groups, lookup);
    ByKeyIsStrictWeak(SuggestionKey);
    ByKeyIsStrictWeak(AmbiguityKey);
    var sortedSuggestions := SortSlice(suggestions, ByKey(SuggestionKey));
    SortChangesNothing(suggestions, sortedSuggestions, SuggestionKey);
    var sortedAmbiguities := SortSlice(ambiguities, ByKey(AmbiguityKey));
    SortChangesNothing(ambiguities, sortedAmbiguities, AmbiguityKey);
    r := Ok(Suggestions(sortedSuggestions, sortedAmbiguities));
    assert IsReport(r.value, groups, lookup);
  }

  // Consequences

  lemma {:induction false} ReportMembers(groups: seq<Group>, lookup: string -> Candidate)
    ensures forall s :: s in Pairs(groups, lookup) <==> exists group | group in groups && IsPair(group) ::
              s == SuggestionFor(group, lookup)
    ensures forall a :: a in Rest(groups, lookup) <==> exists group | group in groups && !IsPair(group) ::
              a == AmbiguityFor(group, lookup)
  {
    if groups != [] {
      var n := |groups| - 1;
      ReportMembers(groups[..n], lookup);
      assert forall x :: x in groups <==> x in groups[..n] || x == groups[n] by {
        assert groups == groups[..n] + [groups[n]];
      }
    }
  }

  lemma GroupIsListed(g: Edges, groups: seq<Group>, group: Group)
    requires IsGrouping(g, groups)
    ensures IsGroup(g, group) <==> group in groups
  {
    if IsGroup(g, group) {
      GroupHasEdge(g, group);
      var k := GroupOf(g, groups, Name(group.names[0]));
      GroupsShareNothing(g, groups[k], group, Name(group.names[0]));
    }
  }

  /** A candidate lies below a wildcard suffix of the host. */
  ghost function BelowEdges(candidates: seq<Candidate>, hosts: seq<EligibleHost>): Edges {
    (name, id) => exists c, h, s | c in candidates && h in hosts && s in h.suffixes ::
                    c.hostname == name && h.id == id && IsSubdomain(name, s)
  }

  lemma EdgesAreBelow(candidates: seq<Candidate>, hosts: seq<EligibleHost>)
    ensures SameEdges(EdgesOf(candidates, hosts), BelowEdges(candidates, hosts))
  {
    forall c, h ensures Joins(c, h) <==> exists s | s in h.suffixes :: IsSubdomain(c.hostname, s) { JoinsBelow(c, h); }
  }

  /** A hostname is suggested for an id exactly when each is the other's only match, label by label. */
  lemma SuggestedExactly(s: Suggestions, candidates: seq<Candidate>, hosts: seq<EligibleHost>, suggestion: Suggestion)
    requires IsOutcome(Ok(s), candidates, hosts)
    ensures suggestion in s.suggestions
       <==> && OnlyNeighbours(BelowEdges(candidates, hosts), suggestion.hostname, suggestion.id)
            && suggestion.source == Named(candidates)(suggestion.hostname).source
  {
    EdgesAreBelow(candidates, hosts);
    SameNeighbours(EdgesOf(candidates, hosts), BelowEdges(candidates, hosts), suggestion.hostname, suggestion.id);
    hide BelowEdges;
    var g, lookup := EdgesOf(candidates, hosts), Named(candidates);
    var groups :| IsGrouping(g, groups) && IsReport(s, groups, lookup);
    ReportMembers(groups, lookup);
    PairIsListed(g, groups, lookup, suggestion);
  }

  lemma SameNeighbours(a: Edges, b: Edges, name: string, id: int)
    requires SameEdges(a, b)
    ensures OnlyNeighbours(a, name, id) <==> OnlyNeighbours(b, name, id)
  {
  }

  lemma PairIsListed(g: Edges, groups: seq<Group>, lookup: string -> Candidate, s: Suggestion)
    requires IsGrouping(g, groups) && forall n :: lookup(n).hostname == n
    ensures (exists group | group in groups && IsPair(group) :: s == SuggestionFor(group, lookup))
       <==> OnlyNeighbours(g, s.hostname, s.id) && s.source == lookup(s.hostname).source
  {
    if group :| group in groups && IsPair(group) && s == SuggestionFor(group, lookup) {
      GroupIsListed(g, groups, group);
      assert group == Group([s.hostname], [s.id]);
      PairIsOnlyNeighbours(g, group, s.hostname, s.id);
    }
    if OnlyNeighbours(g, s.hostname, s.id) && s.source == lookup(s.hostname).source {
      EdgedNeighbour(g, Name(s.hostname), Id(s.id));
      var k := GroupOf(g, groups, Name(s.hostname));
      PairIsOnlyNeighbours(g, groups[k], s.hostname, s.id);
      assert groups[k] in groups;
    }
  }

  /** Everything else is reported as ambiguous: one entry for each larger component, whole. */
  lemma AmbiguousExactly(s: Suggestions, candidates: seq<Candidate>, hosts: seq<EligibleHost>, a: Ambiguity)
    requires IsOutcome(Ok(s), candidates, hosts)
    ensures a in s.ambiguities
       <==> exists group | IsGroup(EdgesOf(candidates, hosts), group) && !IsPair(group) ::
         a == AmbiguityFor(group, Named(candidates))
  {
    var g, lookup := EdgesOf(candidates, hosts), Named(candidates);
    var groups :| IsGrouping(g, groups) && IsReport(s, groups, lookup);
    ReportMembers(groups, lookup);
    forall group ensures IsGroup(g, group) <==> group in groups { GroupIsListed(g, groups, group); }
  }

  // Permutations

  lemma {:induction false} SumSplit<T>(s: seq<T>, t: seq<T>, f: T -> nat)
    ensures SumOf(s + t, f) == SumOf(s, f) + SumOf(t, f)
  {
    if t == [] {
      assert s + t == s;
    } else {
      var n := |t| - 1;
      SumSplit(s, t[..n], f);
      assert (s + t)[..|s + t| - 1] == s + t[..n];
    }
  }

  lemma SumWithout<T>(t: seq<T>, k: nat, f: T -> nat)
    requires k < |t|
    ensures SumOf(t, f) == SumOf(t[..k] + t[k + 1..], f) + f(t[k])
  {
    hide SumOf;
    assert t == (t[..k] + [t[k]]) + t[k + 1..];
    SumSplit(t[..k], t[k + 1..], f);
    SumSplit(t[..k] + [t[k]], t[k + 1..], f);
    SumAppend(t[..k], t[k], f);
  }

  lemma {:induction false} SumPermuted<T>(s: seq<T>, t: seq<T>, f: T -> nat)
    requires multiset(s) == multiset(t)
    ensures SumOf(s, f) == SumOf(t, f)
  {
    SameLength(s, t);
    if s != [] {
      var n := |s| - 1;
      assert s[n] in multiset(t);
      var k :| 0 <= k < |t| && t[k] == s[n];
      SumWithout(t, k, f);
      SumWithout(s, n, f);
      WithoutOne(t, k);
      WithoutOne(s, n);
      assert s[..n] + s[n + 1..] == s[..n];
      SumPermuted(s[..n], t[..k] + t[k + 1..], f);
    }
  }

  lemma {:induction false} SumPointwise<T>(s: seq<T>, f: T -> nat, g: T -> nat)
    requires forall x | x in s :: f(x) == g(x)
    ensures SumOf(s, f) == SumOf(s, g)
  {
    if s != [] { SumPointwise(s[..|s| - 1], f, g); }
  }

  lemma EdgeCountPermuted(c1: seq<Candidate>, c2: seq<Candidate>, h1: seq<EligibleHost>, h2: seq<EligibleHost>)
    requires multiset(c1) == multiset(c2) && multiset(h1) == multiset(h2)
    ensures EdgeCount(c1, h1) == EdgeCount(c2, h2)
  {
    SumPermuted(c1, c2, LinkCount(h1));
    forall c ensures LinkCount(h1)(c) == LinkCount(h2)(c) { SumPermuted(h1, h2, LinkTo(c)); }
    SumPointwise(c2, LinkCount(h1), LinkCount(h2));
  }

  lemma SameElements<T>(s: seq<T>, t: seq<T>)
    requires multiset(s) == multiset(t)
    ensures forall x :: x in s <==> x in t
  {
    forall x ensures x in s <==> x in t { assert x in multiset(s) <==> x in multiset(t); }
  }

  lemma {:induction false} SameReport(groups: seq<Group>, f: string -> Candidate, g: string -> Candidate)
    requires forall j, n | 0 <= j < |groups| && n in groups[j].names :: f(n) == g(n)
    ensures Pairs(groups, f) == Pairs(groups, g) && Rest(groups, f) == Rest(groups, g)
  {
    if groups != [] {
      SameReport(groups[..|groups| - 1], f, g);
      var last := groups[|groups| - 1];
      assert forall n | n in last.names :: f(n) == g(n);
      if IsPair(last) {
        assert last.names[0] in last.names;
      } else {
        assert AmbiguityFor(last, f).candidates == AmbiguityFor(last, g).candidates;
      }
    }
  }

  /**
   * Neither the order of candidates and hosts nor any order in which Go ranges over its maps shows
   * in the result, the error included. Candidates come with one source per hostname.
   */
  lemma OutcomeIsOrderFree(r1: Result<Suggestions, Failure>, r2: Result<Suggestions, Failure>,
                           c1: seq<Candidate>, c2: seq<Candidate>, h1: seq<EligibleHost>, h2: seq<EligibleHost>)
    requires IsOutcome(r1, c1, h1) && IsOutcome(r2, c2, h2)
    requires multiset(c1) == multiset(c2) && multiset(h1) == multiset(h2) && UniqueHostnames(c1)
    ensures r1 == r2
  {
    EdgeCountPermuted(c1, c2, h1, h2);
    if r1.Ok? {
      SameElements(c1, c2);
      SameElements(h1, h2);
      SameOutcome(r1.value, r2.value, EdgesOf(c1, h1), EdgesOf(c2, h2), c1, c2, h1, h2);
    }
  }

  lemma SameOutcome(s1: Suggestions, s2: Suggestions, g1: Edges, g2: Edges,
                    c1: seq<Candidate>, c2: seq<Candidate>, h1: seq<EligibleHost>, h2: seq<EligibleHost>)
    requires IsOutcome(Ok(s1), c1, h1) && IsOutcome(Ok(s2), c2, h2)
    requires g1 == EdgesOf(c1, h1) && g2 == EdgesOf(c2, h2)
    requires (forall x :: x in c1 <==> x in c2) && (forall x :: x in h1 <==> x in h2) && UniqueHostnames(c1)
    ensures s1 == s2
  {
    var groups1: seq<Group> :| IsGrouping(g1, groups1) && IsReport(s1, groups1, Named(c1));
    var groups2: seq<Group> :| IsGrouping(g2, groups2) && IsReport(s2, groups2, Named(c2));
    assert SameEdges(g2, g1);
    SameGroups(g2, g1, groups2);
    GroupingIsUnique(g1, groups1, groups2);
    forall j, n | 0 <= j < |groups1| && n in groups1[j].names ensures Named(c1)(n) == Named(c2)(n) {
      NameIsCandidate(c1, h1, groups1[j], n);
    }
    SameReport(groups1, Named(c1), Named(c2));
  }

  lemma NameIsCandidate(candidates: seq<Candidate>, hosts: seq<EligibleHost>, group: Group, name: string)
    requires IsGroup(EdgesOf(candidates, hosts), group) && name in group.names
    ensures exists c | c in candidates :: c.hostname == name
  {
    var g := EdgesOf(candidates, hosts);
    assert Holds(group, Name(name)) && Holds(group, Id(group.ids[0]));
    ConnectedIsEquivalence(g, Name(group.names[0]), Name(name), Id(group.ids[0]));
    var p :| PathFrom(g, p, Name(name), Id(group.ids[0]));
    assert Adjacent(g, p[0], p[1]);
  }
}
