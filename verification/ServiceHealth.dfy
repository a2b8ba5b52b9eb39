/** The service-health store and the poller's cycle around the worker pool. */
module ServiceHealth {
  import opened Common
  import opened Ordering
  import opened HealthCycle
  import opened ServiceCards

  datatype Snapshot = Snapshot(results: map<int, Observation>, staleAfter: int)

  /** Services by proxy-host id, which the configuration parser keeps distinct. */
  datatype HealthConfig = HealthConfig(enabled: bool, services: seq<int>, workers: nat, interval: int) {
    ghost predicate Valid() { Distinct(services) && 1 <= workers <= 8 }
  }

  // Reading

  predicate OutOfDate(r: Observation, staleAfter: int, now: int) {
    r.state != Unknown && r.state != Stale && r.checkedAt.Some? && staleAfter > 0
      && now - r.checkedAt.value > staleAfter
  }

  function Read(data: Option<Snapshot>, id: int, now: int): Option<Observation> {
    if data.None? || id !in data.value.results then None
    else
      var r := data.value.results[id];
      Some(if OutOfDate(r, data.value.staleAfter, now) then r.(state := Stale) else r)
  }

  /** Reading only ever turns an observation stale, and a stale one never comes back while its snapshot stands. */
  lemma StalenessOnlyGrows(data: Option<Snapshot>, id: int, earlier: int, later: int)
    requires earlier <= later
    ensures Read(data, id, earlier).Some? <==> data.Some? && id in data.value.results
    ensures Read(data, id, later).Some? <==> Read(data, id, earlier).Some?
    ensures Read(data, id, later).Some? ==>
              && (Read(data, id, later).value == Read(data, id, earlier).value
                  || Read(data, id, later).value.state == Stale)
              && (Read(data, id, earlier).value.state == Stale ==>
                    Read(data, id, later).value == Read(data, id, earlier).value)
              && (Read(data, id, later).value.state == Unknown <==> data.value.results[id].state == Unknown)
  {
  }

  /** An observation of a reachable or unreachable service reads as stale exactly once it is older than allowed. */
  lemma StaleExactly(data: Snapshot, id: int, now: int)
    requires id in data.results
    ensures var r, seen := data.results[id], Read(Some(data), id, now).value;
            && seen.id == r.id && seen.checkedAt == r.checkedAt
            && (r.state == Unknown || r.state == Stale ==> seen.state == r.state)
            && (r.state != Unknown && r.state != Stale ==>
                  && (seen.state == Stale
                      <==> r.checkedAt.Some? && data.staleAfter > 0 && r.checkedAt.value + data.staleAfter < now)
                  && (seen.state != Stale ==> seen == r))
  {
  }

  class ServiceHealthStore {
    var data: Option<Snapshot>

    constructor ()
      ensures data.None?
    {
      data := None;
    }

    method Get(id: int, now: int) returns (r: Option<Observation>)
      ensures r == Read(data, id, now)
    {
      if data.None? { return None; }
      var snapshot := data.value;
      if id !in snapshot.results { return None; }
      var result := snapshot.results[id];
      if result.state != Unknown && result.state != Stale && result.checkedAt.Some? && snapshot.staleAfter > 0
         && now - result.checkedAt.value > snapshot.staleAfter {
        result := result.(state := Stale);
      }
      return Some(result);
    }

    method Publish(results: map<int, Observation>, staleAfter: int)
      modifies this
      ensures data == Some(Snapshot(results, staleAfter))
    {
      data := Some(Snapshot(results, staleAfter));
    }
  }

  // One cycle

  /** proxyHosts: the last host of each id. */
  function HostById(hosts: seq<ProxyHost>, id: int): Option<ProxyHost> {
    if hosts == [] then None
    else if hosts[|hosts| - 1].id == id then Some(hosts[|hosts| - 1])
    else HostById(hosts[..|hosts| - 1], id)
  }

  /** Of several hosts with an id the last one is probed. */
  lemma {:induction false} LastHostCounts(hosts: seq<ProxyHost>, k: nat)
    requires k < |hosts| && forall j | k < j < |hosts| :: hosts[j].id != hosts[k].id
    ensures HostById(hosts, hosts[k].id) == Some(hosts[k])
  {
    if k < |hosts| - 1 { LastHostCounts(hosts[..|hosts| - 1], k); }
  }

  lemma {:induction false} NoHostNoProbe(hosts: seq<ProxyHost>, id: int)
    requires forall h | h in hosts :: h.id != id
    ensures HostById(hosts, id) == None
  {
    if hosts != [] { NoHostNoProbe(hosts[..|hosts| - 1], id); }
  }

  predicate Eligible(hosts: seq<ProxyHost>, supported: ProxyHost -> bool, id: int) {
    HostById(hosts, id).Some? && supported(HostById(hosts, id).value)
  }

  /** A service is probed exactly when the last host with its id is supported. */
  lemma EligibleExactly(hosts: seq<ProxyHost>, supported: ProxyHost -> bool, id: int)
    ensures Eligible(hosts, supported, id)
       <==> exists k | 0 <= k < |hosts| ::
              hosts[k].id == id && supported(hosts[k]) && forall j | k < j < |hosts| :: hosts[j].id != id
  {
    if h :| h in hosts && h.id == id {
      var k := LastWith(hosts, id);
      LastHostCounts(hosts, k);
    } else {
      NoHostNoProbe(hosts, id);
    }
  }

  lemma {:induction false} LastWith(hosts: seq<ProxyHost>, id: int) returns (k: nat)
    requires exists h | h in hosts :: h.id == id
    ensures k < |hosts| && hosts[k].id == id && forall j | k < j < |hosts| :: hosts[j].id != id
  {
    k := |hosts| - 1;
    if hosts[k].id != id {
      assert hosts == hosts[..k] + [hosts[k]];
      k := LastWith(hosts[..k], id);
    }
  }

  function EligibleIds(services: seq<int>, hosts: seq<ProxyHost>, supported: ProxyHost -> bool): (ids: seq<int>)
    ensures forall id :: id in ids <==> id in services && Eligible(hosts, supported, id)
  {
    if services == [] then []
    else
      var n := |services| - 1;
      assert services == services[..n] + [services[n]];
      EligibleIds(services[..n], hosts, supported)
        + (if Eligible(hosts, supported, services[n]) then [services[n]] else [])
  }

  lemma {:induction false} EligibleAreDistinct(services: seq<int>, hosts: seq<ProxyHost>, supported: ProxyHost -> bool)
    requires Distinct(services)
    ensures Distinct(EligibleIds(services, hosts, supported))
  {
    if services != [] {
      var n := |services| - 1;
      EligibleAreDistinct(services[..n], hosts, supported);
      var before := EligibleIds(services[..n], hosts, supported);
      assert forall k | 0 <= k < |before| :: before[k] in before;
    }
  }

  function AllUnprobed(ids: seq<int>): map<int, Observation> { map id | id in ids :: Unprobed(id) }

  method IndexHosts(hosts: seq<ProxyHost>) returns (m: map<int, ProxyHost>)
    ensures forall id :: id in m <==> HostById(hosts, id).Some?
    ensures forall id | id in m :: HostById(hosts, id) == Some(m[id])
  {
    m := map[];
    for k := 0 to |hosts|
      invariant forall id :: id in m <==> HostById(hosts[..k], id).Some?
      invariant forall id | id in m :: HostById(hosts[..k], id) == Some(m[id])
    {
      assert hosts[..k + 1][..k] == hosts[..k];
      m := m[hosts[k].id := hosts[k]];
    }
    assert hosts[..|hosts|] == hosts;
  }

  method CollectJobs(services: seq<int>, hosts: seq<ProxyHost>, supported: ProxyHost -> bool) returns (jobs: seq<int>)
    ensures jobs == EligibleIds(services, hosts, supported)
  {
    var proxyHosts := IndexHosts(hosts);
    jobs := [];
    for k := 0 to |services|
      invariant jobs == EligibleIds(services[..k], hosts, supported)
    {
      assert services[..k + 1][..k] == services[..k];
      var id := services[k];
      if id !in proxyHosts || !supported(proxyHosts[id]) { continue; }
      jobs := jobs + [id];
    }
    assert services[..|services|] == services;
  }

  /** The run of the pool ends with the collector publishing these results. */
  predicate Publishes(configured: set<int>, jobs: seq<int>, workers: nat, run: seq<Label>,
                      results: map<int, Observation>) {
    var s := After(Start(configured, jobs, workers), run);
    s.Some? && s.value.published == Some(results)
  }

  /**
   * The goroutines, scheduled by an arbitrary oracle until the collector publishes. Where the oracle
   * names an impossible step, the one that is always possible is taken.
   */
  method RunPool(configured: set<int>, jobs: seq<int>, workers: nat, schedule: State -> Label,
                 probe: int -> Observation)
      returns (results: map<int, Observation>)
    requires Distinct(jobs) && (forall id | id in jobs :: id in configured) && jobs != [] && workers >= 1
    requires forall id :: probe(id).id == id
    ensures exists run :: Publishes(configured, jobs, workers, run, results)
  {
    ghost var start := Start(configured, jobs, workers);
    var s := Start(configured, jobs, workers);
    StartIsOk(configured, jobs, workers);
    ghost var run: seq<Label> := [];
    while s.published.None?
      invariant After(start, run) == Some(s) && Invariant(s, configured)
      decreases Measure(s)
    {
      var l := schedule(s);
      if Next(s, l).None? { l := Fallback(s, probe); }
      NoDeadlock(s, configured, probe);
      StepDecreases(s, l);
      InvariantKept(s, l, configured);
      assert (run + [l])[..|run|] == run;
      run := run + [l];
      s := Next(s, l).value;
    }
    results := s.published.value;
    assert Publishes(configured, jobs, workers, run, results);
  }

  class ServiceHealthPoller {
    const store: ServiceHealthStore
    const retryInterval: int

    constructor (store: ServiceHealthStore, retryInterval: int)
      ensures this.store == store && this.retryInterval == retryInterval
    {
      this.store := store;
      this.retryInterval := retryInterval;
    }

    /**
     * runCycle; `config` is what the loader returned, `hosts` the snapshot's, if there is one to probe, and
     * `prober` what the factory made of the configuration, which may be nothing.
     */
    method RunCycle(config: Option<HealthConfig>, hosts: Option<seq<ProxyHost>>, supported: ProxyHost -> bool,
                    schedule: State -> Label, prober: Option<int -> Observation>) returns (delay: int)
      requires config.Some? ==> config.value.Valid()
      requires prober.Some? ==> forall id :: prober.value(id).id == id
      modifies store
      ensures config.None? ==> store.data == old(store.data) && delay == retryInterval
      ensures config.Some? && !config.value.enabled ==> store.data == Some(Snapshot(map[], 0)) && delay == retryInterval
      ensures config.Some? && config.value.enabled ==>
                var c := config.value;
                var jobs := if hosts.Some? then EligibleIds(c.services, hosts.value, supported) else [];
                var configured := set id | id in c.services;
                && delay == c.interval && store.data.Some?
                && store.data.value.staleAfter == 3 * c.interval
                && store.data.value.results.Keys == configured
                && if jobs == [] || prober.None? then store.data.value.results == AllUnprobed(c.services)
                   else exists run :: Publishes(configured, jobs, c.workers, run, store.data.value.results)
    {
      if config.None? { return retryInterval; }
      var c := config.value;
      if !c.enabled {
        store.Publish(map[], 0);
        return retryInterval;
      }
      var results := AllUnprobed(c.services);
      if hosts.None? {
        store.Publish(results, c.interval * 3);
        return c.interval;
      }
      var jobs := CollectJobs(c.services, hosts.value, supported);
      if |jobs| == 0 {
        store.Publish(results, c.interval * 3);
        return c.interval;
      }
      if prober.None? {
        store.Publish(results, c.interval * 3);
        return c.interval;
      }
      EligibleAreDistinct(c.services, hosts.value, supported);
      var configured := set id | id in c.services;
      results := RunPool(configured, jobs, c.workers, schedule, prober.value);
      ghost var run :| Publishes(configured, jobs, c.workers, run, results);
      PublishedIsHonest(configured, jobs, c.workers, run);
      store.Publish(results, c.interval * 3);
      return c.interval;
    }
  }
}
