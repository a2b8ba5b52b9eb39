/** The address filter of health probes: what a probe may dial, and what it does dial. */
module ProbeTarget {
  import opened Common
  import opened Ordering
  import opened AddressPrefix

  /** Four or sixteen octets in network order. */
  type Address = seq<bv8>

  datatype Answer = Answer(valid: bool, zoned: bool, address: Address)

  datatype Prefix = Prefix(base: Address, length: nat) {
    predicate Contains(a: Address) { |a| == |base| && length <= 8 * |base| && Agree(base, a, length) }
  }

  datatype Endpoint = Endpoint(host: string, port: nat)

  /** An IPv4-mapped IPv6 address stands for its IPv4 address. */
  function Unmap(a: Address): Address {
    if |a| == 16 && (forall i | 0 <= i < 10 :: a[i] == 0) && a[10] == 0xff && a[11] == 0xff then a[12..] else a
  }

  predicate Zero(a: Address) { forall x | x in a :: x == 0 }

  predicate Dangerous(a: Address) {
    if |a| == 4 then
      Zero(a) || a[0] == 127 || a[0] & 0xf0 == 0xe0 || (a[0] == 169 && a[1] == 254) || a == [255, 255, 255, 255]
    else if |a| == 16 then
      (Zero(a[..15]) && a[15] <= 1) || a[0] == 0xff || (a[0] == 0xfe && a[1] & 0xc0 == 0x80)
    else true
  }

  // The ranges by name

  /** IPv4: unspecified, loopback, link-local, multicast and broadcast. */
  const DANGEROUS_V4 := [Prefix([0, 0, 0, 0], 32), Prefix([127, 0, 0, 0], 8), Prefix([169, 254, 0, 0], 16),
                         Prefix([224, 0, 0, 0], 4), Prefix([255, 255, 255, 255], 32)]

  const ZEROS: Address := [0, 0, 0, 0, 0, 0, 0, 0, 0, 0, 0, 0, 0, 0, 0, 0]

  /** Unspecified, loopback, link-local and multicast: RFC 4291, section 2.4. */
  const DANGEROUS_V6 := [Prefix(ZEROS, 128), Prefix(ZEROS[15 := 1], 128), Prefix(ZEROS[0 := 0xfe][1 := 0x80], 10),
                         Prefix(ZEROS[0 := 0xff], 8)]

  /** A prefix that ends with octet n. */
  lemma WholeOctets(p: Prefix, a: Address, n: nat)
    requires |p.base| == |a| && p.length == 8 * n && n <= |a|
    ensures p.Contains(a) <==> p.base[..n] == a[..n]
  {
    AgreeByOctets(p.base, a, p.length);
    forall k | 0 <= k < |a| ensures OctetsAgree(p.base, a, p.length, k) <==> (k < n ==> p.base[k] == a[k]) {
      assert Kept(k, p.length) == if k < n then 8 else 0;
      OctetByKept(p.base, a, p.length, k);
    }
    hide OctetsAgree, Agree;
  }

  lemma PartOrWhole(p: Prefix, a: Address, n: nat, k: nat, i: nat)
    requires |p.base| == |a| && p.length == 8 * n + k && n < |a| && 0 < k < 8 && i < |a|
    ensures OctetsAgree(p.base, a, p.length, i)
       <==> (i < n ==> p.base[i] == a[i]) && (i == n ==> SamePart(p.base[n], a[n], k))
  {
    hide Kept, SamePart;
    PartsKept(n, k, i);
    OctetByKept(p.base, a, p.length, i);
  }

  lemma OctetByKept(a: Address, b: Address, length: nat, i: nat)
    requires i < |a| == |b|
    ensures Kept(i, length) == 8 ==> (OctetsAgree(a, b, length, i) <==> a[i] == b[i])
    ensures Kept(i, length) == 0 ==> OctetsAgree(a, b, length, i)
  {
    hide Kept, SamePart;
    WholeOrNone(a[i], b[i]);
  }

  lemma PartsKept(n: nat, k: nat, i: nat)
    requires 0 < k < 8
    ensures Kept(i, 8 * n + k) == if i < n then 8 else if i == n then k else 0
  {
  }

  /** A prefix that ends k bits behind octet n. */
  lemma PartOctet(p: Prefix, a: Address, n: nat, k: nat)
    requires |p.base| == |a| && p.length == 8 * n + k && n < |a| && 0 < k < 8
    ensures p.Contains(a) <==> p.base[..n] == a[..n] && SamePart(p.base[n], a[n], k)
  {
    AgreeByOctets(p.base, a, p.length);
    hide OctetsAgree, Agree, SamePart;
    if p.Contains(a) {
      forall i | 0 <= i <= n ensures if i < n then p.base[i] == a[i] else SamePart(p.base[n], a[n], k) {
        assert OctetsAgree(p.base, a, p.length, i);
        PartOrWhole(p, a, n, k, i);
      }
    }
    if p.base[..n] == a[..n] && SamePart(p.base[n], a[n], k) {
      forall i | 0 <= i < |a| ensures OctetsAgree(p.base, a, p.length, i) {
        if i < n { assert p.base[..n][i] == a[..n][i]; }
        PartOrWhole(p, a, n, k, i);
      }
    }
  }

  predicate InAny(ranges: seq<Prefix>, a: Address) { exists p | p in ranges :: p.Contains(a) }

  lemma InFirst(p: Prefix, rest: seq<Prefix>, a: Address)
    ensures InAny([p] + rest, a) <==> p.Contains(a) || InAny(rest, a)
    ensures !InAny([], a)
  {
    hide Prefix.Contains;
    assert p in [p] + rest;
    assert forall q | q in rest :: q in [p] + rest;
  }

  lemma InOneOf(d: seq<Prefix>, a: Address)
    ensures |d| == 4 ==> (InAny(d, a) <==> d[0].Contains(a) || d[1].Contains(a) || d[2].Contains(a) || d[3].Contains(a))
    ensures |d| == 5 ==>
              (InAny(d, a) <==>
                 d[0].Contains(a) || d[1].Contains(a) || d[2].Contains(a) || d[3].Contains(a) || d[4].Contains(a))
  {
    hide Prefix.Contains;
    if p :| p in d && p.Contains(a) {
      var i :| 0 <= i < |d| && d[i] == p;
    }
    if |d| == 4 || |d| == 5 { assert d[0] in d && d[1] in d && d[2] in d && d[3] in d && (|d| == 5 ==> d[4] in d); }
  }

  lemma WholeRange(base: Address, length: nat, a: Address, start: Address)
    requires |base| == |a| && length == 8 * |start| && |start| <= |base| && base[..|start|] == start
    ensures Prefix(base, length).Contains(a) <==> a[..|start|] == start
  {
    WholeOctets(Prefix(base, length), a, |start|);
  }

  lemma WholeAddress(base: Address, a: Address)
    requires |base| == |a|
    ensures Prefix(base, 8 * |base|).Contains(a) <==> a == base
  {
    WholeRange(base, 8 * |base|, a, base);
    assert a[..|base|] == a;
  }

  lemma RangesOfV4(a: Address)
    requires |a| == 4
    ensures DANGEROUS_V4[0].Contains(a) <==> a == [0, 0, 0, 0]
    ensures DANGEROUS_V4[1].Contains(a) <==> a[..1] == [127]
    ensures DANGEROUS_V4[2].Contains(a) <==> a[..2] == [169, 254]
    ensures DANGEROUS_V4[3].Contains(a) <==> SamePart(224, a[0], 4)
    ensures DANGEROUS_V4[4].Contains(a) <==> a == [255, 255, 255, 255]
  {
    hide Prefix.Contains, SamePart;
    WholeRange([127, 0, 0, 0], 8, a, [127]);
    WholeRange([169, 254, 0, 0], 16, a, [169, 254]);
    PartOctet(Prefix([224, 0, 0, 0], 4), a, 0, 4);
    WholeAddress([0, 0, 0, 0], a);
    WholeAddress([255, 255, 255, 255], a);
  }

  lemma RangesOfV6(a: Address)
    requires |a| == 16
    ensures DANGEROUS_V6[0].Contains(a) <==> a == ZEROS
    ensures DANGEROUS_V6[1].Contains(a) <==> a == ZEROS[15 := 1]
    ensures DANGEROUS_V6[2].Contains(a) <==> a[..1] == [0xfe] && SamePart(0x80, a[1], 2)
    ensures DANGEROUS_V6[3].Contains(a) <==> a[..1] == [0xff]
  {
    hide Prefix.Contains, SamePart;
    WholeAddress(ZEROS, a);
    WholeAddress(ZEROS[15 := 1], a);
    var local := ZEROS[0 := 0xfe][1 := 0x80];
    assert local[..1] == [0xfe];
    PartOctet(Prefix(local, 10), a, 1, 2);
    WholeRange(ZEROS[0 := 0xff], 8, a, [0xff]);
  }

  /** The dangerous addresses are those of the named ranges. */
  lemma DangerousExactly(a: Address)
    requires |a| == 4 || |a| == 16
    ensures Dangerous(a) <==> InAny(if |a| == 4 then DANGEROUS_V4 else DANGEROUS_V6, a)
  {
    if |a| == 4 {
      InOneOf(DANGEROUS_V4, a);
      RangesOfV4(a);
      V4Ranges(a);
    } else {
      InOneOf(DANGEROUS_V6, a);
      RangesOfV6(a);
      V6Ranges(a);
    }
    hide Prefix.Contains, InAny, Dangerous, SamePart;
  }

  lemma V4Ranges(a: Address)
    requires |a| == 4
    ensures Dangerous(a)
       <==> || a == [0, 0, 0, 0] || a[..1] == [127] || a[..2] == [169, 254] || SamePart(224, a[0], 4)
            || a == [255, 255, 255, 255]
  {
    assert a[..1] == [a[0]] && a[..2] == [a[0], a[1]];
    if Zero(a) {
      forall k | 0 <= k < 4 ensures a[k] == 0 { assert a[k] in a; }
      assert a == [a[0], a[1], a[2], a[3]];
    }
    High(a[0]);
    hide SamePart;
  }

  lemma High(b: bv8)
    ensures SamePart(224, b, 4) <==> b & 0xf0 == 0xe0
  {
  }

  lemma V6Ranges(a: Address)
    requires |a| == 16
    ensures Dangerous(a)
       <==> a == ZEROS || a == ZEROS[15 := 1] || (a[..1] == [0xfe] && SamePart(0x80, a[1], 2)) || a[..1] == [0xff]
  {
    assert a[..1] == [a[0]];
    if Zero(a[..15]) && a[15] <= 1 { assert forall k | 0 <= k < 15 :: a[k] == a[..15][k] && a[..15][k] in a[..15]; }
  }

  /** An IPv4-mapped address, RFC 4291 section 2.5.5.2, stands for its last four octets, and every other for itself. */
  lemma UnmapExactly(a: Address)
    requires |a| == 16
    ensures Prefix(ZEROS[10 := 0xff][11 := 0xff], 96).Contains(a) ==> Unmap(a) == a[12..]
    ensures !Prefix(ZEROS[10 := 0xff][11 := 0xff], 96).Contains(a) ==> Unmap(a) == a
  {
    var start := ZEROS[10 := 0xff][11 := 0xff][..12];
    WholeRange(ZEROS[10 := 0xff][11 := 0xff], 96, a, start);
    if a[..12] == start { assert forall k | 0 <= k < 12 :: a[k] == start[k]; }
  }

  function Deduplicated(s: seq<Address>): (r: seq<Address>)
    ensures forall a :: a in r <==> a in s
    ensures s != [] ==> r != []
  {
    if s == [] then []
    else
      var n := |s| - 1;
      assert s == s[..n] + [s[n]];
      var before := Deduplicated(s[..n]);
      if s[n] in before then before else before + [s[n]]
  }

  lemma {:induction false} DeduplicatedIsDistinct(s: seq<Address>)
    ensures Distinct(Deduplicated(s))
  {
    if s != [] { DeduplicatedIsDistinct(s[..|s| - 1]); }
  }

  predicate BadAnswer(x: Answer) { !x.valid || x.zoned || Dangerous(Unmap(x.address)) }

  function Mapped<T, U>(s: seq<T>, f: T -> U): (r: seq<U>)
    ensures |r| == |s|
    ensures forall i | 0 <= i < |s| :: r[i] == f(s[i])
  {
    seq(|s|, i requires 0 <= i < |s| => f(s[i]))
  }

  function Unmapping(): Answer -> Address { (x: Answer) => Unmap(x.address) }

  function Badness(): Answer -> bool { x => BadAnswer(x) }

  /**
   * An engine's configuration and its resolver: a literal needs no lookup, and what a name resolves to
   * may differ from one lookup to the next.
   */
  datatype Engine = Engine(
    allowedCidrs: seq<Prefix>,
    allowedHosts: set<string>,
    allowedSuffixes: seq<string>,
    endpoints: seq<Endpoint>,
    literal: string -> Option<Address>,
    lookup: (string, nat) -> Option<seq<Answer>>
  ) {
    predicate Permits(a: Address) { !Dangerous(Unmap(a)) && exists p | p in allowedCidrs :: p.Contains(Unmap(a)) }

    predicate PermitsName(host: string) {
      host in allowedHosts || exists s | s in allowedSuffixes :: HasSuffix(host, s)
    }

    function Lookups(host: string): nat { if literal(host).Some? then 0 else 1 }

    /** What resolveHost yields for the lookup numbered t. */
    function Resolution(host: string, t: nat): Option<seq<Address>> {
      if literal(host).Some? then
        (if Dangerous(Unmap(literal(host).value)) then None else Some([Unmap(literal(host).value)]))
      else
        var answers := lookup(host, t);
        if answers.None? || answers.value == [] || (exists x | x in answers.value :: Badness()(x)) then None
        else Some(Deduplicated(Mapped(answers.value, Unmapping())))
    }

    /** What resolveAllowedTarget yields. */
    function Target(host: string, t: nat): Option<seq<Address>> {
      if literal(host).Some? then
        (if Permits(Unmap(literal(host).value)) then Some([Unmap(literal(host).value)]) else None)
      else if !PermitsName(host) then None
      else
        var r := Resolution(host, t);
        if r.None? || !PermitsAll(r.value) then None else r
    }

    predicate PermitsAll(addresses: seq<Address>) { forall a | a in addresses :: Permits(a) }

    function TargetLookups(host: string): nat {
      if literal(host).Some? || !PermitsName(host) then 0 else 1
    }

    /** The number of the lookup for the k-th protected endpoint, when the first is numbered t. */
    function LookupAt(port: nat, k: nat, t: nat): nat
      requires k <= |endpoints|
    {
      if k == 0 then t
      else LookupAt(port, k - 1, t) + (if endpoints[k - 1].port == port then Lookups(endpoints[k - 1].host) else 0)
    }

    /** The k-th protected endpoint is on another port, or resolves to none of the addresses. */
    predicate KeepsClear(addresses: seq<Address>, port: nat, k: nat, t: nat)
      requires k < |endpoints|
    {
      var e := endpoints[k];
      e.port == port ==>
        && Resolution(e.host, LookupAt(port, k, t)).Some?
        && forall a | a in addresses :: a !in Resolution(e.host, LookupAt(port, k, t)).value
    }

    /** The addresses that validateTarget approves, if it does; t numbers its first lookup. */
    function Vetted(host: string, port: nat, t: nat): Option<seq<Address>> {
      var addresses := Target(host, t);
      if Endpoint(host, port) in endpoints || addresses.None? then None
      else if Clear(addresses.value, port, t + TargetLookups(host)) then addresses
      else None
    }

    /** The number of the next lookup after an approval. */
    function LookupsAfter(host: string, port: nat, t: nat): nat { LookupAt(port, |endpoints|, t + TargetLookups(host)) }

    predicate Clear(addresses: seq<Address>, port: nat, t: nat) {
      forall k | 0 <= k < |endpoints| :: KeepsClear(addresses, port, k, t)
    }
  }

  datatype Dial = Dial(address: Address, port: nat)

  /** The outcome of one connection attempt, and whether the context had expired by then. */
  datatype Attempt = Attempt(connected: bool, expired: bool)

  class ServiceProbeEngine {
    const engine: Engine
    const attempts: nat -> Attempt
    var lookups: nat
    var dialled: seq<Dial>

    constructor (engine: Engine, attempts: nat -> Attempt)
      ensures this.engine == engine && this.attempts == attempts && dialled == []
    {
      this.engine := engine;
      this.attempts := attempts;
      lookups := 0;
      dialled := [];
    }

    method ResolveHost(host: string) returns (r: Option<seq<Address>>)
      modifies this`lookups
      ensures r == engine.Resolution(host, old(lookups)) && lookups == old(lookups) + engine.Lookups(host)
    {
      var literal := engine.literal(host);
      if literal.Some? {
        var address := Unmap(literal.value);
        return if Dangerous(address) then None else Some([address]);
      }
      var answers := engine.lookup(host, lookups);
      lookups := lookups + 1;
      if answers.None? || |answers.value| == 0 { return None; }
      r := Unique(answers.value, Badness(), Unmapping());
    }

    /** The loop of resolveHost. */
    static method Unique(answers: seq<Answer>, bad: Answer -> bool, unmap: Answer -> Address)
        returns (r: Option<seq<Address>>)
      ensures r == if exists x | x in answers :: bad(x) then None else Some(Deduplicated(Mapped(answers, unmap)))
    {
      var unique: seq<Address>, seen: set<Address> := [], {};
      for k := 0 to |answers|
        invariant forall x | x in answers[..k] :: !bad(x)
        invariant unique == Deduplicated(Mapped(answers[..k], unmap))
        invariant forall a :: a in seen <==> a in unique
      {
        assert answers[..k + 1] == answers[..k] + [answers[k]];
        assert Mapped(answers[..k + 1], unmap)[..k] == Mapped(answers[..k], unmap);
        if bad(answers[k]) {
          assert answers[k] in answers;
          return None;
        }
        var address := unmap(answers[k]);
        if address in seen { continue; }
        seen := seen + {address};
        unique := unique + [address];
      }
      assert answers[..|answers|] == answers;
      return Some(unique);
    }

    method AddressAllowed(address: Address) returns (b: bool)
      ensures b <==> engine.Permits(address)
    {
      if Dangerous(Unmap(address)) { return false; }
      for k := 0 to |engine.allowedCidrs|
        invariant forall j | 0 <= j < k :: !engine.allowedCidrs[j].Contains(Unmap(address))
      {
        if engine.allowedCidrs[k].Contains(Unmap(address)) { return true; }
      }
      return false;
    }

    method DnsNameAllowed(host: string) returns (b: bool)
      ensures b <==> engine.PermitsName(host)
    {
      if host in engine.allowedHosts { return true; }
      for k := 0 to |engine.allowedSuffixes|
        invariant forall j | 0 <= j < k :: !HasSuffix(host, engine.allowedSuffixes[j])
      {
        if HasSuffix(host, engine.allowedSuffixes[k]) { return true; }
      }
      return false;
    }

    method ResolveAllowedTarget(host: string) returns (r: Option<seq<Address>>)
      modifies this`lookups
      ensures r == engine.Target(host, old(lookups)) && lookups == old(lookups) + engine.TargetLookups(host)
    {
      var literal := engine.literal(host);
      if literal.Some? {
        var address := Unmap(literal.value);
        var allowed := AddressAllowed(address);
        return if allowed then Some([address]) else None;
      }
      var named := DnsNameAllowed(host);
      if !named { return None; }
      var addresses := ResolveHost(host);
      if addresses.None? { return None; }
      for k := 0 to |addresses.value|
        invariant lookups == old(lookups) + engine.TargetLookups(host)
        invariant forall j | 0 <= j < k :: engine.Permits(addresses.value[j])
      {
        var allowed := AddressAllowed(addresses.value[k]);
        if !allowed {
          assert addresses == engine.Resolution(host, old(lookups));
          assert addresses.value[k] in addresses.value;
          assert !engine.PermitsAll(addresses.value);
          return None;
        }
      }
      return addresses;
    }

    method IsProtectedExact(host: string, port: nat) returns (b: bool)
      ensures b <==> Endpoint(host, port) in engine.endpoints
    {
      for k := 0 to |engine.endpoints|
        invariant Endpoint(host, port) !in engine.endpoints[..k]
      {
        if engine.endpoints[k].host == host && engine.endpoints[k].port == port { return true; }
      }
      return false;
    }

    static method Intersect(left: seq<Address>, right: seq<Address>) returns (b: bool)
      ensures b <==> exists a | a in left :: exists c | c in right :: Unmap(a) == Unmap(c)
    {
      var addresses := set a | a in left :: Unmap(a);
      for k := 0 to |right|
        invariant forall j | 0 <= j < k :: Unmap(right[j]) !in addresses
      {
        if Unmap(right[k]) in addresses { return true; }
      }
      return false;
    }

    method ValidateTarget(host: string, port: nat) returns (r: Option<seq<Address>>)
      modifies this`lookups
      ensures r == engine.Vetted(host, port, old(lookups))
      ensures old(lookups) <= lookups && (r.Some? ==> lookups == engine.LookupsAfter(host, port, old(lookups)))
    {
      var exact := IsProtectedExact(host, port);
      if exact { return None; }
      r := ResolveAllowedTarget(host);
      if r.None? { return None; }
      TargetIsUnmapped(engine, host, old(lookups));
      var clear := ClearOfEndpoints(r.value, port);
      if !clear { return None; }
    }

    method ClearOfEndpoints(addresses: seq<Address>, port: nat) returns (clear: bool)
      requires AllUnmapped(addresses)
      modifies this`lookups
      ensures clear <==> engine.Clear(addresses, port, old(lookups))
      ensures old(lookups) <= lookups && (clear ==> lookups == engine.LookupAt(port, |engine.endpoints|, old(lookups)))
    {
      for k := 0 to |engine.endpoints|
        invariant old(lookups) <= lookups == engine.LookupAt(port, k, old(lookups))
        invariant forall j | 0 <= j < k :: engine.KeepsClear(addresses, port, j, old(lookups))
      {
        var e := engine.endpoints[k];
        if e.port != port { continue; }
        ghost var at := lookups;
        var others := ResolveHost(e.host);
        if others.None? {
          assert !engine.KeepsClear(addresses, port, k, old(lookups));
          return false;
        }
        ResolutionIsUnmapped(engine, e.host, at);
        var clash := Intersect(addresses, others.value);
        SharedWhenUnmapped(addresses, others.value);
        if clash {
          assert !engine.KeepsClear(addresses, port, k, old(lookups));
          return false;
        }
      }
      return true;
    }

    /** Nothing has been dialled but harmless, allowed addresses that are no protected endpoint's. */
    ghost predicate DialsSafe()
      reads this`dialled, this`lookups
    {
      forall d | d in dialled :: SafeDial(engine, d, lookups)
    }

    /** dialValidated: try the addresses in turn until one connects or the context has expired. */
    method DialValidated(port: nat, addresses: seq<Address>, ghost host: string, ghost t: nat)
        returns (connection: Option<Address>)
      requires engine.Vetted(host, port, t) == Some(addresses) && engine.LookupsAfter(host, port, t) <= lookups
      requires DialsSafe()
      modifies this`dialled
      ensures DialsSafe()
      ensures DialsPrefix(old(dialled), dialled, addresses, port)
      ensures connection.Some? ==>
                && |dialled| > |old(dialled)| && dialled[|dialled| - 1] == Dial(connection.value, port)
                && attempts(|dialled| - 1).connected
      ensures connection.None? ==>
                && (forall i | |old(dialled)| <= i < |dialled| :: !attempts(i).connected)
                && (|dialled| == |old(dialled)| + |addresses| || (|dialled| > 0 && attempts(|dialled| - 1).expired))
    {
      connection := DialAll(port, addresses);
      VettedDials(engine, host, port, t, addresses, old(dialled), dialled, lookups);
    }

    /** Its loop. */
    method DialAll(port: nat, addresses: seq<Address>) returns (connection: Option<Address>)
      modifies this`dialled
      ensures DialsPrefix(old(dialled), dialled, addresses, port)
      ensures connection.Some? ==>
                && |dialled| > |old(dialled)| && dialled[|dialled| - 1] == Dial(connection.value, port)
                && attempts(|dialled| - 1).connected
      ensures connection.None? ==>
                && (forall i | |old(dialled)| <= i < |dialled| :: !attempts(i).connected)
                && (|dialled| == |old(dialled)| + |addresses| || (|dialled| > 0 && attempts(|dialled| - 1).expired))
    {
      for k := 0 to |addresses|
        invariant |dialled| == |old(dialled)| + k
        invariant DialsPrefix(old(dialled), dialled, addresses, port)
        invariant forall i | |old(dialled)| <= i < |dialled| :: !attempts(i).connected
      {
        var attempt := attempts(|dialled|);
        dialled := dialled + [Dial(addresses[k], port)];
        if attempt.connected { return Some(addresses[k]); }
        if attempt.expired { return None; }
      }
      return None;
    }

    /** A probe of one target: all it dials are addresses that its own validation approved as a whole. */
    method Probe(host: string, port: nat) returns (reached: bool)
      requires DialsSafe()
      modifies this`lookups, this`dialled
      ensures DialsSafe() && old(dialled) <= dialled
      ensures forall i | |old(dialled)| <= i < |dialled| ::
                dialled[i].port == port && VettedIncludes(engine, host, old(lookups), dialled[i])
      ensures engine.Vetted(host, port, old(lookups)).None? ==> !reached && dialled == old(dialled)
      ensures reached ==> engine.Vetted(host, port, old(lookups)).Some? && dialled != old(dialled)
    {
      ghost var t := lookups;
      var addresses := ValidateTarget(host, port);
      StaySafe(engine, dialled, t, lookups);
      if addresses.None? { return false; }
      var connection := DialValidated(port, addresses.value, host, t);
      return connection.Some?;
    }
  }

  predicate VettedIncludes(e: Engine, host: string, t: nat, d: Dial) {
    e.Vetted(host, d.port, t).Some? && d.address in e.Vetted(host, d.port, t).value
  }

  predicate ApartAt(e: Engine, host: string, a: Address, t: nat) {
    e.Resolution(host, t).Some? && a !in e.Resolution(host, t).value
  }

  /** A lookup of this host so far has shown that the address is not one of its own. */
  ghost predicate KnownApart(e: Engine, host: string, a: Address, lookups: nat) {
    exists t | 0 <= t <= lookups :: ApartAt(e, host, a, t)
  }

  ghost predicate SafeDial(e: Engine, d: Dial, lookups: nat) {
    && !Dangerous(d.address) && (exists p | p in e.allowedCidrs :: p.Contains(d.address))
    && forall x | x in e.endpoints && x.port == d.port :: KnownApart(e, x.host, d.address, lookups)
  }

  lemma StaySafe(e: Engine, dials: seq<Dial>, before: nat, after: nat)
    requires before <= after && forall d | d in dials :: SafeDial(e, d, before)
    ensures forall d | d in dials :: SafeDial(e, d, after)
  {
    forall d, x | d in dials && x in e.endpoints && x.port == d.port ensures KnownApart(e, x.host, d.address, after) {
      assert SafeDial(e, d, before);
      var t :| 0 <= t <= before && ApartAt(e, x.host, d.address, t);
    }
  }

  /** The new dials are to the first so many of the addresses, in order. */
  predicate DialsPrefix(before: seq<Dial>, after: seq<Dial>, addresses: seq<Address>, port: nat) {
    && before <= after && |after| <= |before| + |addresses|
    && forall i | |before| <= i < |after| :: after[i] == Dial(addresses[i - |before|], port)
  }

  lemma VettedDials(e: Engine, host: string, port: nat, t: nat, addresses: seq<Address>, before: seq<Dial>,
                    after: seq<Dial>, lookups: nat)
    requires e.Vetted(host, port, t) == Some(addresses) && e.LookupsAfter(host, port, t) <= lookups
    requires forall d | d in before :: SafeDial(e, d, lookups)
    requires DialsPrefix(before, after, addresses, port)
    ensures forall d | d in after :: SafeDial(e, d, lookups)
  {
    forall i | 0 <= i < |after| ensures SafeDial(e, after[i], lookups) {
      if i < |before| {
        assert after[i] == before[i] && before[i] in before;
      } else {
        assert addresses[i - |before|] in addresses;
        VettedIsSafe(e, host, t, after[i], lookups);
      }
    }
  }

  lemma {:induction false} LookupAtGrows(e: Engine, port: nat, k: nat, n: nat, t: nat)
    requires k <= n <= |e.endpoints|
    ensures e.LookupAt(port, k, t) <= e.LookupAt(port, n, t)
  {
    if k < n { LookupAtGrows(e, port, k, n - 1, t); }
  }

  predicate AllUnmapped(addresses: seq<Address>) { forall a | a in addresses :: Unmap(a) == a }

  lemma SharedWhenUnmapped(left: seq<Address>, right: seq<Address>)
    requires AllUnmapped(left) && AllUnmapped(right)
    ensures (exists a | a in left :: exists c | c in right :: Unmap(a) == Unmap(c)) <==> exists a | a in left ::
              a in right
  {
  }

  lemma UnmapTwice(a: Address)
    ensures Unmap(Unmap(a)) == Unmap(a)
  {
  }

  lemma ResolutionIsUnmapped(e: Engine, host: string, t: nat)
    requires e.Resolution(host, t).Some?
    ensures AllUnmapped(e.Resolution(host, t).value)
  {
    forall a | a in e.Resolution(host, t).value ensures Unmap(a) == a {
      if e.literal(host).None? {
        var answers := e.lookup(host, t).value;
        var i :| 0 <= i < |answers| && Mapped(answers, Unmapping())[i] == a;
        UnmapTwice(answers[i].address);
      } else {
        UnmapTwice(e.literal(host).value);
      }
    }
  }

  lemma TargetIsUnmapped(e: Engine, host: string, t: nat)
    requires e.Target(host, t).Some?
    ensures AllUnmapped(e.Target(host, t).value)
  {
    if e.literal(host).None? { ResolutionIsUnmapped(e, host, t); } else { UnmapTwice(e.literal(host).value); }
  }

  // Safety

  /** What a validation has shown of an approved address and the k-th protected endpoint. */
  lemma VettedIsApart(e: Engine, host: string, t: nat, d: Dial, k: nat, lookups: nat)
    requires VettedIncludes(e, host, t, d) && e.LookupsAfter(host, d.port, t) <= lookups
    requires k < |e.endpoints| && e.endpoints[k].port == d.port
    ensures ApartAt(e, e.endpoints[k].host, d.address, e.LookupAt(d.port, k, t + e.TargetLookups(host)))
    ensures KnownApart(e, e.endpoints[k].host, d.address, lookups)
  {
    hide Engine.Resolution, Engine.Target, Engine.LookupAt, Engine.TargetLookups;
    var at := e.LookupAt(d.port, k, t + e.TargetLookups(host));
    assert e.KeepsClear(e.Vetted(host, d.port, t).value, d.port, k, t + e.TargetLookups(host));
    LookupAtGrows(e, d.port, k, |e.endpoints|, t + e.TargetLookups(host));
    assert ApartAt(e, e.endpoints[k].host, d.address, at);
  }

  lemma VettedIsPermitted(e: Engine, host: string, t: nat, d: Dial)
    requires VettedIncludes(e, host, t, d)
    ensures !Dangerous(d.address) && exists p | p in e.allowedCidrs :: p.Contains(d.address)
    ensures Endpoint(host, d.port) !in e.endpoints
  {
    TargetIsUnmapped(e, host, t);
    assert e.Permits(d.address);
  }

  /**
   * Every address that a validation approves is harmless, allowed, and apart from every protected endpoint
   * on that port, as resolved in that same validation.
   */
  lemma VettedIsSafe(e: Engine, host: string, t: nat, d: Dial, lookups: nat)
    requires VettedIncludes(e, host, t, d) && e.LookupsAfter(host, d.port, t) <= lookups
    ensures SafeDial(e, d, lookups) && Endpoint(host, d.port) !in e.endpoints
    ensures forall k | 0 <= k < |e.endpoints| && e.endpoints[k].port == d.port ::
              ApartAt(e, e.endpoints[k].host, d.address, e.LookupAt(d.port, k, t + e.TargetLookups(host)))
  {
    hide VettedIncludes, ApartAt, KnownApart, Engine.LookupAt, Engine.TargetLookups, Dangerous, Prefix.Contains;
    VettedIsPermitted(e, host, t, d);
    forall k | 0 <= k < |e.endpoints| && e.endpoints[k].port == d.port
      ensures ApartAt(e, e.endpoints[k].host, d.address, e.LookupAt(d.port, k, t + e.TargetLookups(host)))
      ensures KnownApart(e, e.endpoints[k].host, d.address, lookups)
    {
      VettedIsApart(e, host, t, d, k, lookups);
    }
  }

  /**
   * One invalid, zoned, dangerous or not allowed answer rejects the whole target, and so does a name that is
   * not allowed; nothing but the answers of that lookup is approved.
   */
  lemma AllOrNothing(e: Engine, host: string, port: nat, t: nat)
    requires e.literal(host).None? && e.lookup(host, t).Some?
    ensures (exists x | x in e.lookup(host, t).value ::
               || !x.valid || x.zoned || Dangerous(Unmap(x.address))
               || !(exists p | p in e.allowedCidrs :: p.Contains(Unmap(x.address)))) ==>
              e.Vetted(host, port, t).None?
    ensures e.Vetted(host, port, t).Some? ==>
              host in e.allowedHosts || exists s | s in e.allowedSuffixes :: HasSuffix(host, s)
    ensures e.Vetted(host, port, t).Some? ==>
              && Distinct(e.Vetted(host, port, t).value)
              && forall a :: a in e.Vetted(host, port, t).value <==> exists x | x in e.lookup(host, t).value ::
                   a == Unmap(x.address)
  {
    var answers := e.lookup(host, t).value;
    var mapped := Mapped(answers, Unmapping());
    DeduplicatedIsDistinct(mapped);
    forall a ensures a in mapped <==> exists x | x in answers :: a == Unmap(x.address) {
      if x :| x in answers && a == Unmap(x.address) {
        var i :| 0 <= i < |answers| && answers[i] == x;
        assert mapped[i] == a;
      }
    }
    if x :| x in answers && (BadAnswer(x) || !e.Permits(Unmap(x.address))) {
      if BadAnswer(x) {
        assert Badness()(x);
      } else if e.Resolution(host, t).Some? {
        assert Unmap(x.address) in e.Resolution(host, t).value;
        assert !e.PermitsAll(e.Resolution(host, t).value);
      }
    }
  }

  /** An answer that may be dialled: a plain address, not dangerous, in an allowed range. */
  predicate Dialable(e: Engine, x: Answer) {
    x.valid && !x.zoned && !Dangerous(Unmap(x.address)) && exists p | p in e.allowedCidrs ::
      p.Contains(Unmap(x.address))
  }

  /** No protected endpoint on the port resolves to one of the addresses, and all of them resolve. */
  predicate FarFrom(e: Engine, addresses: seq<Address>, port: nat, t: nat) {
    forall k | 0 <= k < |e.endpoints| && e.endpoints[k].port == port :: ApartFromAll(e, addresses, port, k, t)
  }

  predicate ApartFromAll(e: Engine, addresses: seq<Address>, port: nat, k: nat, t: nat)
    requires k < |e.endpoints|
  {
    var others := e.Resolution(e.endpoints[k].host, e.LookupAt(port, k, t));
    others.Some? && forall a | a in addresses :: a !in others.value
  }

  /** A name is approved exactly when it is allowed and all its answers may be dialled, far from what is protected. */
  lemma NameApprovedExactly(e: Engine, host: string, port: nat, t: nat)
    requires e.literal(host).None?
    ensures e.Vetted(host, port, t).Some?
       <==> && Endpoint(host, port) !in e.endpoints
            && (host in e.allowedHosts || exists s | s in e.allowedSuffixes :: HasSuffix(host, s))
            && e.lookup(host, t).Some? && e.lookup(host, t).value != []
            && (forall x | x in e.lookup(host, t).value :: Dialable(e, x))
            && FarFrom(e, Deduplicated(Mapped(e.lookup(host, t).value, Unmapping())), port, t + 1)
  {
    var answers := e.lookup(host, t);
    if answers.Some? && answers.value != [] {
      AnswersDialable(e, answers.value);
      ClearIsFar(e, Deduplicated(Mapped(answers.value, Unmapping())), port, t + 1);
    }
    hide Engine.Clear, FarFrom, Deduplicated, Mapped, Engine.PermitsAll, Dialable;
  }

  lemma ClearIsFar(e: Engine, addresses: seq<Address>, port: nat, t: nat)
    ensures e.Clear(addresses, port, t) <==> FarFrom(e, addresses, port, t)
  {
    hide Engine.Resolution, Engine.LookupAt;
    forall k | 0 <= k < |e.endpoints|
      ensures e.KeepsClear(addresses, port, k, t) <==>
              (e.endpoints[k].port == port ==> ApartFromAll(e, addresses, port, k, t))
    {
    }
    hide Engine.KeepsClear, ApartFromAll;
  }

  lemma AnswersDialable(e: Engine, answers: seq<Answer>)
    ensures (forall x | x in answers :: Dialable(e, x))
       <==> (forall x | x in answers :: !Badness()(x)) && e.PermitsAll(Deduplicated(Mapped(answers, Unmapping())))
  {
    var mapped := Mapped(answers, Unmapping());
    forall x ensures Dialable(e, x) <==> !Badness()(x) && e.Permits(Unmap(x.address)) { UnmapTwice(x.address); }
    hide Engine.Permits, Dialable, Unmap, BadAnswer;
    forall x | x in answers ensures Unmapping()(x) in mapped {
      var i :| 0 <= i < |answers| && answers[i] == x;
      assert mapped[i] == Unmapping()(x);
    }
    if forall x | x in answers :: e.Permits(Unmap(x.address)) {
      forall a | a in mapped ensures e.Permits(a) {
        var i :| 0 <= i < |mapped| && mapped[i] == a;
        assert answers[i] in answers;
      }
    }
  }

  /** An address given as such is approved exactly when it may be dialled itself. */
  lemma AddressApprovedExactly(e: Engine, host: string, port: nat, t: nat)
    requires e.literal(host).Some?
    ensures var a := Unmap(e.literal(host).value);
            e.Vetted(host, port, t).Some? <==>
              && Endpoint(host, port) !in e.endpoints && !Dangerous(a)
              && (exists p | p in e.allowedCidrs :: p.Contains(a))
              && FarFrom(e, [a], port, t)
  {
    UnmapTwice(e.literal(host).value);
    ClearIsFar(e, [Unmap(e.literal(host).value)], port, t);
    hide Engine.Clear, FarFrom, Unmap;
  }
}
