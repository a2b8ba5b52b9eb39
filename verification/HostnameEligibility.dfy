/** Which hostnames are accepted, and which proxy hosts a hostname may be suggested for. */
module HostnameEligibility {
  import opened Common
  import opened Ordering
  import opened ServiceCards
  import opened HostnameLabels
  import opened HostnameGraph
  import opened HostnameSuggestions
  import opened HostnameCandidates
  import M = ServiceMetadata

  // Hostnames

  const MAX_HOST_LENGTH := 253
  const MAX_LABEL_LENGTH := 63

  predicate LabelChar(c: char) { 'a' <= c <= 'z' || '0' <= c <= '9' || c == '-' }

  predicate ValidLabel(part: string) {
    && part != "" && |part| <= MAX_LABEL_LENGTH && part[0] != '-' && part[|part| - 1] != '-'
    && forall c | c in part :: LabelChar(c)
  }

  function LowerAsciiText(s: string): string { ToLower(s, (c: char) => c) }

  /** validateServiceHealthHost, on ASCII text; `isAddress` is netip.ParseAddr. */
  predicate ValidHost(s: string, isAddress: string -> bool) {
    && s != "" && |s| <= MAX_HOST_LENGTH && LowerAsciiText(s) == s && TrimSpace(s) == s && !HasSuffix(s, ".")
    && (forall c | c in s :: !ControlRune(c as int))
    && !isAddress(s)
    && forall part | part in Labels(s) :: ValidLabel(part)
  }

  predicate Ascii(s: string) { forall c | c in s :: c < '\U{80}' }

  function WithoutFinalDot(s: string): string { if HasSuffix(s, ".") then s[..|s| - 1] else s }

  /** normalizeHostnameSuggestion. */
  function Normalized(value: string, isAddress: string -> bool): Option<string> {
    var trimmed := TrimSpace(value);
    if trimmed == "" || !Ascii(trimmed) then None
    else
      var name := WithoutFinalDot(LowerAsciiText(trimmed));
      if HasSuffix(name, ".") || '.' !in name || !ValidHost(name, isAddress) then None else Some(name)
  }

  function Normalizer(isAddress: string -> bool): string -> Option<string> { value => Normalized(value, isAddress) }

  lemma LowerIsAscii(s: string)
    requires Ascii(s)
    ensures Ascii(LowerAsciiText(s)) && Ascii(WithoutFinalDot(LowerAsciiText(s)))
  {
    var lower := LowerAsciiText(s);
    forall i | 0 <= i < |s| ensures lower[i] < '\U{80}' { assert s[i] in s; }
  }

  /** A normal form is its own normal form, and fit for a metadata document but for its length. */
  lemma NormalFormIsStable(value: string, isAddress: string -> bool)
    requires Normalized(value, isAddress).Some?
    ensures var name := Normalized(value, isAddress).value;
            Normalized(name, isAddress) == Some(name) && M.Canonical(name) && |name| <= MAX_HOST_LENGTH
  {
    hide ValidLabel, Labels;
    LowerIsAscii(TrimSpace(value));
  }

  lemma ValidHostIsHostname(s: string, isAddress: string -> bool)
    requires '.' in s && ValidHost(s, isAddress)
    ensures IsHostname(s) && !isAddress(s)
  {
    FirstLabel(s);
    hide Labels;
    forall part | part in Labels(s) ensures IsLabel(part) { assert ValidLabel(part); }
  }

  lemma HostnameEnds(s: string)
    requires IsHostname(s)
    ensures s != "" && '.' in s && !HasSuffix(s, ".")
  {
    FirstLabel(s);
    LastLabel(s);
    var last := Labels(s)[|Labels(s)| - 1];
    assert last in Labels(s) && IsLabel(last);
    hide Labels;
    assert last[|last| - 1] in last && last[|last| - 1] == s[|s| - 1];
  }

  lemma HostnameIsValid(s: string, isAddress: string -> bool)
    requires IsHostname(s) && !isAddress(s)
    ensures '.' in s && ValidHost(s, isAddress)
  {
    HostnameEnds(s);
    HostnameChars(s);
    hide LowerAsciiText;
    assert s[0] in s && s[|s| - 1] in s;
    TrimsNothing(s);
    hide Labels, TrimSpace;
    forall part | part in Labels(s) ensures ValidLabel(part) { assert IsLabel(part); }
  }

  lemma HostnameChars(s: string)
    requires IsHostname(s)
    ensures forall c | c in s ::
              LowerChar(c, (x: char) => x) == c && c < '\U{80}' && !ControlRune(c as int) && !SpaceRune(c as int)
    ensures LowerAsciiText(s) == s
  {
    forall c | c in s ensures 'a' <= c <= 'z' || '0' <= c <= '9' || c == '-' || c == '.' {
      if c != '.' {
        CharsOfLabels(s, c);
        var part :| part in Labels(s) && c in part;
        assert IsLabel(part);
      }
    }
    forall i | 0 <= i < |s| ensures LowerChar(s[i], (x: char) => x) == s[i] { assert s[i] in s; }
  }

  /** A text names a hostname exactly when that is what is left without blanks around it, case and one final dot. */
  lemma NormalFormExactly(value: string, name: string, isAddress: string -> bool)
    ensures Normalized(value, isAddress) == Some(name)
       <==> && IsHostname(name) && !isAddress(name) && Ascii(TrimSpace(value))
            && (LowerAsciiText(TrimSpace(value)) == name || LowerAsciiText(TrimSpace(value)) == name + ".")
  {
    var left := WithoutFinalDot(LowerAsciiText(TrimSpace(value)));
    if '.' in left && ValidHost(left, isAddress) { ValidHostIsHostname(left, isAddress); }
    if IsHostname(name) && !isAddress(name) {
      HostnameIsValid(name, isAddress);
      HostnameEnds(name);
    }
    WithoutDot(LowerAsciiText(TrimSpace(value)), name);
    hide IsHostname, ValidHost, WithoutFinalDot, TrimSpace;
  }

  lemma WithoutDot(s: string, name: string)
    ensures !HasSuffix(name, ".") ==> (WithoutFinalDot(s) == name <==> s == name || s == name + ".")
  {
    assert HasSuffix(name + ".", ".") && (name + ".")[..|name|] == name;
    if HasSuffix(s, ".") { assert s == s[..|s| - 1] + "."; }
  }

  // Wildcards

  /** The suffix is the normal form of what follows the only asterisk, a label of its own. */
  lemma WildcardExactly(raw: string, suffix: string, normalize: string -> Option<string>)
    ensures WildcardSuffix(raw, normalize) == Some(suffix)
       <==> exists rest :: TrimSpace(raw) == "*." + rest && '*' !in rest && normalize(rest) == Some(suffix)
  {
    var domain := TrimSpace(raw);
    if HasPrefix(domain, "*.") {
      assert domain == "*." + domain[2..] && domain[1..] == "." + domain[2..];
    }
    if rest :| domain == "*." + rest { assert domain[2..] == rest; }
  }

  /** extractHostnameSuggestionWildcardSuffix. */
  function WildcardSuffix(raw: string, normalize: string -> Option<string>): Option<string> {
    var domain := TrimSpace(raw);
    if HasPrefix(domain, "*.") && '*' !in domain[1..] then normalize(domain[2..]) else None
  }

  function Suffixes(domains: seq<string>, normalize: string -> Option<string>): set<string> {
    set d | d in domains && WildcardSuffix(d, normalize).Some? :: WildcardSuffix(d, normalize).value
  }

  /** What the filter asks of the rest of the program. */
  datatype Filter = Filter(supported: ProxyHost -> bool, normalize: string -> Option<string>,
                           concrete: string -> bool) {
    predicate ConcreteDomain(d: string) { WildcardSuffix(d, normalize).None? && concrete(TrimSpace(d)) }

    predicate HasConcrete(domains: seq<string>) { exists d | d in domains :: ConcreteDomain(d) }

    predicate Examined(h: ProxyHost) { h.id > 0 && supported(h) }

    function Domains(): ProxyHost -> nat { h => if Examined(h) then |h.domainNames| else 0 }

    function WildcardsOf(): ProxyHost -> nat { h => if Examined(h) then |Suffixes(h.domainNames, normalize)| else 0 }

    predicate Eligible(h: ProxyHost, metadata: Option<M.Metadata>) {
      Examined(h) && Suffixes(h.domainNames, normalize) != {} && !HasConcrete(h.domainNames)
        && NameIfUnlinked(h.id, metadata).Some?
    }

    ghost function EligibleOf(h: ProxyHost, metadata: Option<M.Metadata>): EligibleHost
      requires Eligible(h, metadata)
    {
      EligibleHost(h.id, SortedKeys(Suffixes(h.domainNames, normalize)), NameIfUnlinked(h.id, metadata).value)
    }
  }

  /** The name the metadata gives a service, unless it gives it a URL too. */
  function NameIfUnlinked(id: int, metadata: Option<M.Metadata>): Option<string> {
    if metadata.None? || id !in metadata.value.overrides then Some("")
    else if metadata.value.overrides[id].url != "" then None
    else Some(metadata.value.overrides[id].name)
  }

  // The list of eligible hosts

  const MAX_HOSTS := 1024
  const MAX_DOMAINS := 4096
  const MAX_SUFFIXES := 2048

  datatype Refusal = TooManyHosts | DuplicateIds | TooManyDomains | TooManySuffixes

  ghost predicate DistinctPositiveIds(hosts: seq<ProxyHost>) {
    forall i, j | 0 <= i < j < |hosts| && hosts[i].id > 0 :: hosts[i].id != hosts[j].id
  }

  ghost predicate Broken(e: Refusal, hosts: seq<ProxyHost>, f: Filter) {
    match e
    case TooManyHosts => |hosts| > MAX_HOSTS
    case DuplicateIds => !DistinctPositiveIds(hosts)
    case TooManyDomains => SumOf(hosts, f.Domains()) > MAX_DOMAINS
    case TooManySuffixes => SumOf(hosts, f.WildcardsOf()) > MAX_SUFFIXES
  }

  // Which refusal: the first one met, host by host and domain by domain

  /** Counting the j-th domain is what passes this bound; the domain itself counts before its suffix. */
  predicate PassesAt(e: Refusal, domains: seq<string>, j: nat, domains0: nat, suffixes0: nat,
                     normalize: string -> Option<string>)
    requires 0 < j <= |domains|
  {
    && domains0 + j - 1 <= MAX_DOMAINS && suffixes0 + |Suffixes(domains[..j - 1], normalize)| <= MAX_SUFFIXES
    && match e
       case TooManyDomains => domains0 + j > MAX_DOMAINS
       case TooManySuffixes =>
         domains0 + j <= MAX_DOMAINS && suffixes0 + |Suffixes(domains[..j], normalize)| > MAX_SUFFIXES
       case _ => false
  }

  predicate Passes(e: Refusal, domains: seq<string>, domains0: nat, suffixes0: nat,
                   normalize: string -> Option<string>) {
    exists j | 0 < j <= |domains| :: PassesAt(e, domains, j, domains0, suffixes0, normalize)
  }

  ghost predicate RepeatsId(hosts: seq<ProxyHost>, k: nat)
    requires k < |hosts|
  {
    hosts[k].id > 0 && exists i | 0 <= i < k :: hosts[i].id == hosts[k].id
  }

  /** Nothing is wrong with the first k hosts. */
  ghost predicate Clean(hosts: seq<ProxyHost>, k: nat, f: Filter)
    requires k <= |hosts|
  {
    && DistinctPositiveIds(hosts[..k])
    && Counted(SumOf(hosts[..k], f.Domains()), SumOf(hosts[..k], f.WildcardsOf()), hosts[..k], f)
  }

  /** Nothing is wrong before host k, and this is wrong with it: the id is looked at before the domains. */
  ghost predicate StopsAt(e: Refusal, hosts: seq<ProxyHost>, k: nat, f: Filter)
    requires k < |hosts|
  {
    && Clean(hosts, k, f)
    && if RepeatsId(hosts, k) then e == DuplicateIds
       else
         && f.Examined(hosts[k])
         && Passes(e, hosts[k].domainNames, SumOf(hosts[..k], f.Domains()), SumOf(hosts[..k], f.WildcardsOf()),
                   f.normalize)
  }

  ghost predicate Refused(e: Refusal, hosts: seq<ProxyHost>, f: Filter) {
    if |hosts| > MAX_HOSTS then e == TooManyHosts else exists k | 0 <= k < |hosts| :: StopsAt(e, hosts, k, f)
  }

  ghost predicate AscendingHosts(list: seq<EligibleHost>) {
    forall i, j | 0 <= i < j < |list| :: list[i].id < list[j].id
  }

  ghost predicate Lists(list: seq<EligibleHost>, hosts: seq<ProxyHost>, metadata: Option<M.Metadata>, f: Filter) {
    forall e :: e in list <==> exists h | h in hosts && f.Eligible(h, metadata) :: e == f.EligibleOf(h, metadata)
  }

  /** An error exactly when a bound or the uniqueness of ids is broken, the first one met; else the hosts by id. */
  ghost predicate IsEligibleList(r: Result<seq<EligibleHost>, Refusal>, hosts: seq<ProxyHost>,
                                 metadata: Option<M.Metadata>, f: Filter) {
    && (r.Err? <==> exists e :: Broken(e, hosts, f))
    && (r.Err? ==> Broken(r.error, hosts, f) && Refused(r.error, hosts, f))
    && (r.Ok? ==> AscendingHosts(r.value) && Lists(r.value, hosts, metadata, f))
  }

  lemma SuffixesAppend(domains: seq<string>, d: string, normalize: string -> Option<string>)
    ensures Suffixes(domains + [d], normalize)
         == Suffixes(domains, normalize)
           + (if WildcardSuffix(d, normalize).Some? then {WildcardSuffix(d, normalize).value} else {})
  {
    assert d in domains + [d];
    assert forall x | x in domains :: x in domains + [d];
  }

  lemma SuffixesGrow(domains: seq<string>, k: nat, normalize: string -> Option<string>)
    requires k <= |domains|
    ensures |Suffixes(domains[..k], normalize)| <= |Suffixes(domains, normalize)|
  {
    hide WildcardSuffix;
    SubsetSize(Suffixes(domains[..k], normalize), Suffixes(domains, normalize));
  }

  /** The loop over the domains of one host, with both running totals. */
  method ScanDomains(domains: seq<string>, domains0: nat, suffixes0: nat, f: Filter)
      returns (refusal: Option<Refusal>, wildcards: set<string>, concrete: bool, domainTotal: nat, suffixTotal: nat)
    requires domains0 <= MAX_DOMAINS && suffixes0 <= MAX_SUFFIXES
    ensures refusal.None? <==>
            domains0 + |domains| <= MAX_DOMAINS && suffixes0 + |Suffixes(domains, f.normalize)| <= MAX_SUFFIXES
    ensures refusal.Some? ==> Passes(refusal.value, domains, domains0, suffixes0, f.normalize)
    ensures refusal.None? ==>
              && wildcards == Suffixes(domains, f.normalize) && (concrete <==> f.HasConcrete(domains))
              && domainTotal == domains0 + |domains| && suffixTotal == suffixes0 + |wildcards|
  {
    hide Suffixes, WildcardSuffix, Filter.HasConcrete;
    wildcards, concrete, domainTotal, suffixTotal := {}, false, domains0, suffixes0;
    NothingScanned(f);
    assert domains[..0] == [];
    for k := 0 to |domains|
      invariant domainTotal == domains0 + k <= MAX_DOMAINS
      invariant wildcards == Suffixes(domains[..k], f.normalize)
      invariant suffixTotal == suffixes0 + |wildcards| <= MAX_SUFFIXES
      invariant concrete <==> f.HasConcrete(domains[..k])
    {
      domainTotal := domainTotal + 1;
      assert domains[..k + 1][..k] == domains[..k];
      if domainTotal > MAX_DOMAINS {
        assert PassesAt(TooManyDomains, domains, k + 1, domains0, suffixes0, f.normalize);
        return Some(TooManyDomains), wildcards, concrete, domainTotal, suffixTotal;
      }
      assert domains[..k + 1] == domains[..k] + [domains[k]];
      SuffixesAppend(domains[..k], domains[k], f.normalize);
      ConcreteAppend(domains[..k], domains[k], f);
      var suffix := WildcardSuffix(domains[k], f.normalize);
      if suffix.Some? {
        if suffix.value !in wildcards {
          suffixTotal := suffixTotal + 1;
          if suffixTotal > MAX_SUFFIXES {
            SuffixesGrow(domains, k + 1, f.normalize);
            assert PassesAt(TooManySuffixes, domains, k + 1, domains0, suffixes0, f.normalize);
            return Some(TooManySuffixes), wildcards, concrete, domainTotal, suffixTotal;
          }
          wildcards := wildcards + {suffix.value};
        }
        assert wildcards == Suffixes(domains[..k + 1], f.normalize);
        continue;
      }
      if f.concrete(TrimSpace(domains[k])) { concrete := true; }
    }
    assert domains[..|domains|] == domains;
    refusal := None;
  }

  lemma NothingScanned(f: Filter)
    ensures Suffixes([], f.normalize) == {} && !f.HasConcrete([])
  {
  }

  lemma ConcreteAppend(domains: seq<string>, d: string, f: Filter)
    ensures f.HasConcrete(domains + [d]) <==> f.HasConcrete(domains) || f.ConcreteDomain(d)
  {
    hide Filter.ConcreteDomain;
    assert d in domains + [d];
    assert forall x | x in domains :: x in domains + [d];
  }

  method SortSuffixes(suffixes: set<string>) returns (sorted: seq<string>)
    ensures sorted == SortedKeys(suffixes)
  {
    var order := RangeOver(suffixes);
    LessForSorting();
    sorted := SortSlice(order, Less);
    SortedIsAscending(order, sorted);
    AscendingUnique(sorted, SortedKeys(suffixes));
  }

  /** What the loop over hosts has seen of the first k. */
  ghost predicate Seen(ids: set<int>, list: seq<EligibleHost>, hosts: seq<ProxyHost>, metadata: Option<M.Metadata>,
                       f: Filter) {
    && DistinctPositiveIds(hosts)
    && (forall id :: id in ids <==> id > 0 && exists h | h in hosts :: h.id == id)
    && Lists(list, hosts, metadata, f)
    && (forall i, j | 0 <= i < j < |list| :: list[i].id != list[j].id)
  }

  lemma SeenHost(ids: set<int>, list: seq<EligibleHost>, hosts: seq<ProxyHost>, h: ProxyHost,
                 metadata: Option<M.Metadata>, f: Filter)
    requires Seen(ids, list, hosts, metadata, f) && h.id !in ids
    ensures Seen(if h.id > 0 then ids + {h.id} else ids,
                 list + (if f.Eligible(h, metadata) then [f.EligibleOf(h, metadata)] else []), hosts + [h], metadata, f)
  {
    var more := list + (if f.Eligible(h, metadata) then [f.EligibleOf(h, metadata)] else []);
    assert forall x :: x in hosts + [h] <==> x in hosts || x == h;
    SeenList(list, more, hosts, h, metadata, f);
    ListedIds(ids, list, hosts, metadata, f);
    hide Lists;
    forall i, j | 0 <= i < j < |more| ensures more[i].id != more[j].id {
      assert more[i] in list;
    }
    forall i | 0 <= i < |hosts| && hosts[i].id > 0 ensures hosts[i].id != h.id { assert hosts[i] in hosts; }
  }

  lemma ListedIds(ids: set<int>, list: seq<EligibleHost>, hosts: seq<ProxyHost>, metadata: Option<M.Metadata>,
                  f: Filter)
    requires Seen(ids, list, hosts, metadata, f)
    ensures forall e | e in list :: e.id in ids
  {
    forall e | e in list ensures e.id in ids {
      var x :| x in hosts && f.Eligible(x, metadata) && e == f.EligibleOf(x, metadata);
    }
  }

  lemma SeenList(list: seq<EligibleHost>, more: seq<EligibleHost>, hosts: seq<ProxyHost>, h: ProxyHost,
                 metadata: Option<M.Metadata>, f: Filter)
    requires Lists(list, hosts, metadata, f)
    requires more == list + (if f.Eligible(h, metadata) then [f.EligibleOf(h, metadata)] else [])
    ensures Lists(more, hosts + [h], metadata, f)
  {
    hide Filter.Eligible, Filter.EligibleOf;
    assert forall x :: x in hosts + [h] <==> x in hosts || x == h;
    forall e ensures e in more <==> exists x | x in hosts + [h] && f.Eligible(x, metadata) ::
        e == f.EligibleOf(x, metadata) {
      if x :| x in hosts && f.Eligible(x, metadata) && e == f.EligibleOf(x, metadata) { assert x in hosts + [h]; }
    }
  }

  /** The running totals for the hosts so far, within their bounds. */
  predicate Counted(domains: nat, suffixes: nat, hosts: seq<ProxyHost>, f: Filter) {
    domains == SumOf(hosts, f.Domains()) <= MAX_DOMAINS && suffixes == SumOf(hosts, f.WildcardsOf()) <= MAX_SUFFIXES
  }

  lemma CountedBounds(domains: nat, suffixes: nat, hosts: seq<ProxyHost>, f: Filter)
    requires Counted(domains, suffixes, hosts, f)
    ensures domains <= MAX_DOMAINS && suffixes <= MAX_SUFFIXES
  {
  }

  lemma CountedHost(domains: nat, suffixes: nat, hosts: seq<ProxyHost>, h: ProxyHost, f: Filter)
    requires Counted(domains, suffixes, hosts, f)
    ensures var d, s := domains + f.Domains()(h), suffixes + f.WildcardsOf()(h);
            Counted(d, s, hosts + [h], f) <==> d <= MAX_DOMAINS && s <= MAX_SUFFIXES
  {
    SumAppend(hosts, h, f.Domains());
    SumAppend(hosts, h, f.WildcardsOf());
  }

  predicate IdLess(a: EligibleHost, b: EligibleHost) { a.id < b.id }

  /** The loop body: what one host adds to the list and to the totals. */
  method Consider(host: ProxyHost, domains0: nat, suffixes0: nat, metadata: Option<M.Metadata>, f: Filter)
      returns (refusal: Option<Refusal>, entry: Option<EligibleHost>, domainTotal: nat, suffixTotal: nat)
    requires domains0 <= MAX_DOMAINS && suffixes0 <= MAX_SUFFIXES
    ensures refusal.None? <==>
            domains0 + f.Domains()(host) <= MAX_DOMAINS && suffixes0 + f.WildcardsOf()(host) <= MAX_SUFFIXES
    ensures refusal.Some? ==>
              f.Examined(host) && Passes(refusal.value, host.domainNames, domains0, suffixes0, f.normalize)
    ensures refusal.None? ==>
              && domainTotal == domains0 + f.Domains()(host) && suffixTotal == suffixes0 + f.WildcardsOf()(host)
              && entry == if f.Eligible(host, metadata) then Some(f.EligibleOf(host, metadata)) else None
  {
    hide Suffixes, NameIfUnlinked, Passes;
    entry, domainTotal, suffixTotal := None, domains0, suffixes0;
    if !f.Examined(host) { return None, None, domainTotal, suffixTotal; }
    var wildcards, concrete;
    refusal, wildcards, concrete, domainTotal, suffixTotal := ScanDomains(host.domainNames, domains0, suffixes0, f);
    if refusal.Some? { return; }
    var name := NameIfUnlinked(host.id, metadata);
    if concrete || wildcards == {} || name.None? { return; }
    var suffixes := SortSuffixes(wildcards);
    entry := Some(EligibleHost(host.id, suffixes, name.value));
  }

  method EligibleHostnameSuggestionHosts(hosts: seq<ProxyHost>, metadata: Option<M.Metadata>, f: Filter)
      returns (r: Result<seq<EligibleHost>, Refusal>)
    ensures IsEligibleList(r, hosts, metadata, f)
  {
    if |hosts| > MAX_HOSTS {
      TooMany(hosts, metadata, f);
      return Err(TooManyHosts);
    }
    hide IsEligibleList, Broken, Refused, StopsAt, Passes, RepeatsId, Seen, Counted, Filter.Domains, Filter.WildcardsOf,
      Filter.Eligible, Filter.EligibleOf;
    var seen: set<int> := {};
    var eligible: seq<EligibleHost> := [];
    var domainTotal, suffixTotal := 0, 0;
    NothingSeen(metadata, f);
    NothingSummed(f);
    assert hosts[..0] == [];
    for k := 0 to |hosts|
      invariant Seen(seen, eligible, hosts[..k], metadata, f)
      invariant Counted(domainTotal, suffixTotal, hosts[..k], f)
    {
      var host := hosts[k];
      assert hosts[..k + 1] == hosts[..k] + [host];
      CountedBounds(domainTotal, suffixTotal, hosts[..k], f);
      CountedHost(domainTotal, suffixTotal, hosts[..k], host, f);
      if host.id > 0 && host.id in seen {
        IdTwice(seen, eligible, domainTotal, suffixTotal, hosts, k, metadata, f);
        RefusedFor(DuplicateIds, k, hosts, metadata, f);
        return Err(DuplicateIds);
      }
      OnlyPositive(seen, eligible, hosts[..k], metadata, f);
      SeenHost(seen, eligible, hosts[..k], host, metadata, f);
      IdIsNew(seen, eligible, hosts, k, metadata, f);
      if host.id > 0 { seen := seen + {host.id}; }
      ghost var domainsBefore, suffixesBefore := domainTotal, suffixTotal;
      var refusal, entry;
      refusal, entry, domainTotal, suffixTotal := Consider(host, domainTotal, suffixTotal, metadata, f);
      if refusal.Some? {
        TotalPassed(refusal.value, domainsBefore, suffixesBefore, hosts, k, f);
        RefusedFor(refusal.value, k, hosts, metadata, f);
        return Err(refusal.value);
      }
      eligible := eligible + (if entry.Some? then [entry.value] else []);
    }
    assert hosts[..|hosts|] == hosts;
    var sorted := SortSlice(eligible, IdLess);
    NothingBroken(seen, eligible, sorted, hosts, metadata, f);
    return Ok(sorted);
  }

  lemma NothingSeen(metadata: Option<M.Metadata>, f: Filter)
    ensures Seen({}, [], [], metadata, f)
  {
  }

  lemma NothingSummed(f: Filter)
    ensures Counted(0, 0, [], f)
  {
  }

  lemma TooMany(hosts: seq<ProxyHost>, metadata: Option<M.Metadata>, f: Filter)
    requires |hosts| > MAX_HOSTS
    ensures IsEligibleList(Err(TooManyHosts), hosts, metadata, f)
  {
    assert Broken(TooManyHosts, hosts, f);
  }

  lemma RefusedFor(e: Refusal, k: nat, hosts: seq<ProxyHost>, metadata: Option<M.Metadata>, f: Filter)
    requires k < |hosts| <= MAX_HOSTS && Broken(e, hosts, f) && StopsAt(e, hosts, k, f)
    ensures IsEligibleList(Err(e), hosts, metadata, f)
  {
    hide Broken, StopsAt;
  }

  lemma IdIsNew(ids: set<int>, list: seq<EligibleHost>, hosts: seq<ProxyHost>, k: nat, metadata: Option<M.Metadata>,
                f: Filter)
    requires k < |hosts| && Seen(ids, list, hosts[..k], metadata, f) && hosts[k].id !in ids
    ensures DistinctPositiveIds(hosts[..k]) && !RepeatsId(hosts, k)
  {
    forall i | 0 <= i < k && hosts[k].id > 0 ensures hosts[i].id != hosts[k].id {
      assert hosts[..k][i] == hosts[i] && hosts[i] in hosts[..k];
    }
  }

  lemma OnlyPositive(ids: set<int>, list: seq<EligibleHost>, hosts: seq<ProxyHost>, metadata: Option<M.Metadata>,
                     f: Filter)
    requires Seen(ids, list, hosts, metadata, f)
    ensures forall id | id in ids :: id > 0
  {
  }

  lemma IdTwice(ids: set<int>, list: seq<EligibleHost>, domains: nat, suffixes: nat, hosts: seq<ProxyHost>, k: nat,
                metadata: Option<M.Metadata>, f: Filter)
    requires k < |hosts| && Seen(ids, list, hosts[..k], metadata, f) && hosts[k].id in ids
    requires Counted(domains, suffixes, hosts[..k], f)
    ensures Broken(DuplicateIds, hosts, f) && StopsAt(DuplicateIds, hosts, k, f)
  {
    var h :| h in hosts[..k] && h.id == hosts[k].id;
    var i :| 0 <= i < k && hosts[..k][i] == h;
    assert hosts[i].id == hosts[k].id;
  }

  /** Some total has passed its bound by the end of the list. */
  lemma PassedMeans(e: Refusal, domains: seq<string>, domains0: nat, suffixes0: nat,
                    normalize: string -> Option<string>)
    requires Passes(e, domains, domains0, suffixes0, normalize)
    ensures || (e == TooManyDomains && domains0 + |domains| > MAX_DOMAINS)
            || (e == TooManySuffixes && suffixes0 + |Suffixes(domains, normalize)| > MAX_SUFFIXES)
  {
    var j :| 0 < j <= |domains| && PassesAt(e, domains, j, domains0, suffixes0, normalize);
    SuffixesGrow(domains, j, normalize);
  }

  lemma TotalPassed(e: Refusal, domains: nat, suffixes: nat, hosts: seq<ProxyHost>, k: nat, f: Filter)
    requires k < |hosts| && Counted(domains, suffixes, hosts[..k], f) && f.Examined(hosts[k])
    requires DistinctPositiveIds(hosts[..k]) && !RepeatsId(hosts, k)
    requires Passes(e, hosts[k].domainNames, domains, suffixes, f.normalize)
    ensures Broken(e, hosts, f) && StopsAt(e, hosts, k, f)
  {
    hide Passes, Suffixes;
    PassedMeans(e, hosts[k].domainNames, domains, suffixes, f.normalize);
    HostPasses(hosts, k, f);
  }

  lemma HostPasses(hosts: seq<ProxyHost>, k: nat, f: Filter)
    requires k < |hosts|
    ensures SumOf(hosts, f.Domains()) >= SumOf(hosts[..k], f.Domains()) + f.Domains()(hosts[k])
    ensures SumOf(hosts, f.WildcardsOf()) >= SumOf(hosts[..k], f.WildcardsOf()) + f.WildcardsOf()(hosts[k])
  {
    assert hosts[..k + 1] == hosts[..k] + [hosts[k]];
    SumAppend(hosts[..k], hosts[k], f.Domains());
    SumAppend(hosts[..k], hosts[k], f.WildcardsOf());
    SumGrows(hosts, k + 1, f.Domains());
    SumGrows(hosts, k + 1, f.WildcardsOf());
  }

  lemma NothingBroken(ids: set<int>, list: seq<EligibleHost>, sorted: seq<EligibleHost>, hosts: seq<ProxyHost>,
                      metadata: Option<M.Metadata>, f: Filter)
    requires Seen(ids, list, hosts, metadata, f) && |hosts| <= MAX_HOSTS
    requires exists domains, suffixes :: Counted(domains, suffixes, hosts, f)
    requires SortedBy(sorted, IdLess) && multiset(sorted) == multiset(list)
    ensures IsEligibleList(Ok(sorted), hosts, metadata, f)
  {
    hide AscendingHosts, Filter.Eligible, Filter.EligibleOf;
    SameElements(sorted, list);
    SortedHostsAscend(list, sorted);
  }

  lemma SortedHostsAscend(list: seq<EligibleHost>, sorted: seq<EligibleHost>)
    requires forall i, j | 0 <= i < j < |list| :: list[i].id != list[j].id
    requires SortedBy(sorted, IdLess) && multiset(sorted) == multiset(list)
    ensures AscendingHosts(sorted)
  {
    SameElements(sorted, list);
    DistinctMultiset(list);
    forall i, j | 0 <= i < j < |sorted| ensures sorted[i].id < sorted[j].id {
      assert !IdLess(sorted[j], sorted[i]);
      assert sorted[i] in list && sorted[j] in list;
      if sorted[i] == sorted[j] {
        TwoCopies(sorted, i, j);
      } else {
        var k :| 0 <= k < |list| && list[k] == sorted[i];
        var l :| 0 <= l < |list| && list[l] == sorted[j];
      }
    }
  }

  // Order

  lemma {:induction false} AscendingHostsUnique(a: seq<EligibleHost>, b: seq<EligibleHost>)
    requires AscendingHosts(a) && AscendingHosts(b)
    requires forall e :: e in a <==> e in b
    ensures a == b
  {
    if a == [] {
      HasMember(b);
    } else {
      assert a[0] in b && b[0] in a;
      forall e ensures e in a[1..] <==> e in b[1..] {
        HostsTail(a, e);
        HostsTail(b, e);
      }
      AscendingHostsUnique(a[1..], b[1..]);
    }
  }

  lemma HostsTail(a: seq<EligibleHost>, e: EligibleHost)
    requires a != [] && AscendingHosts(a)
    ensures e in a[1..] <==> e in a && e != a[0]
  {
  }

  lemma DistinctPositivePermuted(h1: seq<ProxyHost>, h2: seq<ProxyHost>)
    requires multiset(h1) == multiset(h2) && DistinctPositiveIds(h1)
    ensures DistinctPositiveIds(h2)
  {
    SameElements(h1, h2);
    forall i, j | 0 <= i < j < |h2| && h2[i].id > 0 && h2[i].id == h2[j].id ensures false {
      assert h2[i] in h1 && h2[j] in h1;
      var k :| 0 <= k < |h1| && h1[k] == h2[i];
      var l :| 0 <= l < |h1| && h1[l] == h2[j];
      assert k == l;
      TwoCopies(h2, i, j);
      OneCopy(h1, k);
    }
  }

  lemma OneCopy(hosts: seq<ProxyHost>, k: nat)
    requires k < |hosts| && DistinctPositiveIds(hosts) && hosts[k].id > 0
    ensures multiset(hosts)[hosts[k]] == 1
  {
    assert hosts == hosts[..k] + [hosts[k]] + hosts[k + 1..];
    assert hosts[k] !in hosts[..k] && hosts[k] !in hosts[k + 1..];
    assert multiset(hosts) == multiset(hosts[..k]) + multiset{hosts[k]} + multiset(hosts[k + 1..]);
  }

  lemma BrokenPermuted(e: Refusal, h1: seq<ProxyHost>, h2: seq<ProxyHost>, f: Filter)
    requires multiset(h1) == multiset(h2) && Broken(e, h1, f)
    ensures Broken(e, h2, f)
  {
    SameLength(h1, h2);
    SumPermuted(h1, h2, f.Domains());
    SumPermuted(h1, h2, f.WildcardsOf());
    if e == DuplicateIds && DistinctPositiveIds(h2) { DistinctPositivePermuted(h2, h1); }
  }

  // The first refusal is one

  lemma PassedStays(e: Refusal, domains: seq<string>, i: nat, j: nat, domains0: nat, suffixes0: nat,
                    normalize: string -> Option<string>)
    requires 0 < i < j <= |domains| && PassesAt(e, domains, i, domains0, suffixes0, normalize)
    ensures domains0 + j - 1 > MAX_DOMAINS || suffixes0 + |Suffixes(domains[..j - 1], normalize)| > MAX_SUFFIXES
  {
    assert domains[..j - 1][..i] == domains[..i];
    SuffixesGrow(domains[..j - 1], i, normalize);
  }

  lemma PassesIsUnique(e: Refusal, g: Refusal, domains: seq<string>, domains0: nat, suffixes0: nat,
                       normalize: string -> Option<string>)
    requires Passes(e, domains, domains0, suffixes0, normalize) && Passes(g, domains, domains0, suffixes0, normalize)
    ensures e == g
  {
    hide Suffixes;
    var i :| 0 < i <= |domains| && PassesAt(e, domains, i, domains0, suffixes0, normalize);
    var j :| 0 < j <= |domains| && PassesAt(g, domains, j, domains0, suffixes0, normalize);
    if i < j { PassedStays(e, domains, i, j, domains0, suffixes0, normalize); }
    if j < i { PassedStays(g, domains, j, i, domains0, suffixes0, normalize); }
  }

  /** Behind the host that is refused no other can be the first. */
  lemma StopEndsClean(e: Refusal, hosts: seq<ProxyHost>, k: nat, n: nat, f: Filter)
    requires k < n <= |hosts| && StopsAt(e, hosts, k, f)
    ensures !Clean(hosts, n, f)
  {
    hide Suffixes, Passes;
    var before := hosts[..n];
    assert before[..k] == hosts[..k] && before[k] == hosts[k];
    if RepeatsId(hosts, k) {
      var i :| 0 <= i < k && hosts[i].id == hosts[k].id;
      assert before[i].id == before[k].id && before[i].id > 0;
    } else {
      PassedMeans(e, hosts[k].domainNames, SumOf(hosts[..k], f.Domains()), SumOf(hosts[..k], f.WildcardsOf()),
                  f.normalize);
      HostPasses(before, k, f);
    }
  }

  /** The outcome, the refusal included, is determined by the hosts in their order. */
  lemma EligibleIsUnique(r1: Result<seq<EligibleHost>, Refusal>, r2: Result<seq<EligibleHost>, Refusal>,
                         hosts: seq<ProxyHost>, metadata: Option<M.Metadata>, f: Filter)
    requires IsEligibleList(r1, hosts, metadata, f) && IsEligibleList(r2, hosts, metadata, f)
    ensures r1 == r2
  {
    if r1.Err? && |hosts| <= MAX_HOSTS {
      hide Broken, Clean;
      var k :| 0 <= k < |hosts| && StopsAt(r1.error, hosts, k, f);
      var n :| 0 <= n < |hosts| && StopsAt(r2.error, hosts, n, f);
      if k < n { StopEndsClean(r1.error, hosts, k, n, f); }
      if n < k { StopEndsClean(r2.error, hosts, n, k, f); }
      if !RepeatsId(hosts, k) {
        PassesIsUnique(r1.error, r2.error, hosts[k].domainNames, SumOf(hosts[..k], f.Domains()),
                       SumOf(hosts[..k], f.WildcardsOf()), f.normalize);
      }
    } else if r1.Ok? {
      AscendingHostsUnique(r1.value, r2.value);
    }
  }

  /**
   * Whether the hosts are accepted, and then the whole list, does not depend on their order. (Which
   * of several broken conditions is met first does.)
   */
  lemma EligibleIsOrderFree(r1: Result<seq<EligibleHost>, Refusal>, r2: Result<seq<EligibleHost>, Refusal>,
                            h1: seq<ProxyHost>, h2: seq<ProxyHost>, metadata: Option<M.Metadata>, f: Filter)
    requires multiset(h1) == multiset(h2)
    requires IsEligibleList(r1, h1, metadata, f) && IsEligibleList(r2, h2, metadata, f)
    ensures r1.Ok? <==> r2.Ok?
    ensures r1.Ok? ==> r1 == r2
  {
    if r1.Err? {
      BrokenPermuted(r1.error, h1, h2, f);
    } else if r2.Err? {
      BrokenPermuted(r2.error, h2, h1, f);
    } else {
      SameElements(h1, h2);
      AscendingHostsUnique(r1.value, r2.value);
    }
  }
}
