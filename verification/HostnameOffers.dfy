/** What is suggested and proposed, told from the names, the proxy hosts and the metadata themselves. */
module HostnameOffers {
  import opened Common
  import opened Ordering
  import opened ServiceCards
  import opened HostnameLabels
  import opened HostnameGraph
  import opened HostnameSuggestions
  import opened HostnameCandidates
  import opened HostnameEligibility
  import opened HostnameProposal
  import M = ServiceMetadata

  /** Some of the texts names this hostname. */
  predicate Mentions(texts: seq<string>, name: string, isAddress: string -> bool) {
    exists text | text in texts :: Normalized(text, isAddress) == Some(name)
  }

  /** The domain is a wildcard for all names below the suffix. */
  ghost predicate IsWildcard(domain: string, suffix: string, isAddress: string -> bool) {
    exists rest :: TrimSpace(domain) == "*." + rest && '*' !in rest && Normalized(rest, isAddress) == Some(suffix)
  }

  /** A host that takes names: reachable, without an address of its own, and without a URL in the metadata. */
  ghost predicate TakesNames(h: ProxyHost, x: Inputs, t: Tools) {
    && h.id > 0 && t.supported(h)
    && (forall d | d in h.domainNames && t.urls.validConcreteDomain(TrimSpace(d)) ::
          exists suffix :: IsWildcard(d, suffix, t.isAddress))
    && (x.metadata.Some? && h.id in x.metadata.value.overrides ==> x.metadata.value.overrides[h.id].url == "")
  }

  ghost predicate Covers(h: ProxyHost, name: string, t: Tools) {
    exists d, suffix | d in h.domainNames :: IsWildcard(d, suffix, t.isAddress) && IsSubdomain(name, suffix)
  }

  /** The name is mentioned, and a host with the id takes it under one of its wildcards. */
  ghost function Offers(x: Inputs, t: Tools): Edges {
    (name, id) =>
      && (Mentions(x.control, name, t.isAddress) || Mentions(x.stdin, name, t.isAddress))
      && exists h | h in x.hosts :: h.id == id && TakesNames(h, x, t) && Covers(h, name, t)
  }

  lemma MentionsAreNames(texts: seq<string>, name: string, isAddress: string -> bool)
    ensures Mentions(texts, name, isAddress) <==> name in ValidNames(texts, Normalizer(isAddress))
  {
  }

  lemma CandidatesAreMentioned(candidates: seq<Candidate>, x: Inputs, t: Tools, name: string)
    requires IsMerge(Ok(candidates), x.control, x.stdin, Normalizer(t.isAddress))
    ensures (exists c | c in candidates :: c.hostname == name)
       <==> Mentions(x.control, name, t.isAddress) || Mentions(x.stdin, name, t.isAddress)
    ensures forall c | c in candidates && c.hostname == name ::
              && (c.source != Stdin <==> Mentions(x.control, name, t.isAddress))
              && (c.source != ControlPlane <==> Mentions(x.stdin, name, t.isAddress))
  {
    MentionsAreNames(x.control, name, t.isAddress);
    MentionsAreNames(x.stdin, name, t.isAddress);
    var control, stdin := ValidNames(x.control, Normalizer(t.isAddress)), ValidNames(x.stdin, Normalizer(t.isAddress));
    hide ValidNames, Mentions, Normalizer;
    assert Candidate(name, SourceOf(name, control, stdin)) in candidates <==> name in control + stdin;
  }

  lemma WildcardSuffixes(d: string, suffix: string, t: Tools)
    ensures WildcardSuffix(d, Normalizer(t.isAddress)) == Some(suffix) <==> IsWildcard(d, suffix, t.isAddress)
  {
    WildcardExactly(d, suffix, Normalizer(t.isAddress));
  }

  lemma NoneConcrete(h: ProxyHost, t: Tools)
    ensures !t.FilterOf().HasConcrete(h.domainNames)
       <==> forall d | d in h.domainNames && t.urls.validConcreteDomain(TrimSpace(d)) ::
              exists suffix :: IsWildcard(d, suffix, t.isAddress)
  {
    hide WildcardSuffix, IsWildcard;
    forall d | d in h.domainNames
      ensures t.FilterOf().ConcreteDomain(d)
         <==> t.urls.validConcreteDomain(TrimSpace(d)) && forall suffix :: !IsWildcard(d, suffix, t.isAddress)
    {
      var w := WildcardSuffix(d, Normalizer(t.isAddress));
      forall s ensures w == Some(s) <==> IsWildcard(d, s, t.isAddress) { WildcardSuffixes(d, s, t); }
      if w.Some? { assert IsWildcard(d, w.value, t.isAddress); }
    }
  }

  lemma CoversBySuffix(h: ProxyHost, name: string, t: Tools)
    ensures Covers(h, name, t) <==> exists s | s in Suffixes(h.domainNames, Normalizer(t.isAddress)) ::
              IsSubdomain(name, s)
  {
    hide WildcardSuffix, IsWildcard, IsSubdomain;
    forall d, s ensures WildcardSuffix(d, Normalizer(t.isAddress)) == Some(s) <==> IsWildcard(d, s, t.isAddress) {
      WildcardSuffixes(d, s, t);
    }
  }

  /** A host takes names and covers this one exactly when it is eligible with a suffix above it. */
  lemma EligibleCovers(h: ProxyHost, name: string, x: Inputs, t: Tools)
    requires h in x.hosts
    ensures TakesNames(h, x, t) && Covers(h, name, t)
       <==> && t.FilterOf().Eligible(h, x.metadata)
            && exists s | s in Suffixes(h.domainNames, Normalizer(t.isAddress)) :: IsSubdomain(name, s)
  {
    hide IsWildcard, IsSubdomain, Suffixes, Covers, Filter.HasConcrete;
    NoneConcrete(h, t);
    CoversBySuffix(h, name, t);
  }

  lemma OffersAreEdges(candidates: seq<Candidate>, eligible: seq<EligibleHost>, x: Inputs, t: Tools)
    requires IsMerge(Ok(candidates), x.control, x.stdin, Normalizer(t.isAddress))
    requires IsEligibleList(Ok(eligible), x.hosts, x.metadata, t.FilterOf())
    ensures SameEdges(BelowEdges(candidates, eligible), Offers(x, t))
  {
    hide IsMerge, Mentions, Covers, TakesNames, IsSubdomain, Filter.Eligible, Suffixes;
    forall name, id ensures BelowEdges(candidates, eligible)(name, id) <==> Offers(x, t)(name, id) {
      CandidatesAreMentioned(candidates, x, t, name);
      HostsCover(eligible, x, t, name, id);
    }
  }

  lemma HostsCover(eligible: seq<EligibleHost>, x: Inputs, t: Tools, name: string, id: int)
    requires IsEligibleList(Ok(eligible), x.hosts, x.metadata, t.FilterOf())
    ensures (exists e, s | e in eligible && s in e.suffixes :: e.id == id && IsSubdomain(name, s))
       <==> exists h | h in x.hosts :: h.id == id && TakesNames(h, x, t) && Covers(h, name, t)
  {
    hide TakesNames, Covers, IsSubdomain, Suffixes, Filter.Eligible, Filter.EligibleOf;
    if e, s :| e in eligible && s in e.suffixes && e.id == id && IsSubdomain(name, s) {
      var h := HostOfEntry(eligible, e, s, x, t, name);
    }
    if h :| h in x.hosts && h.id == id && TakesNames(h, x, t) && Covers(h, name, t) {
      var e, s := EntryOfHost(eligible, h, x, t, name);
    }
  }

  lemma HostOfEntry(eligible: seq<EligibleHost>, e: EligibleHost, s: string, x: Inputs, t: Tools, name: string)
      returns (h: ProxyHost)
    requires IsEligibleList(Ok(eligible), x.hosts, x.metadata, t.FilterOf())
    requires e in eligible && s in e.suffixes && IsSubdomain(name, s)
    ensures h in x.hosts && h.id == e.id && TakesNames(h, x, t) && Covers(h, name, t)
  {
    hide TakesNames, Covers, IsSubdomain, Suffixes, Filter.Eligible;
    h :| h in x.hosts && t.FilterOf().Eligible(h, x.metadata) && e == t.FilterOf().EligibleOf(h, x.metadata);
    EligibleCovers(h, name, x, t);
  }

  lemma EntryOfHost(eligible: seq<EligibleHost>, h: ProxyHost, x: Inputs, t: Tools, name: string)
      returns (e: EligibleHost, s: string)
    requires IsEligibleList(Ok(eligible), x.hosts, x.metadata, t.FilterOf())
    requires h in x.hosts && TakesNames(h, x, t) && Covers(h, name, t)
    ensures e in eligible && s in e.suffixes && e.id == h.id && IsSubdomain(name, s)
  {
    EligibleCovers(h, name, x, t);
    hide TakesNames, Covers, IsSubdomain, Suffixes, Filter.Eligible;
    s :| s in Suffixes(h.domainNames, Normalizer(t.isAddress)) && IsSubdomain(name, s);
    e := t.FilterOf().EligibleOf(h, x.metadata);
  }

  /**
   * From names and hosts to suggestions: a hostname is suggested for a host exactly when no other host takes
   * it and the host takes no other, and the source tells which of the lists mention it.
   */
  lemma OffersExactly(x: Inputs, t: Tools, candidates: seq<Candidate>, eligible: seq<EligibleHost>, s: Suggestions,
                      g: Suggestion)
    requires Pipeline(x, t, candidates, eligible, s)
    ensures g in s.suggestions
       <==> && OnlyNeighbours(Offers(x, t), g.hostname, g.id)
            && (g.source != Stdin <==> Mentions(x.control, g.hostname, t.isAddress))
            && (g.source != ControlPlane <==> Mentions(x.stdin, g.hostname, t.isAddress))
  {
    SuggestedExactly(s, candidates, eligible, g);
    OffersAreEdges(candidates, eligible, x, t);
    SameNeighbours(BelowEdges(candidates, eligible), Offers(x, t), g.hostname, g.id);
    CandidatesAreMentioned(candidates, x, t, g.hostname);
    hide IsMerge, IsEligibleList, IsOutcome, BelowEdges, Mentions;
    assert OnlyNeighbours(Offers(x, t), g.hostname, g.id) ==> Offers(x, t)(g.hostname, g.id);
  }

  // Bounds

  /** At most 4096 names from the control plane and 1024 candidates. */
  lemma CandidateBounds(r: Result<seq<Candidate>, MergeFailure>, control: seq<string>, stdin: seq<string>,
                        normalize: string -> Option<string>)
    requires IsMerge(r, control, stdin, normalize)
    ensures r == Err(MergeFailure.TooManyFields) <==> |control| > 4096
    ensures |control| <= 4096 && AllValid(stdin, normalize) ==>
              (r.Ok? <==> |ValidNames(control, normalize) + ValidNames(stdin, normalize)| <= 1024)
  {
    var names := ValidNames(control, normalize);
    NamesGrow(control, stdin, normalize);
    forall k | 0 <= k <= |stdin|
      ensures |names + ValidNames(stdin[..k], normalize)| <= |names + ValidNames(stdin, normalize)|
    {
      PrefixNames(stdin, k, normalize);
      SubsetSize(names + ValidNames(stdin[..k], normalize), names + ValidNames(stdin, normalize));
    }
    hide ValidNames;
  }

  lemma NamesGrow(control: seq<string>, stdin: seq<string>, normalize: string -> Option<string>)
    ensures |ValidNames(control, normalize)| <= |ValidNames(control, normalize) + ValidNames(stdin, normalize)|
  {
    SubsetSize(ValidNames(control, normalize), ValidNames(control, normalize) + ValidNames(stdin, normalize));
  }

  lemma PrefixNames(stdin: seq<string>, k: nat, normalize: string -> Option<string>)
    requires k <= |stdin|
    ensures ValidNames(stdin[..k], normalize) <= ValidNames(stdin, normalize)
  {
  }

  /** Refused are more than 1024 hosts, 4096 domains, 2048 wildcard suffixes, and a positive id that occurs twice. */
  lemma EligibleBounds(r: Result<seq<EligibleHost>, Refusal>, hosts: seq<ProxyHost>, metadata: Option<M.Metadata>,
                       f: Filter)
    requires IsEligibleList(r, hosts, metadata, f)
    ensures r.Err?
       <==> || |hosts| > 1024 || SumOf(hosts, f.Domains()) > 4096 || SumOf(hosts, f.WildcardsOf()) > 2048
            || exists i, j | 0 <= i < j < |hosts| :: hosts[i].id > 0 && hosts[i].id == hosts[j].id
  {
    hide Lists, AscendingHosts, Refused;
    assert Broken(TooManyHosts, hosts, f) <==> |hosts| > 1024;
    assert Broken(DuplicateIds, hosts, f) <==> !DistinctPositiveIds(hosts);
    assert Broken(TooManyDomains, hosts, f) <==> SumOf(hosts, f.Domains()) > 4096;
    assert Broken(TooManySuffixes, hosts, f) <==> SumOf(hosts, f.WildcardsOf()) > 2048;
    hide Broken;
    if r.Err? { assert r.error in {TooManyHosts, DuplicateIds, TooManyDomains, TooManySuffixes}; }
  }

  /** Refused are more than 16384 matches of a name and a host. */
  lemma SuggestionBound(r: Result<Suggestions, Failure>, candidates: seq<Candidate>, eligible: seq<EligibleHost>)
    requires IsOutcome(r, candidates, eligible)
    ensures r.Err? <==> EdgeCount(candidates, eligible) > 16384
  {
  }

  // The proposal

  /** The name the metadata gives the service already, or else the hostname. */
  function ProposedName(g: Suggestion, metadata: Option<M.Metadata>): string {
    if metadata.Some? && g.id in metadata.value.overrides && metadata.value.overrides[g.id].name != ""
    then metadata.value.overrides[g.id].name
    else g.hostname
  }

  lemma NameIsProposed(g: Suggestion, eligible: seq<EligibleHost>, x: Inputs, t: Tools)
    requires IsEligibleList(Ok(eligible), x.hosts, x.metadata, t.FilterOf()) && HostOf(eligible, g.id).Some?
    ensures NameFor(g, HostOf(eligible, g.id).value) == ProposedName(g, x.metadata)
  {
    hide Suffixes, Filter.Examined, Filter.HasConcrete;
    var e := HostOf(eligible, g.id).value;
    var h :| h in x.hosts && t.FilterOf().Eligible(h, x.metadata) && e == t.FilterOf().EligibleOf(h, x.metadata);
  }

  /** The entry proposed for a suggestion: the known name or the hostname, and its URL under the given scheme. */
  predicate IsProposedEntry(e: M.Entry, g: Suggestion, x: Inputs, t: Tools) {
    && e.id == g.id && e.name == Some(ProposedName(g, x.metadata))
    && e.url == Some(t.urls.httpUrl(x.scheme, g.hostname))
    && e.category.None? && e.order.None? && e.icon.None?
  }

  lemma EntriesAreProposed(s: Suggestions, eligible: seq<EligibleHost>, x: Inputs, t: Tools)
    requires IsEligibleList(Ok(eligible), x.hosts, x.metadata, t.FilterOf())
    requires forall g | g in s.suggestions :: HostOf(eligible, g.id).Some?
    ensures var entries := AllEntries(s.suggestions, eligible, x.scheme, t.urls);
            |entries| == |s.suggestions| && forall i | 0 <= i < |entries| ::
              IsProposedEntry(entries[i], s.suggestions[i], x, t)
  {
    forall i | 0 <= i < |s.suggestions|
      ensures IsProposedEntry(AllEntries(s.suggestions, eligible, x.scheme, t.urls)[i], s.suggestions[i], x, t)
    {
      assert s.suggestions[i] in s.suggestions;
      NameIsProposed(s.suggestions[i], eligible, x, t);
      hide IsEligibleList, NameFor, ProposedName, HostOf;
    }
  }

  /** The proposed document, read back: one entry for each suggestion, in hostname order. */
  lemma ProposedEntries(x: Inputs, t: Tools, candidates: seq<Candidate>, eligible: seq<EligibleHost>, s: Suggestions,
                        r: Result<Bytes, ProposalFailure>)
    requires x.Valid(t.lib) && t.Lawful() && Pipeline(x, t, candidates, eligible, s)
    requires IsProposal(r, s.suggestions, eligible, x.scheme, t.urls, Normalizer(t.isAddress), t.lib) && r.Ok?
    ensures M.Parsed(r.value, t.lib).Ok?
    ensures var d := M.Parsed(r.value, t.lib).value.document;
            && d.version == 1 && |d.services| == |s.suggestions|
            && forall i | 0 <= i < |d.services| :: IsProposedEntry(d.services[i], s.suggestions[i], x, t)
    ensures forall i, j | 0 <= i < j < |s.suggestions| :: Less(s.suggestions[i].hostname, s.suggestions[j].hostname)
  {
    ProposalSucceedsExactly(x, t, candidates, eligible, s, r);
    EntriesAreProposed(s, eligible, x, t);
    SuggestionsInOrder(s, candidates, eligible);
    hide Pipeline, IsProposal, M.Parsed, AllEntries, IsProposedEntry;
  }

  lemma SuggestionsInOrder(s: Suggestions, candidates: seq<Candidate>, eligible: seq<EligibleHost>)
    requires IsOutcome(Ok(s), candidates, eligible)
    ensures forall i, j | 0 <= i < j < |s.suggestions| :: Less(s.suggestions[i].hostname, s.suggestions[j].hostname)
  {
    SuggestionsAscend(s, candidates, eligible);
    forall i, j | 0 <= i < j < |s.suggestions| ensures Less(s.suggestions[i].hostname, s.suggestions[j].hostname) {
      assert Less(SuggestionKey(s.suggestions[i]).0, SuggestionKey(s.suggestions[j]).0);
    }
  }
}
