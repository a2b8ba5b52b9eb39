/** The v1 metadata document proposed for the suggested hostnames, and when it can be made. */
module HostnameProposal {
  import opened Common
  import opened Ordering
  import opened Json
  import opened ServiceCards
  import opened HostnameLabels
  import opened HostnameGraph
  import opened HostnameSuggestions
  import opened HostnameCandidates
  import opened HostnameEligibility
  import M = ServiceMetadata

  // Printing version 1

  /** The keys of an entry in the order json.Marshal writes them; absent fields are left out. */
  const V1_KEYS := ["proxy_host_id", "name", "url", "category", "order", "icon"]

  function V1Values(e: M.Entry): seq<Option<Value>> {
    [Some(VNum(Integer(e.id))), M.TextValue(e.name), M.TextValue(e.url), M.TextValue(e.category), M.IntValue(e.order),
     M.TextValue(e.icon)]
  }

  function V1Entries(services: seq<M.Entry>): seq<Value> {
    seq(|services|, i requires 0 <= i < |services| => VObject(M.Opts(V1_KEYS, V1Values(services[i]))))
  }

  function V1Document(services: seq<M.Entry>): Value {
    VObject([Member("version", VNum(Integer(1))), Member("services", VArray(V1Entries(services)))])
  }

  /** serializeServiceMetadataDocumentV1: no sort, the size bound, and a parse of the result. */
  function SerializedV1(services: seq<M.Entry>, lib: M.Library): Result<Bytes, M.Failure> {
    var data := lib.encode(V1Document(services));
    if |data| > M.MAX_BYTES then Err(M.TooLarge)
    else
      var r := M.Parsed(data, lib);
      if r.Err? then Err(r.error) else Ok(data)
  }

  /** An entry that version 1 can express. */
  predicate Plain(e: M.Entry) {
    && 0 <= e.id <= M.MAX_INT && e.category.None? && e.order.None? && e.icon.None? && !e.nameNull && !e.urlNull
  }

  lemma V1KeysDiffer()
    ensures Distinct(V1_KEYS)
    ensures forall k | k in V1_KEYS :: LowerAscii(k)
  {
    assert "icon"[0] != "name"[0];
  }

  lemma V1EntryReadsBack(e: M.Entry)
    requires Plain(e)
    ensures M.DecodedEntry(1, VObject(M.Opts(V1_KEYS, V1Values(e)))) == Some(e)
  {
    V1KeysDiffer();
    M.FieldsOfOpts(V1_KEYS, V1Values(e));
    var f := M.Fields(M.Opts(V1_KEYS, V1Values(e)));
    assert M.Has(f, V1_KEYS[0], V1Values(e)[0]) && M.Has(f, V1_KEYS[1], V1Values(e)[1]);
    assert M.Has(f, V1_KEYS[2], V1Values(e)[2]) && M.Has(f, V1_KEYS[3], V1Values(e)[3]);
    assert M.Has(f, V1_KEYS[4], V1Values(e)[4]) && M.Has(f, V1_KEYS[5], V1Values(e)[5]);
    PlainFieldsReadBack(e, f);
  }

  lemma PlainFieldsReadBack(e: M.Entry, f: map<string, Value>)
    requires Plain(e) && forall k | k in f :: k in V1_KEYS
    requires M.Has(f, "proxy_host_id", Some(VNum(Integer(e.id))))
    requires M.Has(f, "name", M.TextValue(e.name)) && M.Has(f, "url", M.TextValue(e.url))
    requires M.Has(f, "category", None) && M.Has(f, "order", None) && M.Has(f, "icon", None)
    ensures M.DecodedFields(1, f) == Some(e)
  {
  }

  lemma V1EntriesCons(e: M.Entry, rest: seq<M.Entry>)
    ensures V1Entries([e] + rest) == [VObject(M.Opts(V1_KEYS, V1Values(e)))] + V1Entries(rest)
  {
    hide M.Opts, V1Values;
  }

  lemma DecodedCons(first: Value, rest: seq<Value>, e: M.Entry, entries: seq<M.Entry>)
    requires M.DecodedEntry(1, first) == Some(e) && M.DecodedEntries(1, rest) == Some(entries)
    ensures M.DecodedEntries(1, [first] + rest) == Some([e] + entries)
  {
    hide M.DecodedEntry;
    assert ([first] + rest)[1..] == rest;
  }

  lemma {:induction false} V1EntriesReadBack(services: seq<M.Entry>)
    requires forall e | e in services :: Plain(e)
    ensures M.DecodedEntries(1, V1Entries(services)) == Some(services)
  {
    if services != [] {
      hide M.DecodedEntry, M.DecodedEntries, M.Opts, V1Values, V1Entries, Plain;
      var e, rest := services[0], services[1..];
      V1EntryReadsBack(e);
      V1EntriesReadBack(rest);
      V1EntriesCons(e, rest);
      DecodedCons(VObject(M.Opts(V1_KEYS, V1Values(e))), V1Entries(rest), e, rest);
      assert [e] + rest == services;
    }
  }

  lemma V1IsDuplicateFree(services: seq<M.Entry>, lower: char -> char)
    ensures NoDuplicates(V1Document(services), lower)
  {
    V1KeysDiffer();
    M.KeysDiffer();
    LowerKeepsAscii("version", lower);
    LowerKeepsAscii("services", lower);
    var items := V1Entries(services);
    forall x | x in items ensures NoDuplicates(x, lower) {
      var i :| 0 <= i < |items| && items[i] == x;
      M.OptsAreFresh(V1_KEYS, V1Values(services[i]), lower);
    }
    assert NoDuplicates(VArray(items), lower);
  }

  lemma V1IsPrintable(services: seq<M.Entry>)
    ensures Printable(V1Document(services))
  {
    var items := V1Entries(services);
    forall x | x in items ensures Printable(x) {
      var i :| 0 <= i < |items| && items[i] == x;
      M.OptsArePrintable(V1_KEYS, V1Values(services[i]));
    }
    assert Printable(VArray(items));
  }

  lemma V1DocumentDecodes(services: seq<M.Entry>)
    requires forall e | e in services :: Plain(e)
    ensures M.DecodedDocument(V1Document(services)) ==
            if |services| > M.MAX_ENTRIES then Err(M.TooManyServices) else Ok(M.Document(1, services))
  {
    hide V1Entries;
    V1EntriesReadBack(services);
    M.TopLevelFields(VNum(Integer(1)), VArray(V1Entries(services)));
  }

  /** Printing succeeds exactly for valid entries with distinct ids within both bounds, and then reads back as given. */
  lemma V1SucceedsExactly(services: seq<M.Entry>, lib: M.Library)
    requires lib.Lawful() && forall e | e in services :: Plain(e)
    ensures SerializedV1(services, lib).Ok? <==>
              && |lib.encode(V1Document(services))| <= M.MAX_BYTES && |services| <= M.MAX_ENTRIES
              && M.ValidServices(services, lib)
    ensures SerializedV1(services, lib).Ok? ==>
              && M.Parsed(SerializedV1(services, lib).value, lib).Ok?
              && M.Parsed(SerializedV1(services, lib).value, lib).value.document == M.Document(1, services)
  {
    hide V1Document;
    V1IsDuplicateFree(services, lib.lower);
    V1DocumentDecodes(services);
    V1IsPrintable(services);
    M.TokensDecode(V1Document(services), lib);
    M.AllAcceptable(services, lib);
  }

  // The proposal

  datatype ProposalFailure = BadScheme | TooManyServices | Ineligible | InvalidCandidate | Rejected(failure: M.Failure)

  /** eligibleByID: the last host of that id. */
  function HostOf(eligible: seq<EligibleHost>, id: int): (h: Option<EligibleHost>)
    ensures h.Some? ==> h.value in eligible && h.value.id == id
    ensures h.None? ==> forall e | e in eligible :: e.id != id
  {
    if eligible == [] then None
    else if eligible[|eligible| - 1].id == id then Some(eligible[|eligible| - 1])
    else HostOf(eligible[..|eligible| - 1], id)
  }

  function NameFor(s: Suggestion, h: EligibleHost): string {
    if h.existingName != "" then h.existingName else s.hostname
  }

  function EntryFor(s: Suggestion, h: EligibleHost, scheme: string, urls: UrlLibrary): M.Entry {
    M.Entry(s.id, Some(NameFor(s, h)), Some(urls.httpUrl(scheme, s.hostname)), None, None, None, false, false)
  }

  /** The entries in order, or what is wrong with the first suggestion that has none. */
  function EntriesFor(ordered: seq<Suggestion>, eligible: seq<EligibleHost>, scheme: string, urls: UrlLibrary,
                      normalize: string -> Option<string>): Result<seq<M.Entry>, ProposalFailure>
  {
    if ordered == [] then Ok([])
    else
      var last := ordered[|ordered| - 1];
      var before := EntriesFor(ordered[..|ordered| - 1], eligible, scheme, urls, normalize);
      if before.Err? then before
      else if HostOf(eligible, last.id).None? then Err(Ineligible)
      else if normalize(last.hostname) != Some(last.hostname) then Err(InvalidCandidate)
      else Ok(before.value + [EntryFor(last, HostOf(eligible, last.id).value, scheme, urls)])
  }

  function ProposedFor(ordered: seq<Suggestion>, eligible: seq<EligibleHost>, scheme: string, urls: UrlLibrary,
                       normalize: string -> Option<string>, lib: M.Library): Result<Bytes, ProposalFailure>
  {
    var entries := EntriesFor(ordered, eligible, scheme, urls, normalize);
    if entries.Err? then Err(entries.error)
    else
      var data := SerializedV1(entries.value, lib);
      if data.Err? then Err(Rejected(data.error)) else Ok(data.value)
  }

  ghost predicate IsProposal(r: Result<Bytes, ProposalFailure>, suggestions: seq<Suggestion>,
                             eligible: seq<EligibleHost>, scheme: string,
                             urls: UrlLibrary, normalize: string -> Option<string>, lib: M.Library)
  {
    if scheme != "http" && scheme != "https" then r == Err(BadScheme)
    else if |suggestions| > M.MAX_ENTRIES then r == Err(TooManyServices)
    else exists ordered ::
      Orders(ordered, suggestions) && r == ProposedFor(ordered, eligible, scheme, urls, normalize, lib)
  }

  ghost predicate Orders(ordered: seq<Suggestion>, suggestions: seq<Suggestion>) {
    multiset(ordered) == multiset(suggestions) && SortedBy(ordered, ByKey(SuggestionKey))
  }

  method IndexEligible(eligible: seq<EligibleHost>) returns (m: map<int, EligibleHost>)
    ensures forall id :: (if id in m then Some(m[id]) else None) == HostOf(eligible, id)
  {
    m := map[];
    for k := 0 to |eligible|
      invariant forall id :: (if id in m then Some(m[id]) else None) == HostOf(eligible[..k], id)
    {
      assert eligible[..k + 1][..k] == eligible[..k];
      m := m[eligible[k].id := eligible[k]];
    }
    assert eligible[..|eligible|] == eligible;
  }

  lemma {:induction false} EntriesStop(ordered: seq<Suggestion>, k: nat, eligible: seq<EligibleHost>, scheme: string,
                                       urls: UrlLibrary, normalize: string -> Option<string>)
    requires k <= |ordered| && EntriesFor(ordered[..k], eligible, scheme, urls, normalize).Err?
    ensures EntriesFor(ordered, eligible, scheme, urls, normalize)
        == EntriesFor(ordered[..k], eligible, scheme, urls, normalize)
  {
    if k == |ordered| {
      assert ordered[..k] == ordered;
    } else {
      assert ordered[..|ordered| - 1][..k] == ordered[..k];
      EntriesStop(ordered[..|ordered| - 1], k, eligible, scheme, urls, normalize);
    }
  }

  method CollectEntries(ordered: seq<Suggestion>, eligible: seq<EligibleHost>, scheme: string, urls: UrlLibrary,
                        normalize: string -> Option<string>) returns (r: Result<seq<M.Entry>, ProposalFailure>)
    ensures r == EntriesFor(ordered, eligible, scheme, urls, normalize)
  {
    var eligibleById := IndexEligible(eligible);
    var entries: seq<M.Entry> := [];
    for k := 0 to |ordered|
      invariant EntriesFor(ordered[..k], eligible, scheme, urls, normalize) == Ok(entries)
    {
      var suggestion := ordered[k];
      assert ordered[..k + 1][..k] == ordered[..k];
      assert HostOf(eligible, suggestion.id) == if suggestion.id in eligibleById then Some(eligibleById[suggestion.id])
                                                else None;
      if suggestion.id !in eligibleById {
        EntriesStop(ordered, k + 1, eligible, scheme, urls, normalize);
        return Err(Ineligible);
      }
      if normalize(suggestion.hostname) != Some(suggestion.hostname) {
        EntriesStop(ordered, k + 1, eligible, scheme, urls, normalize);
        return Err(InvalidCandidate);
      }
      entries := entries + [EntryFor(suggestion, eligibleById[suggestion.id], scheme, urls)];
    }
    assert ordered[..|ordered|] == ordered;
    return Ok(entries);
  }

  method SerializeServiceMetadataDocumentV1(services: seq<M.Entry>, lib: M.Library)
      returns (r: Result<Bytes, M.Failure>)
    ensures r == SerializedV1(services, lib)
  {
    var data := lib.encode(V1Document(services));
    if |data| > M.MAX_BYTES { return Err(M.TooLarge); }
    var parsed := M.ParseServiceMetadata(data, lib);
    return if parsed.Err? then Err(parsed.error) else Ok(data);
  }

  method BuildHostnameSuggestionProposal(suggestions: seq<Suggestion>, eligible: seq<EligibleHost>, scheme: string,
                                         urls: UrlLibrary,
                                         normalize: string -> Option<string>,
                                           lib: M.Library) returns (r: Result<Bytes, ProposalFailure>)
    ensures IsProposal(r, suggestions, eligible, scheme, urls, normalize, lib)
  {
    if scheme != "http" && scheme != "https" { return Err(BadScheme); }
    if |suggestions| > M.MAX_ENTRIES { return Err(TooManyServices); }
    hide SerializedV1, EntriesFor, SortedBy;
    ByKeyIsStrictWeak(SuggestionKey);
    var ordered := SortSlice(suggestions, ByKey(SuggestionKey));
    assert Orders(ordered, suggestions);
    var entries := CollectEntries(ordered, eligible, scheme, urls, normalize);
    if entries.Err? { return Err(entries.error); }
    var data := SerializeServiceMetadataDocumentV1(entries.value, lib);
    return if data.Err? then Err(Rejected(data.error)) else Ok(data.value);
  }

  // From names and hosts to the proposal

  datatype Inputs = Inputs(control: seq<string>, stdin: seq<string>, hosts: seq<ProxyHost>,
                           metadata: Option<M.Metadata>, scheme: string) {
    /** Go's integers, a supported scheme, and metadata that came out of the parser. */
    ghost predicate Valid(lib: M.Library) {
      && (scheme == "http" || scheme == "https")
      && (forall h | h in hosts :: h.id <= M.MAX_INT)
      && (metadata.Some? ==> exists data :: M.Parsed(data, lib) == Ok(metadata.value))
    }
  }

  datatype Tools = Tools(isAddress: string -> bool, supported: ProxyHost -> bool, urls: UrlLibrary, lib: M.Library) {
    function FilterOf(): Filter { Filter(supported, Normalizer(isAddress), urls.validConcreteDomain) }

    /** JSON reads back what it printed, and a URL made of a scheme and a normal hostname is a valid one. */
    ghost predicate Lawful() {
      && lib.Lawful()
      && forall scheme, host | (scheme == "http" || scheme == "https") && Normalized(host, isAddress) == Some(host) ::
           M.ValidUrl(urls.httpUrl(scheme, host), lib)
    }
  }

  /** What merging, filtering and matching make of the inputs, when none of the three fails. */
  ghost predicate Pipeline(x: Inputs, t: Tools, candidates: seq<Candidate>, eligible: seq<EligibleHost>,
                           s: Suggestions) {
    && IsMerge(Ok(candidates), x.control, x.stdin, Normalizer(t.isAddress))
    && IsEligibleList(Ok(eligible), x.hosts, x.metadata, t.FilterOf())
    && IsOutcome(Ok(s), candidates, eligible)
  }

  lemma SameNames(a: seq<string>, b: seq<string>, normalize: string -> Option<string>)
    requires multiset(a) == multiset(b)
    ensures ValidNames(a, normalize) == ValidNames(b, normalize)
  {
    SameElements(a, b);
  }

  /** Names and proxy hosts may come in any order: candidates, eligible hosts and suggestions are the same. */
  lemma PipelineIsOrderFree(x: Inputs, y: Inputs, t: Tools, c1: seq<Candidate>, c2: seq<Candidate>,
                            e1: seq<EligibleHost>, e2: seq<EligibleHost>, s1: Suggestions, s2: Suggestions)
    requires multiset(x.control) == multiset(y.control) && multiset(x.stdin) == multiset(y.stdin)
    requires multiset(x.hosts) == multiset(y.hosts) && x.metadata == y.metadata
    requires Pipeline(x, t, c1, e1, s1) && Pipeline(y, t, c2, e2, s2)
    ensures c1 == c2 && e1 == e2 && s1 == s2
  {
    var normalize := Normalizer(t.isAddress);
    hide IsOutcome, IsEligibleList, Normalized;
    SameNames(x.control, y.control, normalize);
    SameNames(x.stdin, y.stdin, normalize);
    ListIsUnique(c1, c2, ValidNames(x.control, normalize), ValidNames(x.stdin, normalize));
    MergedHostnamesAreUnique(c1, x.control, x.stdin, normalize);
    EligibleIsOrderFree(Ok(e1), Ok(e2), x.hosts, y.hosts, x.metadata, t.FilterOf());
    OutcomeIsOrderFree(Ok(s1), Ok(s2), c1, c2, e1, e2);
  }

  lemma {:induction false} OverridesFromEntries(services: seq<M.Entry>, lib: M.Library)
    requires forall e | e in services :: M.ValidEntry(e, lib)
    ensures forall id | id in M.Overrides(services, lib) ::
              M.Overrides(services, lib)[id].name == "" || M.ValidName(M.Overrides(services, lib)[id].name)
  {
    if services != [] {
      var n := |services| - 1;
      OverridesFromEntries(services[..n], lib);
      assert M.ValidEntry(services[n], lib);
    }
  }

  /** Names in parsed metadata are valid. */
  lemma ParsedNamesAreValid(data: Bytes, lib: M.Library)
    requires M.Parsed(data, lib).Ok?
    ensures var overrides := M.Parsed(data, lib).value.overrides;
            forall id | id in overrides :: overrides[id].name == "" || M.ValidName(overrides[id].name)
  {
    M.ParsedIsWellFormed(data, lib);
    OverridesFromEntries(M.Parsed(data, lib).value.document.services, lib);
  }

  lemma EligibleComesFrom(eligible: seq<EligibleHost>, hosts: seq<ProxyHost>, metadata: Option<M.Metadata>, f: Filter,
                          e: EligibleHost)
    requires IsEligibleList(Ok(eligible), hosts, metadata, f) && e in eligible
    ensures exists h | h in hosts :: e.id == h.id > 0 && NameIfUnlinked(h.id, metadata) == Some(e.existingName)
  {
    hide Suffixes, NameIfUnlinked, Broken, Filter.HasConcrete;
    var h :| h in hosts && f.Eligible(h, metadata) && e == f.EligibleOf(h, metadata);
  }

  lemma EligibleFacts(x: Inputs, t: Tools, eligible: seq<EligibleHost>, e: EligibleHost)
    requires x.Valid(t.lib) && IsEligibleList(Ok(eligible), x.hosts, x.metadata, t.FilterOf()) && e in eligible
    ensures 0 < e.id <= M.MAX_INT && (e.existingName == "" || M.ValidName(e.existingName))
  {
    hide IsEligibleList, M.ValidName, M.Parsed, Normalized;
    EligibleComesFrom(eligible, x.hosts, x.metadata, t.FilterOf(), e);
    if x.metadata.Some? {
      var data :| M.Parsed(data, t.lib) == Ok(x.metadata.value);
      ParsedNamesAreValid(data, t.lib);
    }
  }

  lemma CandidateIsNormal(c: Candidate, candidates: seq<Candidate>, x: Inputs, isAddress: string -> bool)
    requires IsMerge(Ok(candidates), x.control, x.stdin, Normalizer(isAddress)) && c in candidates
    ensures Normalized(c.hostname, isAddress) == Some(c.hostname) && M.Canonical(c.hostname)
  {
    var normalize := Normalizer(isAddress);
    assert c.hostname in ValidNames(x.control, normalize) + ValidNames(x.stdin, normalize);
    var raw :| (raw in x.control || raw in x.stdin) && normalize(raw) == Some(c.hostname);
    NormalFormIsStable(raw, isAddress);
  }

  /** A suggestion names a candidate and an eligible host. */
  lemma SuggestionFacts(s: Suggestions, candidates: seq<Candidate>, eligible: seq<EligibleHost>, suggestion: Suggestion)
    requires IsOutcome(Ok(s), candidates, eligible) && suggestion in s.suggestions
    ensures exists c | c in candidates :: c.hostname == suggestion.hostname
    ensures HostOf(eligible, suggestion.id).Some?
  {
    SuggestedExactly(s, candidates, eligible, suggestion);
    assert BelowEdges(candidates, eligible)(suggestion.hostname, suggestion.id);
  }

  lemma SuggestionsAscend(s: Suggestions, candidates: seq<Candidate>, eligible: seq<EligibleHost>)
    requires IsOutcome(Ok(s), candidates, eligible)
    ensures AscendingKeys(s.suggestions, SuggestionKey)
  {
    var groups :| IsGrouping(EdgesOf(candidates, eligible), groups) && IsReport(s, groups, Named(candidates));
    PairsAscend(groups, Named(candidates));
  }

  /** No hostname and no id is suggested twice, so there are never too many suggestions. */
  lemma SuggestionsAreDistinct(s: Suggestions, candidates: seq<Candidate>, eligible: seq<EligibleHost>)
    requires IsOutcome(Ok(s), candidates, eligible)
    ensures forall i, j | 0 <= i < j < |s.suggestions| ::
              s.suggestions[i].hostname != s.suggestions[j].hostname && s.suggestions[i].id != s.suggestions[j].id
  {
    SuggestionsAscend(s, candidates, eligible);
    forall i, j | 0 <= i < j < |s.suggestions|
      ensures s.suggestions[i].hostname != s.suggestions[j].hostname && s.suggestions[i].id != s.suggestions[j].id
    {
      var a, b := s.suggestions[i], s.suggestions[j];
      LessIrreflexive(a.hostname);
      assert Less(SuggestionKey(a).0, SuggestionKey(b).0);
      SuggestedExactly(s, candidates, eligible, a);
      SuggestedExactly(s, candidates, eligible, b);
    }
  }

  lemma SuggestionsFit(s: Suggestions, candidates: seq<Candidate>, eligible: seq<EligibleHost>)
    requires IsOutcome(Ok(s), candidates, eligible) && |candidates| <= M.MAX_ENTRIES
    ensures |s.suggestions| <= M.MAX_ENTRIES
  {
    SuggestionsAreDistinct(s, candidates, eligible);
    var names := seq(|s.suggestions|, i requires 0 <= i < |s.suggestions| => s.suggestions[i].hostname);
    forall n | n in names ensures n in Hostnames(candidates) {
      var i :| 0 <= i < |names| && names[i] == n;
      SuggestionFacts(s, candidates, eligible, s.suggestions[i]);
      HostnamesOf(candidates, n);
    }
    DistinctFit(names, set n | n in Hostnames(candidates));
    SetOfSeq(Hostnames(candidates));
  }

  lemma {:induction false} SetOfSeq<T>(s: seq<T>)
    ensures |set x | x in s| <= |s|
  {
    if s != [] {
      var n := |s| - 1;
      SetOfSeq(s[..n]);
      assert s == s[..n] + [s[n]];
      assert (set x | x in s) == (set x | x in s[..n]) + {s[n]};
    }
  }

  /** The entries of suggestions that all name an eligible host and a normal hostname. */
  ghost function AllEntries(suggestions: seq<Suggestion>, eligible: seq<EligibleHost>, scheme: string,
                            urls: UrlLibrary): seq<M.Entry>
    requires forall s | s in suggestions :: HostOf(eligible, s.id).Some?
  {
    seq(|suggestions|, i requires 0 <= i < |suggestions| =>
      assert suggestions[i] in suggestions;
      EntryFor(suggestions[i], HostOf(eligible, suggestions[i].id).value, scheme, urls))
  }

  lemma {:induction false} EntriesAreAll(suggestions: seq<Suggestion>, eligible: seq<EligibleHost>, scheme: string,
                                         urls: UrlLibrary, normalize: string -> Option<string>)
    requires forall s | s in suggestions :: HostOf(eligible, s.id).Some? && normalize(s.hostname) == Some(s.hostname)
    ensures EntriesFor(suggestions, eligible, scheme, urls, normalize)
        == Ok(AllEntries(suggestions, eligible, scheme, urls))
  {
    if suggestions != [] {
      var n := |suggestions| - 1;
      assert forall s | s in suggestions[..n] :: s in suggestions;
      EntriesAreAll(suggestions[..n], eligible, scheme, urls, normalize);
      assert suggestions[n] in suggestions;
      assert AllEntries(suggestions, eligible, scheme, urls)
          == AllEntries(suggestions[..n], eligible, scheme, urls)
             + [EntryFor(suggestions[n], HostOf(eligible, suggestions[n].id).value, scheme, urls)];
    }
  }

  /** Every suggested service gets a name short enough for a metadata document. */
  predicate NamesFit(suggestions: seq<Suggestion>, eligible: seq<EligibleHost>)
    requires forall s | s in suggestions :: HostOf(eligible, s.id).Some?
  {
    forall s | s in suggestions :: |NameFor(s, HostOf(eligible, s.id).value)| <= M.MAX_NAME
  }

  lemma SuggestedAreUsable(x: Inputs, t: Tools, candidates: seq<Candidate>, eligible: seq<EligibleHost>, s: Suggestions)
    requires Pipeline(x, t, candidates, eligible, s)
    ensures forall g | g in s.suggestions ::
              HostOf(eligible, g.id).Some? && Normalized(g.hostname, t.isAddress) == Some(g.hostname)
                && M.Canonical(g.hostname)
  {
    forall g | g in s.suggestions
      ensures HostOf(eligible, g.id).Some? && Normalized(g.hostname, t.isAddress) == Some(g.hostname)
      ensures M.Canonical(g.hostname)
    {
      SuggestionFacts(s, candidates, eligible, g);
      var c :| c in candidates && c.hostname == g.hostname;
      CandidateIsNormal(c, candidates, x, t.isAddress);
    }
  }

  lemma EntryIsPlain(x: Inputs, t: Tools, eligible: seq<EligibleHost>, g: Suggestion)
    requires x.Valid(t.lib) && t.Lawful() && IsEligibleList(Ok(eligible), x.hosts, x.metadata, t.FilterOf())
    requires HostOf(eligible, g.id).Some? && Normalized(g.hostname, t.isAddress) == Some(g.hostname)
    requires M.Canonical(g.hostname)
    ensures var h := HostOf(eligible, g.id).value;
            var e := EntryFor(g, h, x.scheme, t.urls);
            Plain(e) && (M.ValidEntry(e, t.lib) <==> |NameFor(g, h)| <= M.MAX_NAME)
  {
    hide IsEligibleList, Normalized, HostOf;
    HostIsListed(eligible, g.id);
    EligibleFacts(x, t, eligible, HostOf(eligible, g.id).value);
  }

  lemma HostIsListed(eligible: seq<EligibleHost>, id: int)
    requires HostOf(eligible, id).Some?
    ensures HostOf(eligible, id).value in eligible && HostOf(eligible, id).value.id == id
  {
  }

  /**
   * The whole way from names and hosts to the proposal: once there are suggestions, the proposal is made
   * exactly when all names are at most 120 characters and the text at most 256 KiB, and then it reads back
   * as one entry per suggestion. A hostname may have 253 characters, so the former can fail.
   */
  lemma ProposalSucceedsExactly(x: Inputs, t: Tools, candidates: seq<Candidate>, eligible: seq<EligibleHost>,
                                s: Suggestions, r: Result<Bytes, ProposalFailure>)
    requires x.Valid(t.lib) && t.Lawful() && Pipeline(x, t, candidates, eligible, s)
    requires IsProposal(r, s.suggestions, eligible, x.scheme, t.urls, Normalizer(t.isAddress), t.lib)
    ensures forall g | g in s.suggestions :: HostOf(eligible, g.id).Some?
    ensures var entries := AllEntries(s.suggestions, eligible, x.scheme, t.urls);
            && (r.Ok? <==> NamesFit(s.suggestions, eligible) && |t.lib.encode(V1Document(entries))| <= M.MAX_BYTES)
            && (r.Ok? ==>
                  M.Parsed(r.value, t.lib).Ok? && M.Parsed(r.value, t.lib).value.document == M.Document(1, entries))
            && (r.Err? ==> r.error.Rejected?)
  {
    SuggestedAreUsable(x, t, candidates, eligible, s);
    MergedHostnamesAreUnique(candidates, x.control, x.stdin, Normalizer(t.isAddress));
    SuggestionsFit(s, candidates, eligible);
    ProposalIsFor(x, t, candidates, eligible, s, r);
    EntriesAreAll(s.suggestions, eligible, x.scheme, t.urls, Normalizer(t.isAddress));
    var entries := AllEntries(s.suggestions, eligible, x.scheme, t.urls);
    EntriesAreValid(x, t, candidates, eligible, s);
    V1SucceedsExactly(entries, t.lib);
  }

  lemma ProposalIsFor(x: Inputs, t: Tools, candidates: seq<Candidate>, eligible: seq<EligibleHost>, s: Suggestions,
                      r: Result<Bytes, ProposalFailure>)
    requires x.Valid(t.lib) && Pipeline(x, t, candidates, eligible, s) && |s.suggestions| <= M.MAX_ENTRIES
    requires IsProposal(r, s.suggestions, eligible, x.scheme, t.urls, Normalizer(t.isAddress), t.lib)
    ensures r == ProposedFor(s.suggestions, eligible, x.scheme, t.urls, Normalizer(t.isAddress), t.lib)
  {
    hide ProposedFor, AscendingKeys;
    var ordered :| Orders(ordered, s.suggestions)
        && r == ProposedFor(ordered, eligible, x.scheme, t.urls, Normalizer(t.isAddress), t.lib);
    SuggestionsAscend(s, candidates, eligible);
    SortChangesNothing(s.suggestions, ordered, SuggestionKey);
  }

  lemma EntriesAreValid(x: Inputs, t: Tools, candidates: seq<Candidate>, eligible: seq<EligibleHost>, s: Suggestions)
    requires x.Valid(t.lib) && t.Lawful() && Pipeline(x, t, candidates, eligible, s)
    requires forall g | g in s.suggestions ::
               HostOf(eligible, g.id).Some? && Normalized(g.hostname, t.isAddress) == Some(g.hostname)
                 && M.Canonical(g.hostname)
    ensures var entries := AllEntries(s.suggestions, eligible, x.scheme, t.urls);
            && (forall e | e in entries :: Plain(e))
            && (M.ValidServices(entries, t.lib) <==> NamesFit(s.suggestions, eligible))
  {
    SuggestionsAreDistinct(s, candidates, eligible);
    forall g | g in s.suggestions
      ensures Plain(EntryFor(g, HostOf(eligible, g.id).value, x.scheme, t.urls))
      ensures M.ValidEntry(EntryFor(g, HostOf(eligible, g.id).value, x.scheme, t.urls), t.lib)
         <==> |NameFor(g, HostOf(eligible, g.id).value)| <= M.MAX_NAME
    {
      hide IsOutcome, IsEligibleList, IsMerge, Normalized, HostOf, Plain, M.ValidEntry, M.Canonical;
      EntryIsPlain(x, t, eligible, g);
    }
    hide IsOutcome, IsEligibleList, IsMerge, Normalized;
    ValidityIsPointwise(s.suggestions, eligible, x.scheme, t.urls, t.lib);
  }

  lemma ValidityIsPointwise(suggestions: seq<Suggestion>, eligible: seq<EligibleHost>, scheme: string, urls: UrlLibrary,
                            lib: M.Library)
    requires forall g | g in suggestions ::
               && HostOf(eligible, g.id).Some? && Plain(EntryFor(g, HostOf(eligible, g.id).value, scheme, urls))
               && (M.ValidEntry(EntryFor(g, HostOf(eligible, g.id).value, scheme, urls), lib)
                   <==> |NameFor(g, HostOf(eligible, g.id).value)| <= M.MAX_NAME)
    requires forall i, j | 0 <= i < j < |suggestions| :: suggestions[i].id != suggestions[j].id
    ensures var entries := AllEntries(suggestions, eligible, scheme, urls);
            && (forall e | e in entries :: Plain(e))
            && (M.ValidServices(entries, lib) <==> NamesFit(suggestions, eligible))
  {
    hide HostOf, Plain, NameFor, M.ValidEntry;
    var entries := AllEntries(suggestions, eligible, scheme, urls);
    forall e | e in entries
      ensures exists g | g in suggestions :: e == EntryFor(g, HostOf(eligible, g.id).value, scheme, urls)
    {
      var i :| 0 <= i < |entries| && entries[i] == e;
      assert suggestions[i] in suggestions;
    }
    forall g | g in suggestions ensures EntryFor(g, HostOf(eligible, g.id).value, scheme, urls) in entries {
      var i :| 0 <= i < |suggestions| && suggestions[i] == g;
      assert entries[i] == EntryFor(g, HostOf(eligible, g.id).value, scheme, urls);
    }
    assert M.DistinctIds(entries);
  }

  // A name that is too long

  function Run(c: char, n: nat): string { seq(n, _ => c) }

  /** Two labels of 61 letters. */
  const LONG_NAME: string := Run('a', 61) + "." + Run('b', 61)

  lemma LabelsOfTwo(a: string, b: string)
    requires '.' !in a && '.' !in b
    ensures Labels(a + "." + b) == [a, b]
  {
    var s := a + "." + b;
    var dot := FirstWhere(s, (c: char) => c == '.');
    assert s[|a|] == '.';
    assert dot == |a|;
    assert s[..dot] == a && s[dot + 1..] == b;
    var none := FirstWhere(b, (c: char) => c == '.');
    assert none == |b|;
  }

  lemma LabelsAreAscii(a: string)
    requires ValidLabel(a)
    ensures '.' !in a
    ensures forall c | c in a ::
              LowerChar(c, (x: char) => x) == c && c < '\U{80}' && !SpaceRune(c as int) && !ControlRune(c as int)
  {
  }

  lemma PlainHostIsNormal(s: string, isAddress: string -> bool)
    requires s != "" && |s| <= MAX_HOST_LENGTH && s[|s| - 1] != '.' && '.' in s && !isAddress(s)
    requires forall c | c in s ::
              LowerChar(c, (x: char) => x) == c && c < '\U{80}' && !SpaceRune(c as int) && !ControlRune(c as int)
    requires forall part | part in Labels(s) :: ValidLabel(part)
    ensures Normalized(s, isAddress) == Some(s)
  {
    hide ValidLabel, Labels;
    assert s[0] in s && s[|s| - 1] in s;
    TrimsNothing(s);
    assert LowerAsciiText(s) == s by {
      forall i | 0 <= i < |s| ensures LowerChar(s[i], (x: char) => x) == s[i] { assert s[i] in s; }
    }
    hide TrimSpace, LowerAsciiText, SpaceRune, ControlRune;
    assert ValidHost(s, isAddress);
  }

  lemma TwoLabelsAreNormal(a: string, b: string, isAddress: string -> bool)
    requires ValidLabel(a) && ValidLabel(b) && !isAddress(a + "." + b)
    ensures Normalized(a + "." + b, isAddress) == Some(a + "." + b)
  {
    var s := a + "." + b;
    LabelsAreAscii(a);
    LabelsAreAscii(b);
    LabelsOfTwo(a, b);
    assert s[|a|] == '.' && s[|s| - 1] == b[|b| - 1] && b[|b| - 1] in b;
    hide Normalized, Labels;
    PlainHostIsNormal(s, isAddress);
  }

  /** A hostname that merging accepts, and for which the proposal is nevertheless refused. */
  lemma LongNameIsRefused(isAddress: string -> bool, suffixes: seq<string>, urls: UrlLibrary, lib: M.Library)
    requires !isAddress(LONG_NAME) && lib.Lawful()
    ensures Normalized(LONG_NAME, isAddress) == Some(LONG_NAME) && |LONG_NAME| > M.MAX_NAME
    ensures ProposedFor([Suggestion(1, LONG_NAME, ControlPlane)], [EligibleHost(1, suffixes, "")], "https", urls,
                        Normalizer(isAddress), lib).Err?
  {
    TwoLabelsAreNormal(Run('a', 61), Run('b', 61), isAddress);
    hide Normalized;
    assert |LONG_NAME| == 123;
    var suggestions, eligible := [Suggestion(1, LONG_NAME, ControlPlane)], [EligibleHost(1, suffixes, "")];
    assert HostOf(eligible, 1) == Some(eligible[0]);
    assert Normalizer(isAddress)(LONG_NAME) == Some(LONG_NAME);
    EntriesAreAll(suggestions, eligible, "https", urls, Normalizer(isAddress));
    var e := EntryFor(suggestions[0], eligible[0], "https", urls);
    assert AllEntries(suggestions, eligible, "https", urls) == [e];
    V1SucceedsExactly([e], lib);
    assert e in [e];
  }
}
