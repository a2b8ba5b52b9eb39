/** mergeHostnameSuggestionCandidates: one candidate per hostname, with the sources that offered it. */
module HostnameCandidates {
  import opened Common
  import opened Ordering
  import opened HostnameGraph

  const MAX_FIELDS := 4096
  const MAX_CANDIDATES := 1024

  datatype MergeFailure = TooManyFields | TooManyNames | InvalidRecord(index: nat)

  /** The valid names among raw ones; `normalize` checks and canonicalises a hostname. */
  function ValidNames(raws: seq<string>, normalize: string -> Option<string>): set<string> {
    set raw | raw in raws && normalize(raw).Some? :: normalize(raw).value
  }

  function SourceOf(name: string, control: set<string>, stdin: set<string>): Source {
    if name in control && name in stdin then Combined else if name in control then ControlPlane else Stdin
  }

  ghost predicate Merges(sources: map<string, Source>, control: set<string>, stdin: set<string>) {
    && sources.Keys == control + stdin
    && forall n | n in sources :: sources[n] == SourceOf(n, control, stdin)
  }

  /** The `add` closure; false when a new name would be one too many. */
  method Add(sources0: map<string, Source>, hostname: string, source: Source)
      returns (ok: bool, sources: map<string, Source>)
    ensures ok <==> hostname in sources0 || |sources0.Keys| < MAX_CANDIDATES
    ensures ok ==>
              var clash := hostname in sources0 && sources0[hostname] != source;
              sources == sources0[hostname := if clash then Combined else source]
    ensures ok && |sources0.Keys| <= MAX_CANDIDATES ==> |sources.Keys| <= MAX_CANDIDATES
  {
    sources := sources0;
    if hostname in sources {
      if sources[hostname] != source { sources := sources[hostname := Combined]; }
      assert sources.Keys == sources0.Keys;
      return true, sources;
    }
    if |sources| >= MAX_CANDIDATES {
      assert |sources| == |sources.Keys|;
      return false, sources;
    }
    assert |sources| == |sources.Keys|;
    sources := sources[hostname := source];
    assert sources.Keys == sources0.Keys + {hostname};
    return true, sources;
  }

  /** The standard input records up to index k are valid and, with the other names, too many. */
  ghost predicate Overflows(names: set<string>, stdin: seq<string>, k: nat, normalize: string -> Option<string>)
    requires k <= |stdin|
  {
    |names + ValidNames(stdin[..k], normalize)| > MAX_CANDIDATES && AllValid(stdin[..k], normalize)
  }

  ghost predicate StopsAt(names: set<string>, stdin: seq<string>, k: nat, normalize: string -> Option<string>) {
    && k < |stdin| && normalize(stdin[k]).None? && AllValid(stdin[..k], normalize)
    && |names + ValidNames(stdin[..k], normalize)| <= MAX_CANDIDATES
  }

  /** The merge of two sets of names: sorted, each once, with its sources. */
  ghost predicate IsList(list: seq<Candidate>, control: set<string>, stdin: set<string>) {
    && Ascending(list)
    && (forall c :: c in list <==> c.hostname in control + stdin && c.source == SourceOf(c.hostname, control, stdin))
  }

  ghost predicate Ascending(list: seq<Candidate>) {
    forall i, j | 0 <= i < j < |list| :: Less(list[i].hostname, list[j].hostname)
  }

  /** The first bound passed or the first invalid record decides; otherwise there is a candidate for each name. */
  ghost predicate IsMerge(r: Result<seq<Candidate>, MergeFailure>, control: seq<string>, stdin: seq<string>,
                          normalize: string -> Option<string>) {
    var names := ValidNames(control, normalize);
    if |control| > MAX_FIELDS then r == Err(TooManyFields)
    else if |names| > MAX_CANDIDATES then r == Err(TooManyNames)
    else IsMergeWith(r, names, stdin, normalize)
  }

  ghost predicate IsMergeWith(r: Result<seq<Candidate>, MergeFailure>, names: set<string>, stdin: seq<string>,
                              normalize: string -> Option<string>) {
    if r.Ok? then
      && AllValid(stdin, normalize)
      && |names + ValidNames(stdin, normalize)| <= MAX_CANDIDATES
      && IsList(r.value, names, ValidNames(stdin, normalize))
    else if r.error.InvalidRecord? then StopsAt(names, stdin, r.error.index, normalize)
    else r.error.TooManyNames? && exists k | 0 <= k <= |stdin| :: Overflows(names, stdin, k, normalize)
  }

  predicate AllValid(raws: seq<string>, normalize: string -> Option<string>) {
    forall raw | raw in raws :: normalize(raw).Some?
  }

  lemma NoNames(normalize: string -> Option<string>)
    ensures ValidNames([], normalize) == {}
  {
  }

  lemma NamesAppend(raws: seq<string>, raw: string, normalize: string -> Option<string>)
    ensures ValidNames(raws + [raw], normalize)
        == ValidNames(raws, normalize) + (if normalize(raw).Some? then {normalize(raw).value} else {})
  {
    forall n ensures n in ValidNames(raws + [raw], normalize)
                <==> n in ValidNames(raws, normalize) + (if normalize(raw).Some? then {normalize(raw).value} else {})
    {
      if normalize(raw).Some? && n == normalize(raw).value { assert raw in raws + [raw]; }
      if x :| x in raws && normalize(x).Some? && n == normalize(x).value { assert x in raws + [raw]; }
    }
  }

  lemma {:induction false} SubsetSize<T>(a: set<T>, b: set<T>)
    requires a <= b
    ensures |a| <= |b|
  {
    if a != {} {
      var x :| x in a;
      SubsetSize(a - {x}, b - {x});
    }
  }

  lemma NamesOfPrefix(raws: seq<string>, k: nat, normalize: string -> Option<string>)
    requires k <= |raws|
    ensures ValidNames(raws[..k], normalize) <= ValidNames(raws, normalize)
  {
  }

  method AddControlNames(control: seq<string>, normalize: string -> Option<string>)
      returns (ok: bool, sources: map<string, Source>)
    ensures ok <==> |ValidNames(control, normalize)| <= MAX_CANDIDATES
    ensures ok ==> Merges(sources, ValidNames(control, normalize), {})
  {
    hide ValidNames, Merges, SourceOf;
    sources := map[];
    NoNames(normalize);
    NothingMerged();
    assert control[..0] == [];
    for k := 0 to |control|
      invariant Merges(sources, ValidNames(control[..k], normalize), {})
      invariant |sources.Keys| <= MAX_CANDIDATES
    {
      assert control[..k + 1] == control[..k] + [control[k]];
      NamesAppend(control[..k], control[k], normalize);
      var hostname := normalize(control[k]);
      ghost var was, before := sources, ValidNames(control[..k], normalize);
      if hostname.None? {
        assert before + {} == before;
        continue;
      }
      MergedKeys(was, before, {});
      ok, sources := Add(sources, hostname.value, ControlPlane);
      if !ok {
        NamesOfPrefix(control, k + 1, normalize);
        OneMore(was.Keys, hostname.value, ValidNames(control, normalize));
        return;
      }
      AddedFromControl(was, sources, hostname.value, before);
    }
    assert control[..|control|] == control;
    MergedKeys(sources, ValidNames(control, normalize), {});
    ok := true;
  }

  lemma NothingInvalid(normalize: string -> Option<string>)
    ensures AllValid([], normalize)
  {
  }

  lemma AllValidAppend(raws: seq<string>, raw: string, normalize: string -> Option<string>)
    requires AllValid(raws, normalize)
    ensures AllValid(raws + [raw], normalize) <==> normalize(raw).Some?
  {
    assert raw in raws + [raw];
  }

  lemma NothingMerged()
    ensures Merges(map[], {}, {})
  {
  }

  lemma MergedKeys(sources: map<string, Source>, control: set<string>, stdin: set<string>)
    requires Merges(sources, control, stdin)
    ensures sources.Keys == control + stdin
    ensures stdin == {} ==> sources.Keys == control
  {
  }

  lemma AddedFromControl(was: map<string, Source>, sources: map<string, Source>, name: string, before: set<string>)
    requires Merges(was, before, {})
    requires sources == was[name := if name in was && was[name] != ControlPlane then Combined else ControlPlane]
    ensures Merges(sources, before + {name}, {})
  {
  }

  lemma OneMore(keys: set<string>, name: string, all: set<string>)
    requires name !in keys && keys <= all && name in all
    ensures |keys| < |all|
  {
    SubsetSize(keys + {name}, all);
  }

  method AddStdinNames(sources0: map<string, Source>, ghost names: set<string>, stdin: seq<string>,
                       normalize: string -> Option<string>)
      returns (failure: Option<MergeFailure>, sources: map<string, Source>)
    requires Merges(sources0, names, {}) && |names| <= MAX_CANDIDATES
    ensures failure.None? ==>
              Merges(sources, names, ValidNames(stdin, normalize)) && AllValid(stdin, normalize)
                && |sources.Keys| <= MAX_CANDIDATES
    ensures failure.Some? ==>
              || (failure.value.TooManyNames? && exists k | 0 <= k <= |stdin| :: Overflows(names, stdin, k, normalize))
              || (failure.value.InvalidRecord? && StopsAt(names, stdin, failure.value.index, normalize))
  {
    hide ValidNames, Merges, SourceOf, AllValid;
    sources := sources0;
    NoNames(normalize);
    MergedKeys(sources, names, {});
    assert stdin[..0] == [];
    NothingInvalid(normalize);
    for k := 0 to |stdin|
      invariant Merges(sources, names, ValidNames(stdin[..k], normalize))
      invariant |sources.Keys| <= MAX_CANDIDATES && AllValid(stdin[..k], normalize)
    {
      ghost var before, now := ValidNames(stdin[..k], normalize), ValidNames(stdin[..k + 1], normalize);
      assert stdin[..k + 1] == stdin[..k] + [stdin[k]];
      NamesAppend(stdin[..k], stdin[k], normalize);
      AllValidAppend(stdin[..k], stdin[k], normalize);
      var hostname := normalize(stdin[k]);
      ghost var was := sources;
      MergedKeys(was, names, before);
      if hostname.None? { return Some(InvalidRecord(k)), sources; }
      var ok;
      ok, sources := Add(sources, hostname.value, Stdin);
      if !ok {
        OneMore(was.Keys, hostname.value, names + now);
        assert Overflows(names, stdin, k + 1, normalize);
        return Some(TooManyNames), sources;
      }
      AddedFromStdin(was, sources, hostname.value, names, before);
    }
    assert stdin[..|stdin|] == stdin;
    failure := None;
  }

  lemma AddedFromStdin(was: map<string, Source>, sources: map<string, Source>, name: string, control: set<string>,
                       before: set<string>)
    requires Merges(was, control, before)
    requires sources == was[name := if name in was && was[name] != Stdin then Combined else Stdin]
    ensures Merges(sources, control, before + {name})
  {
  }

  method MergeHostnameSuggestionCandidates(control: seq<string>, stdin: seq<string>,
                                           normalize: string -> Option<string>)
      returns (r: Result<seq<Candidate>, MergeFailure>)
    ensures IsMerge(r, control, stdin, normalize)
  {
    if |control| > MAX_FIELDS { return Err(TooManyFields); }
    var ok, sources := AddControlNames(control, normalize);
    if !ok { return Err(TooManyNames); }
    ghost var names := ValidNames(control, normalize);
    assert sources.Keys == names;
    var failure;
    failure, sources := AddStdinNames(sources, names, stdin, normalize);
    if failure.Some? { return Err(failure.value); }
    var list := SortedCandidates(sources);
    return Ok(list);
  }

  predicate HostnameLess(a: Candidate, b: Candidate) { Less(a.hostname, b.hostname) }

  method SortedCandidates(sources: map<string, Source>) returns (list: seq<Candidate>)
    ensures Ascending(list)
    ensures forall c :: c in list <==> c.hostname in sources && sources[c.hostname] == c.source
  {
    var names := RangeOver(sources.Keys);
    var candidates: seq<Candidate> := [];
    for k := 0 to |names|
      invariant |candidates| == k
      invariant forall j | 0 <= j < k :: names[j] in sources && candidates[j] == Candidate(names[j], sources[names[j]])
    {
      assert names[k] in names;
      candidates := candidates + [Candidate(names[k], sources[names[k]])];
    }
    LessForSorting();
    assert StrictWeakOrder(HostnameLess) by {
      assert forall a: Candidate, b: Candidate :: HostnameLess(a, b) == Less(a.hostname, b.hostname);
    }
    list := SortSlice(candidates, HostnameLess);
    forall c ensures c in list <==> c.hostname in sources && sources[c.hostname] == c.source {
      assert c in multiset(list) <==> c in multiset(candidates);
      if c.hostname in sources && sources[c.hostname] == c.source {
        assert c.hostname in names;
        var k :| 0 <= k < |names| && names[k] == c.hostname;
        assert candidates[k] == c;
      }
    }
    forall i, j | 0 <= i < j < |candidates| ensures candidates[i] != candidates[j] { assert names[i] != names[j]; }
    CandidatesAscend(candidates, list);
  }

  lemma CandidatesAscend(candidates: seq<Candidate>, list: seq<Candidate>)
    requires Distinct(candidates) && SortedBy(list, HostnameLess) && multiset(list) == multiset(candidates)
    requires forall a, b | a in list && b in list && a != b :: a.hostname != b.hostname
    ensures Ascending(list)
  {
    DistinctMultiset(candidates);
    forall i, j | 0 <= i < j < |list| ensures Less(list[i].hostname, list[j].hostname) {
      assert list[i] in multiset(candidates);
      if list[i] == list[j] { TwoCopies(list, i, j); }
      LessTotal(list[i].hostname, list[j].hostname);
      assert !HostnameLess(list[j], list[i]);
    }
  }

  lemma OverflowExcludes(names: set<string>, stdin: seq<string>, k: nat, j: nat, normalize: string -> Option<string>)
    requires k <= |stdin| && j <= |stdin| && Overflows(names, stdin, k, normalize)
    requires |names + ValidNames(stdin[..j], normalize)| <= MAX_CANDIDATES
    ensures j < k
  {
    if k <= j {
      assert stdin[..j][..k] == stdin[..k];
      NamesOfPrefix(stdin[..j], k, normalize);
      SubsetSize(names + ValidNames(stdin[..k], normalize), names + ValidNames(stdin[..j], normalize));
    }
  }

  /** Once the names are too many, the merge neither succeeds nor stops at an invalid record. */
  lemma OverflowIsFinal(names: set<string>, stdin: seq<string>, k: nat, normalize: string -> Option<string>)
    requires k <= |stdin| && Overflows(names, stdin, k, normalize)
    ensures |names + ValidNames(stdin, normalize)| > MAX_CANDIDATES
    ensures forall j :: !StopsAt(names, stdin, j, normalize)
  {
    assert stdin[..|stdin|] == stdin;
    if |names + ValidNames(stdin, normalize)| <= MAX_CANDIDATES {
      OverflowExcludes(names, stdin, k, |stdin|, normalize);
    }
    forall j | StopsAt(names, stdin, j, normalize) ensures false {
      OverflowExcludes(names, stdin, k, j, normalize);
      FirstInvalid(j, k, stdin, normalize);
    }
  }

  lemma OverflowDecides(r: Result<seq<Candidate>, MergeFailure>, names: set<string>, stdin: seq<string>, k: nat,
                        normalize: string -> Option<string>)
    requires k <= |stdin| && Overflows(names, stdin, k, normalize) && IsMergeWith(r, names, stdin, normalize)
    ensures r == Err(TooManyNames)
  {
    OverflowIsFinal(names, stdin, k, normalize);
  }

  lemma StopDecides(r: Result<seq<Candidate>, MergeFailure>, names: set<string>, stdin: seq<string>, k: nat,
                    normalize: string -> Option<string>)
    requires StopsAt(names, stdin, k, normalize) && IsMergeWith(r, names, stdin, normalize)
    ensures r == Err(InvalidRecord(k))
  {
    if j: nat :| j <= |stdin| && Overflows(names, stdin, j, normalize) { OverflowIsFinal(names, stdin, j, normalize); }
    assert stdin[k] in stdin;
    if r.Err? && r.error.InvalidRecord? {
      FirstInvalid(r.error.index, k, stdin, normalize);
      FirstInvalid(k, r.error.index, stdin, normalize);
    }
  }

  lemma MergeWithIsUnique(a: Result<seq<Candidate>, MergeFailure>, b: Result<seq<Candidate>, MergeFailure>,
                          names: set<string>, stdin: seq<string>, normalize: string -> Option<string>)
    requires IsMergeWith(a, names, stdin, normalize) && IsMergeWith(b, names, stdin, normalize)
    ensures a == b
  {
    if k: nat :| k <= |stdin| && Overflows(names, stdin, k, normalize) {
      OverflowDecides(a, names, stdin, k, normalize);
      OverflowDecides(b, names, stdin, k, normalize);
    } else if k: nat :| StopsAt(names, stdin, k, normalize) {
      StopDecides(a, names, stdin, k, normalize);
      StopDecides(b, names, stdin, k, normalize);
    } else {
      ListIsUnique(a.value, b.value, names, ValidNames(stdin, normalize));
    }
  }

  lemma ListIsUnique(a: seq<Candidate>, b: seq<Candidate>, control: set<string>, stdin: set<string>)
    requires IsList(a, control, stdin) && IsList(b, control, stdin)
    ensures a == b
  {
    CandidatesUnique(a, b);
  }

  /** The outcomes exclude one another, so the result, or the first error met, is determined. */
  lemma MergeIsUnique(a: Result<seq<Candidate>, MergeFailure>, b: Result<seq<Candidate>, MergeFailure>,
                      control: seq<string>, stdin: seq<string>, normalize: string -> Option<string>)
    requires IsMerge(a, control, stdin, normalize) && IsMerge(b, control, stdin, normalize)
    ensures a == b
  {
    var names := ValidNames(control, normalize);
    if |control| <= MAX_FIELDS && |names| <= MAX_CANDIDATES { MergeWithIsUnique(a, b, names, stdin, normalize); }
  }

  lemma FirstInvalid(i: nat, j: nat, stdin: seq<string>, normalize: string -> Option<string>)
    requires i < |stdin| && j < |stdin| && normalize(stdin[i]).None? && AllValid(stdin[..j], normalize)
    ensures j <= i
  {
  }

  ghost function Hostnames(list: seq<Candidate>): seq<string> {
    seq(|list|, i requires 0 <= i < |list| => list[i].hostname)
  }

  lemma HostnamesOf(list: seq<Candidate>, name: string)
    ensures name in Hostnames(list) <==> exists c | c in list :: c.hostname == name
  {
    if c :| c in list && c.hostname == name {
      var i :| 0 <= i < |list| && list[i] == c;
      assert Hostnames(list)[i] == name;
    }
  }

  lemma CandidatesUnique(a: seq<Candidate>, b: seq<Candidate>)
    requires Ascending(a) && Ascending(b)
    requires forall c :: c in a <==> c in b
    ensures a == b
  {
    forall n ensures n in Hostnames(a) <==> n in Hostnames(b) {
      HostnamesOf(a, n);
      HostnamesOf(b, n);
    }
    AscendingUnique(Hostnames(a), Hostnames(b));
    assert |Hostnames(a)| == |a| && |Hostnames(b)| == |b|;
    forall i | 0 <= i < |a| ensures a[i] == b[i] {
      assert Hostnames(a)[i] == Hostnames(b)[i];
      assert a[i] in b;
      var j :| 0 <= j < |b| && b[j] == a[i];
      LessIrreflexive(a[i].hostname);
    }
  }

  /** A merged list names each hostname once, which is what makes suggestions independent of order. */
  lemma MergedHostnamesAreUnique(list: seq<Candidate>, control: seq<string>, stdin: seq<string>,
                                 normalize: string -> Option<string>)
    requires IsMerge(Ok(list), control, stdin, normalize)
    ensures UniqueHostnames(list) && |list| <= MAX_CANDIDATES
  {
    var all := ValidNames(control, normalize) + ValidNames(stdin, normalize);
    forall n ensures n in Hostnames(list) ==> n in all { HostnamesOf(list, n); }
    forall i, j | 0 <= i < |list| && 0 <= j < |list| && list[i].hostname == list[j].hostname ensures i == j {
      LessIrreflexive(list[i].hostname);
    }
    DistinctFit(Hostnames(list), all);
  }

  lemma {:induction false} DistinctFit<T>(s: seq<T>, all: set<T>)
    requires Distinct(s) && forall x | x in s :: x in all
    ensures |s| <= |all|
  {
    if s != [] {
      var n := |s| - 1;
      assert s[n] in s;
      forall x | x in s[..n] ensures x in all - {s[n]} { assert x in s; }
      DistinctFit(s[..n], all - {s[n]});
    }
  }
}
