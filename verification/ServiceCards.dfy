/** Service cards: how they are built, ordered and grouped into sections. */
module ServiceCards {
  import opened Common
  import opened Ordering
  import opened ServiceMetadata

  datatype ProxyHost = ProxyHost(
    id: int,
    domainNames: seq<string>,
    forwardScheme: string,
    forwardHost: string,
    forwardPort: int,
    enabled: bool
  )

  datatype LinkState = Ready | NeedsMetadata | Invalid

  datatype Card = Card(
    id: int,
    name: string,
    url: string,
    domain: string,
    category: string,
    order: Option<int>,
    icon: string,
    link: LinkState
  )

  /** What card building takes from Go's libraries. */
  datatype UrlLibrary = UrlLibrary(
    validConcreteDomain: string -> bool,
    httpUrl: (string, string) -> string,
    lower: char -> char
  )

  // Building

  function NonblankDomains(raw: seq<string>): (r: seq<string>)
    ensures r != [] <==> exists d :: d in raw && TrimSpace(d) != ""
  {
    if raw == [] then []
    else
      assert forall d :: d in raw <==> d == raw[0] || d in raw[1..];
      if TrimSpace(raw[0]) == "" then NonblankDomains(raw[1..])
      else [TrimSpace(raw[0])] + NonblankDomains(raw[1..])
  }

  /** resolveServiceCard: None when the host has no nonblank domain. */
  function ResolvedCard(host: ProxyHost, metadata: Option<Metadata>, lib: UrlLibrary): (r: Option<Card>)
    ensures r.Some? <==> exists d :: d in host.domainNames && TrimSpace(d) != ""
    ensures r.Some? ==> r.value.id == host.id
    ensures r.Some? && (r.value.category != "" || r.value.order.Some?) ==> HasOrganization(metadata)
  {
    var domains := NonblankDomains(host.domainNames);
    if domains == [] then None
    else
      var i := FirstWhere(domains, lib.validConcreteDomain);
      var concrete := i < |domains|;
      var domain := if concrete then domains[i] else domains[0];
      var base := Card(host.id, domain, "", domain, "", None, "", NeedsMetadata);
      var override := if metadata.Some? && host.id in metadata.value.overrides
                      then metadata.value.overrides[host.id] else Override("", "", "", None, "");
      var card := base.(name := if override.name != "" then override.name else domain,
                        category := override.category, icon := override.icon, order := override.order);
      if override.url != "" then Some(card.(url := override.url, link := Ready))
      else if !concrete then Some(card)
      else
        var lowered := ToLower(TrimSpace(host.forwardScheme), lib.lower);
        var scheme := if lowered == "" then "https" else lowered;
        if scheme != "http" && scheme != "https" then Some(card.(link := Invalid))
        else Some(card.(url := lib.httpUrl(scheme, domain), link := Ready))
  }

  /** The domain a card shows: the first concrete one, or else the first that is not blank. */
  predicate ShowsDomain(host: ProxyHost, domain: string, concrete: bool, lib: UrlLibrary) {
    exists i | 0 <= i < |host.domainNames| ::
      && TrimSpace(host.domainNames[i]) == domain && domain != ""
      && if concrete then FirstConcrete(host.domainNames, i, lib) else FirstNonblank(host.domainNames, i, lib)
  }

  predicate FirstConcrete(raw: seq<string>, i: nat, lib: UrlLibrary)
    requires i < |raw|
  {
    && lib.validConcreteDomain(TrimSpace(raw[i]))
    && forall k | 0 <= k < i :: !(TrimSpace(raw[k]) != "" && lib.validConcreteDomain(TrimSpace(raw[k])))
  }

  predicate FirstNonblank(raw: seq<string>, i: nat, lib: UrlLibrary)
    requires i < |raw|
  {
    && (forall k | 0 <= k < i :: TrimSpace(raw[k]) == "")
    && forall k | 0 <= k < |raw| :: !(TrimSpace(raw[k]) != "" && lib.validConcreteDomain(TrimSpace(raw[k])))
  }

  /** What the card shows comes from the metadata where that says something, and from the host otherwise. */
  lemma CardTells(host: ProxyHost, metadata: Option<Metadata>, lib: UrlLibrary)
    requires ResolvedCard(host, metadata, lib).Some?
    ensures var c := ResolvedCard(host, metadata, lib).value;
            var known := metadata.Some? && host.id in metadata.value.overrides;
            var o := if known then metadata.value.overrides[host.id] else Override("", "", "", None, "");
            var concrete := exists d | d in host.domainNames ::
                TrimSpace(d) != "" && lib.validConcreteDomain(TrimSpace(d));
            var scheme := ToLower(TrimSpace(host.forwardScheme), lib.lower);
            && c.id == host.id && ShowsDomain(host, c.domain, concrete, lib)
            && c.name == (if o.name == "" then c.domain else o.name)
            && c.category == o.category && c.order == o.order && c.icon == o.icon
            && (o.url != "" ==> c.url == o.url && c.link == Ready)
            && (o.url == "" && !concrete ==> c.url == "" && c.link == NeedsMetadata)
            && (o.url == "" && concrete && scheme !in {"", "http", "https"} ==> c.url == "" && c.link == Invalid)
            && (o.url == "" && concrete && scheme in {"", "http", "https"} ==>
                  c.link == Ready && c.url == lib.httpUrl(if scheme == "" then "https" else scheme, c.domain))
  {
    hide NonblankDomains, FirstWhere, ShowsDomain, TrimSpace, ToLower, HasOrganization;
    ChosenDomain(host, lib);
  }

  lemma NonblankStep(raw: seq<string>)
    ensures raw == [] ==> NonblankDomains(raw) == []
    ensures raw != [] && TrimSpace(raw[0]) == "" ==> NonblankDomains(raw) == NonblankDomains(raw[1..])
    ensures raw != [] && TrimSpace(raw[0]) != "" ==>
              NonblankDomains(raw) == [TrimSpace(raw[0])] + NonblankDomains(raw[1..])
  {
  }

  /** Where the j-th nonblank domain stands in the raw list. */
  lemma {:induction false} NonblankAt(raw: seq<string>, j: nat) returns (i: nat)
    requires j < |NonblankDomains(raw)|
    ensures i < |raw| && TrimSpace(raw[i]) == NonblankDomains(raw)[j] && TrimSpace(raw[i]) != ""
    ensures NonblankDomains(raw[..i]) == NonblankDomains(raw)[..j]
    decreases |raw|
  {
    hide NonblankDomains, TrimSpace;
    NonblankStep(raw);
    if TrimSpace(raw[0]) == "" {
      var n := NonblankAt(raw[1..], j);
      i := n + 1;
    } else if j == 0 {
      i := 0;
    } else {
      var n := NonblankAt(raw[1..], j - 1);
      i := n + 1;
    }
    NonblankStep(raw[..i]);
    if i > 0 { assert raw[..i][1..] == raw[1..][..i - 1]; }
  }

  lemma ChosenDomain(host: ProxyHost, lib: UrlLibrary)
    requires NonblankDomains(host.domainNames) != []
    ensures var domains := NonblankDomains(host.domainNames);
            var i := FirstWhere(domains, lib.validConcreteDomain);
            && (i < |domains| <==> exists d | d in host.domainNames ::
                  TrimSpace(d) != "" && lib.validConcreteDomain(TrimSpace(d)))
            && ShowsDomain(host, if i < |domains| then domains[i] else domains[0], i < |domains|, lib)
  {
    var raw, domains := host.domainNames, NonblankDomains(host.domainNames);
    var j := FirstWhere(domains, lib.validConcreteDomain);
    var i := NonblankAt(raw, if j < |domains| then j else 0);
    forall k | 0 <= k < |raw| && TrimSpace(raw[k]) != "" ensures TrimSpace(raw[k]) in domains { NonblankKept(raw, k); }
    forall k | 0 <= k < i && TrimSpace(raw[k]) != "" ensures TrimSpace(raw[k]) in domains[..if j < |domains| then j
        else 0] {
      NonblankKept(raw[..i], k);
    }
    hide NonblankDomains, FirstWhere, TrimSpace;
    if j < |domains| {
      assert raw[i] in raw;
      assert FirstConcrete(raw, i, lib);
    } else {
      assert FirstNonblank(raw, i, lib);
    }
  }

  lemma {:induction false} NonblankKept(raw: seq<string>, k: nat)
    requires k < |raw| && TrimSpace(raw[k]) != ""
    ensures TrimSpace(raw[k]) in NonblankDomains(raw)
  {
    if k > 0 { NonblankKept(raw[1..], k - 1); }
  }

  /** serviceMetadataHasOrganization. */
  ghost predicate HasOrganization(metadata: Option<Metadata>) {
    metadata.Some? && exists id | id in metadata.value.overrides ::
      metadata.value.overrides[id].category != "" || metadata.value.overrides[id].order.Some?
  }

  // Ordering

  /** serviceCardLess. */
  predicate CardLess(left: Card, right: Card, organized: bool, lower: char -> char) {
    if organized && left.category != right.category then CategoryLess(left.category, right.category, lower)
    else if organized && left.order.Some? != right.order.Some? then left.order.Some?
    else if organized && left.order.Some? && left.order.value != right.order.value
      then left.order.value < right.order.value
    else
      var l, r := ToLower(left.name, lower), ToLower(right.name, lower);
      if l != r then Less(l, r) else left.id < right.id
  }

  /** Named categories by folded name, then by exact name; the uncategorized ones last. */
  predicate CategoryLess(left: string, right: string, lower: char -> char) {
    if left == "" then false
    else if right == "" then true
    else
      var l, r := ToLower(left, lower), ToLower(right, lower);
      if l != r then Less(l, r) else Less(left, right)
  }

  lemma CategoryOrder(a: string, b: string, c: string, lower: char -> char)
    ensures !CategoryLess(a, a, lower)
    ensures a == b || CategoryLess(a, b, lower) || CategoryLess(b, a, lower)
    ensures !(CategoryLess(a, b, lower) && CategoryLess(b, a, lower))
    ensures CategoryLess(a, b, lower) && CategoryLess(b, c, lower) ==> CategoryLess(a, c, lower)
  {
    var x, y, z := ToLower(a, lower), ToLower(b, lower), ToLower(c, lower);
    StringOrder(a, b, c);
    StringOrder(x, y, z);
  }

  lemma StringOrder(a: string, b: string, c: string)
    ensures !Less(a, a)
    ensures a == b || Less(a, b) || Less(b, a)
    ensures !(Less(a, b) && Less(b, a))
    ensures Less(a, b) && Less(b, c) ==> Less(a, c)
  {
    LessIrreflexive(a);
    LessTotal(a, b);
    if Less(a, b) && Less(b, c) { LessTransitive(a, b, c); }
    if Less(a, b) && Less(b, a) { LessTransitive(a, b, a); }
  }

  /** Two cards the comparator does not tell apart. */
  predicate SameRank(a: Card, b: Card, organized: bool, lower: char -> char) {
    && (organized ==> a.category == b.category && a.order == b.order)
    && ToLower(a.name, lower) == ToLower(b.name, lower)
    && a.id == b.id
  }

  lemma CardTrichotomy(a: Card, b: Card, organized: bool, lower: char -> char)
    ensures !CardLess(a, a, organized, lower)
    ensures CardLess(a, b, organized, lower) || CardLess(b, a, organized, lower) || SameRank(a, b, organized, lower)
    ensures !(CardLess(a, b, organized, lower) && CardLess(b, a, organized, lower))
    ensures SameRank(a, b, organized, lower) ==> !CardLess(a, b, organized, lower)
  {
    CategoryOrder(a.category, b.category, a.category, lower);
    StringOrder(ToLower(a.name, lower), ToLower(b.name, lower), "");
  }

  /** Sections come by folded and then by exact name, the uncategorized last; in them ordered cards first, by number. */
  lemma OrganizedPrecedence(a: Card, b: Card, lower: char -> char)
    ensures a.category != "" && b.category == "" ==> CardLess(a, b, true, lower)
    ensures a.category != "" && b.category != "" && Less(ToLower(a.category, lower), ToLower(b.category, lower)) ==>
              CardLess(a, b, true, lower)
    ensures a.category != "" && ToLower(a.category, lower) == ToLower(b.category, lower) && Less(a.category, b.category)
            ==> CardLess(a, b, true, lower)
    ensures a.category == b.category && a.order.Some? && b.order.None? ==> CardLess(a, b, true, lower)
    ensures a.category == b.category && a.order.Some? && b.order.Some? && a.order.value < b.order.value ==>
              CardLess(a, b, true, lower)
    ensures a.category == b.category && a.order == b.order ==>
              (CardLess(a, b, true, lower) <==> CardLess(a, b, false, lower))
  {
    LessIrreflexive(ToLower(a.category, lower));
    LessIrreflexive(a.category);
  }

  /** Otherwise cards come by folded name, and by id where that is the same. */
  lemma PlainPrecedence(a: Card, b: Card, lower: char -> char)
    ensures Less(ToLower(a.name, lower), ToLower(b.name, lower)) ==> CardLess(a, b, false, lower)
    ensures ToLower(a.name, lower) == ToLower(b.name, lower) && a.id < b.id ==> CardLess(a, b, false, lower)
  {
    LessIrreflexive(ToLower(a.name, lower));
  }

  lemma CardTransitive(a: Card, b: Card, c: Card, organized: bool, lower: char -> char)
    requires CardLess(a, b, organized, lower) && CardLess(b, c, organized, lower)
    ensures CardLess(a, c, organized, lower)
  {
    CategoryOrder(a.category, b.category, c.category, lower);
    CategoryOrder(b.category, c.category, a.category, lower);
    StringOrder(ToLower(a.name, lower), ToLower(b.name, lower), ToLower(c.name, lower));
  }

  function CardOrder(organized: bool, lower: char -> char): (Card, Card) -> bool {
    (a, b) => CardLess(a, b, organized, lower)
  }

  /** serviceCardLess is a strict weak order in both modes. */
  lemma CardLessIsStrictWeak(organized: bool, lower: char -> char)
    ensures StrictWeakOrder(CardOrder(organized, lower))
  {
    var less := CardOrder(organized, lower);
    forall x ensures !less(x, x) { CardTrichotomy(x, x, organized, lower); }
    forall x, y, z | less(x, y) && less(y, z) ensures less(x, z) { CardTransitive(x, y, z, organized, lower); }
    forall x, y, z | !less(x, y) && !less(y, z) ensures !less(x, z) {
      NegativeTransitive(x, y, z, organized, lower);
    }
  }

  lemma NegativeTransitive(a: Card, b: Card, c: Card, organized: bool, lower: char -> char)
    requires !CardLess(a, b, organized, lower) && !CardLess(b, c, organized, lower)
    ensures !CardLess(a, c, organized, lower)
  {
    CardTrichotomy(a, b, organized, lower);
    CardTrichotomy(b, c, organized, lower);
    if CardLess(a, c, organized, lower) {
      if CardLess(b, a, organized, lower) {
        CardTransitive(b, a, c, organized, lower);
      } else if CardLess(c, b, organized, lower) {
        CardTransitive(a, c, b, organized, lower);
      }
    }
  }

  // Sections

  datatype Section = Section(index: nat, category: string, cards: seq<Card>)

  function Concat(sections: seq<Section>): seq<Card> {
    if sections == [] then [] else Concat(sections[..|sections| - 1]) + sections[|sections| - 1].cards
  }

  ghost predicate OrganizedSort(cards: seq<Card>, lower: char -> char) {
    SortedBy(cards, CardOrder(true, lower))
  }

  /**
   * What the page shows: every card once and in order, one section for each distinct category,
   * numbered from zero, with the uncategorized section last.
   */
  ghost predicate ProperSections(sections: seq<Section>, cards: seq<Card>) {
    && Concat(sections) == cards
    && (forall i | 0 <= i < |sections| ::
          && sections[i].index == i && sections[i].cards != []
          && forall c | c in sections[i].cards :: c.category == sections[i].category)
    && (forall i, j | 0 <= i < j < |sections| :: sections[i].category != sections[j].category)
    && (forall i | 0 <= i < |sections| :: sections[i].category == "" ==> i == |sections| - 1)
  }

  /** In sorted cards, a category that ended does not come back, and nothing follows the empty one. */
  lemma CategoriesAreContiguous(cards: seq<Card>, lower: char -> char, i: nat, j: nat, k: nat)
    requires OrganizedSort(cards, lower) && i < j < k < |cards|
    requires cards[i].category != cards[j].category
    ensures cards[i].category != cards[k].category && cards[i].category != ""
  {
    var less := CardOrder(true, lower);
    var a, b, c := cards[i].category, cards[j].category, cards[k].category;
    assert !less(cards[j], cards[i]) && !less(cards[k], cards[j]) && !less(cards[k], cards[i]);
    CategoryOrder(a, b, c, lower);
    CategoryOrder(b, c, a, lower);
    CategoryOrder(c, a, b, lower);
  }

  lemma CategoryEndsAtChange(cards: seq<Card>, lower: char -> char, i: nat, j: nat)
    requires OrganizedSort(cards, lower) && i < j < |cards|
    requires cards[i].category != cards[j].category
    ensures cards[i].category != ""
  {
    assert !CardOrder(true, lower)(cards[j], cards[i]);
    CategoryOrder(cards[i].category, cards[j].category, "", lower);
  }

  /** The grouping loop of renderServiceSections. */
  method RenderServiceSections(cards: seq<Card>, ghost lower: char -> char) returns (sections: seq<Section>)
    requires OrganizedSort(cards, lower)
    ensures ProperSections(sections, cards)
  {
    sections := [];
    var start := 0;
    while start < |cards|
      invariant 0 <= start <= |cards|
      invariant start < |cards| ==> Pending(sections, cards, start)
      invariant start == |cards| ==> ProperSections(sections, cards[..start])
    {
      var category := cards[start].category;
      var end := start + 1;
      while end < |cards| && cards[end].category == category
        invariant start < end <= |cards|
        invariant forall k | start <= k < end :: cards[k].category == category
      {
        end := end + 1;
      }
      CategoryIsOver(cards, start, end, lower);
      SectionAdded(sections, cards, start, end);
      sections := sections + [Section(|sections|, category, cards[start..end])];
      start := end;
    }
    assert cards[..|cards|] == cards;
  }

  /** The sections so far are proper, and none of their categories occurs from `start` on. */
  ghost predicate Pending(sections: seq<Section>, cards: seq<Card>, start: nat)
    requires start <= |cards|
  {
    && Concat(sections) == cards[..start]
    && (forall i | 0 <= i < |sections| ::
          && sections[i].index == i && sections[i].cards != []
          && forall c | c in sections[i].cards :: c.category == sections[i].category)
    && (forall i, j | 0 <= i < j < |sections| :: sections[i].category != sections[j].category)
    && (forall i | 0 <= i < |sections| && start < |cards| :: sections[i].category != "")
    && (forall i, k | 0 <= i < |sections| && start <= k < |cards| :: sections[i].category != cards[k].category)
  }

  lemma ConcatAppend(sections: seq<Section>, s: Section)
    ensures Concat(sections + [s]) == Concat(sections) + s.cards
  {
    assert (sections + [s])[..|sections|] == sections;
  }

  lemma SectionAdded(sections: seq<Section>, cards: seq<Card>, start: nat, end: nat)
    requires start < end <= |cards| && Pending(sections, cards, start)
    requires forall k | start <= k < end :: cards[k].category == cards[start].category
    requires forall k | end <= k < |cards| :: cards[k].category != cards[start].category
    requires end < |cards| ==> cards[start].category != ""
    ensures var r := sections + [Section(|sections|, cards[start].category, cards[start..end])];
            (end < |cards| ==> Pending(r, cards, end)) && (end == |cards| ==> ProperSections(r, cards[..end]))
  {
    var s := Section(|sections|, cards[start].category, cards[start..end]);
    var r := sections + [s];
    ConcatAppend(sections, s);
    hide Concat;
    assert cards[..end] == cards[..start] + cards[start..end];
    assert forall i | 0 <= i < |sections| :: sections[i].category != cards[start].category;
  }

  /** The category of cards start to end - 1 is over, and was not the empty one. */
  lemma CategoryIsOver(cards: seq<Card>, start: nat, end: nat, lower: char -> char)
    requires OrganizedSort(cards, lower) && start < end <= |cards|
    requires forall k | start <= k < end :: cards[k].category == cards[start].category
    requires end < |cards| ==> cards[end].category != cards[start].category
    ensures forall k | end <= k < |cards| :: cards[k].category != cards[start].category
    ensures end < |cards| ==> cards[start].category != ""
  {
    if end < |cards| {
      CategoryEndsAtChange(cards, lower, start, end);
      forall k | end <= k < |cards| ensures cards[k].category != cards[start].category {
        if k > end { CategoriesAreContiguous(cards, lower, start, end, k); }
      }
    }
  }
}
