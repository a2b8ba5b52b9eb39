/** Service metadata documents: the strict v1/v2/v3 parser and the v3 serializer. */
module ServiceMetadata {
  import opened Common
  import opened Ordering
  import opened Json
  import Utf8

  const MAX_BYTES := 256 * 1024
  const MAX_ENTRIES := 1024
  const MAX_NAME := 120
  const MAX_CATEGORY := 64
  const MAX_URL := 2048
  const MAX_ORDER := 1_000_000
  const MAX_INT := 0x7FFF_FFFF_FFFF_FFFF

  const ICONS := {"generic", "adguard-home", "gitea", "grafana", "home-assistant", "immich", "jellyfin", "nextcloud",
                  "nginx-proxy-manager", "paperless-ngx", "portainer", "qbittorrent", "uptime-kuma"}

  /**
   * What the parser takes from Go's libraries: the token stream of a byte slice (empty exactly for
   * blank input), whether the raw bytes of every category in it are UTF-8, the indented encoding of a
   * value, Unicode lower-casing beyond ASCII, and the normal form of an absolute http(s) URL that has a
   * host and neither user nor opaque part.
   */
  datatype Library = Library(
    lex: Bytes -> seq<Token>,
    cleanCategories: Bytes -> bool,
    encode: Value -> Bytes,
    lower: char -> char,
    parsedUrl: string -> Option<string>
  ) {
    /** encoding/json prints UTF-8, and reads back the tokens of whatever it printed. */
    ghost predicate Lawful() { forall v | Printable(v) :: lex(encode(v)) == Flatten(v) && cleanCategories(encode(v)) }
  }

  datatype Entry = Entry(
    id: int,
    name: Option<string>,
    url: Option<string>,
    category: Option<string>,
    order: Option<int>,
    icon: Option<string>,
    nameNull: bool,
    urlNull: bool
  )

  datatype Document = Document(version: int, services: seq<Entry>)

  datatype Override = Override(name: string, url: string, category: string, order: Option<int>, icon: string)

  datatype Metadata = Metadata(overrides: map<int, Override>, document: Document)

  datatype Failure = TooLarge | Empty | DuplicateField | InvalidDocument | UnknownVersion | MissingServices
                   | TooManyServices | InvalidEntry(index: nat)

  // Field checks

  predicate Canonical(s: string) {
    s != "" && !SpaceRune(s[0] as int) && !SpaceRune(s[|s| - 1] as int) && forall c | c in s :: !ControlRune(c as int)
  }

  predicate ValidName(s: string) { Canonical(s) && |s| <= MAX_NAME }

  predicate ValidCategory(s: string) { Canonical(s) && |s| <= MAX_CATEGORY }

  function Utf8Length(s: string): nat {
    if s == "" then 0
    else
      var c := s[0] as int;
      (if c < 0x80 then 1 else if c < 0x800 then 2 else if c < 0x10000 then 3 else 4) + Utf8Length(s[1..])
  }

  /** The string in UTF-8. */
  function Utf8Text(s: string): Bytes {
    if s == "" then [] else Utf8.Encode(s[0] as int) + Utf8Text(s[1..])
  }

  /** The length that bounds a URL is that of its bytes. */
  lemma {:induction false} LengthInBytes(s: string)
    ensures Utf8Length(s) == |Utf8Text(s)|
  {
    if s != "" { LengthInBytes(s[1..]); }
  }

  predicate ValidUrl(s: string, lib: Library) {
    Canonical(s) && Utf8Length(s) <= MAX_URL && lib.parsedUrl(s).Some?
  }

  predicate ValidIcon(s: string) { s in ICONS }

  predicate Blank(e: Entry) {
    e.name.None? && e.url.None? && e.category.None? && e.order.None? && e.icon.None?
  }

  predicate ValidEntry(e: Entry, lib: Library) {
    && e.id > 0
    && !Blank(e)
    && (e.name.Some? ==> ValidName(e.name.value))
    && (e.url.Some? ==> ValidUrl(e.url.value, lib))
    && (e.category.Some? ==> ValidCategory(e.category.value))
    && (e.order.Some? ==> 0 <= e.order.value <= MAX_ORDER)
    && (e.icon.Some? ==> ValidIcon(e.icon.value))
  }

  function OverrideOf(e: Entry, lib: Library): Override
    requires ValidEntry(e, lib)
  {
    Override(
      e.name.GetOr(""),
      if e.url.Some? then lib.parsedUrl(e.url.value).value else "",
      e.category.GetOr(""),
      e.order,
      e.icon.GetOr(""))
  }

  // Decoding

  function Fields(members: seq<Member>): map<string, Value> {
    if members == [] then map[]
    else map[members[0].key := members[0].value] + Fields(members[1..])
  }

  datatype Field<T> = Absent | Wrong | Present(value: T)

  function TextField(f: map<string, Value>, key: string): Field<string> {
    if key !in f || f[key] == VNull then Absent
    else if f[key].VText? then Present(f[key].s)
    else Wrong
  }

  function IntField(f: map<string, Value>, key: string): Field<int> {
    if key !in f || f[key] == VNull then Absent
    else if f[key].VNum? && f[key].n.Integer? && -MAX_INT - 1 <= f[key].n.i <= MAX_INT then Present(f[key].n.i)
    else Wrong
  }

  predicate IsNull(f: map<string, Value>, key: string) { key in f && f[key] == VNull }

  function Allowed(version: int): set<string> {
    if version == 3 then {"proxy_host_id", "name", "url", "category", "order", "icon"}
    else if version == 2 then {"proxy_host_id", "name", "url", "category", "order"}
    else {"proxy_host_id", "name", "url"}
  }

  function FromField<T>(f: Field<T>): Option<T> {
    if f.Present? then Some(f.value) else None
  }

  function DecodedFields(version: int, f: map<string, Value>): Option<Entry> {
    if !(f.Keys <= Allowed(version)) then None
    else if version >= 2 && (IsNull(f, "category") || IsNull(f, "order")) then None
    else if version == 3 && IsNull(f, "icon") then None
    else
      var id := IntField(f, "proxy_host_id");
      var name, url := TextField(f, "name"), TextField(f, "url");
      var category, order, icon := TextField(f, "category"), IntField(f, "order"), TextField(f, "icon");
      if id.Wrong? || name.Wrong? || url.Wrong? || category.Wrong? || order.Wrong? || icon.Wrong? then None
      else Some(Entry(
                  if id.Present? then id.value else 0,
                  FromField(name), FromField(url), FromField(category), FromField(order), FromField(icon),
                  IsNull(f, "name"), IsNull(f, "url")))
  }

  /** One element of `services`; a JSON null decodes to the zero entry, which has no valid id. */
  function DecodedEntry(version: int, v: Value): Option<Entry> {
    if v == VNull then Some(Entry(0, None, None, None, None, None, false, false))
    else if v.VObject? then DecodedFields(version, Fields(v.members))
    else None
  }

  function DecodedEntries(version: int, items: seq<Value>): (r: Option<seq<Entry>>)
    ensures r.Some? ==> |r.value| == |items|
  {
    if items == [] then Some([])
    else
      var head, tail := DecodedEntry(version, items[0]), DecodedEntries(version, items[1..]);
      if head.None? || tail.None? then None else Some([head.value] + tail.value)
  }

  function DecodedDocument(v: Value): Result<Document, Failure> {
    if !v.VObject? then Err(InvalidDocument)
    else
      var f := Fields(v.members);
      if !(f.Keys <= {"version", "services"}) then Err(InvalidDocument)
      else
        var version := IntField(f, "version");
        if version.Wrong? then Err(InvalidDocument)
        else
          var number := if version.Present? then version.value else 0;
          if "services" !in f || f["services"] == VNull
            then Err(if 1 <= number <= 3 then MissingServices else UnknownVersion)
          else if !f["services"].VArray? then Err(InvalidDocument)
          else
            var entries := DecodedEntries(number, f["services"].items);
            if entries.None? then Err(InvalidDocument)
            else if !(1 <= number <= 3) then Err(UnknownVersion)
            else if |entries.value| > MAX_ENTRIES then Err(TooManyServices)
            else Ok(Document(number, entries.value))
  }

  // Checking

  predicate DistinctIds(services: seq<Entry>) {
    forall i, j | 0 <= i < j < |services| :: services[i].id != services[j].id
  }

  predicate ValidServices(services: seq<Entry>, lib: Library) {
    (forall e | e in services :: ValidEntry(e, lib)) && DistinctIds(services)
  }

  predicate AcceptableAt(services: seq<Entry>, i: nat, lib: Library)
    requires i < |services|
  {
    ValidEntry(services[i], lib) && forall j | 0 <= j < i :: services[j].id != services[i].id
  }

  function FirstUnacceptable(services: seq<Entry>, from: nat, lib: Library): (i: nat)
    requires from <= |services|
    ensures from <= i <= |services|
    ensures forall k | from <= k < i :: AcceptableAt(services, k, lib)
    ensures i < |services| ==> !AcceptableAt(services, i, lib)
    decreases |services| - from
  {
    if from == |services| || !AcceptableAt(services, from, lib) then from
    else FirstUnacceptable(services, from + 1, lib)
  }

  function Overrides(services: seq<Entry>, lib: Library): (m: map<int, Override>)
    requires forall e | e in services :: ValidEntry(e, lib)
    ensures forall id :: id in m <==> exists i :: 0 <= i < |services| && services[i].id == id
  {
    if services == [] then map[]
    else
      var n := |services| - 1;
      var m := Overrides(services[..n], lib)[services[n].id := OverrideOf(services[n], lib)];
      assert forall i | 0 <= i < n :: services[..n][i] == services[i];
      m
  }

  /** The override says what the entry says, and the URL in its parsed form. */
  predicate Overrules(o: Override, e: Entry, lib: Library) {
    && o.name == e.name.GetOr("") && o.category == e.category.GetOr("") && o.icon == e.icon.GetOr("")
    && o.order == e.order
    && (e.url.None? ==> o.url == "") && (e.url.Some? ==> Some(o.url) == lib.parsedUrl(e.url.value))
  }

  lemma {:induction false} OverridesSayIt(services: seq<Entry>, lib: Library)
    requires ValidServices(services, lib)
    ensures forall e | e in services ::
              e.id in Overrides(services, lib) && Overrules(Overrides(services, lib)[e.id], e, lib)
  {
    if services != [] {
      var n := |services| - 1;
      LastOverride(services, lib);
      DistinctBefore(services, n);
      OverridesSayIt(services[..n], lib);
      OverrideSaysIt(services[n], lib);
      hide ValidEntry, Overrides, Overrules, OverrideOf;
      forall e | e in services
        ensures e.id in Overrides(services, lib) && Overrules(Overrides(services, lib)[e.id], e, lib)
      {
        if e != services[n] { assert e in services[..n]; }
      }
    }
  }

  lemma LastOverride(services: seq<Entry>, lib: Library)
    requires services != [] && ValidServices(services, lib)
    ensures var n := |services| - 1;
            && (forall e | e in services[..n] :: ValidEntry(e, lib)) && services[n] in services
            && Overrides(services, lib) == Overrides(services[..n], lib)[services[n].id := OverrideOf(services[n], lib)]
  {
    hide ValidEntry, OverrideOf;
  }

  lemma OverrideSaysIt(e: Entry, lib: Library)
    requires ValidEntry(e, lib)
    ensures Overrules(OverrideOf(e, lib), e, lib)
  {
  }

  lemma DistinctBefore(services: seq<Entry>, n: nat)
    requires n < |services| && DistinctIds(services)
    ensures DistinctIds(services[..n]) && forall e | e in services[..n] :: e.id != services[n].id
  {
  }

  /** Each entry of an accepted document, and nothing else, is what the overrides hold under its id. */
  lemma OverridesAreTheEntries(data: Bytes, lib: Library)
    requires Parsed(data, lib).Ok?
    ensures var m := Parsed(data, lib).value;
            && (forall e | e in m.document.services :: e.id in m.overrides && Overrules(m.overrides[e.id], e, lib))
            && (forall id | id in m.overrides :: exists e | e in m.document.services :: e.id == id)
  {
    var services := DecodedFile(data, lib).value.services;
    AllAcceptable(services, lib);
    OverridesSayIt(services, lib);
    hide DecodedFile, ValidEntry;
  }

  lemma AllAcceptable(services: seq<Entry>, lib: Library)
    ensures FirstUnacceptable(services, 0, lib) == |services| <==> ValidServices(services, lib)
  {
    if FirstUnacceptable(services, 0, lib) == |services| {
      forall e | e in services ensures ValidEntry(e, lib) {
        var k :| 0 <= k < |services| && services[k] == e;
        assert AcceptableAt(services, k, lib);
      }
      forall i, j | 0 <= i < j < |services| ensures services[i].id != services[j].id {
        assert AcceptableAt(services, j, lib);
      }
    }
    if ValidServices(services, lib) {
      assert forall k | 0 <= k < |services| :: services[k] in services && AcceptableAt(services, k, lib);
    }
  }

  function CheckedDocument(d: Document, lib: Library): Result<Metadata, Failure> {
    var bad := FirstUnacceptable(d.services, 0, lib);
    if bad < |d.services| then Err(InvalidEntry(bad))
    else
      AllAcceptable(d.services, lib);
      Ok(Metadata(Overrides(d.services, lib), d))
  }

  /** Everything parseServiceMetadata does before it looks at the entries. */
  function DecodedFile(data: Bytes, lib: Library): Result<Document, Failure> {
    if |data| > MAX_BYTES then Err(TooLarge)
    else
      var tokens := lib.lex(data);
      if tokens == [] then Err(Empty)
      else
        var w := RejectsDuplicates(tokens, lib.lower);
        if w.Duplicate? then Err(DuplicateField)
        else if w.Invalid? then Err(InvalidDocument)
        else
          var v := Json.Document(tokens);
          if v.None? || !CategoriesFit(v.value, data, lib) then Err(InvalidDocument) else DecodedDocument(v.value)
  }

  /** Version 1 knows no categories, and unknown versions fail later. */
  predicate CategoriesFit(v: Value, data: Bytes, lib: Library) {
    v.VObject? && IntField(Fields(v.members), "version") in {Present(2), Present(3)} ==> lib.cleanCategories(data)
  }

  function Parsed(data: Bytes, lib: Library): Result<Metadata, Failure> {
    var d := DecodedFile(data, lib);
    if d.Err? then Err(d.error) else CheckedDocument(d.value, lib)
  }

  method DecodeServiceMetadata(data: Bytes, lib: Library) returns (r: Result<Document, Failure>)
    ensures r == DecodedFile(data, lib)
  {
    if |data| > MAX_BYTES { return Err(TooLarge); }
    var tokens := lib.lex(data);
    if tokens == [] { return Err(Empty); }
    var walked := RejectDuplicateJsonFields(tokens, lib.lower);
    if walked.Duplicate? { return Err(DuplicateField); }
    if walked.Invalid? { return Err(InvalidDocument); }
    var value := Json.Document(tokens);
    if value.None? || !CategoriesFit(value.value, data, lib) { return Err(InvalidDocument); }
    return DecodedDocument(value.value);
  }

  /** parseServiceMetadata, with the loop that fills Overrides. */
  method ParseServiceMetadata(data: Bytes, lib: Library) returns (r: Result<Metadata, Failure>)
    ensures r == Parsed(data, lib)
  {
    var decoded := DecodeServiceMetadata(data, lib);
    if decoded.Err? { return Err(decoded.error); }
    r := CheckEntries(decoded.value, lib);
  }

  lemma OverridesAppend(services: seq<Entry>, index: nat, lib: Library)
    requires index < |services| && forall e | e in services[..index] :: ValidEntry(e, lib)
    ensures AcceptableAt(services, index, lib) <==>
              services[index].id !in Overrides(services[..index], lib) && ValidEntry(services[index], lib)
    ensures ValidEntry(services[index], lib) ==>
              && (forall e | e in services[..index + 1] :: ValidEntry(e, lib))
              && Overrides(services[..index + 1], lib)
                  == Overrides(services[..index], lib)[services[index].id := OverrideOf(services[index], lib)]
  {
    hide ValidEntry, OverrideOf;
    assert services[..index + 1][..index] == services[..index];
    assert forall j | 0 <= j < index :: services[..index][j] == services[j];
  }

  method CheckEntries(document: Document, lib: Library) returns (r: Result<Metadata, Failure>)
    ensures r == CheckedDocument(document, lib)
  {
    var services := document.services;
    var overrides: map<int, Override> := map[];
    for index := 0 to |services|
      invariant FirstUnacceptable(services, 0, lib) == FirstUnacceptable(services, index, lib)
      invariant forall e | e in services[..index] :: ValidEntry(e, lib)
      invariant overrides == Overrides(services[..index], lib)
    {
      var entry := services[index];
      OverridesAppend(services, index, lib);
      if entry.id in overrides || !ValidEntry(entry, lib) { return Err(InvalidEntry(index)); }
      overrides := overrides[entry.id := OverrideOf(entry, lib)];
    }
    assert services[..|services|] == services;
    return Ok(Metadata(overrides, document));
  }

  // Sorting by id

  predicate ById(a: Entry, b: Entry) { a.id < b.id }

  predicate AscendingIds(s: seq<Entry>) { forall i, j | 0 <= i < j < |s| :: s[i].id < s[j].id }

  function Insert(e: Entry, s: seq<Entry>): (r: seq<Entry>)
    ensures multiset(r) == multiset(s) + multiset{e}
    ensures |r| == |s| + 1
  {
    if s == [] || e.id < s[0].id then [e] + s
    else
      assert s == [s[0]] + s[1..];
      [s[0]] + Insert(e, s[1..])
  }

  function SortedById(s: seq<Entry>): (r: seq<Entry>)
    ensures multiset(r) == multiset(s)
    ensures |r| == |s|
  {
    if s == [] then []
    else
      assert s == s[..|s| - 1] + [s[|s| - 1]];
      Insert(s[|s| - 1], SortedById(s[..|s| - 1]))
  }

  lemma {:induction false} InsertKeepsSorted(e: Entry, s: seq<Entry>)
    requires SortedBy(s, ById)
    ensures SortedBy(Insert(e, s), ById)
  {
    if s != [] && !(e.id < s[0].id) {
      InsertKeepsSorted(e, s[1..]);
      var r := Insert(e, s[1..]);
      forall x | x in r ensures !(x.id < s[0].id) {
        assert x in multiset(r);
        if x != e { assert x in s[1..]; }
      }
    }
  }

  lemma {:induction false} SortedByIdIsSorted(s: seq<Entry>)
    ensures SortedBy(SortedById(s), ById)
  {
    if s != [] {
      SortedByIdIsSorted(s[..|s| - 1]);
      InsertKeepsSorted(s[|s| - 1], SortedById(s[..|s| - 1]));
    }
  }

  lemma SameMembers(a: seq<Entry>, b: seq<Entry>)
    requires multiset(a) == multiset(b)
    ensures forall e :: e in a <==> e in b
  {
    forall e ensures e in a <==> e in b { assert e in multiset(a) <==> e in multiset(b); }
  }

  /** With distinct ids every sort by id gives the same result. */
  lemma SortIsUnique(s: seq<Entry>, r: seq<Entry>)
    requires DistinctIds(s)
    requires SortedBy(r, ById) && multiset(r) == multiset(s)
    ensures r == SortedById(s)
    ensures AscendingIds(r) && DistinctIds(r)
  {
    SortedByIdIsSorted(s);
    SameMembers(s, r);
    forall x, y | x in s && y in s && x != y ensures x.id != y.id {
      var i :| 0 <= i < |s| && s[i] == x;
      var j :| 0 <= j < |s| && s[j] == y;
    }
    SortedPermutationUnique(r, SortedById(s), ById);
    DistinctIdsAreDistinct(s);
    NoTwins(s, r);
  }

  lemma DistinctIdsAreDistinct(s: seq<Entry>)
    requires DistinctIds(s)
    ensures Distinct(s)
  {
  }

  lemma NoTwins(s: seq<Entry>, r: seq<Entry>)
    requires DistinctIds(s) && SortedBy(r, ById) && multiset(r) == multiset(s)
    ensures AscendingIds(r)
  {
    DistinctMultiset(s);
    SameMembers(s, r);
    forall i, j | 0 <= i < j < |r| ensures r[i].id < r[j].id {
      assert !ById(r[j], r[i]);
      if r[i] == r[j] {
        TwoCopies(r, i, j);
      } else {
        assert r[i] in s && r[j] in s;
        var k :| 0 <= k < |s| && s[k] == r[i];
        var l :| 0 <= l < |s| && s[l] == r[j];
      }
    }
  }

  // Serializing

  function Opt(key: string, v: Option<Value>): seq<Member> {
    if v.Some? then [Member(key, v.value)] else []
  }

  function TextValue(s: Option<string>): Option<Value> {
    if s.Some? then Some(VText(s.value)) else None
  }

  function NullableText(s: Option<string>, isNull: bool): Option<Value> {
    if isNull then Some(VNull) else TextValue(s)
  }

  function IntValue(i: Option<int>): Option<Value> {
    if i.Some? then Some(VNum(Integer(i.value))) else None
  }

  /** The keys json.Marshal may write for an entry, in the ascending order it writes them in. */
  const ENTRY_KEYS := ["category", "icon", "name", "order", "proxy_host_id", "url"]

  function EntryValues(e: Entry): seq<Option<Value>> {
    [TextValue(e.category), TextValue(e.icon), NullableText(e.name, e.nameNull), IntValue(e.order),
     Some(VNum(Integer(e.id))), NullableText(e.url, e.urlNull)]
  }

  function Opts(keys: seq<string>, values: seq<Option<Value>>): seq<Member>
    requires |keys| == |values|
  {
    if keys == [] then [] else Opt(keys[0], values[0]) + Opts(keys[1..], values[1..])
  }

  function EncodedMembers(e: Entry): seq<Member> { Opts(ENTRY_KEYS, EntryValues(e)) }

  function EncodedEntries(services: seq<Entry>): (items: seq<Value>)
    ensures |items| == |services|
    ensures forall i | 0 <= i < |items| :: items[i] == VObject(EncodedMembers(services[i]))
  {
    seq(|services|, i requires 0 <= i < |services| => VObject(EncodedMembers(services[i])))
  }

  function EncodedDocument(services: seq<Entry>): Value {
    VObject([Member("version", VNum(Integer(3))), Member("services", VArray(EncodedEntries(services)))])
  }

  function Serialized(d: Document, lib: Library): Result<Bytes, Failure> {
    var data := lib.encode(EncodedDocument(SortedById(d.services)));
    var r := Parsed(data, lib);
    if r.Err? then Err(r.error) else Ok(data)
  }

  /** serializeServiceMetadataDocumentV3: sort, encode in a loop, and parse the result once more. */
  method SerializeServiceMetadataDocumentV3(document: Document, lib: Library) returns (r: Result<Bytes, Failure>)
    ensures DistinctIds(document.services) ==> r == Serialized(document, lib)
    ensures lib.Lawful() && !DistinctIds(document.services) ==> r.Err?
  {
    hide Parsed, EncodedDocument, EncodedEntries, EncodedMembers, SortedById, DistinctIds;
    var entries := SortSlice(document.services, ById);
    if DistinctIds(document.services) { SortIsUnique(document.services, entries); }
    var services: seq<Value> := [];
    NothingEncoded();
    assert entries[..0] == [];
    for i := 0 to |entries|
      invariant services == EncodedEntries(entries[..i])
    {
      var fields := EncodedMembers(entries[i]);
      EncodedAppend(entries[..i], entries[i]);
      assert entries[..i + 1] == entries[..i] + [entries[i]];
      services := services + [VObject(fields)];
    }
    assert entries[..|entries|] == entries;
    DocumentOf(entries);
    var data := lib.encode(VObject([Member("version", VNum(Integer(3))), Member("services", VArray(services))]));
    var parsed := ParseServiceMetadata(data, lib);
    if lib.Lawful() && parsed.Ok? { ReparsedIsDistinct(document.services, entries, lib); }
    return if parsed.Err? then Err(parsed.error) else Ok(data);
  }

  lemma DocumentOf(services: seq<Entry>)
    ensures EncodedDocument(services)
         == VObject([Member("version", VNum(Integer(3))), Member("services", VArray(EncodedEntries(services)))])
  {
  }

  lemma NothingEncoded()
    ensures EncodedEntries([]) == []
  {
  }

  lemma EncodedAppend(services: seq<Entry>, e: Entry)
    ensures EncodedEntries(services + [e]) == EncodedEntries(services) + [VObject(EncodedMembers(e))]
  {
    hide EncodedMembers;
  }

  /** A repeated id cannot pass the final parse, however the equal entries were sorted. */
  lemma ReparsedIsDistinct(services: seq<Entry>, sorted: seq<Entry>, lib: Library)
    requires lib.Lawful() && multiset(sorted) == multiset(services)
    requires Parsed(lib.encode(EncodedDocument(sorted)), lib).Ok?
    ensures DistinctIds(services)
  {
    hide Parsed, DistinctIds;
    var read := ReparsedServices(sorted, lib);
    assert DistinctIds(sorted) by { SameIdsDistinct(read, sorted); }
    DistinctIdsPermuted(sorted, services);
  }

  lemma SameIdsDistinct(a: seq<Entry>, b: seq<Entry>)
    requires DistinctIds(a) && |a| == |b| && forall i | 0 <= i < |a| :: a[i].id == b[i].id
    ensures DistinctIds(b)
  {
  }

  lemma ReparsedServices(services: seq<Entry>, lib: Library) returns (read: seq<Entry>)
    requires lib.Lawful() && Parsed(lib.encode(EncodedDocument(services)), lib).Ok?
    ensures DistinctIds(read) && |read| == |services| && forall i | 0 <= i < |services| :: read[i].id == services[i].id
  {
    var v := EncodedDocument(services);
    ParsedIsWellFormed(lib.encode(v), lib);
    read := Parsed(lib.encode(v), lib).value.document.services;
    EncodedIsDuplicateFree(services, lib.lower);
    EncodedIsPrintable(services);
    TokensDecode(v, lib);
    IdsReadBack(services);
    ReadServices(services);
  }

  lemma ReadServices(services: seq<Entry>)
    ensures var r := DecodedDocument(EncodedDocument(services));
            r.Ok? ==> DecodedEntries(3, EncodedEntries(services)) == Some(r.value.services)
  {
    hide EncodedEntries, DecodedEntries;
    TopLevelFields(VNum(Integer(3)), VArray(EncodedEntries(services)));
  }

  lemma {:induction false} IdsReadBack(services: seq<Entry>)
    ensures var r := DecodedEntries(3, EncodedEntries(services));
            r.Some? ==> |r.value| == |services| && forall i | 0 <= i < |services| :: r.value[i].id == services[i].id
  {
    if services != [] {
      IdReadsBack(services[0]);
      IdsReadBack(services[1..]);
      assert EncodedEntries(services)[1..] == EncodedEntries(services[1..]);
    }
  }

  lemma IdReadsBack(e: Entry)
    ensures var r := DecodedEntry(3, VObject(EncodedMembers(e)));
            r.Some? ==> r.value.id == e.id
  {
    EncodedLookups(e);
    IdField(Fields(EncodedMembers(e)), e.id);
  }

  lemma IdField(f: map<string, Value>, id: int)
    requires Has(f, "proxy_host_id", Some(VNum(Integer(id))))
    ensures DecodedFields(3, f).Some? ==> DecodedFields(3, f).value.id == id
  {
  }

  lemma DistinctIdsPermuted(a: seq<Entry>, b: seq<Entry>)
    requires DistinctIds(a) && multiset(b) == multiset(a)
    ensures DistinctIds(b)
  {
    forall i, j | 0 <= i < j < |b| ensures b[i].id != b[j].id {
      assert b[i] in multiset(a) && b[j] in multiset(a);
      var k :| 0 <= k < |a| && a[k] == b[i];
      if b[i].id == b[j].id {
        var m :| 0 <= m < |a| && a[m] == b[j];
        assert k == m;
        TwoCopies(b, i, j);
        assert Distinct(a);
        DistinctMultiset(a);
      }
    }
  }

  // Round trip

  /** What every accepted document satisfies. */
  ghost predicate WellFormedEntry(e: Entry, lib: Library) {
    && ValidEntry(e, lib)
    && e.id <= MAX_INT
    && (e.nameNull ==> e.name.None?)
    && (e.urlNull ==> e.url.None?)
  }

  ghost predicate WellFormed(d: Document, lib: Library) {
    (forall e | e in d.services :: WellFormedEntry(e, lib)) && DistinctIds(d.services)
  }

  lemma {:induction false} DecodedEntriesAreBounded(version: int, items: seq<Value>)
    requires DecodedEntries(version, items).Some?
    ensures forall e | e in DecodedEntries(version, items).value ::
              e.id <= MAX_INT && (e.nameNull ==> e.name.None?) && (e.urlNull ==> e.url.None?)
  {
    if items != [] { DecodedEntriesAreBounded(version, items[1..]); }
  }

  lemma ParsedIsWellFormed(data: Bytes, lib: Library)
    requires Parsed(data, lib).Ok?
    ensures WellFormed(Parsed(data, lib).value.document, lib)
    ensures 1 <= Parsed(data, lib).value.document.version <= 3
    ensures |Parsed(data, lib).value.document.services| <= 1024 && |data| <= 262_144
  {
    DecodedIsBounded(data, lib);
    AllAcceptable(DecodedFile(data, lib).value.services, lib);
  }

  lemma DecodedIsBounded(data: Bytes, lib: Library)
    requires DecodedFile(data, lib).Ok?
    ensures var d := DecodedFile(data, lib).value;
            && 1 <= d.version <= 3 && |d.services| <= MAX_ENTRIES && |data| <= MAX_BYTES
            && forall e | e in d.services ::
                 e.id <= MAX_INT && (e.nameNull ==> e.name.None?) && (e.urlNull ==> e.url.None?)
  {
    DocumentIsBounded(Json.Document(lib.lex(data)).value);
  }

  lemma DocumentIsBounded(v: Value)
    requires DecodedDocument(v).Ok?
    ensures var d := DecodedDocument(v).value;
            && 1 <= d.version <= 3 && |d.services| <= MAX_ENTRIES
            && forall e | e in d.services ::
                 e.id <= MAX_INT && (e.nameNull ==> e.name.None?) && (e.urlNull ==> e.url.None?)
  {
    DecodedEntriesAreBounded(DecodedDocument(v).value.version, Fields(v.members)["services"].items);
  }

  lemma KeysDiffer()
    ensures Distinct(ENTRY_KEYS)
    ensures forall k | k in ENTRY_KEYS :: LowerAscii(k) && k in Allowed(3)
    ensures LowerAscii("version") && LowerAscii("services") && "version" != "services"
  {
    assert "icon"[0] != "name"[0];
  }

  predicate Has(f: map<string, Value>, key: string, v: Option<Value>) {
    (key in f <==> v.Some?) && (v.Some? ==> f[key] == v.value)
  }

  lemma {:induction false} FieldsOfOpts(keys: seq<string>, values: seq<Option<Value>>)
    requires |keys| == |values| && Distinct(keys)
    ensures forall i | 0 <= i < |keys| :: Has(Fields(Opts(keys, values)), keys[i], values[i])
    ensures forall k | k in Fields(Opts(keys, values)) :: k in keys
  {
    if keys != [] {
      var key, v, rest := keys[0], values[0], Opts(keys[1..], values[1..]);
      FieldsOfOpts(keys[1..], values[1..]);
      FirstOpt(key, v, rest);
      var f, g := Fields(Opts(keys, values)), Fields(rest);
      assert key !in g by { assert forall i | 0 <= i < |keys[1..]| :: keys[1..][i] != key; }
      forall i | 0 <= i < |keys| ensures Has(f, keys[i], values[i]) {
        if i > 0 { assert keys[1..][i - 1] == keys[i] && Has(g, keys[i], values[i]); }
      }
    }
  }

  lemma FirstOpt(key: string, v: Option<Value>, rest: seq<Member>)
    ensures Fields(Opt(key, v) + rest) == (if v.Some? then map[key := v.value] else map[]) + Fields(rest)
  {
    if v.Some? {
      assert (Opt(key, v) + rest)[1..] == rest;
    } else {
      assert Opt(key, v) + rest == rest;
    }
  }

  lemma EncodedLookups(e: Entry)
    ensures var f := Fields(EncodedMembers(e));
            && f.Keys <= Allowed(3)
            && Has(f, "category", TextValue(e.category))
            && Has(f, "icon", TextValue(e.icon))
            && Has(f, "name", NullableText(e.name, e.nameNull))
            && Has(f, "order", IntValue(e.order))
            && Has(f, "proxy_host_id", Some(VNum(Integer(e.id))))
            && Has(f, "url", NullableText(e.url, e.urlNull))
  {
    KeysDiffer();
    FieldsOfOpts(ENTRY_KEYS, EntryValues(e));
    var f := Fields(EncodedMembers(e));
    assert Has(f, ENTRY_KEYS[0], EntryValues(e)[0]) && Has(f, ENTRY_KEYS[1], EntryValues(e)[1]);
    assert Has(f, ENTRY_KEYS[2], EntryValues(e)[2]) && Has(f, ENTRY_KEYS[3], EntryValues(e)[3]);
    assert Has(f, ENTRY_KEYS[4], EntryValues(e)[4]) && Has(f, ENTRY_KEYS[5], EntryValues(e)[5]);
  }

  lemma EntryReadsBack(e: Entry, lib: Library)
    requires WellFormedEntry(e, lib)
    ensures DecodedEntry(3, VObject(EncodedMembers(e))) == Some(e)
  {
    EncodedLookups(e);
    FieldsReadBack(e, Fields(EncodedMembers(e)));
  }

  lemma FieldsReadBack(e: Entry, f: map<string, Value>)
    requires 0 <= e.id <= MAX_INT && (e.order.Some? ==> 0 <= e.order.value <= MAX_ORDER)
    requires (e.nameNull ==> e.name.None?) && (e.urlNull ==> e.url.None?)
    requires f.Keys <= Allowed(3)
    requires Has(f, "category", TextValue(e.category)) && Has(f, "icon", TextValue(e.icon))
    requires Has(f, "name", NullableText(e.name, e.nameNull)) && Has(f, "url", NullableText(e.url, e.urlNull))
    requires Has(f, "order", IntValue(e.order)) && Has(f, "proxy_host_id", Some(VNum(Integer(e.id))))
    ensures DecodedFields(3, f) == Some(e)
  {
  }

  // Versions

  /** The version that introduced a field, or 0 for one that no version knows. */
  function Since(field: string): nat {
    if field in {"proxy_host_id", "name", "url"} then 1
    else if field in {"category", "order"} then 2
    else if field == "icon" then 3
    else 0
  }

  /** An entry may only use fields its version knows, and null only where version 1 had it. */
  lemma FieldsOfVersion(version: int, f: map<string, Value>)
    requires 1 <= version <= 3 && DecodedFields(version, f).Some?
    ensures forall k | k in f :: 1 <= Since(k) <= version && (Since(k) > 1 ==> f[k] != VNull)
  {
  }

  predicate FitsVersion(e: Entry, version: int) {
    (e.category.Some? || e.order.Some? ==> version >= 2) && (e.icon.Some? ==> version >= 3)
  }

  lemma FieldsFit(e: Entry, version: int)
    requires FitsVersion(e, version) && 1 <= version <= 3
    ensures Fields(EncodedMembers(e)).Keys <= Allowed(version)
  {
    EncodedLookups(e);
    var f := Fields(EncodedMembers(e));
    hide EncodedMembers, Fields;
    forall k | k in f ensures k in Allowed(version) { assert k in Allowed(3); }
  }

  /** What is written with the fields of a version reads the same in it, explicit nulls included. */
  lemma EntryReadsIn(version: int, e: Entry, lib: Library)
    requires 1 <= version <= 3 && WellFormedEntry(e, lib) && FitsVersion(e, version)
    ensures DecodedEntry(version, VObject(EncodedMembers(e))) == Some(e)
  {
    EncodedLookups(e);
    FieldsFit(e, version);
    FieldsReadIn(version, e, Fields(EncodedMembers(e)));
  }

  lemma FieldsReadIn(version: int, e: Entry, f: map<string, Value>)
    requires 1 <= version <= 3 && f.Keys <= Allowed(version)
    requires 0 <= e.id <= MAX_INT && (e.order.Some? ==> 0 <= e.order.value <= MAX_ORDER)
    requires (e.nameNull ==> e.name.None?) && (e.urlNull ==> e.url.None?)
    requires Has(f, "category", TextValue(e.category)) && Has(f, "icon", TextValue(e.icon))
    requires Has(f, "name", NullableText(e.name, e.nameNull)) && Has(f, "url", NullableText(e.url, e.urlNull))
    requires Has(f, "order", IntValue(e.order)) && Has(f, "proxy_host_id", Some(VNum(Integer(e.id))))
    ensures DecodedFields(version, f) == Some(e)
  {
  }

  lemma {:induction false} EntriesReadIn(version: int, services: seq<Entry>, lib: Library)
    requires 1 <= version <= 3 && forall e | e in services :: WellFormedEntry(e, lib) && FitsVersion(e, version)
    ensures DecodedEntries(version, EncodedEntries(services)) == Some(services)
  {
    if services != [] {
      EntryReadsIn(version, services[0], lib);
      EntriesReadIn(version, services[1..], lib);
      hide DecodedEntry, EncodedMembers, WellFormedEntry;
      assert EncodedEntries(services)[0] == VObject(EncodedMembers(services[0]));
      assert EncodedEntries(services)[1..] == EncodedEntries(services[1..]);
      assert [services[0]] + services[1..] == services;
    }
  }

  /** A document of any version, as it may be written by hand. */
  function Written(version: int, services: seq<Entry>): Value {
    VObject([Member("version", VNum(Integer(version))), Member("services", VArray(EncodedEntries(services)))])
  }

  /** All three versions are read, and no other. */
  lemma VersionsRead(version: int, services: seq<Entry>, lib: Library)
    requires -MAX_INT <= version <= MAX_INT && |services| <= MAX_ENTRIES
    requires forall e | e in services :: WellFormedEntry(e, lib)
    ensures 1 <= version <= 3 && (forall e | e in services :: FitsVersion(e, version)) ==>
              DecodedDocument(Written(version, services)) == Ok(Document(version, services))
    ensures !(1 <= version <= 3) ==> DecodedDocument(Written(version, services)).Err?
    ensures !(1 <= version <= 3) && services == [] ==>
              DecodedDocument(Written(version, services)) == Err(UnknownVersion)
  {
    TopLevelFields(VNum(Integer(version)), VArray(EncodedEntries(services)));
    hide EncodedEntries, WellFormedEntry, FitsVersion, EncodedMembers, Fields, DecodedEntry;
    if 1 <= version <= 3 && forall e | e in services :: FitsVersion(e, version) {
      EntriesReadIn(version, services, lib);
    }
  }

  /** In versions 2 and 3 the raw bytes of a category must be UTF-8. */
  lemma CategoriesAreClean(data: Bytes, lib: Library)
    requires Parsed(data, lib).Ok? && Parsed(data, lib).value.document.version >= 2
    ensures lib.cleanCategories(data)
  {
  }

  /** What the fields of an accepted document can hold. */
  lemma AcceptedFields(data: Bytes, lib: Library, e: Entry)
    requires Parsed(data, lib).Ok? && e in Parsed(data, lib).value.document.services
    ensures e.id >= 1 && (e.name.Some? || e.url.Some? || e.category.Some? || e.order.Some? || e.icon.Some?)
    ensures e.name.Some? ==> IsLineOf(e.name.value, 120)
    ensures e.category.Some? ==> IsLineOf(e.category.value, 64)
    ensures e.url.Some? ==>
              lib.parsedUrl(e.url.value).Some? && TrimSpace(e.url.value) == e.url.value
                && Utf8Length(e.url.value) <= 2048
    ensures e.order.Some? ==> 0 <= e.order.value <= 1_000_000
  {
    hide Canonical, IsLineOf, ValidIcon;
    ParsedIsWellFormed(data, lib);
    hide Parsed, TrimSpace;
    assert ValidEntry(e, lib);
    if e.name.Some? { LineIsCanonical(e.name.value, 120); }
    if e.category.Some? { LineIsCanonical(e.category.value, 64); }
    if e.url.Some? { CanonicalIsTrimmed(e.url.value); }
  }

  /** The catalogue of icons has 13 entries. */
  lemma IconsAre(s: string)
    ensures ValidIcon(s)
       <==> || s in ["generic", "adguard-home", "gitea", "grafana", "home-assistant", "immich", "jellyfin"]
            || s in ["nextcloud", "nginx-proxy-manager", "paperless-ngx", "portainer", "qbittorrent", "uptime-kuma"]
  {
  }

  /** A text of one line without blanks around it, and of some length. */
  predicate IsLineOf(s: string, length: nat) {
    1 <= |s| <= length && TrimSpace(s) == s && forall c | c in s :: !ControlRune(c as int)
  }

  lemma CanonicalIsTrimmed(s: string)
    requires Canonical(s)
    ensures TrimSpace(s) == s
  {
    TrimsNothing(s);
  }

  lemma LineIsCanonical(s: string, length: nat)
    requires |s| <= length
    ensures Canonical(s) ==> IsLineOf(s, length)
  {
    if Canonical(s) { TrimsNothing(s); }
  }

  lemma {:induction false} EntriesReadBack(services: seq<Entry>, lib: Library)
    requires forall e | e in services :: WellFormedEntry(e, lib)
    ensures DecodedEntries(3, EncodedEntries(services)) == Some(services)
  {
    if services != [] {
      hide DecodedEntry, EncodedMembers, WellFormedEntry;
      EntryReadsBack(services[0], lib);
      EntriesReadBack(services[1..], lib);
      assert EncodedEntries(services)[0] == VObject(EncodedMembers(services[0]));
      assert EncodedEntries(services)[1..] == EncodedEntries(services[1..]);
      assert [services[0]] + services[1..] == services;
    }
  }

  lemma EncodedIsDuplicateFree(services: seq<Entry>, lower: char -> char)
    ensures NoDuplicates(EncodedDocument(services), lower)
  {
    KeysDiffer();
    LowerKeepsAscii("version", lower);
    LowerKeepsAscii("services", lower);
    var items := EncodedEntries(services);
    forall x | x in items ensures NoDuplicates(x, lower) {
      var i :| 0 <= i < |items| && items[i] == x;
      EncodedMembersAreDistinct(services[i], lower);
    }
    assert NoDuplicates(VArray(items), lower);
  }

  lemma {:induction false} OptsArePrintable(keys: seq<string>, values: seq<Option<Value>>)
    requires |keys| == |values| && forall v | v in values && v.Some? :: Printable(v.value)
    ensures Printable(VObject(Opts(keys, values)))
  {
    if keys != [] {
      OptsArePrintable(keys[1..], values[1..]);
      assert Printable(VObject(Opts(keys[1..], values[1..])));
    }
  }

  lemma EncodedIsPrintable(services: seq<Entry>)
    ensures Printable(EncodedDocument(services))
  {
    var items := EncodedEntries(services);
    forall x | x in items ensures Printable(x) {
      var i :| 0 <= i < |items| && items[i] == x;
      OptsArePrintable(ENTRY_KEYS, EntryValues(services[i]));
    }
    assert Printable(VArray(items));
  }

  lemma {:induction false} OptsAreFresh(keys: seq<string>, values: seq<Option<Value>>, lower: char -> char)
    requires |keys| == |values| && Distinct(keys) && forall k | k in keys :: LowerAscii(k)
    requires forall v | v in values && v.Some? :: NoDuplicates(v.value, lower)
    ensures FreshMembers(Opts(keys, values), {}, lower)
    ensures forall m | m in Opts(keys, values) :: m.key in keys && ToLower(m.key, lower) == m.key
  {
    if keys != [] {
      OptsAreFresh(keys[1..], values[1..], lower);
      LowerKeepsAscii(keys[0], lower);
      var rest := Opts(keys[1..], values[1..]);
      assert forall i | 0 <= i < |rest| :: rest[i] in rest && rest[i].key in keys[1..];
      assert forall k | k in keys[1..] :: k != keys[0];
    }
  }

  lemma EncodedMembersAreDistinct(e: Entry, lower: char -> char)
    ensures NoDuplicates(VObject(EncodedMembers(e)), lower)
  {
    KeysDiffer();
    OptsAreFresh(ENTRY_KEYS, EntryValues(e), lower);
  }

  /**
   * Printing a well-formed document and parsing it gives exactly the id-sorted v3 document back,
   * and can only fail on the size of the text or on the number of entries.
   */
  lemma PrintedReadsBack(d: Document, lib: Library)
    requires lib.Lawful() && WellFormed(d, lib)
    ensures var services := SortedById(d.services);
            var data := lib.encode(EncodedDocument(services));
            DecodedFile(data, lib) ==
            if |data| > MAX_BYTES then Err(TooLarge)
            else if |services| > MAX_ENTRIES then Err(TooManyServices)
            else Ok(Document(3, services))
    ensures CheckedDocument(Document(3, SortedById(d.services)), lib).Ok?
  {
    var services := SortedById(d.services);
    SortedIsWellFormed(d, lib);
    var v := EncodedDocument(services);
    EncodedIsDuplicateFree(services, lib.lower);
    EncodedIsPrintable(services);
    EntriesReadBack(services, lib);
    DocumentDecodes(services);
    AllAcceptable(services, lib);
    TokensDecode(v, lib);
  }

  lemma SortedIsWellFormed(d: Document, lib: Library)
    requires WellFormed(d, lib)
    ensures WellFormed(Document(3, SortedById(d.services)), lib)
    ensures AscendingIds(SortedById(d.services))
  {
    SortedByIdIsSorted(d.services);
    SortIsUnique(d.services, SortedById(d.services));
    SameMembers(d.services, SortedById(d.services));
  }

  lemma TokensDecode(v: Value, lib: Library)
    requires lib.Lawful()
    requires NoDuplicates(v, lib.lower) && Printable(v)
    ensures DecodedFile(lib.encode(v), lib) ==
            if |lib.encode(v)| > MAX_BYTES then Err(TooLarge) else DecodedDocument(v)
  {
    var ts := Flatten(v);
    assert lib.lex(lib.encode(v)) == ts && lib.cleanCategories(lib.encode(v));
    RejectionIsExact(v, [], lib.lower);
    ReadFlatten(v, []);
    assert ts + [] == ts;
  }

  lemma DocumentDecodes(services: seq<Entry>)
    requires DecodedEntries(3, EncodedEntries(services)) == Some(services)
    ensures DecodedDocument(EncodedDocument(services)) ==
            if |services| > MAX_ENTRIES then Err(TooManyServices) else Ok(Document(3, services))
  {
    TopLevelFields(VNum(Integer(3)), VArray(EncodedEntries(services)));
  }

  lemma TopLevelFields(version: Value, services: Value)
    ensures Fields([Member("version", version), Member("services", services)])
        == map["version" := version, "services" := services]
  {
    KeysDiffer();
    var a, b := Member("version", version), Member("services", services);
    assert [a, b][1..] == [b] && [b][1..] == [];
    assert Fields([b]) == map["services" := services];
  }

  /** Serializing succeeds exactly within the two bounds, and then loses nothing. */
  lemma SerializedReadsBack(d: Document, lib: Library)
    requires lib.Lawful() && WellFormed(d, lib)
    ensures Serialized(d, lib).Ok? <==>
              |d.services| <= 1024 && |lib.encode(EncodedDocument(SortedById(d.services)))| <= 262_144
    ensures Serialized(d, lib).Ok? ==>
              && Parsed(Serialized(d, lib).value, lib).Ok?
              && Parsed(Serialized(d, lib).value, lib).value.document == Document(3, SortedById(d.services))
    ensures Serialized(d, lib).Err? ==> Serialized(d, lib).error in {TooLarge, TooManyServices}
  {
    PrintedReadsBack(d, lib);
  }
}
