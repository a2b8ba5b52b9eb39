/** mutateServiceMetadata: one save or reset of one entry, and its algebra. */
module MetadataEdit {
  import opened Common
  import opened Ordering
  import opened ServiceMetadata

  /** The editable fields of a request; an empty string removes a field, and a reset ignores all three. */
  datatype Edit = Edit(name: string, url: string, icon: string, reset: bool)

  predicate Accepted(edit: Edit, lib: Library) {
    !edit.reset ==>
      && (edit.name != "" ==> ValidName(edit.name))
      && (edit.url != "" ==> ValidUrl(edit.url, lib))
      && (edit.icon != "" ==> ValidIcon(edit.icon))
  }

  const RESET := Edit("", "", "", true)

  function NoEntry(id: int): Entry { Entry(id, None, None, None, None, None, false, false) }

  function Selected(services: seq<Entry>, id: int): (e: Entry)
    ensures e.id == id
    ensures e in services || (e == NoEntry(id) && forall x | x in services :: x.id != id)
  {
    if services == [] then NoEntry(id)
    else if services[|services| - 1].id == id then services[|services| - 1]
    else Selected(services[..|services| - 1], id)
  }

  function Others(services: seq<Entry>, id: int): (r: seq<Entry>)
    ensures forall e :: e in r <==> e in services && e.id != id
  {
    if services == [] then []
    else
      var n := |services| - 1;
      assert services == services[..n] + [services[n]];
      Others(services[..n], id) + (if services[n].id == id then [] else [services[n]])
  }

  function Field(text: string, reset: bool): Option<string> {
    if reset || text == "" then None else Some(text)
  }

  /** The selected entry after the edit: category and order are kept, everything else is replaced. */
  function Edited(e: Entry, edit: Edit): Entry {
    e.(name := Field(edit.name, edit.reset), url := Field(edit.url, edit.reset), icon := Field(edit.icon, edit.reset),
       nameNull := false, urlNull := false)
  }

  function Mutated(d: Document, id: int, edit: Edit, lib: Library): Option<Document> {
    if !Accepted(edit, lib) then None
    else
      var e := Edited(Selected(d.services, id), edit);
      Some(Document(3, SortedById(Others(d.services, id) + (if Blank(e) then [] else [e]))))
  }

  /** Its loop: the entry to edit, or an empty one, and the others. */
  method TakeOut(services: seq<Entry>, id: int) returns (updated: seq<Entry>, selected: Entry)
    ensures updated == Others(services, id) && selected == Selected(services, id)
    ensures selected.id == id
  {
    updated, selected := [], NoEntry(id);
    for i := 0 to |services|
      invariant updated == Others(services[..i], id)
      invariant selected == Selected(services[..i], id) && selected.id == id
    {
      assert services[..i + 1][..i] == services[..i];
      if services[i].id == id {
        selected := services[i];
      } else {
        updated := updated + [services[i]];
      }
    }
    assert services[..|services|] == services;
  }

  method MutateServiceMetadata(document: Document, id: int, name: string, link: string, icon: string, reset: bool,
                               lib: Library)
      returns (r: Option<Document>)
    requires DistinctIds(document.services)
    ensures r == Mutated(document, id, Edit(name, link, icon, reset), lib)
  {
    hide ValidName, ValidUrl, ValidIcon, DistinctIds, SortedById, Others, Selected;
    if !reset {
      if name != "" && !ValidName(name) { return None; }
      if link != "" && !ValidUrl(link, lib) { return None; }
      if icon != "" && !ValidIcon(icon) { return None; }
    }
    var updated, selected := TakeOut(document.services, id);
    selected := selected.(name := None, url := None, icon := None);
    selected := selected.(nameNull := false, urlNull := false);
    if !reset {
      if name != "" { selected := selected.(name := Some(name)); }
      if link != "" { selected := selected.(url := Some(link)); }
      if icon != "" { selected := selected.(icon := Some(icon)); }
    }
    if selected.name.Some? || selected.url.Some? || selected.icon.Some? || selected.category.Some?
        || selected.order.Some? {
      updated := updated + [selected];
    }
    OthersAreDistinct(document.services, id);
    var sorted := SortSlice(updated, ById);
    SortIsUnique(updated, sorted);
    assert updated == Others(document.services, id) + (if Blank(selected) then [] else [selected]);
    return Some(Document(3, sorted));
  }

  lemma {:induction false} OthersAreDistinct(services: seq<Entry>, id: int)
    requires DistinctIds(services)
    ensures DistinctIds(Others(services, id))
    ensures forall e: Entry | e.id == id :: DistinctIds(Others(services, id) + [e])
  {
    if services != [] {
      var n := |services| - 1;
      OthersAreDistinct(services[..n], id);
      var r := Others(services[..n], id);
      assert forall i | 0 <= i < |r| :: r[i] in r;
    }
    var r := Others(services, id);
    assert forall i | 0 <= i < |r| :: r[i] in r;
  }

  /** Exactly which entries the result holds, in strictly ascending order and none of them empty. */
  lemma MutatedMembers(d: Document, id: int, edit: Edit, lib: Library)
    requires DistinctIds(d.services) && Accepted(edit, lib)
    ensures var r := Mutated(d, id, edit, lib).value;
            var edited := Edited(Selected(d.services, id), edit);
            && r.version == 3
            && AscendingIds(r.services)
            && (forall e :: e in r.services <==> (e in d.services && e.id != id) || (e == edited && !Blank(edited)))
  {
    var e := Edited(Selected(d.services, id), edit);
    var s := Others(d.services, id) + (if Blank(e) then [] else [e]);
    OthersAreDistinct(d.services, id);
    SortedByIdIsSorted(s);
    SortIsUnique(s, SortedById(s));
    SameMembers(s, SortedById(s));
  }

  /** A document sorted by id is determined by its entries. */
  lemma {:induction false} SortedEntriesUnique(a: seq<Entry>, b: seq<Entry>)
    requires AscendingIds(a) && AscendingIds(b)
    requires forall e :: e in a <==> e in b
    ensures a == b
  {
    if a == [] {
      HasMember(b);
    } else {
      assert a[0] in b && b[0] in a;
      var i :| 0 <= i < |b| && b[i] == a[0];
      var j :| 0 <= j < |a| && a[j] == b[0];
      assert a[0] == b[0];
      forall e ensures e in a[1..] <==> e in b[1..] {
        TailMembers(a, e);
        TailMembers(b, e);
      }
      SortedEntriesUnique(a[1..], b[1..]);
    }
  }

  lemma TailMembers(a: seq<Entry>, e: Entry)
    requires a != [] && AscendingIds(a)
    ensures e in a[1..] <==> e in a && e != a[0]
  {
  }

  lemma SelectedIsUnique(services: seq<Entry>, e: Entry)
    requires DistinctIds(services) && e in services
    ensures Selected(services, e.id) == e
  {
    var i :| 0 <= i < |services| && services[i] == e;
    var s := Selected(services, e.id);
    assert s in services;
    var j :| 0 <= j < |services| && services[j] == s;
  }

  lemma SelectedAfterEdit(d: Document, id: int, edit: Edit, lib: Library)
    requires DistinctIds(d.services) && Accepted(edit, lib)
    ensures var r := Mutated(d, id, edit, lib).value;
            var edited := Edited(Selected(d.services, id), edit);
            Selected(r.services, id) == if Blank(edited) then NoEntry(id) else edited
  {
    MutatedMembers(d, id, edit, lib);
    var r := Mutated(d, id, edit, lib).value;
    var edited := Edited(Selected(d.services, id), edit);
    if !Blank(edited) { SelectedIsUnique(r.services, edited); }
  }

  /** Other entries, and the target's category and order, survive; version, order and shape are canonical. */
  lemma EditIsLocal(d: Document, id: int, edit: Edit, lib: Library)
    requires DistinctIds(d.services) && Accepted(edit, lib)
    ensures var r := Mutated(d, id, edit, lib).value;
            && (forall e: Entry | e.id != id :: e in d.services <==> e in r.services)
            && Selected(r.services, id).category == Selected(d.services, id).category
            && Selected(r.services, id).order == Selected(d.services, id).order
            && Selected(r.services, id).name == Field(edit.name, edit.reset)
            && Selected(r.services, id).url == Field(edit.url, edit.reset)
            && Selected(r.services, id).icon == Field(edit.icon, edit.reset)
            && AscendingIds(r.services)
            && ((forall e | e in d.services :: !Blank(e)) ==> forall e | e in r.services :: !Blank(e))
  {
    MutatedMembers(d, id, edit, lib);
    SelectedAfterEdit(d, id, edit, lib);
  }

  /** The later of two edits of one entry wins; with equal edits this is idempotence. */
  lemma LastEditWins(d: Document, id: int, first: Edit, second: Edit, lib: Library)
    requires DistinctIds(d.services) && Accepted(first, lib) && Accepted(second, lib)
    ensures Mutated(Mutated(d, id, first, lib).value, id, second, lib) == Mutated(d, id, second, lib)
  {
    var a := Mutated(d, id, first, lib).value;
    MutatedMembers(d, id, first, lib);
    SelectedAfterEdit(d, id, first, lib);
    MutatedMembers(a, id, second, lib);
    MutatedMembers(d, id, second, lib);
    SortedEntriesUnique(Mutated(a, id, second, lib).value.services, Mutated(d, id, second, lib).value.services);
  }

  /** Saving anything and then resetting is the same as resetting. */
  lemma SaveThenReset(d: Document, id: int, edit: Edit, lib: Library)
    requires DistinctIds(d.services) && Accepted(edit, lib)
    ensures Mutated(Mutated(d, id, edit, lib).value, id, RESET, lib) == Mutated(d, id, RESET, lib)
  {
    LastEditWins(d, id, edit, RESET, lib);
  }

  /** Edits of different entries commute. */
  lemma EditsCommute(d: Document, a: int, editA: Edit, b: int, editB: Edit, lib: Library)
    requires a != b
    requires DistinctIds(d.services) && Accepted(editA, lib) && Accepted(editB, lib)
    ensures Mutated(Mutated(d, a, editA, lib).value, b, editB, lib)
         == Mutated(Mutated(d, b, editB, lib).value, a, editA, lib)
  {
    hide Mutated, TwiceEdited;
    var r := TwiceMembers(d, a, editA, b, editB, lib);
    var t := TwiceMembers(d, b, editB, a, editA, lib);
    SameTwice(r.services, t.services, d.services, Edited(Selected(d.services, a), editA),
              Edited(Selected(d.services, b), editB));
  }

  /** The entries after editing two of them, whichever first. */
  ghost predicate TwiceEdited(r: seq<Entry>, services: seq<Entry>, x: Entry, y: Entry) {
    && AscendingIds(r)
    && forall e ::
         e in r <==> (e in services && e.id != x.id && e.id != y.id) || (e == x && !Blank(x)) || (e == y && !Blank(y))
  }

  lemma SameTwice(r: seq<Entry>, t: seq<Entry>, services: seq<Entry>, x: Entry, y: Entry)
    requires TwiceEdited(r, services, x, y) && TwiceEdited(t, services, y, x)
    ensures r == t
  {
    hide Blank, AscendingIds;
    SortedEntriesUnique(r, t);
  }

  lemma TwiceMembers(d: Document, a: int, editA: Edit, b: int, editB: Edit, lib: Library) returns (r: Document)
    requires a != b
    requires DistinctIds(d.services) && Accepted(editA, lib) && Accepted(editB, lib)
    ensures Mutated(d, a, editA, lib).Some? && Mutated(Mutated(d, a, editA, lib).value, b, editB, lib) == Some(r)
    ensures r.version == 3
    ensures TwiceEdited(r.services, d.services, Edited(Selected(d.services, a), editA),
                        Edited(Selected(d.services, b), editB))
  {
    hide Others, SortedById, Blank;
    var da := Mutated(d, a, editA, lib).value;
    MutatedMembers(d, a, editA, lib);
    SelectedUntouched(d, a, editA, b, lib);
    SelectedHasId(d.services, a);
    SelectedHasId(d.services, b);
    MutatedMembers(da, b, editB, lib);
    r := Mutated(da, b, editB, lib).value;
  }

  lemma SelectedHasId(services: seq<Entry>, id: int)
    ensures Selected(services, id).id == id
  {
  }

  lemma SelectedUntouched(d: Document, id: int, edit: Edit, other: int, lib: Library)
    requires other != id && DistinctIds(d.services) && Accepted(edit, lib)
    ensures Selected(Mutated(d, id, edit, lib).value.services, other) == Selected(d.services, other)
  {
    MutatedMembers(d, id, edit, lib);
    var r := Mutated(d, id, edit, lib).value.services;
    var e := Selected(d.services, other);
    if e in d.services {
      SelectedIsUnique(r, e);
    } else {
      assert forall x | x in r :: x.id != other;
    }
  }

  lemma MutatedIsWellFormed(d: Document, id: int, edit: Edit, lib: Library)
    requires WellFormed(d, lib) && Accepted(edit, lib) && 0 < id <= MAX_INT
    ensures WellFormed(Mutated(d, id, edit, lib).value, lib)
  {
    hide ValidName, ValidUrl, ValidIcon, ValidCategory, SortedById, Others;
    MutatedMembers(d, id, edit, lib);
  }

  /**
   * Any accepted v1, v2 or v3 file and any accepted edit: the save fails only on the entry or the
   * size bound, and otherwise the written file reads back as exactly the edited, id-sorted v3
   * document, with explicit nulls of untouched entries intact.
   */
  lemma UpgradeAndEdit(data: Bytes, id: int, edit: Edit, lib: Library)
    requires lib.Lawful() && Parsed(data, lib).Ok? && Accepted(edit, lib) && 0 < id <= MAX_INT
    ensures var d := Parsed(data, lib).value.document;
            var r := Mutated(d, id, edit, lib).value;
            var text := Serialized(r, lib);
            && (text.Ok? <==> |r.services| <= MAX_ENTRIES && |lib.encode(EncodedDocument(r.services))| <= MAX_BYTES)
            && (text.Err? ==> text.error in {TooLarge, TooManyServices})
            && (text.Ok? ==> Parsed(text.value, lib).Ok? && Parsed(text.value, lib).value.document == r)
            && (forall e | e in d.services && e.id != id :: e in r.services)
  {
    var d := Parsed(data, lib).value.document;
    var r := Mutated(d, id, edit, lib).value;
    ParsedIsWellFormed(data, lib);
    MutatedIsWellFormed(d, id, edit, lib);
    MutatedMembers(d, id, edit, lib);
    SerializedReadsBack(r, lib);
    SortedStaysSorted(r.services);
  }

  lemma SortedStaysSorted(services: seq<Entry>)
    requires AscendingIds(services)
    ensures SortedById(services) == services
  {
    assert SortedBy(services, ById);
    SortIsUnique(services, services);
  }
}
