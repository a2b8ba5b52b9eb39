/** JSON documents as the token stream Go's json.Decoder delivers, and the duplicate-key walk. */
module Json {
  import opened Common

  datatype Number = Integer(i: int) | Fraction(text: string)

  /** A lexical or grammatical error of the stream arrives as Malformed. */
  datatype Token = OpenObject | CloseObject | OpenArray | CloseArray
                 | Text(s: string) | Num(n: Number) | Bool(b: bool) | Null | Malformed

  datatype Member = Member(key: string, value: Value)

  /** A JSON value, RFC 8259 section 3. */
  datatype Value = VNull | VBool(b: bool) | VNum(n: Number) | VText(s: string)
                 | VArray(items: seq<Value>) | VObject(members: seq<Member>)

  function Flatten(v: Value): (ts: seq<Token>)
    ensures ts != [] && ts[0] != CloseObject && ts[0] != CloseArray
    decreases v, 1
  {
    match v
    case VNull => [Null]
    case VBool(b) => [Bool(b)]
    case VNum(n) => [Num(n)]
    case VText(s) => [Text(s)]
    case VArray(items) => [OpenArray] + FlattenItems(items) + [CloseArray]
    case VObject(members) => [OpenObject] + FlattenMembers(members) + [CloseObject]
  }

  function FlattenItems(items: seq<Value>): seq<Token>
    decreases items, 0
  {
    if items == [] then [] else Flatten(items[0]) + FlattenItems(items[1..])
  }

  function FlattenMembers(members: seq<Member>): seq<Token>
    decreases members, 0
  {
    if members == [] then []
    else [Text(members[0].key)] + Flatten(members[0].value) + FlattenMembers(members[1..])
  }

  // Decoding a token stream

  datatype Read<T> = Unreadable | Read(value: T, rest: seq<Token>)

  /** Decoder.More. */
  predicate More(ts: seq<Token>) { ts != [] && ts[0] != CloseObject && ts[0] != CloseArray }

  function ReadValue(ts: seq<Token>): (r: Read<Value>)
    ensures r.Read? ==> |r.rest| < |ts|
    decreases |ts|, 0
  {
    if ts == [] then Unreadable
    else match ts[0]
      case Null => Read(VNull, ts[1..])
      case Bool(b) => Read(VBool(b), ts[1..])
      case Num(n) => Read(VNum(n), ts[1..])
      case Text(s) => Read(VText(s), ts[1..])
      case OpenArray =>
        var r := ReadItems(ts[1..]);
        if r.Read? then Read(VArray(r.value), r.rest) else Unreadable
      case OpenObject =>
        var r := ReadMembers(ts[1..]);
        if r.Read? then Read(VObject(r.value), r.rest) else Unreadable
      case _ => Unreadable
  }

  function ReadItems(ts: seq<Token>): (r: Read<seq<Value>>)
    ensures r.Read? ==> |r.rest| < |ts|
    decreases |ts|, 1
  {
    if !More(ts) then (if ts != [] && ts[0] == CloseArray then Read([], ts[1..]) else Unreadable)
    else
      var v := ReadValue(ts);
      if v.Unreadable? then Unreadable
      else
        var tail := ReadItems(v.rest);
        if tail.Read? then Read([v.value] + tail.value, tail.rest) else Unreadable
  }

  function ReadMembers(ts: seq<Token>): (r: Read<seq<Member>>)
    ensures r.Read? ==> |r.rest| < |ts|
    decreases |ts|, 1
  {
    if !More(ts) then (if ts != [] && ts[0] == CloseObject then Read([], ts[1..]) else Unreadable)
    else if !ts[0].Text? then Unreadable
    else
      var v := ReadValue(ts[1..]);
      if v.Unreadable? then Unreadable
      else
        var tail := ReadMembers(v.rest);
        if tail.Read? then Read([Member(ts[0].s, v.value)] + tail.value, tail.rest) else Unreadable
  }

  /** json.Unmarshal's view of a whole document. */
  function Document(ts: seq<Token>): Option<Value> {
    var r := ReadValue(ts);
    if r.Read? && r.rest == [] then Some(r.value) else None
  }

  lemma {:induction false} ReadFlatten(v: Value, rest: seq<Token>)
    ensures ReadValue(Flatten(v) + rest) == Read(v, rest)
    decreases v, 1
  {
    match v
    case VArray(items) =>
      ReadFlattenItems(items, rest);
      FlatArray(items, rest);
    case VObject(members) =>
      ReadFlattenMembers(members, rest);
      FlatObject(members, rest);
    case _ =>
      assert (Flatten(v) + rest)[1..] == rest;
  }

  lemma FlatArray(items: seq<Value>, rest: seq<Token>)
    ensures var ts := Flatten(VArray(items)) + rest;
            ts[0] == OpenArray && ts[1..] == FlattenItems(items) + ([CloseArray] + rest)
  {
    Regroup(OpenArray, FlattenItems(items), [CloseArray], rest);
  }

  lemma FlatObject(members: seq<Member>, rest: seq<Token>)
    ensures var ts := Flatten(VObject(members)) + rest;
            ts[0] == OpenObject && ts[1..] == FlattenMembers(members) + ([CloseObject] + rest)
  {
    Regroup(OpenObject, FlattenMembers(members), [CloseObject], rest);
  }

  lemma {:induction false} ReadFlattenItems(items: seq<Value>, rest: seq<Token>)
    ensures ReadItems(FlattenItems(items) + ([CloseArray] + rest)) == Read(items, rest)
    decreases items, 0
  {
    var ts := FlattenItems(items) + ([CloseArray] + rest);
    if items == [] {
      assert ts == [CloseArray] + rest;
    } else {
      var tail := FlattenItems(items[1..]) + ([CloseArray] + rest);
      assert ts == Flatten(items[0]) + tail;
      ReadFlatten(items[0], tail);
      ReadFlattenItems(items[1..], rest);
      assert [items[0]] + items[1..] == items;
    }
  }

  lemma {:induction false} ReadFlattenMembers(members: seq<Member>, rest: seq<Token>)
    ensures ReadMembers(FlattenMembers(members) + ([CloseObject] + rest)) == Read(members, rest)
    decreases members, 0
  {
    var ts := FlattenMembers(members) + ([CloseObject] + rest);
    if members == [] {
      assert ts == [CloseObject] + rest;
    } else {
      hide Flatten, FlattenMembers, FlattenItems;
      var tail := FlattenMembers(members[1..]) + ([CloseObject] + rest);
      MemberFirst(members, rest);
      ReadFlatten(members[0].value, tail);
      ReadFlattenMembers(members[1..], rest);
      assert [members[0]] + members[1..] == members;
    }
  }

  lemma MemberFirst(members: seq<Member>, rest: seq<Token>)
    requires members != []
    ensures var ts := FlattenMembers(members) + ([CloseObject] + rest);
            && ts[0] == Text(members[0].key)
            && ts[1..] == Flatten(members[0].value) + (FlattenMembers(members[1..]) + ([CloseObject] + rest))
  {
    var value, more, end := Flatten(members[0].value), FlattenMembers(members[1..]), [CloseObject] + rest;
    Regroup(Text(members[0].key), value, more, end);
  }

  lemma Regroup(key: Token, value: seq<Token>, more: seq<Token>, end: seq<Token>)
    ensures ([key] + value + more + end)[0] == key
    ensures ([key] + value + more + end)[1..] == value + (more + end)
  {
  }

  /** Whatever can be read is the stream of the value read, and the rest. */
  lemma {:induction false} ReadIsFlat(ts: seq<Token>)
    ensures ReadValue(ts).Read? ==> ts == Flatten(ReadValue(ts).value) + ReadValue(ts).rest
    decreases |ts|, 0
  {
    if ReadValue(ts).Read? {
      assert ts == [ts[0]] + ts[1..];
      if ts[0] == OpenArray {
        ItemsAreFlat(ts[1..]);
        FlatArray(ReadItems(ts[1..]).value, ReadItems(ts[1..]).rest);
      } else if ts[0] == OpenObject {
        MembersAreFlat(ts[1..]);
        FlatObject(ReadMembers(ts[1..]).value, ReadMembers(ts[1..]).rest);
      }
    }
  }

  lemma {:induction false} ItemsAreFlat(ts: seq<Token>)
    ensures ReadItems(ts).Read? ==> ts == FlattenItems(ReadItems(ts).value) + ([CloseArray] + ReadItems(ts).rest)
    decreases |ts|, 1
  {
    if ReadItems(ts).Read? {
      if More(ts) {
        ReadIsFlat(ts);
        ItemsAreFlat(ReadValue(ts).rest);
        var items, rest := ReadItems(ts).value, ReadItems(ts).rest;
        assert items[1..] == ReadItems(ReadValue(ts).rest).value;
        assert FlattenItems(items) + ([CloseArray] + rest)
            == Flatten(items[0]) + (FlattenItems(items[1..]) + ([CloseArray] + rest));
      } else {
        assert ts == [CloseArray] + ts[1..];
      }
    }
  }

  lemma {:induction false} MembersAreFlat(ts: seq<Token>)
    ensures ReadMembers(ts).Read? ==>
              ts == FlattenMembers(ReadMembers(ts).value) + ([CloseObject] + ReadMembers(ts).rest)
    decreases |ts|, 1
  {
    if ReadMembers(ts).Read? {
      if More(ts) {
        FirstMemberRead(ts);
        ReadIsFlat(ts[1..]);
        MembersAreFlat(ReadValue(ts[1..]).rest);
        hide Flatten, FlattenMembers, FlattenItems, ReadMembers, ReadValue;
        var members, rest := ReadMembers(ts).value, ReadMembers(ts).rest;
        MemberFirst(members, rest);
        assert ts == [ts[0]] + ts[1..];
      } else {
        assert ts == [CloseObject] + ts[1..];
      }
    }
  }

  lemma FirstMemberRead(ts: seq<Token>)
    requires ReadMembers(ts).Read? && More(ts)
    ensures var members, first := ReadMembers(ts).value, ReadValue(ts[1..]);
            && members != [] && first.Read? && ts[0] == Text(members[0].key) && members[0].value == first.value
            && ReadMembers(first.rest) == Read(members[1..], ReadMembers(ts).rest)
  {
  }

  /** A stream is a document exactly when it is the stream of one value. */
  lemma DocumentIsExact(ts: seq<Token>, v: Value)
    ensures Document(ts) == Some(v) <==> ts == Flatten(v)
  {
    ReadIsFlat(ts);
    if ts == Flatten(v) { ReadFlatten(v, []); assert ts + [] == ts; }
    if Document(ts) == Some(v) { assert Flatten(v) + [] == Flatten(v); }
  }

  // The duplicate-key walk

  datatype Walked = Accepted(rest: seq<Token>) | Duplicate | Invalid

  function WalkValue(ts: seq<Token>, table: char -> char): (w: Walked)
    ensures w.Accepted? ==> |w.rest| < |ts|
    decreases |ts|, 0
  {
    if !More(ts) || ts[0] == Malformed then Invalid
    else if ts[0] == OpenObject then WalkMembers(ts[1..], {}, table)
    else if ts[0] == OpenArray then WalkItems(ts[1..], table)
    else Accepted(ts[1..])
  }

  function WalkMembers(ts: seq<Token>, seen: set<string>, table: char -> char): (w: Walked)
    ensures w.Accepted? ==> |w.rest| < |ts|
    decreases |ts|, 1
  {
    if More(ts) then
      if !ts[0].Text? then Invalid
      else if ToLower(ts[0].s, table) in seen then Duplicate
      else
        var w := WalkValue(ts[1..], table);
        if w.Accepted? then WalkMembers(w.rest, seen + {ToLower(ts[0].s, table)}, table) else w
    else if ts != [] && ts[0] == CloseObject then Accepted(ts[1..])
    else Invalid
  }

  function WalkItems(ts: seq<Token>, table: char -> char): (w: Walked)
    ensures w.Accepted? ==> |w.rest| < |ts|
    decreases |ts|, 1
  {
    if More(ts) then
      var w := WalkValue(ts, table);
      if w.Accepted? then WalkItems(w.rest, table) else w
    else if ts != [] && ts[0] == CloseArray then Accepted(ts[1..])
    else Invalid
  }

  /** A value whose numbers are all integers: what the serializers build. */
  ghost predicate Printable(v: Value) {
    match v
    case VNum(n) => n.Integer?
    case VArray(items) => forall x | x in items :: Printable(x)
    case VObject(members) => forall m | m in members :: Printable(m.value)
    case _ => true
  }

  /** No object at any depth has two keys that agree after lower-casing. */
  ghost predicate NoDuplicates(v: Value, table: char -> char) {
    match v
    case VArray(items) => forall x | x in items :: NoDuplicates(x, table)
    case VObject(members) =>
      && (forall i, j | 0 <= i < j < |members| :: ToLower(members[i].key, table) != ToLower(members[j].key, table))
      && (forall m | m in members :: NoDuplicates(m.value, table))
    case _ => true
  }

  /**
   * On the stream of any JSON value the walk consumes exactly that value, and accepts it exactly
   * when no object in it repeats a key.
   */
  lemma {:induction false} WalkDecides(v: Value, rest: seq<Token>, table: char -> char)
    ensures WalkValue(Flatten(v) + rest, table) == if NoDuplicates(v, table) then Accepted(rest) else Duplicate
    decreases v, 1
  {
    match v
    case VArray(items) =>
      WalkItemsDecides(items, rest, table);
      FlatArray(items, rest);
    case VObject(members) =>
      WalkMembersDecides(members, {}, rest, table);
      FlatObject(members, rest);
    case _ =>
      assert (Flatten(v) + rest)[1..] == rest;
  }

  lemma {:induction false} WalkItemsDecides(items: seq<Value>, rest: seq<Token>, table: char -> char)
    ensures WalkItems(FlattenItems(items) + ([CloseArray] + rest), table)
         == if forall x | x in items :: NoDuplicates(x, table) then Accepted(rest) else Duplicate
    decreases items, 0
  {
    var ts := FlattenItems(items) + ([CloseArray] + rest);
    if items == [] {
      assert ts == [CloseArray] + rest;
    } else {
      var tail := FlattenItems(items[1..]) + ([CloseArray] + rest);
      assert ts == Flatten(items[0]) + tail;
      WalkDecides(items[0], tail, table);
      WalkItemsDecides(items[1..], rest, table);
      assert items == [items[0]] + items[1..];
    }
  }

  ghost predicate FreshMembers(members: seq<Member>, seen: set<string>, table: char -> char) {
    && (forall i, j | 0 <= i < j < |members| :: ToLower(members[i].key, table) != ToLower(members[j].key, table))
    && (forall m | m in members :: ToLower(m.key, table) !in seen && NoDuplicates(m.value, table))
  }

  lemma FreshCons(members: seq<Member>, seen: set<string>, table: char -> char)
    requires members != []
    ensures var key := ToLower(members[0].key, table);
            FreshMembers(members, seen, table) <==>
              key !in seen && NoDuplicates(members[0].value, table) && FreshMembers(members[1..], seen + {key}, table)
  {
    var key := ToLower(members[0].key, table);
    assert members == [members[0]] + members[1..];
    if FreshMembers(members[1..], seen + {key}, table) {
      forall j | 0 < j < |members| ensures ToLower(members[j].key, table) != key {
        assert members[j] == members[1..][j - 1];
      }
    }
  }

  lemma {:induction false} WalkMembersDecides(members: seq<Member>, seen: set<string>, rest: seq<Token>,
                                              table: char -> char)
    ensures WalkMembers(FlattenMembers(members) + ([CloseObject] + rest), seen, table)
         == if FreshMembers(members, seen, table) then Accepted(rest) else Duplicate
    decreases members, 0
  {
    if members == [] {
      assert FlattenMembers(members) + ([CloseObject] + rest) == [CloseObject] + rest;
    } else {
      var tail := FlattenMembers(members[1..]) + ([CloseObject] + rest);
      var key := ToLower(members[0].key, table);
      MemberFirst(members, rest);
      FreshCons(members, seen, table);
      WalkDecides(members[0].value, tail, table);
      WalkMembersDecides(members[1..], seen + {key}, rest, table);
    }
  }

  /** requireJSONEOF after a walk. */
  function AtEnd(w: Walked): Walked {
    if w.Accepted? && w.rest != [] then Invalid else w
  }

  /** Trailing data after an acceptable value is refused, and nothing else is. */
  function RejectsDuplicates(ts: seq<Token>, table: char -> char): Walked { AtEnd(WalkValue(ts, table)) }

  lemma RejectionIsExact(v: Value, trailing: seq<Token>, table: char -> char)
    ensures RejectsDuplicates(Flatten(v) + trailing, table)
         == if !NoDuplicates(v, table) then Duplicate else if trailing == [] then Accepted([]) else Invalid
  {
    WalkDecides(v, trailing, table);
  }

  /** What the walk accepts, on any tokens at all, is the stream of a value without repeated keys. */
  lemma AcceptedExactly(ts: seq<Token>, rest: seq<Token>, table: char -> char)
    ensures WalkValue(ts, table) == Accepted(rest) <==> exists v :: ts == Flatten(v) + rest && NoDuplicates(v, table)
  {
    if WalkValue(ts, table) == Accepted(rest) {
      WalkedIsRead(ts, table);
      ReadIsFlat(ts);
      var v := ReadValue(ts).value;
      WalkDecides(v, ReadValue(ts).rest, table);
      assert ts == Flatten(v) + rest && NoDuplicates(v, table);
    }
    if v :| ts == Flatten(v) + rest && NoDuplicates(v, table) { WalkDecides(v, rest, table); }
  }

  lemma {:induction false} WalkedIsRead(ts: seq<Token>, table: char -> char)
    requires WalkValue(ts, table).Accepted?
    ensures ReadValue(ts).Read? && ReadValue(ts).rest == WalkValue(ts, table).rest
    decreases |ts|, 0
  {
    if ts[0] == OpenObject {
      MembersAreRead(ts[1..], {}, table);
    } else if ts[0] == OpenArray {
      ItemsAreRead(ts[1..], table);
    }
  }

  lemma {:induction false} ItemsAreRead(ts: seq<Token>, table: char -> char)
    requires WalkItems(ts, table).Accepted?
    ensures ReadItems(ts).Read? && ReadItems(ts).rest == WalkItems(ts, table).rest
    decreases |ts|, 1
  {
    if More(ts) {
      WalkedIsRead(ts, table);
      ItemsAreRead(WalkValue(ts, table).rest, table);
    }
  }

  lemma {:induction false} MembersAreRead(ts: seq<Token>, seen: set<string>, table: char -> char)
    requires WalkMembers(ts, seen, table).Accepted?
    ensures ReadMembers(ts).Read? && ReadMembers(ts).rest == WalkMembers(ts, seen, table).rest
    decreases |ts|, 1
  {
    if More(ts) {
      WalkedIsRead(ts[1..], table);
      MembersAreRead(WalkValue(ts[1..], table).rest, seen + {ToLower(ts[0].s, table)}, table);
    }
  }

  // The walk as it runs over a decoder

  class Decoder {
    const tokens: seq<Token>
    var position: nat

    ghost predicate Valid() reads this { position <= |tokens| }

    ghost function Rest(): seq<Token>
      reads this
      requires Valid()
    {
      tokens[position..]
    }

    constructor (tokens: seq<Token>)
      ensures Valid() && Rest() == tokens && this.tokens == tokens
    {
      this.tokens := tokens;
      position := 0;
    }

    predicate HasMore()
      reads this
      requires Valid()
      ensures HasMore() <==> More(Rest())
    {
      position < |tokens| && tokens[position] != CloseObject && tokens[position] != CloseArray
    }

    /** Decoder.Token; None is its error result. */
    method Next() returns (t: Option<Token>)
      requires Valid()
      modifies this
      ensures Valid()
      ensures old(Rest()) == [] || old(Rest())[0] == Malformed <==> t.None?
      ensures t.Some? ==> t.value == old(Rest())[0] && Rest() == old(Rest())[1..]
      ensures t.None? ==> Rest() == old(Rest())
    {
      if position == |tokens| || tokens[position] == Malformed { return None; }
      t := Some(tokens[position]);
      position := position + 1;
    }

    /** walkJSONValue: nil is Accepted, an error is Duplicate or Invalid. */
    method WalkJsonValue(table: char -> char) returns (w: Walked)
      requires Valid()
      modifies this
      ensures Valid()
      ensures w == WalkValue(old(Rest()), table)
      ensures w.Accepted? ==> Rest() == w.rest
      decreases |tokens| - position
    {
      var token := Next();
      if token.None? { return Invalid; }
      if token.value == OpenObject {
        var seen: set<string> := {};
        while HasMore()
          invariant Valid() && position > old(position)
          invariant WalkValue(old(Rest()), table) == WalkMembers(Rest(), seen, table)
          decreases |tokens| - position
        {
          var keyToken := Next();
          if keyToken.None? || !keyToken.value.Text? { return Invalid; }
          var key := ToLower(keyToken.value.s, table);
          if key in seen { return Duplicate; }
          seen := seen + {key};
          var inner := WalkJsonValue(table);
          if !inner.Accepted? { return inner; }
        }
        var closing := Next();
        if closing != Some(CloseObject) { return Invalid; }
        return Accepted(tokens[position..]);
      } else if token.value == OpenArray {
        while HasMore()
          invariant Valid() && position > old(position)
          invariant WalkValue(old(Rest()), table) == WalkItems(Rest(), table)
          decreases |tokens| - position
        {
          var inner := WalkJsonValue(table);
          if !inner.Accepted? { return inner; }
        }
        var closing := Next();
        if closing != Some(CloseArray) { return Invalid; }
        return Accepted(tokens[position..]);
      } else if token.value == CloseObject || token.value == CloseArray {
        return Invalid;
      }
      return Accepted(tokens[position..]);
    }

    method RequireEof(w: Walked) returns (r: Walked)
      requires Valid() && (w.Accepted? ==> Rest() == w.rest)
      ensures r == AtEnd(w)
    {
      return if w.Accepted? && position < |tokens| then Invalid else w;
    }
  }

  method RejectDuplicateJsonFields(ts: seq<Token>, table: char -> char) returns (w: Walked)
    ensures w == RejectsDuplicates(ts, table)
  {
    var decoder := new Decoder(ts);
    w := decoder.WalkJsonValue(table);
    w := decoder.RequireEof(w);
  }
}
