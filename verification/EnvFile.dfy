/** The environment file codec of envfile.go, byte by byte. */
module EnvFile {
  import opened Common
  import opened Ordering
  import Utf8
  import GoQuote

  const MAX_LINE := 1024 * 1024

  const LF: byte := 0x0A
  const CR: byte := 0x0D
  const HASH: byte := 0x23
  const EQUALS: byte := 0x3D
  const SINGLE: byte := 0x27

  type Values = map<string, Bytes>

  datatype LineError = LineTooLong | ForbiddenByte | MissingEquals | InvalidKey | DuplicateKey
                     | UnterminatedQuote | TextAfterQuote | InvalidEscape | ForbiddenValue

  datatype ParseError = ParseError(line: nat, reason: LineError)

  // Spaces

  predicate Blank(b: byte) { b == 0x20 || b == 0x09 }

  predicate SpaceOfWidth(s: Bytes, width: nat) {
    s != [] && !Utf8.IllFormed(s) && Utf8.Decode(s).width == width && SpaceRune(Utf8.Decode(s).rune)
  }

  function LeadingSpace(s: Bytes): (w: nat)
    ensures w <= |s|
  {
    if s != [] && SpaceOfWidth(s, Utf8.Decode(s).width) then Utf8.Decode(s).width else 0
  }

  /** No space rune takes more than three bytes. */
  function TrailingSpace(s: Bytes): (w: nat)
    ensures w <= |s|
  {
    if |s| >= 1 && SpaceOfWidth(s[|s| - 1..], 1) then 1
    else if |s| >= 2 && SpaceOfWidth(s[|s| - 2..], 2) then 2
    else if |s| >= 3 && SpaceOfWidth(s[|s| - 3..], 3) then 3
    else 0
  }

  function TrimSpaceLeft(s: Bytes): Bytes
    decreases |s|
  {
    if LeadingSpace(s) == 0 then s else TrimSpaceLeft(s[LeadingSpace(s)..])
  }

  function TrimSpaceRight(s: Bytes): Bytes
    decreases |s|
  {
    if TrailingSpace(s) == 0 then s else TrimSpaceRight(s[..|s| - TrailingSpace(s)])
  }

  function TrimSpace(s: Bytes): Bytes { TrimSpaceRight(TrimSpaceLeft(s)) }

  function TrimBlankLeft(s: Bytes): Bytes {
    if s == [] || !Blank(s[0]) then s else TrimBlankLeft(s[1..])
  }

  function Index(s: Bytes, b: byte): (i: nat)
    ensures i <= |s|
    ensures i < |s| ==> s[i] == b
    ensures forall k | 0 <= k < i :: s[k] != b
  {
    if s == [] || s[0] == b then 0 else 1 + Index(s[1..], b)
  }

  // Keys and values

  predicate KeyStart(b: int) { b == 0x5F || 0x41 <= b <= 0x5A || 0x61 <= b <= 0x7A }

  predicate KeyByte(b: int) { KeyStart(b) || 0x30 <= b <= 0x39 }

  predicate ValidKeyBytes(s: Bytes) { s != [] && KeyStart(s[0]) && forall b | b in s :: KeyByte(b) }

  predicate ValidKey(key: string) {
    key != "" && KeyStart(key[0] as int) && forall c | c in key :: KeyByte(c as int)
  }

  predicate Forbidden(s: Bytes) { CR in s || LF in s || 0 in s }

  function KeyByteAt(key: string, i: nat): (b: byte)
    requires ValidKey(key) && i < |key|
    ensures b == key[i] as int && KeyByte(b)
  {
    assert key[i] in key;
    key[i] as int
  }

  function KeyBytes(key: string): (s: Bytes)
    requires ValidKey(key)
    ensures ValidKeyBytes(s) && |s| == |key|
  {
    seq(|key|, i requires 0 <= i < |key| => KeyByteAt(key, i))
  }

  function KeyText(s: Bytes): (key: string)
    requires ValidKeyBytes(s)
    ensures ValidKey(key)
  {
    var key := seq(|s|, i requires 0 <= i < |s| => assert s[i] in s; s[i] as char);
    assert key[0] as int == s[0];
    key
  }

  lemma KeyTextOfBytes(key: string)
    requires ValidKey(key)
    ensures KeyText(KeyBytes(key)) == key
  {
  }

  // Parsing

  predicate CommentAt(raw: Bytes, i: int)
    requires 0 <= i < |raw|
  {
    raw[i] == HASH && (i == 0 || Blank(raw[i - 1]))
  }

  function CommentStart(raw: Bytes, from: nat): (c: nat)
    requires from <= |raw|
    ensures from <= c <= |raw|
    ensures c < |raw| ==> CommentAt(raw, c)
    ensures forall i | from <= i < c :: !CommentAt(raw, i)
    decreases |raw| - from
  {
    if from == |raw| || CommentAt(raw, from) then from else CommentStart(raw, from + 1)
  }

  function UnquotedValue(raw: Bytes): Bytes {
    TrimSpace(raw[..CommentStart(raw, 0)])
  }

  predicate CleanRemainder(s: Bytes) {
    var t := TrimSpace(s);
    t == [] || t[0] == HASH
  }

  function ParsedValue(raw: Bytes): Result<Bytes, LineError> {
    if raw == [] then Ok([])
    else if raw[0] == SINGLE then
      var i := Index(raw[1..], SINGLE);
      if i == |raw| - 1 then Err(UnterminatedQuote)
      else if !CleanRemainder(raw[i + 2..]) then Err(TextAfterQuote)
      else Ok(raw[1..i + 1])
    else if raw[0] == GoQuote.QUOTE then
      var i := GoQuote.QuoteEnd(raw[1..], false);
      if i == |raw| - 1 then Err(UnterminatedQuote)
      else if !CleanRemainder(raw[i + 2..]) then Err(TextAfterQuote)
      else match GoQuote.Unquote(raw[..i + 2])
        case None => Err(InvalidEscape)
        case Some(v) => Ok(v)
    else Ok(UnquotedValue(raw))
  }

  const EXPORT: Bytes := [0x65, 0x78, 0x70, 0x6F, 0x72, 0x74]

  function WithoutExport(s: Bytes): Bytes {
    if |s| > 6 && s[..6] == EXPORT && Blank(s[6]) then TrimBlankLeft(s[6..]) else s
  }

  function ParsedLine(line: Bytes, values: Values): Result<Values, LineError> {
    if |line| > MAX_LINE then Err(LineTooLong)
    else if Forbidden(line) then Err(ForbiddenByte)
    else
      var trimmed := TrimSpace(line);
      if trimmed == [] || trimmed[0] == HASH then Ok(values)
      else
        var assignment := WithoutExport(trimmed);
        var equals := Index(assignment, EQUALS);
        if equals == |assignment| then Err(MissingEquals)
        else
          var key := TrimSpace(assignment[..equals]);
          if !ValidKeyBytes(key) then Err(InvalidKey)
          else if KeyText(key) in values then Err(DuplicateKey)
          else match ParsedValue(TrimBlankLeft(assignment[equals + 1..]))
            case Err(e) => Err(e)
            case Ok(v) => if Forbidden(v) then Err(ForbiddenValue) else Ok(values[KeyText(key) := v])
  }

  /** The length of the first line of `data`, its line feed included. */
  function LineLength(data: Bytes): (n: nat)
    requires data != []
    ensures 0 < n <= |data|
  {
    if Index(data, LF) < |data| then Index(data, LF) + 1 else |data|
  }

  function StripEol(line: Bytes): Bytes {
    var n := |line|;
    if n >= 2 && line[n - 2] == CR && line[n - 1] == LF then line[..n - 2]
    else if n >= 1 && line[n - 1] == LF then line[..n - 1]
    else line
  }

  function ParsedFrom(data: Bytes, number: nat, values: Values): Result<Values, ParseError>
    decreases |data|
  {
    if data == [] then Ok(values)
    else
      var n := LineLength(data);
      match ParsedLine(StripEol(data[..n]), values)
      case Err(e) => Err(ParseError(number, e))
      case Ok(more) => ParsedFrom(data[n..], number + 1, more)
  }

  function Parsed(data: Bytes): Result<Values, ParseError> { ParsedFrom(data, 1, map[]) }

  method FindDoubleQuoteEnd(raw: Bytes) returns (closing: int)
    requires raw != []
    ensures GoQuote.QuoteEnd(raw[1..], false) < |raw| - 1 ==> closing == GoQuote.QuoteEnd(raw[1..], false) + 1
    ensures GoQuote.QuoteEnd(raw[1..], false) == |raw| - 1 ==> closing == -1
  {
    var escaped := false;
    var index := 1;
    while index < |raw|
      invariant 1 <= index <= |raw|
      invariant GoQuote.QuoteEnd(raw[1..], false) == index - 1 + GoQuote.QuoteEnd(raw[index..], escaped)
    {
      assert raw[index..][1..] == raw[index + 1..];
      if escaped {
        escaped := false;
      } else if raw[index] == GoQuote.BACKSLASH {
        escaped := true;
      } else if raw[index] == GoQuote.QUOTE {
        return index;
      }
      index := index + 1;
    }
    return -1;
  }

  method ParseUnquotedEnvValue(raw: Bytes) returns (value: Bytes)
    ensures value == UnquotedValue(raw)
  {
    var comment := -1;
    var index := 0;
    while index < |raw| && comment < 0
      invariant 0 <= index <= |raw|
      invariant comment < 0 ==> CommentStart(raw, 0) == CommentStart(raw, index)
      invariant comment >= 0 ==> comment == CommentStart(raw, 0) < |raw|
    {
      if raw[index] == HASH && (index == 0 || Blank(raw[index - 1])) {
        comment := index;
      } else {
        index := index + 1;
      }
    }
    if comment >= 0 {
      value := TrimSpace(raw[..comment]);
    } else {
      assert raw[..|raw|] == raw;
      value := TrimSpace(raw);
    }
  }

  method ParseEnvValue(raw: Bytes) returns (r: Result<Bytes, LineError>)
    ensures r == ParsedValue(raw)
  {
    hide GoQuote.Unquote, CleanRemainder, UnquotedValue;
    if raw == [] {
      return Ok([]);
    }
    if raw[0] == SINGLE {
      var closing := Index(raw[1..], SINGLE);
      if closing == |raw| - 1 { return Err(UnterminatedQuote); }
      closing := closing + 1;
      if !CleanRemainder(raw[closing + 1..]) { return Err(TextAfterQuote); }
      return Ok(raw[1..closing]);
    }
    if raw[0] == GoQuote.QUOTE {
      var closing := FindDoubleQuoteEnd(raw);
      if closing < 0 { return Err(UnterminatedQuote); }
      if !CleanRemainder(raw[closing + 1..]) { return Err(TextAfterQuote); }
      var value := GoQuote.Unquote(raw[..closing + 1]);
      return if value.None? then Err(InvalidEscape) else Ok(value.value);
    }
    var value := ParseUnquotedEnvValue(raw);
    return Ok(value);
  }

  /** The body of the loop of parseEnvFile. */
  method ParseLine(line: Bytes, values: Values) returns (r: Result<Values, LineError>)
    ensures r == ParsedLine(line, values)
  {
    hide TrimSpace, Index, ParsedValue, Forbidden, ValidKeyBytes, KeyText, TrimBlankLeft;
    if |line| > MAX_LINE { return Err(LineTooLong); }
    if Forbidden(line) { return Err(ForbiddenByte); }
    var trimmed := TrimSpace(line);
    if trimmed == [] || trimmed[0] == HASH { return Ok(values); }
    if |trimmed| > 6 && trimmed[..6] == EXPORT && Blank(trimmed[6]) {
      trimmed := TrimBlankLeft(trimmed[6..]);
    }
    var equals := Index(trimmed, EQUALS);
    if equals == |trimmed| { return Err(MissingEquals); }
    var key := TrimSpace(trimmed[..equals]);
    if !ValidKeyBytes(key) { return Err(InvalidKey); }
    if KeyText(key) in values { return Err(DuplicateKey); }
    var value := ParseEnvValue(TrimBlankLeft(trimmed[equals + 1..]));
    if value.Err? { return Err(value.error); }
    if Forbidden(value.value) { return Err(ForbiddenValue); }
    return Ok(values[KeyText(key) := value.value]);
  }

  /** parseEnvFile: a scanner loop that fills `values` line by line. */
  method ParseEnvFile(data: Bytes) returns (r: Result<Values, ParseError>)
    ensures r == Parsed(data)
  {
    hide ParsedLine, StripEol, LineLength;
    var values: Values := map[];
    var lineNumber := 0;
    var rest := data;
    while rest != []
      invariant Parsed(data) == ParsedFrom(rest, lineNumber + 1, values)
      decreases |rest|
    {
      lineNumber := lineNumber + 1;
      var line := StripEol(rest[..LineLength(rest)]);
      rest := rest[LineLength(rest)..];
      var more := ParseLine(line, values);
      if more.Err? { return Err(ParseError(lineNumber, more.error)); }
      values := more.value;
    }
    return Ok(values);
  }

  // Serializing

  predicate Serializable(values: Values) {
    forall k | k in values :: ValidKey(k) && !Forbidden(values[k])
  }

  function Line(key: string, value: Bytes, table: GoQuote.PrintTable): Bytes
    requires ValidKey(key)
  {
    KeyBytes(key) + [EQUALS] + GoQuote.Quote(value, table)
  }

  function Lines(keys: seq<string>, values: Values, table: GoQuote.PrintTable): Bytes
    requires Serializable(values) && forall k | k in keys :: k in values
  {
    if keys == [] then []
    else Line(keys[0], values[keys[0]], table) + [LF] + Lines(keys[1..], values, table)
  }

  ghost function Serialized(values: Values, table: GoQuote.PrintTable): Bytes
    requires Serializable(values)
  {
    Lines(SortedKeys(values.Keys), values, table)
  }

  lemma {:induction false} LinesAppend(keys: seq<string>, last: string, values: Values, table: GoQuote.PrintTable)
    requires Serializable(values) && last in values && forall k | k in keys :: k in values
    ensures Lines(keys + [last], values, table) == Lines(keys, values, table) + (Line(last, values[last], table) + [LF])
  {
    var end := Line(last, values[last], table) + [LF];
    if keys == [] {
      assert keys + [last] == [last] && [last][1..] == [];
      assert Lines([last], values, table) == end + [];
    } else {
      LinesAppend(keys[1..], last, values, table);
      var first, rest := Line(keys[0], values[keys[0]], table) + [LF], Lines(keys[1..], values, table);
      assert (keys + [last])[1..] == keys[1..] + [last];
      assert Lines(keys + [last], values, table) == first + (rest + end);
      Associative(first, rest, end);
    }
  }

  lemma Associative(a: Bytes, b: Bytes, c: Bytes)
    ensures a + (b + c) == (a + b) + c
  {
  }

  /** serializeEnvFile: Go ranges over the map in any order and sorts the keys afterwards. */
  method SerializeEnvFile(values: Values, table: GoQuote.PrintTable) returns (r: Option<Bytes>)
    ensures Serializable(values) ==> r == Some(Serialized(values, table))
    ensures !Serializable(values) ==> r == None
  {
    var order := RangeOver(values.Keys);
    var keys: seq<string> := [];
    for i := 0 to |order|
      invariant keys == order[..i]
      invariant forall k | k in keys :: k in values && ValidKey(k) && !Forbidden(values[k])
    {
      assert order[i] in order;
      if !ValidKey(order[i]) || Forbidden(values[order[i]]) { return None; }
      keys := keys + [order[i]];
    }
    assert keys == order;
    LessForSorting();
    ghost var unsorted := keys;
    keys := SortSlice(keys, Less);
    SortedIsAscending(unsorted, keys);
    AscendingUnique(keys, SortedKeys(values.Keys));
    var output := WriteLines(keys, values, table);
    return Some(output);
  }

  /** The builder loop at the end of serializeEnvFile. */
  method WriteLines(keys: seq<string>, values: Values, table: GoQuote.PrintTable) returns (output: Bytes)
    requires Serializable(values) && forall k | k in keys :: k in values
    ensures output == Lines(keys, values, table)
  {
    output := [];
    for i := 0 to |keys|
      invariant output == Lines(keys[..i], values, table)
    {
      LinesAppend(keys[..i], keys[i], values, table);
      assert keys[..i + 1] == keys[..i] + [keys[i]];
      var line := KeyBytes(keys[i]) + [EQUALS];
      line := line + GoQuote.Quote(values[keys[i]], table);
      line := line + [LF];
      output := output + line;
    }
    assert keys[..|keys|] == keys;
  }

  // Round trip

  predicate Fits(key: string, value: Bytes, table: GoQuote.PrintTable) {
    |key| + 1 + |GoQuote.Quote(value, table)| <= MAX_LINE
  }

  lemma AsciiEndsNoWideRune(t: Bytes)
    requires 2 <= |t| <= 3 && t[|t| - 1] < 0x80
    ensures !SpaceOfWidth(t, |t|)
  {
  }

  lemma NoTrailingSpace(s: Bytes)
    requires s != [] && s[|s| - 1] < 0x80 && !SpaceRune(s[|s| - 1])
    ensures TrailingSpace(s) == 0
  {
    var n := |s|;
    assert !SpaceOfWidth(s[n - 1..], 1);
    if n >= 2 { AsciiEndsNoWideRune(s[n - 2..]); }
    if n >= 3 { AsciiEndsNoWideRune(s[n - 3..]); }
  }

  lemma TrimIsIdentity(s: Bytes)
    requires s != [] && s[0] < 0x80 && !SpaceRune(s[0])
    requires s[|s| - 1] < 0x80 && !SpaceRune(s[|s| - 1])
    ensures TrimSpace(s) == s
  {
    NoTrailingSpace(s);
  }

  lemma IndexAt(s: Bytes, b: byte, rest: Bytes)
    requires b !in s
    ensures Index(s + [b] + rest, b) == |s|
  {
    var t := s + [b] + rest;
    assert t[|s|] == b;
    assert forall i | 0 <= i < |s| :: t[i] == s[i] && s[i] in s;
  }

  lemma QuotedValueReadsBack(value: Bytes, table: GoQuote.PrintTable)
    ensures ParsedValue(GoQuote.Quote(value, table)) == Ok(value)
  {
    hide GoQuote.Unquote, GoQuote.QuoteBody, GoQuote.QuoteEnd;
    var q := GoQuote.Quote(value, table);
    var body := GoQuote.QuoteBody(value, table);
    GoQuote.QuoteEndsAtEnd(value, table);
    GoQuote.QuoteRoundTrip(value, table);
    assert q[1..] == body + [GoQuote.QUOTE];
    assert q[..|body| + 2] == q && q[|body| + 2..] == [];
  }

  /** What a written line looks like to the parser. */
  lemma LineShape(key: string, value: Bytes, table: GoQuote.PrintTable)
    requires ValidKey(key)
    ensures var line := Line(key, value, table);
            && |line| > |key| + 1 && KeyStart(line[0]) && line[|line| - 1] == GoQuote.QUOTE
            && (forall b | b in line :: b >= 0x20)
            && TrimSpace(line) == line
            && WithoutExport(line) == line
            && Index(line, EQUALS) == |key|
            && line[..|key|] == KeyBytes(key) && line[|key| + 1..] == GoQuote.Quote(value, table)
  {
    var k, q := KeyBytes(key), GoQuote.Quote(value, table);
    GoQuote.QuoteEndsAtEnd(value, table);
    assert forall b | b in q :: b >= 0x20;
    AssignmentShape(k, q);
  }

  lemma AssignmentShape(k: Bytes, q: Bytes)
    requires ValidKeyBytes(k)
    requires q != [] && q[|q| - 1] == GoQuote.QUOTE && forall b | b in q :: b >= 0x20
    ensures var line := k + [EQUALS] + q;
            && KeyStart(line[0]) && line[|line| - 1] == GoQuote.QUOTE
            && (forall b | b in line :: b >= 0x20)
            && TrimSpace(line) == line
            && WithoutExport(line) == line
            && Index(line, EQUALS) == |k|
            && line[..|k|] == k && line[|k| + 1..] == q
  {
    TrimIsIdentity(k + [EQUALS] + q);
    KeepsExport(k, q);
    IndexAt(k, EQUALS, q);
  }

  lemma KeyTrims(key: string)
    requires ValidKey(key)
    ensures TrimSpace(KeyBytes(key)) == KeyBytes(key)
  {
    var k := KeyBytes(key);
    assert k[|k| - 1] in k;
    TrimIsIdentity(k);
  }

  lemma LineReadsBack(key: string, value: Bytes, values: Values, table: GoQuote.PrintTable)
    requires ValidKey(key) && !Forbidden(value) && key !in values
    ensures Fits(key, value, table) ==>
              ParsedLine(Line(key, value, table), values) == Ok(values[key := value])
    ensures !Fits(key, value, table) ==> ParsedLine(Line(key, value, table), values) == Err(LineTooLong)
  {
    hide TrimSpace, Index, ParsedValue, GoQuote.Quote, ValidKeyBytes, KeyText, WithoutExport;
    LineShape(key, value, table);
    KeyTrims(key);
    KeyTextOfBytes(key);
    QuotedValueReadsBack(value, table);
    QuoteIsNotBlank(value, table);
  }

  lemma QuoteIsNotBlank(value: Bytes, table: GoQuote.PrintTable)
    ensures TrimBlankLeft(GoQuote.Quote(value, table)) == GoQuote.Quote(value, table)
  {
    hide GoQuote.QuoteBody;
  }

  /** A key named `export`, or starting with it, is not taken for the keyword. */
  lemma KeepsExport(k: Bytes, q: Bytes)
    requires ValidKeyBytes(k)
    ensures WithoutExport(k + [EQUALS] + q) == k + [EQUALS] + q
  {
    var s := k + [EQUALS] + q;
    assert s[|k|] == EQUALS;
    if |s| > 6 {
      assert forall i | 0 <= i < 6 :: s[..6][i] == s[i] && EXPORT[i] != EQUALS;
      assert |k| > 6 ==> s[6] == k[6] && k[6] in k;
    }
  }

  ghost predicate AllFit(keys: seq<string>, values: Values, table: GoQuote.PrintTable)
    requires forall k | k in keys :: k in values
  {
    forall k | k in keys :: Fits(k, values[k], table)
  }

  ghost function Entries(keys: seq<string>, values: Values): Values
    requires forall k | k in keys :: k in values
  {
    map k | k in keys :: values[k]
  }

  /** What parsing the written entries of `keys` after `acc` comes to. */
  ghost predicate ReadsBackAs(r: Result<Values, ParseError>, keys: seq<string>, values: Values, acc: Values,
                              table: GoQuote.PrintTable)
    requires forall k | k in keys :: k in values
  {
    if AllFit(keys, values, table) then r == Ok(acc + Entries(keys, values))
    else r.Err? && r.error.reason == LineTooLong
  }

  lemma {:induction false} LinesReadBack(keys: seq<string>, values: Values, acc: Values, number: nat,
                                         table: GoQuote.PrintTable)
    requires Serializable(values) && forall k | k in keys :: k in values && k !in acc
    requires Distinct(keys)
    ensures ReadsBackAs(ParsedFrom(Lines(keys, values, table), number, acc), keys, values, acc, table)
  {
    if keys == [] {
      assert acc + Entries(keys, values) == acc;
    } else {
      var key, value := keys[0], values[keys[0]];
      var rest := Lines(keys[1..], values, table);
      LineReadsBack(key, value, acc, table);
      OneLine(key, value, rest, number, acc, table);
      if Fits(key, value, table) {
        LinesReadBack(keys[1..], values, acc[key := value], number + 1, table);
        OneMoreEntry(ParsedFrom(rest, number + 1, acc[key := value]), keys, values, acc, table);
      }
    }
  }

  lemma OneMoreEntry(r: Result<Values, ParseError>, keys: seq<string>, values: Values, acc: Values,
                     table: GoQuote.PrintTable)
    requires keys != [] && (forall k | k in keys :: k in values) && Distinct(keys)
    requires Fits(keys[0], values[keys[0]], table)
    requires ReadsBackAs(r, keys[1..], values, acc[keys[0] := values[keys[0]]], table)
    ensures ReadsBackAs(r, keys, values, acc, table)
  {
    EntriesCons(keys, values, acc);
    AllFitCons(keys, values, table);
  }

  lemma EntriesCons(keys: seq<string>, values: Values, acc: Values)
    requires keys != [] && (forall k | k in keys :: k in values) && Distinct(keys)
    ensures acc[keys[0] := values[keys[0]]] + Entries(keys[1..], values) == acc + Entries(keys, values)
  {
    assert keys == [keys[0]] + keys[1..];
  }

  lemma AllFitCons(keys: seq<string>, values: Values, table: GoQuote.PrintTable)
    requires keys != [] && (forall k | k in keys :: k in values)
    requires Fits(keys[0], values[keys[0]], table)
    ensures AllFit(keys, values, table) <==> AllFit(keys[1..], values, table)
  {
    if AllFit(keys[1..], values, table) {
      forall k | k in keys ensures Fits(k, values[k], table) {
        if k != keys[0] { assert k in keys[1..]; }
      }
    }
  }

  lemma OneLine(key: string, value: Bytes, rest: Bytes, number: nat, acc: Values, table: GoQuote.PrintTable)
    requires ValidKey(key)
    ensures ParsedFrom(Line(key, value, table) + [LF] + rest, number, acc)
         == var r := ParsedLine(Line(key, value, table), acc);
            if r.Err? then Err(ParseError(number, r.error)) else ParsedFrom(rest, number + 1, r.value)
  {
    LineShape(key, value, table);
    FirstLine(Line(key, value, table), rest);
  }

  lemma FirstLine(line: Bytes, rest: Bytes)
    requires line != [] && LF !in line && line[|line| - 1] != CR
    ensures var data := line + [LF] + rest;
            LineLength(data) == |line| + 1 && StripEol(data[..|line| + 1]) == line && data[|line| + 1..] == rest
  {
    IndexAt(line, LF, rest);
    assert (line + [LF] + rest)[..|line| + 1] == line + [LF];
  }

  /**
   * Writing a map and reading it again gives the same map exactly when no written line
   * exceeds the parser's limit; otherwise the parser refuses the file for that reason.
   */
  lemma RoundTrip(values: Values, table: GoQuote.PrintTable)
    requires Serializable(values)
    ensures Parsed(Serialized(values, table)) == Ok(values) <==> forall k | k in values :: Fits(k, values[k], table)
    ensures Parsed(Serialized(values, table)) != Ok(values) ==>
              Parsed(Serialized(values, table)).Err? && Parsed(Serialized(values, table)).error.reason == LineTooLong
  {
    var keys := SortedKeys(values.Keys);
    AscendingIsDistinct(keys);
    LinesReadBack(keys, values, map[], 1, table);
    AllEntries(keys, values);
  }

  lemma AllEntries(keys: seq<string>, values: Values)
    requires forall k :: k in keys <==> k in values
    ensures map[] + Entries(keys, values) == values
  {
  }

  lemma LineKeepsSerializable(line: Bytes, acc: Values)
    requires Serializable(acc)
    ensures ParsedLine(line, acc).Ok? ==> Serializable(ParsedLine(line, acc).value)
  {
    hide ParsedValue, WithoutExport, ValidKey;
  }

  /** Whatever is accepted can be written again. */
  lemma {:induction false} ParsedIsSerializable(data: Bytes, number: nat, acc: Values)
    requires Serializable(acc)
    ensures ParsedFrom(data, number, acc).Ok? ==> Serializable(ParsedFrom(data, number, acc).value)
    decreases |data|
  {
    if data != [] {
      hide ParsedLine, Serializable;
      var n := LineLength(data);
      var r := ParsedLine(StripEol(data[..n]), acc);
      LineKeepsSerializable(StripEol(data[..n]), acc);
      if r.Ok? { ParsedIsSerializable(data[n..], number + 1, r.value); }
    }
  }

  /**
   * Reading any accepted text and writing it gives a canonical form: when it is within the line
   * limit, reading it back loses nothing and writing it again changes nothing.
   */
  lemma CanonicalFixedPoint(data: Bytes, table: GoQuote.PrintTable)
    requires Parsed(data).Ok?
    ensures Serializable(Parsed(data).value)
    ensures var text := Serialized(Parsed(data).value, table);
            (forall k | k in Parsed(data).value :: Fits(k, Parsed(data).value[k], table)) ==>
              Parsed(text) == Parsed(data) && Serialized(Parsed(text).value, table) == text
  {
    ParsedIsSerializable(data, 1, map[]);
    RoundTrip(Parsed(data).value, table);
  }
}
