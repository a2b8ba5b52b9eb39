/** strconv.Quote and the double-quoted part of strconv.Unquote, rune by rune. */
module GoQuote {
  import opened Common
  import Utf8

  const QUOTE: byte := 0x22
  const BACKSLASH: byte := 0x5C

  /** Which runes from 0x80 on strconv prints as they are; Go reads this off its Unicode tables. */
  type PrintTable = int -> bool

  predicate Printable(r: int, table: PrintTable) {
    if r < 0x80 then 0x20 <= r < 0x7F else table(r)
  }

  function HexDigit(n: int): (d: byte)
    requires 0 <= n < 16
  {
    if n < 10 then 0x30 + n else 0x61 + n - 10
  }

  /** The low `digits` hexadecimal digits of `v`. */
  function Hex(v: int, digits: nat): (s: Bytes)
    requires v >= 0
    ensures |s| == digits
    ensures forall b | b in s :: 0x30 <= b <= 0x39 || 0x61 <= b <= 0x66
    decreases digits
  {
    if digits == 0 then [] else Hex(v / 16, digits - 1) + [HexDigit(v % 16)]
  }

  function Letter(control: int): (c: byte)
    requires 7 <= control <= 13
    ensures 0x61 <= c <= 0x7A
  {
    [0x61, 0x62, 0x74, 0x6E, 0x76, 0x66, 0x72][control - 7]
  }

  /** appendEscapedRune with the double quote as delimiter. */
  function EscapedRune(r: int, table: PrintTable): Bytes
    requires Utf8.ValidRune(r)
  {
    if r == QUOTE || r == BACKSLASH then [BACKSLASH, r]
    else if Printable(r, table) then Utf8.Encode(r)
    else if 7 <= r <= 13 then [BACKSLASH, Letter(r)]
    else if r < 0x20 || r == 0x7F then [BACKSLASH, 0x78] + Hex(r, 2)
    else if r < 0x10000 then [BACKSLASH, 0x75] + Hex(r, 4)
    else [BACKSLASH, 0x55] + Hex(r, 8)
  }

  /** What the first rune, or the first ill-formed byte, of `v` is written as. */
  function Unit(v: Bytes, table: PrintTable): Bytes
    requires v != []
  {
    if Utf8.IllFormed(v) then [BACKSLASH, 0x78] + Hex(v[0], 2)
    else
      Utf8.EncodeDecode(v);
      EscapedRune(Utf8.Decode(v).rune, table)
  }

  function QuoteBody(v: Bytes, table: PrintTable): Bytes {
    if v == [] then [] else Unit(v, table) + QuoteBody(v[Utf8.Decode(v).width..], table)
  }

  function Quote(v: Bytes, table: PrintTable): Bytes {
    [QUOTE] + QuoteBody(v, table) + [QUOTE]
  }

  // Unquoting

  datatype Unescaped = Bad | Unescaped(value: int, multibyte: bool, rest: Bytes)

  function HexValue(b: byte): int {
    if 0x30 <= b <= 0x39 then b - 0x30
    else if 0x61 <= b <= 0x66 then b - 0x61 + 10
    else if 0x41 <= b <= 0x46 then b - 0x41 + 10
    else -1
  }

  predicate AllHex(s: Bytes) { forall b | b in s :: HexValue(b) >= 0 }

  function FromHex(s: Bytes): (v: int)
    requires AllHex(s)
    ensures v >= 0
  {
    if s == [] then 0 else FromHex(s[..|s| - 1]) * 16 + HexValue(s[|s| - 1])
  }

  function UnhexChar(s: Bytes, digits: nat): Unescaped {
    if |s| < digits || !AllHex(s[..digits]) then Bad
    else
      var v := FromHex(s[..digits]);
      if digits == 2 then Unescaped(v, false, s[2..])
      else if Utf8.ValidRune(v) then Unescaped(v, true, s[digits..])
      else Bad
  }

  predicate Octal(b: byte) { 0x30 <= b <= 0x37 }

  function OctalChar(s: Bytes): Unescaped
    requires s != [] && Octal(s[0])
  {
    if |s| < 3 || !Octal(s[1]) || !Octal(s[2]) then Bad
    else
      var v := (s[0] as int - 0x30) * 64 + (s[1] as int - 0x30) * 8 + (s[2] as int - 0x30);
      if v > 255 then Bad else Unescaped(v, false, s[3..])
  }

  /** UnquoteChar for a double-quoted string. */
  function UnquoteChar(s: Bytes): (u: Unescaped)
    requires s != []
    ensures u.Unescaped? ==> |u.rest| < |s|
    ensures u.Unescaped? && u.multibyte ==> Utf8.ValidRune(u.value)
    ensures u.Unescaped? && !u.multibyte ==> 0 <= u.value < 256
  {
    var c := s[0];
    if c == QUOTE then Bad
    else if c >= 0x80 then
      var d := Utf8.Decode(s);
      if Utf8.IllFormed(s) then Unescaped(Utf8.RUNE_ERROR, true, s[1..])
      else
        Utf8.EncodeDecode(s);
        Unescaped(d.rune, true, s[d.width..])
    else if c != BACKSLASH then Unescaped(c, false, s[1..])
    else if |s| < 2 then Bad
    else
      var e, t := s[1], s[2..];
      if e == 0x61 then Unescaped(7, false, t)
      else if e == 0x62 then Unescaped(8, false, t)
      else if e == 0x66 then Unescaped(12, false, t)
      else if e == 0x6E then Unescaped(10, false, t)
      else if e == 0x72 then Unescaped(13, false, t)
      else if e == 0x74 then Unescaped(9, false, t)
      else if e == 0x76 then Unescaped(11, false, t)
      else if e == 0x78 then TwoHexIsByte(t); UnhexChar(t, 2)
      else if e == 0x75 then UnhexChar(t, 4)
      else if e == 0x55 then UnhexChar(t, 8)
      else if Octal(e) then OctalChar(s[1..])
      else if e == BACKSLASH || e == QUOTE then Unescaped(e, false, t)
      else Bad
  }

  lemma TwoHexIsByte(s: Bytes)
    ensures UnhexChar(s, 2).Unescaped? ==> 0 <= UnhexChar(s, 2).value < 256
  {
    if |s| >= 2 && AllHex(s[..2]) {
      assert s[..2][..1] == [s[0]];
      assert FromHex([s[0]]) == FromHex([]) * 16 + HexValue(s[0]) by { assert [s[0]][..0] == []; }
    }
  }

  function Rendered(u: Unescaped): Bytes
    requires u.Unescaped?
    requires u.multibyte ==> Utf8.ValidRune(u.value)
    requires !u.multibyte ==> 0 <= u.value < 256
  {
    if u.value < 0x80 || !u.multibyte then [u.value] else Utf8.Encode(u.value)
  }

  /** The escape-processing loop, entered just after the opening quote. */
  function UnquoteBody(s: Bytes): Option<Bytes>
    decreases |s|
  {
    if s == [] then None
    else if s[0] == QUOTE then (if |s| == 1 then Some([]) else None)
    else
      var u := UnquoteChar(s);
      if s[0] == 0x0A || u.Bad? then None
      else match UnquoteBody(u.rest)
        case None => None
        case Some(tail) => Some(Rendered(u) + tail)
  }

  predicate Plain(s: Bytes) { BACKSLASH !in s && 0x0A !in s && QUOTE !in s }

  function FirstQuote(s: Bytes): (i: nat)
    ensures i <= |s|
    ensures i < |s| ==> s[i] == QUOTE
    ensures forall k | 0 <= k < i :: s[k] != QUOTE
  {
    if s == [] || s[0] == QUOTE then 0 else 1 + FirstQuote(s[1..])
  }

  /** strconv.Unquote on a string that starts with a double quote. */
  function Unquote(q: Bytes): Option<Bytes> {
    if |q| < 2 || q[0] != QUOTE then None
    else
      var i := FirstQuote(q[1..]);
      if i == |q| - 1 then None
      else
        var inside := q[1..1 + i];
        if Plain(inside) && Utf8.ValidString(inside)
        then (if i + 2 == |q| then Some(inside) else None)
        else UnquoteBody(q[1..])
  }

  // Round trip

  lemma {:induction false} HexRoundTrip(v: int, digits: nat)
    requires 0 <= v
    ensures AllHex(Hex(v, digits))
    ensures FromHex(Hex(v, digits)) == v % Pow16(digits)
  {
    if digits > 0 {
      HexRoundTrip(v / 16, digits - 1);
      var h, d := Hex(v / 16, digits - 1), HexDigit(v % 16);
      assert (h + [d])[..digits - 1] == h;
      DigitStep(v, Pow16(digits - 1));
    }
  }

  function Pow16(n: nat): (p: int)
    ensures p > 0
  {
    if n == 0 then 1 else 16 * Pow16(n - 1)
  }

  lemma DigitStep(v: int, p: int)
    requires v >= 0 && p > 0
    ensures (v / 16) % p * 16 + v % 16 == v % (16 * p)
  {
    var q, r := v / 16 / p, v / 16 % p;
    assert v / 16 == q * p + r;
    assert v == (q * p + r) * 16 + v % 16;
    assert v == q * (16 * p) + (r * 16 + v % 16);
    ModUnique(v, 16 * p, q, r * 16 + v % 16);
  }

  lemma ModUnique(v: int, m: int, q: int, r: int)
    requires m > 0 && v == q * m + r && 0 <= r < m
    ensures v % m == r
  {
    var q', r' := v / m, v % m;
    assert (q - q') * m == r' - r;
    assert q - q' >= 1 ==> (q - q') * m >= m;
    assert q - q' <= -1 ==> (q - q') * m <= -m;
  }

  /** Reading one written unit gives back the bytes it was written for. */
  lemma UnitRoundTrip(v: Bytes, table: PrintTable, rest: Bytes)
    requires v != []
    ensures Unit(v, table) != [] && Unit(v, table)[0] != QUOTE && Unit(v, table)[0] != 0x0A
    ensures var u := UnquoteChar(Unit(v, table) + rest);
            u.Unescaped? && u.rest == rest && Rendered(u) == v[..Utf8.Decode(v).width]
  {
    var w := Unit(v, table);
    if Utf8.IllFormed(v) {
      Powers();
      HexUnit(v[0], 2, 0x78, rest);
    } else {
      Utf8.EncodeDecode(v);
      EscapeRoundTrip(Utf8.Decode(v).rune, table, rest);
    }
  }

  ghost predicate ReadsBack(w: Bytes, r: int, rest: Bytes)
    requires Utf8.ValidRune(r)
  {
    && w != [] && w[0] != QUOTE && w[0] != 0x0A
    && var u := UnquoteChar(w + rest);
       u.Unescaped? && u.rest == rest && Rendered(u) == Utf8.Encode(r)
  }

  lemma EscapeRoundTrip(r: int, table: PrintTable, rest: Bytes)
    requires Utf8.ValidRune(r)
    ensures ReadsBack(EscapedRune(r, table), r, rest)
  {
    if r == QUOTE || r == BACKSLASH || (!Printable(r, table) && 7 <= r <= 13) {
      ShortEscapeReadsBack(r, table, rest);
    } else if Printable(r, table) {
      RawReadsBack(r, rest);
    } else if r < 0x20 || r == 0x7F {
      ByteEscapeReadsBack(r, rest);
    } else if r < 0x10000 {
      RuneEscapeReadsBack(r, 4, 0x75, rest);
    } else {
      RuneEscapeReadsBack(r, 8, 0x55, rest);
    }
  }

  lemma ShortEscapeReadsBack(r: int, table: PrintTable, rest: Bytes)
    requires r == QUOTE || r == BACKSLASH || 7 <= r <= 13
    ensures ReadsBack([BACKSLASH, if 7 <= r <= 13 then Letter(r) else r], r, rest)
  {
    assert ([BACKSLASH, if 7 <= r <= 13 then Letter(r) else r] + rest)[2..] == rest;
  }

  lemma RawReadsBack(r: int, rest: Bytes)
    requires Utf8.ValidRune(r) && r >= 0x20 && r != QUOTE && r != BACKSLASH
    ensures ReadsBack(Utf8.Encode(r), r, rest)
  {
    var w := Utf8.Encode(r);
    if r < 0x80 {
      assert (w + rest)[1..] == rest;
    } else {
      Utf8.DecodeEncode(r, rest);
      assert w[0] in w && (w + rest)[0] == w[0];
      assert (w + rest)[|w|..] == rest;
    }
  }

  lemma ByteEscapeReadsBack(r: int, rest: Bytes)
    requires 0 <= r < 0x80
    ensures ReadsBack([BACKSLASH, 0x78] + Hex(r, 2), r, rest)
  {
    Powers();
    HexUnit(r, 2, 0x78, rest);
  }

  lemma RuneEscapeReadsBack(r: int, digits: nat, marker: byte, rest: Bytes)
    requires Utf8.ValidRune(r)
    requires (digits == 4 && marker == 0x75 && r < 0x10000) || (digits == 8 && marker == 0x55)
    ensures ReadsBack([BACKSLASH, marker] + Hex(r, digits), r, rest)
  {
    Powers();
    HexUnit(r, digits, marker, rest);
    MarkedRune([BACKSLASH, marker] + Hex(r, digits) + rest, r, digits, rest);
  }

  lemma MarkedRune(s: Bytes, r: int, digits: nat, rest: Bytes)
    requires Utf8.ValidRune(r)
    requires |s| >= 2 && s[0] == BACKSLASH
    requires (digits == 4 && s[1] == 0x75) || (digits == 8 && s[1] == 0x55)
    requires UnhexChar(s[2..], digits) == Unescaped(r, true, rest)
    ensures UnquoteChar(s) == Unescaped(r, true, rest)
  {
  }

  lemma Powers()
    ensures Pow16(2) == 256 && Pow16(4) == 0x10000 && Pow16(8) == 0x1_0000_0000
  {
    assert Pow16(2) == 16 * Pow16(1);
    assert Pow16(4) == 16 * Pow16(3) && Pow16(3) == 16 * Pow16(2);
    assert Pow16(8) == 16 * Pow16(7) && Pow16(7) == 16 * Pow16(6) && Pow16(6) == 16 * Pow16(5)
           && Pow16(5) == 16 * Pow16(4);
  }

  lemma HexUnit(v: int, digits: nat, marker: byte, rest: Bytes)
    requires 0 <= v < Pow16(digits) && Utf8.ValidRune(v)
    ensures var s := [BACKSLASH, marker] + Hex(v, digits) + rest;
            && |s| >= 2 && s[0] == BACKSLASH && s[1] == marker
            && UnhexChar(s[2..], digits) == Unescaped(v, digits != 2, rest)
  {
    hide UnhexChar, FromHex, Hex, AllHex, Pow16;
    var h := Hex(v, digits);
    HexRoundTrip(v, digits);
    ModUnique(v, Pow16(digits), 0, v);
    assert ([BACKSLASH, marker] + h + rest)[2..] == h + rest;
    UnhexReads(h, v, rest);
  }

  lemma UnhexReads(h: Bytes, v: int, rest: Bytes)
    requires AllHex(h) && FromHex(h) == v && Utf8.ValidRune(v)
    ensures UnhexChar(h + rest, |h|) == Unescaped(v, |h| != 2, rest)
  {
    assert (h + rest)[..|h|] == h && (h + rest)[|h|..] == rest;
  }

  lemma {:induction false} BodyRoundTrip(v: Bytes, table: PrintTable)
    ensures UnquoteBody(QuoteBody(v, table) + [QUOTE]) == Some(v)
    decreases |v|
  {
    hide UnquoteChar, Unit, Rendered, Utf8.Decode;
    if v != [] {
      var d := Utf8.Decode(v).width;
      var unit, tail := Unit(v, table), QuoteBody(v[d..], table);
      BodyRoundTrip(v[d..], table);
      UnitRoundTrip(v, table, tail + [QUOTE]);
      var s := QuoteBody(v, table) + [QUOTE];
      assert s == unit + (tail + [QUOTE]);
      assert s[0] == unit[0];
      assert v == v[..d] + v[d..];
    } else {
      assert QuoteBody(v, table) + [QUOTE] == [QUOTE];
    }
  }

  lemma PlainUnit(s: Bytes, rest: Bytes)
    requires s != [] && !Utf8.IllFormed(s) && s[0] != QUOTE && s[0] != BACKSLASH
    ensures var u, width := UnquoteChar(s + rest), Utf8.Decode(s).width;
            u.Unescaped? && u.rest == s[width..] + rest && Rendered(u) == s[..width]
  {
    var d := Utf8.Decode(s);
    Utf8.EncodeDecode(s);
    Utf8.DecodeEncode(d.rune, s[d.width..] + rest);
    assert s + rest == Utf8.Encode(d.rune) + (s[d.width..] + rest) by { assert s == s[..d.width] + s[d.width..]; }
    assert (s + rest)[0] == s[0] && (s + rest)[d.width..] == s[d.width..] + rest;
    if d.rune < 0x80 { assert s[..1] == [s[0]]; }
  }

  /** Unquote's shortcut for strings without escapes agrees with its general loop. */
  lemma {:induction false} ShortcutAgrees(s: Bytes)
    requires Plain(s) && Utf8.ValidString(s)
    ensures UnquoteBody(s + [QUOTE]) == Some(s)
    decreases |s|
  {
    hide UnquoteChar, Utf8.Decode, Rendered;
    if s == [] {
      assert s + [QUOTE] == [QUOTE];
    } else {
      var width := Utf8.Decode(s).width;
      var tail := s[width..];
      assert s[0] in s;
      assert Plain(tail);
      ShortcutAgrees(tail);
      PlainUnit(s, [QUOTE]);
      assert s == s[..width] + tail && (s + [QUOTE])[0] == s[0];
    }
  }

  /** strconv.Unquote undoes strconv.Quote on every byte string, well-formed or not. */
  lemma QuoteRoundTrip(v: Bytes, table: PrintTable)
    ensures Unquote(Quote(v, table)) == Some(v)
  {
    var t := QuoteBody(v, table) + [QUOTE];
    BodyRoundTrip(v, table);
    assert Quote(v, table) == [QUOTE] + t;
    ShortcutOrLoop(t, v);
  }

  /** On a terminated body, the shortcut and the loop give the same answer. */
  lemma ShortcutOrLoop(t: Bytes, v: Bytes)
    requires t != [] && t[|t| - 1] == QUOTE
    requires UnquoteBody(t) == Some(v)
    ensures Unquote([QUOTE] + t) == Some(v)
  {
    hide Plain, Utf8.ValidString, UnquoteBody;
    var q := [QUOTE] + t;
    assert q[1..] == t;
    var i := FirstQuote(t);
    assert q[1..1 + i] == t[..i];
    if Plain(t[..i]) && Utf8.ValidString(t[..i]) {
      ShortcutIsWhole(t, i, v);
    }
  }

  lemma ShortcutIsWhole(t: Bytes, i: nat, v: Bytes)
    requires i < |t| && t[i] == QUOTE && Plain(t[..i]) && Utf8.ValidString(t[..i])
    requires UnquoteBody(t) == Some(v)
    ensures i == |t| - 1 && t[..i] == v
  {
    hide UnquoteBody, Plain, Utf8.ValidString;
    StopsAtQuote(t, i);
    ShortcutAgrees(t[..i]);
    assert t == t[..i] + [QUOTE];
  }

  lemma {:induction false} StopsAtQuote(s: Bytes, i: nat)
    requires i < |s| && Plain(s[..i]) && s[i] == QUOTE
    requires Utf8.ValidString(s[..i])
    requires UnquoteBody(s).Some?
    ensures i == |s| - 1
    decreases i
  {
    hide UnquoteChar, Utf8.Decode, Rendered;
    if i > 0 {
      var p := s[..i];
      var width := Utf8.Decode(p).width;
      assert s[0] == p[0] && p[0] in p;
      PlainUnit(p, s[i..]);
      CutBoth(s, width, i);
      assert Plain(p[width..]);
      StopsAtQuote(s[width..], i - width);
    }
  }

  lemma CutBoth(s: Bytes, w: nat, i: nat)
    requires w <= i <= |s|
    ensures s == s[..i] + s[i..] && s[w..] == s[..i][w..] + s[i..] && s[w..][..i - w] == s[..i][w..]
  {
  }

  // Finding the closing quote

  /** findDoubleQuoteEnd from the state `escaped`: the first unescaped quote, or |s|. */
  function QuoteEnd(s: Bytes, escaped: bool): (i: nat)
    ensures i <= |s|
    ensures i < |s| ==> s[i] == QUOTE
  {
    if s == [] then 0
    else if escaped then 1 + QuoteEnd(s[1..], false)
    else if s[0] == BACKSLASH then 1 + QuoteEnd(s[1..], true)
    else if s[0] == QUOTE then 0
    else 1 + QuoteEnd(s[1..], false)
  }

  lemma {:induction false} PlainSkips(u: Bytes, rest: Bytes)
    requires QUOTE !in u && BACKSLASH !in u
    ensures QuoteEnd(u + rest, false) == |u| + QuoteEnd(rest, false)
  {
    if u == [] {
      assert u + rest == rest;
    } else {
      PlainSkips(u[1..], rest);
      assert (u + rest)[1..] == u[1..] + rest;
      assert u[0] in u;
    }
  }

  lemma EscapeSkips(e: byte, u: Bytes, rest: Bytes)
    requires QUOTE !in u && BACKSLASH !in u
    ensures QuoteEnd([BACKSLASH, e] + u + rest, false) == 2 + |u| + QuoteEnd(rest, false)
  {
    var s := [BACKSLASH, e] + u + rest;
    assert s[1..][1..] == u + rest;
    PlainSkips(u, rest);
  }

  lemma UnitSkips(v: Bytes, table: PrintTable, rest: Bytes)
    requires v != []
    ensures QuoteEnd(Unit(v, table) + rest, false) == |Unit(v, table)| + QuoteEnd(rest, false)
    ensures forall b | b in Unit(v, table) :: b >= 0x20
  {
    hide QuoteEnd, Utf8.Decode, Utf8.Encode, Hex;
    var w := Unit(v, table);
    if Utf8.IllFormed(v) {
      EscapeSkips(0x78, Hex(v[0], 2), rest);
    } else {
      Utf8.EncodeDecode(v);
      var r := Utf8.Decode(v).rune;
      if r == QUOTE || r == BACKSLASH {
        EscapeSkips(r, [], rest);
        assert w + rest == [BACKSLASH, r] + [] + rest;
      } else if Printable(r, table) {
        PlainSkips(w, rest);
      } else if 7 <= r <= 13 {
        EscapeSkips(Letter(r), [], rest);
        assert w + rest == [BACKSLASH, Letter(r)] + [] + rest;
      } else if r < 0x20 || r == 0x7F {
        EscapeSkips(0x78, Hex(r, 2), rest);
      } else if r < 0x10000 {
        EscapeSkips(0x75, Hex(r, 4), rest);
      } else {
        EscapeSkips(0x55, Hex(r, 8), rest);
      }
    }
  }

  /** The closing quote of a quoted string is its only unescaped one, and no byte is a control. */
  lemma {:induction false} QuoteEndsAtEnd(v: Bytes, table: PrintTable)
    ensures QuoteEnd(QuoteBody(v, table) + [QUOTE], false) == |QuoteBody(v, table)|
    ensures forall b | b in QuoteBody(v, table) :: b >= 0x20
    decreases |v|
  {
    if v != [] {
      var tail := QuoteBody(v[Utf8.Decode(v).width..], table);
      QuoteEndsAtEnd(v[Utf8.Decode(v).width..], table);
      UnitSkips(v, table, tail + [QUOTE]);
      assert QuoteBody(v, table) + [QUOTE] == Unit(v, table) + (tail + [QUOTE]);
    }
  }

  // Escapes that quoting never writes

  /** Three octal digits are a byte, up to 377. */
  lemma OctalReads(a: nat, b: nat, c: nat, rest: Bytes)
    requires a < 8 && b < 8 && c < 8
    ensures UnquoteChar([BACKSLASH, 0x30 + a, 0x30 + b, 0x30 + c] + rest)
         == if a < 4 then Unescaped(64 * a + 8 * b + c, false, rest) else Bad
  {
    var s := [BACKSLASH, 0x30 + a, 0x30 + b, 0x30 + c] + rest;
    assert s[1..][3..] == rest;
  }

  /** Hexadecimal digits may be capitals. */
  lemma CapitalsRead(n: nat)
    requires 10 <= n < 16
    ensures HexValue(0x41 + n - 10) == n == HexValue(HexDigit(n))
  {
  }

  /** Of four or eight hexadecimal digits only those of a rune are read. */
  lemma RunesRead(v: nat, rest: Bytes)
    ensures v < 0x10000 ==>
              UnhexChar(Hex(v, 4) + rest, 4) == if Utf8.ValidRune(v) then Unescaped(v, true, rest) else Bad
    ensures v < 0x1_0000_0000 ==>
              UnhexChar(Hex(v, 8) + rest, 8) == if Utf8.ValidRune(v) then Unescaped(v, true, rest) else Bad
  {
    Powers();
    if v < 0x10000 { HexReads(v, 4, rest); }
    if v < 0x1_0000_0000 { HexReads(v, 8, rest); }
  }

  lemma SmallMod(v: nat, m: int)
    requires v < m
    ensures v % m == v
  {
  }

  lemma HexReads(v: nat, digits: nat, rest: Bytes)
    requires v < Pow16(digits) && digits != 2
    ensures UnhexChar(Hex(v, digits) + rest, digits) == if Utf8.ValidRune(v) then Unescaped(v, true, rest) else Bad
  {
    hide Hex, FromHex, Pow16, AllHex;
    HexRoundTrip(v, digits);
    SmallMod(v, Pow16(digits));
    assert (Hex(v, digits) + rest)[..digits] == Hex(v, digits) && (Hex(v, digits) + rest)[digits..] == rest;
  }

  /** No value runs over the end of a line, and a quote inside must be escaped. */
  lemma {:induction false} OneLineOnly(s: Bytes)
    requires s != []
    ensures s[0] == 0x0A ==> UnquoteBody(s) == None
    ensures UnquoteBody([QUOTE] + s) == None
  {
    assert ([QUOTE] + s)[0] == QUOTE;
  }
}
