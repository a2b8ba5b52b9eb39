/** UTF-8 as Go's unicode/utf8 package decodes and encodes it. */
module Utf8 {
  import opened Common

  const RUNE_ERROR := 0xFFFD

  predicate ValidRune(r: int) {
    0 <= r < 0xD800 || 0xE000 <= r <= 0x10FFFF
  }

  function Encode(r: int): (s: Bytes)
    requires ValidRune(r)
    ensures 1 <= |s| <= 4
    ensures r < 0x80 ==> s == [r]
    ensures r >= 0x80 ==> forall b | b in s :: b >= 0x80
  {
    if r < 0x80 then [r]
    else if r < 0x800 then [0xC0 + r / 64, 0x80 + r % 64]
    else if r < 0x10000 then [0xE0 + r / 64 / 64, 0x80 + r / 64 % 64, 0x80 + r % 64]
    else [0xF0 + r / 64 / 64 / 64, 0x80 + r / 64 / 64 % 64, 0x80 + r / 64 % 64, 0x80 + r % 64]
  }

  datatype Decoded = Decoded(rune: int, width: nat)

  predicate Continuation(b: byte) { 0x80 <= b <= 0xBF }

  /** The second bytes that rule out overlong forms, surrogates and runes above 0x10FFFF. */
  predicate SecondByte(first: byte, second: byte) {
    if first == 0xE0 then 0xA0 <= second <= 0xBF
    else if first == 0xED then 0x80 <= second <= 0x9F
    else if first == 0xF0 then 0x90 <= second <= 0xBF
    else if first == 0xF4 then 0x80 <= second <= 0x8F
    else Continuation(second)
  }

  /** The six payload bits of a continuation byte. */
  function Payload(b: byte): int { b - 0x80 }

  /** The value of base-64 digits. */
  function Join(high: int, low: int): int { high * 64 + low }

  /** DecodeRuneInString: an ill-formed prefix yields RUNE_ERROR of width one. */
  function Decode(s: Bytes): (d: Decoded)
    requires s != []
    ensures 1 <= d.width <= |s|
  {
    var bad := Decoded(RUNE_ERROR, 1);
    var a: int := s[0];
    if a < 0x80 then Decoded(a, 1)
    else if a < 0xC2 || a > 0xF4 || |s| < 2 || !SecondByte(a, s[1]) then bad
    else if a < 0xE0 then Decoded(Join(a - 0xC0, Payload(s[1])), 2)
    else if |s| < 3 || !Continuation(s[2]) then bad
    else if a < 0xF0 then Decoded(Join(Join(a - 0xE0, Payload(s[1])), Payload(s[2])), 3)
    else if |s| < 4 || !Continuation(s[3]) then bad
    else Decoded(Join(Join(Join(a - 0xF0, Payload(s[1])), Payload(s[2])), Payload(s[3])), 4)
  }

  predicate IllFormed(s: Bytes)
    requires s != []
  {
    Decode(s) == Decoded(RUNE_ERROR, 1)
  }

  lemma DecodeEncode(r: int, rest: Bytes)
    requires ValidRune(r)
    ensures Decode(Encode(r) + rest) == Decoded(r, |Encode(r)|)
    ensures !IllFormed(Encode(r) + rest)
  {
    var s := Encode(r) + rest;
    var low, mid, high := r % 64, r / 64 % 64, r / 64 / 64 % 64;
    assert s[..|Encode(r)|] == Encode(r);
    if 0x80 <= r < 0x800 {
      assert s[0] == 0xC0 + r / 64 && s[1] == 0x80 + low;
    } else if 0x800 <= r < 0x10000 {
      assert s[0] == 0xE0 + r / 64 / 64 && s[1] == 0x80 + mid && s[2] == 0x80 + low;
    } else if 0x10000 <= r {
      assert s[0] == 0xF0 + r / 64 / 64 / 64 && s[1] == 0x80 + high && s[2] == 0x80 + mid && s[3] == 0x80 + low;
    }
  }

  /** Decoding a well-formed prefix and encoding it again gives that prefix back. */
  lemma EncodeDecode(s: Bytes)
    requires s != [] && !IllFormed(s)
    ensures ValidRune(Decode(s).rune)
    ensures Encode(Decode(s).rune) == s[..Decode(s).width]
  {
    var d := Decode(s);
    if d.width == 2 {
      TwoDigits(s[0] - 0xC0, s[1]);
    } else if d.width == 3 {
      TwoDigits(s[0] - 0xE0, s[1]);
      TwoDigits(Join(s[0] - 0xE0, Payload(s[1])), s[2]);
    } else if d.width == 4 {
      TwoDigits(s[0] - 0xF0, s[1]);
      TwoDigits(Join(s[0] - 0xF0, Payload(s[1])), s[2]);
      TwoDigits(Join(Join(s[0] - 0xF0, Payload(s[1])), Payload(s[2])), s[3]);
    }
  }

  lemma TwoDigits(high: int, low: byte)
    requires Continuation(low)
    ensures Join(high, Payload(low)) / 64 == high
    ensures Join(high, Payload(low)) % 64 == Payload(low)
  {
  }

  predicate ValidString(s: Bytes) {
    s == [] || (!IllFormed(s) && ValidString(s[Decode(s).width..]))
  }
}
