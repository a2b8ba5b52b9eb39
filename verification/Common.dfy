/** Failure-carrying results and byte strings shared by the models. */
module Common {
  datatype Option<+T> = None | Some(value: T) {
    function GetOr(default: T): T {
      if Some? then value else default
    }
  }

  datatype Result<+T, +E> = Ok(value: T) | Err(error: E)

  /** One element of a Go string or byte slice. */
  type byte = x: int | 0 <= x < 256

  type Bytes = seq<byte>

  /** unicode.IsSpace. */
  predicate SpaceRune(r: int) {
    9 <= r <= 13 || r == 0x20 || r == 0x85 || r == 0xA0 || r == 0x1680 || 0x2000 <= r <= 0x200A
    || r == 0x2028 || r == 0x2029 || r == 0x202F || r == 0x205F || r == 0x3000
  }

  /** unicode.IsControl. */
  predicate ControlRune(r: int) { 0 <= r < 0x20 || 0x7F <= r <= 0x9F }

  /** The 25 code points that Unicode calls white space. */
  const WHITE_SPACE := {0x09, 0x0A, 0x0B, 0x0C, 0x0D, 0x20, 0x85, 0xA0, 0x1680, 0x2000, 0x2001, 0x2002, 0x2003, 0x2004,
                         0x2005, 0x2006, 0x2007, 0x2008, 0x2009, 0x200A, 0x2028, 0x2029, 0x202F, 0x205F, 0x3000}

  lemma SpacesAreWhite(r: int)
    ensures SpaceRune(r) <==> r in WHITE_SPACE
  {
  }

  /** C0, delete and C1: the 65 code points of the category Cc. */
  lemma ControlsAre(r: int)
    ensures ControlRune(r) <==> 0 <= r < 32 || r == 127 || 128 <= r < 160
  {
  }

  /** In ASCII only capitals change, each to the small letter at its place in the alphabet. */
  lemma AsciiFolds(c: char, table: char -> char)
    requires c < '\U{80}'
    ensures 'A' <= c <= 'Z' ==> LowerChar(c, table) - 'a' == c - 'A'
    ensures !('A' <= c <= 'Z') ==> LowerChar(c, table) == c
  {
  }

  /** strings.ToLower, rune by rune; `table` is Go's Unicode table beyond ASCII. */
  function ToLower(s: string, table: char -> char): (r: string)
    ensures |r| == |s|
    ensures forall i | 0 <= i < |s| :: r[i] == LowerChar(s[i], table)
  {
    seq(|s|, i requires 0 <= i < |s| => LowerChar(s[i], table))
  }

  function LowerChar(c: char, table: char -> char): char {
    if 'A' <= c <= 'Z' then (c as int + 32) as char else if c < '\U{80}' then c else table(c)
  }

  predicate LowerAscii(s: string) { forall c | c in s :: c < '\U{80}' && !('A' <= c <= 'Z') }

  lemma LowerKeepsAscii(s: string, table: char -> char)
    requires LowerAscii(s)
    ensures ToLower(s, table) == s
  {
    forall i | 0 <= i < |s| ensures ToLower(s, table)[i] == s[i] { assert s[i] in s; }
  }

  /** strings.TrimSpace on text. */
  function TrimSpace(s: string): (r: string)
    ensures r != "" ==> !SpaceRune(r[0] as int) && !SpaceRune(r[|r| - 1] as int)
  {
    if s == "" then ""
    else if SpaceRune(s[0] as int) then TrimSpace(s[1..])
    else TrimSpaceRight(s)
  }

  function TrimSpaceRight(s: string): (r: string)
    ensures r <= s
    ensures r != "" ==> !SpaceRune(r[|r| - 1] as int)
  {
    if s == "" then ""
    else if SpaceRune(s[|s| - 1] as int) then TrimSpaceRight(s[..|s| - 1])
    else s
  }

  lemma TrimsNothing(s: string)
    requires s != "" && !SpaceRune(s[0] as int) && !SpaceRune(s[|s| - 1] as int)
    ensures TrimSpace(s) == s
  {
  }

  predicate HasPrefix(s: string, prefix: string) { prefix <= s }

  predicate HasSuffix(s: string, suffix: string) { |suffix| <= |s| && s[|s| - |suffix|..] == suffix }

  /** The index of the first element that satisfies `p`, or |s|. */
  function FirstWhere<T>(s: seq<T>, p: T -> bool): (i: nat)
    ensures i <= |s|
    ensures i < |s| ==> p(s[i])
    ensures forall k | 0 <= k < i :: !p(s[k])
  {
    if s == [] || p(s[0]) then 0 else 1 + FirstWhere(s[1..], p)
  }
}
