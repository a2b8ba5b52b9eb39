/** What the lines of an environment file read as, form by form. */
module EnvGrammar {
  import opened Common
  import opened EnvFile
  import GoQuote
  import Utf8

  predicate Blanks(s: Bytes) { forall b | b in s :: Blank(b) }

  /** An ASCII byte that is no space: white space ends or begins before it, whatever surrounds it. */
  predicate Solid(b: byte) { b < 0x80 && !SpaceRune(b) }

  // Trimming

  predicate EndsIn(s: Bytes, k: nat) { k <= |s| && SpaceOfWidth(s[|s| - k..], k) }

  lemma TrailingByWidth(s: Bytes)
    ensures TrailingSpace(s) == if EndsIn(s, 1) then 1 else if EndsIn(s, 2) then 2 else if EndsIn(s, 3) then 3 else 0
  {
    hide SpaceOfWidth;
  }

  lemma EndsAlike(s: Bytes, w: Bytes, k: nat)
    requires 0 < |w| < |s| && s[|s| - |w|..] == w && s[|s| - |w| - 1] < 0x80 && 1 <= k <= 3
    ensures EndsIn(s, k) <==> EndsIn(w, k)
  {
    if k <= |w| {
      assert s[|s| - k..] == w[|w| - k..];
    } else if k <= |s| {
      NotWide(s[|s| - k..], k - 1 - |w|);
    }
  }

  /** White space at the end does not reach over an ASCII byte. */
  lemma AsciiBefore(s: Bytes, w: Bytes)
    requires 0 < |w| < |s| && s[|s| - |w|..] == w && s[|s| - |w| - 1] < 0x80
    ensures TrailingSpace(s) == TrailingSpace(w)
  {
    TrailingByWidth(s);
    TrailingByWidth(w);
    EndsAlike(s, w, 1);
    EndsAlike(s, w, 2);
    EndsAlike(s, w, 3);
    hide EndsIn, TrailingSpace;
  }

  /** Text with an ASCII byte before its last is no single wide rune. */
  lemma NotWide(t: Bytes, k: nat)
    requires 2 <= |t| <= 3 && k < |t| - 1 && t[k] < 0x80
    ensures !SpaceOfWidth(t, |t|)
  {
  }

  lemma SolidEnd(p: Bytes, b: byte)
    requires Solid(b)
    ensures TrailingSpace(p + [b]) == 0
  {
    NoTrailingSpace(p + [b]);
  }

  lemma NothingTrails()
    ensures TrailingSpace([]) == 0
  {
  }

  /** Trimming on the right stops at a solid byte. */
  lemma {:induction false} TrimRightBehind(p: Bytes, b: byte, w: Bytes)
    requires Solid(b)
    ensures EnvFile.TrimSpaceRight(p + [b] + w) == p + [b] + EnvFile.TrimSpaceRight(w)
    decreases |w|
  {
    hide TrailingSpace;
    if w == [] {
      SolidEnd(p, b);
      assert p + [b] + w == p + [b];
      assert TrailingSpace([]) == 0 by { NothingTrails(); }
    } else {
      var s := p + [b] + w;
      assert s[|s| - |w|..] == w;
      AsciiBefore(s, w);
      var k := TrailingSpace(w);
      if k > 0 {
        assert (p + [b] + w)[..|p| + 1 + |w| - k] == p + [b] + w[..|w| - k];
        TrimRightBehind(p, b, w[..|w| - k]);
      }
    }
  }

  lemma {:induction false} TrimRightBlanks(p: Bytes, ws: Bytes)
    requires Blanks(ws)
    ensures EnvFile.TrimSpaceRight(p + ws) == EnvFile.TrimSpaceRight(p)
    decreases |ws|
  {
    if ws == [] {
      assert p + ws == p;
    } else {
      var n := |ws| - 1;
      assert ws[n] in ws;
      assert (p + ws)[|p + ws| - 1..] == [ws[n]];
      assert TrailingSpace(p + ws) == 1;
      assert (p + ws)[..|p + ws| - 1] == p + ws[..n];
      TrimRightBlanks(p, ws[..n]);
    }
  }

  lemma {:induction false} TrimLeftBlanks(ws: Bytes, s: Bytes)
    requires Blanks(ws)
    ensures TrimSpaceLeft(ws + s) == TrimSpaceLeft(s) && TrimBlankLeft(ws + s) == TrimBlankLeft(s)
    decreases |ws|
  {
    if ws == [] {
      assert ws + s == s;
    } else {
      assert ws[0] in ws && (ws + s)[0] == ws[0];
      assert (ws + s)[1..] == ws[1..] + s;
      assert LeadingSpace(ws + s) == 1;
      TrimLeftBlanks(ws[1..], s);
    }
  }

  lemma TrimLeftSolid(s: Bytes)
    requires s != [] && Solid(s[0])
    ensures TrimSpaceLeft(s) == s && TrimBlankLeft(s) == s
  {
  }

  /** White space around a text with solid ends. */
  lemma TrimAround(lead: Bytes, s: Bytes, trail: Bytes)
    requires Blanks(lead) && Blanks(trail) && s != [] && Solid(s[0]) && Solid(s[|s| - 1])
    ensures EnvFile.TrimSpace(lead + s + trail) == s
  {
    assert lead + s + trail == lead + (s + trail);
    TrimLeftBlanks(lead, s + trail);
    TrimLeftSolid(s + trail);
    TrimRightBlanks(s, trail);
    assert s == s[..|s| - 1] + [s[|s| - 1]];
    SolidEnd(s[..|s| - 1], s[|s| - 1]);
  }

  // Assignments

  /** What an assignment of this value comes to. */
  function Entered(key: string, value: Result<Bytes, LineError>, values: Values): Result<Values, LineError> {
    if key in values then Err(DuplicateKey)
    else if value.Err? then Err(value.error)
    else if Forbidden(value.value) then Err(ForbiddenValue)
    else Ok(values[key := value.value])
  }

  /** Nothing, or the keyword and some blanks. */
  predicate IsKeyword(s: Bytes) { s == [] || (EXPORT < s && Blanks(s[6..])) }

  /** [export] KEY = value, with any blanks in between. */
  function Assignment(lead: Bytes, keyword: Bytes, key: Bytes, gap: Bytes, w: Bytes): Bytes {
    lead + Trimmed(keyword, key, gap, w)
  }

  /** The keyword is one only with blanks behind it and in front of a key. */
  predicate KeywordFits(keyword: Bytes, key: Bytes, gap: Bytes) {
    keyword == [] && key == EXPORT ==> gap == []
  }

  /** An assignment without the blanks around it, `v` being what is left of the text behind the sign. */
  function Trimmed(keyword: Bytes, key: Bytes, gap: Bytes, v: Bytes): Bytes { keyword + Core(key, gap, v) }

  function Core(key: Bytes, gap: Bytes, v: Bytes): Bytes { key + gap + [EQUALS] + v }

  lemma AssignmentTrims(lead: Bytes, keyword: Bytes, key: Bytes, gap: Bytes, w: Bytes)
    requires Blanks(lead) && IsKeyword(keyword) && ValidKeyBytes(key)
    ensures EnvFile.TrimSpace(Assignment(lead, keyword, key, gap, w))
        == Trimmed(keyword, key, gap, EnvFile.TrimSpaceRight(w))
  {
    hide EnvFile.TrimSpaceLeft, EnvFile.TrimSpaceRight, ValidKeyBytes, IsKeyword, Blanks;
    var body := Trimmed(keyword, key, gap, w);
    StartsSolid(keyword, key, gap, w);
    SignSplits(keyword, key, gap, w);
    SignSplits(keyword, key, gap, EnvFile.TrimSpaceRight(w));
    hide Trimmed;
    TrimLeftBlanks(lead, body);
    TrimLeftSolid(body);
    TrimRightBehind(keyword + (key + gap), EQUALS, w);
  }

  lemma SignSplits(keyword: Bytes, key: Bytes, gap: Bytes, v: Bytes)
    ensures Trimmed(keyword, key, gap, v) == keyword + (key + gap) + [EQUALS] + v
  {
  }

  lemma StartsSolid(keyword: Bytes, key: Bytes, gap: Bytes, v: Bytes)
    requires IsKeyword(keyword) && ValidKeyBytes(key)
    ensures var s := Trimmed(keyword, key, gap, v);
            s != [] && Solid(s[0]) && s[0] != HASH
  {
    assert key[0] in key;
    if keyword != [] { assert Trimmed(keyword, key, gap, v)[0] == keyword[0] == EXPORT[0]; }
  }

  lemma KeywordStrips(keyword: Bytes, key: Bytes, gap: Bytes, v: Bytes)
    requires IsKeyword(keyword) && ValidKeyBytes(key) && Blanks(gap) && KeywordFits(keyword, key, gap)
    ensures WithoutExport(Trimmed(keyword, key, gap, v)) == Core(key, gap, v)
  {
    var rest := Core(key, gap, v);
    if keyword == [] {
      assert [] + rest == rest;
      NoKeyword(key, gap, v);
    } else {
      var s := keyword + rest;
      assert s[..6] == EXPORT && s[6..] == keyword[6..] + rest;
      assert keyword[6..][0] in keyword[6..] && s[6] == keyword[6..][0];
      TrimLeftBlanks(keyword[6..], rest);
      assert key[0] in key && rest[0] == key[0];
      TrimLeftSolid(rest);
    }
  }

  /** A key that only starts like the keyword, or is it but for the blank, stays. */
  lemma NoKeyword(key: Bytes, gap: Bytes, v: Bytes)
    requires ValidKeyBytes(key) && Blanks(gap) && (key == EXPORT ==> gap == [])
    ensures WithoutExport(Core(key, gap, v)) == Core(key, gap, v)
  {
    var s := Core(key, gap, v);
    if |key| > 6 {
      assert s[6] == key[6] && key[6] in key;
    } else if |key| == 6 {
      assert s[..6] == key && (gap == [] ==> s[6] == EQUALS);
    } else if |s| > 6 {
      assert s[..6][|key|] == s[|key|] == (if gap == [] then EQUALS else gap[0]);
      assert gap != [] ==> gap[0] in gap;
    }
  }

  lemma KeyAndGap(key: Bytes, gap: Bytes, v: Bytes)
    requires ValidKeyBytes(key) && Blanks(gap)
    ensures var s := Core(key, gap, v);
            && Index(s, EQUALS) == |key| + |gap| < |s| && EnvFile.TrimSpace(s[..|key| + |gap|]) == key
            && s[|key| + |gap| + 1..] == v && s[0] == key[0]
  {
    var s := Core(key, gap, v);
    assert s[..|key| + |gap|] == [] + key + gap;
    assert key[0] in key && key[|key| - 1] in key;
    TrimAround([], key, gap);
    forall i | 0 <= i < |key| + |gap| ensures s[i] != EQUALS {
      assert if i < |key| then s[i] == key[i] && key[i] in key else s[i] == gap[i - |key|] && gap[i - |key|] in gap;
    }
    assert s[|key| + |gap|] == EQUALS;
  }

  /** How a line is taken apart. */
  lemma LineReads(line: Bytes, trimmed: Bytes, body: Bytes, n: nat, key: Bytes, v: Bytes, values: Values)
    requires |line| <= MAX_LINE && !Forbidden(line)
    requires EnvFile.TrimSpace(line) == trimmed && trimmed != [] && trimmed[0] != HASH && WithoutExport(trimmed) == body
    requires Index(body, EQUALS) == n < |body| && EnvFile.TrimSpace(body[..n]) == key && body[n + 1..] == v
    requires ValidKeyBytes(key)
    ensures ParsedLine(line, values) == Entered(KeyText(key), ParsedValue(TrimBlankLeft(v)), values)
  {
    hide EnvFile.TrimSpace, ParsedValue, WithoutExport, Index, Forbidden, TrimBlankLeft, ValidKeyBytes, KeyText;
  }

  /** An assignment sets its key to its value, whatever blanks surround them and with or without the keyword. */
  lemma AssignmentReads(lead: Bytes, keyword: Bytes, key: Bytes, gap: Bytes, w: Bytes, values: Values)
    requires Blanks(lead) && IsKeyword(keyword) && ValidKeyBytes(key) && Blanks(gap) && KeywordFits(keyword, key, gap)
    requires var line := Assignment(lead, keyword, key, gap, w); |line| <= MAX_LINE && !Forbidden(line)
    ensures ParsedLine(Assignment(lead, keyword, key, gap, w), values)
         == Entered(KeyText(key), ParsedValue(TrimBlankLeft(EnvFile.TrimSpaceRight(w))), values)
  {
    hide *;
    var line, v := Assignment(lead, keyword, key, gap, w), EnvFile.TrimSpaceRight(w);
    AssignmentTrims(lead, keyword, key, gap, w);
    StartsSolid(keyword, key, gap, v);
    KeywordStrips(keyword, key, gap, v);
    KeyAndGap(key, gap, v);
    LineReads(line, Trimmed(keyword, key, gap, v), Core(key, gap, v), |key| + |gap|, key, v, values);
  }

  lemma SameForbidden(prefix: Bytes, s: Bytes)
    requires forall b | b in prefix :: b != CR && b != LF && b != 0
    ensures Forbidden(prefix + s) <==> Forbidden(s)
  {
  }

  /** `export KEY=value` reads as `KEY=value`, whatever the value. */
  lemma ExportIsOptional(b: byte, key: Bytes, raw: Bytes, values: Values)
    requires Blank(b) && ValidKeyBytes(key) && |EXPORT| + 1 + |key| + 1 + |raw| <= MAX_LINE
    ensures ParsedLine(EXPORT + [b] + key + [EQUALS] + raw, values) == ParsedLine(key + [EQUALS] + raw, values)
  {
    var keyword := EXPORT + [b];
    assert keyword[6..] == [b];
    assert keyword + key + [EQUALS] + raw == keyword + (key + [EQUALS] + raw);
    SameForbidden(keyword, key + [EQUALS] + raw);
    assert Assignment([], keyword, key, [], raw) == keyword + (key + [EQUALS] + raw);
    assert Assignment([], [], key, [], raw) == key + [EQUALS] + raw;
    if !Forbidden(key + [EQUALS] + raw) {
      AssignmentReads([], keyword, key, [], raw, values);
      AssignmentReads([], [], key, [], raw, values);
    }
    hide Forbidden, EnvFile.TrimSpace, Assignment, Entered;
  }

  // Values

  /** What may follow a quoted value: blanks, and a comment. */
  predicate IsTail(s: Bytes) { Blanks(s) || exists k | 0 <= k < |s| :: StartsComment(s, k) }

  predicate StartsComment(s: Bytes, k: nat)
    requires k < |s|
  {
    Blanks(s[..k]) && s[k] == HASH
  }

  lemma OnlyBlanks(ws: Bytes)
    requires Blanks(ws)
    ensures EnvFile.TrimSpace(ws) == []
  {
    TrimLeftBlanks(ws, []);
    NothingTrails();
    assert ws + [] == ws;
  }

  /** A solid byte behind blanks is what trimming leaves in front. */
  lemma SolidFirst(ws: Bytes, c: byte, rest: Bytes)
    requires Blanks(ws) && Solid(c)
    ensures EnvFile.TrimSpace(ws + [c] + rest) != [] && EnvFile.TrimSpace(ws + [c] + rest)[0] == c
  {
    assert ws + [c] + rest == ws + ([c] + rest);
    TrimLeftBlanks(ws, [c] + rest);
    TrimLeftSolid([c] + rest);
    TrimRightBehind([], c, rest);
    assert [] + [c] + rest == [c] + rest && [] + [c] == [c];
  }

  lemma TailIsClean(s: Bytes)
    requires IsTail(s)
    ensures CleanRemainder(s)
  {
    if Blanks(s) {
      OnlyBlanks(s);
    } else {
      var k :| 0 <= k < |s| && StartsComment(s, k);
      assert s == s[..k] + [HASH] + s[k + 1..];
      SolidFirst(s[..k], HASH, s[k + 1..]);
    }
  }

  lemma SingleQuoteEnds(text: Bytes, tail: Bytes)
    requires SINGLE !in text
    ensures var raw := [SINGLE] + text + [SINGLE] + tail;
            && raw[0] == SINGLE && Index(raw[1..], SINGLE) == |text| && raw[1..|text| + 1] == text
            && raw[|text| + 2..] == tail
  {
    var raw := [SINGLE] + text + [SINGLE] + tail;
    assert raw[1..] == text + [SINGLE] + tail;
    IndexAt(text, SINGLE, tail);
  }

  /** A single-quoted value is what stands between the quotes, backslashes and double quotes included. */
  lemma SingleQuotedReads(text: Bytes, tail: Bytes)
    requires SINGLE !in text
    ensures IsTail(tail) ==> ParsedValue([SINGLE] + text + [SINGLE] + tail) == Ok(text)
    ensures !CleanRemainder(tail) ==> ParsedValue([SINGLE] + text + [SINGLE] + tail) == Err(TextAfterQuote)
    ensures ParsedValue([SINGLE] + text) == Err(UnterminatedQuote)
  {
    SingleQuoteEnds(text, tail);
    if IsTail(tail) { TailIsClean(tail); }
    assert ([SINGLE] + text)[1..] == text;
    hide CleanRemainder, Index;
  }

  /** Anything but a comment behind a quoted value spoils it. */
  lemma TextAfterIsNotClean(ws: Bytes, c: byte, rest: Bytes)
    requires Blanks(ws) && Solid(c) && c != HASH
    ensures !CleanRemainder(ws + [c] + rest)
  {
    SolidFirst(ws, c, rest);
  }

  /** A double-quoted value with its escapes, and what may stand behind it. */
  lemma DoubleQuotedReads(value: Bytes, tail: Bytes, table: GoQuote.PrintTable)
    ensures IsTail(tail) ==> ParsedValue(GoQuote.Quote(value, table) + tail) == Ok(value)
    ensures !CleanRemainder(tail) ==> ParsedValue(GoQuote.Quote(value, table) + tail) == Err(TextAfterQuote)
  {
    hide GoQuote.Unquote, GoQuote.QuoteBody, GoQuote.QuoteEnd, CleanRemainder, IsTail;
    var body := GoQuote.QuoteBody(value, table);
    var q := GoQuote.Quote(value, table);
    var raw := q + tail;
    if IsTail(tail) { TailIsClean(tail); }
    GoQuote.QuoteEndsAtEnd(value, table);
    GoQuote.QuoteRoundTrip(value, table);
    assert raw[1..] == body + [GoQuote.QUOTE] + tail;
    QuoteEndBefore(body + [GoQuote.QUOTE], tail, false);
    assert raw[..|body| + 2] == q && raw[|body| + 2..] == tail;
  }

  /** Where a quote ends does not depend on what follows it. */
  lemma {:induction false} QuoteEndBefore(s: Bytes, tail: Bytes, escaped: bool)
    requires GoQuote.QuoteEnd(s, escaped) < |s|
    ensures GoQuote.QuoteEnd(s + tail, escaped) == GoQuote.QuoteEnd(s, escaped)
  {
    assert (s + tail)[1..] == s[1..] + tail && (s + tail)[0] == s[0];
    if escaped || s[0] == GoQuote.BACKSLASH {
      QuoteEndBefore(s[1..], tail, !escaped);
    } else if s[0] != GoQuote.QUOTE {
      QuoteEndBefore(s[1..], tail, false);
    }
  }

  /** A text that reads as itself without quotes. */
  predicate IsBare(text: Bytes) {
    && text != [] && Solid(text[0]) && Solid(text[|text| - 1]) && text[0] != SINGLE && text[0] != GoQuote.QUOTE
    && forall i | 0 <= i < |text| && text[i] == HASH :: i > 0 && text[i - 1] != 0x20 && text[i - 1] != 0x09
  }

  /** A bare value ends before a comment; a mark that follows no blank belongs to it. */
  lemma BareReads(text: Bytes, b: byte, gap: Bytes, comment: Bytes)
    requires IsBare(text) && Blank(b) && Blanks(gap)
    ensures ParsedValue(text) == Ok(text)
    ensures ParsedValue(text + ([b] + gap) + [HASH] + comment) == Ok(text)
  {
    hide EnvFile.TrimSpace;
    var ws := [b] + gap;
    var raw := text + ws + [HASH] + comment;
    TrimAround([], text, []);
    TrimAround([], text, ws);
    assert [] + text + [] == text && [] + text + ws == text + ws;
    assert text[..|text|] == text && raw[..|text| + |ws|] == text + ws;
    forall i | 0 <= i < |text| + |ws| ensures !CommentAt(raw, i) {
      if i < |text| {
        assert raw[i] == text[i] && (i > 0 ==> raw[i - 1] == text[i - 1]);
      } else {
        assert raw[i] == ws[i - |text|] && ws[i - |text|] in ws;
      }
    }
    assert raw[|text| + |ws| - 1] == ws[|ws| - 1] && ws[|ws| - 1] in ws;
    assert CommentAt(raw, |text| + |ws|);
  }

  /** No value at all, or just a comment, is the empty value. */
  lemma NoValueReads(comment: Bytes)
    ensures ParsedValue([]) == Ok([]) && ParsedValue([HASH] + comment) == Ok([])
  {
    var raw := [HASH] + comment;
    assert CommentAt(raw, 0) && raw[..0] == [];
    OnlyBlanks([]);
  }

  // Lines

  /** Blank lines and comments say nothing. */
  lemma SilentLines(ws: Bytes, comment: Bytes, values: Values)
    requires Blanks(ws) && |ws| + 1 + |comment| <= MAX_LINE && !Forbidden(comment)
    ensures ParsedLine(ws, values) == Ok(values)
    ensures ParsedLine(ws + [HASH] + comment, values) == Ok(values)
  {
    OnlyBlanks(ws);
    SolidFirst(ws, HASH, comment);
    assert forall b | b in ws + [HASH] + comment :: b in ws || b == HASH || b in comment;
    hide EnvFile.TrimSpace;
  }

  /** Lines over 1 MiB are refused, and then those with a carriage return, a line feed or a zero byte inside. */
  lemma RefusedLines(line: Bytes, values: Values)
    ensures ParsedLine(line, values) == Err(LineTooLong) <==> |line| > 1048576
    ensures ParsedLine(line, values) == Err(ForbiddenByte)
       <==> |line| <= 1048576 && exists i | 0 <= i < |line| :: line[i] == 0x0D || line[i] == 0x0A || line[i] == 0x00
  {
    hide EnvFile.TrimSpace, WithoutExport, Index, KeyText, TrimBlankLeft, ValidKeyBytes;
    ParsedValueErrors();
    hide ParsedValue;
  }

  /** Values are refused for reasons of their own. */
  lemma ParsedValueErrors()
    ensures forall raw | ParsedValue(raw).Err? ::
              ParsedValue(raw).error in {UnterminatedQuote, TextAfterQuote, InvalidEscape}
  {
    hide GoQuote.Unquote, GoQuote.QuoteEnd, CleanRemainder, UnquotedValue, Index;
  }

  /** What reading goes on with after a line. */
  function Continued(line: Result<Values, LineError>, rest: Bytes, number: nat): Result<Values, ParseError> {
    if line.Err? then Err(ParseError(number, line.error)) else ParsedFrom(rest, number + 1, line.value)
  }

  lemma FirstLineOf(line: Bytes, rest: Bytes)
    requires LF !in line
    ensures LineLength(line + [LF] + rest) == |line| + 1
    ensures (line + [LF] + rest)[..|line| + 1] == line + [LF] && (line + [LF] + rest)[|line| + 1..] == rest
  {
    IndexAt(line, LF, rest);
  }

  /** Lines end with a line feed, or a carriage return and a line feed, and are read one by one. */
  lemma LinesRead(line: Bytes, rest: Bytes, number: nat, values: Values)
    requires LF !in line && (line == [] || line[|line| - 1] != CR)
    ensures ParsedFrom(line + [LF] + rest, number, values) == Continued(ParsedLine(line, values), rest, number)
    ensures ParsedFrom(line + [CR, LF] + rest, number, values) == Continued(ParsedLine(line, values), rest, number)
  {
    hide ParsedLine;
    FirstLineOf(line, rest);
    FirstLineOf(line + [CR], rest);
    assert line + [CR, LF] + rest == line + [CR] + [LF] + rest;
    assert StripEol(line + [LF]) == line && StripEol(line + [CR] + [LF]) == line;
  }

  /** The last line needs no line feed. */
  lemma LastLineReads(line: Bytes, number: nat, values: Values)
    requires LF !in line && line != []
    ensures ParsedFrom(line, number, values) == Continued(ParsedLine(line, values), [], number)
  {
    hide ParsedLine;
    assert Index(line, LF) == |line| && line[..|line|] == line && line[|line|..] == [];
  }

  /** Keys are names of letters, digits and underscores that start with no digit. */
  lemma KeysAreNames(key: string)
    ensures ValidKey(key)
       <==> && key != "" && !('0' <= key[0] <= '9')
            && forall c | c in key :: c == '_' || 'A' <= c <= 'Z' || 'a' <= c <= 'z' || '0' <= c <= '9'
  {
    if key != "" { assert key[0] in key; }
  }
}
