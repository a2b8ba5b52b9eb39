/** Hostnames as sequences of labels (RFC 1034, section 3.1). */
module HostnameLabels {
  import opened Common

  /** strings.Split at the dots. */
  function Labels(s: string): (parts: seq<string>)
    ensures parts != []
  {
    var dot := FirstWhere(s, (c: char) => c == '.');
    if dot == |s| then [s] else [s[..dot]] + Labels(s[dot + 1..])
  }

  /** strings.Join with dots. */
  function Dotted(parts: seq<string>): string
    requires parts != []
  {
    if |parts| == 1 then parts[0] else parts[0] + "." + Dotted(parts[1..])
  }

  lemma FirstDot(first: string, rest: string)
    requires '.' !in first
    ensures FirstWhere(first + "." + rest, (c: char) => c == '.') == |first|
    ensures (first + "." + rest)[..|first|] == first && (first + "." + rest)[|first| + 1..] == rest
  {
    var s := first + "." + rest;
    assert s[|first|] == '.';
    assert forall k | 0 <= k < |first| :: s[k] == first[k] && first[k] in first;
  }

  /** A text without dots is one label, the first of any text that goes on after a dot. */
  lemma LabelsFromFirst(first: string, rest: string)
    requires '.' !in first
    ensures Labels(first) == [first]
    ensures Labels(first + "." + rest) == [first] + Labels(rest)
  {
    FirstDot(first, rest);
  }

  /** The labels before and after a dot follow one another. */
  lemma {:induction false} LabelsAroundDot(p: string, s: string)
    ensures Labels(p + "." + s) == Labels(p) + Labels(s)
    decreases |p|
  {
    hide Labels;
    var dot := FirstWhere(p, (c: char) => c == '.');
    if dot == |p| {
      LabelsFromFirst(p, s);
    } else {
      var first, rest := p[..dot], p[dot + 1..];
      assert p == first + "." + rest;
      LabelsFromFirst(first, rest);
      LabelsAroundDot(rest, s);
      assert p + "." + s == first + "." + (rest + "." + s);
      LabelsFromFirst(first, rest + "." + s);
      assert [first] + (Labels(rest) + Labels(s)) == ([first] + Labels(rest)) + Labels(s);
    }
  }

  lemma LabelsStep(s: string) returns (first: string, rest: string)
    ensures '.' in s ==> s == first + "." + rest && '.' !in first && Labels(s) == [first] + Labels(rest)
    ensures '.' !in s ==> Labels(s) == [s]
  {
    var dot := FirstWhere(s, (x: char) => x == '.');
    if dot < |s| {
      first, rest := s[..dot], s[dot + 1..];
      assert s == first + "." + rest;
    } else {
      first, rest := s, "";
    }
  }

  /** The labels determine the hostname. */
  lemma {:induction false} DottedLabels(s: string)
    ensures Dotted(Labels(s)) == s
    decreases |s|
  {
    var first, rest := LabelsStep(s);
    hide Labels;
    if '.' in s {
      DottedLabels(rest);
      assert ([first] + Labels(rest))[1..] == Labels(rest);
    }
  }

  lemma {:induction false} DottedAppend(a: seq<string>, b: seq<string>)
    requires a != [] && b != []
    ensures Dotted(a + b) == Dotted(a) + "." + Dotted(b)
  {
    if |a| == 1 {
      assert (a + b)[1..] == b;
    } else {
      assert (a + b)[1..] == a[1..] + b;
      DottedAppend(a[1..], b);
    }
  }

  /** The hostname ends with all the labels of the domain, and has at least one more. */
  predicate IsSubdomain(hostname: string, domain: string) {
    var h, d := Labels(hostname), Labels(domain);
    |d| < |h| && h[|h| - |d|..] == d
  }

  lemma DotSuffixIsSubdomain(p: string, domain: string)
    ensures IsSubdomain(p + "." + domain, domain)
  {
    LabelsAroundDot(p, domain);
    hide Labels;
    var a, d := Labels(p), Labels(domain);
    assert (a + d)[|a|..] == d;
  }

  lemma SubdomainHasPrefix(hostname: string, domain: string) returns (p: string)
    requires IsSubdomain(hostname, domain)
    ensures hostname == p + "." + domain
  {
    DottedLabels(hostname);
    DottedLabels(domain);
    hide Labels, Dotted;
    var h, d := Labels(hostname), Labels(domain);
    var a := h[..|h| - |d|];
    assert h == a + d;
    DottedAppend(a, d);
    p := Dotted(a);
  }

  lemma SubdomainEndsWithDot(hostname: string, domain: string)
    ensures IsSubdomain(hostname, domain) <==> hostname != domain && HasSuffix(hostname, "." + domain)
  {
    hide IsSubdomain;
    if HasSuffix(hostname, "." + domain) {
      var p := hostname[..|hostname| - |domain| - 1];
      assert hostname == p + ("." + domain) == p + "." + domain;
      DotSuffixIsSubdomain(p, domain);
    }
    if IsSubdomain(hostname, domain) {
      var p := SubdomainHasPrefix(hostname, domain);
      assert hostname == p + ("." + domain);
    }
  }

  // Well-formed hostnames

  /** Letters, digits and inner hyphens, at most 63 of them (RFC 1123, section 2.1). */
  predicate IsLabel(part: string) {
    && 1 <= |part| <= 63 && part[0] != '-' && part[|part| - 1] != '-'
    && forall c | c in part :: 'a' <= c <= 'z' || '0' <= c <= '9' || c == '-'
  }

  /** Two labels at least, and at most 253 characters with the dots. */
  predicate IsHostname(s: string) { |s| <= 253 && |Labels(s)| >= 2 && forall part | part in Labels(s) :: IsLabel(part) }

  lemma {:induction false} CharsOfLabels(s: string, c: char)
    requires c in s && c != '.'
    ensures exists part :: part in Labels(s) && c in part
    decreases |s|
  {
    var first, rest := LabelsStep(s);
    hide Labels;
    if '.' in s && c !in first {
      CharsOfLabels(rest, c);
      var part :| part in Labels(rest) && c in part;
      assert part in Labels(s);
    } else {
      assert Labels(s)[0] == first || Labels(s)[0] == s;
    }
  }

  /** The first label begins the text. */
  lemma FirstLabel(s: string)
    ensures var first := Labels(s)[0];
            first <= s && '.' !in first && (first == s || s[|first|] == '.')
    ensures |Labels(s)| >= 2 <==> '.' in s
  {
    var first, rest := LabelsStep(s);
    hide Labels;
  }

  /** The last label ends it. */
  lemma {:induction false} LastLabel(s: string)
    ensures var last := Labels(s)[|Labels(s)| - 1];
            HasSuffix(s, last) && '.' !in last && (last == s || s[|s| - |last| - 1] == '.')
    decreases |s|
  {
    var first, rest := LabelsStep(s);
    hide Labels;
    if '.' in s { LastLabel(rest); }
  }
}
