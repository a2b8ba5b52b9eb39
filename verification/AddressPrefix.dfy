/**
 * serviceHealthPrefixLastAddr: the last address of a prefix, found by setting bits in place
 * (RFC 4632 section 3.1, RFC 4291 section 2.3).
 */
module AddressPrefix {

  /** byte(1 << (7 - k)). */
  function Mask(k: nat): bv8
    requires k < 8
  {
    [128, 64, 32, 16, 8, 4, 2, 1][k]
  }

  predicate BitSet(b: bv8, k: nat)
    requires k < 8
  {
    b & Mask(k) != 0
  }

  lemma OrSetsOneBit(b: bv8, k: nat, j: nat)
    requires k < 8 && j < 8
    ensures BitSet(b | Mask(k), j) <==> j == k || BitSet(b, j)
  {
  }

  /** An address in network byte order: 4 octets or 16. */
  predicate IsAddress(a: seq<bv8>) { |a| == 4 || |a| == 16 }

  /** The bits of an address, the most significant first. */
  function Bits(a: seq<bv8>): (r: seq<bool>)
    ensures |r| == 8 * |a|
  {
    seq(8 * |a|, i requires 0 <= i < 8 * |a| => BitSet(a[i / 8], i % 8))
  }

  /** The number that bits stand for. */
  function Number(bits: seq<bool>): nat {
    if bits == [] then 0 else 2 * Number(bits[..|bits| - 1]) + (if bits[|bits| - 1] then 1 else 0)
  }

  function Value(a: seq<bv8>): nat { Number(Bits(a)) }

  function Pow2(n: nat): (p: nat)
    ensures p > 0
  {
    if n == 0 then 1 else 2 * Pow2(n - 1)
  }

  predicate Masked(a: seq<bv8>, length: nat) { forall i | length <= i < 8 * |a| :: !Bits(a)[i] }

  predicate Agree(a: seq<bv8>, b: seq<bv8>, length: nat)
    requires |a| == |b| && length <= 8 * |a|
  {
    Bits(a)[..length] == Bits(b)[..length]
  }

  function Repeat(b: bool, n: nat): (r: seq<bool>)
    ensures |r| == n && forall i | 0 <= i < n :: r[i] == b
  {
    if n == 0 then [] else Repeat(b, n - 1) + [b]
  }

  /** The loop: every bit from `length` on is set, the others stay. */
  method SetHostBits(a: array<bv8>, length: nat)
    requires length <= 8 * a.Length
    modifies a
    ensures Bits(a[..]) == Bits(old(a[..]))[..length] + Repeat(true, 8 * a.Length - length)
  {
    ghost var was := Bits(old(a[..]));
    var bit := length;
    while bit < 8 * a.Length
      invariant length <= bit <= 8 * a.Length
      invariant forall i | 0 <= i < 8 * a.Length :: Bits(a[..])[i] == (was[i] || length <= i < bit)
    {
      ghost var before := a[..];
      a[bit / 8] := a[bit / 8] | Mask(bit % 8);
      forall i | 0 <= i < 8 * a.Length ensures Bits(a[..])[i] == (Bits(before)[i] || i == bit) {
        OrSetsOneBit(before[bit / 8], bit % 8, i % 8);
      }
      bit := bit + 1;
    }
  }

  // Meaning

  lemma {:induction false} NumberSplit(p: seq<bool>, q: seq<bool>)
    ensures Number(p + q) == Number(p) * Pow2(|q|) + Number(q)
  {
    if q == [] {
      assert p + q == p;
    } else {
      var n := |q| - 1;
      NumberSplit(p, q[..n]);
      assert (p + q)[..|p + q| - 1] == p + q[..n];
      assert Number(p) * (2 * Pow2(n)) == 2 * (Number(p) * Pow2(n));
    }
  }

  lemma {:induction false} NumberOfRepeat(n: nat)
    ensures Number(Repeat(true, n)) == Pow2(n) - 1
    ensures Number(Repeat(false, n)) == 0
  {
    if n > 0 {
      NumberOfRepeat(n - 1);
      assert Repeat(true, n)[..n - 1] == Repeat(true, n - 1);
      assert Repeat(false, n)[..n - 1] == Repeat(false, n - 1);
    }
  }

  lemma {:induction false} NumberIsBounded(bits: seq<bool>)
    ensures Number(bits) < Pow2(|bits|)
  {
    if bits != [] { NumberIsBounded(bits[..|bits| - 1]); }
  }

  lemma {:induction false} NumberIsInjective(a: seq<bool>, b: seq<bool>)
    requires |a| == |b| && Number(a) == Number(b)
    ensures a == b
  {
    if a != [] {
      var n := |a| - 1;
      NumberIsInjective(a[..n], b[..n]);
      assert a == a[..n] + [a[n]] && b == b[..n] + [b[n]];
    }
  }

  /** The two ends of a masked prefix, as numbers. */
  lemma PrefixEnds(base: seq<bv8>, last: seq<bv8>, length: nat)
    requires |base| == |last| && length <= 8 * |base| && Masked(base, length)
    requires Bits(last) == Bits(base)[..length] + Repeat(true, 8 * |base| - length)
    ensures Value(base) == Number(Bits(base)[..length]) * Pow2(8 * |base| - length)
    ensures Value(last) == Value(base) + Pow2(8 * |base| - length) - 1
  {
    hide Number, Pow2, Repeat, Bits;
    var p, n := Bits(base)[..length], 8 * |base| - length;
    assert Bits(base) == p + Repeat(false, n);
    Ends(p, n);
  }

  lemma Ends(p: seq<bool>, n: nat)
    ensures Number(p + Repeat(false, n)) == Number(p) * Pow2(n)
    ensures Number(p + Repeat(true, n)) == Number(p) * Pow2(n) + Pow2(n) - 1
  {
    NumberSplit(p, Repeat(false, n));
    NumberSplit(p, Repeat(true, n));
    NumberOfRepeat(n);
  }

  lemma Blocks(p: nat, q: nat, r: nat, size: nat)
    requires r < size
    ensures p * size <= q * size + r <= p * size + size - 1 <==> p == q
  {
    if p < q {
      assert q * size >= (p + 1) * size;
      assert (p + 1) * size == p * size + size;
    }
    if q < p {
      assert p * size >= (q + 1) * size;
      assert (q + 1) * size == q * size + size;
    }
  }

  /** An address of the same family agrees with the prefix exactly when it lies between the two ends. */
  lemma PrefixIsRange(base: seq<bv8>, last: seq<bv8>, length: nat, address: seq<bv8>)
    requires |base| == |last| == |address| && length <= 8 * |base| && Masked(base, length)
    requires Bits(last) == Bits(base)[..length] + Repeat(true, 8 * |base| - length)
    ensures Agree(base, address, length) <==> Value(base) <= Value(address) <= Value(last)
  {
    hide Number, Pow2, Repeat, Bits, Masked;
    var n := 8 * |base| - length;
    PrefixEnds(base, last, length);
    var p, q, r := Bits(base)[..length], Bits(address)[..length], Bits(address)[length..];
    assert Bits(address) == q + r;
    NumberSplit(q, r);
    NumberIsBounded(r);
    Blocks(Number(p), Number(q), Number(r), Pow2(n));
    if Number(p) == Number(q) { NumberIsInjective(p, q); }
  }

  // Masking

  /** The first k bits of an octet. */
  function Leading(k: nat): bv8
    requires k <= 8
  {
    [0, 128, 192, 224, 240, 248, 252, 254, 255][k]
  }

  lemma AndKeepsLeading(b: bv8, k: nat, j: nat)
    requires k <= 8 && j < 8
    ensures BitSet(b & Leading(k), j) <==> j < k && BitSet(b, j)
  {
  }

  /** How many bits of octet k belong to the prefix. */
  function Kept(k: nat, length: nat): (n: nat)
    ensures n <= 8
  {
    if length <= 8 * k then 0 else if length >= 8 * k + 8 then 8 else length - 8 * k
  }

  lemma KeptCovers(i: nat, length: nat)
    ensures i % 8 < Kept(i / 8, length) <==> i < length
  {
    assert i == 8 * (i / 8) + i % 8;
  }

  /** netip.Prefix.Masked: the first address of a prefix. */
  function FirstAddress(a: seq<bv8>, length: nat): (r: seq<bv8>)
    ensures |r| == |a|
    ensures forall k | 0 <= k < |a| :: r[k] == a[k] & Leading(Kept(k, length))
  {
    seq(|a|, k requires 0 <= k < |a| => a[k] & Leading(Kept(k, length)))
  }

  lemma FirstAddressBit(a: seq<bv8>, length: nat, i: nat)
    requires i < 8 * |a|
    ensures Bits(FirstAddress(a, length))[i] == (i < length && Bits(a)[i])
  {
    hide FirstAddress, BitSet, Leading, Kept;
    var k := i / 8;
    AndKeepsLeading(a[k], Kept(k, length), i % 8);
    KeptCovers(i, length);
  }

  lemma FirstAddressIsMasked(a: seq<bv8>, length: nat)
    requires length <= 8 * |a|
    ensures Masked(FirstAddress(a, length), length) && Agree(a, FirstAddress(a, length), length)
  {
    hide FirstAddress, Bits;
    var r := FirstAddress(a, length);
    forall i | 0 <= i < 8 * |a| ensures Bits(r)[i] == (i < length && Bits(a)[i]) { FirstAddressBit(a, length, i); }
    assert Bits(a)[..length] == Bits(r)[..length];
  }

  /** serviceHealthPrefixLastAddr. */
  method PrefixLastAddr(base: seq<bv8>, length: nat) returns (last: seq<bv8>)
    requires IsAddress(base) && length <= 8 * |base|
    ensures |last| == |base|
    ensures Value(last) == Value(FirstAddress(base, length)) + Pow2(8 * |base| - length) - 1
    ensures forall a | |a| == |base| ::
              Agree(base, a, length) <==> Value(FirstAddress(base, length)) <= Value(a) <= Value(last)
  {
    hide Bits, Masked, Agree;
    var first := FirstAddress(base, length);
    FirstAddressIsMasked(base, length);
    var octets := new bv8[|first|](i requires 0 <= i < |first| => first[i]);
    assert octets[..] == first;
    SetHostBits(octets, length);
    last := octets[..];
    PrefixEnds(first, last, length);
    forall a | |a| == |base| ensures Agree(base, a, length) <==> Value(first) <= Value(a) <= Value(last) {
      PrefixIsRange(first, last, length, a);
      AgreesWithBoth(base, first, a, length);
    }
  }

  lemma AgreesWithBoth(a: seq<bv8>, b: seq<bv8>, c: seq<bv8>, length: nat)
    requires |a| == |b| == |c| && length <= 8 * |a| && Agree(a, b, length)
    ensures Agree(a, c, length) <==> Agree(b, c, length)
  {
  }

  // Prefixes by octets

  /** The first k bits of two octets are the same. */
  predicate SamePart(b: bv8, c: bv8, k: nat)
    requires k <= 8
  {
    b & Leading(k) == c & Leading(k)
  }

  lemma WholeOrNone(b: bv8, c: bv8)
    ensures SamePart(b, c, 8) <==> b == c
    ensures SamePart(b, c, 0)
  {
  }

  lemma SameLeading(b: bv8, c: bv8, k: nat)
    requires k <= 8
    ensures SamePart(b, c, k) <==> forall j | 0 <= j < k :: BitSet(b, j) == BitSet(c, j)
  {
    LeadingPart(b, k);
    LeadingPart(c, k);
    hide BitSet, Leading;
    if forall j | 0 <= j < k :: BitSet(b, j) == BitSet(c, j) {
      var x, y := b & Leading(k), c & Leading(k);
      forall j | 0 <= j < 8 ensures BitSet(x, j) == BitSet(y, j) {
        if j < k { assert BitSet(b, j) == BitSet(c, j); }
      }
      SameBits(x, y);
    }
    if SamePart(b, c, k) {
      forall j | 0 <= j < k ensures BitSet(b, j) == BitSet(c, j) { assert BitSet(b & Leading(k), j) == BitSet(b, j); }
    }
  }

  lemma LeadingPart(b: bv8, k: nat)
    requires k <= 8
    ensures forall j | 0 <= j < 8 :: BitSet(b & Leading(k), j) == (j < k && BitSet(b, j))
  {
    forall j | 0 <= j < 8 ensures BitSet(b & Leading(k), j) == (j < k && BitSet(b, j)) {
      hide *;
      AndKeepsLeading(b, k, j);
    }
  }

  lemma SameBits(b: bv8, c: bv8)
    requires forall j | 0 <= j < 8 :: BitSet(b, j) == BitSet(c, j)
    ensures b == c
  {
    assert BitSet(b, 0) == BitSet(c, 0) && BitSet(b, 1) == BitSet(c, 1) && BitSet(b, 2) == BitSet(c, 2);
    assert BitSet(b, 3) == BitSet(c, 3) && BitSet(b, 4) == BitSet(c, 4) && BitSet(b, 5) == BitSet(c, 5);
    assert BitSet(b, 6) == BitSet(c, 6) && BitSet(b, 7) == BitSet(c, 7);
  }

  /** Two addresses agree on a prefix exactly when each octet does on its part of it. */
  lemma AgreeByOctets(a: seq<bv8>, b: seq<bv8>, length: nat)
    requires |a| == |b| && length <= 8 * |a|
    ensures Agree(a, b, length) <==> forall k | 0 <= k < |a| :: OctetsAgree(a, b, length, k)
  {
    if Agree(a, b, length) {
      forall k | 0 <= k < |a| ensures OctetsAgree(a, b, length, k) {
        forall j | 0 <= j < Kept(k, length) ensures BitSet(a[k], j) == BitSet(b[k], j) {
          assert Bits(a)[..length][8 * k + j] == Bits(b)[..length][8 * k + j];
          BitOf(a, k, j);
          BitOf(b, k, j);
        }
        SameLeading(a[k], b[k], Kept(k, length));
      }
    }
    if forall k | 0 <= k < |a| :: OctetsAgree(a, b, length, k) {
      forall i | 0 <= i < length ensures Bits(a)[i] == Bits(b)[i] {
        var k, j := i / 8, i % 8;
        assert i == 8 * k + j && OctetsAgree(a, b, length, k);
        KeptCovers(i, length);
        SameLeading(a[k], b[k], Kept(k, length));
        BitOf(a, k, j);
        BitOf(b, k, j);
      }
    }
  }

  predicate OctetsAgree(a: seq<bv8>, b: seq<bv8>, length: nat, k: nat)
    requires k < |a| == |b|
  {
    SamePart(a[k], b[k], Kept(k, length))
  }

  lemma BitOf(a: seq<bv8>, k: nat, j: nat)
    requires k < |a| && j < 8
    ensures 8 * k + j < 8 * |a| && Bits(a)[8 * k + j] == BitSet(a[k], j)
  {
    assert (8 * k + j) / 8 == k && (8 * k + j) % 8 == j;
  }
}
