/**
 * CIDR containment on binary addresses (section 3.1 of RFC 4632; IPv6
 * prefixes as in section 2.3 of RFC 4291): the byte-and-mask comparison the
 * plugin performs, and the reference reading "the first n bits agree".
 */
module Cidr {
  import opened PhpText

  // ---------------------------------------------------------------------------
  // Reference: addresses as bit strings
  // ---------------------------------------------------------------------------

  /** The eight bits of a byte, most significant first. */
  function ByteBits(b: bv8): (bits: seq<bool>)
    ensures |bits| == 8
  {
    [ b & 0x80 != 0, b & 0x40 != 0, b & 0x20 != 0, b & 0x10 != 0,
      b & 0x08 != 0, b & 0x04 != 0, b & 0x02 != 0, b & 0x01 != 0 ]
  }

  /** The bits of an address in network order. */
  function AddressBits(a: seq<bv8>): (bits: seq<bool>)
    ensures |bits| == 8 * |a|
  {
    if a == [] then [] else ByteBits(a[0]) + AddressBits(a[1..])
  }

  /** The first `n` bits of two same-length addresses agree. */
  predicate PrefixAgree(a: seq<bv8>, b: seq<bv8>, n: nat)
    requires |a| == |b| && n <= 8 * |a|
  {
    AddressBits(a)[..n] == AddressBits(b)[..n]
  }

  function Clamp(n: int, lo: int, hi: int): (r: int)
    requires lo <= hi
    ensures lo <= r <= hi
    ensures lo <= n <= hi ==> r == n
  {
    if n < lo then lo else if n > hi then hi else n
  }

  // ---------------------------------------------------------------------------
  // The comparison as written
  // ---------------------------------------------------------------------------

  /** `ord($x) & (0xff << (8 - $r))`. PHP's mask is an unclipped integer
      (up to 0x7f80); sixteen bits hold it. */
  function MaskedByte(x: bv8, r: int): (m: bv16)
    requires 0 <= r <= 8
    ensures m < 0x100
    ensures r == 0 ==> m == 0
    ensures r == 8 ==> m == x as bv16
  {
    (x as bv16) & ((0xFF as bv16) << (8 - r))
  }

  /** The comparison once both addresses are binary and of the same length.
      `$bytes = $bits / 8` is a float when `bits` is not a multiple of 8:
      `$bytes > 0` holds iff `bits > 0`, `$bytes < strlen` iff
      `bits < 8 * length`, and the casts `(int)$bytes` and `$ip[$bytes]`
      truncate toward zero. `$remainingBits = $bits % 8` takes the sign of
      `bits`. Nothing checks `bits` against the address width. */
  function PrefixMatch(ip: seq<bv8>, subnet: seq<bv8>, bits: int): (r: bool)
    requires |ip| == |subnet|
    ensures bits <= 0 ==> r
    ensures bits >= 8 * |ip| ==> (r <==> ip == subnet)
  {
    var bytes := TruncDiv(bits, 8);
    var remainingBits := PhpMod(bits, 8);
    assert bits >= 8 * |ip| ==> bytes >= |ip|;
    assert ip[..|ip|] == ip && subnet[..|subnet|] == subnet;
    if bits > 0 && !StrncmpEqual(ip, subnet, bytes) then false
    else if remainingBits > 0 && bits < 8 * |ip| then
      MaskedByte(ip[bytes], remainingBits) == MaskedByte(subnet[bytes], remainingBits)
    else true
  }

  // ---------------------------------------------------------------------------
  // Facts about the bit strings
  // ---------------------------------------------------------------------------

  lemma {:induction false} AddressBitsConcat(a: seq<bv8>, b: seq<bv8>)
    ensures AddressBits(a + b) == AddressBits(a) + AddressBits(b)
    decreases |a|
  {
    if a == [] {
      assert a + b == b;
    } else {
      assert (a + b)[0] == a[0];
      assert (a + b)[1..] == a[1..] + b;
      AddressBitsConcat(a[1..], b);
    }
  }

  lemma ByteBitsInjective(x: bv8, y: bv8)
    requires ByteBits(x) == ByteBits(y)
    ensures x == y
  {
    var xs, ys := ByteBits(x), ByteBits(y);
    assert xs[0] == ys[0] && xs[1] == ys[1] && xs[2] == ys[2] && xs[3] == ys[3];
    assert xs[4] == ys[4] && xs[5] == ys[5] && xs[6] == ys[6] && xs[7] == ys[7];
  }

  lemma {:induction false} AddressBitsInjective(a: seq<bv8>, b: seq<bv8>)
    requires |a| == |b| && AddressBits(a) == AddressBits(b)
    ensures a == b
    decreases |a|
  {
    if a != [] {
      var ba, bb := AddressBits(a), AddressBits(b);
      assert ba[..8] == ByteBits(a[0]) && bb[..8] == ByteBits(b[0]);
      assert ba[8..] == AddressBits(a[1..]) && bb[8..] == AddressBits(b[1..]);
      ByteBitsInjective(a[0], b[0]);
      AddressBitsInjective(a[1..], b[1..]);
      assert a == [a[0]] + a[1..] && b == [b[0]] + b[1..];
    }
  }

  /** The first `8q + r` bits: `q` whole bytes, then `r` bits of byte `q`. */
  lemma BitsOfPrefix(a: seq<bv8>, q: nat, r: nat)
    requires q < |a| && r <= 8
    ensures AddressBits(a)[..8 * q + r] == AddressBits(a[..q]) + ByteBits(a[q])[..r]
  {
    var pre, tail := a[..q], a[q..];
    assert a == pre + tail;
    AddressBitsConcat(pre, tail);
    var bq := AddressBits(tail);
    HeadBits(tail);
    SliceOfConcat(AddressBits(pre), bq, r);
  }

  /** The first eight bits of a non-empty address are its first byte's. */
  lemma HeadBits(a: seq<bv8>)
    requires a != []
    ensures forall r :: 0 <= r <= 8 ==> AddressBits(a)[..r] == ByteBits(a[0])[..r]
  {
  }

  lemma SliceOfConcat<T>(x: seq<T>, y: seq<T>, r: nat)
    requires r <= |y|
    ensures (x + y)[..|x| + r] == x + y[..r]
  {
  }

  lemma ConcatEqual<T>(x1: seq<T>, y1: seq<T>, x2: seq<T>, y2: seq<T>)
    requires |x1| == |x2|
    ensures x1 + y1 == x2 + y2 <==> x1 == x2 && y1 == y2
  {
    if x1 + y1 == x2 + y2 {
      assert x1 == (x1 + y1)[..|x1|];
      assert x2 == (x2 + y2)[..|x2|];
      assert y1 == (x1 + y1)[|x1|..];
      assert y2 == (x2 + y2)[|x2|..];
    }
  }

  /** The top `r` bits of a byte as a mask. */
  function TopBits(r: int): bv8
    requires 0 <= r <= 8
  {
    if r == 0 then 0x00 else if r == 1 then 0x80 else if r == 2 then 0xC0
    else if r == 3 then 0xE0 else if r == 4 then 0xF0 else if r == 5 then 0xF8
    else if r == 6 then 0xFC else if r == 7 then 0xFE else 0xFF
  }

  /** The wide PHP mask keeps exactly the top `r` bits of a byte. */
  lemma MaskedIsTopBits(x: bv8, r: int)
    requires 0 <= r <= 8
    ensures MaskedByte(x, r) == (x & TopBits(r)) as bv16
  {
  }

  lemma WidenInjective(a: bv8, b: bv8)
    ensures (a as bv16 == b as bv16) <==> a == b
  {
  }

  // One lemma per prefix width keeps each bit-vector query small. A single
  // lemma over a symbolic width (by induction on the width, or by a loop over
  // the bits) needs between 1.1 and 30 million solver resource units,
  // depending on the formulation and the random seed, which is beyond the
  // limit of 2 million per proof obligation this project is verified under.
  // Each per-width lemma below needs under half a million.

  lemma TopBitsAgree1(x: bv8, y: bv8)
    ensures ByteBits(x)[..1] == ByteBits(y)[..1] <==> x & 0x80 == y & 0x80
  {
    var xs, ys := ByteBits(x), ByteBits(y);
    assert xs[..1] == [xs[0]];
    assert ys[..1] == [ys[0]];
  }

  lemma TopBitsAgree2(x: bv8, y: bv8)
    ensures ByteBits(x)[..2] == ByteBits(y)[..2] <==> x & 0xC0 == y & 0xC0
  {
    var xs, ys := ByteBits(x), ByteBits(y);
    assert xs[..2] == [xs[0], xs[1]];
    assert ys[..2] == [ys[0], ys[1]];
  }

  lemma TopBitsAgree3(x: bv8, y: bv8)
    ensures ByteBits(x)[..3] == ByteBits(y)[..3] <==> x & 0xE0 == y & 0xE0
  {
    var xs, ys := ByteBits(x), ByteBits(y);
    assert xs[..3] == [xs[0], xs[1], xs[2]];
    assert ys[..3] == [ys[0], ys[1], ys[2]];
  }

  lemma TopBitsAgree4(x: bv8, y: bv8)
    ensures ByteBits(x)[..4] == ByteBits(y)[..4] <==> x & 0xF0 == y & 0xF0
  {
    var xs, ys := ByteBits(x), ByteBits(y);
    assert xs[..4] == [xs[0], xs[1], xs[2], xs[3]];
    assert ys[..4] == [ys[0], ys[1], ys[2], ys[3]];
  }

  lemma TopBitsAgree5(x: bv8, y: bv8)
    ensures ByteBits(x)[..5] == ByteBits(y)[..5] <==> x & 0xF8 == y & 0xF8
  {
    var xs, ys := ByteBits(x), ByteBits(y);
    assert xs[..5] == [xs[0], xs[1], xs[2], xs[3], xs[4]];
    assert ys[..5] == [ys[0], ys[1], ys[2], ys[3], ys[4]];
  }

  lemma TopBitsAgree6(x: bv8, y: bv8)
    ensures ByteBits(x)[..6] == ByteBits(y)[..6] <==> x & 0xFC == y & 0xFC
  {
    var xs, ys := ByteBits(x), ByteBits(y);
    assert xs[..6] == [xs[0], xs[1], xs[2], xs[3], xs[4], xs[5]];
    assert ys[..6] == [ys[0], ys[1], ys[2], ys[3], ys[4], ys[5]];
  }

  lemma TopBitsAgree7(x: bv8, y: bv8)
    ensures ByteBits(x)[..7] == ByteBits(y)[..7] <==> x & 0xFE == y & 0xFE
  {
    var xs, ys := ByteBits(x), ByteBits(y);
    assert xs[..7] == [xs[0], xs[1], xs[2], xs[3], xs[4], xs[5], xs[6]];
    assert ys[..7] == [ys[0], ys[1], ys[2], ys[3], ys[4], ys[5], ys[6]];
  }

  lemma TopBitsAgree8(x: bv8, y: bv8)
    ensures ByteBits(x)[..8] == ByteBits(y)[..8] <==> x & 0xFF == y & 0xFF
  {
    var xs, ys := ByteBits(x), ByteBits(y);
    assert xs[..8] == [xs[0], xs[1], xs[2], xs[3], xs[4], xs[5], xs[6], xs[7]];
    assert ys[..8] == [ys[0], ys[1], ys[2], ys[3], ys[4], ys[5], ys[6], ys[7]];
  }

  /** The first `r` bits of two bytes agree exactly when the bytes agree under
      the mask `0xff << (8 - r)`. */
  lemma ByteMask(x: bv8, y: bv8, r: int)
    requires 0 <= r <= 8
    ensures ByteBits(x)[..r] == ByteBits(y)[..r] <==> MaskedByte(x, r) == MaskedByte(y, r)
  {
    MaskedIsTopBits(x, r);
    MaskedIsTopBits(y, r);
    WidenInjective(x & TopBits(r), y & TopBits(r));
    if r == 1 { TopBitsAgree1(x, y); }
    else if r == 2 { TopBitsAgree2(x, y); }
    else if r == 3 { TopBitsAgree3(x, y); }
    else if r == 4 { TopBitsAgree4(x, y); }
    else if r == 5 { TopBitsAgree5(x, y); }
    else if r == 6 { TopBitsAgree6(x, y); }
    else if r == 7 { TopBitsAgree7(x, y); }
    else if r == 8 { TopBitsAgree8(x, y); }
  }

  // ---------------------------------------------------------------------------
  // The comparison decides prefix agreement
  // ---------------------------------------------------------------------------

  /** For every prefix length, the byte-and-mask comparison holds exactly when
      the first `bits` bits agree, with `bits` clamped to the address width:
      a non-positive prefix matches every address of the family and a prefix
      at or beyond the width demands equal addresses. */
  lemma PrefixMatchIsPrefixAgreement(ip: seq<bv8>, subnet: seq<bv8>, bits: int)
    requires |ip| == |subnet|
    ensures PrefixMatch(ip, subnet, bits) <==> PrefixAgree(ip, subnet, Clamp(bits, 0, 8 * |ip|))
  {
    if bits <= 0 {
    } else if bits < 8 * |ip| {
      PartialPrefixMatch(ip, subnet, bits);
    } else {
      FullPrefixMatch(ip, subnet, bits);
    }
  }

  /** A prefix inside the address: whole bytes compared, then the top bits
      of the next byte. */
  lemma PartialPrefixMatch(ip: seq<bv8>, subnet: seq<bv8>, bits: int)
    requires |ip| == |subnet| && 0 < bits < 8 * |ip|
    ensures PrefixMatch(ip, subnet, bits) <==> PrefixAgree(ip, subnet, bits)
  {
    var q, r := bits / 8, bits % 8;
    assert TruncDiv(bits, 8) == q && PhpMod(bits, 8) == r;
    assert q < |ip|;
    assert StrncmpEqual(ip, subnet, q) <==> ip[..q] == subnet[..q];
    BitsOfPrefix(ip, q, r);
    BitsOfPrefix(subnet, q, r);
    ConcatEqual(AddressBits(ip[..q]), ByteBits(ip[q])[..r], AddressBits(subnet[..q]), ByteBits(subnet[q])[..r]);
    if AddressBits(ip[..q]) == AddressBits(subnet[..q]) {
      AddressBitsInjective(ip[..q], subnet[..q]);
    }
    ByteMask(ip[q], subnet[q], r);
  }

  /** A prefix covering the whole address: every byte is compared. */
  lemma FullPrefixMatch(ip: seq<bv8>, subnet: seq<bv8>, bits: int)
    requires |ip| == |subnet| && 0 < bits && 8 * |ip| <= bits
    ensures PrefixMatch(ip, subnet, bits) <==> PrefixAgree(ip, subnet, 8 * |ip|)
  {
    var width := 8 * |ip|;
    var q := bits / 8;
    assert TruncDiv(bits, 8) == q && q >= |ip|;
    assert ip[..|ip|] == ip && subnet[..|subnet|] == subnet;
    assert StrncmpEqual(ip, subnet, q) <==> ip == subnet;
    assert AddressBits(ip)[..width] == AddressBits(ip);
    assert AddressBits(subnet)[..width] == AddressBits(subnet);
    if AddressBits(ip) == AddressBits(subnet) {
      AddressBitsInjective(ip, subnet);
    }
  }
}
