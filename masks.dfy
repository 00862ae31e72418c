/**
 * Conversions between a CIDR prefix length (section 3.1 of RFC 4632) and a
 * dotted subnet mask: `cidrToSubnetMask`, `subnetMaskToCidr`, and the binary
 * rendering of a mask.
 */
module Masks {
  import opened Text
  import opened Bits
  import opened IPv4

  /** `Math.min(Math.max(k, 0), 8)`: how many of an octet's bits a prefix covers. */
  function Clamp8(k: int): (c: nat)
    ensures c <= 8 && (k <= 0 ==> c == 0) && (k >= 8 ==> c == 8) && (0 <= k <= 8 ==> c == k)
  {
    if k < 0 then 0 else if k > 8 then 8 else k
  }

  /** The powers of two an octet mask is built from. */
  lemma Pow2UpTo8(j: nat)
    requires j <= 8
    ensures Pow2(j) in {1, 2, 4, 8, 16, 32, 64, 128, 256}
    ensures Pow2(j) == 1 <==> j == 0
    ensures Pow2(j) == 256 <==> j == 8
  {
    if j == 0 {} else if j == 1 {} else if j == 2 {} else if j == 3 {}
    else if j == 4 {} else if j == 5 {} else if j == 6 {} else if j == 7 {}
    else { assert Pow2(8) == 256; }
  }

  /** The mask octet whose leading `Clamp8(k)` bits are one and the others zero. */
  function OctetMask(k: int): (m: int)
    ensures IsOctet(m)
  {
    Pow2UpTo8(8 - Clamp8(k));
    256 - Pow2(8 - Clamp8(k))
  }

  /** The mask of prefix `p`, octet by octet: octet `i` holds the prefix bits `8i .. 8i+7`. */
  function PrefixMask(p: int): (m: seq<int>)
    requires 0 <= p <= 32
    ensures IsAddress(m)
  {
    seq(4, i requires 0 <= i < 4 => OctetMask(p - 8 * i))
  }

  /**
   * `cidrToSubnetMask`: four rounds that each take up to eight of the
   * remaining prefix bits and push the octet they make.
   */
  method CidrToSubnetMask(cidr: int) returns (mask: seq<int>)
    requires 0 <= cidr <= 32
    ensures mask == PrefixMask(cidr)
    ensures IsAddress(mask) && ToU32(mask) == Pow2(32) - Pow2(32 - cidr)
  {
    mask := [];
    var remaining := cidr;
    for i := 0 to 4
      invariant remaining == if cidr < 8 * i then 0 else cidr - 8 * i
      invariant mask == PrefixMask(cidr)[..i]
    {
      var n := if remaining < 8 then remaining else 8;
      mask := mask + [256 - Pow2(8 - n)];
      remaining := remaining - n;
    }
    PrefixMaskValue(cidr);
  }

  /**
   * `subnetMaskToCidr`: the number of '1' digits in the base-2 text of every
   * octet, summed. Nothing checks that the ones are contiguous.
   */
  function SubnetMaskToCidr(mask: seq<int>): (r: nat)
    requires forall i :: 0 <= i < |mask| ==> IsOctet(mask[i])
    ensures r <= 8 * |mask|
  {
    if mask == [] then 0
    else
      assert IsOctet(mask[0]);
      Pow2Octet();
      ToBinaryLength(mask[0], 8);
      CountOnes(ToBinary(mask[0])) + SubnetMaskToCidr(mask[1..])
  }

  // ---------------------------------------------------------------------
  // Shape of a prefix mask

  /** A mask octet is one of the nine values with contiguous leading ones. */
  lemma OctetMaskValues(k: int)
    ensures OctetMask(k) in {0, 128, 192, 224, 240, 248, 252, 254, 255}
    ensures OctetMask(k) == 255 <==> k >= 8
    ensures OctetMask(k) == 0 <==> k <= 0
  {
    Pow2UpTo8(8 - Clamp8(k));
  }

  /**
   * Octet `i` of the mask of `p` is 255 when the prefix covers all of it and
   * 0 when the prefix ends before it.
   */
  lemma PrefixMaskOctets(p: int, i: int)
    requires 0 <= p <= 32 && 0 <= i < 4
    ensures PrefixMask(p)[i] in {0, 128, 192, 224, 240, 248, 252, 254, 255}
    ensures PrefixMask(p)[i] == 255 <==> p >= 8 * (i + 1)
    ensures PrefixMask(p)[i] == 0 <==> p <= 8 * i
  {
    OctetMaskValues(p - 8 * i);
  }

  /** `toString(2)` of a mask octet: "0", or its ones followed by its zeros. */
  lemma OctetMaskDigits(k: int)
    ensures Clamp8(k) == 0 ==> ToBinary(OctetMask(k)) == "0"
    ensures Clamp8(k) > 0 ==> ToBinary(OctetMask(k)) == Repeat('1', Clamp8(k)) + Repeat('0', 8 - Clamp8(k))
  {
    var c := Clamp8(k);
    var m := OctetMask(k);
    assert m == 256 - Pow2(8 - c);
    Pow2Octet();
    if c == 0 {
      assert m == 0;
    } else {
      ToBinaryOnesThenZeros(8, 8 - c, m);
    }
  }

  /** The base-2 text of a mask octet: its ones, then its zeros, eight digits in all. */
  lemma OctetMaskBinary(k: int)
    ensures OctetBinary(OctetMask(k)) == Repeat('1', Clamp8(k)) + Repeat('0', 8 - Clamp8(k))
  {
    OctetMaskDigits(k);
    if Clamp8(k) == 0 {
      assert Repeat('0', 7) + "0" == Repeat('1', 0) + Repeat('0', 8);
    }
  }

  /** A mask octet has as many one digits as the prefix bits it holds. */
  lemma OctetMaskOnes(k: int)
    ensures CountOnes(ToBinary(OctetMask(k))) == Clamp8(k)
  {
    var c := Clamp8(k);
    OctetMaskDigits(k);
    if c > 0 {
      CountOnesAppend(Repeat('1', c), Repeat('0', 8 - c));
      CountOnesRepeat('1', c);
      CountOnesRepeat('0', 8 - c);
    }
  }

  /** The bits of octet `i` of prefix `p`, as numbers of leading ones. */
  lemma {:induction false} SetBitsOfPrefixMask(p: int, i: nat)
    requires 0 <= p <= 32 && i <= 4
    ensures SubnetMaskToCidr(PrefixMask(p)[i..]) == Clamp8(p - 8 * i) + Clamp8(p - 8 * (i + 1)) + Clamp8(p - 8 * (i + 2)) + Clamp8(p - 8 * (i + 3))
    decreases 4 - i
  {
    if i < 4 {
      var m := PrefixMask(p);
      assert m[i..][1..] == m[i + 1..];
      SetBitsOfPrefixMask(p, i + 1);
      OctetMaskOnes(p - 8 * i);
    }
  }

  /** Round trip: converting the mask of `p` back to a prefix gives `p`. */
  lemma MaskRoundTrip(p: int)
    requires 0 <= p <= 32
    ensures SubnetMaskToCidr(PrefixMask(p)) == p
  {
    SetBitsOfPrefixMask(p, 0);
    assert PrefixMask(p)[0..] == PrefixMask(p);
  }

  /**
   * The conversion counts bits and does not check contiguity: 255.0.255.0,
   * which is the mask of no prefix, converts to 16.
   */
  lemma NonContiguousMaskCounted()
    ensures SubnetMaskToCidr([255, 0, 255, 0]) == 16
    ensures forall p :: 0 <= p <= 32 ==> PrefixMask(p) != [255, 0, 255, 0]
  {
    Pow2Octet();
    ToBinaryAllOnes(8);
    CountOnesRepeat('1', 8);
    var m := [255, 0, 255, 0];
    assert m[1..][1..][1..][1..] == [];
    assert SubnetMaskToCidr(m[1..][1..][1..]) == 0;
    forall p | 0 <= p <= 32 ensures PrefixMask(p) != m {
      PrefixMaskOctets(p, 1);
      PrefixMaskOctets(p, 2);
    }
  }

  // ---------------------------------------------------------------------
  // Value of a prefix mask

  /**
   * Splits prefix `p` into `q` full octets and a partial octet `q` with
   * `8 - j` prefix bits, so that the host part is `j` bits of octet `q`
   * followed by the `3 - q` octets after it.
   */
  lemma PrefixBracket(p: int) returns (q: nat, j: nat)
    requires 0 <= p <= 32
    ensures q == (if p == 32 then 3 else p / 8) && j <= 8 && p == 8 * q + 8 - j
    ensures Pow2(32 - p) == Pow2(j) * Pow2(8 * (3 - q))
    ensures forall i :: 0 <= i < q ==> Clamp8(p - 8 * i) == 8
    ensures Clamp8(p - 8 * q) == 8 - j
    ensures forall i :: q < i < 4 ==> Clamp8(p - 8 * i) == 0
  {
    q := if p == 32 then 3 else p / 8;
    j := 8 * q + 8 - p;
    Pow2Add(j, 8 * (3 - q));
  }

  /** The octets of the mask of `p`: 255 before octet `q`, `256 - 2^j` at it, 0 after it. */
  lemma PrefixMaskShape(p: int) returns (q: nat, j: nat)
    requires 0 <= p <= 32
    ensures q <= 3 && j <= 8 && p == 8 * q + 8 - j
    ensures Pow2(32 - p) == Pow2(j) * Pow2(8 * (3 - q))
    ensures forall i :: 0 <= i < 4 ==>
      PrefixMask(p)[i] == if i < q then 255 else if i == q then 256 - Pow2(j) else 0
  {
    q, j := PrefixBracket(p);
    forall i | 0 <= i < 4
      ensures PrefixMask(p)[i] == if i < q then 255 else if i == q then 256 - Pow2(j) else 0
    {
      Pow2UpTo8(8 - Clamp8(p - 8 * i));
    }
  }

  /** The mask of `p` is, as a 32-bit number, `p` ones followed by `32 - p` zeros. */
  lemma PrefixMaskValue(p: int)
    requires 0 <= p <= 32
    ensures ToU32(PrefixMask(p)) == Pow2(32) - Pow2(32 - p)
  {
    var q, j := PrefixMaskShape(p);
    var m := PrefixMask(p);
    Pow2Octet();
    var lead := 256 - Pow2(j);
    assert m[0] == (if q == 0 then lead else 255);
    assert m[1] == (if q < 1 then 0 else if q == 1 then lead else 255);
    assert m[2] == (if q < 2 then 0 else if q == 2 then lead else 255);
    assert m[3] == (if q < 3 then 0 else lead);
    if q == 0 {
      assert Pow2(32 - p) == Pow2(j) * 0x100_0000;
    } else if q == 1 {
      assert Pow2(32 - p) == Pow2(j) * 0x1_0000;
    } else if q == 2 {
      assert Pow2(32 - p) == Pow2(j) * 0x100;
    } else {
      assert Pow2(0) == 1;
    }
  }

  // ---------------------------------------------------------------------
  // Binary rendering of a prefix mask

  /** The 32 characters of a dotted binary rendering, split into four groups of eight and joined by '.'. */
  function Grouped(bits: string): string
    requires |bits| == 32
  {
    Join(seq(4, i requires 0 <= i < 4 => bits[8 * i .. 8 * i + 8]), '.')
  }

  /** The `i`-th group of eight of `p` ones followed by `32 - p` zeros. */
  lemma PrefixBitsGroup(p: int, i: int)
    requires 0 <= p <= 32 && 0 <= i < 4
    ensures (Repeat('1', p) + Repeat('0', 32 - p))[8 * i .. 8 * i + 8]
      == Repeat('1', Clamp8(p - 8 * i)) + Repeat('0', 8 - Clamp8(p - 8 * i))
  {
    var bits := Repeat('1', p) + Repeat('0', 32 - p);
    var c := Clamp8(p - 8 * i);
    var g := Repeat('1', c) + Repeat('0', 8 - c);
    forall t | 0 <= t < 8 ensures bits[8 * i + t] == g[t] {
      assert bits[8 * i + t] == if 8 * i + t < p then '1' else '0';
      assert g[t] == if t < c then '1' else '0';
    }
  }

  /** `ipToBinary` of the mask of `p` is `p` ones then `32 - p` zeros, grouped by eight. */
  lemma PrefixMaskBinary(p: int)
    requires 0 <= p <= 32
    ensures IpToBinary(PrefixMask(p)) == Grouped(Repeat('1', p) + Repeat('0', 32 - p))
  {
    var bits := Repeat('1', p) + Repeat('0', 32 - p);
    var groups := seq(4, i requires 0 <= i < 4 => bits[8 * i .. 8 * i + 8]);
    var m := PrefixMask(p);
    forall i | 0 <= i < 4 ensures OctetBinaries(m)[i] == groups[i] {
      assert m[i] == OctetMask(p - 8 * i);
      OctetMaskBinary(p - 8 * i);
      PrefixBitsGroup(p, i);
      assert groups[i] == bits[8 * i .. 8 * i + 8];
    }
    assert OctetBinaries(m) == groups;
    assert IpToBinary(m) == Join(groups, '.');
  }
}
