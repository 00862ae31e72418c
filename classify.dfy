/**
 * The two address classifiers shown beside a result: the classful network
 * class (section 3.2 of RFC 791, with class D for multicast and E reserved)
 * and the special-purpose type (private blocks of section 3 of RFC 1918,
 * loopback 127/8 of section 3.2.1.3 of RFC 1122, link-local 169.254/16 of
 * RFC 3927). Both read the address text the same way `parseInt` does.
 */
module Classify {
  import opened Wrappers
  import opened Text
  import opened Bits
  import opened IPv4
  import opened Masks
  import opened Subnet

  datatype NetworkClass = ClassA | ClassB | ClassC | ClassD | ClassE | Unknown

  datatype NetworkType = Private | Loopback | Apipa | Public

  /**
   * `parseInt(ip.split('.')[i], 10)`: the number in the `i`-th dotted field,
   * or `None` (NaN) when that field is missing or not a number.
   */
  function FieldValue(ip: string, i: nat): (r: Option<int>)
    ensures IsValidIP(ip) && i < 4 ==> r == Some(Octets(ip)[i])
  {
    var parts := Split(ip, '.');
    if i < |parts| then ParseInt(parts[i]) else None
  }

  /**
   * `getNetworkClass`: the class of the first octet; NaN and out-of-range
   * values are `Unknown`. On a valid address it depends on the first octet alone.
   */
  function GetNetworkClass(ip: string): (c: NetworkClass)
    ensures IsValidIP(ip) ==> c == ClassOf(Some(Octets(ip)[0]))
  {
    ClassOf(FieldValue(ip, 0))
  }

  /**
   * The range tests of `getNetworkClass` on the parsed first octet. The five
   * ranges cover every octet but 0 and 127.
   */
  function ClassOf(first: Option<int>): (c: NetworkClass)
    ensures c != Unknown <==> first.Some? && 1 <= first.value <= 255 && first.value != 127
  {
    match first
    case None => Unknown
    case Some(x) =>
      if 1 <= x <= 126 then ClassA
      else if 128 <= x <= 191 then ClassB
      else if 192 <= x <= 223 then ClassC
      else if 224 <= x <= 239 then ClassD
      else if 240 <= x <= 255 then ClassE
      else Unknown
  }

  /**
   * `getNetworkType`: the first of the private, loopback and link-local
   * tests that the first two octets pass, else `Public`.
   */
  function GetNetworkType(ip: string): (t: NetworkType)
    ensures IsValidIP(ip) ==> t == TypeOf(Some(Octets(ip)[0]), Some(Octets(ip)[1]))
  {
    TypeOf(FieldValue(ip, 0), FieldValue(ip, 1))
  }

  /**
   * The tests of `getNetworkType` on the parsed first two octets, in the
   * source's order. A comparison with NaN is false, so a missing or
   * non-numeric field passes none of them. No private test shadows the
   * loopback or link-local one: each of those holds exactly on its block.
   */
  function TypeOf(first: Option<int>, second: Option<int>): (t: NetworkType)
    ensures t == Loopback <==> first == Some(127)
    ensures t == Apipa <==> first == Some(169) && second == Some(254)
    ensures first.None? ==> t == Public
  {
    if first == Some(10) then Private
    else if first == Some(172) && second.Some? && 16 <= second.value <= 31 then Private
    else if first == Some(192) && second == Some(168) then Private
    else if first == Some(127) then Loopback
    else if first == Some(169) && second == Some(254) then Apipa
    else Public
  }

  /** `a` lies in the CIDR block `base/p`: masking `a` to `p` bits gives `base`. */
  predicate InBlock(a: seq<int>, base: seq<int>, p: int)
    requires IsAddress(a) && 0 <= p <= 32
  {
    NetworkAddress(a, PrefixMask(p)) == base
  }

  /** The network of a prefix of at most 8 bits keeps the leading prefix bits of the first octet. */
  lemma NetworkOfFirstOctetPrefix(a: seq<int>, p: int)
    requires IsAddress(a) && 1 <= p <= 8
    ensures var n := NetworkAddress(a, PrefixMask(p));
      n[0] == a[0] - a[0] % Pow2(8 - p) && n[1] == 0 && n[2] == 0 && n[3] == 0
  {
    var n := NetworkAddress(a, PrefixMask(p));
    assert n[0] == BitAnd(a[0], OctetMask(p)) && n[1] == BitAnd(a[1], OctetMask(p - 8));
    assert n[2] == BitAnd(a[2], OctetMask(p - 16)) && n[3] == BitAnd(a[3], OctetMask(p - 24));
    OctetAtPrefixEnd(a[0], p, 8 - p);
    OctetOutsidePrefix(a[1], p - 8);
    OctetOutsidePrefix(a[2], p - 16);
    OctetOutsidePrefix(a[3], p - 24);
  }

  /**
   * The network of a prefix of 9 to 16 bits keeps the first octet and the
   * leading prefix bits of the second.
   */
  lemma NetworkOfSecondOctetPrefix(a: seq<int>, p: int)
    requires IsAddress(a) && 8 < p <= 16
    ensures var n := NetworkAddress(a, PrefixMask(p));
      n[0] == a[0] && n[1] == a[1] - a[1] % Pow2(16 - p) && n[2] == 0 && n[3] == 0
  {
    var n := NetworkAddress(a, PrefixMask(p));
    assert n[0] == BitAnd(a[0], OctetMask(p)) && n[1] == BitAnd(a[1], OctetMask(p - 8));
    assert n[2] == BitAnd(a[2], OctetMask(p - 16)) && n[3] == BitAnd(a[3], OctetMask(p - 24));
    OctetInsidePrefix(a[0], p);
    OctetAtPrefixEnd(a[1], p - 8, 16 - p);
    OctetOutsidePrefix(a[2], p - 16);
    OctetOutsidePrefix(a[3], p - 24);
  }

  /** Two four-element sequences are equal exactly when their elements are. */
  lemma EqualFour(n: seq<int>, b: seq<int>)
    requires |n| == 4 && |b| == 4
    ensures n == b <==> n[0] == b[0] && n[1] == b[1] && n[2] == b[2] && n[3] == b[3]
  {
    if n[0] == b[0] && n[1] == b[1] && n[2] == b[2] && n[3] == b[3] {
      assert forall i :: 0 <= i < 4 ==> n[i] == b[i];
    }
  }

  /** A block of at most 8 bits is a range of first octets. */
  lemma InFirstOctetBlock(a: seq<int>, x: int, p: int)
    requires IsAddress(a) && 1 <= p <= 8
    ensures InBlock(a, [x, 0, 0, 0], p) <==> a[0] - a[0] % Pow2(8 - p) == x
  {
    NetworkOfFirstOctetPrefix(a, p);
    EqualFour(NetworkAddress(a, PrefixMask(p)), [x, 0, 0, 0]);
  }

  /** A block of 9 to 16 bits fixes the first octet and is a range of second octets. */
  lemma InSecondOctetBlock(a: seq<int>, x: int, y: int, p: int)
    requires IsAddress(a) && 8 < p <= 16
    ensures InBlock(a, [x, y, 0, 0], p) <==> a[0] == x && a[1] - a[1] % Pow2(16 - p) == y
  {
    NetworkOfSecondOctetPrefix(a, p);
    EqualFour(NetworkAddress(a, PrefixMask(p)), [x, y, 0, 0]);
  }

  /**
   * The classes are CIDR blocks of the first octet's leading bits: A is 0/1
   * without 0 and 127, B is 128/2, C is 192/3, D (multicast) is 224/4 and
   * E (reserved) is 240/4.
   */
  lemma ClassesAsBlocks(a: seq<int>)
    requires IsAddress(a)
    ensures var c := ClassOf(Some(a[0]));
      (c == ClassA <==> InBlock(a, [0, 0, 0, 0], 1) && a[0] != 0 && a[0] != 127) &&
      (c == ClassB <==> InBlock(a, [128, 0, 0, 0], 2)) &&
      (c == ClassC <==> InBlock(a, [192, 0, 0, 0], 3)) &&
      (c == ClassD <==> InBlock(a, [224, 0, 0, 0], 4)) &&
      (c == ClassE <==> InBlock(a, [240, 0, 0, 0], 4)) &&
      (c == Unknown <==> a[0] == 0 || a[0] == 127)
  {
    ClassBlocks(a);
    ClassOfBlocks(a[0], InBlock(a, [0, 0, 0, 0], 1), InBlock(a, [128, 0, 0, 0], 2),
      InBlock(a, [192, 0, 0, 0], 3), InBlock(a, [224, 0, 0, 0], 4), InBlock(a, [240, 0, 0, 0], 4));
  }

  /** The class blocks as ranges of the first octet. */
  lemma ClassBlocks(a: seq<int>)
    requires IsAddress(a)
    ensures InBlock(a, [0, 0, 0, 0], 1) <==> a[0] < 128
    ensures InBlock(a, [128, 0, 0, 0], 2) <==> 128 <= a[0] < 192
    ensures InBlock(a, [192, 0, 0, 0], 3) <==> 192 <= a[0] < 224
    ensures InBlock(a, [224, 0, 0, 0], 4) <==> 224 <= a[0] < 240
    ensures InBlock(a, [240, 0, 0, 0], 4) <==> 240 <= a[0]
  {
    var x := a[0];
    assert InBlock(a, [0, 0, 0, 0], 1) <==> x < 128 by {
      LeadingBits(x);
      assert Pow2(7) == 128;
      InFirstOctetBlock(a, 0, 1);
    }
    assert InBlock(a, [128, 0, 0, 0], 2) <==> 128 <= x < 192 by {
      LeadingBits(x);
      assert Pow2(6) == 64;
      InFirstOctetBlock(a, 128, 2);
    }
    assert InBlock(a, [192, 0, 0, 0], 3) <==> 192 <= x < 224 by {
      LeadingBits(x);
      assert Pow2(5) == 32;
      InFirstOctetBlock(a, 192, 3);
    }
    assert InBlock(a, [224, 0, 0, 0], 4) <==> 224 <= x < 240 by {
      LeadingBits(x);
      assert Pow2(4) == 16;
      InFirstOctetBlock(a, 224, 4);
    }
    assert InBlock(a, [240, 0, 0, 0], 4) <==> 240 <= x by {
      LeadingBits(x);
      assert Pow2(4) == 16;
      InFirstOctetBlock(a, 240, 4);
    }
  }

  /** The range tests of `ClassOf` read as membership in the class blocks. */
  lemma ClassOfBlocks(x: int, zero: bool, b128: bool, b192: bool, b224: bool, b240: bool)
    requires 0 <= x <= 255
    requires zero <==> x < 128
    requires b128 <==> 128 <= x < 192
    requires b192 <==> 192 <= x < 224
    requires b224 <==> 224 <= x < 240
    requires b240 <==> 240 <= x
    ensures var c := ClassOf(Some(x));
      (c == ClassA <==> zero && x != 0 && x != 127) &&
      (c == ClassB <==> b128) &&
      (c == ClassC <==> b192) &&
      (c == ClassD <==> b224) &&
      (c == ClassE <==> b240) &&
      (c == Unknown <==> x == 0 || x == 127)
  {
  }

  /** The leading-bit patterns of the five classes and of 172.16/12, as ranges of an octet. */
  lemma LeadingBits(x: int)
    requires IsOctet(x)
    ensures x - x % 128 == 0 <==> x < 128
    ensures x - x % 64 == 128 <==> 128 <= x < 192
    ensures x - x % 32 == 192 <==> 192 <= x < 224
    ensures x - x % 16 == 224 <==> 224 <= x < 240
    ensures x - x % 16 == 240 <==> 240 <= x
    ensures x - x % 16 == 16 <==> 16 <= x < 32
  {
  }

  /**
   * The types are the special-purpose blocks: private is 10/8, 172.16/12 or
   * 192.168/16, loopback is 127/8, link-local is 169.254/16, and everything
   * else is public. The blocks are disjoint, so the order of the tests does
   * not matter.
   */
  lemma TypesAsBlocks(a: seq<int>)
    requires IsAddress(a)
    ensures var t := TypeOf(Some(a[0]), Some(a[1]));
      var private := InBlock(a, [10, 0, 0, 0], 8) || InBlock(a, [172, 16, 0, 0], 12) || InBlock(a, [192, 168, 0, 0], 16);
      var loopback := InBlock(a, [127, 0, 0, 0], 8);
      var linkLocal := InBlock(a, [169, 254, 0, 0], 16);
      (t == Private <==> private) &&
      (t == Loopback <==> loopback) &&
      (t == Apipa <==> linkLocal) &&
      (t == Public <==> !private && !loopback && !linkLocal)
  {
    SpecialBlocks(a);
    TypeOfBlocks(a[0], a[1], InBlock(a, [10, 0, 0, 0], 8), InBlock(a, [172, 16, 0, 0], 12),
      InBlock(a, [192, 168, 0, 0], 16), InBlock(a, [127, 0, 0, 0], 8), InBlock(a, [169, 254, 0, 0], 16));
  }

  /** The tests of `TypeOf` read as membership in the blocks whose conditions they check. */
  lemma TypeOfBlocks(x: int, y: int, ten: bool, b172: bool, b192: bool, loop: bool, link: bool)
    requires ten <==> x == 10
    requires b172 <==> x == 172 && 16 <= y < 32
    requires b192 <==> x == 192 && y == 168
    requires loop <==> x == 127
    requires link <==> x == 169 && y == 254
    ensures var t := TypeOf(Some(x), Some(y));
      (t == Private <==> ten || b172 || b192) &&
      (t == Loopback <==> loop) &&
      (t == Apipa <==> link) &&
      (t == Public <==> !(ten || b172 || b192) && !loop && !link)
  {
  }

  /** The special-purpose blocks as conditions on the first two octets. */
  lemma SpecialBlocks(a: seq<int>)
    requires IsAddress(a)
    ensures InBlock(a, [10, 0, 0, 0], 8) <==> a[0] == 10
    ensures InBlock(a, [127, 0, 0, 0], 8) <==> a[0] == 127
    ensures InBlock(a, [172, 16, 0, 0], 12) <==> a[0] == 172 && 16 <= a[1] < 32
    ensures InBlock(a, [192, 168, 0, 0], 16) <==> a[0] == 192 && a[1] == 168
    ensures InBlock(a, [169, 254, 0, 0], 16) <==> a[0] == 169 && a[1] == 254
  {
    assert InBlock(a, [10, 0, 0, 0], 8) <==> a[0] == 10 by {
      InFirstOctetBlock(a, 10, 8);
      assert Pow2(0) == 1 && a[0] % 1 == 0;
    }
    assert InBlock(a, [127, 0, 0, 0], 8) <==> a[0] == 127 by {
      InFirstOctetBlock(a, 127, 8);
      assert Pow2(0) == 1 && a[0] % 1 == 0;
    }
    assert InBlock(a, [172, 16, 0, 0], 12) <==> a[0] == 172 && 16 <= a[1] < 32 by {
      InSecondOctetBlock(a, 172, 16, 12);
      LeadingBits(a[1]);
      assert Pow2(4) == 16;
    }
    assert InBlock(a, [192, 168, 0, 0], 16) <==> a[0] == 192 && a[1] == 168 by {
      InSecondOctetBlock(a, 192, 168, 16);
      assert Pow2(0) == 1 && a[1] % 1 == 0;
    }
    assert InBlock(a, [169, 254, 0, 0], 16) <==> a[0] == 169 && a[1] == 254 by {
      InSecondOctetBlock(a, 169, 254, 16);
      assert Pow2(0) == 1 && a[1] % 1 == 0;
    }
  }
}
