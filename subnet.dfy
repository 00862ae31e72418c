/**
 * Subnet arithmetic on octet sequences: network and broadcast addresses,
 * the first and last host, and the host and address counts.
 */
module Subnet {
  import opened Bits
  import opened IPv4
  import opened Masks

  /** OR of two octets is an octet. */
  lemma OrOfOctets()
    ensures forall x: nat, y: nat {:trigger BitOr(x, y)} :: x <= 255 && y <= 255 ==> BitOr(x, y) <= 255
  {
    forall x: nat, y: nat | x <= 255 && y <= 255 ensures BitOr(x, y) <= 255 {
      Pow2Octet();
      BitOrBound(x, y, 8);
    }
  }

  /** `calculateNetworkAddress`: the address AND the mask, octet by octet. */
  function NetworkAddress(ip: seq<int>, mask: seq<int>): (n: seq<int>)
    requires IsAddress(ip) && IsAddress(mask)
    ensures IsAddress(n)
    ensures forall i :: 0 <= i < 4 ==> n[i] <= ip[i] && n[i] <= mask[i]
  {
    seq(4, i requires 0 <= i < 4 => BitAnd(ip[i], mask[i]))
  }

  /** `calculateBroadcastAddress`: the network OR the wildcard bits `255 - mask`, octet by octet. */
  function BroadcastAddress(network: seq<int>, mask: seq<int>): (b: seq<int>)
    requires IsAddress(network) && IsAddress(mask)
    ensures IsAddress(b)
    ensures forall i :: 0 <= i < 4 ==> network[i] <= b[i] && 255 - mask[i] <= b[i]
  {
    OrOfOctets();
    seq(4, i requires 0 <= i < 4 => BitOr(network[i], 255 - mask[i]))
  }

  /**
   * `calculateHostCount`: `2^(32 - cidr) - 2`, with no clamping at /31 or
   * /32. It leaves out the network and broadcast addresses of the block, and
   * is positive exactly up to /30.
   */
  function HostCount(cidr: int): (r: int)
    requires 0 <= cidr <= 32
    ensures r + 2 == TotalAddresses(cidr)
    ensures r > 0 <==> cidr <= 30
    ensures r >= -1
  {
    Pow2AtLeastFour(32 - cidr);
    Pow2(32 - cidr) - 2
  }

  /**
   * `Math.pow(2, 32 - cidr)`: the number of addresses the prefix spans. The
   * `2^cidr` blocks of that size tile the whole 32-bit space.
   */
  function TotalAddresses(cidr: int): (r: nat)
    requires 0 <= cidr <= 32
    ensures r >= 1
    ensures r * Pow2(cidr) == Pow2(32)
  {
    Pow2Add(32 - cidr, cidr);
    Pow2(32 - cidr)
  }

  // ---------------------------------------------------------------------
  // Network and broadcast for any mask

  /** Recomputing the network of a network with the same mask returns it unchanged. */
  lemma NetworkIdempotent(ip: seq<int>, mask: seq<int>)
    requires IsAddress(ip) && IsAddress(mask)
    ensures NetworkAddress(NetworkAddress(ip, mask), mask) == NetworkAddress(ip, mask)
  {
    var n := NetworkAddress(ip, mask);
    forall i | 0 <= i < 4 ensures NetworkAddress(n, mask)[i] == n[i] {
      BitAndIdempotent(ip[i], mask[i]);
    }
  }

  /** The broadcast address lies in the same network: `broadcast & mask == network`. */
  lemma BroadcastInNetwork(ip: seq<int>, mask: seq<int>)
    requires IsAddress(ip) && IsAddress(mask)
    ensures var n := NetworkAddress(ip, mask);
      NetworkAddress(BroadcastAddress(n, mask), mask) == n
  {
    var n := NetworkAddress(ip, mask);
    var b := BroadcastAddress(n, mask);
    Pow2Octet();
    forall i | 0 <= i < 4 ensures NetworkAddress(b, mask)[i] == n[i] {
      MaskedOrComplement(ip[i], mask[i], 255 - mask[i], 8);
    }
  }

  // ---------------------------------------------------------------------
  // Network and broadcast for a prefix mask

  /**
   * Under a mask octet with `Clamp8(k)` leading ones, AND clears the low
   * `8 - Clamp8(k)` bits and OR with the wildcard sets them.
   */
  lemma OctetUnderMask(x: int, k: int)
    requires IsOctet(x)
    ensures BitAnd(x, OctetMask(k)) == x - x % Pow2(8 - Clamp8(k))
    ensures BitOr(BitAnd(x, OctetMask(k)), 255 - OctetMask(k)) == x - x % Pow2(8 - Clamp8(k)) + Pow2(8 - Clamp8(k)) - 1
  {
    var j: nat := 8 - Clamp8(k);
    var m := OctetMask(k);
    assert m == 256 - Pow2(j);
    AndOrUnderHighMask(x, j, m);
  }

  /** The same for a mask octet `m` whose complement to 256 is `2^j`. */
  lemma AndOrUnderHighMask(x: int, j: nat, m: nat)
    requires IsOctet(x) && j <= 8 && m + Pow2(j) == 256
    ensures BitAnd(x, m) == x - x % Pow2(j)
    ensures BitOr(BitAnd(x, m), 255 - m) == x - x % Pow2(j) + Pow2(j) - 1
  {
    var n := BitAnd(x, m);
    assert n == x - x % Pow2(j) by {
      Pow2Octet();
      BitAndHighMask(x, 8, j, m);
    }
    RoundDownIsMultiple(x, Pow2(j));
    BitOrLowOnes(n, j);
  }

  /**
   * The octets of the network and broadcast of `ip` under the mask of `p`:
   * octets before `q` are copied, octet `q` keeps its high `8 - j` bits
   * (broadcast: and sets the low `j`), and later octets become 0 (broadcast: 255).
   */
  lemma PrefixNetworkShape(ip: seq<int>, p: int) returns (q: nat, j: nat)
    requires IsAddress(ip) && 0 <= p <= 32
    ensures q == (if p == 32 then 3 else p / 8) && j <= 8 && p == 8 * q + 8 - j
    ensures Pow2(32 - p) == Pow2(j) * Pow2(8 * (3 - q))
    ensures var n := NetworkAddress(ip, PrefixMask(p));
      var b := BroadcastAddress(n, PrefixMask(p));
      forall i :: 0 <= i < 4 ==>
        n[i] == (if i < q then ip[i] else if i == q then ip[q] - ip[q] % Pow2(j) else 0) &&
        b[i] == (if i < q then ip[i] else if i == q then ip[q] - ip[q] % Pow2(j) + Pow2(j) - 1 else 255)
  {
    q, j := PrefixBracket(p);
    forall i | 0 <= i < 4 ensures
      var n := NetworkAddress(ip, PrefixMask(p));
      var b := BroadcastAddress(n, PrefixMask(p));
      n[i] == (if i < q then ip[i] else if i == q then ip[q] - ip[q] % Pow2(j) else 0) &&
      b[i] == (if i < q then ip[i] else if i == q then ip[q] - ip[q] % Pow2(j) + Pow2(j) - 1 else 255)
    {
      PrefixOctet(ip, p, q, j, i);
    }
  }

  /** Octet `i` of the network and broadcast of `ip` under the mask of `p`. */
  lemma PrefixOctet(ip: seq<int>, p: int, q: nat, j: nat, i: nat)
    requires IsAddress(ip) && 0 <= p <= 32 && i < 4 && j <= 8 && p == 8 * q + 8 - j
    ensures var n := NetworkAddress(ip, PrefixMask(p));
      var b := BroadcastAddress(n, PrefixMask(p));
      n[i] == (if i < q then ip[i] else if i == q then ip[q] - ip[q] % Pow2(j) else 0) &&
      b[i] == (if i < q then ip[i] else if i == q then ip[q] - ip[q] % Pow2(j) + Pow2(j) - 1 else 255)
  {
    var m := PrefixMask(p);
    var n := NetworkAddress(ip, m);
    var b := BroadcastAddress(n, m);
    assert m[i] == OctetMask(p - 8 * i);
    assert n[i] == BitAnd(ip[i], m[i]);
    assert b[i] == BitOr(n[i], 255 - m[i]);
    OctetUnderPrefix(ip[i], p, q, j, i);
  }

  /** One octet of `PrefixNetworkShape`: octet `i` of an address under the mask of `p`. */
  lemma OctetUnderPrefix(x: int, p: int, q: nat, j: nat, i: nat)
    requires IsOctet(x) && i < 4 && j <= 8 && p == 8 * q + 8 - j
    ensures i < q ==> BitAnd(x, OctetMask(p - 8 * i)) == x && BitOr(x, 255 - OctetMask(p - 8 * i)) == x
    ensures i == q ==> (BitAnd(x, OctetMask(p - 8 * i)) == x - x % Pow2(j) &&
      BitOr(BitAnd(x, OctetMask(p - 8 * i)), 255 - OctetMask(p - 8 * i)) == x - x % Pow2(j) + Pow2(j) - 1)
    ensures q < i ==> BitAnd(x, OctetMask(p - 8 * i)) == 0 && BitOr(0, 255 - OctetMask(p - 8 * i)) == 255
  {
    var k := p - 8 * i;
    if i < q {
      OctetInsidePrefix(x, k);
    } else if i == q {
      OctetAtPrefixEnd(x, k, j);
    } else {
      OctetOutsidePrefix(x, k);
    }
  }

  /** An octet the prefix covers entirely is kept by the mask and untouched by the wildcard. */
  lemma OctetInsidePrefix(x: int, k: int)
    requires IsOctet(x) && k >= 8
    ensures BitAnd(x, OctetMask(k)) == x && BitOr(x, 255 - OctetMask(k)) == x
  {
    OctetUnderMask(x, k);
    assert Clamp8(k) == 8 && Pow2(0) == 1;
  }

  /** The octet where the prefix ends keeps its leading `8 - j` bits. */
  lemma OctetAtPrefixEnd(x: int, k: int, j: nat)
    requires IsOctet(x) && j <= 8 && k == 8 - j
    ensures BitAnd(x, OctetMask(k)) == x - x % Pow2(j)
    ensures BitOr(BitAnd(x, OctetMask(k)), 255 - OctetMask(k)) == x - x % Pow2(j) + Pow2(j) - 1
  {
    OctetUnderMask(x, k);
    assert 8 - Clamp8(k) == j;
  }

  /** An octet past the prefix is cleared by the mask and filled by the wildcard. */
  lemma OctetOutsidePrefix(x: int, k: int)
    requires IsOctet(x) && k <= 0
    ensures BitAnd(x, OctetMask(k)) == 0 && BitOr(0, 255 - OctetMask(k)) == 255
  {
    OctetUnderMask(x, k);
    Pow2Octet();
    assert Clamp8(k) == 0 && x % 256 == x;
  }

  /**
   * The arithmetic of one block: a number made of a high part `h`, an
   * octet `xq` and a low part `l` below the weight `w` loses exactly its
   * value modulo `2^j * w` when the low `j` bits of `xq` and all of `l` are cleared.
   */
  lemma BlockArith(u: int, nu: int, bu: int, h: nat, xq: nat, l: nat, w: nat, j: nat)
    requires xq <= 255 && j <= 8 && w >= 1 && l < w
    requires u == h * 256 * w + xq * w + l
    requires nu == h * 256 * w + (xq - xq % Pow2(j)) * w
    requires bu == nu + (Pow2(j) - 1) * w + (w - 1)
    ensures nu == u - u % (Pow2(j) * w) && bu == nu + Pow2(j) * w - 1
  {
    var d, e := Pow2(j), Pow2(8 - j);
    assert d * e == 256 by {
      Pow2Add(j, 8 - j);
      Pow2Octet();
    }
    assert d * w >= w by {
      MulLe(1, d, w);
    }
    assert nu == u - u % (d * w) by {
      BlockArithCore(h, xq, l, w, d, e);
    }
    assert bu == nu + d * w - 1 by {
      MulSubDistributes(d, 1, w);
    }
  }

  lemma BlockArithCore(h: int, xq: int, l: int, w: int, d: int, e: int)
    requires h >= 0 && xq >= 0 && w >= 1 && 0 <= l < w && d >= 1 && d * e == 256
    ensures var x := h * 256 * w + xq * w + l;
      h * 256 * w + (xq - xq % d) * w == x - x % (d * w)
  {
    var x := h * 256 * w + xq * w + l;
    var qt, rm := xq / d, xq % d;
    DivMod(xq, d);
    var t := h * e + qt;
    var r := rm * w + l;
    assert h * 256 * w == (d * w) * (h * e) by {
      assert 256 * w == (d * e) * w;
    }
    assert xq * w == (d * w) * qt + rm * w by {
      assert xq * w == (d * qt + rm) * w;
    }
    assert x == (d * w) * t + r;
    assert rm * w <= (d - 1) * w by {
      MulSubDistributes(d, 1, w);
      MulLe(rm, d - 1, w);
    }
    MulSubDistributes(d, 1, w);
    DivModUnique(x, d * w, t, r);
    assert (xq - rm) * w == (d * w) * qt;
  }

  /**
   * The 32-bit values of addresses of the shape `PrefixNetworkShape` gives:
   * `n` is `x` with everything below bit `j` of octet `q` cleared, `b` the
   * same with it set.
   */
  lemma BlockOfShape(x: seq<int>, n: seq<int>, b: seq<int>, q: nat, j: nat)
    requires IsAddress(x) && |n| == 4 && |b| == 4 && q <= 3 && j <= 8
    requires forall i :: 0 <= i < 4 ==>
      n[i] == (if i < q then x[i] else if i == q then x[q] - x[q] % Pow2(j) else 0) &&
      b[i] == (if i < q then x[i] else if i == q then x[q] - x[q] % Pow2(j) + Pow2(j) - 1 else 255)
    ensures ToU32(n) == ToU32(x) - ToU32(x) % (Pow2(j) * Pow2(8 * (3 - q)))
    ensures ToU32(b) == ToU32(n) + Pow2(j) * Pow2(8 * (3 - q)) - 1
  {
    var d := Pow2(j);
    var cut := x[q] - x[q] % d;
    Pow2Octet();
    assert n[0] == (if 0 < q then x[0] else if 0 == q then cut else 0);
    assert n[1] == (if 1 < q then x[1] else if 1 == q then cut else 0);
    assert n[2] == (if 2 < q then x[2] else if 2 == q then cut else 0);
    assert n[3] == (if 3 == q then cut else 0);
    assert b[0] == (if 0 < q then x[0] else if 0 == q then cut + d - 1 else 255);
    assert b[1] == (if 1 < q then x[1] else if 1 == q then cut + d - 1 else 255);
    assert b[2] == (if 2 < q then x[2] else if 2 == q then cut + d - 1 else 255);
    assert b[3] == (if 3 == q then cut + d - 1 else 255);
    var u, nu, bu := ToU32(x), ToU32(n), ToU32(b);
    if q == 0 {
      BlockArith(u, nu, bu, 0, x[0], x[1] * 0x1_0000 + x[2] * 0x100 + x[3], 0x100_0000, j);
    } else if q == 1 {
      BlockArith(u, nu, bu, x[0], x[1], x[2] * 0x100 + x[3], 0x1_0000, j);
    } else if q == 2 {
      BlockArith(u, nu, bu, x[0] * 0x100 + x[1], x[2], x[3], 0x100, j);
    } else {
      assert Pow2(0) == 1;
      BlockArith(u, nu, bu, x[0] * 0x1_0000 + x[1] * 0x100 + x[2], x[3], 0, 1, j);
    }
  }

  /**
   * With the mask of prefix `p`, the network address is the address rounded
   * down to a multiple of `2^(32 - p)` and the broadcast address is the last
   * of the `2^(32 - p)` addresses from there; the address lies between them.
   */
  lemma PrefixBlock(ip: seq<int>, p: int)
    requires IsAddress(ip) && 0 <= p <= 32
    ensures var n := NetworkAddress(ip, PrefixMask(p));
      var b := BroadcastAddress(n, PrefixMask(p));
      ToU32(n) == ToU32(ip) - ToU32(ip) % Pow2(32 - p) &&
      ToU32(b) == ToU32(n) + Pow2(32 - p) - 1 &&
      ToU32(n) <= ToU32(ip) <= ToU32(b)
  {
    var q, j := PrefixNetworkShape(ip, p);
    var n := NetworkAddress(ip, PrefixMask(p));
    BlockOfShape(ip, n, BroadcastAddress(n, PrefixMask(p)), q, j);
  }

  // ---------------------------------------------------------------------
  // Host range and counts

  /** Lines 62-75 of `calculateHostRange`: a copy of the octets plus one, carried from the last octet leftwards. */
  method Increment(a: seq<int>) returns (r: seq<int>)
    requires IsAddress(a)
    ensures |r| == 4 && ToU32(r) == ToU32(a) + 1
    ensures IsOctet(r[1]) && IsOctet(r[2]) && IsOctet(r[3]) && 0 <= r[0] <= 256
    ensures IsAddress(r) <==> a != [255, 255, 255, 255]
  {
    var host := new int[4];
    host[0], host[1], host[2], host[3] := a[0], a[1], a[2], a[3];
    host[3] := host[3] + 1;
    if host[3] > 255 {
      host[3] := 0;
      host[2] := host[2] + 1;
      if host[2] > 255 {
        host[2] := 0;
        host[1] := host[1] + 1;
        if host[1] > 255 {
          host[1] := 0;
          host[0] := host[0] + 1;
        }
      }
    }
    r := [host[0], host[1], host[2], host[3]];
  }

  /** Lines 78-91 of `calculateHostRange`: a copy of the octets minus one, borrowed from the last octet leftwards. */
  method Decrement(a: seq<int>) returns (r: seq<int>)
    requires IsAddress(a)
    ensures |r| == 4 && ToU32(r) == ToU32(a) - 1
    ensures IsOctet(r[1]) && IsOctet(r[2]) && IsOctet(r[3]) && -1 <= r[0] <= 255
    ensures IsAddress(r) <==> a != [0, 0, 0, 0]
  {
    var host := new int[4];
    host[0], host[1], host[2], host[3] := a[0], a[1], a[2], a[3];
    host[3] := host[3] - 1;
    if host[3] < 0 {
      host[3] := 255;
      host[2] := host[2] - 1;
      if host[2] < 0 {
        host[2] := 255;
        host[1] := host[1] - 1;
        if host[1] < 0 {
          host[1] := 255;
          host[0] := host[0] - 1;
        }
      }
    }
    r := [host[0], host[1], host[2], host[3]];
  }

  /**
   * `calculateHostRange`: the first host is the network plus one and the
   * last host the broadcast minus one, as 32-bit numbers. Octet 0 is never
   * wrapped, so the first host of 255.255.255.255 has octet 0 equal to 256
   * and the last host of 0.0.0.0 has octet 0 equal to -1.
   */
  method CalculateHostRange(network: seq<int>, broadcast: seq<int>) returns (first: seq<int>, last: seq<int>)
    requires IsAddress(network) && IsAddress(broadcast)
    ensures |first| == 4 && |last| == 4
    ensures IsOctet(first[1]) && IsOctet(first[2]) && IsOctet(first[3]) && 0 <= first[0] <= 256
    ensures IsOctet(last[1]) && IsOctet(last[2]) && IsOctet(last[3]) && -1 <= last[0] <= 255
    ensures ToU32(first) == ToU32(network) + 1
    ensures ToU32(last) == ToU32(broadcast) - 1
    ensures IsAddress(first) <==> network != [255, 255, 255, 255]
    ensures IsAddress(last) <==> broadcast != [0, 0, 0, 0]
  {
    first := Increment(network);
    last := Decrement(broadcast);
  }

  /**
   * A host address as `calculateHostRange` leaves it is fixed by its 32-bit
   * value: octets 1 to 3 are octets, and octet 0 takes whatever is left.
   */
  lemma HostOctetsUnique(x: seq<int>, y: seq<int>)
    requires |x| == 4 && |y| == 4
    requires IsOctet(x[1]) && IsOctet(x[2]) && IsOctet(x[3])
    requires IsOctet(y[1]) && IsOctet(y[2]) && IsOctet(y[3])
    requires ToU32(x) == ToU32(y)
    ensures x == y
  {
    var n := ToU32(x);
    DivModUnique(n, 0x100_0000, x[0], x[1] * 0x1_0000 + x[2] * 0x100 + x[3]);
    DivModUnique(n, 0x100_0000, y[0], y[1] * 0x1_0000 + y[2] * 0x100 + y[3]);
    var r := x[1] * 0x1_0000 + x[2] * 0x100 + x[3];
    DivModUnique(r, 0x1_0000, x[1], x[2] * 0x100 + x[3]);
    DivModUnique(r, 0x1_0000, y[1], y[2] * 0x100 + y[3]);
    DivModUnique(x[2] * 0x100 + x[3], 0x100, x[2], x[3]);
    DivModUnique(x[2] * 0x100 + x[3], 0x100, y[2], y[3]);
    assert forall i :: 0 <= i < 4 ==> x[i] == y[i];
  }

  /** The host count at the edges: unclamped, /31 gives 0 and /32 gives -1; /0 gives `2^32 - 2`. */
  lemma HostCountEdges()
    ensures HostCount(31) == 0 && HostCount(32) == -1
    ensures HostCount(0) == 0xFFFF_FFFE
  {
    Pow2Octet();
  }
}
