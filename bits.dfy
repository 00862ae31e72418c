/**
 * Integer facts behind the calculator: powers of two (`Math.pow(2, k)`),
 * the bitwise `&` and `|` of JavaScript on non-negative operands, and the
 * base-2 digit strings of `Number.prototype.toString(2)`.
 */
module Bits {
  import opened Text

  /** `Math.pow(2, k)`, exact for the exponents 0..32 the calculator uses. */
  function Pow2(k: nat): (r: nat)
    ensures r >= 1
  {
    if k == 0 then 1 else 2 * Pow2(k - 1)
  }

  lemma {:induction false} Pow2Add(a: nat, b: nat)
    ensures Pow2(a + b) == Pow2(a) * Pow2(b)
    decreases a
  {
    if a > 0 {
      Pow2Add(a - 1, b);
      assert Pow2(a + b) == 2 * Pow2(a - 1 + b);
    }
  }

  lemma {:induction false} Pow2Monotone(a: nat, b: nat)
    requires a < b
    ensures 2 * Pow2(a) <= Pow2(b)
    decreases b
  {
    if a + 1 < b {
      Pow2Monotone(a, b - 1);
    }
  }

  /** Only the first two powers of two are below 4. */
  lemma Pow2AtLeastFour(k: nat)
    ensures Pow2(k) >= 4 <==> k >= 2
  {
    if k >= 2 {
      Pow2Monotone(1, k);
    }
  }

  lemma Pow2Octet()
    ensures Pow2(8) == 256 && Pow2(16) == 0x1_0000 && Pow2(24) == 0x100_0000 && Pow2(32) == 0x1_0000_0000
  {
    assert Pow2(8) == 256;
    Pow2Add(8, 8);
    Pow2Add(16, 8);
    Pow2Add(16, 16);
  }

  // ---------------------------------------------------------------------
  // Division with remainder

  lemma DivModUnique(x: int, d: int, q: int, r: int)
    requires d > 0 && 0 <= r < d && x == d * q + r
    ensures x / d == q && x % d == r
  {
    var q', r' := x / d, x % d;
    assert d * q' + r' == d * q + r;
    if q' > q {
      MulStep(d, q, q' - q - 1);
    } else if q' < q {
      MulStep(d, q', q - q' - 1);
    }
  }

  lemma DivMod(x: int, d: int)
    requires d > 0
    ensures x == d * (x / d) + x % d && 0 <= x % d < d
  {
  }

  /** Clearing the remainder leaves a multiple: `(x - x mod d) mod d == 0`. */
  lemma RoundDownIsMultiple(x: int, d: int)
    requires d > 0
    ensures x - x % d == d * (x / d) && (x - x % d) % d == 0
  {
    DivMod(x, d);
    DivModUnique(x - x % d, d, x / d, 0);
  }

  lemma MulLe(a: int, b: int, c: int)
    requires a <= b && c >= 0
    ensures a * c <= b * c
  {
    assert b * c - a * c == (b - a) * c;
  }

  lemma MulSubDistributes(a: int, b: int, c: int)
    ensures (a - b) * c == a * c - b * c
  {
  }

  lemma MulStep(d: int, a: int, e: int)
    requires d > 0 && e >= 0
    ensures d * (a + e + 1) >= d * a + d
  {
    assert d * (a + e + 1) == d * a + d * e + d;
    assert d * e >= 0;
  }

  /** The low `j` bits of `x` are its lowest bit followed by the low `j - 1` bits of `x / 2`. */
  lemma ModPow2Step(x: nat, j: nat)
    requires j >= 1
    ensures x % Pow2(j) == x % 2 + 2 * ((x / 2) % Pow2(j - 1))
    ensures x / Pow2(j) == (x / 2) / Pow2(j - 1)
  {
    var p := Pow2(j - 1);
    var t, s := (x / 2) / p, (x / 2) % p;
    assert x / 2 == p * t + s;
    assert x == Pow2(j) * t + (2 * s + x % 2);
    DivModUnique(x, Pow2(j), t, 2 * s + x % 2);
  }

  // ---------------------------------------------------------------------
  // Bitwise AND and OR on natural numbers

  /** `x & y` for non-negative operands, one binary digit at a time. */
  function BitAnd(x: nat, y: nat): (r: nat)
    ensures r <= x && r <= y
    decreases x
  {
    if x == 0 || y == 0 then 0
    else 2 * BitAnd(x / 2, y / 2) + (if x % 2 == 1 && y % 2 == 1 then 1 else 0)
  }

  /** `x | y` for non-negative operands, one binary digit at a time. */
  function BitOr(x: nat, y: nat): (r: nat)
    ensures x <= r && y <= r && r <= x + y
    decreases x + y
  {
    if x == 0 then y
    else if y == 0 then x
    else 2 * BitOr(x / 2, y / 2) + (if x % 2 == 1 || y % 2 == 1 then 1 else 0)
  }

  lemma BitAndStep(x: nat, y: nat)
    ensures BitAnd(x, y) == 2 * BitAnd(x / 2, y / 2) + (if x % 2 == 1 && y % 2 == 1 then 1 else 0)
  {
  }

  lemma BitOrStep(x: nat, y: nat)
    ensures BitOr(x, y) == 2 * BitOr(x / 2, y / 2) + (if x % 2 == 1 || y % 2 == 1 then 1 else 0)
  {
    if x == 0 {
      assert BitOr(0, y / 2) == y / 2;
    } else if y == 0 {
      assert BitOr(x / 2, 0) == x / 2;
    }
  }

  /** OR of two `k`-bit numbers is a `k`-bit number. */
  lemma {:induction false} BitOrBound(x: nat, y: nat, k: nat)
    requires x < Pow2(k) && y < Pow2(k)
    ensures BitOr(x, y) < Pow2(k)
    decreases k
  {
    if k > 0 {
      BitOrStep(x, y);
      BitOrBound(x / 2, y / 2, k - 1);
    }
  }

  /** Masking twice with the same mask changes nothing: `(x & m) & m == x & m`. */
  lemma {:induction false} BitAndIdempotent(x: nat, m: nat)
    ensures BitAnd(BitAnd(x, m), m) == BitAnd(x, m)
    decreases x
  {
    if x > 0 {
      BitAndIdempotent(x / 2, m);
      var n := BitAnd(x, m);
      BitAndStep(x, m);
      BitAndStep(n, m);
      assert n / 2 == BitAnd(x / 2, m / 2);
      BitAndIdempotent(x / 2, m / 2);
    }
  }

  /**
   * Setting the bits outside a `k`-bit mask and masking again gives the
   * masked value back: `((x & m) | ~m) & m == x & m`, where `c` is the
   * `k`-bit complement of `m`.
   */
  lemma {:induction false} MaskedOrComplement(x: nat, m: nat, c: nat, k: nat)
    requires x < Pow2(k) && m < Pow2(k) && c == Pow2(k) - 1 - m
    ensures BitAnd(BitOr(BitAnd(x, m), c), m) == BitAnd(x, m)
    decreases k
  {
    if k > 0 {
      var h := Pow2(k - 1);
      assert Pow2(k) == 2 * h;
      HalveComplement(m, h);
      var n := BitAnd(x, m);
      BitAndStep(x, m);
      var nb := if x % 2 == 1 && m % 2 == 1 then 1 else 0;
      assert n == 2 * BitAnd(x / 2, m / 2) + nb;
      assert n / 2 == BitAnd(x / 2, m / 2) && n % 2 == nb;
      var o := BitOr(n, c);
      BitOrStep(n, c);
      var ob := if n % 2 == 1 || c % 2 == 1 then 1 else 0;
      assert o == 2 * BitOr(n / 2, c / 2) + ob;
      assert o / 2 == BitOr(n / 2, c / 2) && o % 2 == ob;
      BitAndStep(o, m);
      MaskedOrComplement(x / 2, m / 2, c / 2, k - 1);
    }
  }

  /** Halving the `k`-bit complement `2h - 1 - m` of `m` complements its halves. */
  lemma HalveComplement(m: nat, h: nat)
    requires m < 2 * h
    ensures (2 * h - 1 - m) % 2 == 1 - m % 2
    ensures (2 * h - 1 - m) / 2 == h - 1 - m / 2
    ensures m / 2 < h
  {
  }

  /** AND with `k` ones keeps every bit of a `k`-bit number. */
  lemma {:induction false} BitAndLowOnes(x: nat, k: nat)
    requires x < Pow2(k)
    ensures BitAnd(x, Pow2(k) - 1) == x
    decreases k
  {
    if k > 0 {
      BitAndStep(x, Pow2(k) - 1);
      BitAndLowOnes(x / 2, k - 1);
    }
  }

  /**
   * AND with a mask of `k - j` ones over `j` zeros clears the low `j` bits of
   * a `k`-bit number: `x & (2^k - 2^j) == x - x mod 2^j`.
   */
  lemma {:induction false} BitAndHighMask(x: nat, k: nat, j: nat, m: nat)
    requires j <= k && x < Pow2(k) && m + Pow2(j) == Pow2(k)
    ensures BitAnd(x, m) == x - x % Pow2(j)
    decreases j
  {
    if j == 0 {
      BitAndLowOnes(x, k);
    } else {
      var h, g := Pow2(k - 1), Pow2(j - 1);
      assert Pow2(k) == 2 * h && Pow2(j) == 2 * g;
      assert m % 2 == 0 && m / 2 + g == h && x / 2 < h;
      BitAndStep(x, m);
      assert BitAnd(x, m) == 2 * BitAnd(x / 2, m / 2);
      BitAndHighMask(x / 2, k - 1, j - 1, m / 2);
      ModPow2Step(x, j);
    }
  }

  /** OR with `j` ones fills the low `j` bits of a multiple of `2^j`. */
  lemma {:induction false} BitOrLowOnes(x: nat, j: nat)
    requires x % Pow2(j) == 0
    ensures BitOr(x, Pow2(j) - 1) == x + Pow2(j) - 1
    decreases j
  {
    if j > 0 {
      var h := Pow2(j - 1);
      assert Pow2(j) == 2 * h;
      ModPow2Step(x, j);
      assert x % 2 == 0 && (x / 2) % h == 0;
      assert (2 * h - 1) % 2 == 1 && (2 * h - 1) / 2 == h - 1;
      BitOrStep(x, 2 * h - 1);
      BitOrLowOnes(x / 2, j - 1);
    }
  }

  // ---------------------------------------------------------------------
  // Binary digit strings

  /** Every character is a base-2 digit. */
  predicate BinaryDigits(s: string) { forall i :: 0 <= i < |s| ==> s[i] == '0' || s[i] == '1' }

  /** `n.toString(2)`: the shortest base-2 digit string of `n`. */
  function ToBinary(n: nat): (s: string)
    ensures s != [] && BinaryDigits(s)
    decreases n
  {
    if n < 2 then [if n == 0 then '0' else '1']
    else ToBinary(n / 2) + [if n % 2 == 0 then '0' else '1']
  }

  /** `s.padStart(width, fill)` for a one-character fill. */
  function PadStart(s: string, width: nat, fill: char): (r: string)
    ensures |r| == if |s| >= width then |s| else width
    ensures r[|r| - |s|..] == s
    ensures forall i :: 0 <= i < |r| - |s| ==> r[i] == fill
  {
    if |s| >= width then s else Repeat(fill, width - |s|) + s
  }

  /** Padding base-2 digits with '0' keeps them base-2 digits. */
  lemma PadStartBinary(s: string, width: nat)
    requires BinaryDigits(s)
    ensures BinaryDigits(PadStart(s, width, '0'))
  {
    var r := PadStart(s, width, '0');
    forall i | |r| - |s| <= i < |r| ensures r[i] == '0' || r[i] == '1' {
      assert r[i] == r[|r| - |s|..][i - (|r| - |s|)];
    }
  }

  /** The number a base-2 digit string denotes ('1' is one, any other digit zero). */
  function BinaryValue(s: string): nat
  {
    if s == [] then 0 else 2 * BinaryValue(s[..|s| - 1]) + (if s[|s| - 1] == '1' then 1 else 0)
  }

  /** The number of '1' digits in `s` (`(s.match(/1/g) || []).length`). */
  function CountOnes(s: string): (r: nat)
    ensures r <= |s|
  {
    if s == [] then 0 else (if s[0] == '1' then 1 else 0) + CountOnes(s[1..])
  }

  lemma {:induction false} BinaryValueOfToBinary(n: nat)
    ensures BinaryValue(ToBinary(n)) == n
    decreases n
  {
    if n >= 2 {
      BinaryValueOfToBinary(n / 2);
      var s := ToBinary(n);
      assert s[..|s| - 1] == ToBinary(n / 2);
    }
  }

  lemma {:induction false} ToBinaryLength(n: nat, k: nat)
    requires k >= 1 && n < Pow2(k)
    ensures |ToBinary(n)| <= k
    decreases k
  {
    if n >= 2 {
      ToBinaryLength(n / 2, k - 1);
    }
  }

  lemma {:induction false} BinaryValueLeadingZeros(z: nat, s: string)
    ensures BinaryValue(Repeat('0', z) + s) == BinaryValue(s)
    decreases |s|, z
  {
    var t := Repeat('0', z) + s;
    if s == [] {
      assert t == Repeat('0', z);
      if z > 0 {
        assert t[..|t| - 1] == Repeat('0', z - 1) + [];
        BinaryValueLeadingZeros(z - 1, []);
      }
    } else {
      assert t[..|t| - 1] == Repeat('0', z) + s[..|s| - 1];
      BinaryValueLeadingZeros(z, s[..|s| - 1]);
    }
  }

  lemma {:induction false} CountOnesAppend(a: string, b: string)
    ensures CountOnes(a + b) == CountOnes(a) + CountOnes(b)
    decreases |a|
  {
    if a != [] {
      var ab := a + b;
      assert ab[0] == a[0] && ab[1..] == a[1..] + b;
      CountOnesAppend(a[1..], b);
      assert CountOnes(ab) == (if ab[0] == '1' then 1 else 0) + CountOnes(ab[1..]);
    } else {
      assert a + b == b;
    }
  }

  lemma {:induction false} CountOnesRepeat(c: char, n: nat)
    ensures CountOnes(Repeat(c, n)) == if c == '1' then n else 0
    decreases n
  {
    if n > 0 {
      assert Repeat(c, n)[1..] == Repeat(c, n - 1);
      CountOnesRepeat(c, n - 1);
    }
  }

  /** `2^k - 1` is written as `k` ones. */
  lemma {:induction false} ToBinaryAllOnes(k: nat)
    requires k >= 1
    ensures ToBinary(Pow2(k) - 1) == Repeat('1', k)
    decreases k
  {
    if k > 1 {
      Pow2Monotone(1, k);
      ToBinaryAllOnes(k - 1);
      assert Repeat('1', k - 1) + ['1'] == Repeat('1', k);
    }
  }

  /** `2^k - 2^j` is written as `k - j` ones followed by `j` zeros. */
  lemma {:induction false} ToBinaryOnesThenZeros(k: nat, j: nat, m: nat)
    requires j < k && m + Pow2(j) == Pow2(k)
    ensures ToBinary(m) == Repeat('1', k - j) + Repeat('0', j)
    decreases j
  {
    if j == 0 {
      ToBinaryAllOnes(k);
      assert Repeat('0', 0) == [];
    } else {
      Pow2Monotone(j, k);
      ToBinaryOnesThenZeros(k - 1, j - 1, m / 2);
      assert Repeat('1', k - j) + Repeat('0', j - 1) + ['0'] == Repeat('1', k - j) + Repeat('0', j);
    }
  }
}
